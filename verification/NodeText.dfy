/**
 The text form of a node: the printer, the parser, and what the parser reads back from a printed node.
 The property data is not part of the text.
 */
module NodeText {
  import opened TreeModel
  import opened Text

  // ---- the printer ----

  const EMPTY_SPAN :=
    "shared_span( " + ("signal_type: 0 " + ("signal_size: 0 " + ("data_size: 0 " + "chunk_data: [\n])\n")))

  /** A text with its length in front, followed by `rest`. */
  function LengthString(name: string, s: string, rest: string): string {
    name + " " + (Numeral(|s|, 10) + (" :\n" + (s + ("\n" + rest))))
  }

  function InfoText(info: PropertyInfo): string {
    info.typeName + " (" + info.name + ")"
  }

  function InfoTexts(infos: seq<PropertyInfo>): (r: seq<string>)
    ensures |r| == |infos| && forall i :: 0 <= i < |r| ==> r[i] == InfoText(infos[i])
  {
    if infos == [] then [] else InfoTexts(infos[..|infos| - 1]) + [InfoText(infos[|infos| - 1])]
  }

  function MaybeText(m: Option<string>): string {
    match m
    case None => "Nothing"
    case Some(s) => "Just" + (" " + s)
  }

  function DepthText(m: Option<int>): string {
    match m
    case None => "Nothing"
    case Some(n) => "Just" + (" " + Decimal(n))
  }

  datatype Kind = NumberField | WordField | MaybeField

  datatype Field = Field(name: string, kind: Kind)

  /** The version line: every field under its name and in front of a blank, in this order. */
  const VERSION_FIELDS := [
    Field("Version: ", NumberField), Field("Max_Version: ", NumberField), Field("Policy: ", WordField),
    Field("Authorial_Proof: ", MaybeField), Field("Authors: ", MaybeField), Field("Readers: ", MaybeField),
    Field("Collision_Depth: ", MaybeField)]

  function VersionValues(v: TreeNodeVersion): seq<string> {
    [Decimal(v.versionNumber), Decimal(v.maxVersionSequence), v.policy,
     MaybeText(v.authorialProof), MaybeText(v.authors), MaybeText(v.readers), DepthText(v.collisionDepth)]
  }

  function FieldsText(fields: seq<Field>, values: seq<string>): string
    requires |fields| == |values|
  {
    if fields == [] then "" else fields[0].name + (values[0] + (" " + FieldsText(fields[1..], values[1..])))
  }

  function VersionText(v: TreeNodeVersion): string {
    FieldsText(VERSION_FIELDS, VersionValues(v))
  }

  function OrEmpty(m: Option<string>): string {
    if m.Some? then m.value else ""
  }

  function SpanText(rest: string): string {
    EMPTY_SPAN + (")\n" + rest)
  }

  function TextsText(n: TreeNode, rest: string): string {
    LengthString("query_how_to", OrEmpty(n.queryHowTo),
      LengthString("qa_sequence", OrEmpty(n.qaSequence), SpanText(rest)))
  }

  function ChildrenText(n: TreeNode, rest: string): string {
    "child_names: [ " + (Listed(n.childNames) + ("], " + TextsText(n, rest)))
  }

  function VersionPart(n: TreeNode, rest: string): string {
    "version: " + (VersionText(n.version) + (", " + ChildrenText(n, rest)))
  }

  function InfosText(n: TreeNode, rest: string): string {
    "property_infos: [ " + (Listed(InfoTexts(n.propertyInfos)) + ("], " + VersionPart(n, rest)))
  }

  /** The printed node followed by `rest`. */
  function NodeTextThen(n: TreeNode, rest: string): string {
    "TreeNode(\n" + ("label_rule: " + (n.labelRule + ("\n" +
      LengthString("description", n.description, InfosText(n, rest)))))
  }

  function FormatNode(n: TreeNode): string {
    NodeTextThen(n, "")
  }

  // ---- the parser ----

  datatype Parsed<+T> = Parsed(value: T, rest: string)

  function Expect(text: string, token: string): Option<string> {
    if token <= text then Some(text[|token|..]) else None
  }

  function ParseLengthString(text: string, name: string): Option<Parsed<string>> {
    var t :- Expect(text, name + " ");
    var digits := DigitsPrefix(t, 10);
    var u :- Expect(t[digits..], " :");
    var body :- Expect(u, "\n");
    var n := NumeralValue(t[..digits], 10);
    if n < |body| && body[n] == '\n' then Some(Parsed(body[..n], body[n + 1..])) else None
  }

  function ParseNumber(text: string): Option<Parsed<string>> {
    var n := DigitsPrefix(text, 10);
    if n == 0 then None else Some(Parsed(text[..n], text[n..]))
  }

  function ParseWord(text: string): Option<Parsed<string>> {
    var n := WordPrefix(text);
    if n == 0 then None else Some(Parsed(text[..n], text[n..]))
  }

  /** (Nothing|Just\s+\S+) */
  function ParseMaybeWord(text: string): Option<Parsed<string>> {
    if "Nothing" <= text then Some(Parsed("Nothing", text[7..]))
    else
      var t :- Expect(text, "Just");
      var u := TrimStart(t);
      if |u| == |t| then None
      else
        var w :- ParseWord(u);
        TrimStartLength(t);
        Some(Parsed("Just" + t[..|t| - |u|] + w.value, w.rest))
  }

  lemma TrimStartLength(s: string)
    ensures |TrimStart(s)| <= |s| && s[|s| - |TrimStart(s)|..] == TrimStart(s)
  {
  }

  function TextToMaybe(token: string): Option<string> {
    if token == "Nothing" then None
    else if "Just " <= token then Some(token[5..])
    else if token != "" then Some(token) else None
  }

  /** parseInt(s, 10) || byDefault */
  function NumberOr(s: string, byDefault: nat): int {
    match ParseInt(s, 10)
    case None => byDefault
    case Some(v) => if v == 0 then byDefault else v
  }

  function TextToDepth(token: string): Option<int> {
    if token == "Nothing" then None
    else Some(NumberOr(Trim(if |token| >= 5 then token[5..] else ""), 0))
  }

  function ParseKind(text: string, kind: Kind): Option<Parsed<string>> {
    match kind
    case NumberField => ParseNumber(text)
    case WordField => ParseWord(text)
    case MaybeField => ParseMaybeWord(text)
  }

  function ParseFields(text: string, fields: seq<Field>): (r: Option<seq<string>>)
    ensures r.Some? ==> |r.value| == |fields|
    decreases |fields|
  {
    if fields == [] then (if text == "" then Some([]) else None)
    else
      var t :- Expect(text, fields[0].name);
      var value :- ParseKind(t, fields[0].kind);
      var rest :- Expect(value.rest, " ");
      var values :- ParseFields(rest, fields[1..]);
      Some([value.value] + values)
  }

  function ParseVersion(s: string): Option<TreeNodeVersion> {
    var values :- ParseFields(s, VERSION_FIELDS);
    Some(TreeNodeVersion(
      NumberOr(values[0], 0) % 0x1_0000, NumberOr(values[1], 256) % 0x1_0000, values[2],
      TextToMaybe(values[3]), TextToMaybe(values[4]), TextToMaybe(values[5]), TextToDepth(values[6])))
  }

  /** /^(\S+) \(([^)]*)\)$/ ; an item of another form is skipped. */
  function ParseInfo(item: string): seq<PropertyInfo> {
    var n := WordPrefix(item);
    if n > 0 && n + 3 <= |item| && item[n] == ' ' && item[n + 1] == '(' && item[|item| - 1] == ')'
       && ')' !in item[n + 2..|item| - 1]
    then [PropertyInfo(item[..n], item[n + 2..|item| - 1])]
    else []
  }

  function ParseInfos(items: seq<string>): seq<PropertyInfo> {
    if items == [] then [] else ParseInfos(items[..|items| - 1]) + ParseInfo(items[|items| - 1])
  }

  /** The optional line of flags that tell Just "" from Nothing; the printer does not write it. */
  function ParseFlags(text: string): Option<Parsed<Option<(bool, bool)>>> {
    match Expect(text, "maybe_flags: ")
    case None => Some(Parsed(None, text))
    case Some(t) =>
      var nl :- IndexOf(t, "\n");
      Some(Parsed(FlagsOf(t[..nl]), t[nl + 1..]))
  }

  function FlagsOf(line: string): Option<(bool, bool)> {
    if line == "qh=J qa=J" then Some((true, true))
    else if line == "qh=J qa=N" then Some((true, false))
    else if line == "qh=N qa=J" then Some((false, true))
    else if line == "qh=N qa=N" then Some((false, false))
    else None
  }

  function OptionalText(flag: Option<bool>, text: string): Option<string> {
    match flag
    case Some(just) => if just then Some(text) else None
    case None => if text != "" then Some(text) else None
  }

  function LabelLine(text: string): Parsed<string> {
    match IndexOf(text, "\n")
    case None => Parsed("", text)
    case Some(nl) => Parsed(text[..nl], text[nl + 1..])
  }

  /** The text before `mark` and what follows the mark; a text without the mark is rejected. */
  function Until(text: string, mark: string): Option<Parsed<string>> {
    var at :- IndexOf(text, mark);
    Some(Parsed(text[..at], text[at + |mark|..]))
  }

  function ParseTail(text: string, node: TreeNode): Option<TreeNode> {
    var query :- ParseLengthString(text, "query_how_to");
    var qa :- ParseLengthString(query.rest, "qa_sequence");
    var flags :- ParseFlags(qa.rest);
    var t1 :- Expect(flags.rest, EMPTY_SPAN);
    var t2 :- Expect(t1, ")\n");
    var queryFlag := if flags.value.Some? then Some(flags.value.value.0) else None;
    var qaFlag := if flags.value.Some? then Some(flags.value.value.1) else None;
    Some(node.(queryHowTo := OptionalText(queryFlag, query.value), qaSequence := OptionalText(qaFlag, qa.value)))
  }

  function ParseNode(text: string): Option<TreeNode> {
    var t1 :- Expect(text, "TreeNode(\n");
    var t2 :- Expect(t1, "label_rule: ");
    var line := LabelLine(t2);
    var description :- ParseLengthString(line.rest, "description");
    var t3 :- Expect(description.rest, "property_infos: [ ");
    var infos :- Until(t3, "], ");
    var t4 :- Expect(infos.rest, "version: ");
    var versionText :- Until(t4, ", ");
    var version :- ParseVersion(versionText.value);
    var t5 :- Expect(versionText.rest, "child_names: [ ");
    var children :- Until(t5, "], ");
    ParseTail(children.rest,
      TreeNode(line.value, description.value, ParseInfos(Items(infos.value)), version,
               Items(children.value), "", None, None))
  }

  // ---- which nodes can be printed ----

  predicate WordSafe(s: string) {
    s != "" && NoSpace(s) && ',' !in s
  }

  predicate MaybeWordSafe(m: Option<string>) {
    m.Some? ==> WordSafe(m.value)
  }

  predicate VersionSafe(v: TreeNodeVersion) {
    && WordSafe(v.policy)
    && MaybeWordSafe(v.authorialProof) && MaybeWordSafe(v.authors) && MaybeWordSafe(v.readers)
  }

  predicate InfoSafe(info: PropertyInfo) {
    && WordSafe(info.typeName) && ']' !in info.typeName
    && ',' !in info.name && ']' !in info.name && ')' !in info.name
  }

  /** Names and version fields stay clear of the separators; the three long texts are arbitrary. */
  predicate TextSafe(n: TreeNode) {
    && '\n' !in n.labelRule
    && (forall i :: 0 <= i < |n.propertyInfos| ==> InfoSafe(n.propertyInfos[i]))
    && (forall i :: 0 <= i < |n.childNames| ==> ListSafe(n.childNames[i]))
    && VersionSafe(n.version)
  }

  function NonEmpty(m: Option<string>): Option<string> {
    if m == Some("") then None else m
  }

  /** The numbers arrive in 16 bits, and a max version of zero as 256. */
  function RereadVersion(v: TreeNodeVersion): TreeNodeVersion {
    v.(versionNumber := v.versionNumber % 0x1_0000,
       maxVersionSequence := if v.maxVersionSequence == 0 then 256 else v.maxVersionSequence % 0x1_0000)
  }

  /** What the parser reads back: an empty optional text becomes Nothing. */
  function Reread(n: TreeNode): TreeNode {
    n.(propertyData := "", queryHowTo := NonEmpty(n.queryHowTo), qaSequence := NonEmpty(n.qaSequence),
       version := RereadVersion(n.version))
  }

  // ---- round trip, part by part ----

  lemma ExpectAt(token: string, rest: string)
    ensures Expect(token + rest, token) == Some(rest)
  {
    assert (token + rest)[|token|..] == rest;
  }

  lemma {:induction false} DigitsPrefixAt(digits: string, rest: string)
    requires IsNumeral(digits, 10) && (rest == "" || DigitValue(rest[0]) >= 10)
    ensures DigitsPrefix(digits + rest, 10) == |digits|
  {
    if digits == "" {
      assert digits + rest == rest;
    } else {
      assert (digits + rest)[1..] == digits[1..] + rest;
      DigitsPrefixAt(digits[1..], rest);
    }
  }

  /** The length tells where the text ends, so the text may contain anything. */
  lemma LengthStringRoundTrip(name: string, s: string, rest: string)
    ensures ParseLengthString(LengthString(name, s, rest), name) == Some(Parsed(s, rest))
  {
    var digits := Numeral(|s|, 10);
    var body := s + ("\n" + rest);
    assert " :\n" == " :" + "\n";
    assert " :\n" + body == " :" + ("\n" + body);
    var t := digits + (" :\n" + body);
    ExpectAt(name + " ", t);
    DigitsPrefixAt(digits, " :\n" + body);
    NumeralRoundTrip(|s|, 10);
    assert t[..|digits|] == digits && t[|digits|..] == " :\n" + body;
    ExpectAt(" :", "\n" + body);
    ExpectAt("\n", body);
    assert body[..|s|] == s && body[|s|] == '\n' && body[|s| + 1..] == rest;
  }

  lemma NumberRoundTrip(n: nat, rest: string)
    requires rest != "" && rest[0] == ' '
    ensures ParseNumber(Decimal(n) + rest) == Some(Parsed(Decimal(n), rest))
    ensures forall byDefault: nat :: NumberOr(Decimal(n), byDefault) == if n == 0 then byDefault else n
  {
    DigitsPrefixAt(Decimal(n), rest);
    ParseIntOfDecimal(n);
    assert (Decimal(n) + rest)[..|Decimal(n)|] == Decimal(n) && (Decimal(n) + rest)[|Decimal(n)|..] == rest;
  }

  lemma WordRoundTrip(word: string, rest: string)
    requires word != "" && NoSpace(word) && rest != "" && rest[0] == ' '
    ensures ParseWord(word + rest) == Some(Parsed(word, rest))
  {
    WordPrefixAt(word, rest);
    assert (word + rest)[..|word|] == word && (word + rest)[|word|..] == rest;
  }

  lemma JustRoundTrip(word: string, rest: string)
    requires word != "" && NoSpace(word) && rest != "" && rest[0] == ' '
    ensures ParseMaybeWord("Just" + (" " + word) + rest) == Some(Parsed("Just" + (" " + word), rest))
    ensures ("Just" + (" " + word))[5..] == word
  {
    hide Expect, ParseWord, TrimStart, IsSpace, NoSpace;
    var t := " " + (word + rest);
    var s := "Just" + (" " + word) + rest;
    assert s == "Just" + t && s[0] == 'J';
    ExpectAt("Just", t);
    assert !IsSpace((word + rest)[0]) by { WordStart(word); }
    TrimBlank(word + rest);
    WordRoundTrip(word, rest);
    assert t[..1] == " " && "Just" + " " + word == "Just" + (" " + word);
    assert ("Just" + (" " + word))[5..] == word;
  }

  lemma WordStart(word: string)
    requires word != "" && NoSpace(word)
    ensures !IsSpace(word[0])
  {
  }

  lemma TrimBlank(s: string)
    requires s != "" && !IsSpace(s[0])
    ensures TrimStart(" " + s) == s
  {
    assert (" " + s)[1..] == s;
  }

  lemma MaybeRoundTrip(m: Option<string>, rest: string)
    requires MaybeWordSafe(m) && rest != "" && rest[0] == ' '
    ensures ParseMaybeWord(MaybeText(m) + rest) == Some(Parsed(MaybeText(m), rest))
    ensures TextToMaybe(MaybeText(m)) == m
  {
    if m.Some? {
      JustRoundTrip(m.value, rest);
      assert MaybeText(m)[0] == 'J' && "Just " <= MaybeText(m);
    } else {
      assert ("Nothing" + rest)[..7] == "Nothing" && ("Nothing" + rest)[7..] == rest;
    }
  }

  lemma DecimalIsWord(n: int)
    ensures WordSafe(Decimal(n)) && Trim(Decimal(n)) == Decimal(n)
  {
    var s := Numeral(if n < 0 then -n else n, 10);
    forall i | 0 <= i < |s| ensures '0' <= s[i] <= '9' {
      assert DigitValue(s[i]) < 10;
    }
    var d := Decimal(n);
    assert forall i :: 0 <= i < |d| ==> d[i] == '-' || '0' <= d[i] <= '9';
  }

  lemma DepthRoundTrip(m: Option<int>, rest: string)
    requires rest != "" && rest[0] == ' '
    ensures ParseMaybeWord(DepthText(m) + rest) == Some(Parsed(DepthText(m), rest))
    ensures TextToDepth(DepthText(m)) == m
  {
    if m.Some? {
      hide ParseMaybeWord, Decimal, ParseInt, Trim;
      DecimalIsWord(m.value);
      JustRoundTrip(Decimal(m.value), rest);
      ParseIntOfDecimal(m.value);
    } else {
      assert ("Nothing" + rest)[..7] == "Nothing" && ("Nothing" + rest)[7..] == rest;
    }
  }

  /** A value of this kind is read back in front of any text that starts with a blank. */
  ghost predicate Readable(value: string, kind: Kind) {
    && ',' !in value
    && forall rest: string :: rest != "" && rest[0] == ' ' ==> ParseKind(value + rest, kind) == Some(Parsed(value, rest))
  }

  lemma ReadableAt(value: string, kind: Kind, rest: string)
    requires Readable(value, kind) && rest != "" && rest[0] == ' '
    ensures ',' !in value && ParseKind(value + rest, kind) == Some(Parsed(value, rest))
  {
  }

  lemma {:induction false} FieldsRoundTrip(fields: seq<Field>, values: seq<string>)
    requires |fields| == |values|
    requires forall i :: 0 <= i < |fields| ==> Readable(values[i], fields[i].kind) && ',' !in fields[i].name
    ensures ParseFields(FieldsText(fields, values), fields) == Some(values)
    ensures ',' !in FieldsText(fields, values)
  {
    hide Expect, ParseKind, Readable;
    if fields != [] {
      var rest := " " + FieldsText(fields[1..], values[1..]);
      assert forall i :: 0 <= i < |fields[1..]| ==> fields[1..][i] == fields[i + 1] && values[1..][i] == values[i + 1];
      FieldsRoundTrip(fields[1..], values[1..]);
      ExpectAt(fields[0].name, values[0] + rest);
      ExpectAt(" ", FieldsText(fields[1..], values[1..]));
      ReadableAt(values[0], fields[0].kind, rest);
      assert values == [values[0]] + values[1..];
    }
  }

  lemma ValuesReadable(v: TreeNodeVersion)
    requires VersionSafe(v)
    ensures forall i :: 0 <= i < 7 ==> Readable(VersionValues(v)[i], VERSION_FIELDS[i].kind)
  {
    DecimalIsWord(v.versionNumber);
    DecimalIsWord(v.maxVersionSequence);
    if v.collisionDepth.Some? { DecimalIsWord(v.collisionDepth.value); }
    forall rest: string | rest != "" && rest[0] == ' '
      ensures ParseNumber(Decimal(v.versionNumber) + rest) == Some(Parsed(Decimal(v.versionNumber), rest))
      ensures ParseNumber(Decimal(v.maxVersionSequence) + rest) == Some(Parsed(Decimal(v.maxVersionSequence), rest))
    {
      NumberRoundTrip(v.versionNumber, rest);
      NumberRoundTrip(v.maxVersionSequence, rest);
    }
    forall rest: string | rest != "" && rest[0] == ' '
      ensures ParseWord(v.policy + rest) == Some(Parsed(v.policy, rest))
    {
      WordRoundTrip(v.policy, rest);
    }
    MaybeReadable(v.authorialProof);
    MaybeReadable(v.authors);
    MaybeReadable(v.readers);
    forall rest: string | rest != "" && rest[0] == ' '
      ensures ParseMaybeWord(DepthText(v.collisionDepth) + rest) == Some(Parsed(DepthText(v.collisionDepth), rest))
    {
      DepthRoundTrip(v.collisionDepth, rest);
    }
  }

  lemma MaybeReadable(m: Option<string>)
    requires MaybeWordSafe(m)
    ensures Readable(MaybeText(m), MaybeField)
  {
    forall rest: string | rest != "" && rest[0] == ' '
      ensures ParseMaybeWord(MaybeText(m) + rest) == Some(Parsed(MaybeText(m), rest))
    {
      MaybeRoundTrip(m, rest);
    }
  }

  lemma FirstFieldNames()
    ensures forall i :: 0 <= i < 4 ==> ',' !in VERSION_FIELDS[i].name
  {
  }

  lemma LastFieldNames()
    ensures forall i :: 4 <= i < |VERSION_FIELDS| ==> ',' !in VERSION_FIELDS[i].name
  {
  }

  lemma VersionFieldsRoundTrip(v: TreeNodeVersion)
    requires VersionSafe(v)
    ensures ParseFields(VersionText(v), VERSION_FIELDS) == Some(VersionValues(v))
    ensures ',' !in VersionText(v)
  {
    hide ParseFields, FieldsText, VersionValues, Readable;
    FirstFieldNames();
    LastFieldNames();
    ValuesReadable(v);
    VersionValuesCount(v);
    FieldsRoundTrip(VERSION_FIELDS, VersionValues(v));
  }

  lemma VersionValuesCount(v: TreeNodeVersion)
    ensures |VersionValues(v)| == |VERSION_FIELDS| == 7
  {
  }

  lemma VersionRoundTrip(v: TreeNodeVersion)
    requires VersionSafe(v)
    ensures ParseVersion(VersionText(v)) == Some(RereadVersion(v))
  {
    hide ParseFields, VersionText, MaybeText, DepthText, TextToMaybe, TextToDepth, Decimal, NumberOr;
    hide ParseNumber, ParseMaybeWord;
    VersionFieldsRoundTrip(v);
    NumberRoundTrip(v.versionNumber, " ");
    NumberRoundTrip(v.maxVersionSequence, " ");
    MaybeRoundTrip(v.authorialProof, " ");
    MaybeRoundTrip(v.authors, " ");
    MaybeRoundTrip(v.readers, " ");
    DepthRoundTrip(v.collisionDepth, " ");
  }

  lemma InfoTextParts(info: PropertyInfo)
    ensures var s, n := InfoText(info), |info.typeName|;
            && s == info.typeName + (" (" + info.name + ")")
            && |s| == n + |info.name| + 3
            && s[..n] == info.typeName && s[n] == ' ' && s[n + 1] == '('
            && s[n + 2..|s| - 1] == info.name && s[|s| - 1] == ')'
  {
  }

  lemma InfoRoundTrip(info: PropertyInfo)
    requires InfoSafe(info)
    ensures ParseInfo(InfoText(info)) == [info]
    ensures ListSafe(InfoText(info))
  {
    InfoTextParts(info);
    WordPrefixAt(info.typeName, " (" + info.name + ")");
    assert InfoText(info)[0] == info.typeName[0];
  }

  lemma {:induction false} InfosRoundTrip(infos: seq<PropertyInfo>)
    requires forall i :: 0 <= i < |infos| ==> InfoSafe(infos[i])
    ensures ParseInfos(InfoTexts(infos)) == infos
  {
    hide InfoText, ParseInfo, InfoSafe, ListSafe;
    if infos != [] {
      var init, last := infos[..|infos| - 1], infos[|infos| - 1];
      InfosRoundTrip(init);
      InfoRoundTrip(last);
      var texts := InfoTexts(infos);
      assert texts[..|texts| - 1] == InfoTexts(init);
      assert infos == init + [last];
    }
  }

  lemma InfoTextsSafe(infos: seq<PropertyInfo>)
    requires forall i :: 0 <= i < |infos| ==> InfoSafe(infos[i])
    ensures forall i :: 0 <= i < |infos| ==> ListSafe(InfoTexts(infos)[i])
  {
    hide InfoText, ListSafe, InfoSafe;
    forall i | 0 <= i < |infos| ensures ListSafe(InfoTexts(infos)[i]) {
      InfoRoundTrip(infos[i]);
    }
  }

  lemma UntilAt(a: string, mark: string, rest: string)
    requires mark != "" && mark[0] !in a
    ensures Until(a + (mark + rest), mark) == Some(Parsed(a, rest))
  {
    var s := a + (mark + rest);
    assert a + mark + rest == s;
    IndexOfFirst(a, mark, rest);
    hide IndexOf;
    assert s[..|a|] == a && s[|a| + |mark|..] == rest;
  }

  lemma ListRoundTrip(xs: seq<string>, rest: string)
    requires forall i :: 0 <= i < |xs| ==> ListSafe(xs[i])
    ensures Until(Listed(xs) + ("], " + rest), "], ") == Some(Parsed(Listed(xs), rest))
    ensures Items(Listed(xs)) == xs
  {
    ListedHasNoBracket(xs);
    hide Until, IndexOf, Listed, Items, ListSafe;
    UntilAt(Listed(xs), "], ", rest);
    ItemsOfListed("", xs);
    assert "" + Listed(xs) == Listed(xs);
  }

  lemma NoFlags(rest: string)
    ensures ParseFlags(SpanText(rest)) == Some(Parsed(None, SpanText(rest)))
  {
    assert EMPTY_SPAN[0] == 's' && SpanText(rest)[0] == EMPTY_SPAN[0];
  }

  lemma TailRoundTrip(n: TreeNode, node: TreeNode, rest: string)
    ensures ParseTail(TextsText(n, rest), node) ==
            Some(node.(queryHowTo := NonEmpty(n.queryHowTo), qaSequence := NonEmpty(n.qaSequence)))
  {
    hide LengthString, ParseLengthString, ParseFlags, Expect;
    LengthStringRoundTrip("query_how_to", OrEmpty(n.queryHowTo),
      LengthString("qa_sequence", OrEmpty(n.qaSequence), SpanText(rest)));
    LengthStringRoundTrip("qa_sequence", OrEmpty(n.qaSequence), SpanText(rest));
    NoFlags(rest);
    ExpectAt(EMPTY_SPAN, ")\n" + rest);
    ExpectAt(")\n", rest);
  }

  /** The parser reads every printable node back, whatever its long texts contain and whatever follows it. */
  lemma NodeRoundTrip(n: TreeNode, rest: string)
    requires TextSafe(n)
    ensures ParseNode(NodeTextThen(n, rest)) == Some(Reread(n))
  {
    hide Expect, Until, IndexOf, LengthString, ParseLengthString, Listed, Items;
    hide VersionText, ParseVersion, VersionPart, InfoTexts, ParseInfos, TextsText, ParseTail;
    var t3 := LengthString("description", n.description, InfosText(n, rest));
    ExpectAt("TreeNode(\n", "label_rule: " + (n.labelRule + ("\n" + t3)));
    ExpectAt("label_rule: ", n.labelRule + ("\n" + t3));
    var t2 := n.labelRule + ("\n" + t3);
    assert n.labelRule + "\n" + t3 == t2;
    IndexOfFirst(n.labelRule, "\n", t3);
    assert t2[..|n.labelRule|] == n.labelRule && t2[|n.labelRule| + 1..] == t3;
    LengthStringRoundTrip("description", n.description, InfosText(n, rest));
    ExpectAt("property_infos: [ ", Listed(InfoTexts(n.propertyInfos)) + ("], " + VersionPart(n, rest)));
    InfosRoundTrip(n.propertyInfos);
    InfoTextsSafe(n.propertyInfos);
    ListRoundTrip(InfoTexts(n.propertyInfos), VersionPart(n, rest));
    VersionPartRoundTrip(n, rest);
    ExpectAt("child_names: [ ", Listed(n.childNames) + ("], " + TextsText(n, rest)));
    ListRoundTrip(n.childNames, TextsText(n, rest));
    TailRoundTrip(n,
      TreeNode(n.labelRule, n.description, n.propertyInfos, Reread(n).version, n.childNames, "", None, None), rest);
  }

  lemma VersionPartRoundTrip(n: TreeNode, rest: string)
    requires VersionSafe(n.version)
    ensures var t := VersionText(n.version) + (", " + ChildrenText(n, rest));
            && Expect(VersionPart(n, rest), "version: ") == Some(t)
            && Until(t, ", ") == Some(Parsed(VersionText(n.version), ChildrenText(n, rest)))
            && ParseVersion(VersionText(n.version)) == Some(Reread(n).version)
  {
    var t := VersionText(n.version) + (", " + ChildrenText(n, rest));
    hide VersionText, ParseVersion, ChildrenText;
    VersionRoundTrip(n.version);
    VersionFieldsRoundTrip(n.version);
    ExpectAt("version: ", t);
    assert VersionText(n.version) + ", " + ChildrenText(n, rest) == t;
    IndexOfFirst(VersionText(n.version), ", ", ChildrenText(n, rest));
    assert t[..|VersionText(n.version)|] == VersionText(n.version);
    assert t[|VersionText(n.version)| + 2..] == ChildrenText(n, rest);
  }

  /** A version arrives as it is just when its numbers fit 16 bits and the max version is not zero. */
  predicate VersionFits(v: TreeNodeVersion) {
    v.versionNumber < 0x1_0000 && 0 < v.maxVersionSequence < 0x1_0000
  }

  lemma RereadExactly(n: TreeNode)
    ensures Reread(n) == n.(propertyData := "") <==>
              n.queryHowTo != Some("") && n.qaSequence != Some("") && VersionFits(n.version)
  {
  }

  /** The round trip is exact just when no optional text is Just "" and the version fits. */
  lemma RoundTripIff(n: TreeNode)
    requires TextSafe(n)
    ensures ParseNode(FormatNode(n)) == Some(n.(propertyData := "")) <==>
              n.queryHowTo != Some("") && n.qaSequence != Some("") && VersionFits(n.version)
  {
    hide ParseNode, NodeTextThen, TextSafe, Reread, VersionFits;
    RereadExactly(n);
    NodeRoundTrip(n, "");
  }

  // ---- the text, piece by piece ----

  /** The version fields by name. */
  lemma VersionLayout(v: TreeNodeVersion)
    ensures VersionText(v) ==
            "Version: " + (Decimal(v.versionNumber) + (" " + (
            "Max_Version: " + (Decimal(v.maxVersionSequence) + (" " + (
            "Policy: " + (v.policy + (" " + (
            "Authorial_Proof: " + (MaybeText(v.authorialProof) + (" " + (
            "Authors: " + (MaybeText(v.authors) + (" " + (
            "Readers: " + (MaybeText(v.readers) + (" " + (
            "Collision_Depth: " + (DepthText(v.collisionDepth) + (" " + (
            "")))))))))))))))))))))
  {
    var fields, values := VERSION_FIELDS, VersionValues(v);
    FieldsTail(fields[5..], values[5..]);
    FieldsTail(fields[3..], values[3..]);
    FieldsTail(fields[1..], values[1..]);
    assert fields[1..][2..] == fields[3..] && fields[3..][2..] == fields[5..];
    assert values[1..][2..] == values[3..] && values[3..][2..] == values[5..];
    assert fields[5..][2..] == [] && values[5..][2..] == [];
    hide Decimal, MaybeText, DepthText;
  }

  lemma FieldsTail(fields: seq<Field>, values: seq<string>)
    requires |fields| == |values| >= 2
    ensures FieldsText(fields, values) ==
            fields[0].name + (values[0] + (" " + (
            fields[1].name + (values[1] + (" " + (
            FieldsText(fields[2..], values[2..])))))))
  {
    assert fields[1..][1..] == fields[2..] && values[1..][1..] == values[2..];
  }

  /** The parts of the text in their order, every text behind its name and length, every list in brackets. */
  lemma NodeTextLayout(n: TreeNode)
    ensures var texts := InfoTexts(n.propertyInfos);
            && (forall i :: 0 <= i < |texts| ==>
                  texts[i] == n.propertyInfos[i].typeName + " (" + n.propertyInfos[i].name + ")")
            && FormatNode(n) ==
               "TreeNode(\n" + ("label_rule: " + (n.labelRule + ("\n" + (
               "description" + " " + (Numeral(|n.description|, 10) + (" :\n" + (n.description + (
               "\n" + ("property_infos: [ " + (Listed(texts) + ("], " + (
               "version: " + (VersionText(n.version) + (", " + ("child_names: [ " + (
               Listed(n.childNames) + ("], " + ("query_how_to" + " " + (Numeral(|OrEmpty(n.queryHowTo)|, 10) + (
               " :\n" + (OrEmpty(n.queryHowTo) + ("\n" + ("qa_sequence" + " " + (
               Numeral(|OrEmpty(n.qaSequence)|, 10) + (" :\n" + (OrEmpty(n.qaSequence) + ("\n" + (
               ("shared_span( " + ("signal_type: 0 " + ("signal_size: 0 " + ("data_size: 0 " +
               "chunk_data: [\n])\n")))) + (")\n" + (""))))))))))))))))))))))))))))))
  {
    hide Numeral, Listed, VersionText, InfoTexts, OrEmpty;
  }

  function FlagsText(just: bool, qaJust: bool): string {
    match (just, qaJust)
    case (true, true) => "qh=J qa=J"
    case (true, false) => "qh=J qa=N"
    case (false, true) => "qh=N qa=J"
    case (false, false) => "qh=N qa=N"
  }

  lemma FlagsOfText(just: bool, qaJust: bool)
    ensures FlagsOf(FlagsText(just, qaJust)) == Some((just, qaJust)) && '\n' !in FlagsText(just, qaJust)
  {
    var line := FlagsText(just, qaJust);
    assert (line[3] == 'J' <==> just) && (line[8] == 'J' <==> qaJust);
  }

  lemma FlagsLine(line: string, rest: string)
    requires '\n' !in line
    ensures ParseFlags("maybe_flags: " + (line + ("\n" + rest))) == Some(Parsed(FlagsOf(line), rest))
  {
    ExpectAt("maybe_flags: ", line + ("\n" + rest));
    assert line + "\n" + rest == line + ("\n" + rest);
    IndexOfFirst(line, "\n", rest);
    hide Expect, IndexOf, FlagsOf;
    var t := line + ("\n" + rest);
    assert t[..|line|] == line && t[|line| + 1..] == rest;
  }

  /** With a line of flags, which another printer may write, the parser tells an empty text from none. */
  lemma FlagsRead(query: string, just: bool, qa: string, qaJust: bool, node: TreeNode, rest: string)
    ensures var flags := "maybe_flags: " + (FlagsText(just, qaJust) + ("\n" + SpanText(rest)));
            ParseTail(LengthString("query_how_to", query, LengthString("qa_sequence", qa, flags)), node) ==
            Some(node.(queryHowTo := if just then Some(query) else None, qaSequence := if qaJust then Some(qa) else None))
  {
    var flags := "maybe_flags: " + (FlagsText(just, qaJust) + ("\n" + SpanText(rest)));
    LengthStringRoundTrip("query_how_to", query, LengthString("qa_sequence", qa, flags));
    LengthStringRoundTrip("qa_sequence", qa, flags);
    FlagsOfText(just, qaJust);
    FlagsLine(FlagsText(just, qaJust), SpanText(rest));
    hide LengthString, ParseLengthString, ParseFlags, FlagsOf, FlagsText, Expect;
    ExpectAt(EMPTY_SPAN, ")\n" + rest);
    ExpectAt(")\n", rest);
  }

  /** An item is read exactly when it is a word, a blank and a name in round brackets without a closing one. */
  lemma ParseInfoExactly(item: string, info: PropertyInfo)
    ensures |ParseInfo(item)| <= 1
    ensures ParseInfo(item) == [info] <==>
            && item == info.typeName + " (" + info.name + ")"
            && info.typeName != "" && NoSpace(info.typeName) && ')' !in info.name
  {
    var form := info.typeName + " (" + info.name + ")";
    if item == form && info.typeName != "" && NoSpace(info.typeName) && ')' !in info.name {
      assert item == info.typeName + (" (" + info.name + ")");
      WordPrefixAt(info.typeName, " (" + info.name + ")");
      var n := |info.typeName|;
      assert item[..n] == info.typeName && item[n] == ' ' && item[n + 1] == '(' && item[|item| - 1] == ')';
      assert item[n + 2..|item| - 1] == info.name;
    }
    if ParseInfo(item) == [info] {
      var n := WordPrefix(item);
      assert item == item[..n] + " (" + item[n + 2..|item| - 1] + ")";
    }
  }

  lemma LengthStringThen(name: string, s: string, a: string, b: string)
    ensures LengthString(name, s, a) + b == LengthString(name, s, a + b)
  {
  }

  /** What follows a printed node is appended to its text. */
  lemma NodeTextAppend(n: TreeNode, rest: string)
    ensures NodeTextThen(n, rest) == FormatNode(n) + rest
  {
    hide LengthString, Listed, VersionText, InfoTexts;
    assert SpanText("") + rest == SpanText(rest);
    LengthStringThen("qa_sequence", OrEmpty(n.qaSequence), SpanText(""), rest);
    LengthStringThen("query_how_to", OrEmpty(n.queryHowTo),
      LengthString("qa_sequence", OrEmpty(n.qaSequence), SpanText("")), rest);
    assert ChildrenText(n, "") + rest == ChildrenText(n, rest);
    assert VersionPart(n, "") + rest == VersionPart(n, rest);
    assert InfosText(n, "") + rest == InfosText(n, rest);
    LengthStringThen("description", n.description, InfosText(n, ""), rest);
  }
}
