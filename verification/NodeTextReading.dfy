/** Which texts the parts of the node parser accept, and what they read, whoever wrote the text. */
module NodeTextReading {
  import opened TreeModel
  import opened Text
  import opened NodeText

  /** A name, a count in decimal digits, which may have leading zeros or none at all, and that many characters. */
  predicate IsLengthString(text: string, name: string, digits: string, s: string, rest: string) {
    && IsNumeral(digits, 10) && NumeralValue(digits, 10) == |s|
    && text == name + " " + (digits + (" :\n" + (s + ("\n" + rest))))
  }

  lemma ExpectExactly(text: string, token: string, rest: string)
    ensures Expect(text, token) == Some(rest) <==> text == token + rest
  {
    if text == token + rest { ExpectAt(token, rest); }
  }

  /** Behind the name, the digits and the colon. */
  lemma LengthSteps(text: string, name: string, digits: string, u: string, body: string)
    requires text == name + " " + (digits + u) && u == " :" + ("\n" + body) && IsNumeral(digits, 10)
    ensures var n := NumeralValue(digits, 10);
            ParseLengthString(text, name) ==
            if n < |body| && body[n] == '\n' then Some(Parsed(body[..n], body[n + 1..])) else None
  {
    var t := digits + u;
    ExpectAt(name + " ", t);
    DigitsPrefixAt(digits, u);
    ExpectAt(" :", "\n" + body);
    ExpectAt("\n", body);
    hide DigitsPrefix, NumeralValue, IsNumeral, Expect;
    assert t[..|digits|] == digits && t[|digits|..] == u;
  }

  lemma LengthParts(name: string, digits: string, body: string, s: string, rest: string)
    requires body == s + ("\n" + rest)
    ensures name + " " + (digits + (" :" + ("\n" + body))) == name + " " + (digits + (" :\n" + (s + ("\n" + rest))))
  {
    assert " :\n" == " :" + "\n";
    assert " :" + ("\n" + body) == " :\n" + body;
  }

  lemma LengthStringIsRead(text: string, name: string, digits: string, s: string, rest: string)
    requires IsLengthString(text, name, digits, s, rest)
    ensures ParseLengthString(text, name) == Some(Parsed(s, rest))
  {
    var body := s + ("\n" + rest);
    LengthParts(name, digits, body, s, rest);
    LengthSteps(text, name, digits, " :" + ("\n" + body), body);
    hide ParseLengthString, NumeralValue;
    assert body[..|s|] == s && body[|s|] == '\n' && body[|s| + 1..] == rest;
  }

  lemma LengthStepsNeeded(text: string, name: string)
    requires ParseLengthString(text, name).Some?
    ensures Expect(text, name + " ").Some?
    ensures var t := Expect(text, name + " ").value;
            var n := DigitsPrefix(t, 10);
            Expect(t[n..], " :").Some? && Expect(Expect(t[n..], " :").value, "\n").Some?
  {
    hide Expect, DigitsPrefix, NumeralValue, IsNumeral;
  }

  lemma ReadLength(text: string, name: string) returns (digits: string, body: string)
    requires ParseLengthString(text, name).Some?
    ensures IsNumeral(digits, 10) && text == name + " " + (digits + (" :" + ("\n" + body)))
  {
    hide ParseLengthString, Expect, DigitsPrefix, NumeralValue, IsNumeral;
    LengthStepsNeeded(text, name);
    var t := Expect(text, name + " ").value;
    var n := DigitsPrefix(t, 10);
    var u := Expect(t[n..], " :").value;
    body := Expect(u, "\n").value;
    ExpectExactly(text, name + " ", t);
    ExpectExactly(t[n..], " :", u);
    ExpectExactly(u, "\n", body);
    digits := t[..n];
    assert t == digits + t[n..];
  }

  lemma BodyParts(body: string, n: nat)
    requires n < |body| && body[n] == '\n'
    ensures body == body[..n] + ("\n" + body[n + 1..]) && |body[..n]| == n
  {
  }

  lemma ReadLengthString(text: string, name: string) returns (digits: string)
    ensures match ParseLengthString(text, name)
            case None => true
            case Some(p) => IsLengthString(text, name, digits, p.value, p.rest)
  {
    hide *;
    digits := "";
    if ParseLengthString(text, name).Some? {
      var body;
      digits, body := ReadLength(text, name);
      LengthSteps(text, name, digits, " :" + ("\n" + body), body);
      var n := NumeralValue(digits, 10);
      BodyParts(body, n);
      LengthParts(name, digits, body, body[..n], body[n + 1..]);
      LengthStringOf(text, name, digits, body[..n], body[n + 1..]);
    }
  }

  lemma LengthStringOf(text: string, name: string, digits: string, s: string, rest: string)
    requires IsNumeral(digits, 10) && NumeralValue(digits, 10) == |s|
    requires text == name + " " + (digits + (" :\n" + (s + ("\n" + rest))))
    ensures IsLengthString(text, name, digits, s, rest)
  {
    hide IsNumeral, NumeralValue;
  }

  /** Exactly such a text is read as a text with its length in front. */
  lemma LengthStringExactly(text: string, name: string, s: string, rest: string)
    ensures ParseLengthString(text, name) == Some(Parsed(s, rest)) <==>
            exists digits :: IsLengthString(text, name, digits, s, rest)
  {
    var digits := ReadLengthString(text, name);
    hide ParseLengthString, IsLengthString;
    if digits :| IsLengthString(text, name, digits, s, rest) {
      LengthStringIsRead(text, name, digits, s, rest);
    }
  }

  /** A number is as many decimal digits as there are, at least one. */
  lemma NumberExactly(text: string, w: string, rest: string)
    ensures ParseNumber(text) == Some(Parsed(w, rest)) <==>
            text == w + rest && w != "" && IsNumeral(w, 10) && (rest == "" || DigitValue(rest[0]) >= 10)
  {
    if text == w + rest && IsNumeral(w, 10) && (rest == "" || DigitValue(rest[0]) >= 10) { DigitsPrefixAt(w, rest); }
    var n := DigitsPrefix(text, 10);
    hide DigitsPrefix, IsNumeral, DigitValue;
    assert text == text[..n] + text[n..];
  }

  /** A word is as many characters other than white space as there are, at least one. */
  lemma WordExactly(text: string, w: string, rest: string)
    ensures ParseWord(text) == Some(Parsed(w, rest)) <==>
            text == w + rest && w != "" && NoSpace(w) && (rest == "" || IsSpace(rest[0]))
  {
    if text == w + rest && NoSpace(w) && (rest == "" || IsSpace(rest[0])) { WordPrefixAt(w, rest); }
    var n := WordPrefix(text);
    hide WordPrefix, IsSpace;
    assert text == text[..n] + text[n..];
  }

  lemma MarkStands(text: string, mark: string, n: nat, a: string, rest: string)
    ensures StandsAt(text, mark, n) && a == text[..n] && rest == text[n + |mark|..] <==>
            |a| == n && text == a + (mark + rest)
  {
    if StandsAt(text, mark, n) { assert text == text[..n] + (mark + text[n + |mark|..]); }
    if |a| == n && text == a + (mark + rest) {
      assert text[..n] == a && text[n..n + |mark|] == mark && text[n + |mark|..] == rest;
    }
  }

  /** Up to the first place where the mark stands. */
  lemma UntilExactly(text: string, mark: string, a: string, rest: string)
    ensures Until(text, mark) == Some(Parsed(a, rest)) <==>
            text == a + (mark + rest) && forall j: nat | j < |a| :: !StandsAt(text, mark, j)
  {
    var at := IndexOf(text, mark);
    IndexOfExactly(text, mark, |a|);
    MarkStands(text, mark, |a|, a, rest);
    if at.Some? {
      IndexOfExactly(text, mark, at.value);
      assert |text[..at.value]| == at.value;
    }
    hide IndexOf, StandsAt;
  }

  /** The word "Just", white space, and a word. */
  predicate IsJust(w: string, gap: string, word: string) {
    && w == "Just" + (gap + word) && gap != "" && word != "" && NoSpace(word)
    && forall i :: 0 <= i < |gap| ==> IsSpace(gap[i])
  }

  lemma JustIs(text: string, t: string, w: Parsed<string>)
    requires Expect(text, "Just") == Some(t) && !("Nothing" <= text)
    requires |TrimStart(t)| < |t| && ParseWord(TrimStart(t)) == Some(w)
    ensures ParseMaybeWord(text) == Some(Parsed("Just" + t[..|t| - |TrimStart(t)|] + w.value, w.rest))
  {
    hide Expect, TrimStart, ParseWord;
  }

  lemma JustPieces(gap: string, word: string, rest: string)
    ensures var t := gap + (word + rest);
            && "Just" + (gap + word) + rest == "Just" + t && !("Nothing" <= "Just" + t)
            && |t| - |word + rest| == |gap| && t[..|gap|] == gap && "Just" + gap + word == "Just" + (gap + word)
  {
    assert ("Just" + (gap + (word + rest)))[0] == 'J';
  }

  lemma JustIsRead(text: string, w: string, gap: string, word: string, rest: string)
    requires text == w + rest && IsJust(w, gap, word) && (rest == "" || IsSpace(rest[0]))
    ensures ParseMaybeWord(text) == Some(Parsed(w, rest))
  {
    var t := gap + (word + rest);
    JustPieces(gap, word, rest);
    assert !IsSpace((word + rest)[0]) by { WordStart(word); }
    hide ParseMaybeWord, Expect, TrimStart, ParseWord, IsSpace, NoSpace;
    ExpectAt("Just", t);
    TrimStartAt(gap, word + rest);
    WordExactly(word + rest, word, rest);
    JustIs(text, t, Parsed(word, rest));
  }

  lemma JustSteps(text: string)
    requires ParseMaybeWord(text).Some? && !("Nothing" <= text)
    ensures Expect(text, "Just").Some?
    ensures var t := Expect(text, "Just").value;
            var u := TrimStart(t);
            && |u| < |t| && ParseWord(u).Some?
            && ParseMaybeWord(text) ==
               Some(Parsed("Just" + t[..|t| - |u|] + ParseWord(u).value.value, ParseWord(u).value.rest))
  {
    var t := Expect(text, "Just").value;
    TrimStartLength(t);
    hide Expect, TrimStart, ParseWord;
  }

  lemma ReadJust(text: string) returns (gap: string, word: string)
    requires ParseMaybeWord(text).Some? && !("Nothing" <= text)
    ensures var p := ParseMaybeWord(text).value;
            text == p.value + p.rest && IsJust(p.value, gap, word) && (p.rest == "" || IsSpace(p.rest[0]))
  {
    JustSteps(text);
    hide ParseMaybeWord, Expect, TrimStart, ParseWord, IsSpace, NoSpace, IsJust;
    var t := Expect(text, "Just").value;
    ExpectExactly(text, "Just", t);
    var u := TrimStart(t);
    TrimStartIs(t);
    var w := ParseWord(u).value;
    WordExactly(u, w.value, w.rest);
    gap, word := t[..|t| - |u|], w.value;
    JustGrouped(gap, word, w.rest, t);
  }

  lemma JustGrouped(gap: string, word: string, rest: string, t: string)
    requires t == gap + (word + rest) && gap != "" && word != "" && NoSpace(word)
    requires forall i :: 0 <= i < |gap| ==> IsSpace(gap[i])
    ensures IsJust("Just" + gap + word, gap, word) && "Just" + t == "Just" + gap + word + rest
  {
    hide IsSpace, NoSpace;
    assert "Just" + gap + word == "Just" + (gap + word);
  }

  lemma ReadMaybeWord(text: string) returns (gap: string, word: string)
    ensures match ParseMaybeWord(text)
            case None => true
            case Some(p) =>
              && text == p.value + p.rest
              && (p.value == "Nothing" || (IsJust(p.value, gap, word) && (p.rest == "" || IsSpace(p.rest[0]))))
  {
    gap, word := "", "";
    if "Nothing" <= text {
      assert text == "Nothing" + text[7..];
    } else if ParseMaybeWord(text).Some? {
      gap, word := ReadJust(text);
    }
  }

  /** An optional word of the version: "Nothing", or "Just", white space and a word. */
  lemma MaybeWordExactly(text: string, w: string, rest: string)
    ensures ParseMaybeWord(text) == Some(Parsed(w, rest)) <==>
            && text == w + rest
            && (w == "Nothing" || ((exists gap, word :: IsJust(w, gap, word)) && (rest == "" || IsSpace(rest[0]))))
  {
    var gap', word' := ReadMaybeWord(text);
    if text == w + rest {
      if w == "Nothing" {
        assert ("Nothing" + rest)[..7] == "Nothing" && ("Nothing" + rest)[7..] == rest;
      } else if gap, word :| IsJust(w, gap, word) {
        hide ParseMaybeWord, IsJust;
        if rest == "" || IsSpace(rest[0]) { JustIsRead(text, w, gap, word, rest); }
      }
    }
  }

  /** Which value an optional word of the version has: what is not "Nothing" and has no "Just " is taken as it is. */
  lemma MaybeTexts(w: string)
    ensures TextToMaybe("Nothing") == None && TextToMaybe("") == None
    ensures TextToMaybe("Just " + w) == Some(w)
    ensures w != "" && w != "Nothing" && !("Just " <= w) ==> TextToMaybe(w) == Some(w)
  {
    assert ("Just " + w)[0] == 'J' && ("Just " + w)[5..] == w;
  }

  /** A number that is none, or zero, gives way to the default. */
  lemma NumberOrIs(s: string, byDefault: nat)
    ensures ParseInt(s, 10) == None || ParseInt(s, 10) == Some(0) ==> NumberOr(s, byDefault) == byDefault
    ensures ParseInt(s, 10).Some? && ParseInt(s, 10) != Some(0) ==> Some(NumberOr(s, byDefault)) == ParseInt(s, 10)
  {
  }

  /** The collision depth is read behind the fifth character, trimmed; without a number it is zero. */
  lemma DepthTexts(c: char, s: string)
    ensures TextToDepth("Nothing") == None && TextToDepth("Just") == Some(0)
    ensures TextToDepth("Just" + ([c] + s)) ==
            Some(match ParseInt(Trim(s), 10) case None => 0 case Some(n) => n)
  {
    var token := "Just" + ([c] + s);
    assert token[0] == 'J' && token[5..] == s;
    assert TrimStart("") == "" && Trim("") == "";
    assert ParseInt("", 10) == None by { assert DigitsPrefix("", 10) == 0; }
    hide ParseInt, Trim;
  }

  // ---- the node ----

  /** What stands where in the text of a node, and what is left of the text behind each part. */
  datatype NodeParts = NodeParts(
    labelRule: string, afterLabel: string, description: string, infosOn: string, infos: string, versionOn: string,
    version: string, childrenOn: string, children: string, tail: string)

  /** The label up to the end of its line, the description, the infos, the version and the children, in this order. */
  ghost predicate HasParts(text: string, p: NodeParts) {
    && text == "TreeNode(\n" + ("label_rule: " + (p.labelRule + ("\n" + p.afterLabel))) && '\n' !in p.labelRule
    && ParseLengthString(p.afterLabel, "description") == Some(Parsed(p.description, "property_infos: [ " + p.infosOn))
    && Until(p.infosOn, "], ") == Some(Parsed(p.infos, "version: " + p.versionOn))
    && Until(p.versionOn, ", ") == Some(Parsed(p.version, "child_names: [ " + p.childrenOn))
    && Until(p.childrenOn, "], ") == Some(Parsed(p.children, p.tail))
  }

  /** What the parts in front of the long texts make of a node. */
  function NodeOf(p: NodeParts, version: TreeNodeVersion): TreeNode {
    TreeNode(p.labelRule, p.description, ParseInfos(Items(p.infos)), version, Items(p.children), "", None, None)
  }

  lemma PartsAreRead(text: string, p: NodeParts)
    requires HasParts(text, p)
    ensures ParseNode(text) ==
            match ParseVersion(p.version)
            case None => None
            case Some(version) => ParseTail(p.tail, NodeOf(p, version))
  {
    hide ParseLengthString, Until, ParseVersion, ParseTail, Items, ParseInfos, Expect, IndexOf;
    var t2 := p.labelRule + ("\n" + p.afterLabel);
    ExpectAt("TreeNode(\n", "label_rule: " + t2);
    ExpectAt("label_rule: ", t2);
    UntilAt(p.labelRule, "\n", p.afterLabel);
    LabelLineIs(t2, Parsed(p.labelRule, p.afterLabel));
    ExpectAt("property_infos: [ ", p.infosOn);
    ExpectAt("version: ", p.versionOn);
    ExpectAt("child_names: [ ", p.childrenOn);
  }

  lemma LabelLineIs(text: string, line: Parsed<string>)
    requires Until(text, "\n") == Some(line)
    ensures LabelLine(text) == line
  {
    hide IndexOf;
  }

  lemma {:induction false} CharIsFound(s: string, c: char)
    requires c in s
    ensures IndexOf(s, [c]).Some?
  {
    if !([c] <= s) {
      var i :| 0 <= i < |s| && s[i] == c;
      assert s[0] == c ==> [c] <= s;
      assert s[1..][i - 1] == c;
      CharIsFound(s[1..], c);
    }
  }

  lemma InBehind(a: string, b: string, c: char)
    ensures c in b ==> c in a + b
    ensures c in [c] + b
  {
    assert ([c] + b)[0] == c;
    if c in b {
      var i :| 0 <= i < |b| && b[i] == c;
      assert (a + b)[|a| + i] == c;
    }
  }

  lemma LengthNeedsLine(text: string, name: string)
    requires ParseLengthString(text, name).Some?
    ensures IndexOf(text, "\n").Some?
  {
    var digits, body := ReadLength(text, name);
    hide *;
    InBehind("", body, '\n');
    InBehind(" :", "\n" + body, '\n');
    InBehind(digits, " :" + ("\n" + body), '\n');
    InBehind(name + " ", digits + (" :" + ("\n" + body)), '\n');
    CharIsFound(text, '\n');
  }

  lemma NodeSteps(text: string) returns (t2: string, line: Parsed<string>, description: Parsed<string>, t3: string)
    requires ParseNode(text).Some?
    ensures Expect(text, "TreeNode(\n") == Some("label_rule: " + t2) && line == LabelLine(t2)
    ensures ParseLengthString(line.rest, "description") == Some(description)
    ensures Expect(description.rest, "property_infos: [ ") == Some(t3)
    ensures Until(t3, "], ").Some?
    ensures var infos := Until(t3, "], ").value;
            && Expect(infos.rest, "version: ").Some?
            && var t4 := Expect(infos.rest, "version: ").value;
            && Until(t4, ", ").Some?
            && var version := Until(t4, ", ").value;
            && ParseVersion(version.value).Some? && Expect(version.rest, "child_names: [ ").Some?
            && Until(Expect(version.rest, "child_names: [ ").value, "], ").Some?
  {
    hide LabelLine, ParseLengthString, Until, ParseVersion, ParseTail, Items, ParseInfos, Expect;
    var t1 := Expect(text, "TreeNode(\n").value;
    t2 := Expect(t1, "label_rule: ").value;
    ExpectExactly(t1, "label_rule: ", t2);
    line := LabelLine(t2);
    description := ParseLengthString(line.rest, "description").value;
    t3 := Expect(description.rest, "property_infos: [ ").value;
  }

  lemma ReadParts(text: string) returns (p: NodeParts)
    requires ParseNode(text).Some?
    ensures HasParts(text, p) && ParseVersion(p.version).Some?
  {
    var t2, line, description, t3 := NodeSteps(text);
    hide *;
    var infos := Until(t3, "], ").value;
    var t4 := Expect(infos.rest, "version: ").value;
    var version := Until(t4, ", ").value;
    var t5 := Expect(version.rest, "child_names: [ ").value;
    var children := Until(t5, "], ").value;
    ExpectExactly(text, "TreeNode(\n", "label_rule: " + t2);
    ExpectExactly(description.rest, "property_infos: [ ", t3);
    ExpectExactly(infos.rest, "version: ", t4);
    ExpectExactly(version.rest, "child_names: [ ", t5);
    LabelLineParts(t2, line);
    p := NodeParts(line.value, line.rest, description.value, t3, infos.value, t4, version.value, t5,
                   children.value, children.rest);
    assert text == "TreeNode(\n" + ("label_rule: " + (p.labelRule + ("\n" + p.afterLabel)));
    PartsOf(text, p);
  }

  lemma PartsOf(text: string, p: NodeParts)
    requires text == "TreeNode(\n" + ("label_rule: " + (p.labelRule + ("\n" + p.afterLabel))) && '\n' !in p.labelRule
    requires ParseLengthString(p.afterLabel, "description") == Some(Parsed(p.description, "property_infos: [ " + p.infosOn))
    requires Until(p.infosOn, "], ") == Some(Parsed(p.infos, "version: " + p.versionOn))
    requires Until(p.versionOn, ", ") == Some(Parsed(p.version, "child_names: [ " + p.childrenOn))
    requires Until(p.childrenOn, "], ") == Some(Parsed(p.children, p.tail))
    ensures HasParts(text, p)
  {
    hide ParseLengthString, Until;
  }

  lemma LineEnds(text: string)
    requires ParseLengthString(LabelLine(text).rest, "description").Some?
    ensures IndexOf(text, "\n").Some?
  {
    LengthNeedsLine(LabelLine(text).rest, "description");
    hide ParseLengthString, IndexOf;
  }

  lemma LabelLineParts(text: string, line: Parsed<string>)
    requires line == LabelLine(text) && ParseLengthString(line.rest, "description").Some?
    ensures text == line.value + ("\n" + line.rest) && '\n' !in line.value
  {
    LineEnds(text);
    UntilIsLabelLine(text);
    hide ParseLengthString, Until, LabelLine, StandsAt;
    UntilExactly(text, "\n", line.value, line.rest);
    NoneInFront(line.value, "\n" + line.rest, '\n');
  }

  lemma NoneInFront(a: string, b: string, c: char)
    requires forall j: nat | j < |a| :: !StandsAt(a + b, [c], j)
    ensures c !in a
  {
    forall j: nat | j < |a| ensures a[j] != c {
      assert !StandsAt(a + b, [c], j);
      assert (a + b)[j] == a[j];
    }
  }

  lemma UntilIsLabelLine(text: string)
    requires IndexOf(text, "\n").Some?
    ensures Until(text, "\n") == Some(LabelLine(text))
  {
    hide IndexOf;
  }

  /** Exactly the texts with these parts, whose version can be read, are read as a node up to its long texts. */
  lemma NodeExactly(text: string, n: TreeNode)
    ensures ParseNode(text) == Some(n) <==>
            exists p :: HasParts(text, p) && ParseVersion(p.version).Some?
                        && ParseTail(p.tail, NodeOf(p, ParseVersion(p.version).value)) == Some(n)
  {
    hide ParseNode, HasParts, ParseVersion, ParseTail, NodeOf;
    if ParseNode(text) == Some(n) {
      var p := ReadParts(text);
      PartsAreRead(text, p);
    }
    if p :| HasParts(text, p) && ParseVersion(p.version).Some?
            && ParseTail(p.tail, NodeOf(p, ParseVersion(p.version).value)) == Some(n) {
      PartsAreRead(text, p);
    }
  }

  // ---- the long texts ----

  /** The line of flags is optional; what it says is read, and a line that says nothing known counts for none. */
  lemma FlagsExactly(text: string, flags: Option<(bool, bool)>, rest: string)
    ensures ParseFlags(text) == Some(Parsed(flags, rest)) <==>
            if "maybe_flags: " <= text
            then exists line :: text == "maybe_flags: " + (line + ("\n" + rest)) && '\n' !in line && flags == FlagsOf(line)
            else flags == None && rest == text
  {
    if "maybe_flags: " <= text {
      var t := text[|"maybe_flags: "|..];
      assert text == "maybe_flags: " + t;
      FlagsRest(text, t);
      hide ParseFlags, FlagsOf, IndexOf;
      if IndexOf(t, "\n").Some? {
        var line := LabelLine(t);
        UntilIsLabelLine(t);
        UntilExactly(t, "\n", line.value, line.rest);
        NoneInFront(line.value, "\n" + line.rest, '\n');
        assert text == "maybe_flags: " + (line.value + ("\n" + line.rest));
      }
      if line :| text == "maybe_flags: " + (line + ("\n" + rest)) && '\n' !in line && flags == FlagsOf(line) {
        assert t == line + ("\n" + rest);
        UntilAt(line, "\n", rest);
        LabelLineIs(t, Parsed(line, rest));
      }
    }
  }

  lemma FlagsRest(text: string, t: string)
    requires text == "maybe_flags: " + t
    ensures ParseFlags(text) ==
            if IndexOf(t, "\n").None? then None else Some(Parsed(FlagsOf(LabelLine(t).value), LabelLine(t).rest))
  {
    ExpectAt("maybe_flags: ", t);
    hide IndexOf, FlagsOf, Expect;
  }

  /** The two long texts and the flags, and what is left of the text behind each. */
  datatype TailParts = TailParts(
    query: string, qaOn: string, qa: string, flagsOn: string, flags: Option<(bool, bool)>, rest: string)

  /** Behind the texts and the flags stand an empty span and the end of the node. */
  ghost predicate HasTail(text: string, t: TailParts) {
    && ParseLengthString(text, "query_how_to") == Some(Parsed(t.query, t.qaOn))
    && ParseLengthString(t.qaOn, "qa_sequence") == Some(Parsed(t.qa, t.flagsOn))
    && ParseFlags(t.flagsOn) == Some(Parsed(t.flags, SpanText(t.rest)))
  }

  /** Without flags an empty text counts for none; with them the flag decides. */
  function TextRead(flag: Option<bool>, text: string): Option<string> {
    if flag == Some(false) || (flag == None && text == "") then None else Some(text)
  }

  /** Exactly such a tail is read, and it sets the two texts. */
  lemma TailExactly(text: string, node: TreeNode, n: TreeNode)
    ensures ParseTail(text, node) == Some(n) <==>
            exists t :: HasTail(text, t) && n == node.(queryHowTo := n.queryHowTo, qaSequence := n.qaSequence)
                        && (t.flags == None ==> n.queryHowTo == TextRead(None, t.query) && n.qaSequence == TextRead(None, t.qa))
                        && (t.flags.Some? ==>
                              && n.queryHowTo == TextRead(Some(t.flags.value.0), t.query)
                              && n.qaSequence == TextRead(Some(t.flags.value.1), t.qa))
  {
    if ParseTail(text, node).Some? {
      var t := ReadTail(text, node);
      TailIsRead(text, node, t);
    }
    hide ParseTail, HasTail;
    forall t | HasTail(text, t)
      ensures ParseTail(text, node) ==
              Some(node.(queryHowTo := TextRead(if t.flags.Some? then Some(t.flags.value.0) else None, t.query),
                         qaSequence := TextRead(if t.flags.Some? then Some(t.flags.value.1) else None, t.qa)))
    {
      TailIsRead(text, node, t);
    }
  }

  lemma TailIsRead(text: string, node: TreeNode, t: TailParts)
    requires HasTail(text, t)
    ensures ParseTail(text, node) ==
            Some(node.(queryHowTo := TextRead(if t.flags.Some? then Some(t.flags.value.0) else None, t.query),
                       qaSequence := TextRead(if t.flags.Some? then Some(t.flags.value.1) else None, t.qa)))
  {
    hide ParseLengthString, ParseFlags, Expect;
    ExpectAt(EMPTY_SPAN, ")\n" + t.rest);
    ExpectAt(")\n", t.rest);
  }

  lemma ReadTail(text: string, node: TreeNode) returns (t: TailParts)
    requires ParseTail(text, node).Some?
    ensures HasTail(text, t)
  {
    hide ParseLengthString, ParseFlags, Expect;
    var query := ParseLengthString(text, "query_how_to").value;
    var qa := ParseLengthString(query.rest, "qa_sequence").value;
    var flags := ParseFlags(qa.rest).value;
    var t1 := Expect(flags.rest, EMPTY_SPAN).value;
    var rest := Expect(t1, ")\n").value;
    ExpectExactly(flags.rest, EMPTY_SPAN, t1);
    ExpectExactly(t1, ")\n", rest);
    t := TailParts(query.value, query.rest, qa.value, qa.rest, flags.value, rest);
  }
}
