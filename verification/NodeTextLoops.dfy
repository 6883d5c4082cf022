/** The printer and the cursor-driven parser as the client runs them. */
module NodeTextLoops {
  import opened TreeModel
  import opened Text
  import opened NodeText

  // ---- the printer ----

  /** Appending a piece moves it from what is still to be printed to what is printed. */
  lemma Emit(out: string, piece: string, todo: string)
    ensures out + piece + todo == out + (piece + todo)
  {
  }

  method AppendLengthString(out: string, name: string, s: string, ghost todo: string) returns (r: string)
    ensures r + todo == out + LengthString(name, s, todo)
  {
    hide Numeral;
    r := out + (name + " ") + Numeral(|s|, 10) + " :\n" + s + "\n";
  }

  method FormatTreeNodeText(n: TreeNode) returns (out: string)
    ensures out == FormatNode(n)
  {
    hide Numeral, Listed, InfoTexts, InfoText, LengthString;
    ghost var all := FormatNode(n);
    out := "TreeNode(\n";
    out := PrintLabel(n, out);
    out := AppendLengthString(out, "description", n.description, InfosText(n, ""));
    assert out + InfosText(n, "") == all;
    out := PrintInfos(n, out, all);
    out := PrintVersion(n, out, all);
    out := PrintChildren(n, out, all);
    assert TextsText(n, "") == LengthString("query_how_to", OrEmpty(n.queryHowTo),
                                 LengthString("qa_sequence", OrEmpty(n.qaSequence), SpanText("")));
    out := AppendLengthString(out, "query_how_to", OrEmpty(n.queryHowTo),
                              LengthString("qa_sequence", OrEmpty(n.qaSequence), SpanText("")));
    out := AppendLengthString(out, "qa_sequence", OrEmpty(n.qaSequence), SpanText(""));
    Emit(out, EMPTY_SPAN, ")\n" + "");
    out := out + EMPTY_SPAN;
    out := out + ")\n";
  }

  method PrintLabel(n: TreeNode, printed: string) returns (out: string)
    requires printed == "TreeNode(\n"
    ensures out + LengthString("description", n.description, InfosText(n, "")) == FormatNode(n)
  {
    hide LengthString, InfosText;
    ghost var todo := LengthString("description", n.description, InfosText(n, ""));
    out := printed;
    Emit(out, "label_rule: ", n.labelRule + ("\n" + todo));
    out := out + "label_rule: ";
    Emit(out, n.labelRule, "\n" + todo);
    out := out + n.labelRule;
    Emit(out, "\n", todo);
    out := out + "\n";
  }

  method PrintInfos(n: TreeNode, printed: string, ghost all: string) returns (out: string)
    requires printed + InfosText(n, "") == all
    ensures out + VersionPart(n, "") == all
  {
    hide Listed, VersionPart, InfoTexts;
    var infos := n.propertyInfos;
    ghost var texts := InfoTexts(infos);
    ghost var todo := "], " + VersionPart(n, "");
    Emit(printed, "property_infos: [ ", Listed(texts) + todo);
    out := printed + "property_infos: [ ";
    assert texts[0..] == texts;
    for i := 0 to |infos|
      invariant out + (Listed(texts[i..]) + todo) == all
    {
      assert texts[i..][1..] == texts[i + 1..];
      ListedHead(texts[i..]);
      Emit(out, texts[i] + ", ", Listed(texts[i + 1..]) + todo);
      Emit(texts[i] + ", ", Listed(texts[i + 1..]), todo);
      InfoPieces(out, infos[i]);
      out := out + infos[i].typeName + " (" + infos[i].name + "), ";
    }
    assert Listed(texts[|infos|..]) == "" by { NothingListed(); }
    Emit(out, "], ", VersionPart(n, ""));
    out := out + "], ";
  }

  lemma InfoPieces(out: string, info: PropertyInfo)
    ensures out + info.typeName + " (" + info.name + "), " == out + (InfoText(info) + ", ")
  {
  }

  lemma NothingListed()
    ensures Listed([]) == ""
  {
  }

  method PrintVersion(n: TreeNode, printed: string, ghost all: string) returns (out: string)
    requires printed + VersionPart(n, "") == all
    ensures out + ChildrenText(n, "") == all
  {
    hide ChildrenText, VersionText;
    Emit(printed, "version: ", VersionText(n.version) + (", " + ChildrenText(n, "")));
    out := printed + "version: ";
    Emit(out, VersionText(n.version), ", " + ChildrenText(n, ""));
    out := out + VersionText(n.version);
    Emit(out, ", ", ChildrenText(n, ""));
    out := out + ", ";
  }

  method PrintChildren(n: TreeNode, printed: string, ghost all: string) returns (out: string)
    requires printed + ChildrenText(n, "") == all
    ensures out + TextsText(n, "") == all
  {
    hide Listed, TextsText;
    var names := n.childNames;
    ghost var todo := "], " + TextsText(n, "");
    Emit(printed, "child_names: [ ", Listed(names) + todo);
    out := printed + "child_names: [ ";
    assert names[0..] == names;
    for i := 0 to |names|
      invariant out + (Listed(names[i..]) + todo) == all
    {
      assert names[i..][1..] == names[i + 1..];
      ListedHead(names[i..]);
      Emit(out, names[i] + ", ", Listed(names[i + 1..]) + todo);
      Emit(names[i] + ", ", Listed(names[i + 1..]), todo);
      Emit(out, names[i], ", ");
      out := out + names[i] + ", ";
    }
    assert Listed(names[|names|..]) == "" by { NothingListed(); }
    Emit(out, "], ", TextsText(n, ""));
    out := out + "], ";
  }

  // ---- the parser ----

  method ExpectAtCursor(text: string, i: nat, token: string) returns (ok: bool, next: nat)
    requires i <= |text|
    ensures ok <==> Expect(text[i..], token).Some?
    ensures next <= |text| && (ok ==> Expect(text[i..], token) == Some(text[next..]))
  {
    ok := token <= text[i..];
    next := if ok then i + |token| else i;
    assert ok ==> text[i..][|token|..] == text[next..];
  }

  lemma DigitsStep(src: string, i: nat)
    requires i <= |src|
    ensures DigitsPrefix(src[i..], 10) ==
            if i < |src| && DigitValue(src[i]) < 10 then 1 + DigitsPrefix(src[i + 1..], 10) else 0
  {
    if i < |src| { assert src[i..][1..] == src[i + 1..]; }
  }

  method ReadDigits(src: string, cur: nat) returns (num: string, i: nat)
    requires cur <= |src|
    ensures i == cur + DigitsPrefix(src[cur..], 10)
    ensures num == src[cur..][..DigitsPrefix(src[cur..], 10)]
  {
    hide DigitsPrefix;
    i, num := cur, "";
    assert src[cur..cur] == "";
    while i < |src| && DigitValue(src[i]) < 10
      invariant cur <= i <= |src| && num == src[cur..i]
      invariant cur + DigitsPrefix(src[cur..], 10) == i + DigitsPrefix(src[i..], 10)
    {
      DigitsStep(src, i);
      assert src[cur..i + 1] == src[cur..i] + [src[i]];
      num := num + [src[i]];
      i := i + 1;
    }
    DigitsStep(src, i);
    assert src[cur..][..i - cur] == src[cur..i];
  }

  /** A name and a length, then that many characters and a newline; the cursor moves behind it. */
  method ParseLengthStringAt(src: string, cur: nat, expectLabel: string)
    returns (r: Option<Parsed<string>>, next: nat)
    requires cur <= |src|
    ensures r == ParseLengthString(src[cur..], expectLabel)
    ensures r.Some? ==> next <= |src| && src[next..] == r.value.rest
  {
    hide Expect, DigitsPrefix, NumeralValue;
    next := cur;
    var ok, i := ExpectAtCursor(src, cur, expectLabel + " ");
    if !ok { return None, next; }
    var num, j := ReadDigits(src, i);
    assert src[i..][DigitsPrefix(src[i..], 10)..] == src[j..];
    ok, j := ExpectAtCursor(src, j, " :");
    if !ok { return None, next; }
    ok, j := ExpectAtCursor(src, j, "\n");
    if !ok { return None, next; }
    var n := NumeralValue(num, 10);
    if j + n >= |src| || src[j + n] != '\n' { return None, next; }
    next := j + n + 1;
    assert src[j..][..n] == src[j..j + n] && src[j..][n + 1..] == src[next..];
    r := Some(Parsed(src[j..j + n], src[next..]));
  }

  /** The text up to a mark and the cursor behind the mark. */
  method UntilMark(text: string, i: nat, mark: string) returns (r: Option<string>, next: nat)
    requires i <= |text|
    ensures next <= |text|
    ensures match r
            case None => Until(text[i..], mark) == None
            case Some(part) => Until(text[i..], mark) == Some(Parsed(part, text[next..]))
  {
    next := i;
    var at := IndexOf(text[i..], mark);
    if at.None? {
      return None, next;
    }
    next := i + at.value + |mark|;
    assert text[i..][..at.value] == text[i..i + at.value];
    assert text[i..][at.value + |mark|..] == text[next..];
    r := Some(text[i..i + at.value]);
  }

  method ReadInfos(items: seq<string>) returns (infos: seq<PropertyInfo>)
    ensures infos == ParseInfos(items)
  {
    infos := [];
    for k := 0 to |items|
      invariant infos == ParseInfos(items[..k])
    {
      assert items[..k + 1][..k] == items[..k];
      infos := infos + ParseInfo(items[k]);
    }
    assert items[..|items|] == items;
  }

  method ParseTreeNodeText(text: string) returns (r: Option<TreeNode>)
    ensures r == ParseNode(text)
  {
    hide Expect, ParseLengthString, Until, Items, ParseInfos, ParseVersion, ParseTail, IndexOf;
    assert text[0..] == text;
    var ok, i := ExpectAtCursor(text, 0, "TreeNode(\n");
    if !ok { return None; }
    ok, i := ExpectAtCursor(text, i, "label_rule: ");
    if !ok { return None; }
    var labelRule := "";
    var nl := IndexOf(text[i..], "\n");
    if nl.Some? {
      labelRule := text[i..i + nl.value];
      assert text[i..][..nl.value] == labelRule && text[i..][nl.value + 1..] == text[i + nl.value + 1..];
      i := i + nl.value + 1;
    }
    var description;
    description, i := ParseLengthStringAt(text, i, "description");
    if description.None? { return None; }
    ok, i := ExpectAtCursor(text, i, "property_infos: [ ");
    if !ok { return None; }
    var propLine;
    propLine, i := UntilMark(text, i, "], ");
    if propLine.None? { return None; }
    var infos := ReadInfos(Items(propLine.value));
    ok, i := ExpectAtCursor(text, i, "version: ");
    if !ok { return None; }
    var verStr;
    verStr, i := UntilMark(text, i, ", ");
    if verStr.None? { return None; }
    var version := ParseVersion(verStr.value);
    if version.None? { return None; }
    ok, i := ExpectAtCursor(text, i, "child_names: [ ");
    if !ok { return None; }
    var childLine;
    childLine, i := UntilMark(text, i, "], ");
    if childLine.None? { return None; }
    r := ParseTexts(text, i, TreeNode(labelRule, description.value.value, infos, version.value,
                                      Items(childLine.value), "", None, None));
  }

  method ParseTexts(text: string, start: nat, node: TreeNode) returns (r: Option<TreeNode>)
    requires start <= |text|
    ensures r == ParseTail(text[start..], node)
  {
    hide Expect, ParseLengthString;
    var query, i := ParseLengthStringAt(text, start, "query_how_to");
    if query.None? { return None; }
    var qa;
    qa, i := ParseLengthStringAt(text, i, "qa_sequence");
    if qa.None? { return None; }
    var flags := ParseFlags(text[i..]);
    if flags.None? { return None; }
    var rest := flags.value.rest;
    assert rest[0..] == rest;
    var ok, j := ExpectAtCursor(rest, 0, EMPTY_SPAN);
    if !ok { return None; }
    ok, j := ExpectAtCursor(rest, j, ")\n");
    if !ok { return None; }
    var queryFlag := if flags.value.value.Some? then Some(flags.value.value.value.0) else None;
    var qaFlag := if flags.value.value.Some? then Some(flags.value.value.value.1) else None;
    r := Some(node.(queryHowTo := OptionalText(queryFlag, query.value.value),
                    qaSequence := OptionalText(qaFlag, qa.value.value)));
  }
}
