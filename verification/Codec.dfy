/** The nested wire format: nodes, notifications, versioned writes, transactions, and vectors of them. */
module Codec {
  import opened TreeModel
  import opened Text
  import opened NodeText
  import opened Chunks

  lemma Regroup<T>(a: seq<T>, b: seq<T>, rest: seq<T>)
    ensures a + b + rest == a + (b + rest) && (a + (b + rest))[|a|..] == b + rest
  {
  }

  // ---- Maybe<TreeNode> ----

  /** The text in front of the property data: the node and the number of data chunks in 16 digits. */
  function JustText(n: TreeNode, count: nat): string {
    "Just " + (NodeTextThen(n, "\n") + Padded(Numeral(count, 16), 16))
  }

  function MaybeNodeChunks(h: Header, m: Option<TreeNode>): (r: seq<Chunk>)
    ensures r != []
  {
    match m
    case None => LongStringChunks(h, "Nothing")
    case Some(n) =>
      var contents := Flattened(h, n.propertyData);
      LongStringChunks(h, JustText(n, |contents|)) + contents
  }

  function MaybeNodeSpan(chunks: seq<Chunk>): (r: Option<nat>)
    ensures r.Some? ==> r.value <= |chunks|
  {
    var s :- LongStringAt(chunks);
    var text := s.value;
    if text == "Nothing" then (if s.count <= |chunks| then Some(s.count) else None)
    else if |text| < 16 then None
    else
      var hex := text[|text| - 16..];
      if !IsNumeral(hex, 16) then None
      else
        var end := s.count + NumeralValue(hex, 16) % TWO_32;
        if end > |chunks| then None else Some(end)
  }

  function MaybeNodeAt(chunks: seq<Chunk>): Option<Decoded<Option<TreeNode>>> {
    var s :- LongStringAt(chunks);
    var text := s.value;
    if text == "Nothing" then Some(Decoded(s.count, None))
    else if !("Just " <= text) || |text| < 16 then None
    else
      var count := ParseUint32(text[|text| - 16..], 16);
      var node :- ParseNode(if |text| >= 21 then text[5..|text| - 16] else "");
      var end := s.count + count;
      if end > |chunks| then None
      else Some(Decoded(end, Some(node.(propertyData := Collected(chunks[s.count..end])))))
  }

  /** The nodes the text form carries without loss and whose sizes fit the 32-bit counts. */
  predicate NodeOk(n: TreeNode) {
    && TextSafe(n)
    && n.queryHowTo != Some("") && n.qaSequence != Some("") && VersionFits(n.version)
    && |n.propertyData| < TWO_32
    && |NodeTextThen(n, "\n")| + 21 < TWO_32
  }

  predicate MaybeNodeOk(m: Option<TreeNode>) {
    m.Some? ==> NodeOk(m.value)
  }

  lemma NothingFramed(h: Header)
    ensures Framed(MaybeNodeChunks(h, None), None, MaybeNodeSpan, MaybeNodeAt)
  {
    var e := LongStringChunks(h, "Nothing");
    LongStringFramed(h, "Nothing");
    hide LongStringChunks, LongStringAt, LongStringSpan;
    forall rest ensures MaybeNodeSpan(e + rest) == Some(|e|) && MaybeNodeAt(e + rest) == Some(Decoded(|e|, None)) {
      assert LongStringAt(e + rest) == Some(Decoded(|e|, "Nothing"));
    }
    forall k | 0 <= k < |e| ensures MaybeNodeSpan(e[..k]) == None {
      assert LongStringSpan(e[..k]) == None;
      NoSpanNoString(e[..k]);
    }
  }

  lemma NoSpanNoString(chunks: seq<Chunk>)
    requires LongStringSpan(chunks) == None
    ensures LongStringAt(chunks) == None
  {
  }

  /** The count behind the text is read back, whatever the text says. */
  lemma JustTextParts(n: TreeNode, count: nat)
    requires count < TWO_32
    ensures var text := JustText(n, count);
            && |text| == |NodeTextThen(n, "\n")| + 21
            && text != "Nothing" && "Just " <= text
            && text[5..|text| - 16] == NodeTextThen(n, "\n")
            && IsNumeral(text[|text| - 16..], 16)
            && NumeralValue(text[|text| - 16..], 16) % TWO_32 == count
            && ParseUint32(text[|text| - 16..], 16) == count
  {
    hide NodeTextThen, Numeral, NumeralValue, Padded, ParseInt, IsNumeral;
    var text := JustText(n, count);
    var hex := Padded(Numeral(count, 16), 16);
    Uint32Length(count);
    NumeralRoundTrip(count, 16);
    PaddedValue(Numeral(count, 16), 16, 16);
    ParseIntOfNumeral(hex, 16);
    assert text[0] == 'J';
    assert text[|text| - 16..] == hex;
  }

  /** At least one chunk, and never more than there are bytes. */
  lemma ContentsCount(h: Header, data: Bytes)
    requires |data| < TWO_32
    ensures |Flattened(h, data)| < TWO_32 && Collected(Flattened(h, data)) == data
  {
    FlattenedShape(h, data);
  }

  lemma JustWhole(h: Header, n: TreeNode, rest: seq<Chunk>)
    requires NodeOk(n)
    ensures var e := MaybeNodeChunks(h, Some(n));
            MaybeNodeSpan(e + rest) == Some(|e|) && MaybeNodeAt(e + rest) == Some(Decoded(|e|, Some(n)))
  {
    hide LongStringChunks, LongStringAt, LongStringSpan, Flattened, Collected, JustText, IsNumeral, NumeralValue;
    hide NodeTextThen, ParseNode, ParseUint32;
    var contents := Flattened(h, n.propertyData);
    ContentsCount(h, n.propertyData);
    var text := JustText(n, |contents|);
    JustTextParts(n, |contents|);
    var front := LongStringChunks(h, text);
    LongStringFramed(h, text);
    assert front + contents + rest == front + (contents + rest);
    assert LongStringAt(front + (contents + rest)) == Some(Decoded(|front|, text));
    NodeRoundTrip(n, "\n");
    assert (front + contents + rest)[|front|..|front| + |contents|] == contents;
  }

  lemma JustCut(h: Header, n: TreeNode, k: nat)
    requires NodeOk(n) && k < |MaybeNodeChunks(h, Some(n))|
    ensures MaybeNodeSpan(MaybeNodeChunks(h, Some(n))[..k]) == None
  {
    hide LongStringChunks, LongStringAt, LongStringSpan, Flattened, Collected, JustText, IsNumeral, NumeralValue;
    hide NodeTextThen, TextSafe, ParseUint32;
    var contents := Flattened(h, n.propertyData);
    ContentsCount(h, n.propertyData);
    var text := JustText(n, |contents|);
    JustTextParts(n, |contents|);
    var front := LongStringChunks(h, text);
    if k < |front| {
      assert (front + contents)[..k] == front[..k];
      LongStringCut(h, text, k);
      NoSpanNoString(front[..k]);
    } else {
      assert (front + contents)[..k] == front + contents[..k - |front|];
      LongStringWhole(h, text, contents[..k - |front|]);
    }
  }

  lemma JustFramed(h: Header, n: TreeNode)
    requires NodeOk(n)
    ensures Framed(MaybeNodeChunks(h, Some(n)), Some(n), MaybeNodeSpan, MaybeNodeAt)
  {
    hide MaybeNodeChunks, MaybeNodeSpan, MaybeNodeAt, NodeOk;
    var e := MaybeNodeChunks(h, Some(n));
    forall rest ensures MaybeNodeSpan(e + rest) == Some(|e|) && MaybeNodeAt(e + rest) == Some(Decoded(|e|, Some(n))) {
      JustWhole(h, n, rest);
    }
    forall k | 0 <= k < |e| ensures MaybeNodeSpan(e[..k]) == None {
      JustCut(h, n, k);
    }
  }

  lemma MaybeNodeFramed(h: Header, m: Option<TreeNode>)
    requires MaybeNodeOk(m)
    ensures Framed(MaybeNodeChunks(h, m), m, MaybeNodeSpan, MaybeNodeAt)
  {
    hide MaybeNodeChunks, MaybeNodeSpan, MaybeNodeAt, NodeOk, Framed;
    match m
    case None => NothingFramed(h);
    case Some(n) => JustFramed(h, n);
  }

  lemma MaybeNodeWhole(h: Header, m: Option<TreeNode>, rest: seq<Chunk>)
    requires MaybeNodeOk(m)
    ensures var e := MaybeNodeChunks(h, m);
            MaybeNodeSpan(e + rest) == Some(|e|) && MaybeNodeAt(e + rest) == Some(Decoded(|e|, m))
  {
    hide MaybeNodeChunks, MaybeNodeSpan, MaybeNodeAt, NodeOk;
    MaybeNodeFramed(h, m);
  }

  lemma MaybeNodeCut(h: Header, m: Option<TreeNode>, k: nat)
    requires MaybeNodeOk(m) && k < |MaybeNodeChunks(h, m)|
    ensures MaybeNodeSpan(MaybeNodeChunks(h, m)[..k]) == None
  {
    hide MaybeNodeChunks, MaybeNodeSpan, MaybeNodeAt, NodeOk;
    MaybeNodeFramed(h, m);
  }

  // ---- a line of text in front of a Maybe<TreeNode> ----

  function LineChunks(h: Header, line: string, m: Option<TreeNode>): (r: seq<Chunk>)
    ensures r != []
  {
    LongStringChunks(h, line) + MaybeNodeChunks(h, m)
  }

  function LineSpan(chunks: seq<Chunk>): (r: Option<nat>)
    ensures r.Some? ==> r.value <= |chunks|
  {
    var n :- LongStringSpan(chunks);
    var k :- MaybeNodeSpan(chunks[n..]);
    Some(n + k)
  }

  function LineAt(chunks: seq<Chunk>): Option<Decoded<(string, Option<TreeNode>)>> {
    var s :- LongStringAt(chunks);
    if s.count > |chunks| then None
    else
      var m :- MaybeNodeAt(chunks[s.count..]);
      Some(Decoded(s.count + m.count, (s.value, m.value)))
  }

  lemma LineWhole(h: Header, line: string, m: Option<TreeNode>, rest: seq<Chunk>)
    requires |line| < TWO_32 && MaybeNodeOk(m)
    ensures var e := LineChunks(h, line, m);
            LineSpan(e + rest) == Some(|e|) && LineAt(e + rest) == Some(Decoded(|e|, (line, m)))
  {
    hide LongStringChunks, LongStringAt, LongStringSpan, MaybeNodeChunks, MaybeNodeSpan, MaybeNodeAt;
    hide NodeOk;
    var a, b := LongStringChunks(h, line), MaybeNodeChunks(h, m);
    Regroup(a, b, rest);
    LongStringWhole(h, line, b + rest);
    MaybeNodeWhole(h, m, rest);
  }

  lemma LineCut(h: Header, line: string, m: Option<TreeNode>, k: nat)
    requires |line| < TWO_32 && MaybeNodeOk(m) && k < |LineChunks(h, line, m)|
    ensures LineSpan(LineChunks(h, line, m)[..k]) == None
  {
    hide LongStringChunks, LongStringAt, LongStringSpan, MaybeNodeChunks, MaybeNodeSpan, MaybeNodeAt, NodeOk;
    var a, b := LongStringChunks(h, line), MaybeNodeChunks(h, m);
    if k < |a| {
      assert (a + b)[..k] == a[..k];
      LongStringCut(h, line, k);
    } else {
      var tail := b[..k - |a|];
      assert (a + b)[..k] == a + tail && (a + tail)[|a|..] == tail;
      LongStringWhole(h, line, tail);
      MaybeNodeCut(h, m, |tail|);
    }
  }

  lemma LineFramed(h: Header, line: string, m: Option<TreeNode>)
    requires |line| < TWO_32 && MaybeNodeOk(m)
    ensures Framed(LineChunks(h, line, m), (line, m), LineSpan, LineAt)
  {
    hide LineChunks, LineSpan, LineAt, NodeOk;
    var e := LineChunks(h, line, m);
    forall rest ensures LineSpan(e + rest) == Some(|e|) && LineAt(e + rest) == Some(Decoded(|e|, (line, m))) {
      LineWhole(h, line, m, rest);
    }
    forall k | 0 <= k < |e| ensures LineSpan(e[..k]) == None {
      LineCut(h, line, m, k);
    }
  }

  // ---- SequentialNotification ----

  function NotificationLine(n: SequentialNotification): string {
    Decimal(n.number % TWO_32) + (" " + n.notification.labelRule)
  }

  function NotificationChunks(h: Header, n: SequentialNotification): (r: seq<Chunk>)
    ensures r != []
  {
    LineChunks(h, NotificationLine(n), n.notification.node)
  }

  function NotificationOf(line: string, node: Option<TreeNode>): SequentialNotification {
    match IndexOf(line, " ")
    case Some(sp) => SequentialNotification(ParseUint32(line[..sp], 10), Notification(line[sp + 1..], node))
    case None => SequentialNotification(ParseUint32(line, 10), Notification("", node))
  }

  function NotificationSpan(chunks: seq<Chunk>): (r: Option<nat>)
    ensures r.Some? ==> r.value <= |chunks|
  {
    LineSpan(chunks)
  }

  function NotificationAt(chunks: seq<Chunk>): Option<Decoded<SequentialNotification>> {
    var d :- LineAt(chunks);
    Some(Decoded(d.count, NotificationOf(d.value.0, d.value.1)))
  }

  predicate NotificationOk(n: SequentialNotification) {
    |NotificationLine(n)| < TWO_32 && MaybeNodeOk(n.notification.node)
  }

  /** What arrives: the number is cut to 32 bits. */
  function Cut(n: SequentialNotification): SequentialNotification {
    n.(number := n.number % TWO_32)
  }

  lemma NotificationLineRoundTrip(n: SequentialNotification)
    ensures NotificationOf(NotificationLine(n), n.notification.node) == Cut(n)
  {
    hide Decimal, ParseInt, IndexOf, NoSpace;
    var number := n.number % TWO_32;
    var digits := Decimal(number);
    var line := NotificationLine(n);
    DecimalIsWord(number);
    NotInWord(digits);
    assert line == digits + " " + n.notification.labelRule;
    IndexOfFirst(digits, " ", n.notification.labelRule);
    assert line[..|digits|] == digits && line[|digits| + 1..] == n.notification.labelRule;
    ParseIntOfDecimal(number);
  }

  lemma NotInWord(word: string)
    requires NoSpace(word)
    ensures ' ' !in word
  {
  }

  /** A notification is framed exactly; it arrives as it is just when its number fits 32 bits. */
  lemma NotificationFramed(h: Header, n: SequentialNotification)
    requires NotificationOk(n)
    ensures Framed(NotificationChunks(h, n), Cut(n), NotificationSpan, NotificationAt)
    ensures Cut(n) == n <==> n.number < TWO_32
  {
    hide LineChunks, LineSpan, LineAt, NotificationLine, NotificationOf;
    var e := NotificationChunks(h, n);
    LineFramed(h, NotificationLine(n), n.notification.node);
    NotificationLineRoundTrip(n);
    forall rest ensures NotificationSpan(e + rest) == Some(|e|) && NotificationAt(e + rest) == Some(Decoded(|e|, Cut(n))) {
      assert LineSpan(e + rest) == Some(|e|);
    }
    forall k | 0 <= k < |e| ensures NotificationSpan(e[..k]) == None {
      assert LineSpan(e[..k]) == None;
    }
  }

  // ---- NewNodeVersion ----

  function VersionLine(v: NewNodeVersion): string {
    match v.expected
    case None => "Nothing" + (" " + v.labelRule)
    case Some(n) => "Just " + (Decimal(n) + (" " + v.labelRule))
  }

  function NewNodeVersionChunks(h: Header, v: NewNodeVersion): (r: seq<Chunk>)
    ensures r != []
  {
    LineChunks(h, VersionLine(v), v.node)
  }

  function NewNodeVersionOf(line: string, node: Option<TreeNode>): Option<NewNodeVersion> {
    if "Nothing" <= line then
      Some(NewNodeVersion(None, if |line| >= 8 then line[8..] else "", node))
    else if "Just " <= line then
      match IndexOf(line[5..], " ")
      case Some(sp) =>
        // a version that is no number, or not a natural one, has no place in the model's value
        (match ParseInt(line[5..5 + sp], 10)
         case Some(n) => if n < 0 then None else Some(NewNodeVersion(Some(n), line[5 + sp + 1..], node))
         case None => None)
      case None => Some(NewNodeVersion(None, "", node))
    else None
  }

  function NewNodeVersionSpan(chunks: seq<Chunk>): (r: Option<nat>)
    ensures r.Some? ==> r.value <= |chunks|
  {
    LineSpan(chunks)
  }

  function NewNodeVersionAt(chunks: seq<Chunk>): Option<Decoded<NewNodeVersion>> {
    var d :- LineAt(chunks);
    var v :- NewNodeVersionOf(d.value.0, d.value.1);
    Some(Decoded(d.count, v))
  }

  predicate NewNodeVersionOk(v: NewNodeVersion) {
    |VersionLine(v)| < TWO_32 && MaybeNodeOk(v.node)
  }

  lemma NothingLineRoundTrip(labelRule: Label, node: Option<TreeNode>)
    ensures NewNodeVersionOf("Nothing" + (" " + labelRule), node) == Some(NewNodeVersion(None, labelRule, node))
  {
    var line := "Nothing" + (" " + labelRule);
    assert line[..7] == "Nothing" && line[8..] == labelRule;
  }

  lemma JustLineRoundTrip(n: nat, labelRule: Label, node: Option<TreeNode>)
    ensures NewNodeVersionOf("Just " + (Decimal(n) + (" " + labelRule)), node) ==
            Some(NewNodeVersion(Some(n), labelRule, node))
  {
    hide Decimal, ParseInt, IndexOf, NoSpace;
    var digits := Decimal(n);
    var rest := digits + (" " + labelRule);
    var line := "Just " + rest;
    DecimalIsWord(n);
    NotInWord(digits);
    assert line[0] == 'J' && line[5..] == rest && rest == digits + " " + labelRule;
    IndexOfFirst(digits, " ", labelRule);
    assert line[5..5 + |digits|] == rest[..|digits|] == digits;
    assert line[5 + |digits| + 1..] == rest[|digits| + 1..] == labelRule;
    ParseIntOfDecimal(n);
  }

  lemma VersionLineRoundTrip(v: NewNodeVersion)
    ensures NewNodeVersionOf(VersionLine(v), v.node) == Some(v)
  {
    hide NewNodeVersionOf, Decimal;
    match v.expected
    case None => NothingLineRoundTrip(v.labelRule, v.node);
    case Some(n) => JustLineRoundTrip(n, v.labelRule, v.node);
  }

  lemma NewNodeVersionFramed(h: Header, v: NewNodeVersion)
    requires NewNodeVersionOk(v)
    ensures Framed(NewNodeVersionChunks(h, v), v, NewNodeVersionSpan, NewNodeVersionAt)
  {
    hide LineChunks, LineSpan, LineAt, VersionLine, NewNodeVersionOf;
    var e := NewNodeVersionChunks(h, v);
    LineFramed(h, VersionLine(v), v.node);
    VersionLineRoundTrip(v);
    forall rest
      ensures NewNodeVersionSpan(e + rest) == Some(|e|) && NewNodeVersionAt(e + rest) == Some(Decoded(|e|, v))
    {
      assert LineSpan(e + rest) == Some(|e|);
    }
    forall k | 0 <= k < |e| ensures NewNodeVersionSpan(e[..k]) == None {
      assert LineSpan(e[..k]) == None;
    }
  }

  // ---- repetition ----

  function EachChunks<T>(f: (Header, T) -> seq<Chunk>, h: Header, vs: seq<T>): seq<Chunk> {
    if vs == [] then [] else f(h, vs[0]) + EachChunks(f, h, vs[1..])
  }

  function EachSpan(span: seq<Chunk> -> Option<nat>, n: nat, chunks: seq<Chunk>): (r: Option<nat>)
    ensures r.Some? ==> r.value <= |chunks|
  {
    if n == 0 then Some(0)
    else
      var k :- span(chunks);
      if k > |chunks| then None
      else
        var rest :- EachSpan(span, n - 1, chunks[k..]);
        Some(k + rest)
  }

  function EachAt<T>(at: seq<Chunk> -> Option<Decoded<T>>, n: nat, chunks: seq<Chunk>): Option<Decoded<seq<T>>> {
    if n == 0 then Some(Decoded(0, []))
    else
      var d :- at(chunks);
      if d.count > |chunks| then None
      else
        var rest :- EachAt(at, n - 1, chunks[d.count..]);
        Some(Decoded(d.count + rest.count, [d.value] + rest.value))
  }

  lemma FramedWhole<T(!new)>(e: seq<Chunk>, v: T, span: seq<Chunk> -> Option<nat>, at: seq<Chunk> -> Option<Decoded<T>>,
                             rest: seq<Chunk>)
    requires Framed(e, v, span, at)
    ensures span(e + rest) == Some(|e|) && at(e + rest) == Some(Decoded(|e|, v))
  {
  }

  lemma EachFirst<T>(span: seq<Chunk> -> Option<nat>, at: seq<Chunk> -> Option<Decoded<T>>, n: nat, chunks: seq<Chunk>,
                     k: nat, v: T, more: nat, vs: seq<T>)
    requires n > 0 && k <= |chunks| && span(chunks) == Some(k) && at(chunks) == Some(Decoded(k, v))
    requires EachSpan(span, n - 1, chunks[k..]) == Some(more) && EachAt(at, n - 1, chunks[k..]) == Some(Decoded(more, vs))
    ensures EachSpan(span, n, chunks) == Some(k + more) && EachAt(at, n, chunks) == Some(Decoded(k + more, [v] + vs))
  {
  }

  lemma EachStep<T(!new)>(f: (Header, T) -> seq<Chunk>, h: Header, vs: seq<T>,
                          span: seq<Chunk> -> Option<nat>, at: seq<Chunk> -> Option<Decoded<T>>)
    requires vs != [] && forall i :: 0 <= i < |vs| ==> Framed(f(h, vs[i]), vs[i], span, at)
    ensures EachChunks(f, h, vs) == f(h, vs[0]) + EachChunks(f, h, vs[1..]) && Framed(f(h, vs[0]), vs[0], span, at)
    ensures forall i :: 0 <= i < |vs[1..]| ==> Framed(f(h, vs[1..][i]), vs[1..][i], span, at)
  {
    hide Framed;
    forall i | 0 <= i < |vs[1..]| ensures Framed(f(h, vs[1..][i]), vs[1..][i], span, at) {
      assert vs[1..][i] == vs[i + 1];
    }
  }

  lemma EachWholeFirst<T(!new)>(a: seq<Chunk>, b: seq<Chunk>, v: T, vs: seq<T>,
      span: seq<Chunk> -> Option<nat>, at: seq<Chunk> -> Option<Decoded<T>>, rest: seq<Chunk>)
    requires Framed(a, v, span, at)
    requires EachSpan(span, |vs|, b + rest) == Some(|b|) && EachAt(at, |vs|, b + rest) == Some(Decoded(|b|, vs))
    ensures EachSpan(span, |vs| + 1, a + b + rest) == Some(|a + b|)
    ensures EachAt(at, |vs| + 1, a + b + rest) == Some(Decoded(|a + b|, [v] + vs))
  {
    Regroup(a, b, rest);
    FramedWhole(a, v, span, at, b + rest);
    hide Framed, EachSpan, EachAt;
    EachFirst(span, at, |vs| + 1, a + (b + rest), |a|, v, |b|, vs);
  }

  lemma {:induction false} EachWhole<T(!new)>(f: (Header, T) -> seq<Chunk>, h: Header, vs: seq<T>,
      span: seq<Chunk> -> Option<nat>, at: seq<Chunk> -> Option<Decoded<T>>, rest: seq<Chunk>)
    requires forall i :: 0 <= i < |vs| ==> Framed(f(h, vs[i]), vs[i], span, at)
    ensures var e := EachChunks(f, h, vs);
            && EachSpan(span, |vs|, e + rest) == Some(|e|)
            && EachAt(at, |vs|, e + rest) == Some(Decoded(|e|, vs))
    decreases |vs|
  {
    if vs != [] {
      hide Framed, EachSpan, EachAt, EachChunks;
      EachStep(f, h, vs, span, at);
      EachWhole(f, h, vs[1..], span, at, rest);
      EachWholeFirst(f(h, vs[0]), EachChunks(f, h, vs[1..]), vs[0], vs[1..], span, at, rest);
      assert vs == [vs[0]] + vs[1..];
    }
  }

  lemma {:induction false} EachCut<T(!new)>(f: (Header, T) -> seq<Chunk>, h: Header, vs: seq<T>,
      span: seq<Chunk> -> Option<nat>, at: seq<Chunk> -> Option<Decoded<T>>, k: nat)
    requires forall i :: 0 <= i < |vs| ==> Framed(f(h, vs[i]), vs[i], span, at)
    requires k < |EachChunks(f, h, vs)|
    ensures EachSpan(span, |vs|, EachChunks(f, h, vs)[..k]) == None
    decreases |vs|
  {
    var a, b := f(h, vs[0]), EachChunks(f, h, vs[1..]);
    assert Framed(f(h, vs[0]), vs[0], span, at);
    if k < |a| {
      assert (a + b)[..k] == a[..k];
    } else {
      assert forall i :: 0 <= i < |vs[1..]| ==> vs[1..][i] == vs[i + 1];
      EachCut(f, h, vs[1..], span, at, k - |a|);
      assert (a + b)[..k] == a + b[..k - |a|] && (a + b[..k - |a|])[|a|..] == b[..k - |a|];
      assert span(a + b[..k - |a|]) == Some(|a|);
    }
  }

  /** A count as a decimal label. */
  function CountChunk(h: Header, n: nat): (r: seq<Chunk>)
    ensures |r| <= 1
  {
    match LabelChunks(h, Decimal(n))
    case Some(e) => e
    case None => []
  }

  /** The count a label holds: decimal digits only, read as an unsigned 32-bit number. */
  function CountSpan(chunks: seq<Chunk>): Option<nat> {
    var label' :- LabelAt(chunks);
    if label'.value != "" && IsNumeral(label'.value, 10) then Some(NumeralValue(label'.value, 10) % TWO_32) else None
  }

  function CountAt(chunks: seq<Chunk>): Option<nat> {
    var label' :- LabelAt(chunks);
    Some(ParseUint32(label'.value, 10))
  }

  /** A count is a payload chunk of decimal digits, at least one. */
  lemma CountSpanExactly(chunks: seq<Chunk>)
    ensures CountSpan(chunks).Some? <==>
            && chunks != [] && chunks[0].PayloadChunk? && chunks[0].payload != ""
            && forall i :: 0 <= i < |chunks[0].payload| ==> '0' <= chunks[0].payload[i] <= '9'
    ensures CountSpan(chunks).Some? ==> CountSpan(chunks) == CountAt(chunks)
  {
    if CountSpan(chunks).Some? { ParseIntOfNumeral(chunks[0].payload, 10); }
  }

  lemma CountRead(h: Header, n: nat, rest: seq<Chunk>)
    requires n < TWO_32
    ensures var e := CountChunk(h, n);
            && |e| == 1 && CountSpan(e + rest) == Some(n) && CountAt(e + rest) == Some(n)
            && (e + rest)[1..] == rest
  {
    hide LabelSpan, LabelAt, Framed, Numeral, NumeralValue, ParseInt, IsNumeral;
    Uint32Length(n);
    LabelFramed(h, Decimal(n));
    NumeralRoundTrip(n, 10);
    ParseIntOfNumeral(Decimal(n), 10);
    FramedWhole(CountChunk(h, n), Decimal(n), LabelSpan, LabelAt, rest);
  }

  function CountedChunks<T>(f: (Header, T) -> seq<Chunk>, h: Header, vs: seq<T>): seq<Chunk> {
    CountChunk(h, |vs| % TWO_32) + EachChunks(f, h, vs)
  }

  function CountedSpan(span: seq<Chunk> -> Option<nat>, chunks: seq<Chunk>): (r: Option<nat>)
    ensures r.Some? ==> r.value <= |chunks|
  {
    var n :- CountSpan(chunks);
    var k :- EachSpan(span, n, chunks[1..]);
    Some(1 + k)
  }

  function CountedAt<T>(at: seq<Chunk> -> Option<Decoded<T>>, chunks: seq<Chunk>): Option<Decoded<seq<T>>> {
    var n :- CountAt(chunks);
    var d :- EachAt(at, n, chunks[1..]);
    Some(Decoded(1 + d.count, d.value))
  }

  lemma CountedWhole<T(!new)>(f: (Header, T) -> seq<Chunk>, h: Header, vs: seq<T>,
      span: seq<Chunk> -> Option<nat>, at: seq<Chunk> -> Option<Decoded<T>>, rest: seq<Chunk>)
    requires |vs| < TWO_32
    requires forall i :: 0 <= i < |vs| ==> Framed(f(h, vs[i]), vs[i], span, at)
    ensures var e := CountedChunks(f, h, vs);
            CountedSpan(span, e + rest) == Some(|e|) && CountedAt(at, e + rest) == Some(Decoded(|e|, vs))
  {
    hide CountChunk, CountSpan, CountAt, EachChunks, EachSpan, EachAt;
    var a, b := CountChunk(h, |vs|), EachChunks(f, h, vs);
    CountRead(h, |vs|, b + rest);
    EachWhole(f, h, vs, span, at, rest);
    assert a + b + rest == a + (b + rest);
  }

  lemma NoCount()
    ensures CountSpan([]) == None
  {
  }

  lemma CountedCut<T(!new)>(f: (Header, T) -> seq<Chunk>, h: Header, vs: seq<T>,
      span: seq<Chunk> -> Option<nat>, at: seq<Chunk> -> Option<Decoded<T>>, k: nat)
    requires |vs| < TWO_32 && k < |CountedChunks(f, h, vs)|
    requires forall i :: 0 <= i < |vs| ==> Framed(f(h, vs[i]), vs[i], span, at)
    ensures CountedSpan(span, CountedChunks(f, h, vs)[..k]) == None
  {
    hide CountChunk, CountSpan, CountAt, EachChunks, EachSpan, EachAt;
    var a, b := CountChunk(h, |vs|), EachChunks(f, h, vs);
    CountRead(h, |vs|, if k == 0 then [] else b[..k - 1]);
    if k == 0 {
      assert (a + b)[..k] == [];
      NoCount();
    } else {
      EachCut(f, h, vs, span, at, k - 1);
      assert (a + b)[..k] == a + b[..k - 1];
    }
  }

  // ---- SubTransaction and Transaction ----

  /** The number of children, the parent, the children. */
  function SubTransactionChunks(h: Header, st: SubTransaction): seq<Chunk> {
    CountChunk(h, |st.children|) + (NewNodeVersionChunks(h, st.parent) + EachChunks(NewNodeVersionChunks, h, st.children))
  }

  function SubTransactionSpan(chunks: seq<Chunk>): (r: Option<nat>)
    ensures r.Some? ==> r.value <= |chunks|
  {
    var n :- CountSpan(chunks);
    var k :- NewNodeVersionSpan(chunks[1..]);
    var rest :- EachSpan(NewNodeVersionSpan, n, chunks[1..][k..]);
    Some(1 + k + rest)
  }

  function SubTransactionAt(chunks: seq<Chunk>): Option<Decoded<SubTransaction>> {
    var n :- CountAt(chunks);
    var parent :- NewNodeVersionAt(chunks[1..]);
    if parent.count > |chunks[1..]| then None
    else
      var children :- EachAt(NewNodeVersionAt, n, chunks[1..][parent.count..]);
      Some(Decoded(1 + parent.count + children.count, SubTransaction(parent.value, children.value)))
  }

  predicate SubTransactionOk(st: SubTransaction) {
    && NewNodeVersionOk(st.parent) && |st.children| < TWO_32
    && forall i :: 0 <= i < |st.children| ==> NewNodeVersionOk(st.children[i])
  }

  lemma ChildrenFramed(h: Header, vs: seq<NewNodeVersion>)
    requires forall i :: 0 <= i < |vs| ==> NewNodeVersionOk(vs[i])
    ensures forall i :: 0 <= i < |vs| ==>
              Framed(NewNodeVersionChunks(h, vs[i]), vs[i], NewNodeVersionSpan, NewNodeVersionAt)
  {
    forall i | 0 <= i < |vs|
      ensures Framed(NewNodeVersionChunks(h, vs[i]), vs[i], NewNodeVersionSpan, NewNodeVersionAt)
    {
      NewNodeVersionFramed(h, vs[i]);
    }
  }

  lemma SubTransactionWhole(h: Header, st: SubTransaction, rest: seq<Chunk>)
    requires SubTransactionOk(st)
    ensures var e := SubTransactionChunks(h, st);
            SubTransactionSpan(e + rest) == Some(|e|) && SubTransactionAt(e + rest) == Some(Decoded(|e|, st))
  {
    hide CountChunk, CountSpan, CountAt, EachChunks, EachSpan, EachAt, Framed, NewNodeVersionOk;
    hide NewNodeVersionChunks, NewNodeVersionSpan, NewNodeVersionAt;
    var a, b, c := CountChunk(h, |st.children|), NewNodeVersionChunks(h, st.parent),
                   EachChunks(NewNodeVersionChunks, h, st.children);
    NewNodeVersionFramed(h, st.parent);
    ChildrenFramed(h, st.children);
    CountRead(h, |st.children|, b + (c + rest));
    EachWhole(NewNodeVersionChunks, h, st.children, NewNodeVersionSpan, NewNodeVersionAt, rest);
    FramedWhole(b, st.parent, NewNodeVersionSpan, NewNodeVersionAt, c + rest);
    assert a + (b + c) + rest == a + (b + (c + rest));
    assert (b + (c + rest))[|b|..] == c + rest;
  }

  /** The parent and the children of a subtransaction, cut short behind an intact count. */
  lemma FamilyCut(h: Header, st: SubTransaction, k: nat)
    requires SubTransactionOk(st)
    requires k < |NewNodeVersionChunks(h, st.parent) + EachChunks(NewNodeVersionChunks, h, st.children)|
    ensures var cut := (NewNodeVersionChunks(h, st.parent) + EachChunks(NewNodeVersionChunks, h, st.children))[..k];
            var n := NewNodeVersionSpan(cut);
            n.Some? ==> EachSpan(NewNodeVersionSpan, |st.children|, cut[n.value..]) == None
  {
    hide EachChunks, EachSpan, EachAt, NewNodeVersionChunks, NewNodeVersionSpan, NewNodeVersionAt;
    var b, c := NewNodeVersionChunks(h, st.parent), EachChunks(NewNodeVersionChunks, h, st.children);
    NewNodeVersionFramed(h, st.parent);
    if k < |b| {
      assert (b + c)[..k] == b[..k];
    } else {
      var tail := c[..k - |b|];
      assert (b + c)[..k] == b + tail && (b + tail)[|b|..] == tail;
      assert NewNodeVersionSpan(b + tail) == Some(|b|);
      ChildrenFramed(h, st.children);
      EachCut(NewNodeVersionChunks, h, st.children, NewNodeVersionSpan, NewNodeVersionAt, |tail|);
    }
  }

  lemma SubTransactionCut(h: Header, st: SubTransaction, k: nat)
    requires SubTransactionOk(st) && k < |SubTransactionChunks(h, st)|
    ensures SubTransactionSpan(SubTransactionChunks(h, st)[..k]) == None
  {
    hide CountChunk, CountSpan, CountAt, EachChunks, EachSpan, EachAt;
    hide NewNodeVersionChunks, NewNodeVersionSpan, NewNodeVersionAt, SubTransactionOk;
    var a := CountChunk(h, |st.children|);
    var family := NewNodeVersionChunks(h, st.parent) + EachChunks(NewNodeVersionChunks, h, st.children);
    assert |st.children| < TWO_32 by { ChildrenCount(st); }
    CountRead(h, |st.children|, if k == 0 then [] else family[..k - 1]);
    if k == 0 {
      assert (a + family)[..k] == [];
      NoCount();
    } else {
      assert (a + family)[..k] == a + family[..k - 1];
      FamilyCut(h, st, k - 1);
    }
  }

  lemma ChildrenCount(st: SubTransaction)
    requires SubTransactionOk(st)
    ensures |st.children| < TWO_32
  {
  }

  lemma SubTransactionFramed(h: Header, st: SubTransaction)
    requires SubTransactionOk(st)
    ensures Framed(SubTransactionChunks(h, st), st, SubTransactionSpan, SubTransactionAt)
  {
    hide SubTransactionChunks, SubTransactionSpan, SubTransactionAt;
    var e := SubTransactionChunks(h, st);
    forall rest
      ensures SubTransactionSpan(e + rest) == Some(|e|) && SubTransactionAt(e + rest) == Some(Decoded(|e|, st))
    {
      SubTransactionWhole(h, st, rest);
    }
    forall k | 0 <= k < |e| ensures SubTransactionSpan(e[..k]) == None {
      SubTransactionCut(h, st, k);
    }
  }

  function TransactionChunks(h: Header, tx: Transaction): seq<Chunk> {
    CountedChunks(SubTransactionChunks, h, tx)
  }

  function TransactionSpan(chunks: seq<Chunk>): Option<nat> {
    CountedSpan(SubTransactionSpan, chunks)
  }

  function TransactionAt(chunks: seq<Chunk>): Option<Decoded<Transaction>> {
    CountedAt(SubTransactionAt, chunks)
  }

  predicate TransactionOk(tx: Transaction) {
    |tx| < TWO_32 && forall i :: 0 <= i < |tx| ==> SubTransactionOk(tx[i])
  }

  /** Every transaction is framed exactly: any chunks may follow, and no strict prefix decodes. */
  lemma TransactionFramed(h: Header, tx: Transaction)
    requires TransactionOk(tx)
    ensures Framed(TransactionChunks(h, tx), tx, TransactionSpan, TransactionAt)
  {
    hide CountedChunks, CountedSpan, CountedAt, SubTransactionChunks, SubTransactionSpan, SubTransactionAt;
    var e := TransactionChunks(h, tx);
    forall i | 0 <= i < |tx| ensures Framed(SubTransactionChunks(h, tx[i]), tx[i], SubTransactionSpan, SubTransactionAt) {
      SubTransactionFramed(h, tx[i]);
    }
    forall rest ensures TransactionSpan(e + rest) == Some(|e|) && TransactionAt(e + rest) == Some(Decoded(|e|, tx)) {
      CountedWhole(SubTransactionChunks, h, tx, SubTransactionSpan, SubTransactionAt, rest);
    }
    forall k | 0 <= k < |e| ensures TransactionSpan(e[..k]) == None {
      CountedCut(SubTransactionChunks, h, tx, SubTransactionSpan, SubTransactionAt, k);
    }
  }

  // ---- vectors ----

  function NotificationVectorChunks(h: Header, ns: seq<SequentialNotification>): seq<Chunk> {
    CountedChunks(NotificationChunks, h, ns)
  }

  function NotificationVectorSpan(chunks: seq<Chunk>): Option<nat> {
    CountedSpan(NotificationSpan, chunks)
  }

  function NotificationVectorAt(chunks: seq<Chunk>): Option<Decoded<seq<SequentialNotification>>> {
    CountedAt(NotificationAt, chunks)
  }

  predicate NotificationVectorOk(ns: seq<SequentialNotification>) {
    |ns| < TWO_32 && forall i :: 0 <= i < |ns| ==> NotificationOk(ns[i])
  }

  function CutAll(ns: seq<SequentialNotification>): (r: seq<SequentialNotification>)
    ensures |r| == |ns| && forall i :: 0 <= i < |r| ==> r[i] == Cut(ns[i])
  {
    seq(|ns|, i requires 0 <= i < |ns| => Cut(ns[i]))
  }

  lemma CutChunks(h: Header, n: SequentialNotification)
    ensures NotificationChunks(h, Cut(n)) == NotificationChunks(h, n) && Cut(Cut(n)) == Cut(n)
    ensures NotificationOk(n) ==> NotificationOk(Cut(n))
  {
    hide LineChunks, Decimal;
    assert Cut(n).number % TWO_32 == n.number % TWO_32;
  }

  lemma {:induction false} CutEach(h: Header, ns: seq<SequentialNotification>)
    ensures EachChunks(NotificationChunks, h, CutAll(ns)) == EachChunks(NotificationChunks, h, ns)
    decreases |ns|
  {
    hide NotificationChunks, Cut;
    if ns != [] {
      CutEach(h, ns[1..]);
      assert CutAll(ns)[1..] == CutAll(ns[1..]);
      CutChunks(h, ns[0]);
    } else {
      assert CutAll(ns) == ns;
    }
  }

  lemma CutVector(h: Header, ns: seq<SequentialNotification>)
    ensures NotificationVectorChunks(h, CutAll(ns)) == NotificationVectorChunks(h, ns)
  {
    CutEach(h, ns);
    hide EachChunks;
  }

  lemma CutFramed(h: Header, n: SequentialNotification)
    requires NotificationOk(n)
    ensures Framed(NotificationChunks(h, Cut(n)), Cut(n), NotificationSpan, NotificationAt)
  {
    NotificationFramed(h, n);
    CutChunks(h, n);
    hide NotificationChunks, Framed, Cut;
  }

  /** Every notification vector is framed exactly; it arrives as it is just when all numbers fit 32 bits. */
  lemma NotificationVectorFramed(h: Header, ns: seq<SequentialNotification>)
    requires NotificationVectorOk(ns)
    ensures Framed(NotificationVectorChunks(h, ns), CutAll(ns), NotificationVectorSpan, NotificationVectorAt)
    ensures CutAll(ns) == ns <==> forall i :: 0 <= i < |ns| ==> ns[i].number < TWO_32
  {
    CutAllKept(ns);
    CutVector(h, ns);
    hide CountedChunks, CountedSpan, CountedAt, NotificationChunks, NotificationSpan, NotificationAt, Cut;
    var cut := CutAll(ns);
    var e := NotificationVectorChunks(h, cut);
    forall i | 0 <= i < |cut| ensures Framed(NotificationChunks(h, cut[i]), cut[i], NotificationSpan, NotificationAt) {
      CutFramed(h, ns[i]);
    }
    forall rest
      ensures NotificationVectorSpan(e + rest) == Some(|e|) && NotificationVectorAt(e + rest) == Some(Decoded(|e|, cut))
    {
      CountedWhole(NotificationChunks, h, cut, NotificationSpan, NotificationAt, rest);
    }
    forall k | 0 <= k < |e| ensures NotificationVectorSpan(e[..k]) == None {
      CountedCut(NotificationChunks, h, cut, NotificationSpan, NotificationAt, k);
    }
  }

  lemma CutAllKept(ns: seq<SequentialNotification>)
    ensures CutAll(ns) == ns <==> forall i :: 0 <= i < |ns| ==> ns[i].number < TWO_32
  {
    forall i | 0 <= i < |ns| ensures CutAll(ns)[i] == ns[i] <==> ns[i].number < TWO_32 {
    }
    if forall i :: 0 <= i < |ns| ==> ns[i].number < TWO_32 { assert CutAll(ns) == ns; }
  }

  function Justs(ms: seq<Option<TreeNode>>): seq<TreeNode> {
    if ms == [] then []
    else Justs(ms[..|ms| - 1]) + if ms[|ms| - 1].Some? then [ms[|ms| - 1].value] else []
  }

  function AllJust(nodes: seq<TreeNode>): (r: seq<Option<TreeNode>>)
    ensures |r| == |nodes| && forall i :: 0 <= i < |r| ==> r[i] == Some(nodes[i])
  {
    seq(|nodes|, i requires 0 <= i < |nodes| => Some(nodes[i]))
  }

  lemma {:induction false} JustsOfAll(nodes: seq<TreeNode>)
    ensures Justs(AllJust(nodes)) == nodes
  {
    if nodes != [] {
      var all := AllJust(nodes);
      JustsOfAll(nodes[..|nodes| - 1]);
      assert all[..|all| - 1] == AllJust(nodes[..|nodes| - 1]);
    }
  }

  function NodeVectorChunks(h: Header, nodes: seq<TreeNode>): seq<Chunk> {
    CountedChunks(MaybeNodeChunks, h, AllJust(nodes))
  }

  function NodeVectorSpan(chunks: seq<Chunk>): Option<nat> {
    CountedSpan(MaybeNodeSpan, chunks)
  }

  function NodeVectorAt(chunks: seq<Chunk>): Option<Decoded<seq<TreeNode>>> {
    var d :- CountedAt(MaybeNodeAt, chunks);
    Some(Decoded(d.count, Justs(d.value)))
  }

  predicate NodeVectorOk(nodes: seq<TreeNode>) {
    |nodes| < TWO_32 && forall i :: 0 <= i < |nodes| ==> NodeOk(nodes[i])
  }

  lemma NodeVectorFramed(h: Header, nodes: seq<TreeNode>)
    requires NodeVectorOk(nodes)
    ensures Framed(NodeVectorChunks(h, nodes), nodes, NodeVectorSpan, NodeVectorAt)
  {
    hide CountedChunks, CountedSpan, CountedAt, MaybeNodeChunks, MaybeNodeSpan, MaybeNodeAt;
    hide NodeOk, AllJust, Justs;
    var e := NodeVectorChunks(h, nodes);
    var ms := AllJust(nodes);
    JustsOfAll(nodes);
    forall i | 0 <= i < |ms| ensures Framed(MaybeNodeChunks(h, ms[i]), ms[i], MaybeNodeSpan, MaybeNodeAt) {
      MaybeNodeFramed(h, ms[i]);
    }
    forall rest ensures NodeVectorSpan(e + rest) == Some(|e|) && NodeVectorAt(e + rest) == Some(Decoded(|e|, nodes)) {
      CountedWhole(MaybeNodeChunks, h, ms, MaybeNodeSpan, MaybeNodeAt, rest);
    }
    forall k | 0 <= k < |e| ensures NodeVectorSpan(e[..k]) == None {
      CountedCut(MaybeNodeChunks, h, ms, MaybeNodeSpan, MaybeNodeAt, k);
    }
  }

  // ---- the headers of an encoding ----

  lemma CountHeaded(h: Header, n: nat)
    ensures Headed(CountChunk(h, n), h)
  {
  }

  lemma MaybeNodeHeaded(h: Header, m: Option<TreeNode>)
    ensures Headed(MaybeNodeChunks(h, m), h)
  {
    hide Flattened, JustText, LittleEndian;
    match m
    case None => FlattenedHeaded(h, LittleEndian(|"Nothing"| % TWO_32, 8) + "Nothing");
    case Some(n) =>
      var text := JustText(n, |Flattened(h, n.propertyData)|);
      FlattenedHeaded(h, n.propertyData);
      FlattenedHeaded(h, LittleEndian(|text| % TWO_32, 8) + text);
      HeadedAppend(LongStringChunks(h, text), Flattened(h, n.propertyData), h);
  }

  lemma LineHeaded(h: Header, line: string, m: Option<TreeNode>)
    ensures Headed(LineChunks(h, line, m), h)
  {
    hide Flattened, MaybeNodeChunks, LittleEndian;
    FlattenedHeaded(h, LittleEndian(|line| % TWO_32, 8) + line);
    MaybeNodeHeaded(h, m);
    HeadedAppend(LongStringChunks(h, line), MaybeNodeChunks(h, m), h);
  }

  lemma NotificationHeaded(h: Header, n: SequentialNotification)
    ensures Headed(NotificationChunks(h, n), h)
  {
    LineHeaded(h, NotificationLine(n), n.notification.node);
    hide LineChunks, NotificationLine;
  }

  lemma NewNodeVersionHeaded(h: Header, v: NewNodeVersion)
    ensures Headed(NewNodeVersionChunks(h, v), h)
  {
    LineHeaded(h, VersionLine(v), v.node);
    hide LineChunks, VersionLine;
  }

  lemma {:induction false} EachHeaded<T(!new)>(f: (Header, T) -> seq<Chunk>, h: Header, vs: seq<T>)
    requires forall v :: Headed(f(h, v), h)
    ensures Headed(EachChunks(f, h, vs), h)
    decreases |vs|
  {
    hide Headed;
    if vs == [] {
      NothingHeaded(h);
    } else {
      EachHeaded(f, h, vs[1..]);
      HeadedAppend(f(h, vs[0]), EachChunks(f, h, vs[1..]), h);
    }
  }

  lemma NothingHeaded(h: Header)
    ensures Headed([], h)
  {
  }

  lemma CountedHeaded<T(!new)>(f: (Header, T) -> seq<Chunk>, h: Header, vs: seq<T>)
    requires forall v :: Headed(f(h, v), h)
    ensures Headed(CountedChunks(f, h, vs), h)
  {
    EachHeaded(f, h, vs);
    CountHeaded(h, |vs| % TWO_32);
    hide CountChunk, EachChunks, Headed;
    HeadedAppend(CountChunk(h, |vs| % TWO_32), EachChunks(f, h, vs), h);
  }

  lemma SubTransactionHeaded(h: Header, st: SubTransaction)
    ensures Headed(SubTransactionChunks(h, st), h)
  {
    hide CountChunk, NewNodeVersionChunks, EachChunks, Headed;
    forall v ensures Headed(NewNodeVersionChunks(h, v), h) { NewNodeVersionHeaded(h, v); }
    EachHeaded(NewNodeVersionChunks, h, st.children);
    var a, b, c := CountChunk(h, |st.children|), NewNodeVersionChunks(h, st.parent),
                   EachChunks(NewNodeVersionChunks, h, st.children);
    CountHeaded(h, |st.children|);
    HeadedAppend(b, c, h);
    HeadedAppend(a, b + c, h);
  }

  /** Every chunk of a transaction belongs to its request. */
  lemma TransactionHeaded(h: Header, tx: Transaction)
    ensures Headed(TransactionChunks(h, tx), h)
  {
    hide CountedChunks, SubTransactionChunks, Headed;
    forall st ensures Headed(SubTransactionChunks(h, st), h) { SubTransactionHeaded(h, st); }
    CountedHeaded(SubTransactionChunks, h, tx);
  }

  lemma NotificationVectorHeaded(h: Header, ns: seq<SequentialNotification>)
    ensures Headed(NotificationVectorChunks(h, ns), h)
  {
    hide CountedChunks, NotificationChunks, Headed;
    forall n ensures Headed(NotificationChunks(h, n), h) { NotificationHeaded(h, n); }
    CountedHeaded(NotificationChunks, h, ns);
  }

  lemma NodeVectorHeaded(h: Header, nodes: seq<TreeNode>)
    ensures Headed(NodeVectorChunks(h, nodes), h)
  {
    hide CountedChunks, MaybeNodeChunks, Headed;
    forall m ensures Headed(MaybeNodeChunks(h, m), h) { MaybeNodeHeaded(h, m); }
    CountedHeaded(MaybeNodeChunks, h, AllJust(nodes));
  }
}
