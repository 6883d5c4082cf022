/**
 What the encodings look like on the wire, part by part, and what the decoders make of chunks that no
 encoder wrote.
 */
module CodecLayout {
  import opened TreeModel
  import opened Text
  import opened NodeText
  import opened Chunks
  import opened Codec

  predicate SmallHex(s: string) {
    forall i :: 0 <= i < |s| ==> '0' <= s[i] <= '9' || 'a' <= s[i] <= 'f'
  }

  lemma {:induction false} PaddedSmallHex(s: string, width: nat)
    requires SmallHex(s)
    ensures SmallHex(Padded(s, width))
    decreases width - |s|
  {
    if |s| < width { PaddedSmallHex("0" + s, width); }
  }

  lemma {:induction false} NumeralSmallHex(n: nat)
    ensures SmallHex(Numeral(n, 16))
    decreases n
  {
    if n >= 16 { NumeralSmallHex(n / 16); }
  }

  lemma HexOf(count: nat) returns (hex: string)
    requires count < TWO_32
    ensures hex == Padded(Numeral(count, 16), 16)
    ensures |hex| == 16 && SmallHex(hex) && NumeralValue(hex, 16) == count
  {
    var digits := Numeral(count, 16);
    Uint32Length(count);
    NumeralRoundTrip(count, 16);
    PaddedValue(digits, 16, 16);
    NumeralSmallHex(count);
    PaddedSmallHex(digits, 16);
    hex := Padded(digits, 16);
  }

  lemma JustLayout(n: TreeNode, count: nat) returns (hex: string)
    requires count < TWO_32
    ensures |hex| == 16 && SmallHex(hex) && NumeralValue(hex, 16) == count
    ensures JustText(n, count) == "Just " + FormatNode(n) + "\n" + hex
  {
    hex := HexOf(count);
    NodeTextAppend(n, "\n");
    hide FormatNode, NodeTextThen, Numeral, NumeralValue, Padded, SmallHex;
    Grouped("Just ", FormatNode(n), "\n", hex);
  }

  lemma Grouped(a: string, b: string, c: string, d: string)
    ensures a + (b + c + d) == a + b + c + d
  {
  }

  /**
   A missing node is the text "Nothing"; a node is the text "Just ", its text form, a line end and the number
   of its data chunks in 16 small hexadecimal digits, and then those chunks.
   */
  lemma MaybeNodeLayout(h: Header, m: Option<TreeNode>) returns (hex: string)
    requires m.Some? ==> |m.value.propertyData| < TWO_32
    ensures m == None ==> MaybeNodeChunks(h, m) == LongStringChunks(h, "Nothing")
    ensures m.Some? ==>
              var data := Flattened(h, m.value.propertyData);
              && |hex| == 16 && SmallHex(hex) && NumeralValue(hex, 16) == |data|
              && MaybeNodeChunks(h, m) == LongStringChunks(h, "Just " + FormatNode(m.value) + "\n" + hex) + data
  {
    hide FormatNode, NodeTextThen, NumeralValue, SmallHex, Flattened, LongStringChunks, JustText;
    hex := "";
    if m.Some? {
      ContentsCount(h, m.value.propertyData);
      hex := JustLayout(m.value, |Flattened(h, m.value.propertyData)|);
    }
  }

  /** A notification is a line with its number in 32 bits and its label, and then the node. */
  lemma NotificationLayout(h: Header, n: SequentialNotification)
    ensures var line := Decimal(n.number % 0x1_0000_0000) + " " + n.notification.labelRule;
            NotificationChunks(h, n) == LongStringChunks(h, line) + MaybeNodeChunks(h, n.notification.node)
  {
    hide Decimal, LongStringChunks, MaybeNodeChunks;
    assert NotificationLine(n) == Decimal(n.number % 0x1_0000_0000) + " " + n.notification.labelRule;
  }

  /** A versioned write is a line with the expected number and the label, and then the node. */
  lemma NewNodeVersionLayout(h: Header, v: NewNodeVersion)
    ensures var expected := match v.expected case None => "Nothing" case Some(n) => "Just " + Decimal(n);
            NewNodeVersionChunks(h, v) ==
            LongStringChunks(h, expected + " " + v.labelRule) + MaybeNodeChunks(h, v.node)
  {
    hide Decimal, LongStringChunks, MaybeNodeChunks;
    var expected := match v.expected case None => "Nothing" case Some(n) => "Just " + Decimal(n);
    assert VersionLine(v) == expected + " " + v.labelRule;
  }

  /** Each after the other, in order. */
  lemma {:induction false} EachLayout<T>(f: (Header, T) -> seq<Chunk>, h: Header, a: seq<T>, b: seq<T>)
    ensures EachChunks(f, h, a + b) == EachChunks(f, h, a) + EachChunks(f, h, b)
    ensures |b| == 1 ==> EachChunks(f, h, b) == f(h, b[0])
  {
    if |b| == 1 { assert b[1..] == []; }
    if a == [] {
      assert a + b == b;
    } else {
      EachLayout(f, h, a[1..], b);
      assert (a + b)[1..] == a[1..] + b;
    }
  }

  lemma CountLayout(h: Header, n: nat)
    requires n < TWO_32
    ensures CountChunk(h, n) == [PayloadChunk(h.requestId % 0x1_0000, h.signal % 0x100, Decimal(n))]
  {
    Uint32Length(n);
    assert Decimal(n) == Numeral(n, 10);
    LabelFits(h, Decimal(n));
    hide Decimal, Numeral, LabelChunks;
  }

  /** A counted list starts with one chunk that holds its length in decimal digits. */
  lemma CountedLayout<T>(f: (Header, T) -> seq<Chunk>, h: Header, vs: seq<T>)
    requires |vs| < TWO_32
    ensures CountedChunks(f, h, vs) ==
            [PayloadChunk(h.requestId % 0x1_0000, h.signal % 0x100, Decimal(|vs|))] + EachChunks(f, h, vs)
  {
    CountLayout(h, |vs|);
    hide EachChunks, Decimal, CountChunk;
    assert |vs| % TWO_32 == |vs|;
  }

  /** The count of a sub-transaction is that of its children; the parent stands in front of them. */
  lemma SubTransactionLayout(h: Header, st: SubTransaction)
    requires |st.children| < TWO_32
    ensures SubTransactionChunks(h, st) ==
            [PayloadChunk(h.requestId % 0x1_0000, h.signal % 0x100, Decimal(|st.children|))]
            + EachChunks(NewNodeVersionChunks, h, [st.parent] + st.children)
  {
    CountLayout(h, |st.children|);
    EachLayout(NewNodeVersionChunks, h, [st.parent], st.children);
    EachLayout(NewNodeVersionChunks, h, [], [st.parent]);
    hide EachChunks, NewNodeVersionChunks, Decimal, CountChunk;
  }

  // ---- reading what no encoder wrote ----

  /** A notification without a blank has the whole line for its number and no label. */
  lemma NotificationLines(a: string, b: string, node: Option<TreeNode>)
    requires ' ' !in a
    ensures NotificationOf(a, node) == SequentialNotification(ParseUint32(a, 10), Notification("", node))
    ensures NotificationOf(a + " " + b, node) == SequentialNotification(ParseUint32(a, 10), Notification(b, node))
  {
    NotThere(a, ' ');
    IndexOfFirst(a, " ", b);
    hide IndexOf, ParseInt;
    var line := a + " " + b;
    assert line[..|a|] == a && line[|a| + 1..] == b;
  }

  lemma {:induction false} NotThere(s: string, c: char)
    requires c !in s
    ensures IndexOf(s, [c]) == None
  {
    if s != "" {
      assert s[0] in s && (s[0] == c || !([c] <= s));
      NotThere(s[1..], c);
    }
  }

  /**
   Behind "Nothing" one character is skipped, whatever it is.  Behind "Just " there is a number up to the next
   blank; without a blank neither a number nor a label is read, and a number that is none is rejected.
   */
  lemma VersionLines(c: char, a: string, b: string, node: Option<TreeNode>)
    ensures NewNodeVersionOf("Nothing", node) == Some(NewNodeVersion(None, "", node))
    ensures NewNodeVersionOf("Nothing" + ([c] + b), node) == Some(NewNodeVersion(None, b, node))
    ensures ' ' !in a ==> NewNodeVersionOf("Just " + a, node) == Some(NewNodeVersion(None, "", node))
    ensures ' ' !in a ==>
              NewNodeVersionOf("Just " + (a + " " + b), node) ==
              match ParseInt(a, 10)
              case Some(n) => if n < 0 then None else Some(NewNodeVersion(Some(n), b, node))
              case None => None
    ensures !("Nothing" <= a) && !("Just " <= a) ==> NewNodeVersionOf(a, node) == None
  {
    NothingLine(c, b, node);
    if ' ' !in a {
      JustLine(a, node);
      JustNumberLine(a, b, node);
    }
  }

  lemma NothingLine(c: char, b: string, node: Option<TreeNode>)
    ensures NewNodeVersionOf("Nothing", node) == Some(NewNodeVersion(None, "", node))
    ensures NewNodeVersionOf("Nothing" + ([c] + b), node) == Some(NewNodeVersion(None, b, node))
  {
    var line := "Nothing" + ([c] + b);
    assert line[..7] == "Nothing" && line[8..] == b;
  }

  lemma JustLine(a: string, node: Option<TreeNode>)
    requires ' ' !in a
    ensures NewNodeVersionOf("Just " + a, node) == Some(NewNodeVersion(None, "", node))
  {
    NotThere(a, ' ');
    hide IndexOf;
    var line := "Just " + a;
    assert line[0] == 'J' && line[5..] == a;
  }

  lemma JustNumberLine(a: string, b: string, node: Option<TreeNode>)
    requires ' ' !in a
    ensures NewNodeVersionOf("Just " + (a + " " + b), node) ==
            match ParseInt(a, 10)
            case Some(n) => if n < 0 then None else Some(NewNodeVersion(Some(n), b, node))
            case None => None
  {
    IndexOfFirst(a, " ", b);
    hide IndexOf, ParseInt;
    var rest := a + " " + b;
    var line := "Just " + rest;
    assert line[0] == 'J' && line[5..] == rest;
    assert line[5..5 + |a|] == a && line[5 + |a| + 1..] == b;
  }

  predicate HexDigits(s: string) {
    forall i :: 0 <= i < |s| ==> '0' <= s[i] <= '9' || 'a' <= s[i] <= 'f' || 'A' <= s[i] <= 'F'
  }

  lemma HexDigitsAre(s: string)
    ensures IsNumeral(s, 16) <==> HexDigits(s)
  {
    forall i | 0 <= i < |s|
      ensures DigitValue(s[i]) < 16 <==> '0' <= s[i] <= '9' || 'a' <= s[i] <= 'f' || 'A' <= s[i] <= 'F'
    {
    }
  }

  /**
   Where an optional node ends: behind "Nothing", or behind as many chunks more as the last 16 characters of
   the text say in hexadecimal; what stands before them is not looked at.
   */
  lemma MaybeNodeEndExactly(chunks: seq<Chunk>, end: nat)
    ensures MaybeNodeSpan(chunks) == Some(end) <==>
            && LongStringAt(chunks).Some? && end <= |chunks|
            && var text := LongStringAt(chunks).value.value;
            if text == "Nothing" then end == LongStringAt(chunks).value.count
            else
              && |text| >= 16 && HexDigits(text[|text| - 16..])
              && end == LongStringAt(chunks).value.count + NumeralValue(text[|text| - 16..], 16) % 0x1_0000_0000
  {
    hide LongStringAt, IsNumeral, NumeralValue, HexDigits;
    if LongStringAt(chunks).Some? {
      var text := LongStringAt(chunks).value.value;
      if |text| >= 16 { HexDigitsAre(text[|text| - 16..]); }
    }
  }

  /** Which chunks are read as a node: the text must start with "Just " and hold the text of a node. */
  lemma NodeReadExactly(chunks: seq<Chunk>, end: nat, n: TreeNode)
    ensures MaybeNodeAt(chunks) == Some(Decoded(end, Some(n))) <==>
            && LongStringAt(chunks).Some? && LongStringAt(chunks).value.count <= end <= |chunks|
            && var (text, first) := (LongStringAt(chunks).value.value, LongStringAt(chunks).value.count);
            && |text| >= 21 && "Just " <= text
            && end == first + ParseUint32(text[|text| - 16..], 16)
            && var node := ParseNode(text[5..|text| - 16]);
            node.Some? && n == node.value.(propertyData := Collected(chunks[first..end]))
  {
    NothingParsed();
    hide LongStringAt, ParseNode, ParseUint32, Collected;
  }

  lemma NothingParsed()
    ensures ParseNode("") == None
  {
  }

  /** A vector of nodes keeps the nodes that are there, in order, and drops the missing ones. */
  lemma {:induction false} JustsAppend(a: seq<Option<TreeNode>>, b: seq<Option<TreeNode>>)
    ensures Justs(a + b) == Justs(a) + Justs(b)
    ensures |b| == 1 ==> Justs(b) == if b[0].Some? then [b[0].value] else []
    decreases |b|
  {
    if b == [] {
      assert a + b == a;
    } else {
      var c, init, last := a + b, b[..|b| - 1], b[|b| - 1];
      JustsAppend(a, init);
      assert c[..|c| - 1] == a + init && c[|c| - 1] == last;
      var more := if last.Some? then [last.value] else [];
      assert Justs(c) == Justs(a + init) + more && Justs(b) == Justs(init) + more;
    }
  }
}
