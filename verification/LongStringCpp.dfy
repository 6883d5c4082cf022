/**
 The server's long strings: the encoder that fills chunk after chunk, and the decoder that predicts
 the number of chunks from the length with a 32-bit countdown.
 */
module LongStringCpp {
  import opened TreeModel
  import opened Text
  import opened Chunks

  const SIZE_OF_SIZE_T: nat := 8
  const TWO_31: int := 0x8000_0000

  /** The longest string whose chunk count the decoder predicts. */
  const LONGEST_PREDICTED: nat := TWO_31 + 1185

  /** Conversion to int32_t. */
  function ToInt32(n: int): (r: int)
    ensures -TWO_31 <= r < TWO_31
    ensures -TWO_31 <= n < TWO_31 ==> r == n
  {
    var low := n % TWO_32;
    if low < TWO_31 then low else low - TWO_32
  }

  /** The number of chunks of a string of this length: eight bytes more, in full payloads. */
  function ChunkCount(length: nat): nat {
    (length + SIZE_OF_SIZE_T + MAX_PAYLOAD - 1) / MAX_PAYLOAD
  }

  /** The iterations of the countdown loop. */
  function Countdown(offset: int): nat
    decreases offset
  {
    if offset > 0 then 1 + Countdown(offset - MAX_PAYLOAD) else 0
  }

  function Predicted(length: nat): nat {
    1 + Countdown(ToInt32(ToInt32(length) - (MAX_PAYLOAD - SIZE_OF_SIZE_T)))
  }

  lemma {:induction false} CountdownIs(offset: int)
    ensures Countdown(offset) == if offset > 0 then (offset + MAX_PAYLOAD - 1) / MAX_PAYLOAD else 0
    decreases offset
  {
    if offset > 0 { CountdownIs(offset - MAX_PAYLOAD); }
  }

  /**
   The prediction is right for exactly the lengths up to 2^31 + 1185: the narrowing of a longer length
   is undone by the subtraction only that far, and beyond it the countdown starts too low.
   */
  lemma PredictionExact(length: nat)
    requires length < TWO_64
    ensures Predicted(length) == ChunkCount(length) <==> length <= LONGEST_PREDICTED
  {
    var offset := ToInt32(ToInt32(length) - (MAX_PAYLOAD - SIZE_OF_SIZE_T));
    CountdownIs(offset);
    NarrowedTwice(length);
    hide ToInt32, Countdown;
    CountOf(offset, length);
  }

  /** The two narrowings cancel exactly for the lengths up to the longest predicted one. */
  lemma NarrowedTwice(length: nat)
    ensures var offset, exact := ToInt32(ToInt32(length) - (MAX_PAYLOAD - SIZE_OF_SIZE_T)), length - 1186;
            if length <= LONGEST_PREDICTED then offset == exact else offset <= exact - TWO_32
  {
    var narrow := ToInt32(length);
    SameRest(length);
    SameRest(narrow - 1186);
    hide ToInt32;
    var offset := ToInt32(narrow - 1186);
    var turns :| narrow == length + turns * TWO_32;
    var more :| offset == narrow - 1186 + more * TWO_32;
    assert offset == length - 1186 + (turns + more) * TWO_32;
  }

  lemma SameRest(n: int)
    ensures exists turns :: ToInt32(n) == n + turns * TWO_32
  {
    var low := n % TWO_32;
    assert n == TWO_32 * (n / TWO_32) + low;
    var turns := if low < TWO_31 then -(n / TWO_32) else -(n / TWO_32) - 1;
    assert ToInt32(n) == n + turns * TWO_32;
  }

  /** The number of full payloads, from what is left behind the first chunk. */
  lemma CountOf(offset: int, length: nat)
    requires if length <= LONGEST_PREDICTED then offset == length - 1186 else offset <= length - 1186 - TWO_32
    ensures 1 + (if offset > 0 then (offset + MAX_PAYLOAD - 1) / MAX_PAYLOAD else 0) == ChunkCount(length)
            <==> length <= LONGEST_PREDICTED
  {
  }

  lemma SliceBehind(a: Bytes, s: Bytes, i: nat, j: nat)
    requires i <= j <= |s|
    ensures (a + s)[|a| + i..|a| + j] == s[i..j]
    ensures (a + s)[0..|a| + j] == a + s[..j]
  {
  }

  lemma EncodedFacts(h: Header, s: string)
    ensures |Flattened(h, LittleEndian(|s|, 8) + s)| == ChunkCount(|s|)
    ensures |s| < TWO_32 ==> LongStringChunks(h, s) == Flattened(h, LittleEndian(|s|, 8) + s)
  {
    FlattenedShape(h, LittleEndian(|s|, 8) + s);
    hide Flattened, LittleEndian, Collected;
    assert |s| < TWO_32 ==> |s| % TWO_32 == |s|;
  }

  /** The first chunk holds the length and as much of the string as fits. */
  lemma FirstChunk(h: Header, s: string)
    ensures var bytes := LittleEndian(|s|, 8) + s;
            var size := if MAX_PAYLOAD <= |s| + 8 then MAX_PAYLOAD else |s| + 8;
            && FlattenedFrom(h, bytes, 0) ==
                 [Payload(h, LittleEndian(|s|, 8) + s[..size - 8])] + FlattenedFrom(h, bytes, MAX_PAYLOAD)
            && Flattened(h, bytes) == FlattenedFrom(h, bytes, 0)
  {
    var bytes := LittleEndian(|s|, 8) + s;
    FlattenedStep(h, bytes, 0);
    FlattenedWhole(h, bytes);
    hide Flattened, FlattenedFrom, LittleEndian;
    var size := if MAX_PAYLOAD <= |s| + 8 then MAX_PAYLOAD else |s| + 8;
    SliceBehind(LittleEndian(|s|, 8), s, 0, size - 8);
  }

  lemma NextChunk(h: Header, a: Bytes, s: string, position: nat)
    requires position < |s|
    ensures var size := if MAX_PAYLOAD <= |s| - position then MAX_PAYLOAD else |s| - position;
            FlattenedFrom(h, a + s, |a| + position) ==
              [Payload(h, s[position..position + size])] + FlattenedFrom(h, a + s, |a| + position + MAX_PAYLOAD)
  {
    hide FlattenedFrom, Payload;
    var size := if MAX_PAYLOAD <= |s| - position then MAX_PAYLOAD else |s| - position;
    FlattenedStep(h, a + s, |a| + position);
    SliceBehind(a, s, position, position + size);
  }

  method EncodeLongString(h: Header, s: string) returns (encoded: seq<Chunk>)
    requires |s| < TWO_64
    ensures encoded == Flattened(h, LittleEndian(|s|, 8) + s)
    ensures |s| < TWO_32 ==> encoded == LongStringChunks(h, s)
    ensures |encoded| == ChunkCount(|s|) && Headed(encoded, h)
  {
    FlattenedHeaded(h, LittleEndian(|s|, 8) + s);
    ghost var bytes := LittleEndian(|s|, 8) + s;
    hide Flattened, FlattenedFrom, LittleEndian, Payload, ChunkCount, LongStringChunks;
    EncodedFacts(h, s);
    FirstChunk(h, s);
    var firstPayload := if MAX_PAYLOAD <= |s| + SIZE_OF_SIZE_T then MAX_PAYLOAD else |s| + SIZE_OF_SIZE_T;
    var position := firstPayload - SIZE_OF_SIZE_T;
    encoded := [Payload(h, LittleEndian(|s|, 8) + s[..position])];
    ghost var ofs := MAX_PAYLOAD;
    while position < |s|
      invariant 0 <= position <= |s|
      invariant ofs == position + 8 || (position == |s| && ofs >= |bytes|)
      invariant encoded + FlattenedFrom(h, bytes, ofs) == FlattenedFrom(h, bytes, 0)
    {
      NextChunk(h, LittleEndian(|s|, 8), s, position);
      var size := if MAX_PAYLOAD <= |s| - position then MAX_PAYLOAD else |s| - position;
      encoded := encoded + [Payload(h, s[position..position + size])];
      position := position + size;
      ofs := ofs + MAX_PAYLOAD;
    }
    FlattenedDone(h, bytes, ofs);
  }

  /** The countdown over the length in the first chunk, which must hold all eight bytes of it. */
  method CanDecodeLongString(start: nat, encoded: seq<Chunk>) returns (r: Option<nat>)
    requires start < |encoded| ==> encoded[start].PayloadChunk? && |encoded[start].payload| >= SIZE_OF_SIZE_T
    ensures start >= |encoded| ==> r == None
    ensures start < |encoded| ==>
              var end := start + Predicted(LittleEndianValue(encoded[start].payload[..8]));
              r == if end > |encoded| then None else Some(end)
  {
    if start >= |encoded| {
      return None;
    }
    var length := LittleEndianValue(encoded[start].payload[..8]);
    var expected := start + 1;
    var offset := ToInt32(length);
    offset := ToInt32(offset - (MAX_PAYLOAD - SIZE_OF_SIZE_T));
    ghost var first := offset;
    while offset > 0
      invariant -TWO_31 <= offset < TWO_31
      invariant expected + Countdown(offset) == start + 1 + Countdown(first)
      decreases offset
    {
      expected := expected + 1;
      offset := ToInt32(offset - MAX_PAYLOAD);
    }
    if expected > |encoded| {
      return None;
    }
    r := Some(expected);
  }

  /** All payload bytes of the predicted chunks, without the length. */
  method DecodeLongString(encoded: seq<Chunk>) returns (r: Option<Decoded<string>>)
    requires encoded != [] ==> encoded[0].PayloadChunk? && |encoded[0].payload| >= SIZE_OF_SIZE_T
    ensures encoded == [] ==> r == None
    ensures encoded != [] ==>
              var n := Predicted(LittleEndianValue(encoded[0].payload[..8]));
              r == if n > |encoded| then None else Some(Decoded(n, Collected(encoded[..n])[8..]))
  {
    var count := CanDecodeLongString(0, encoded);
    if count.None? {
      return None;
    }
    FirstBytes(encoded, count.value);
    r := Some(Decoded(count.value, Collected(encoded[..count.value])[SIZE_OF_SIZE_T..]));
  }

  lemma FirstBytes(encoded: seq<Chunk>, n: nat)
    requires 0 < n <= |encoded| && encoded[0].PayloadChunk?
    ensures encoded[0].payload <= Collected(encoded[..n])
  {
    assert encoded[..n][0] == encoded[0];
  }

  /** The server reads back what either encoder wrote, whatever follows. */
  method RoundTrip(h: Header, s: string, rest: seq<Chunk>) returns (r: Option<Decoded<string>>)
    requires |s| <= LONGEST_PREDICTED
    ensures r == Some(Decoded(ChunkCount(|s|), s))
  {
    var e := EncodeLongString(h, s);
    ghost var bytes := LittleEndian(|s|, 8) + s;
    FlattenedShape(h, bytes);
    hide Flattened, LittleEndian, Collected, LittleEndianValue, Predicted, ChunkCount;
    assert (e + rest)[0] == e[0] && (e + rest)[..|e|] == e;
    assert |e[0].payload| >= 8 by {
      if |e| == 1 {
        assert e[..1] == e;
        FirstBytes(e, 1);
        WholeInOne(e);
      }
    }
    FirstBytes(e, |e|);
    assert e[..|e|] == e;
    assert e[0].payload[..8] == bytes[..8] == LittleEndian(|s|, 8);
    LengthRoundTrip(|s|);
    PredictionExact(|s|);
    r := DecodeLongString(e + rest);
    assert bytes[8..] == s;
  }

  lemma WholeInOne(e: seq<Chunk>)
    requires |e| == 1 && e[0].PayloadChunk?
    ensures Collected(e) == e[0].payload
  {
    assert e == [e[0]];
    CollectedOne(e[0]);
  }
}
