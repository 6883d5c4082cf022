/**
 Chunks and the two ways a string travels in them: a label in one chunk, a long string behind an
 eight-byte length over as many chunks as it needs.
 */
module Chunks {
  import opened TreeModel
  import opened Text

  datatype Header = Header(requestId: nat, signal: nat)

  datatype Chunk =
    | NoHeaderChunk
    | SignalChunk(requestId: nat, signal: nat)
    | PayloadChunk(requestId: nat, signal: nat, payload: Bytes)

  const DEFAULT_CHUNK_SIZE: nat := 1200
  const HEADER_SIZE: nat := 6
  const MAX_PAYLOAD: nat := DEFAULT_CHUNK_SIZE - HEADER_SIZE

  /** The header fields are cut to 16 and 8 bits. */
  function Payload(h: Header, data: Bytes): Chunk {
    PayloadChunk(h.requestId % 0x1_0000, h.signal % 0x100, data)
  }

  /** Every chunk belongs to the request, carries its signal, and fits into a datagram. */
  ghost predicate Headed(chunks: seq<Chunk>, h: Header) {
    forall i :: 0 <= i < |chunks| ==>
      && chunks[i].PayloadChunk? && |chunks[i].payload| <= MAX_PAYLOAD
      && chunks[i].requestId == h.requestId % 0x1_0000 && chunks[i].signal == h.signal % 0x100
  }

  lemma HeadedAppend(a: seq<Chunk>, b: seq<Chunk>, h: Header)
    requires Headed(a, h) && Headed(b, h)
    ensures Headed(a + b, h)
  {
  }

  // ---- splitting and collecting ----

  /** The data cut into full payloads; at least one chunk, even for no data. */
  function Flattened(h: Header, data: Bytes): (r: seq<Chunk>)
    ensures r != []
    decreases |data|
  {
    if |data| <= MAX_PAYLOAD then [Payload(h, data)]
    else [Payload(h, data[..MAX_PAYLOAD])] + Flattened(h, data[MAX_PAYLOAD..])
  }

  /** What the splitting loop still has to produce at offset `ofs`. */
  ghost function FlattenedFrom(h: Header, data: Bytes, ofs: nat): seq<Chunk> {
    if ofs < |data| then Flattened(h, data[ofs..]) else []
  }

  lemma FlattenedStep(h: Header, data: Bytes, ofs: nat)
    requires ofs < |data|
    ensures var upTo := if ofs + MAX_PAYLOAD <= |data| then ofs + MAX_PAYLOAD else |data|;
            FlattenedFrom(h, data, ofs) == [Payload(h, data[ofs..upTo])] + FlattenedFrom(h, data, ofs + MAX_PAYLOAD)
  {
    var rest := data[ofs..];
    if ofs + MAX_PAYLOAD < |data| {
      assert rest[..MAX_PAYLOAD] == data[ofs..ofs + MAX_PAYLOAD] && rest[MAX_PAYLOAD..] == data[ofs + MAX_PAYLOAD..];
    } else {
      assert rest == data[ofs..|data|];
    }
  }

  lemma FlattenedWhole(h: Header, data: Bytes)
    ensures Flattened(h, data) == if data == "" then [Payload(h, "")] else FlattenedFrom(h, data, 0)
  {
    assert data[0..] == data;
  }

  method FlattenWithSignal(h: Header, data: Bytes) returns (out: seq<Chunk>)
    ensures out == Flattened(h, data)
    ensures forall i :: 0 <= i < |out| ==>
              out[i].PayloadChunk? && out[i].requestId == h.requestId % 0x1_0000 && out[i].signal == h.signal % 0x100
  {
    FlattenedHeaded(h, data);
    hide Flattened, FlattenedFrom;
    FlattenedWhole(h, data);
    out := [];
    var ofs := 0;
    while ofs < |data|
      invariant 0 <= ofs && (out == [] <==> ofs == 0) && (ofs > 0 ==> data != "")
      invariant out + FlattenedFrom(h, data, ofs) == FlattenedFrom(h, data, 0)
    {
      FlattenedStep(h, data, ofs);
      var upTo := if ofs + MAX_PAYLOAD <= |data| then ofs + MAX_PAYLOAD else |data|;
      out := out + [Payload(h, data[ofs..upTo])];
      ofs := ofs + MAX_PAYLOAD;
    }
    assert FlattenedFrom(h, data, ofs) == [] by { FlattenedDone(h, data, ofs); }
    if |out| == 0 {
      assert data == "";
      out := [Payload(h, "")];
    }
  }

  lemma FlattenedDone(h: Header, data: Bytes, ofs: nat)
    requires ofs >= |data|
    ensures FlattenedFrom(h, data, ofs) == []
  {
  }

  /** The payload bytes in order; other chunks carry none. */
  function Collected(chunks: seq<Chunk>): Bytes {
    if chunks == [] then ""
    else (if chunks[0].PayloadChunk? then chunks[0].payload else "") + Collected(chunks[1..])
  }

  method CollectPayloadBytes(chunks: seq<Chunk>) returns (out: Bytes)
    ensures out == Collected(chunks)
  {
    hide Collected;
    out := "";
    assert chunks[0..] == chunks;
    for i := 0 to |chunks|
      invariant out + Collected(chunks[i..]) == Collected(chunks)
    {
      CollectedFrom(chunks, i);
      if !chunks[i].PayloadChunk? {
        continue;
      }
      out := out + chunks[i].payload;
    }
    NothingCollected();
    assert chunks[|chunks|..] == [] && out + "" == out;
  }

  lemma CollectedFrom(chunks: seq<Chunk>, i: nat)
    requires i < |chunks|
    ensures Collected(chunks[i..]) ==
            if chunks[i].PayloadChunk? then chunks[i].payload + Collected(chunks[i + 1..]) else Collected(chunks[i + 1..])
  {
    assert chunks[i..][1..] == chunks[i + 1..];
  }

  lemma {:induction false} CollectedAppend(a: seq<Chunk>, b: seq<Chunk>)
    ensures Collected(a + b) == Collected(a) + Collected(b)
  {
    if a == [] {
      assert a + b == b;
    } else {
      CollectedAppend(a[1..], b);
      assert (a + b)[1..] == a[1..] + b;
    }
  }

  lemma CollectedOne(c: Chunk)
    requires c.PayloadChunk?
    ensures Collected([c]) == c.payload
  {
    assert [c][1..] == [];
  }

  /** Chunks without a payload give nothing. */
  lemma CollectedNone(c: Chunk)
    requires !c.PayloadChunk?
    ensures Collected([c]) == ""
  {
    assert [c][1..] == [];
  }

  lemma {:induction false} FlattenedCollected(h: Header, data: Bytes)
    ensures Collected(Flattened(h, data)) == data
    decreases |data|
  {
    if |data| <= MAX_PAYLOAD {
      CollectedOne(Payload(h, data));
    } else {
      var head := Payload(h, data[..MAX_PAYLOAD]);
      FlattenedCollected(h, data[MAX_PAYLOAD..]);
      CollectedAppend([head], Flattened(h, data[MAX_PAYLOAD..]));
      CollectedOne(head);
      assert data == data[..MAX_PAYLOAD] + data[MAX_PAYLOAD..];
    }
  }

  /** Nothing is lost, no payload exceeds a datagram, and only the last chunk may be short. */
  lemma {:induction false} FlattenedShape(h: Header, data: Bytes)
    ensures var out := Flattened(h, data);
            && Collected(out) == data
            && (forall i :: 0 <= i < |out| ==>
                  out[i].PayloadChunk? && out[i] == Payload(h, out[i].payload) && |out[i].payload| <= MAX_PAYLOAD)
            && (forall i :: 0 <= i < |out| - 1 ==> |out[i].payload| == MAX_PAYLOAD)
            && (data != "" ==> out[|out| - 1].payload != "")
            && |out| == (if data == "" then 1 else (|data| + MAX_PAYLOAD - 1) / MAX_PAYLOAD)
    decreases |data|
  {
    FlattenedCollected(h, data);
    hide Collected;
    if |data| > MAX_PAYLOAD {
      var rest := Flattened(h, data[MAX_PAYLOAD..]);
      FlattenedShape(h, data[MAX_PAYLOAD..]);
      assert Flattened(h, data) == [Payload(h, data[..MAX_PAYLOAD])] + rest;
    }
  }

  lemma {:induction false} FlattenedHeaded(h: Header, data: Bytes)
    ensures Headed(Flattened(h, data), h)
    decreases |data|
  {
    if |data| > MAX_PAYLOAD {
      FlattenedHeaded(h, data[MAX_PAYLOAD..]);
      HeadedAppend([Payload(h, data[..MAX_PAYLOAD])], Flattened(h, data[MAX_PAYLOAD..]), h);
    }
  }

  // ---- the eight-byte length ----

  /** `k` bytes, the lowest first. */
  function LittleEndian(n: nat, k: nat): (r: Bytes)
    ensures |r| == k && forall i :: 0 <= i < |r| ==> r[i] < 256 as char
  {
    if k == 0 then "" else [(n % 256) as char] + LittleEndian(n / 256, k - 1)
  }

  function LittleEndianValue(s: Bytes): nat {
    if s == "" then 0 else s[0] as nat + 256 * LittleEndianValue(s[1..])
  }

  function Pow256(k: nat): nat {
    if k == 0 then 1 else 256 * Pow256(k - 1)
  }

  /** The first byte counts ones, every byte behind it 256 times as much as the one before. */
  lemma EightBytes(s: Bytes)
    requires |s| == 8
    ensures LittleEndianValue(s) ==
            s[0] as nat + 0x100 * s[1] as nat + 0x1_0000 * s[2] as nat + 0x100_0000 * s[3] as nat
            + 0x1_0000_0000 * s[4] as nat + 0x100_0000_0000 * s[5] as nat
            + 0x1_0000_0000_0000 * s[6] as nat + 0x100_0000_0000_0000 * s[7] as nat
    ensures LittleEndianValue(s[..4]) ==
            s[0] as nat + 0x100 * s[1] as nat + 0x1_0000 * s[2] as nat + 0x100_0000 * s[3] as nat
  {
    FourBytes(s[..4]);
    FourBytes(s[4..]);
    FourInFront(s[..4], s[4..]);
    assert s == s[..4] + s[4..];
  }

  lemma FourBytes(s: Bytes)
    requires |s| == 4
    ensures LittleEndianValue(s) ==
            s[0] as nat + 0x100 * s[1] as nat + 0x1_0000 * s[2] as nat + 0x100_0000 * s[3] as nat
  {
    assert s[1..][1..] == s[2..] && s[2..][1..] == s[3..] && s[3..][1..] == "";
    assert LittleEndianValue(s[3..]) == s[3] as nat;
    assert LittleEndianValue(s[2..]) == s[2] as nat + 256 * s[3] as nat;
  }

  lemma FourInFront(a: Bytes, b: Bytes)
    requires |a| == 4
    ensures LittleEndianValue(a + b) == LittleEndianValue(a) + 0x1_0000_0000 * LittleEndianValue(b)
  {
    FourBytes(a);
    var s := a + b;
    assert s[1..][1..] == s[2..] && s[2..][1..] == s[3..] && s[3..][1..] == b;
    assert LittleEndianValue(s[3..]) == a[3] as nat + 256 * LittleEndianValue(b);
    assert LittleEndianValue(s[2..]) == a[2] as nat + 256 * LittleEndianValue(s[3..]);
    assert LittleEndianValue(s[1..]) == a[1] as nat + 256 * LittleEndianValue(s[2..]);
  }

  lemma {:induction false} LittleEndianRoundTrip(n: nat, k: nat)
    requires n < Pow256(k)
    ensures LittleEndianValue(LittleEndian(n, k)) == n
    decreases k
  {
    if k > 0 {
      LittleEndianRoundTrip(n / 256, k - 1);
      assert LittleEndian(n, k)[1..] == LittleEndian(n / 256, k - 1);
    }
  }

  lemma LengthRoundTrip(n: nat)
    requires n < TWO_32
    ensures LittleEndianValue(LittleEndian(n, 8)) == n
  {
    assert Pow256(8) == 256 * (256 * (256 * (256 * Pow256(4))));
    assert Pow256(4) == TWO_32 by {
      assert Pow256(4) == 256 * (256 * (256 * (256 * Pow256(0))));
    }
    LittleEndianRoundTrip(n, 8);
  }

  // ---- reading ----

  /**
   Readers take the chunks from their start position on and say how many they use.  A caller that
   holds a start index works on `chunks[start..]` and adds the count to the index.
   */
  datatype Decoded<+T> = Decoded(count: nat, value: T)

  /**
   `e` encodes `v` exactly: in front of any further chunks the reader uses `e` and no more and yields
   `v`, and on every strict prefix of `e` it asks for more.
   */
  ghost predicate Framed<T(!new)>(e: seq<Chunk>, v: T, span: seq<Chunk> -> Option<nat>,
                                  at: seq<Chunk> -> Option<Decoded<T>>) {
    && (forall rest :: span(e + rest) == Some(|e|) && at(e + rest) == Some(Decoded(|e|, v)))
    && (forall k :: 0 <= k < |e| ==> span(e[..k]) == None)
  }

  // ---- labels ----

  function LabelChunks(h: Header, s: string): Option<seq<Chunk>> {
    if |s| > MAX_PAYLOAD then None else Some([Payload(h, s)])
  }

  function LabelSpan(chunks: seq<Chunk>): (r: Option<nat>)
    ensures r.Some? ==> r.value <= |chunks|
  {
    if chunks == [] || !chunks[0].PayloadChunk? then None else Some(1)
  }

  function LabelAt(chunks: seq<Chunk>): Option<Decoded<string>> {
    if LabelSpan(chunks).None? then None else Some(Decoded(1, chunks[0].payload))
  }

  /** A label is one chunk of the request, and too long for it exactly beyond 1194 bytes. */
  lemma LabelFits(h: Header, s: string)
    ensures LabelChunks(h, s) ==
            if |s| <= 1194 then Some([PayloadChunk(h.requestId % 0x1_0000, h.signal % 0x100, s)]) else None
  {
  }

  lemma LabelFramed(h: Header, s: string)
    requires |s| <= MAX_PAYLOAD
    ensures Framed(LabelChunks(h, s).value, s, LabelSpan, LabelAt)
  {
    var e := LabelChunks(h, s).value;
    forall rest ensures LabelSpan(e + rest) == Some(1) && LabelAt(e + rest) == Some(Decoded(1, s)) {
      assert (e + rest)[0] == Payload(h, s);
    }
  }

  // ---- long strings ----

  /** The length is written as an unsigned 32-bit number in eight bytes. */
  function LongStringChunks(h: Header, s: string): (r: seq<Chunk>)
    ensures r != []
  {
    Flattened(h, LittleEndian(|s| % TWO_32, 8) + s)
  }

  /** The number of leading chunks that hold `need` bytes, all of them payload chunks. */
  function Reach(chunks: seq<Chunk>, need: nat): (r: Option<nat>)
    ensures r.Some? ==> 0 < r.value <= |chunks| && |Collected(chunks[..r.value])| >= need
  {
    if chunks == [] || !chunks[0].PayloadChunk? then None
    else
      var size := |chunks[0].payload|;
      if size >= need then
        assert chunks[..1][1..] == [];
        Some(1)
      else
        var n :- Reach(chunks[1..], need - size);
        assert chunks[..n + 1][1..] == chunks[1..][..n];
        Some(n + 1)
  }

  function LongStringSpan(chunks: seq<Chunk>): (r: Option<nat>)
    ensures r.Some? ==> 0 < r.value <= |chunks|
  {
    var n :- Reach(chunks, 8);
    Reach(chunks, 8 + LittleEndianValue(Collected(chunks[..n])[..8]))
  }

  function LongStringAt(chunks: seq<Chunk>): Option<Decoded<string>> {
    var n :- LongStringSpan(chunks);
    var bytes := Collected(chunks[..n]);
    if |bytes| < 8 then None
    else
      var total := 8 + LittleEndianValue(bytes[..8]);
      if |bytes| < total then None else Some(Decoded(n, bytes[8..total]))
  }

  function Shifted(start: nat, n: Option<nat>): Option<nat> {
    match n
    case None => None
    case Some(k) => Some(start + k)
  }

  /** Both scans: first the length, over chunk borders if need be, then the end of the string. */
  method CanDecodeLongString(start: nat, chunks: seq<Chunk>) returns (r: Option<nat>)
    requires start <= |chunks|
    ensures r == Shifted(start, LongStringSpan(chunks[start..]))
  {
    if start >= |chunks| {
      return None;
    }
    var tmp, idx := FirstEight(start, chunks);
    if |tmp| < 8 {
      return None;
    }
    r := EndOfBytes(start, chunks, 8 + LittleEndianValue(tmp));
  }

  lemma ReachStep(chunks: seq<Chunk>, i: nat, need: nat)
    requires i < |chunks|
    ensures Shifted(i, Reach(chunks[i..], need)) ==
            if !chunks[i].PayloadChunk? then None
            else if |chunks[i].payload| >= need then Some(i + 1)
            else Shifted(i + 1, Reach(chunks[i + 1..], need - |chunks[i].payload|))
  {
    assert chunks[i..][1..] == chunks[i + 1..];
  }

  lemma CollectedStep(chunks: seq<Chunk>, start: nat, i: nat)
    requires start <= i < |chunks| && chunks[i].PayloadChunk?
    ensures Collected(chunks[start..i + 1]) == Collected(chunks[start..i]) + chunks[i].payload
  {
    assert chunks[start..i + 1] == chunks[start..i] + [chunks[i]];
    CollectedAppend(chunks[start..i], [chunks[i]]);
    assert [chunks[i]][1..] == [];
  }

  /** The second loop: the position behind the chunk that completes `totalNeeded` bytes. */
  method EndOfBytes(start: nat, chunks: seq<Chunk>, totalNeeded: nat) returns (r: Option<nat>)
    requires start <= |chunks| && totalNeeded > 0
    ensures r == Shifted(start, Reach(chunks[start..], totalNeeded))
  {
    hide Reach;
    var available := 0;
    var i := start;
    while i < |chunks|
      invariant start <= i <= |chunks| && available < totalNeeded
      invariant Shifted(start, Reach(chunks[start..], totalNeeded)) ==
                Shifted(i, Reach(chunks[i..], totalNeeded - available))
    {
      ReachStep(chunks, i, totalNeeded - available);
      if !chunks[i].PayloadChunk? {
        return None;
      }
      available := available + |chunks[i].payload|;
      if available >= totalNeeded {
        return Some(i + 1);
      }
      i := i + 1;
    }
    assert chunks[i..] == [];
    NoneReached(totalNeeded - available);
    return None;
  }

  lemma NoneReached(need: nat)
    ensures Reach([], need) == None
  {
  }

  /** The first loop: the eight bytes of the length and the position behind them; fewer bytes if cut. */
  method FirstEight(start: nat, chunks: seq<Chunk>) returns (tmp: Bytes, idx: nat)
    requires start <= |chunks|
    ensures var n := Reach(chunks[start..], 8);
            if n.None? then |tmp| < 8
            else idx == start + n.value && tmp == Collected(chunks[start..][..n.value])[..8]
  {
    hide Reach, Collected;
    var need := 8;
    idx, tmp := start, "";
    assert chunks[start..start] == [] && Collected([]) == "" by { NothingCollected(); }
    while idx < |chunks| && need > 0
      invariant start <= idx <= |chunks| && 0 <= need == 8 - |tmp|
      invariant need > 0 ==>
                  && Shifted(start, Reach(chunks[start..], 8)) == Shifted(idx, Reach(chunks[idx..], need))
                  && tmp == Collected(chunks[start..idx])
      invariant need == 0 ==>
                  && Reach(chunks[start..], 8) == Some(idx - start)
                  && |Collected(chunks[start..idx])| >= 8
                  && tmp == Collected(chunks[start..idx])[..8]
    {
      var c := chunks[idx];
      ReachStep(chunks, idx, need);
      if !c.PayloadChunk? {
        return;
      }
      CollectedStep(chunks, start, idx);
      var take := if need <= |c.payload| then need else |c.payload|;
      assert take == |c.payload| ==> c.payload[..take] == c.payload;
      tmp := tmp + c.payload[..take];
      need := need - take;
      idx := idx + 1;
    }
    if need == 0 {
      assert chunks[start..][..idx - start] == chunks[start..idx];
    } else {
      assert chunks[idx..] == [];
      NoneReached(need);
    }
  }

  lemma NothingCollected()
    ensures Collected([]) == ""
  {
  }

  predicate AllPayload(chunks: seq<Chunk>) {
    forall i :: 0 <= i < |chunks| ==> chunks[i].PayloadChunk?
  }

  /** Later chunks do not matter once the bytes are reached. */
  lemma {:induction false} ReachMore(a: seq<Chunk>, b: seq<Chunk>, need: nat)
    requires Reach(a, need).Some?
    ensures Reach(a + b, need) == Reach(a, need)
  {
    assert (a + b)[1..] == a[1..] + b;
    if |a[0].payload| < need {
      ReachMore(a[1..], b, need - |a[0].payload|);
    }
  }

  lemma {:induction false} ReachEnough(a: seq<Chunk>, need: nat)
    requires AllPayload(a) && 0 < need <= |Collected(a)|
    ensures Reach(a, need).Some?
  {
    if |a[0].payload| < need {
      ReachEnough(a[1..], need - |a[0].payload|);
    }
  }

  /** Chunks with too few bytes never reach the need. */
  lemma {:induction false} ReachShort(a: seq<Chunk>, need: nat)
    requires |Collected(a)| < need
    ensures Reach(a, need) == None
  {
    if a != [] && a[0].PayloadChunk? {
      ReachShort(a[1..], need - |a[0].payload|);
    }
  }

  lemma PrefixCollected(e: seq<Chunk>, n: nat)
    requires n <= |e|
    ensures Collected(e[..n]) <= Collected(e)
  {
    CollectedAppend(e[..n], e[n..]);
    assert e[..n] + e[n..] == e;
  }

  /** If the last chunk is not empty, a strict prefix is short of the total. */
  lemma CutIsShort(e: seq<Chunk>, k: nat)
    requires k < |e| && AllPayload(e) && e[|e| - 1].payload != ""
    ensures |Collected(e[..k])| < |Collected(e)|
  {
    var init, last := e[..|e| - 1], [e[|e| - 1]];
    PrefixCollected(init, k);
    assert init[..k] == e[..k] && e == init + last && last[1..] == [];
    CollectedAppend(init, last);
  }

  lemma ReachTotal(e: seq<Chunk>)
    requires e != [] && AllPayload(e) && e[|e| - 1].payload != ""
    ensures Reach(e, |Collected(e)|) == Some(|e|)
  {
    var total := |Collected(e)|;
    CutIsShort(e, 0);
    ReachEnough(e, total);
    var n := Reach(e, total).value;
    CutOrWhole(e, n);
  }

  lemma CutOrWhole(e: seq<Chunk>, n: nat)
    requires n <= |e| && e != [] && AllPayload(e) && e[|e| - 1].payload != ""
    ensures n < |e| ==> |Collected(e[..n])| < |Collected(e)|
  {
    if n < |e| { CutIsShort(e, n); }
  }

  /** The length read from a prefix of `e` is that of `e`. */
  lemma LengthStable(e: seq<Chunk>, k: nat)
    requires k <= |e|
    ensures var n := Reach(e[..k], 8);
            n.Some? ==> Collected(e[..k][..n.value])[..8] <= Collected(e)
  {
    var n := Reach(e[..k], 8);
    if n.Some? {
      assert e[..k][..n.value] == e[..n.value];
      PrefixCollected(e, n.value);
    }
  }

  /** The end of a reach: the first chunk with which the bytes suffice, all chunks up to it being payload. */
  ghost predicate EndsAt(chunks: seq<Chunk>, need: nat, n: nat) {
    && 0 < n <= |chunks| && AllPayload(chunks[..n])
    && |Collected(chunks[..n - 1])| < need <= |Collected(chunks[..n])|
  }

  lemma {:induction false} ReachExactly(chunks: seq<Chunk>, need: nat, n: nat)
    requires need > 0
    ensures Reach(chunks, need) == Some(n) <==> EndsAt(chunks, need, n)
  {
    if chunks != [] && 0 < n <= |chunks| {
      var head, rest := chunks[0], chunks[1..];
      assert chunks[..n][0] == head && chunks[..n][1..] == rest[..n - 1];
      if n > 1 { assert chunks[..n - 1][0] == head && chunks[..n - 1][1..] == rest[..n - 2]; }
      if head.PayloadChunk? && |head.payload| < need {
        ReachExactly(rest, need - |head.payload|, n - 1);
        assert AllPayload(chunks[..n]) <==> AllPayload(rest[..n - 1]) by { PayloadRest(chunks[..n]); }
      } else if n > 1 {
        assert |Collected(chunks[..n - 1])| >= if head.PayloadChunk? then |head.payload| else 0;
      }
    }
  }

  lemma PayloadRest(chunks: seq<Chunk>)
    requires chunks != []
    ensures AllPayload(chunks) <==> chunks[0].PayloadChunk? && AllPayload(chunks[1..])
  {
    assert forall i :: 1 <= i < |chunks| ==> chunks[i] == chunks[1..][i - 1];
  }

  /**
   What any list of chunks holds as its long string: the payload chunks up to the first with which there are
   as many bytes as the first eight of them count, behind those eight.
   */
  lemma LongStringExactly(chunks: seq<Chunk>, n: nat)
    ensures LongStringSpan(chunks) == Some(n) <==>
            n <= |chunks| && |Collected(chunks[..n])| >= 8
            && EndsAt(chunks, 8 + LittleEndianValue(Collected(chunks[..n])[..8]), n)
    ensures LongStringSpan(chunks) == Some(n) ==>
            var bytes := Collected(chunks[..n]);
            LongStringAt(chunks) == Some(Decoded(n, bytes[8..8 + LittleEndianValue(bytes[..8])]))
    ensures LongStringSpan(chunks) == None ==> LongStringAt(chunks) == None
  {
    hide LittleEndianValue, Reach, Collected;
    var first := Reach(chunks, 8);
    if first.Some? {
      LengthBefore(chunks, first.value, n);
      ReachExactly(chunks, 8 + LittleEndianValue(Collected(chunks[..first.value])[..8]), n);
    } else if n <= |chunks| && |Collected(chunks[..n])| >= 8 && AllPayload(chunks[..n]) {
      ReachEnough(chunks[..n], 8);
      ReachMore(chunks[..n], chunks[n..], 8);
      assert chunks[..n] + chunks[n..] == chunks;
    }
  }

  /** The length is read from the same eight bytes, however many more are there. */
  lemma LengthBefore(chunks: seq<Chunk>, first: nat, n: nat)
    requires Reach(chunks, 8) == Some(first)
    ensures n <= |chunks| && |Collected(chunks[..n])| >= 8 ==>
              first <= n && Collected(chunks[..n])[..8] == Collected(chunks[..first])[..8]
  {
    ReachExactly(chunks, 8, first);
    hide Collected, Reach;
    if n <= |chunks| && |Collected(chunks[..n])| >= 8 {
      if first <= n {
        assert chunks[..n][..first] == chunks[..first];
        PrefixCollected(chunks[..n], first);
      } else {
        assert chunks[..first - 1][..n] == chunks[..n];
        PrefixCollected(chunks[..first - 1], n);
      }
    }
  }

  /** The chunks of a long string: its length, its bytes, and a last chunk that is not empty. */
  lemma LongStringBytes(h: Header, s: string)
    requires |s| < TWO_32
    ensures var e := LongStringChunks(h, s);
            && AllPayload(e) && e[|e| - 1].payload != ""
            && Collected(e) == LittleEndian(|s|, 8) + s
            && LittleEndianValue(Collected(e)[..8]) == |s|
  {
    hide Flattened, LittleEndian, LittleEndianValue, Collected;
    FlattenedShape(h, LittleEndian(|s|, 8) + s);
    LengthRoundTrip(|s|);
    assert |s| % TWO_32 == |s|;
    assert (LittleEndian(|s|, 8) + s)[..8] == LittleEndian(|s|, 8);
  }

  lemma LongStringWhole(h: Header, s: string, rest: seq<Chunk>)
    requires |s| < TWO_32
    ensures var e := LongStringChunks(h, s);
            LongStringSpan(e + rest) == Some(|e|) && LongStringAt(e + rest) == Some(Decoded(|e|, s))
  {
    hide LongStringChunks, LittleEndianValue, Reach, Collected;
    var e := LongStringChunks(h, s);
    LongStringBytes(h, s);
    ReachTotal(e);
    ReachEnough(e, 8);
    var n := Reach(e, 8).value;
    LengthStable(e, |e|);
    assert e[..|e|] == e;
    assert Collected(e[..n])[..8] == Collected(e)[..8];
    ReachMore(e, rest, 8);
    ReachMore(e, rest, 8 + |s|);
    assert (e + rest)[..n] == e[..n] && (e + rest)[..|e|] == e;
    assert Collected(e)[8..8 + |s|] == s;
  }

  lemma LongStringCut(h: Header, s: string, k: nat)
    requires |s| < TWO_32 && k < |LongStringChunks(h, s)|
    ensures LongStringSpan(LongStringChunks(h, s)[..k]) == None
  {
    hide LongStringChunks;
    var e := LongStringChunks(h, s);
    LongStringBytes(h, s);
    LengthStable(e, k);
    CutIsShort(e, k);
    ReachShort(e[..k], 8 + |s|);
    var m := Reach(e[..k], 8);
    if m.Some? {
      assert Collected(e[..k][..m.value])[..8] == Collected(e)[..8];
    }
  }

  lemma LongStringFramed(h: Header, s: string)
    requires |s| < TWO_32
    ensures Framed(LongStringChunks(h, s), s, LongStringSpan, LongStringAt)
  {
    hide LongStringChunks, LongStringSpan, LongStringAt;
    var e := LongStringChunks(h, s);
    forall rest ensures LongStringSpan(e + rest) == Some(|e|) && LongStringAt(e + rest) == Some(Decoded(|e|, s)) {
      LongStringWhole(h, s, rest);
    }
    forall k | 0 <= k < |e| ensures LongStringSpan(e[..k]) == None {
      LongStringCut(h, s, k);
    }
  }
}
