/** The encoders and decoders of repeated items as the client runs them, over a start index. */
module CodecLoops {
  import opened TreeModel
  import opened Text
  import opened Chunks
  import opened Wire
  import opened Codec

  // ---- one loop each for encoding, finding the end and decoding ----

  method EncodeEach<T>(encoded: seq<Chunk>, f: (Header, T) -> seq<Chunk>, h: Header, vs: seq<T>)
    returns (out: seq<Chunk>)
    ensures out == encoded + EachChunks(f, h, vs)
  {
    out := encoded;
    assert vs[0..] == vs;
    for i := 0 to |vs|
      invariant out + EachChunks(f, h, vs[i..]) == encoded + EachChunks(f, h, vs)
    {
      assert vs[i..][1..] == vs[i + 1..];
      out := out + f(h, vs[i]);
    }
  }

  lemma EachSpanStep(span: seq<Chunk> -> Option<nat>, n: nat, chunks: seq<Chunk>, idx: nat)
    requires n > 0 && idx <= |chunks|
    ensures var k := span(chunks[idx..]);
            Shifted(idx, EachSpan(span, n, chunks[idx..])) ==
            if k.None? || idx + k.value > |chunks| then None
            else Shifted(idx + k.value, EachSpan(span, n - 1, chunks[idx + k.value..]))
  {
    var k := span(chunks[idx..]);
    if k.Some? && idx + k.value <= |chunks| {
      assert chunks[idx..][k.value..] == chunks[idx + k.value..];
    }
  }

  lemma NoneLeft(span: seq<Chunk> -> Option<nat>, chunks: seq<Chunk>)
    ensures EachSpan(span, 0, chunks) == Some(0)
  {
  }

  /** The end of `n` items from `start`, none if one of them is not complete. */
  method CanDecodeEach(span: seq<Chunk> -> Option<nat>, n: nat, start: nat, chunks: seq<Chunk>)
    returns (r: Option<nat>)
    requires start <= |chunks| && forall cs :: span(cs).Some? ==> span(cs).value <= |cs|
    ensures r == Shifted(start, EachSpan(span, n, chunks[start..]))
    ensures r.Some? ==> r.value <= |chunks|
  {
    hide EachSpan;
    var idx := start;
    for i := 0 to n
      invariant start <= idx <= |chunks|
      invariant Shifted(idx, EachSpan(span, n - i, chunks[idx..])) == Shifted(start, EachSpan(span, n, chunks[start..]))
    {
      EachSpanStep(span, n - i, chunks, idx);
      var nxt := span(chunks[idx..]);
      if nxt.None? {
        return None;
      }
      idx := idx + nxt.value;
    }
    NoneLeft(span, chunks[idx..]);
    r := Some(idx);
  }

  function Moved<T>(start: nat, d: Option<Decoded<T>>): Option<Decoded<T>> {
    match d
    case None => None
    case Some(v) => Some(Decoded(start + v.count, v.value))
  }

  function Prepended<T>(out: seq<T>, d: Option<Decoded<seq<T>>>): Option<Decoded<seq<T>>> {
    match d
    case None => None
    case Some(v) => Some(Decoded(v.count, out + v.value))
  }

  lemma EachAtStep<T>(at: seq<Chunk> -> Option<Decoded<T>>, n: nat, chunks: seq<Chunk>, idx: nat, out: seq<T>)
    requires n > 0 && idx <= |chunks|
    ensures var d := at(chunks[idx..]);
            Prepended(out, Moved(idx, EachAt(at, n, chunks[idx..]))) ==
            if d.None? || idx + d.value.count > |chunks| then None
            else Prepended(out + [d.value.value],
                           Moved(idx + d.value.count, EachAt(at, n - 1, chunks[idx + d.value.count..])))
  {
    var d := at(chunks[idx..]);
    if d.Some? && idx + d.value.count <= |chunks| {
      assert chunks[idx..][d.value.count..] == chunks[idx + d.value.count..];
      var rest := EachAt(at, n - 1, chunks[idx + d.value.count..]);
      if rest.Some? {
        assert out + ([d.value.value] + rest.value.value) == out + [d.value.value] + rest.value.value;
      }
    }
  }

  lemma PrependNothing<T>(d: Option<Decoded<seq<T>>>)
    ensures Prepended([], d) == d
  {
    if d.Some? { assert [] + d.value.value == d.value.value; }
  }

  lemma NothingAtEnd<T>(at: seq<Chunk> -> Option<Decoded<T>>, chunks: seq<Chunk>)
    ensures EachAt(at, 0, chunks) == Some(Decoded(0, []))
  {
  }

  /** The values of `n` items from `start` and the index behind them; none stands for an exception. */
  method DecodeEach<T>(at: seq<Chunk> -> Option<Decoded<T>>, n: nat, start: nat, chunks: seq<Chunk>)
    returns (r: Option<Decoded<seq<T>>>)
    requires start <= |chunks|
    ensures r == Moved(start, EachAt(at, n, chunks[start..]))
  {
    hide EachAt;
    var idx, out := start, [];
    PrependNothing(Moved(start, EachAt(at, n, chunks[start..])));
    for i := 0 to n
      invariant start <= idx <= |chunks|
      invariant Prepended(out, Moved(idx, EachAt(at, n - i, chunks[idx..]))) ==
                Moved(start, EachAt(at, n, chunks[start..]))
    {
      EachAtStep(at, n - i, chunks, idx, out);
      var d := at(chunks[idx..]);
      if d.None? || idx + d.value.count > |chunks| {
        return None;
      }
      out := out + [d.value.value];
      idx := idx + d.value.count;
    }
    NothingAtEnd(at, chunks[idx..]);
    assert out + [] == out;
    r := Some(Decoded(idx, out));
  }

  // ---- vectors and transactions ----

  method EncodeTransaction(h: Header, tx: Transaction) returns (out: seq<Chunk>)
    ensures out == TransactionChunks(h, tx) && Headed(out, h)
  {
    TransactionHeaded(h, tx);
    out := EncodeEach(CountChunk(h, |tx| % TWO_32), SubTransactionChunks, h, tx);
  }

  method EncodeSubTransaction(h: Header, st: SubTransaction) returns (out: seq<Chunk>)
    ensures out == SubTransactionChunks(h, st) && Headed(out, h)
  {
    SubTransactionHeaded(h, st);
    hide CountChunk, NewNodeVersionChunks, EachChunks;
    var front := CountChunk(h, |st.children|) + NewNodeVersionChunks(h, st.parent);
    Regroup(CountChunk(h, |st.children|), NewNodeVersionChunks(h, st.parent),
            EachChunks(NewNodeVersionChunks, h, st.children));
    out := EncodeEach(front, NewNodeVersionChunks, h, st.children);
  }

  method EncodeVectorSequentialNotification(h: Header, ns: seq<SequentialNotification>) returns (out: seq<Chunk>)
    ensures out == NotificationVectorChunks(h, ns) && Headed(out, h)
  {
    NotificationVectorHeaded(h, ns);
    out := EncodeEach(CountChunk(h, |ns| % TWO_32), NotificationChunks, h, ns);
  }

  method EncodeVectorTreeNode(h: Header, nodes: seq<TreeNode>) returns (out: seq<Chunk>)
    ensures out == NodeVectorChunks(h, nodes) && Headed(out, h)
  {
    NodeVectorHeaded(h, nodes);
    out := EncodeEach(CountChunk(h, |nodes| % TWO_32), MaybeNodeChunks, h, AllJust(nodes));
  }

  lemma OneFurther(chunks: seq<Chunk>, start: nat)
    requires start < |chunks|
    ensures chunks[start..][1..] == chunks[start + 1..]
  {
  }

  /** A count and that many items, from a start index. */
  method CanDecodeCounted(span: seq<Chunk> -> Option<nat>, start: nat, chunks: seq<Chunk>) returns (r: Option<nat>)
    requires start <= |chunks| && forall cs :: span(cs).Some? ==> span(cs).value <= |cs|
    ensures r == Shifted(start, CountedSpan(span, chunks[start..]))
  {
    var n := CountSpan(chunks[start..]);
    if n.None? {
      return None;
    }
    OneFurther(chunks, start);
    r := CanDecodeEach(span, n.value, start + 1, chunks);
  }

  method DecodeCounted<T>(at: seq<Chunk> -> Option<Decoded<T>>, start: nat, chunks: seq<Chunk>)
    returns (r: Option<Decoded<seq<T>>>)
    requires start <= |chunks|
    ensures r == Moved(start, CountedAt(at, chunks[start..]))
  {
    var n := CountAt(chunks[start..]);
    if n.None? {
      return None;
    }
    OneFurther(chunks, start);
    r := DecodeEach(at, n.value, start + 1, chunks);
  }

  method CanDecodeTransaction(start: nat, chunks: seq<Chunk>) returns (r: Option<nat>)
    requires start <= |chunks|
    ensures r == Shifted(start, TransactionSpan(chunks[start..]))
  {
    r := CanDecodeCounted(SubTransactionSpan, start, chunks);
  }

  method DecodeTransaction(start: nat, chunks: seq<Chunk>) returns (r: Option<Decoded<Transaction>>)
    requires start <= |chunks|
    ensures r == Moved(start, TransactionAt(chunks[start..]))
  {
    r := DecodeCounted(SubTransactionAt, start, chunks);
  }

  lemma CountNeedsChunk(chunks: seq<Chunk>)
    requires CountSpan(chunks).Some?
    ensures chunks != []
  {
  }

  method CanDecodeSubTransaction(start: nat, chunks: seq<Chunk>) returns (r: Option<nat>)
    requires start <= |chunks|
    ensures r == Shifted(start, SubTransactionSpan(chunks[start..]))
  {
    hide CountSpan, NewNodeVersionSpan, EachSpan;
    var n := CountSpan(chunks[start..]);
    if n.None? {
      return None;
    }
    CountNeedsChunk(chunks[start..]);
    OneFurther(chunks, start);
    var main := NewNodeVersionSpan(chunks[start + 1..]);
    if main.None? {
      return None;
    }
    assert chunks[start + 1..][main.value..] == chunks[start + 1 + main.value..];
    r := CanDecodeEach(NewNodeVersionSpan, n.value, start + 1 + main.value, chunks);
  }

  method CanDecodeVectorSequentialNotification(start: nat, chunks: seq<Chunk>) returns (r: Option<nat>)
    requires start <= |chunks|
    ensures r == Shifted(start, NotificationVectorSpan(chunks[start..]))
  {
    r := CanDecodeCounted(NotificationSpan, start, chunks);
  }

  method DecodeVectorSequentialNotification(start: nat, chunks: seq<Chunk>)
    returns (r: Option<Decoded<seq<SequentialNotification>>>)
    requires start <= |chunks|
    ensures r == Moved(start, NotificationVectorAt(chunks[start..]))
  {
    r := DecodeCounted(NotificationAt, start, chunks);
  }

  method CanDecodeVectorTreeNode(start: nat, chunks: seq<Chunk>) returns (r: Option<nat>)
    requires start <= |chunks|
    ensures r == Shifted(start, NodeVectorSpan(chunks[start..]))
  {
    r := CanDecodeCounted(MaybeNodeSpan, start, chunks);
  }

  method DecodeVectorTreeNode(start: nat, chunks: seq<Chunk>) returns (r: Option<Decoded<seq<TreeNode>>>)
    requires start <= |chunks|
    ensures r == Moved(start, NodeVectorAt(chunks[start..]))
  {
    hide CountedAt, MaybeNodeAt, Justs;
    var d := DecodeCounted(MaybeNodeAt, start, chunks);
    if d.None? {
      return None;
    }
    var out := KeepJusts(d.value.value);
    r := Some(Decoded(d.value.count, out));
  }

  method KeepJusts(ms: seq<Option<TreeNode>>) returns (out: seq<TreeNode>)
    ensures out == Justs(ms)
  {
    out := [];
    for i := 0 to |ms|
      invariant out == Justs(ms[..i])
    {
      assert ms[..i + 1][..i] == ms[..i];
      if ms[i].Some? {
        out := out + [ms[i].value];
      }
    }
    assert ms[..|ms|] == ms;
  }

  // ---- the framing seen from a start index ----

  /**
   Between any chunks before and any chunks after, an exactly framed encoding is found from its start
   index to its end; cut anywhere inside, it is not decodable.
   */
  lemma FramedAnywhere<T(!new)>(e: seq<Chunk>, v: T, span: seq<Chunk> -> Option<nat>, at: seq<Chunk> -> Option<Decoded<T>>,
                          before: seq<Chunk>, after: seq<Chunk>, k: nat)
    requires Framed(e, v, span, at) && k < |e|
    ensures Shifted(|before|, span((before + e + after)[|before|..])) == Some(|before| + |e|)
    ensures Moved(|before|, at((before + e + after)[|before|..])) == Some(Decoded(|before| + |e|, v))
    ensures Shifted(|before|, span((before + e[..k])[|before|..])) == None
  {
    assert (before + e + after)[|before|..] == e + after;
    assert (before + e[..k])[|before|..] == e[..k];
  }

  // ---- over the wire ----

  /** What an encoder produced is decoded from its bytes on the wire. */
  lemma OverWire<T(!new)>(e: seq<Chunk>, v: T, h: Header, span: seq<Chunk> -> Option<nat>,
                          at: seq<Chunk> -> Option<Decoded<T>>)
    requires Framed(e, v, span, at) && Headed(e, h)
    ensures ReadAll(WireBytes(e)) == Some(e) && at(e) == Some(Decoded(|e|, v))
  {
    HeadedFits(e, h);
    BatchRoundTrip(e);
    assert e + [] == e;
    assert at(e + []) == Some(Decoded(|e|, v));
  }

  lemma TransactionOverWire(h: Header, tx: Transaction)
    requires TransactionOk(tx)
    ensures var chunks := ReadAll(WireBytes(TransactionChunks(h, tx)));
            chunks.Some? && TransactionAt(chunks.value) == Some(Decoded(|chunks.value|, tx))
  {
    hide TransactionChunks, TransactionSpan, TransactionAt, WireBytes, ReadAll, Framed, Headed, TransactionOk;
    TransactionFramed(h, tx);
    TransactionHeaded(h, tx);
    OverWire(TransactionChunks(h, tx), tx, h, TransactionSpan, TransactionAt);
  }

  lemma NodeVectorOverWire(h: Header, nodes: seq<TreeNode>)
    requires NodeVectorOk(nodes)
    ensures var chunks := ReadAll(WireBytes(NodeVectorChunks(h, nodes)));
            chunks.Some? && NodeVectorAt(chunks.value) == Some(Decoded(|chunks.value|, nodes))
  {
    hide NodeVectorChunks, NodeVectorSpan, NodeVectorAt, WireBytes, ReadAll, Framed, Headed, NodeVectorOk;
    NodeVectorFramed(h, nodes);
    NodeVectorHeaded(h, nodes);
    OverWire(NodeVectorChunks(h, nodes), nodes, h, NodeVectorSpan, NodeVectorAt);
  }

  lemma NotificationVectorOverWire(h: Header, ns: seq<SequentialNotification>)
    requires NotificationVectorOk(ns)
    ensures var chunks := ReadAll(WireBytes(NotificationVectorChunks(h, ns)));
            chunks.Some? && NotificationVectorAt(chunks.value) == Some(Decoded(|chunks.value|, CutAll(ns)))
  {
    hide NotificationVectorChunks, NotificationVectorSpan, NotificationVectorAt, WireBytes, ReadAll, Framed, Headed;
    hide NotificationVectorOk;
    NotificationVectorFramed(h, ns);
    NotificationVectorHeaded(h, ns);
    OverWire(NotificationVectorChunks(h, ns), CutAll(ns), h, NotificationVectorSpan, NotificationVectorAt);
  }
}
