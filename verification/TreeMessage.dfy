/** The response side of a message: chunks arrive one by one until the response can be decoded. */
module TreeMessage {
  import opened TreeModel
  import Text
  import opened Chunks
  import opened Codec

  const GET_NODE_RESPONSE: nat := 0x08
  const UPSERT_NODE_RESPONSE: nat := 0x0a
  const GET_PAGE_TREE_RESPONSE: nat := 0x0e
  const QUERY_NODES_RESPONSE: nat := 0x10
  const OPEN_TRANSACTION_LAYER_RESPONSE: nat := 0x12
  const CLOSE_TRANSACTION_LAYERS_RESPONSE: nat := 0x14
  const APPLY_TRANSACTION_RESPONSE: nat := 0x16
  const GET_FULL_TREE_RESPONSE: nat := 0x18
  const REGISTER_LISTENER_RESPONSE: nat := 0x1a
  const DEREGISTER_LISTENER_RESPONSE: nat := 0x1c
  const NOTIFY_LISTENERS_RESPONSE: nat := 0x1e
  const PROCESS_NOTIFICATION_RESPONSE: nat := 0x20
  const GET_JOURNAL_RESPONSE: nat := 0x22

  const NODE_VECTOR_RESPONSES := {GET_PAGE_TREE_RESPONSE, QUERY_NODES_RESPONSE, GET_FULL_TREE_RESPONSE}

  const LABEL_RESPONSES := {
    APPLY_TRANSACTION_RESPONSE, OPEN_TRANSACTION_LAYER_RESPONSE, CLOSE_TRANSACTION_LAYERS_RESPONSE,
    REGISTER_LISTENER_RESPONSE, DEREGISTER_LISTENER_RESPONSE, NOTIFY_LISTENERS_RESPONSE,
    PROCESS_NOTIFICATION_RESPONSE, UPSERT_NODE_RESPONSE}

  /** The end of the response body for the current signal, none while it cannot be decoded. */
  function ResponseEnd(signal: nat, chunks: seq<Chunk>): Option<nat> {
    if signal == GET_NODE_RESPONSE then MaybeNodeSpan(chunks)
    else if signal in NODE_VECTOR_RESPONSES then NodeVectorSpan(chunks)
    else if signal == GET_JOURNAL_RESPONSE then NotificationVectorSpan(chunks)
    else if signal in LABEL_RESPONSES then LabelSpan(chunks)
    else None
  }

  function SignalAfter(signal: nat, chunk: Chunk): nat {
    if chunk.NoHeaderChunk? then signal else chunk.signal % 0x100
  }

  /** A fresh message after pushing the chunks in order, as the method above leaves it. */
  datatype Received = Received(signal: nat, chunks: seq<Chunk>, complete: bool)

  function Pushed(chunks: seq<Chunk>): Received {
    if chunks == [] then Received(0, [], false)
    else
      var before, chunk := Pushed(chunks[..|chunks| - 1]), chunks[|chunks| - 1];
      var signal := SignalAfter(before.signal, chunk);
      Received(signal, before.chunks + [chunk],
               before.complete || ResponseEnd(signal, before.chunks + [chunk]).Some?)
  }

  class HTTP3TreeMessage {
    var signal: nat
    var responseChunks: seq<Chunk>
    var responseComplete: bool

    function State(): Received
      reads this
    {
      Received(signal, responseChunks, responseComplete)
    }

    constructor ()
      ensures State() == Pushed([])
      ensures signal == 0 && responseChunks == [] && !responseComplete
    {
      signal, responseChunks, responseComplete := 0, [], false;
    }

    method PushResponseChunk(chunk: Chunk)
      modifies this
      ensures responseChunks == old(responseChunks) + [chunk]
      ensures signal == if chunk.NoHeaderChunk? then old(signal) else chunk.signal % 0x100
      ensures responseComplete <==> old(responseComplete) || ResponseEnd(signal, responseChunks).Some?
      ensures forall chunks :: old(State()) == Pushed(chunks) ==> State() == Pushed(chunks + [chunk])
    {
      forall chunks
        ensures Pushed(chunks + [chunk]) ==
                var before := Pushed(chunks);
                var signal := SignalAfter(before.signal, chunk);
                Received(signal, before.chunks + [chunk],
                         before.complete || ResponseEnd(signal, before.chunks + [chunk]).Some?)
      {
        assert (chunks + [chunk])[..|chunks|] == chunks;
      }
      hide Pushed;
      signal := SignalAfter(signal, chunk);
      responseChunks := responseChunks + [chunk];
      var endIdx := ResponseEnd(signal, responseChunks);
      if endIdx.Some? && endIdx.value <= |responseChunks| {
        responseComplete := true;
      }
    }
  }

  ghost predicate AllSignal(chunks: seq<Chunk>, signal: nat) {
    forall i :: 0 <= i < |chunks| ==> chunks[i].PayloadChunk? && chunks[i].signal == signal
  }

  /** The encoding is complete at its last chunk and not before. */
  ghost predicate CompleteAtLast(e: seq<Chunk>) {
    forall k :: 0 <= k <= |e| ==> (Pushed(e[..k]).complete <==> k == |e|)
  }

  lemma {:induction false} PushedChunks(chunks: seq<Chunk>)
    ensures Pushed(chunks).chunks == chunks
  {
    hide ResponseEnd;
    if chunks != [] { PushedChunks(chunks[..|chunks| - 1]); }
  }

  lemma PushedOne(chunks: seq<Chunk>, signal: nat)
    requires chunks != [] && AllSignal(chunks, signal) && signal < 0x100
    ensures var before, after := Pushed(chunks[..|chunks| - 1]), Pushed(chunks);
            && after.signal == signal
            && after.complete == (before.complete || ResponseEnd(signal, chunks).Some?)
  {
    hide ResponseEnd;
    PushedChunks(chunks[..|chunks| - 1]);
    assert chunks[..|chunks| - 1] + [chunks[|chunks| - 1]] == chunks;
  }

  lemma {:induction false} PushesSoFar(e: seq<Chunk>, signal: nat, k: nat)
    requires AllSignal(e, signal) && signal < 0x100 && k <= |e|
    requires forall j :: 0 <= j < |e| ==> ResponseEnd(signal, e[..j]) == None
    requires ResponseEnd(signal, e).Some?
    ensures Pushed(e[..k]).complete <==> k == |e| && k > 0
  {
    hide ResponseEnd, Pushed;
    if k > 0 {
      PushesSoFar(e, signal, k - 1);
      assert e[..k][..k - 1] == e[..k - 1] && e[..|e|] == e;
      PushedOne(e[..k], signal);
    } else {
      NothingPushed();
    }
  }

  lemma NothingPushed()
    ensures !Pushed([]).complete
  {
  }

  lemma PushedFramed<T(!new)>(e: seq<Chunk>, v: T, signal: nat, span: seq<Chunk> -> Option<nat>,
                              at: seq<Chunk> -> Option<Decoded<T>>)
    requires Framed(e, v, span, at) && e != [] && AllSignal(e, signal) && signal < 0x100
    requires forall chunks :: ResponseEnd(signal, chunks) == span(chunks)
    ensures CompleteAtLast(e) && Pushed(e).chunks == e && at(Pushed(e).chunks) == Some(Decoded(|e|, v))
  {
    hide ResponseEnd;
    assert e + [] == e && e[..|e|] == e;
    assert span(e + []) == Some(|e|);
    forall k | 0 <= k <= |e| ensures Pushed(e[..k]).complete <==> k == |e| {
      PushesSoFar(e, signal, k);
    }
    PushedChunks(e);
  }

  // ---- the signal of an encoding ----

  lemma HeadedSignal(chunks: seq<Chunk>, h: Header)
    requires Headed(chunks, h)
    ensures AllSignal(chunks, h.signal % 0x100)
  {
  }

  // ---- the responses ----

  /** A node response is complete exactly at its last chunk, and decoding it returns the node. */
  lemma NodeResponse(h: Header, m: Option<TreeNode>)
    requires h.signal == 0x08 && MaybeNodeOk(m)
    ensures var e := MaybeNodeChunks(h, m);
            CompleteAtLast(e) && MaybeNodeAt(Pushed(e).chunks) == Some(Decoded(|e|, m))
  {
    hide MaybeNodeChunks, MaybeNodeSpan, MaybeNodeAt, MaybeNodeOk, AllSignal, Framed;
    MaybeNodeFramed(h, m);
    MaybeNodeHeaded(h, m);
    HeadedSignal(MaybeNodeChunks(h, m), h);
    PushedFramed(MaybeNodeChunks(h, m), m, h.signal, MaybeNodeSpan, MaybeNodeAt);
  }

  lemma CountedNotEmpty<T>(f: (Header, T) -> seq<Chunk>, h: Header, vs: seq<T>)
    requires |vs| < Text.TWO_32
    ensures CountedChunks(f, h, vs) != []
  {
    Text.Uint32Length(|vs|);
  }

  /** So is a response that carries nodes, */
  lemma NodeVectorResponse(h: Header, nodes: seq<TreeNode>)
    requires h.signal in {0x0e, 0x10, 0x18} && NodeVectorOk(nodes)
    ensures var e := NodeVectorChunks(h, nodes);
            CompleteAtLast(e) && NodeVectorAt(Pushed(e).chunks) == Some(Decoded(|e|, nodes))
  {
    hide CountedChunks, MaybeNodeChunks, NodeVectorSpan, NodeVectorAt, NodeOk, AllSignal, Framed;
    NodeVectorFramed(h, nodes);
    NodeVectorHeaded(h, nodes);
    HeadedSignal(NodeVectorChunks(h, nodes), h);
    CountedNotEmpty(MaybeNodeChunks, h, AllJust(nodes));
    PushedFramed(NodeVectorChunks(h, nodes), nodes, h.signal, NodeVectorSpan, NodeVectorAt);
  }

  /** and the journal response, whose numbers arrive cut to 32 bits. */
  lemma JournalResponse(h: Header, ns: seq<SequentialNotification>)
    requires h.signal == 0x22 && NotificationVectorOk(ns)
    ensures var e := NotificationVectorChunks(h, ns);
            CompleteAtLast(e) && NotificationVectorAt(Pushed(e).chunks) == Some(Decoded(|e|, CutAll(ns)))
  {
    hide CountedChunks, NotificationChunks, NotificationVectorSpan, NotificationVectorAt, NotificationOk;
    hide AllSignal, Framed;
    NotificationVectorFramed(h, ns);
    NotificationVectorHeaded(h, ns);
    HeadedSignal(NotificationVectorChunks(h, ns), h);
    CountedNotEmpty(NotificationChunks, h, ns);
    PushedFramed(NotificationVectorChunks(h, ns), CutAll(ns), h.signal, NotificationVectorSpan, NotificationVectorAt);
  }

  /** A boolean answer travels as one label, and is complete with its one chunk. */
  lemma LabelResponse(h: Header, s: string)
    requires h.signal in {0x0a, 0x12, 0x14, 0x16, 0x1a, 0x1c, 0x1e, 0x20} && |s| <= MAX_PAYLOAD
    ensures var e := LabelChunks(h, s).value;
            |e| == 1 && CompleteAtLast(e) && LabelAt(Pushed(e).chunks) == Some(Decoded(1, s))
  {
    LabelFramed(h, s);
    var e := LabelChunks(h, s).value;
    assert AllSignal(e, h.signal);
    hide LabelSpan, LabelAt, AllSignal, Framed;
    PushedFramed(e, s, h.signal, LabelSpan, LabelAt);
  }

  const KNOWN_RESPONSES := {0x08, 0x0a, 0x0e, 0x10, 0x12, 0x14, 0x16, 0x18, 0x1a, 0x1c, 0x1e, 0x20, 0x22}

  lemma NoEndUnknown(signal: nat, chunks: seq<Chunk>)
    requires signal !in KNOWN_RESPONSES
    ensures ResponseEnd(signal, chunks) == None
  {
  }

  /** Under a signal that is not known, however many chunks arrive, no response is ever complete. */
  lemma {:induction false} UnknownNeverCompletes(chunks: seq<Chunk>, signal: nat)
    requires signal < 0x100 && signal !in KNOWN_RESPONSES && AllSignal(chunks, signal)
    ensures !Pushed(chunks).complete
  {
    hide ResponseEnd, Pushed;
    if chunks == [] {
      NothingPushed();
    } else {
      NoEndUnknown(signal, chunks);
      PushedOne(chunks, signal);
      UnknownNeverCompletes(chunks[..|chunks| - 1], signal);
    }
  }

  /** The delete response is one of them. */
  lemma DeleteResponseNeverCompletes(chunks: seq<Chunk>)
    requires AllSignal(chunks, 0x0c)
    ensures !Pushed(chunks).complete
  {
    UnknownNeverCompletes(chunks, 0x0c);
  }
}
