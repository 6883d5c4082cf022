/**
 The queues of outgoing chunks, one to a stream: planning a batch for one connection and one request, and
 popping what was planned.
 */
module ChunkScheduler {
  import opened TreeModel
  import opened Chunks
  import opened Wire

  datatype StreamIdentifier = StreamIdentifier(cid: string, logicalId: nat)

  const SIGNAL_CLOSE_STREAM: nat := 1

  type Queues = map<StreamIdentifier, seq<Chunk>>

  function Min(a: nat, b: nat): nat {
    if a < b then a else b
  }

  function QueueOf(queues: Queues, sid: StreamIdentifier): seq<Chunk> {
    if sid in queues then queues[sid] else []
  }

  /** An empty queue has no entry. */
  function WithQueue(queues: Queues, sid: StreamIdentifier, queue: seq<Chunk>): Queues {
    if queue == [] then queues - {sid} else queues[sid := queue]
  }

  ghost predicate NoneEmpty(queues: Queues) {
    forall sid :: sid in queues ==> queues[sid] != []
  }

  predicate Distinct(sids: seq<StreamIdentifier>) {
    forall i, j :: 0 <= i < j < |sids| ==> sids[i] != sids[j]
  }

  // ---- what a batch is, looking at the queues alone ----

  /** At most `n` chunks from the fronts of the queues, in the order of the streams. */
  function Batch(queues: Queues, sids: seq<StreamIdentifier>, n: nat): (r: seq<Chunk>)
    ensures |r| <= n
    decreases |sids|
  {
    if sids == [] then []
    else
      var before := Batch(queues, sids[..|sids| - 1], n);
      before + Share(queues, sids[|sids| - 1], n - |before|)
  }

  function Share(queues: Queues, sid: StreamIdentifier, n: nat): (r: seq<Chunk>)
    ensures |r| == Min(n, |QueueOf(queues, sid)|)
  {
    QueueOf(queues, sid)[..Min(n, |QueueOf(queues, sid)|)]
  }

  function Queued(queues: Queues, sids: seq<StreamIdentifier>): nat
    decreases |sids|
  {
    if sids == [] then 0 else Queued(queues, sids[..|sids| - 1]) + |QueueOf(queues, sids[|sids| - 1])|
  }

  lemma {:induction false} BatchLength(queues: Queues, sids: seq<StreamIdentifier>, n: nat)
    ensures |Batch(queues, sids, n)| == Min(n, Queued(queues, sids))
    decreases |sids|
  {
    if sids != [] { BatchLength(queues, sids[..|sids| - 1], n); }
  }

  /** The chunks in a set of streams. */
  ghost function Total(queues: Queues, streams: set<StreamIdentifier>): nat
    decreases |streams|
  {
    if streams == {} then 0
    else
      var sid :| sid in streams;
      |QueueOf(queues, sid)| + Total(queues, streams - {sid})
  }

  lemma {:induction false} TotalWithout(queues: Queues, streams: set<StreamIdentifier>, sid: StreamIdentifier)
    requires sid in streams
    ensures Total(queues, streams) == |QueueOf(queues, sid)| + Total(queues, streams - {sid})
    decreases |streams|
  {
    var first :| first in streams && Total(queues, streams) == |QueueOf(queues, first)| + Total(queues, streams - {first});
    if first != sid {
      TotalWithout(queues, streams - {first}, sid);
      TotalWithout(queues, streams - {sid}, first);
      assert streams - {first} - {sid} == streams - {sid} - {first};
    }
  }

  function Members(sids: seq<StreamIdentifier>): set<StreamIdentifier> {
    set i | 0 <= i < |sids| :: sids[i]
  }

  lemma {:induction false} QueuedIsTotal(queues: Queues, sids: seq<StreamIdentifier>)
    requires Distinct(sids)
    ensures Queued(queues, sids) == Total(queues, Members(sids))
    decreases |sids|
  {
    if sids != [] {
      var init, last := sids[..|sids| - 1], sids[|sids| - 1];
      QueuedIsTotal(queues, init);
      assert sids == init + [last];
      assert last !in Members(init);
      hide Total, QueueOf;
      MembersNext(init, last);
      TotalWithout(queues, Members(sids), last);
      assert Members(sids) - {last} == Members(init);
    }
  }

  lemma {:induction false} TotalGrows(queues: Queues, some: set<StreamIdentifier>, all: set<StreamIdentifier>)
    requires some <= all
    ensures Total(queues, some) <= Total(queues, all)
    decreases |all|
  {
    if sid :| sid in all && sid !in some {
      TotalWithout(queues, all, sid);
      TotalGrows(queues, some, all - {sid});
    } else {
      assert some == all;
    }
  }

  function BytesOf(chunks: seq<Chunk>): nat {
    |WireBytes(chunks)|
  }

  lemma SizeAppend(a: seq<Chunk>, b: seq<Chunk>)
    ensures BytesOf(a + b) == BytesOf(a) + BytesOf(b)
  {
    WireAppend(a, b);
  }

  // ---- what popping leaves ----

  function PopOne(queues: Queues, sid: StreamIdentifier, n: nat): (r: (seq<Chunk>, Queues))
    ensures |r.0| <= n
  {
    var share := Share(queues, sid, n);
    (share, WithQueue(queues, sid, QueueOf(queues, sid)[|share|..]))
  }

  /** The chunks popped and the queues left, stream after stream. */
  function Popped(queues: Queues, sids: seq<StreamIdentifier>, n: nat): (r: (seq<Chunk>, Queues))
    ensures |r.0| <= n
    decreases |sids|
  {
    if sids == [] then ([], queues)
    else
      var (got, left) := Popped(queues, sids[..|sids| - 1], n);
      var (share, rest) := PopOne(left, sids[|sids| - 1], n - |got|);
      (got + share, rest)
  }

  lemma PoppedNext(queues: Queues, sids: seq<StreamIdentifier>, n: nat, i: nat)
    requires i < |sids|
    ensures var (got, left) := Popped(queues, sids[..i], n);
            var (share, rest) := PopOne(left, sids[i], n - |got|);
            Popped(queues, sids[..i + 1], n) == (got + share, rest)
  {
    assert sids[..i + 1][..i] == sids[..i];
  }

  lemma {:induction false} PopLeavesNoneEmpty(queues: Queues, sids: seq<StreamIdentifier>, n: nat)
    requires NoneEmpty(queues)
    ensures NoneEmpty(Popped(queues, sids, n).1)
    decreases |sids|
  {
    if sids != [] { PopLeavesNoneEmpty(queues, sids[..|sids| - 1], n); }
  }

  lemma {:induction false} PopSparesOthers(queues: Queues, sids: seq<StreamIdentifier>, n: nat, sid: StreamIdentifier)
    requires sid !in sids
    ensures QueueOf(Popped(queues, sids, n).1, sid) == QueueOf(queues, sid)
    decreases |sids|
  {
    if sids != [] { PopSparesOthers(queues, sids[..|sids| - 1], n, sid); }
  }

  /** Popping the planned streams with the planned budget gives the planned batch. */
  lemma {:induction false} PopIsBatch(queues: Queues, sids: seq<StreamIdentifier>, n: nat)
    requires Distinct(sids)
    ensures Popped(queues, sids, n).0 == Batch(queues, sids, n)
    decreases |sids|
  {
    if sids != [] {
      PopIsBatch(queues, sids[..|sids| - 1], n);
      PopSparesOthers(queues, sids[..|sids| - 1], n, sids[|sids| - 1]);
    }
  }

  /**
   In order: behind what the streams before it gave, each stream gives the front of its queue, as much as is
   left of the budget.
   */
  lemma PoppedInOrder(queues: Queues, sids: seq<StreamIdentifier>, n: nat, i: nat)
    requires Distinct(sids) && i < |sids|
    ensures var before, upTo := Popped(queues, sids[..i], n).0, Popped(queues, sids[..i + 1], n).0;
            var queue := if sids[i] in queues then queues[sids[i]] else [];
            && |before| <= n
            && upTo == before + if |queue| <= n - |before| then queue else queue[..n - |before|]
    ensures Popped(queues, sids[..i + 1], n).0 <= Popped(queues, sids, n).0
  {
    hide Popped, Distinct;
    PoppedNext(queues, sids, n, i);
    NotBefore(sids, i);
    PopSparesOthers(queues, sids[..i], n, sids[i]);
    PopPrefix(queues, sids, n, i + 1);
    var (before, left) := Popped(queues, sids[..i], n);
    PopOneIs(left, sids[i], n - |before|);
    hide PopOne;
  }

  lemma NotBefore(sids: seq<StreamIdentifier>, i: nat)
    requires Distinct(sids) && i < |sids|
    ensures sids[i] !in sids[..i]
  {
  }

  lemma PopOneIs(queues: Queues, sid: StreamIdentifier, n: nat)
    ensures PopOne(queues, sid, n).0 ==
            if |QueueOf(queues, sid)| <= n then QueueOf(queues, sid) else QueueOf(queues, sid)[..n]
  {
  }

  lemma {:induction false} PopPrefix(queues: Queues, sids: seq<StreamIdentifier>, n: nat, k: nat)
    requires k <= |sids|
    ensures Popped(queues, sids[..k], n).0 <= Popped(queues, sids, n).0
    decreases |sids|
  {
    if k < |sids| {
      var init := sids[..|sids| - 1];
      PopPrefix(queues, init, n, k);
      assert init[..k] == sids[..k];
    } else {
      assert sids[..k] == sids;
    }
  }

  lemma PopOneSplits(queues: Queues, sid: StreamIdentifier, n: nat)
    ensures QueueOf(queues, sid) == Share(queues, sid, n) + QueueOf(PopOne(queues, sid, n).1, sid)
  {
  }

  lemma PopSplitsLast(queues: Queues, init: seq<StreamIdentifier>, n: nat, sid: StreamIdentifier)
    requires Distinct(init) && sid !in init
    ensures var share := Share(queues, sid, n - |Batch(queues, init, n)|);
            QueueOf(queues, sid) == share + QueueOf(Popped(queues, init + [sid], n).1, sid)
  {
    hide *;
    PoppedNext(queues, init + [sid], n, |init|);
    assert (init + [sid])[..|init|] == init && (init + [sid])[..|init| + 1] == init + [sid];
    PopIsBatch(queues, init, n);
    PopSparesOthers(queues, init, n, sid);
    var (got, left) := Popped(queues, init, n);
    PopOneSplits(left, sid, n - |got|);
    SameShare(queues, left, sid, n - |got|);
  }

  lemma SameShare(a: Queues, b: Queues, sid: StreamIdentifier, n: nat)
    requires QueueOf(a, sid) == QueueOf(b, sid)
    ensures Share(a, sid, n) == Share(b, sid, n)
  {
  }

  lemma PopSparesLast(queues: Queues, init: seq<StreamIdentifier>, n: nat, last: StreamIdentifier, sid: StreamIdentifier)
    requires sid != last
    ensures QueueOf(Popped(queues, init + [last], n).1, sid) == QueueOf(Popped(queues, init, n).1, sid)
  {
    assert (init + [last])[..|init|] == init;
  }

  /** What a batch takes from its `i`-th stream: as much as the streams before it leave of the budget. */
  function ShareAt(queues: Queues, sids: seq<StreamIdentifier>, n: nat, i: nat): seq<Chunk>
    requires i < |sids|
  {
    Share(queues, sids[i], n - |Batch(queues, sids[..i], n)|)
  }

  lemma ShareAtPrefix(queues: Queues, init: seq<StreamIdentifier>, last: StreamIdentifier, n: nat, i: nat)
    requires i <= |init|
    ensures ShareAt(queues, init + [last], n, i) ==
            if i < |init| then ShareAt(queues, init, n, i) else Share(queues, last, n - |Batch(queues, init, n)|)
  {
    hide Batch, Share;
    var sids := init + [last];
    if i < |init| { assert sids[..i] == init[..i]; } else { assert sids[..i] == init; }
  }

  lemma DistinctPrefix(init: seq<StreamIdentifier>, last: StreamIdentifier)
    requires Distinct(init + [last])
    ensures Distinct(init) && last !in init
  {
    var sids := init + [last];
    assert forall i :: 0 <= i < |init| ==> sids[i] == init[i] && sids[i] != sids[|init|];
  }

  /** Every queue is its share of the batch followed by what is left of it. */
  lemma {:induction false} PopSplitsQueues(queues: Queues, sids: seq<StreamIdentifier>, n: nat, i: nat)
    requires Distinct(sids) && i < |sids|
    ensures QueueOf(queues, sids[i]) == ShareAt(queues, sids, n, i) + QueueOf(Popped(queues, sids, n).1, sids[i])
    decreases |sids|
  {
    hide Distinct, Popped, Batch, Share, QueueOf, ShareAt;
    var init, last := sids[..|sids| - 1], sids[|sids| - 1];
    assert sids == init + [last];
    DistinctPrefix(init, last);
    ShareAtPrefix(queues, init, last, n, i);
    if i == |init| {
      PopSplitsLast(queues, init, n, last);
    } else {
      PopSplitsQueues(queues, init, n, i);
      assert sids[i] == init[i] && init[i] in init;
      PopSparesLast(queues, init, n, last, sids[i]);
    }
  }

  /** What a plan and the pop of it agree on: number, bytes, and what stays queued where. */
  lemma PlanThenPop(queues: Queues, sids: seq<StreamIdentifier>, n: nat, matching: set<StreamIdentifier>)
    requires Distinct(sids) && Members(sids) <= matching
    requires |Batch(queues, sids, n)| == Min(n, Total(queues, matching))
    ensures var (popped, left) := Popped(queues, sids, n);
            && |popped| == Min(n, Total(queues, matching))
            && WireBytes(popped) == WireBytes(Batch(queues, sids, n))
            && (forall i :: 0 <= i < |sids| ==>
                  QueueOf(queues, sids[i]) == ShareAt(queues, sids, n, i) + QueueOf(left, sids[i]))
            && (forall sid :: sid !in sids ==> QueueOf(left, sid) == QueueOf(queues, sid))
  {
    hide Distinct, Popped, Batch, Share, ShareAt, QueueOf, Total, Members;
    PopIsBatch(queues, sids, n);
    var left := Popped(queues, sids, n).1;
    forall i | 0 <= i < |sids|
      ensures QueueOf(queues, sids[i]) == ShareAt(queues, sids, n, i) + QueueOf(left, sids[i])
    {
      PopSplitsQueues(queues, sids, n, i);
    }
    forall sid | sid !in sids ensures QueueOf(left, sid) == QueueOf(queues, sid) {
      PopSparesOthers(queues, sids, n, sid);
    }
  }

  class QuicConnector<R(==)> {
    var outgoingChunks: Queues
    var returnPaths: map<StreamIdentifier, R>

    constructor ()
      ensures Valid() && outgoingChunks == map[] && returnPaths == map[]
    {
      outgoingChunks := map[];
      returnPaths := map[];
    }

    ghost predicate Valid()
      reads this
    {
      NoneEmpty(outgoingChunks)
    }

    /** The streams of the connection with chunks to send whose return path is the request. */
    ghost function Matching(dcid: string, req: R): set<StreamIdentifier>
      reads this
    {
      set sid | sid in outgoingChunks && sid.cid == dcid && sid in returnPaths && returnPaths[sid] == req
    }

    /** What a handler produced goes behind what its stream has queued; nothing produced leaves no entry. */
    method Enqueue(sid: StreamIdentifier, processed: seq<Chunk>)
      requires Valid()
      modifies this`outgoingChunks
      ensures Valid()
      ensures forall s :: QueueOf(outgoingChunks, s) ==
                QueueOf(old(outgoingChunks), s) + if s == sid then processed else []
    {
      if processed != [] {
        if sid !in outgoingChunks {
          outgoingChunks := outgoingChunks[sid := processed];
        } else {
          outgoingChunks := outgoingChunks[sid := outgoingChunks[sid] + processed];
        }
      }
    }

    /**
     The handler of a request has run.  A lone signal is never queued: one that closes the stream takes its
     queue away, any other does nothing.
     */
    method RequestProcessed(sid: StreamIdentifier, processed: seq<Chunk>) returns (closed: bool)
      requires Valid()
      modifies this`outgoingChunks
      ensures Valid()
      ensures closed <==> |processed| == 1 && processed[0].SignalChunk? && processed[0].signal == 1
      ensures forall s :: QueueOf(outgoingChunks, s) ==
                if s != sid then QueueOf(old(outgoingChunks), s)
                else if closed then []
                else QueueOf(old(outgoingChunks), s)
                     + if |processed| == 1 && processed[0].SignalChunk? then [] else processed
    {
      closed := false;
      if processed != [] {
        if |processed| == 1 && processed[0].SignalChunk? {
          closed := processed[0].signal == SIGNAL_CLOSE_STREAM;
        } else {
          Enqueue(sid, processed);
        }
      }
      if closed {
        CloseStream(sid);
      }
    }

    method CloseStream(sid: StreamIdentifier)
      requires Valid()
      modifies this`outgoingChunks
      ensures Valid() && outgoingChunks == old(outgoingChunks) - {sid}
    {
      outgoingChunks := outgoingChunks - {sid};
    }

    /** Whatever stream the random choice takes next, the batch is as large as the budget and the queues allow. */
    method PlanForNOutgoingChunks(dcid: string, n: nat, req: R) returns (size: nat, sids: seq<StreamIdentifier>)
      ensures Distinct(sids) && Members(sids) <= Matching(dcid, req)
      ensures size == |WireBytes(Batch(outgoingChunks, sids, n))|
      ensures |Batch(outgoingChunks, sids, n)| == Min(n, Total(outgoingChunks, Matching(dcid, req)))
      ensures forall sid :: sid in sids ==>
                sid in outgoingChunks && sid.cid == dcid && sid in returnPaths && returnPaths[sid] == req
      ensures |Batch(outgoingChunks, sids, n)| < n ==> forall sid ::
                sid in outgoingChunks && sid.cid == dcid && sid in returnPaths && returnPaths[sid] == req ==> sid in sids
    {
      hide Batch, Distinct, Total;
      var potential := set sid | sid in outgoingChunks && sid.cid == dcid;
      var unused := set sid | sid in potential && sid in returnPaths && returnPaths[sid] == req;
      assert unused == Matching(dcid, req);
      size, sids := ChooseStreams(outgoingChunks, unused, n);
      assert forall sid :: sid in sids <==> sid in Members(sids);
    }

    method ChooseStreams(queues: Queues, streams: set<StreamIdentifier>, budget: nat)
      returns (size: nat, sids: seq<StreamIdentifier>)
      ensures Distinct(sids) && Members(sids) <= streams
      ensures size == BytesOf(Batch(queues, sids, budget))
      ensures |Batch(queues, sids, budget)| == Min(budget, Total(queues, streams))
      ensures |Batch(queues, sids, budget)| < budget ==> Members(sids) == streams
    {
      var n, unused;
      size, sids, n, unused := TakeStreams(queues, streams, budget);
      PlanIsFull(queues, sids, budget, n, size, unused, streams);
    }

    /** The loop of the plan, up to the end of the budget or of the streams. */
    method TakeStreams(queues: Queues, streams: set<StreamIdentifier>, budget: nat)
      returns (size: nat, sids: seq<StreamIdentifier>, left: nat, untaken: set<StreamIdentifier>)
      ensures PlannedSoFar(queues, sids, budget, left, size, untaken, streams) && (left == 0 || untaken == {})
    {
      size, sids := 0, [];
      var unused := streams;
      var n: int := budget;
      NothingPlanned(queues, budget, streams);
      hide *;
      while n > 0 && |unused| > 0
        invariant 0 <= n && PlannedSoFar(queues, sids, budget, n, size, unused, streams)
        decreases |unused|
      {
        var sid :| sid in unused;
        var more := SizeOfFront(queues, sid, n);
        ghost var before := n;
        n := n - Min(n, |QueueOf(queues, sid)|);
        PlanStep(queues, sids, budget, before, size, unused, streams, sid, n, more);
        unused, sids, size := unused - {sid}, sids + [sid], size + more;
      }
      left, untaken := n, unused;
    }

    /** The inner loop of the plan: the sizes of the first chunks of one queue. */
    method SizeOfFront(queues: Queues, sid: StreamIdentifier, n: nat) returns (size: nat)
      ensures size == BytesOf(Share(queues, sid, n))
    {
      size := 0;
      var share := Share(queues, sid, n);
      for i := 0 to |share|
        invariant size == BytesOf(share[..i])
      {
        assert share[..i + 1][..i] == share[..i];
        WireLayout(share[i]);
        size := size + WireSize(share[i]);
      }
      assert share[..|share|] == share;
    }

    /** Up to `n` chunks off the front of one queue, and its entry with the last of them. */
    method PopOutgoingChunks(sid: StreamIdentifier, n: nat) returns (moved: seq<Chunk>)
      modifies this`outgoingChunks
      ensures (moved, outgoingChunks) == PopOne(old(outgoingChunks), sid, n)
    {
      moved := [];
      if sid in outgoingChunks {
        var queue := outgoingChunks[sid];
        var count := Min(n, |queue|);
        moved := queue[..count];
        outgoingChunks := outgoingChunks[sid := queue[count..]];
        if queue[count..] == [] {
          outgoingChunks := outgoingChunks - {sid};
          assert outgoingChunks == old(outgoingChunks) - {sid};
        }
      } else {
        assert outgoingChunks == outgoingChunks - {sid};
      }
    }

    method PopNOutgoingChunks(sids: seq<StreamIdentifier>, n: nat) returns (toReturn: seq<Chunk>)
      requires Valid()
      modifies this`outgoingChunks
      ensures Valid() && (toReturn, outgoingChunks) == Popped(old(outgoingChunks), sids, n)
    {
      toReturn := [];
      var left := n;
      assert Popped(outgoingChunks, sids[..0], n) == ([], outgoingChunks);
      hide Popped, PopOne, NoneEmpty;
      for i := 0 to |sids|
        invariant (toReturn, outgoingChunks) == Popped(old(outgoingChunks), sids[..i], n)
        invariant left == n - |toReturn|
      {
        PoppedNext(old(outgoingChunks), sids, n, i);
        var moved := PopOutgoingChunks(sids[i], left);
        toReturn := toReturn + moved;
        left := left - |moved|;
      }
      assert sids[..|sids|] == sids;
      PopLeavesNoneEmpty(old(outgoingChunks), sids, n);
    }

    /** True exactly when none of the streams has a chunk. */
    method NoMoreChunks(sids: seq<StreamIdentifier>) returns (none: bool)
      requires Valid()
      ensures none <==> forall i :: 0 <= i < |sids| ==> QueueOf(outgoingChunks, sids[i]) == []
    {
      for i := 0 to |sids|
        invariant forall k :: 0 <= k < i ==> QueueOf(outgoingChunks, sids[k]) == []
      {
        if sids[i] in outgoingChunks {
          assert QueueOf(outgoingChunks, sids[i]) != [];
          return false;
        }
      }
      none := true;
    }
  }

  lemma BatchNext(queues: Queues, sids: seq<StreamIdentifier>, n: nat, sid: StreamIdentifier)
    ensures Batch(queues, sids + [sid], n) == Batch(queues, sids, n) + Share(queues, sid, n - |Batch(queues, sids, n)|)
  {
    hide QueueOf;
    var all := sids + [sid];
    assert all[..|all| - 1] == sids;
  }

  lemma MembersNext(sids: seq<StreamIdentifier>, sid: StreamIdentifier)
    requires Distinct(sids) && sid !in Members(sids)
    ensures Distinct(sids + [sid]) && Members(sids + [sid]) == Members(sids) + {sid}
  {
    var r := sids + [sid];
    forall s | s in Members(sids) + {sid} ensures s in Members(r) {
      if s == sid {
        assert r[|sids|] == s;
      } else {
        var i :| 0 <= i < |sids| && sids[i] == s;
        assert r[i] == s;
      }
    }
    forall i | 0 <= i < |sids| ensures sids[i] in Members(sids) {
    }
  }

  /** What the loop of the plan keeps: `n` of the budget is left, and `unused` of the streams. */
  ghost predicate PlannedSoFar(
    queues: Queues, sids: seq<StreamIdentifier>, budget: nat, n: nat, size: nat,
    unused: set<StreamIdentifier>, streams: set<StreamIdentifier>)
  {
    && Distinct(sids) && Members(sids) <= streams && unused == streams - Members(sids)
    && n == budget - |Batch(queues, sids, budget)| && size == BytesOf(Batch(queues, sids, budget))
  }

  lemma NothingPlanned(queues: Queues, budget: nat, streams: set<StreamIdentifier>)
    ensures PlannedSoFar(queues, [], budget, budget, 0, streams, streams)
  {
  }

  lemma PlanStep(
    queues: Queues, sids: seq<StreamIdentifier>, budget: nat, n: nat, size: nat,
    unused: set<StreamIdentifier>, streams: set<StreamIdentifier>, sid: StreamIdentifier, left: int, more: nat)
    requires PlannedSoFar(queues, sids, budget, n, size, unused, streams) && sid in unused
    requires left == n - Min(n, |QueueOf(queues, sid)|) && more == BytesOf(Share(queues, sid, n))
    ensures 0 <= left && PlannedSoFar(queues, sids + [sid], budget, left, size + more, unused - {sid}, streams)
  {
    hide Batch, BytesOf, Share, Distinct, Members, QueueOf;
    BatchNext(queues, sids, budget, sid);
    MembersNext(sids, sid);
    SizeAppend(Batch(queues, sids, budget), Share(queues, sid, n));
  }

  /** A plan that used up its budget or its streams holds as many chunks as there can be. */
  lemma PlanIsFull(
    queues: Queues, sids: seq<StreamIdentifier>, budget: nat, n: nat, size: nat,
    unused: set<StreamIdentifier>, streams: set<StreamIdentifier>)
    requires PlannedSoFar(queues, sids, budget, n, size, unused, streams) && (n == 0 || unused == {})
    ensures Distinct(sids) && Members(sids) <= streams && size == BytesOf(Batch(queues, sids, budget))
    ensures |Batch(queues, sids, budget)| == Min(budget, Total(queues, streams))
    ensures |Batch(queues, sids, budget)| < budget ==> Members(sids) == streams
  {
    BatchLength(queues, sids, budget);
    QueuedIsTotal(queues, sids);
    hide Batch, Queued, Total, Distinct, Members, BytesOf;
    forall s | s in streams && n > 0 ensures s in Members(sids) {
      assert s !in unused;
    }
    assert n > 0 ==> Members(sids) == streams;
    TotalGrows(queues, Members(sids), streams);
  }
}
