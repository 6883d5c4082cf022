/** The route of the server that keeps the journal and answers polls. */
module JournalServer {
  import opened TreeModel
  import opened MemoryTrees
  import opened Transactions
  import opened FileBackends
  import opened JournalSpec

  /** What a transaction does to a backend, once it has passed its checks. */
  function Transacted(deletion: Deletion, store: Store, t: Transaction): Store {
    match deletion
    case ByPath => PerformedAll(store, t)
    case ByChildNames => AllChanged(store, t)
  }

  /** The writes its listeners are told of, in order. */
  function TransactionWrites(t: Transaction): (r: seq<ServerWrite>)
    ensures |r| == |Changes(t)|
    ensures forall i :: 0 <= i < |r| ==> r[i] == ServerWrite(Changes(t)[i].labelRule, Changes(t)[i].node, true)
  {
    seq(|Changes(t)|, i requires 0 <= i < |Changes(t)| => ServerWrite(Changes(t)[i].labelRule, Changes(t)[i].node, true))
  }

  /** Deleting the empty label empties a file backend. */
  ghost predicate SparesRoot(t: Transaction) {
    forall i :: 0 <= i < |Changes(t)| ==> Changes(t)[i].node == None ==> Changes(t)[i].labelRule != ""
  }

  class Http3ServerRoute {
    var backend: Store
    var journal: seq<SequentialNotification>
    const maxJournalSize: nat
    const deletion: Deletion

    ghost var initial: Store              // the backend when the route was created
    ghost var history: seq<ServerWrite>   // every write notified since then

    ghost predicate Valid()
      reads this
    {
      && journal == JournalOf(history, maxJournalSize)
      && backend == Replay(Server(deletion), initial, history)
      && AllWellLabelled(history)
      && |history| < UNSOLICITED
    }

    constructor (backend: Store, deletion: Deletion, maxJournalSize: nat)
      ensures Valid() && this.deletion == deletion
      ensures this.maxJournalSize == maxJournalSize && initial == backend && history == []
    {
      this.backend, this.deletion, this.maxJournalSize := backend, deletion, maxJournalSize;
      journal := [PLACEHOLDER];
      initial, history := backend, [];
    }

    /** The listener callback: number the notification, append it, drop the oldest on overflow. */
    method OnNotification(n: Notification, ghost byTransaction: bool)
      requires journal == JournalOf(history, maxJournalSize) && |history| + 1 < UNSOLICITED
      modifies `journal, `history
      ensures history == old(history) + [ServerWrite(n.labelRule, n.node, byTransaction)]
      ensures journal == JournalOf(history, maxJournalSize)
    {
      ghost var w := ServerWrite(n.labelRule, n.node, byTransaction);
      JournalShape(history, maxJournalSize);
      JournalAppend(history, maxJournalSize, w);
      var number := 0;
      if |journal| > 0 {
        number := journal[|journal| - 1].number + 1;
      }
      journal := journal + [SequentialNotification(number, n)];
      if |journal| > maxJournalSize {
        journal := journal[1..];
      }
      history := history + [w];
    }

    method Upsert(node: TreeNode)
      requires Valid() && |history| + 1 < UNSOLICITED
      modifies this
      ensures Valid() && initial == old(initial)
      ensures history == old(history) + [ServerWrite(node.labelRule, Some(node), false)]
      ensures backend == old(backend)[node.labelRule := node]
    {
      backend := backend[node.labelRule := node];
      OnNotification(Notification(node.labelRule, Some(node)), false);
      assert history[..|history| - 1] == old(history);
    }

    method Delete(labelRule: Label)
      requires Valid() && |history| + 1 < UNSOLICITED
      modifies this
      ensures Valid() && initial == old(initial)
      ensures history == old(history) + [ServerWrite(labelRule, None, false)]
      ensures backend == Deleted(deletion, old(backend), labelRule)
    {
      backend := Deleted(deletion, backend, labelRule);
      OnNotification(Notification(labelRule, None), false);
      assert history[..|history| - 1] == old(history);
    }

    method NotifyChanges(t: Transaction)
      requires journal == JournalOf(history, maxJournalSize) && |history| + |Changes(t)| < UNSOLICITED
      modifies `journal, `history
      ensures history == old(history) + TransactionWrites(t)
      ensures journal == JournalOf(history, maxJournalSize)
    {
      var changes := Changes(t);
      ghost var ws := TransactionWrites(t);
      for i := 0 to |changes|
        invariant history == old(history) + ws[..i]
        invariant journal == JournalOf(history, maxJournalSize)
      {
        OnNotification(Notification(changes[i].labelRule, changes[i].node), true);
        assert ws[..i + 1] == ws[..i] + [ws[i]];
      }
      assert ws[..|changes|] == ws;
    }

    /**
     The APPLY_TRANSACTION request: the backend makes all changes and then tells of each, so the journal
     holds them as writes in order, and the backend is the replay of them.
     */
    method ApplyTransaction(t: Transaction) returns (thrown: bool)
      requires Valid() && Sequenced(backend) && OwnLabels(t) && (deletion == ByPath ==> SparesRoot(t))
      requires |history| + |Changes(t)| < UNSOLICITED
      modifies this
      ensures Valid() && initial == old(initial)
      ensures thrown <==> !CanApply(old(backend), t)
      ensures thrown ==> backend == old(backend) && history == old(history) && journal == old(journal)
      ensures !thrown ==> history == old(history) + TransactionWrites(t)
      ensures !thrown ==> backend == Transacted(deletion, old(backend), t)
    {
      for i := 0 to |t|
        invariant Valid() && backend == old(backend) && initial == old(initial)
        invariant history == old(history) && journal == old(journal)
        invariant forall k :: 0 <= k < i ==> CanPerform(backend, t[k])
      {
        if !CanPerform(backend, t[i]) {
          return true;
        }
      }
      backend := Transacted(deletion, backend, t);
      NotifyChanges(t);
      TransactionIsReplay(deletion, old(backend), t);
      ReplayAppend(Server(deletion), initial, old(history), TransactionWrites(t));
      thrown := false;
    }

    /** std::lower_bound over the journal: the first position whose number is not below `index`. */
    method LowerBound(index: nat) returns (first: nat)
      requires Valid()
      ensures first <= |journal|
      ensures forall i :: 0 <= i < first ==> journal[i].number < index
      ensures forall i :: first <= i < |journal| ==> index <= journal[i].number
    {
      assert forall i :: 0 <= i < |journal| ==> journal[i].number == FirstKept(history, maxJournalSize) + i;
      first := 0;
      var count := |journal|;
      while count > 0
        invariant 0 <= count && first + count <= |journal|
        invariant forall i :: 0 <= i < first ==> journal[i].number < index
        invariant forall i :: first + count <= i < |journal| ==> index <= journal[i].number
      {
        var step := count / 2;
        if journal[first + step].number < index {
          first := first + step + 1;
          count := count - (step + 1);
        } else {
          count := step;
        }
      }
    }

    /** The GET_JOURNAL request. */
    method GetJournal(lastIndex: nat) returns (notifications: seq<SequentialNotification>)
      requires Valid()
      ensures notifications == JournalAnswer(history, maxJournalSize, lastIndex)
    {
      hide JournalOf, JournalAnswer, Replay, AllWellLabelled;
      var it := LowerBound(lastIndex);
      AnswerFrom(history, maxJournalSize, lastIndex, it);
      var wrongJournalSequence := false;
      if it == |journal| && lastIndex != journal[|journal| - 1].number {
        wrongJournalSequence := true;
      }
      if lastIndex < journal[0].number {
        wrongJournalSequence := true;
      }
      if wrongJournalSequence {
        notifications := [SequentialNotification(0, Notification("", None)),
                          SequentialNotification(2, Notification("", None)),
                          SequentialNotification(journal[|journal| - 1].number, Notification("", None))];
      } else {
        notifications := journal[it..];
      }
    }

    /** The GET_PAGE_TREE request: the stored nodes among the children of the page node. */
    method GetPageTree(pageLabelRule: Label) returns (nodes: seq<TreeNode>)
      ensures nodes == PageTree(backend, pageLabelRule)
      ensures pageLabelRule !in backend ==> nodes == []
      ensures pageLabelRule in backend ==> nodes == StoredAmong(backend, backend[pageLabelRule].childNames)
    {
      if pageLabelRule !in backend {
        return [];
      }
      var children := backend[pageLabelRule].childNames;
      nodes := [];
      for i := 0 to |children|
        invariant nodes == StoredAmong(backend, children[..i])
      {
        assert children[..i + 1][..i] == children[..i];
        if children[i] in backend {
          nodes := nodes + [backend[children[i]]];
        }
      }
      assert children[..|children|] == children;
    }
  }

  /** Where the lower bound of an index in the journal leaves the answer. */
  lemma AnswerFrom(history: seq<ServerWrite>, maxSize: nat, index: nat, it: nat)
    requires it <= |JournalOf(history, maxSize)|
    requires forall i :: 0 <= i < it ==> JournalOf(history, maxSize)[i].number < index
    requires forall i :: it <= i < |JournalOf(history, maxSize)| ==> index <= JournalOf(history, maxSize)[i].number
    ensures var journal := JournalOf(history, maxSize);
            && journal != []
            && JournalAnswer(history, maxSize, index) ==
               var latest := journal[|journal| - 1].number;
               if (it == |journal| && index != latest) || index < journal[0].number then WrongSequence(latest)
               else journal[it..]
  {
    JournalShape(history, maxSize);
    var journal, first := JournalOf(history, maxSize), FirstKept(history, maxSize);
    assert forall i :: 0 <= i < |journal| ==> journal[i].number == first + i;
    if first <= index <= |history| {
      assert journal[index - first].number == index;
      if it < |journal| { assert journal[it].number == first + it; }
      if it > 0 { assert journal[it - 1].number == first + (it - 1); }
      assert it == index - first;
      assert journal[it..] == Numbered(history)[index..];
    }
  }

  // ---- transactions ----

  /** The first `n` changes, on a file backend. */
  lemma {:induction false} WrittenIsReplay(store: Store, t: Transaction, n: nat)
    requires n <= |Changes(t)| && SparesRoot(t)
    ensures WrittenAll(store, Changes(t)[..n]) == Replay(Server(ByPath), store, TransactionWrites(t)[..n])
  {
    hide DeletedSubtree, Changes;
    var changes, ws := Changes(t), TransactionWrites(t);
    if n > 0 {
      WrittenIsReplay(store, t, n - 1);
      assert changes[..n][..n - 1] == changes[..n - 1] && ws[..n][..n - 1] == ws[..n - 1];
    }
  }

  /** The first `n` changes, on the in-memory tree. */
  lemma {:induction false} ChangesAreReplay(store: Store, t: Transaction, n: nat)
    requires n <= |Changes(t)|
    ensures ChangesMade(store, Changes(t)[..n]) == Replay(Server(ByChildNames), store, TransactionWrites(t)[..n])
  {
    hide Deleted, Changes;
    var changes, ws := Changes(t), TransactionWrites(t);
    if n > 0 {
      ChangesAreReplay(store, t, n - 1);
      assert changes[..n][..n - 1] == changes[..n - 1] && ws[..n][..n - 1] == ws[..n - 1];
    }
  }

  /** On either kind of backend a transaction is the replay of the writes its listeners are told of. */
  lemma TransactionIsReplay(deletion: Deletion, store: Store, t: Transaction)
    requires OwnLabels(t) && (deletion == ByPath ==> SparesRoot(t))
    ensures AllWellLabelled(TransactionWrites(t))
    ensures Transacted(deletion, store, t) == Replay(Server(deletion), store, TransactionWrites(t))
  {
    var n := |Changes(t)|;
    assert Changes(t)[..n] == Changes(t) && TransactionWrites(t)[..n] == TransactionWrites(t);
    assert forall i :: 0 <= i < n ==> OwnLabel(Changes(t)[i]);
    if deletion == ByPath {
      PerformedIsWritten(store, t);
      WrittenIsReplay(store, t, n);
    } else {
      TransactionIsChanges(store, t);
      ChangesAreReplay(store, t, n);
    }
  }

  // ---- pages ----

  function StoredAmong(store: Store, labels: seq<Label>): seq<TreeNode> {
    if labels == [] then []
    else
      var last := labels[|labels| - 1];
      StoredAmong(store, labels[..|labels| - 1]) + if last in store then [store[last]] else []
  }

  function PageTree(store: Store, pageLabelRule: Label): seq<TreeNode> {
    if pageLabelRule in store then StoredAmong(store, store[pageLabelRule].childNames) else []
  }

  /** A snapshot carries exactly the stored ones of the labels, each with the value under that label. */
  lemma {:induction false} StoredAmongHolds(store: Store, labels: seq<Label>)
    requires WellKeyed(store)
    ensures forall i :: 0 <= i < |StoredAmong(store, labels)| ==>
              var node := StoredAmong(store, labels)[i];
              node.labelRule in labels && Lookup(store, node.labelRule) == Some(node)
    ensures forall i :: 0 <= i < |labels| && labels[i] in store ==> store[labels[i]] in StoredAmong(store, labels)
  {
    if labels != [] {
      var init, last := labels[..|labels| - 1], labels[|labels| - 1];
      assert labels == init + [last];
      StoredAmongHolds(store, init);
    }
  }

  /** The positions of the stored ones among the first `n` labels. */
  function StoredBefore(store: Store, labels: seq<Label>, n: nat): set<nat>
    requires n <= |labels|
  {
    set i: nat | i < n && labels[i] in store
  }

  lemma {:induction false} StoredCount(store: Store, labels: seq<Label>)
    ensures |StoredAmong(store, labels)| == |StoredBefore(store, labels, |labels|)|
  {
    if labels == [] {
      assert StoredBefore(store, labels, 0) == {};
    } else {
      var init, last := labels[..|labels| - 1], labels[|labels| - 1];
      StoredCount(store, init);
      assert StoredBefore(store, labels, |labels|) ==
             StoredBefore(store, init, |init|) + if last in store then {|init|} else {};
    }
  }

  lemma {:induction false} StoredPrefix(store: Store, labels: seq<Label>, n: nat)
    requires n <= |labels|
    ensures StoredAmong(store, labels[..n]) <= StoredAmong(store, labels)
    decreases |labels|
  {
    if n < |labels| {
      StoredPrefix(store, labels[..|labels| - 1], n);
      assert labels[..|labels| - 1][..n] == labels[..n];
    } else {
      assert labels[..n] == labels;
    }
  }

  lemma StoredAt(store: Store, labels: seq<Label>, i: nat)
    requires i < |labels| && labels[i] in store
    ensures var before := |StoredBefore(store, labels, i)|;
            before < |StoredAmong(store, labels)| && StoredAmong(store, labels)[before] == store[labels[i]]
  {
    StoredCount(store, labels[..i]);
    assert StoredBefore(store, labels[..i], i) == StoredBefore(store, labels, i);
    StoredPrefix(store, labels, i + 1);
    assert labels[..i + 1][..i] == labels[..i];
  }

  /**
   A page tree holds the stored children in the order of the list, as often as the list names them: one entry
   to each stored position, behind those of the stored positions before it.
   */
  lemma StoredInOrder(store: Store, labels: seq<Label>)
    ensures |StoredAmong(store, labels)| == |set i: nat | i < |labels| && labels[i] in store|
    ensures forall i: nat | i < |labels| && labels[i] in store ::
              var before := |set j: nat | j < i && labels[j] in store|;
              before < |StoredAmong(store, labels)| && StoredAmong(store, labels)[before] == store[labels[i]]
  {
    hide StoredAmong;
    StoredCount(store, labels);
    assert StoredBefore(store, labels, |labels|) == set i: nat | i < |labels| && labels[i] in store;
    forall i: nat | i < |labels| && labels[i] in store
      ensures var before := |set j: nat | j < i && labels[j] in store|;
              before < |StoredAmong(store, labels)| && StoredAmong(store, labels)[before] == store[labels[i]]
    {
      StoredAt(store, labels, i);
      assert StoredBefore(store, labels, i) == set j: nat | j < i && labels[j] in store;
    }
  }
}
