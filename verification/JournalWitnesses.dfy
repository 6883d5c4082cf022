/** Runs from the start that end where the guarantees of the protocol stop. */
module JournalWitnesses {
  import opened TreeModel
  import opened MemoryTrees
  import opened Transactions
  import opened Versions
  import opened JournalSpec
  import opened JournalAgreement
  import opened JournalServer
  import opened JournalProtocol
  import opened JournalRuns

  function UpsertOf(node: TreeNode): ServerWrite {
    ServerWrite(node.labelRule, Some(node), false)
  }

  function DeleteOf(labelRule: Label): ServerWrite {
    ServerWrite(labelRule, None, false)
  }

  /** Writes with nothing in between. */
  function Writing(ws: seq<ServerWrite>): seq<Event> {
    if ws == [] then [] else Writing(ws[..|ws| - 1]) + [Write(ws[|ws| - 1])]
  }

  lemma {:induction false} WritingWrites(s: State, ws: seq<ServerWrite>)
    requires AllWellLabelled(ws) && |s.history| + |ws| < UNSOLICITED
    ensures Exec(s, Writing(ws)) == s.(history := s.history + ws)
    decreases |ws|
  {
    if ws == [] {
      assert s.history + ws == s.history;
    } else {
      var init, last := ws[..|ws| - 1], ws[|ws| - 1];
      assert WellLabelled(last);
      WritingWrites(s, init);
      ExecThen(s, Writing(init), Write(last));
      assert s.history + init + [last] == s.history + ws;
    }
  }

  /** The start of several runs: writes that change nothing push the placeholder out of a journal of three. */
  function GapRun(node: TreeNode): seq<Event> {
    Writing([UpsertOf(node), UpsertOf(node), UpsertOf(node)]) + POLL
  }

  lemma SameWrites(side: Side, store: Store, node: TreeNode)
    requires side.Server? || node.labelRule != ""
    requires Lookup(store, node.labelRule) == Some(node)
    ensures var n := UpsertOf(node);
            Replay(side, store, [n, n, n]) == store
  {
    var n := UpsertOf(node);
    assert store[node.labelRule := node] == store;
    assert [n, n, n][..2] == [n, n] && [n, n][..1] == [n] && [n][..0] == [];
    assert Replay(side, store, [n]) == store;
    assert Replay(side, store, [n, n]) == store;
  }

  lemma GapOpens(setup: Setup, node: TreeNode)
    requires WellKeyed(setup.initial) && setup.maxSize == 3
    ensures var s := Exec(Init(setup), GapRun(node));
            && Inv(s)
            && s.setup == setup && s.history == [UpsertOf(node), UpsertOf(node), UpsertOf(node)]
            && s.local == setup.initial && s.last == 3 && s.poll.Idle? && s.pages == [PageAsked] && s.gaps == 1
  {
    var start, n := Init(setup), UpsertOf(node);
    InitInv(setup);
    WritingWrites(start, [n, n, n]);
    ExecKeepsInv(start, Writing([n, n, n]));
    ExecAppend(start, Writing([n, n, n]), POLL);
    var s := start.(history := [n, n, n]);
    assert start.history + [n, n, n] == [n, n, n];
    JournalShape(s.history, 3);
    hide Inv, Exec, InJournal, JournalOf;
    PollOutsideJournal(s);
  }

  /** The page is taken at the client's index. */
  lemma PageIsAnswered(setup: Setup, node: TreeNode)
    requires WellKeyed(setup.initial) && setup.maxSize == 3
    requires Lookup(setup.initial, node.labelRule) == Some(node)
    ensures var s := Exec(Init(setup), GapRun(node) + [AnswerPage(0)]);
            && Inv(s)
            && s.setup == setup && s.history == [UpsertOf(node), UpsertOf(node), UpsertOf(node)]
            && s.local == setup.initial && s.last == 3 && s.poll.Idle? && s.gaps == 1
            && s.pages == [PageAnswered(PageTree(setup.initial, MUTABLE_PAGE), 3)]
  {
    GapOpens(setup, node);
    var start, n := Init(setup), UpsertOf(node);
    ExecThen(start, GapRun(node), AnswerPage(0));
    NextKeepsInv(Exec(start, GapRun(node)), AnswerPage(0));
    SameWrites(Server(setup.server), setup.initial, node);
    assert [n, n, n][..3] == [n, n, n];
    hide Inv, Exec, Replay, PageTree, GapRun, WellKeyed;
  }

  lemma PageIsDelivered(s: State, nodes: seq<TreeNode>, takenAt: nat)
    requires s.pages == [PageAnswered(nodes, takenAt)]
    ensures var s2 := Next(s, DeliverPage(0));
            && s2.setup == s.setup && s2.history == s.history && s2.last == s.last && s2.poll == s.poll
            && s2.gaps == s.gaps && s2.pages == [] && s2.local == UpsertedAll(s.local, nodes)
  {
  }

  // ---- a stale snapshot ----

  /** The page is answered, the label written, the write delivered, and only then the page. */
  function StaleRun(node: TreeNode, newer: TreeNode): seq<Event> {
    GapRun(node) + [AnswerPage(0)] + [Write(UpsertOf(newer))] + POLL + [DeliverPage(0)]
  }

  lemma StaleRunUpToPage(setup: Setup, node: TreeNode, newer: TreeNode)
    requires WellKeyed(setup.initial) && setup.maxSize == 3
    requires Lookup(setup.initial, node.labelRule) == Some(node)
    ensures var n := UpsertOf(node);
            var s := Exec(Init(setup), GapRun(node) + [AnswerPage(0)] + [Write(UpsertOf(newer))] + POLL);
            && s.setup == setup && s.history == [n, n, n] + [UpsertOf(newer)]
            && s.last == 4 && s.poll.Idle? && s.gaps == 1
            && s.pages == [PageAnswered(PageTree(setup.initial, MUTABLE_PAGE), 3)]
  {
    PageIsAnswered(setup, node);
    var start, answered := Init(setup), GapRun(node) + [AnswerPage(0)];
    var s0 := Exec(start, answered);
    ExecThen(start, answered, Write(UpsertOf(newer)));
    ExecAppend(start, answered + [Write(UpsertOf(newer))], POLL);
    var s := Next(s0, Write(UpsertOf(newer)));
    NextKeepsInv(s0, Write(UpsertOf(newer)));
    JournalShape(s.history, 3);
    hide Inv, Exec, Replay, PageTree, GapRun, InJournal, JournalOf, WellKeyed;
    PollInsideJournal(s);
  }

  /**
   The state of the stale snapshot is reached, whatever the page holds and whatever is written over a label
   of it: with the index at the newest write and nothing under way, the client holds the old node.
   */
  lemma StaleSnapshotIsReached(setup: Setup, node: TreeNode, newer: TreeNode)
    requires WellKeyed(setup.initial) && setup.maxSize == 3
    requires MUTABLE_PAGE in setup.initial && node.labelRule in setup.initial[MUTABLE_PAGE].childNames
    requires Lookup(setup.initial, node.labelRule) == Some(node) && Replicable(node.labelRule)
    requires newer.labelRule == node.labelRule
    ensures var s := Exec(Init(setup), StaleRun(node, newer));
            && s.last == |s.history| && s.poll.Idle? && s.pages == [] && s.gaps == 1
            && Lookup(s.local, node.labelRule) == Some(node)
            && Lookup(ServerAt(s, s.last), node.labelRule) == Some(newer)
  {
    StaleRunUpToPage(setup, node, newer);
    var start := Init(setup);
    var upTo := GapRun(node) + [AnswerPage(0)] + [Write(UpsertOf(newer))] + POLL;
    var s := Exec(start, upTo);
    ExecThen(start, upTo, DeliverPage(0));
    PageIsDelivered(s, PageTree(setup.initial, MUTABLE_PAGE), 3);
    PageCarriesChildren(setup.initial, node.labelRule);
    PageUpserted(s.local, setup.initial, node.labelRule);
    NewerStays(setup, node, newer);
    assert s.history[..4] == s.history;
    hide Exec, Next, PageTree, Carries, GapRun, Replay, WellKeyed, UpsertedAll;
  }

  lemma NewerStays(setup: Setup, node: TreeNode, newer: TreeNode)
    requires Lookup(setup.initial, node.labelRule) == Some(node)
    ensures var n := UpsertOf(node);
            Lookup(Replay(Server(setup.server), setup.initial, [n, n, n] + [UpsertOf(newer)]), newer.labelRule)
            == Some(newer)
  {
    var n := UpsertOf(node);
    ReplayMore(Server(setup.server), setup.initial, [n, n, n], UpsertOf(newer));
    hide Replay;
  }

  // ---- a child swept away ----

  /** The parent is deleted and written anew while the page is under way; page and poll arrive after that. */
  function SweepRun(parent: TreeNode, child: TreeNode): seq<Event> {
    GapRun(child) + Writing([DeleteOf(parent.labelRule), UpsertOf(parent)]) + [AnswerPage(0)] + [DeliverPage(0)] + POLL
  }

  /** The server's tree: the page names both, and the stored parent does not link to its child. */
  ghost predicate Unlinked(setup: Setup, parent: TreeNode, child: TreeNode, name: string) {
    && WellKeyed(setup.initial) && setup.maxSize == 3
    && setup.server == ByChildNames && setup.client == ByChildNames
    && Replicable(parent.labelRule) && child.labelRule == parent.labelRule + "/" + name
    && parent.labelRule != MUTABLE_PAGE && child.labelRule != MUTABLE_PAGE
    && MUTABLE_PAGE in setup.initial
    && parent.labelRule in setup.initial[MUTABLE_PAGE].childNames
    && child.labelRule in setup.initial[MUTABLE_PAGE].childNames
    && parent.labelRule in setup.initial && setup.initial[parent.labelRule].childNames == []
    && Lookup(setup.initial, child.labelRule) == Some(child)
    && parent.childNames == [name]
  }

  /** What the server holds after the two writes. */
  ghost function Rewritten(setup: Setup, parent: TreeNode): Store {
    Removed(setup.initial, parent.labelRule)[parent.labelRule := parent]
  }

  lemma ServerKeepsChild(setup: Setup, parent: TreeNode, child: TreeNode, name: string)
    requires Unlinked(setup, parent, child, name)
    ensures var now := Rewritten(setup, parent);
            && WellKeyed(now)
            && Lookup(now, parent.labelRule) == Some(parent) && Lookup(now, child.labelRule) == Some(child)
            && Lookup(now, MUTABLE_PAGE) == Some(setup.initial[MUTABLE_PAGE])
  {
    var tree, p := setup.initial, parent.labelRule;
    RemoveStaysInSubtree(tree, p);
    assert forall key :: Linked(tree, p, key) ==> key == p by {
      forall key | Linked(tree, p, key) ensures key == p {
        var w :| IsChain(tree, w) && w[0] == p && w[|w| - 1] == key;
        OnlyItself(tree, w);
      }
    }
    RemoveTakesLinked(tree, p, child.labelRule);
    RemoveTakesLinked(tree, p, MUTABLE_PAGE);
    assert child.labelRule != p;
    hide Removed, Linked;
  }

  lemma OnlyItself(tree: Store, w: seq<Label>)
    requires IsChain(tree, w) && tree[w[0]].childNames == []
    ensures |w| == 1
  {
    assert |w| > 1 ==> w[1] in AbsoluteChildNames(tree[w[0]]);
  }

  /** With the new parent stored the delete of the old one sweeps the child away for good. */
  lemma ClientLosesChild(local: Store, parent: TreeNode, child: TreeNode, name: string)
    requires WellKeyed(local) && child.labelRule == parent.labelRule + "/" + name && parent.childNames == [name]
    requires Lookup(local, parent.labelRule) == Some(parent) && Lookup(local, child.labelRule) == Some(child)
    requires parent.labelRule != ""
    ensures var unseen := [DeleteOf(parent.labelRule), UpsertOf(parent)];
            Lookup(Replay(Client(ByChildNames), local, unseen), child.labelRule) == None
  {
    var w := [parent.labelRule, child.labelRule];
    assert AbsoluteChildNames(local[w[0]])[0] == child.labelRule;
    assert IsChain(local, w) && w[0] == parent.labelRule && w[|w| - 1] == child.labelRule;
    RemoveTakesLinked(local, parent.labelRule, child.labelRule);
    hide Removed, Linked, IsChain, AbsoluteChildNames;
    var unseen := [DeleteOf(parent.labelRule), UpsertOf(parent)];
    assert unseen[..1] == [unseen[0]] && unseen[..1][..0] == [];
    assert Replay(Client(ByChildNames), local, unseen[..1]) == Removed(local, parent.labelRule);
    assert child.labelRule != parent.labelRule;
  }

  lemma SweepRunUpToPage(setup: Setup, parent: TreeNode, child: TreeNode, name: string)
    requires Unlinked(setup, parent, child, name)
    ensures var n := UpsertOf(child);
            var s := Exec(Init(setup), GapRun(child) + Writing([DeleteOf(parent.labelRule), UpsertOf(parent)]));
            && Inv(s) && s.setup == setup
            && s.history == [n, n, n] + [DeleteOf(parent.labelRule), UpsertOf(parent)]
            && s.last == 3 && s.poll.Idle? && s.gaps == 1 && s.pages == [PageAsked]
            && s.local == setup.initial && ServerAt(s, 5) == Rewritten(setup, parent)
  {
    GapOpens(setup, child);
    var n, writes := UpsertOf(child), [DeleteOf(parent.labelRule), UpsertOf(parent)];
    var start, gap := Init(setup), GapRun(child);
    var s0 := Exec(start, gap);
    ExecAppend(start, gap, Writing(writes));
    WritingWrites(s0, writes);
    ExecKeepsInv(s0, Writing(writes));
    ServerRewrites(setup, parent, child, name);
    hide Inv, Exec, Replay, GapRun, Writing, WellKeyed, Removed;
    assert ([n, n, n] + writes)[..5] == [n, n, n] + writes;
  }

  lemma SweepRunUpToPoll(setup: Setup, parent: TreeNode, child: TreeNode, name: string)
    requires Unlinked(setup, parent, child, name)
    ensures var n := UpsertOf(child);
            var now := Rewritten(setup, parent);
            var s := Exec(Init(setup), GapRun(child) + Writing([DeleteOf(parent.labelRule), UpsertOf(parent)])
                                       + [AnswerPage(0)] + [DeliverPage(0)]);
            && Inv(s) && s.setup == setup
            && s.history == [n, n, n] + [DeleteOf(parent.labelRule), UpsertOf(parent)]
            && s.last == 3 && s.poll.Idle? && s.gaps == 1 && s.pages == []
            && s.local == UpsertedAll(setup.initial, PageTree(now, MUTABLE_PAGE))
            && ServerAt(s, 5) == now
  {
    SweepRunUpToPage(setup, parent, child, name);
    var start := Init(setup);
    var upTo := GapRun(child) + Writing([DeleteOf(parent.labelRule), UpsertOf(parent)]);
    var s2 := Exec(start, upTo);
    ExecThen(start, upTo, AnswerPage(0));
    ExecThen(start, upTo + [AnswerPage(0)], DeliverPage(0));
    FetchPage(s2);
    SameServer(s2, Next(Next(s2, AnswerPage(0)), DeliverPage(0)), 5);
    hide Inv, Exec, Next, Replay, PageTree, GapRun, WellKeyed, UpsertedAll, Rewritten, ServerAt;
  }

  lemma ServerRewrites(setup: Setup, parent: TreeNode, child: TreeNode, name: string)
    requires Unlinked(setup, parent, child, name)
    ensures var n := UpsertOf(child);
            Replay(Server(ByChildNames), setup.initial, [n, n, n] + [DeleteOf(parent.labelRule), UpsertOf(parent)])
            == Rewritten(setup, parent)
  {
    var n, unseen := UpsertOf(child), [DeleteOf(parent.labelRule), UpsertOf(parent)];
    SameWrites(Server(ByChildNames), setup.initial, child);
    hide AbsoluteChildNames;
    ReplayAppend(Server(ByChildNames), setup.initial, [n, n, n], unseen);
    hide Removed, WellKeyed;
    assert unseen[..1] == [unseen[0]] && unseen[..1][..0] == [];
    assert Replay(Server(ByChildNames), setup.initial, unseen[..1]) == Removed(setup.initial, parent.labelRule);
  }

  /**
   Where deletes follow child names gap recovery may lose a label for good: with the index at the newest
   write and nothing under way the server holds the child and the client does not.
   */
  lemma RecoveryLosesChild(setup: Setup, parent: TreeNode, child: TreeNode, name: string)
    requires Unlinked(setup, parent, child, name)
    ensures var s := Exec(Init(setup), SweepRun(parent, child));
            && s.last == |s.history| && s.poll.Idle? && s.pages == [] && s.gaps == 1
            && Lookup(ServerAt(s, s.last), child.labelRule) == Some(child)
            && Lookup(s.local, child.labelRule) == None
  {
    SweepRunUpToPoll(setup, parent, child, name);
    var start := Init(setup);
    var upTo := GapRun(child) + Writing([DeleteOf(parent.labelRule), UpsertOf(parent)])
                + [AnswerPage(0)] + [DeliverPage(0)];
    ExecAppend(start, upTo, POLL);
    var s := Exec(start, upTo);
    var now := Rewritten(setup, parent);
    ServerKeepsChild(setup, parent, child, name);
    JournalShape(s.history, 3);
    PageCarriesChildren(now, parent.labelRule);
    PageCarriesChildren(now, child.labelRule);
    PageUpserted(setup.initial, now, parent.labelRule);
    PageUpserted(setup.initial, now, child.labelRule);
    hide Exec, InJournal, JournalOf, PageTree, Carries, GapRun, Rewritten, UpsertedAll, Replay, StepsOk, PagesOk;
    PollInsideJournal(s);
    assert s.history[3..] == [DeleteOf(parent.labelRule), UpsertOf(parent)];
    ClientLosesChild(s.local, parent, child, name);
    SameServer(s, Exec(s, POLL), 5);
  }

  // ---- a child orphaned by a transaction ----

  /** The parent is written and its child is deleted. */
  function DeletingChild(store: Store, updated: TreeNode, child: Label): Transaction
    requires updated.labelRule in store
  {
    var expected := Some(store[updated.labelRule].version.versionNumber);
    [SubTransaction(NewNodeVersion(expected, updated.labelRule, Some(updated)), [NewNodeVersion(None, child, None)])]
  }

  /** Both sides in memory; the child to delete has a stored child of its own. */
  ghost predicate Grandchild(setup: Setup, updated: TreeNode, child: Label, name: string) {
    && WellKeyed(setup.initial) && Sequenced(setup.initial) && setup.maxSize >= 3
    && setup.server == ByChildNames && setup.client == ByChildNames
    && updated.labelRule != "" && updated.labelRule in setup.initial
    && updated.version.versionNumber == Incremented(setup.initial[updated.labelRule].version).versionNumber
    && Replicable(child) && child in setup.initial && setup.initial[child].childNames == [name]
    && child + "/" + name in setup.initial
    && updated.labelRule != child && updated.labelRule != child + "/" + name
  }

  lemma DeletingChildIs(store: Store, updated: TreeNode, child: Label)
    requires updated.labelRule in store
    ensures TransactionWrites(DeletingChild(store, updated, child))
            == [ServerWrite(updated.labelRule, Some(updated), true)] + [ServerWrite(child, None, true)]
  {
    var t := DeletingChild(store, updated, child);
    assert t[..0] == [] && Changes([]) == [];
    assert Changes(t) == [t[0].parent] + t[0].children;
  }

  /** The server erases the child alone; the client sweeps what hangs below it. */
  lemma GrandchildIsLost(setup: Setup, updated: TreeNode, child: Label, name: string)
    requires Grandchild(setup, updated, child, name)
    ensures var ws := [ServerWrite(updated.labelRule, Some(updated), true)] + [ServerWrite(child, None, true)];
            var key := child + "/" + name;
            && Lookup(Replay(Server(ByChildNames), setup.initial, ws), key) == Lookup(setup.initial, key)
            && Lookup(Replay(Client(ByChildNames), setup.initial, ws), key) == None
  {
    var first, gone := ServerWrite(updated.labelRule, Some(updated), true), ServerWrite(child, None, true);
    var key := child + "/" + name;
    var between := setup.initial[updated.labelRule := updated];
    assert Replicable(key) by { assert key == child + ("/" + name); }
    KeyIsLinked(between, child, name);
    AppliedValue(Server(ByChildNames), between, gone, key);
    AppliedValue(Client(ByChildNames), between, gone, key);
    hide Linked, Removed;
    ReplayTwo(Server(ByChildNames), setup.initial, first, gone);
    ReplayTwo(Client(ByChildNames), setup.initial, first, gone);
  }

  lemma ReplayTwo(side: Side, store: Store, first: ServerWrite, second: ServerWrite)
    ensures Replay(side, store, [first] + [second]) == Applied(side, Applied(side, store, first), second)
  {
    ReplayMore(side, store, [first], second);
    assert [first] == [] + [first];
    ReplayMore(side, store, [], first);
  }

  lemma KeyIsLinked(store: Store, child: Label, name: string)
    requires WellKeyed(store) && child in store && store[child].childNames == [name] && child + "/" + name in store
    ensures Linked(store, child, child + "/" + name) && child + "/" + name != child
  {
    ChildIsLinked(store, child, 0);
    hide Linked;
  }

  /**
   A client that has seen no gap, and takes plain deletes as the server does, loses a label the server keeps:
   a transaction of the in-memory tree passes its checks, deletes a node that has a stored child, and the
   poll behind it leaves nothing under way.
   */
  lemma TransactionOrphansChild(setup: Setup, updated: TreeNode, child: Label, name: string)
    requires Grandchild(setup, updated, child, name)
    ensures var t := DeletingChild(setup.initial, updated, child);
            var s := Exec(Init(setup), Writing(TransactionWrites(t)) + POLL);
            var key := child + "/" + name;
            && CanApply(setup.initial, t) && s.history == TransactionWrites(t)
            && s.last == |s.history| && s.gaps == 0 && s.poll.Idle? && s.pages == []
            && ServerAt(s, s.last) == Transacted(ByChildNames, setup.initial, t)
            && Lookup(ServerAt(s, s.last), key) == Some(setup.initial[key])
            && Lookup(s.local, key) == None
  {
    var t := DeletingChild(setup.initial, updated, child);
    DeletingChildIs(setup.initial, updated, child);
    DeletingChildApplies(setup, updated, child, name);
    GrandchildIsLost(setup, updated, child, name);
    TransactionIsReplay(ByChildNames, setup.initial, t);
    hide Exec, Init, Replay, Writing, Linked, Transacted, TransactionWrites, DeletingChild, CanApply, WellKeyed;
    WritesThenPoll(setup, TransactionWrites(t));
    assert TransactionWrites(t)[..2] == TransactionWrites(t);
  }

  lemma DeletingChildApplies(setup: Setup, updated: TreeNode, child: Label, name: string)
    requires Grandchild(setup, updated, child, name)
    ensures CanApply(setup.initial, DeletingChild(setup.initial, updated, child))
  {
  }

  /** Writes that fit into the journal are all taken over by one poll. */
  lemma WritesThenPoll(setup: Setup, ws: seq<ServerWrite>)
    requires WellKeyed(setup.initial) && AllWellLabelled(ws) && |ws| < setup.maxSize && |ws| < UNSOLICITED
    ensures var s := Exec(Init(setup), Writing(ws) + POLL);
            && s.setup == setup && s.history == ws && s.last == |ws| && s.gaps == 0 && s.poll.Idle? && s.pages == []
            && s.local == Replay(Client(setup.client), setup.initial, ws)
  {
    var start := Init(setup);
    InitInv(setup);
    WritingWrites(start, ws);
    ExecKeepsInv(start, Writing(ws));
    ExecAppend(start, Writing(ws), POLL);
    var s := start.(history := ws);
    assert start.history + ws == ws && ws[0..] == ws;
    JournalShape(ws, setup.maxSize);
    hide Inv, Exec, InJournal, JournalOf, Replay, Writing, WellKeyed;
    PollInsideJournal(s);
  }
}
