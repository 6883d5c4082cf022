/** Recovery from a gap whatever deletes mean to the two sides: the exact guard on the writes behind the gap. */
module JournalRecovery {
  import opened TreeModel
  import opened MemoryTrees
  import opened JournalSpec
  import opened JournalAgreement
  import opened JournalServer
  import opened JournalProtocol
  import opened JournalRuns
  import opened JournalWitnesses

  /** Every write is polled for at once. */
  function FollowRun(ws: seq<ServerWrite>): seq<Event> {
    if ws == [] then [] else FollowRun(ws[..|ws| - 1]) + ([Write(ws[|ws| - 1])] + POLL)
  }

  lemma FollowOne(s: State, w: ServerWrite)
    requires Inv(s) && s.poll.Idle? && s.last == |s.history| && s.setup.maxSize == 3
    requires WellLabelled(w) && |s.history| + 1 < UNSOLICITED
    ensures var s2 := Exec(s, [Write(w)] + POLL);
            && Inv(s2) && s2.poll.Idle? && s2.last == |s2.history| && s2.history == s.history + [w]
            && s2.setup == s.setup && s2.pages == s.pages && s2.gaps == s.gaps
            && s2.local == Applied(Client(s.setup.client), s.local, w)
  {
    var s1 := Next(s, Write(w));
    ExecAppend(s, [Write(w)], POLL);
    ExecOne(s, Write(w));
    NextKeepsInv(s, Write(w));
    JournalShape(s1.history, 3);
    assert s1.history[s1.last..] == [] + [w];
    ReplayMore(Client(s.setup.client), s.local, [], w);
    hide Inv, Exec, InJournal, JournalOf, Replay, Applied;
    PollInsideJournal(s1);
  }

  lemma {:induction false} FollowRunReplays(s: State, ws: seq<ServerWrite>)
    requires Inv(s) && s.poll.Idle? && s.last == |s.history| && s.setup.maxSize == 3
    requires AllWellLabelled(ws) && |s.history| + |ws| < UNSOLICITED
    ensures var s2 := Exec(s, FollowRun(ws));
            && Inv(s2) && s2.poll.Idle? && s2.last == |s2.history| && s2.history == s.history + ws
            && s2.setup == s.setup && s2.pages == s.pages && s2.gaps == s.gaps
            && s2.local == Replay(Client(s.setup.client), s.local, ws)
    decreases |ws|
  {
    hide Inv, Next, Applied;
    if ws != [] {
      var init, last := ws[..|ws| - 1], ws[|ws| - 1];
      FollowRunReplays(s, init);
      ExecAppend(s, FollowRun(init), [Write(last)] + POLL);
      FollowOne(Exec(s, FollowRun(init)), last);
      assert ws == init + [last];
    }
  }

  /** The page names the label, and nothing names the label as its child. */
  function PageOf(labelRule: Label): Store
    ensures labelRule in PageOf(labelRule) && MUTABLE_PAGE in PageOf(labelRule)
  {
    var version := TreeNodeVersion(0, 256, "public", None, None, None, None);
    var leaf := TreeNode(labelRule, "", [], version, [], "", None, None);
    map[labelRule := leaf][MUTABLE_PAGE := leaf.(labelRule := MUTABLE_PAGE, childNames := [labelRule])]
  }

  lemma PageOfIsUnnamed(labelRule: Label)
    ensures WellKeyed(PageOf(labelRule)) && Unnamed(PageOf(labelRule), labelRule)
  {
    forall key | key in PageOf(labelRule) ensures labelRule !in AbsoluteChildNames(PageOf(labelRule)[key]) {
      var names := AbsoluteChildNames(PageOf(labelRule)[key]);
      assert forall i :: 0 <= i < |names| ==> |names[i]| > |labelRule|;
    }
  }

  /** A gap, then a page taken at the client's index. */
  function PageRun(labelRule: Label): seq<Event> {
    GapRun(PageOf(labelRule)[labelRule]) + [AnswerPage(0)]
  }

  lemma PageRunDelivers(setup: Setup, labelRule: Label)
    requires setup.initial == PageOf(labelRule) && setup.maxSize == 3 && Replicable(labelRule)
    ensures var n := UpsertOf(PageOf(labelRule)[labelRule]);
            var s := Exec(Init(setup), PageRun(labelRule));
            && Inv(s) && s.setup == setup && s.history == [n, n, n] && s.last == 3 && s.poll.Idle? && s.gaps == 1
            && |s.pages| == 1 && s.pages[0].PageAnswered? && s.pages[0].takenAt == 3
            && Carries(s.pages[0].nodes, labelRule)
  {
    PageOfIsUnnamed(labelRule);
    PageIsAnswered(setup, PageOf(labelRule)[labelRule]);
    PageCarriesChildren(setup.initial, labelRule);
    hide Inv, Exec, PageTree, GapRun, WellKeyed, Carries;
  }

  /** Between a client that deletes by path and a server that deletes along child names. */
  function MixedSetup(labelRule: Label): Setup {
    Setup(PageOf(labelRule), ByChildNames, ByPath, 3)
  }

  /** After the page the client follows every write. */
  lemma PageThenFollow(setup: Setup, ws: seq<ServerWrite>, labelRule: Label)
    requires setup.initial == PageOf(labelRule) && setup.maxSize == 3 && Replicable(labelRule)
    requires AllWellLabelled(ws) && |ws| + 4 < UNSOLICITED
    ensures var n := UpsertOf(PageOf(labelRule)[labelRule]);
            var s := Exec(Init(setup), PageRun(labelRule));
            |s.pages| == 1 && s.pages[0].PageAnswered? &&
            var s1 := Next(s, DeliverPage(0));
            var s2 := Exec(s1, FollowRun(ws));
            && s2.setup == setup && s2.history == [n, n, n] + ws && s2.last == |s2.history|
            && s2.poll.Idle? && s2.pages == [] && s2.gaps == s.gaps
            && s.last == s.pages[0].takenAt == 3
            && WellKeyed(s1.local) && s2.local == Replay(Client(setup.client), s1.local, ws)
  {
    PageRunDelivers(setup, labelRule);
    var s := Exec(Init(setup), PageRun(labelRule));
    var s1 := Next(s, DeliverPage(0));
    NextKeepsInv(s, DeliverPage(0));
    hide Exec, Init, PageRun, Replay, FollowRun, PageOf, UpsertedAll, PollOk, PagesOk, StepsOk;
    FollowRunReplays(s1, ws);
  }

  /** The label is lost on the client alone. */
  lemma UnsettledRunLoses(ws: seq<ServerWrite>, labelRule: Label)
    requires Replicable(labelRule) && !Settled(ws, labelRule) && |ws| + 4 < UNSOLICITED
    ensures var s := Exec(Init(MixedSetup(labelRule)), PageRun(labelRule));
            |s.pages| == 1 && s.pages[0].PageAnswered? &&
            var s2 := Exec(Next(s, DeliverPage(0)), FollowRun(AllBare(ws)));
            && s2.gaps == s.gaps && s.last <= s.pages[0].takenAt <= s2.last <= |s2.history|
            && s2.last == |s2.history| && s2.poll.Idle? && s2.pages == []
            && s2.history[s.last..s2.last] == AllBare(ws)
            && Lookup(s2.local, labelRule) == None && Lookup(ServerAt(s2, s2.last), labelRule).Some?
  {
    var setup := MixedSetup(labelRule);
    PageThenFollow(setup, AllBare(ws), labelRule);
    var s := Exec(Init(setup), PageRun(labelRule));
    var s1 := Next(s, DeliverPage(0));
    var s2 := Exec(s1, FollowRun(AllBare(ws)));
    hide Exec, Init, Next, PageRun, Replay, Settled, FollowRun, PageOf, WellKeyed;
    assert s2.history[3..] == AllBare(ws) && s2.history[..|s2.history|] == s2.history;
    UnsettledIsLost(s1.local, ws, labelRule);
    UnsettledStays(labelRule, ws);
  }

  lemma UnsettledStays(labelRule: Label, ws: seq<ServerWrite>)
    requires Replicable(labelRule) && !Settled(ws, labelRule)
    ensures var n := UpsertOf(PageOf(labelRule)[labelRule]);
            labelRule in Replay(Server(ByChildNames), PageOf(labelRule), [n, n, n] + AllBare(ws))
  {
    var store, node := PageOf(labelRule), PageOf(labelRule)[labelRule];
    var n := UpsertOf(node);
    PageOfIsUnnamed(labelRule);
    SameWrites(Server(ByChildNames), store, node);
    ReplayAppend(Server(ByChildNames), store, [n, n, n], AllBare(ws));
    if EndsDeleted(ws, labelRule) { EndsDeletedIsSettled(ws, labelRule); }
    hide Replay, Settled, EndsDeleted;
    UnnamedStays(store, ws, labelRule);
  }

  /**
   Writes of the given labels and kinds after the index: a snapshot no older than the index, and any
   further run without another snapshot or gap, leave the label with the server's value.
   */
  ghost predicate Recovers(setup: Setup, before: seq<Event>, i: nat, after: seq<Event>,
                           ws: seq<ServerWrite>, labelRule: Label) {
    var s := Exec(Init(setup), before);
    WellKeyed(setup.initial) && (forall j :: 0 <= j < |after| ==> !after[j].DeliverPage?)
    && i < |s.pages| && s.pages[i].PageAnswered? && Carries(s.pages[i].nodes, labelRule) ==>
      var s2 := Exec(Next(s, DeliverPage(i)), after);
      s2.gaps == s.gaps && s.last <= s.pages[i].takenAt <= s2.last <= |s2.history|
      && SameKinds(s2.history[s.last..s2.last], ws) ==>
        Lookup(s2.local, labelRule) == Lookup(ServerAt(s2, s2.last), labelRule)
  }

  /**
   The guard is exact: over all setups, runs and nodes, recovery gives a label the server's value after
   writes of given labels and kinds if and only if these settle the label.
   */
  lemma RecoversExactly(ws: seq<ServerWrite>, labelRule: Label)
    requires Replicable(labelRule) && |ws| + 4 < UNSOLICITED
    ensures (forall setup, before, i, after :: Recovers(setup, before, i, after, ws, labelRule)) <==> Settled(ws, labelRule)
  {
    if Settled(ws, labelRule) {
      forall setup, before, i, after ensures Recovers(setup, before, i, after, ws, labelRule) {
        SettledRecovers(setup, before, i, after, ws, labelRule);
      }
    } else {
      var setup, before, after := MixedSetup(labelRule), PageRun(labelRule), FollowRun(AllBare(ws));
      UnsettledRunFails(ws, labelRule);
      assert !Recovers(setup, before, 0, after, ws, labelRule);
    }
  }

  lemma SettledRecovers(setup: Setup, before: seq<Event>, i: nat, after: seq<Event>, ws: seq<ServerWrite>, labelRule: Label)
    requires Replicable(labelRule) && Settled(ws, labelRule)
    ensures Recovers(setup, before, i, after, ws, labelRule)
  {
    var s := Exec(Init(setup), before);
    hide Exec, Init, Next, Settled, ServerAt, WellKeyed, Carries, SameKinds;
    if WellKeyed(setup.initial) && (forall j :: 0 <= j < |after| ==> !after[j].DeliverPage?) {
      GapRecoverySettled(setup, before, i, after, labelRule);
      if i < |s.pages| && s.pages[i].PageAnswered? && Carries(s.pages[i].nodes, labelRule) {
        var s2 := Exec(Next(s, DeliverPage(i)), after);
        if s.last <= s2.last <= |s2.history| && SameKinds(s2.history[s.last..s2.last], ws) {
          SameKindsSettled(s2.history[s.last..s2.last], ws, labelRule);
        }
      }
    }
  }

  lemma UnsettledRunFails(ws: seq<ServerWrite>, labelRule: Label)
    requires Replicable(labelRule) && !Settled(ws, labelRule) && |ws| + 4 < UNSOLICITED
    ensures !Recovers(MixedSetup(labelRule), PageRun(labelRule), 0, FollowRun(AllBare(ws)), ws, labelRule)
  {
    UnsettledRunLoses(ws, labelRule);
    PageRunDelivers(MixedSetup(labelRule), labelRule);
    PageOfIsUnnamed(labelRule);
    FollowRunDeliversNoPage(AllBare(ws));
    hide Exec, Init, Next, Settled, ServerAt, Carries, WellKeyed, FollowRun, PageRun;
  }

  lemma {:induction false} FollowRunDeliversNoPage(ws: seq<ServerWrite>)
    ensures forall j :: 0 <= j < |FollowRun(ws)| ==> !FollowRun(ws)[j].DeliverPage?
  {
    if ws != [] { FollowRunDeliversNoPage(ws[..|ws| - 1]); }
  }
}
