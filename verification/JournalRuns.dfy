/** What the replication protocol guarantees over every run, and the runs that show where it stops. */
module JournalRuns {
  import opened TreeModel
  import opened MemoryTrees
  import opened JournalSpec
  import opened JournalAgreement
  import opened JournalServer
  import opened JournalProtocol

  // ---- without gaps ----

  /**
   A client that has seen no gap holds exactly the replay of the first `last` writes, whatever a delete
   means to it.  Where both sides take plain deletes alike it has followed the server on every label a
   client can follow exactly as long as no transaction of the in-memory tree deleted a node that had a
   stored child.  Whatever deletes mean to the two sides, it agrees on every label the writes settle; in
   terms of the stores, on the labels swept away on both sides or on neither.
   */
  lemma NoGapReplica(setup: Setup, events: seq<Event>)
    requires WellKeyed(setup.initial)
    ensures var s := Exec(Init(setup), events);
            s.gaps == 0 ==>
              && s.last <= |s.history|
              && s.local == Replay(Client(setup.client), setup.initial, s.history[..s.last])
              && (setup.server == setup.client ==>
                    && ((forall t :: 0 <= t <= s.last ==> AlikeAfter(setup.client, setup.initial, s.history, t))
                        <==> (forall t :: 0 <= t < s.last ==> !OrphansAt(setup.client, setup.initial, s.history, t)))
                    && ((forall t :: 0 <= t < s.last ==> !OrphansAt(setup.client, setup.initial, s.history, t)) ==>
                          Alike(s.local, ServerAt(s, s.last))))
              && forall labelRule :: Replicable(labelRule) ==>
                   && (Settled(s.history[..s.last], labelRule) ==>
                         Lookup(s.local, labelRule) == Lookup(ServerAt(s, s.last), labelRule))
                   && (Lookup(s.local, labelRule) == Lookup(ServerAt(s, s.last), labelRule)
                       <==> (SweptAway(Client(setup.client), setup.initial, s.history[..s.last], labelRule)
                             <==> SweptAway(Server(setup.server), setup.initial, s.history[..s.last], labelRule)))
  {
    ReachedKeepsInv(setup, events);
    var s := Exec(Init(setup), events);
    hide Exec, Init, Replay, SweptAway, Settled, WellKeyed, Alike, OrphansAt;
    if s.gaps == 0 {
      var seen := s.history[..s.last];
      if setup.server == setup.client {
        ReplayAlikeExactly(setup.client, setup.initial, s.history, s.last);
        assert AlikeAfter(setup.client, setup.initial, s.history, s.last) <==> Alike(s.local, ServerAt(s, s.last));
      }
      hide AlikeAfter;
      forall labelRule | Replicable(labelRule)
        ensures Settled(seen, labelRule) ==> Lookup(s.local, labelRule) == Lookup(ServerAt(s, s.last), labelRule)
        ensures Lookup(s.local, labelRule) == Lookup(ServerAt(s, s.last), labelRule)
                <==> (SweptAway(Client(setup.client), setup.initial, seen, labelRule)
                      <==> SweptAway(Server(setup.server), setup.initial, seen, labelRule))
      {
        ReplaysAgreeExactly(Client(setup.client), setup.initial, Server(setup.server), setup.initial, seen, labelRule);
        if Settled(seen, labelRule) {
          SettledSidesAgree(Client(setup.client), setup.initial, Server(setup.server), setup.initial, seen, labelRule);
        }
      }
    }
  }

  /** In every run a delivery moves the client to the number of writes at answer time. */
  lemma DeliveryReachesAnswer(setup: Setup, events: seq<Event>)
    requires WellKeyed(setup.initial)
    ensures var s := Exec(Init(setup), events);
            s.poll.Answered? ==>
              && s.poll.count <= |s.history|
              && Next(s, DeliverAnswer).last == s.poll.count
              && (Next(s, DeliverAnswer).gaps > s.gaps <==>
                    !InJournal(JournalOf(s.history[..s.poll.count], setup.maxSize), s.last))
  {
    ReachedKeepsInv(setup, events);
    var s := Exec(Init(setup), events);
    if s.poll.Answered? { DeliverMoves(s); }
  }

  // ---- after a gap, deletes by path ----

  /** A label the client is in step on has the server's value once the index has reached its time. */
  lemma InStepAgrees(s: State, labelRule: Label)
    requires Inv(s) && ByPaths(s) && labelRule in s.asOf && s.asOf[labelRule] <= s.last
    ensures Lookup(s.local, labelRule) == Lookup(ServerAt(s, s.last), labelRule)
  {
    assert InStepAt(s, labelRule, s.last);
    assert s.history[s.last..s.last] == [];
  }

  /** No event delivers a snapshot older than the index at that moment. */
  ghost predicate Fresh(s: State, events: seq<Event>)
    decreases |events|
  {
    events != [] ==>
      && Fresh(s, events[..|events| - 1])
      && FreshEvent(Exec(s, events[..|events| - 1]), events[|events| - 1])
  }

  ghost predicate FreshEvent(s: State, e: Event) {
    e.DeliverPage? && e.i < |s.pages| && s.pages[e.i].PageAnswered? ==> s.last <= s.pages[e.i].takenAt
  }

  lemma NextKeepsLabel(s: State, e: Event, labelRule: Label)
    requires Inv(s) && ByPaths(s) && FreshEvent(s, e) && labelRule in s.asOf
    ensures Next(s, e).gaps >= s.gaps
    ensures Next(s, e).gaps == s.gaps ==> labelRule in Next(s, e).asOf
  {
    hide Replay, ServerAt, UpsertedAll, JournalAnswer, HasGap, InStep, PollOk, PagesOk;
  }

  lemma {:induction false} FreshKeepsLabel(s: State, events: seq<Event>, labelRule: Label)
    requires Inv(s) && ByPaths(s) && Fresh(s, events) && labelRule in s.asOf
    ensures Exec(s, events).gaps >= s.gaps
    ensures Exec(s, events).gaps == s.gaps ==> labelRule in Exec(s, events).asOf
    decreases |events|
  {
    hide Inv, Next, FreshEvent;
    if events != [] {
      var init, last := events[..|events| - 1], events[|events| - 1];
      FreshKeepsLabel(s, init, labelRule);
      ExecKeepsInv(s, init);
      SameSetup(s, init);
      GapsGrow(Exec(s, init), last);
      if labelRule in Exec(s, init).asOf { NextKeepsLabel(Exec(s, init), last, labelRule); }
    }
  }

  lemma GapsGrow(s: State, e: Event)
    ensures s.gaps <= Next(s, e).gaps
  {
    hide Replay, ServerAt, UpsertedAll, JournalAnswer, HasGap;
  }

  /**
   Gap recovery converges where deletes go by path.  Take any run to a state that delivers a snapshot no
   older than the client's index, then any further events with no new gap, snapshots included as long as
   none is older than the index.  Every label of the snapshot has the server's value as soon as the
   index has reached the time of the last snapshot that carried it.
   */
  lemma GapRecoveryConverges(setup: Setup, before: seq<Event>, i: nat, after: seq<Event>)
    requires WellKeyed(setup.initial) && setup.server == ByPath && setup.client == ByPath
    ensures var s := Exec(Init(setup), before);
            i < |s.pages| && s.pages[i].PageAnswered? && s.last <= s.pages[i].takenAt
            && Fresh(Next(s, DeliverPage(i)), after) ==>
              var s2 := Exec(Next(s, DeliverPage(i)), after);
              s2.gaps == s.gaps ==>
                && s2.last <= |s2.history|
                && forall labelRule :: Carries(s.pages[i].nodes, labelRule) && Replicable(labelRule) ==>
                     && labelRule in s2.asOf
                     && (s2.asOf[labelRule] <= s2.last ==>
                           Lookup(s2.local, labelRule) == Lookup(ServerAt(s2, s2.last), labelRule))
  {
    ReachedKeepsInv(setup, before);
    var s := Exec(Init(setup), before);
    hide Init, ServerAt, Replay, Fresh, WellKeyed, UpsertedAll;
    if i < |s.pages| && s.pages[i].PageAnswered? && s.last <= s.pages[i].takenAt
       && Fresh(Next(s, DeliverPage(i)), after)
    {
      var s1 := Next(s, DeliverPage(i));
      NextKeepsInv(s, DeliverPage(i));
      ExecKeepsInv(s1, after);
      SameSetup(s1, after);
      var s2 := Exec(s1, after);
      hide Exec, Next, Carries;
      if s2.gaps == s.gaps {
        forall labelRule | Carries(s.pages[i].nodes, labelRule) && Replicable(labelRule)
          ensures labelRule in s2.asOf
          ensures s2.asOf[labelRule] <= s2.last ==>
                    Lookup(s2.local, labelRule) == Lookup(ServerAt(s2, s2.last), labelRule)
        {
          DeliveredIsInStep(s, i, labelRule);
          FreshKeepsLabel(s1, after, labelRule);
          if s2.asOf[labelRule] <= s2.last { InStepAgrees(s2, labelRule); }
        }
      }
    }
  }

  lemma DeliveredIsInStep(s: State, i: nat, labelRule: Label)
    requires i < |s.pages| && s.pages[i].PageAnswered? && s.last <= s.pages[i].takenAt
    requires Carries(s.pages[i].nodes, labelRule) && Replicable(labelRule)
    ensures var s1 := Next(s, DeliverPage(i));
            labelRule in s1.asOf && s1.asOf[labelRule] == s.pages[i].takenAt && s1.gaps == s.gaps && s1.setup == s.setup
  {
  }

  // ---- after a gap, whatever a delete means ----

  lemma NextReplays(s: State, e: Event, store: Store, first: nat)
    requires Inv(s) && !e.DeliverPage? && first <= s.last
    requires s.local == Replay(Client(s.setup.client), store, s.history[first..s.last])
    ensures var s2 := Next(s, e);
            && |s.history| <= |s2.history| && s2.history[..|s.history|] == s.history && s.last <= s2.last <= |s2.history|
            && (s2.gaps == s.gaps ==>
                  s2.local == Replay(Client(s.setup.client), store, s2.history[first..s2.last]))
  {
    hide Replay, PollOk, PagesOk, StepsOk, ServerAt, JournalAnswer, HasGap, NewerThan, PageTree;
    assert s.history[..|s.history|] == s.history;
    if e.DeliverAnswer? && s.poll.Answered? && s.poll.answer != [] {
      DeliverMoves(s);
      assert s.last <= s.poll.count <= |s.history| by { DeliverKeepsBounds(s); }
      ReplayFurther(Client(s.setup.client), store, s.history, first, s.last, s.poll.count);
    } else if e.Write? {
      assert Next(s, e).history[first..s.last] == s.history[first..s.last];
    }
  }

  lemma DeliverKeepsBounds(s: State)
    requires PollOk(s) && s.poll.Answered?
    ensures s.last <= s.poll.count <= |s.history|
  {
  }

  /** Between snapshots, with no new gap, the client replays the history from its index on. */
  lemma {:induction false} BetweenSnapshots(s: State, events: seq<Event>)
    requires Inv(s) && forall j :: 0 <= j < |events| ==> !events[j].DeliverPage?
    ensures var s2 := Exec(s, events);
            && |s.history| <= |s2.history| && s2.history[..|s.history|] == s.history && s.last <= s2.last <= |s2.history|
            && s.gaps <= s2.gaps
            && (s2.gaps == s.gaps ==>
                  s2.local == Replay(Client(s.setup.client), s.local, s2.history[s.last..s2.last]))
    decreases |events|
  {
    hide Next;
    if events == [] {
      assert s.history[..|s.history|] == s.history && s.history[s.last..s.last] == [];
    } else {
      hide Replay, PollOk, PagesOk, StepsOk;
      var init, last := events[..|events| - 1], events[|events| - 1];
      BetweenSnapshots(s, init);
      ExecKeepsInv(s, init);
      SameSetup(s, init);
      var s1 := Exec(s, init);
      GapsGrow(s1, last);
      HistoryGrows(s1, last);
      assert Next(s1, last).history[..|s.history|] == s1.history[..|s.history|];
      if s1.gaps == s.gaps { NextReplays(s1, last, s.local, s.last); }
    }
  }

  lemma HistoryGrows(s: State, e: Event)
    requires Inv(s)
    ensures |s.history| <= |Next(s, e).history| && Next(s, e).history[..|s.history|] == s.history
    ensures s.last <= Next(s, e).last <= |Next(s, e).history|
  {
    hide Replay, PagesOk, StepsOk, ServerAt, JournalAnswer, HasGap, NewerThan, PageTree, UpsertedAll;
    assert s.history[..|s.history|] == s.history;
    if e.DeliverAnswer? && s.poll.Answered? { DeliverMoves(s); }
  }

  /**
   Gap recovery whatever a delete means to either side.  After a snapshot no older than the index, and
   any further events without another snapshot or gap that take the index to the snapshot's time, a label
   of the snapshot has the server's value if the writes since the old index settle it: a guard on their
   labels and kinds alone.
   */
  lemma GapRecoverySettled(setup: Setup, before: seq<Event>, i: nat, after: seq<Event>, labelRule: Label)
    requires WellKeyed(setup.initial) && Replicable(labelRule)
    requires forall j :: 0 <= j < |after| ==> !after[j].DeliverPage?
    ensures var s := Exec(Init(setup), before);
            i < |s.pages| && s.pages[i].PageAnswered? && Carries(s.pages[i].nodes, labelRule) ==>
              var s2 := Exec(Next(s, DeliverPage(i)), after);
              s2.gaps == s.gaps && s.last <= s.pages[i].takenAt <= s2.last ==>
                && s2.last <= |s2.history|
                && (Settled(s2.history[s.last..s2.last], labelRule) ==>
                      Lookup(s2.local, labelRule) == Lookup(ServerAt(s2, s2.last), labelRule))
  {
    ReachedKeepsInv(setup, before);
    var s := Exec(Init(setup), before);
    hide Init, Replay, Settled, WellKeyed, StepsOk;
    if i < |s.pages| && s.pages[i].PageAnswered? && Carries(s.pages[i].nodes, labelRule) {
      var s1 := Next(s, DeliverPage(i));
      NextKeepsInv(s, DeliverPage(i));
      DeliveredPage(s, i, labelRule);
      BetweenSnapshots(s1, after);
      ExecKeepsInv(s1, after);
      SameSetup(s1, after);
      var s2 := Exec(s1, after);
      var takenAt := s.pages[i].takenAt;
      hide Exec, Next, Carries, UpsertedAll;
      if s2.gaps == s.gaps && s.last <= takenAt <= s2.last && Settled(s2.history[s.last..s2.last], labelRule) {
        SameThen(s, s2, takenAt);
        hide ServerAt, PollOk, PagesOk;
        SnapshotAgreesWhenSettled(s2, s1.local, labelRule, s.last, takenAt, s2.last);
      }
    }
  }

  lemma DeliveredPage(s: State, i: nat, labelRule: Label)
    requires Inv(s) && i < |s.pages| && s.pages[i].PageAnswered? && Carries(s.pages[i].nodes, labelRule)
    ensures var s1 := Next(s, DeliverPage(i));
            && s1.history == s.history && s1.last == s.last && s1.gaps == s.gaps && s1.setup == s.setup
            && s.pages[i].takenAt <= |s.history|
            && Lookup(s1.local, labelRule) == Lookup(ServerAt(s, s.pages[i].takenAt), labelRule)
            && Lookup(ServerAt(s, s.pages[i].takenAt), labelRule).Some?
  {
    SnapshotValue(s, i, labelRule);
  }

  /** The server's past does not change. */
  lemma SameThen(s: State, s2: State, t: nat)
    requires t <= |s.history| <= |s2.history| && s2.history[..|s.history|] == s.history && s2.setup == s.setup
    ensures ServerAt(s2, t) == ServerAt(s, t)
  {
    assert s2.history[..t] == s.history[..t];
  }

  /** The converse of freshness: a snapshot older than the index puts old data back until it is written again. */
  lemma StaleSnapshotRegresses(s: State, i: nat, labelRule: Label, t: nat)
    requires Inv(s) && ByPaths(s) && i < |s.pages| && s.pages[i].PageAnswered? && Replicable(labelRule)
    requires Carries(s.pages[i].nodes, labelRule) && s.last <= t <= |s.history|
    requires s.pages[i].takenAt < s.last
    ensures var s' := Next(s, DeliverPage(i));
            Lookup(Replay(Client(ByPath), s'.local, s.history[s.last..t]), labelRule) == Lookup(ServerAt(s, t), labelRule)
            <==> AnyTouches(s.history[s.last..t], labelRule)
                 || Lookup(ServerAt(s, s.pages[i].takenAt), labelRule) == Lookup(ServerAt(s, t), labelRule)
  {
    SnapshotValue(s, i, labelRule);
    SnapshotAgreement(s, UpsertedAll(s.local, s.pages[i].nodes), labelRule, s.last, s.pages[i].takenAt, t);
  }

  // ---- polls and pages ----

  lemma ExecThen(s: State, events: seq<Event>, e: Event)
    ensures Exec(s, events + [e]) == Next(Exec(s, events), e)
  {
    assert (events + [e])[..|events|] == events;
  }

  lemma {:induction false} ExecAppend(s: State, a: seq<Event>, b: seq<Event>)
    ensures Exec(s, a + b) == Exec(Exec(s, a), b)
    decreases |b|
  {
    hide Next;
    if b == [] {
      assert a + b == a;
    } else {
      ExecAppend(s, a, b[..|b| - 1]);
      assert a + b == (a + b[..|b| - 1]) + [b[|b| - 1]];
      ExecThen(s, a + b[..|b| - 1], b[|b| - 1]);
    }
  }

  lemma ExecOne(s: State, e: Event)
    ensures Exec(s, [e]) == Next(s, e)
  {
    assert [e][..0] == [];
  }

  const POLL: seq<Event> := [SendPoll] + [AnswerPoll] + [DeliverAnswer]

  lemma PollIsDelivery(s: State)
    requires Inv(s) && s.poll.Idle?
    ensures var s2 := s.(poll := Answered(s.last, JournalAnswer(s.history, s.setup.maxSize, s.last), |s.history|));
            Inv(s2) && Exec(s, POLL) == Deliver(s2)
  {
    hide JournalAnswer, Deliver, Inv;
    ExecThen(s, [SendPoll] + [AnswerPoll], DeliverAnswer);
    ExecThen(s, [SendPoll], AnswerPoll);
    ExecOne(s, SendPoll);
    NextKeepsInv(s, SendPoll);
    NextKeepsInv(Next(s, SendPoll), AnswerPoll);
  }

  /** Asking and being answered outside the journal costs one gap and one page request. */
  lemma PollOutsideJournal(s: State)
    requires Inv(s) && s.poll.Idle? && !InJournal(JournalOf(s.history, s.setup.maxSize), s.last)
    ensures Inv(Exec(s, POLL))
    ensures Exec(s, POLL) ==
            s.(last := |s.history|, pages := s.pages + [PageAsked], gaps := s.gaps + 1, asOf := imap[])
  {
    PollIsDelivery(s);
    var s2 := s.(poll := Answered(s.last, JournalAnswer(s.history, s.setup.maxSize, s.last), |s.history|));
    assert s.history[..|s.history|] == s.history;
    DeliverMoves(s2);
    DeliverKeepsInv(s2);
    hide JournalAnswer, JournalOf, InJournal, HasGap, Inv, LastSolicited;
  }

  /** Inside the journal it brings the client to the newest write. */
  lemma PollInsideJournal(s: State)
    requires Inv(s) && s.poll.Idle? && InJournal(JournalOf(s.history, s.setup.maxSize), s.last)
    ensures Inv(Exec(s, POLL)) && s.last <= |s.history|
    ensures Exec(s, POLL) ==
            s.(last := |s.history|, local := Replay(Client(s.setup.client), s.local, s.history[s.last..]))
  {
    PollIsDelivery(s);
    var s2 := s.(poll := Answered(s.last, JournalAnswer(s.history, s.setup.maxSize, s.last), |s.history|));
    assert s.history[..|s.history|] == s.history && s.history[s.last..|s.history|] == s.history[s.last..];
    DeliverMoves(s2);
    DeliverKeepsInv(s2);
    hide JournalAnswer, JournalOf, InJournal, HasGap, LastSolicited, Replay, NewerThan;
  }

  /** The page carries every stored child of the mutable page, with its value. */
  lemma PageCarriesChildren(store: Store, labelRule: Label)
    requires WellKeyed(store) && MUTABLE_PAGE in store
    requires labelRule in store[MUTABLE_PAGE].childNames && labelRule in store
    ensures Carries(PageTree(store, MUTABLE_PAGE), labelRule)
  {
    var children := store[MUTABLE_PAGE].childNames;
    StoredAmongHolds(store, children);
    var i :| 0 <= i < |children| && children[i] == labelRule;
    var nodes := StoredAmong(store, children);
    var j :| 0 <= j < |nodes| && nodes[j] == store[labelRule];
    assert nodes[j].labelRule == labelRule;
  }

  /** Upserting a page gives each label it carries the server's value, and leaves the others. */
  lemma PageUpserted(local: Store, store: Store, labelRule: Label)
    requires WellKeyed(store)
    ensures var nodes := PageTree(store, MUTABLE_PAGE);
            Lookup(UpsertedAll(local, nodes), labelRule) ==
            if Carries(nodes, labelRule) then Lookup(store, labelRule) else Lookup(local, labelRule)
  {
    var nodes := PageTree(store, MUTABLE_PAGE);
    if MUTABLE_PAGE in store { StoredAmongHolds(store, store[MUTABLE_PAGE].childNames); }
    UpsertedAllAt(local, nodes, labelRule);
  }

  /** Fetching the mutable page upserts it as of the newest write. */
  lemma FetchPage(s: State)
    requires Inv(s) && s.pages == [PageAsked]
    ensures var s2 := Next(Next(s, AnswerPage(0)), DeliverPage(0));
            && Inv(s2) && s2.local == UpsertedAll(s.local, PageTree(ServerAt(s, |s.history|), MUTABLE_PAGE))
            && s2.setup == s.setup && s2.history == s.history && s2.last == s.last
            && s2.poll == s.poll && s2.gaps == s.gaps && s2.pages == []
  {
    NextKeepsInv(s, AnswerPage(0));
    NextKeepsInv(Next(s, AnswerPage(0)), DeliverPage(0));
    hide Inv, PageTree, ServerAt, UpsertedAll;
  }

  /**
   The whole recovery of a client that the journal has left behind: poll, gap, snapshot, and it has
   every stored child of the mutable page as of the newest write.
   */
  lemma RecoveryRun(s: State)
    requires Inv(s) && s.poll.Idle? && s.pages == []
    requires !InJournal(JournalOf(s.history, s.setup.maxSize), s.last)
    ensures var s5 := Exec(s, POLL + [AnswerPage(0)] + [DeliverPage(0)]);
            var now := ServerAt(s, |s.history|);
            && s5.last == |s.history| && s5.history == s.history && s5.gaps == s.gaps + 1
            && s5.poll.Idle? && s5.pages == []
            && (MUTABLE_PAGE in now ==>
                  forall labelRule :: labelRule in now[MUTABLE_PAGE].childNames && labelRule in now ==>
                    Lookup(s5.local, labelRule) == Some(now[labelRule]))
  {
    PollOutsideJournal(s);
    var now := ServerAt(s, |s.history|);
    ExecThen(s, POLL + [AnswerPage(0)], DeliverPage(0));
    ExecThen(s, POLL, AnswerPage(0));
    hide Inv, Exec, InJournal, JournalOf;
    assert WellKeyed(now) by { ServerIsKeyed(s); }
    SameServer(s, Exec(s, POLL), |s.history|);
    FetchPage(Exec(s, POLL));
    hide ServerAt, PageTree, Carries, WellKeyed, Next;
    forall labelRule | MUTABLE_PAGE in now && labelRule in now[MUTABLE_PAGE].childNames && labelRule in now
      ensures Lookup(UpsertedAll(s.local, PageTree(now, MUTABLE_PAGE)), labelRule) == Some(now[labelRule])
    {
      PageCarriesChildren(now, labelRule);
      PageUpserted(s.local, now, labelRule);
    }
  }

  lemma ServerIsKeyed(s: State)
    requires Inv(s)
    ensures WellKeyed(ServerAt(s, |s.history|))
  {
    ServerKeepsKeys(s, |s.history|);
  }
}
