/**
 The replication protocol as a state machine: one server route, one client that does not write, one
 poll outstanding, and page-tree snapshots on their own streams.  Every message may be delayed
 arbitrarily against the server's writes and against the other kind of message.
 */
module JournalProtocol {
  import opened TreeModel
  import opened MemoryTrees
  import opened JournalSpec
  import opened JournalAgreement
  import opened JournalServer

  datatype Poll =
    | Idle
    | Asked(index: nat)
    | Answered(index: nat, answer: seq<SequentialNotification>, count: nat)

  datatype Page = PageAsked | PageAnswered(nodes: seq<TreeNode>, takenAt: nat)

  datatype Event =
    | Write(w: ServerWrite)
    | SendPoll
    | AnswerPoll
    | DeliverAnswer
    | AnswerPage(i: nat)
    | DeliverPage(i: nat)

  /** Both sides start from the same store; each takes deletes in its own way. */
  datatype Setup = Setup(initial: Store, server: Deletion, client: Deletion, maxSize: nat)

  /**
   `history`, `gaps` and `asOf` only record the run.  Where both sides delete by path, `asOf` holds the
   labels the client is in step on: a label maps to the time its value was last taken from the server, 0
   at the start.
   */
  datatype State = State(
    setup: Setup, history: seq<ServerWrite>,
    local: Store, last: nat, poll: Poll, pages: seq<Page>,
    gaps: nat, asOf: imap<Label, nat>)

  predicate ByPaths(s: State) {
    s.setup.server == ByPath && s.setup.client == ByPath
  }

  /** The server's store after its first `t` writes. */
  ghost function ServerAt(s: State, t: nat): Store
    requires t <= |s.history|
  {
    Replay(Server(s.setup.server), s.setup.initial, s.history[..t])
  }

  ghost function Init(setup: Setup): State {
    State(setup, [], setup.initial, 0, Idle, [], 0, imap labelRule | Replicable(labelRule) :: 0)
  }

  ghost predicate Carries(nodes: seq<TreeNode>, labelRule: Label) {
    exists i :: 0 <= i < |nodes| && nodes[i].labelRule == labelRule
  }

  ghost function WithoutPage(pages: seq<Page>, i: nat): seq<Page>
    requires i < |pages|
  {
    pages[..i] + pages[i + 1..]
  }

  ghost function Deliver(s: State): State
    requires s.poll.Answered? && s.poll.answer != []
  {
    var answer := s.poll.answer;
    var newest := LastSolicited(answer).number;
    var moved := s.(poll := Idle, last := if newest == UNSOLICITED then s.last else newest);
    if HasGap(s.last, answer)
    then moved.(pages := s.pages + [PageAsked], gaps := s.gaps + 1, asOf := imap[])
    else moved.(local := Replay(Client(s.setup.client), s.local, NewerThan(s.last, answer)))
  }

  ghost function DeliverSnapshot(s: State, i: nat): State
    requires i < |s.pages| && s.pages[i].PageAnswered?
  {
    var page := s.pages[i];
    s.(local := UpsertedAll(s.local, page.nodes),
       pages := WithoutPage(s.pages, i),
       asOf :=
         if s.last <= page.takenAt
         then imap labelRule | Replicable(labelRule) && (Carries(page.nodes, labelRule) || labelRule in s.asOf) ::
                if Carries(page.nodes, labelRule) then page.takenAt else s.asOf[labelRule]
         else imap labelRule | labelRule in s.asOf && !Carries(page.nodes, labelRule) :: s.asOf[labelRule])
  }

  /** An event that is not possible in `s` leaves it as it is. */
  ghost function Next(s: State, e: Event): State {
    match e
    case Write(w) =>
      if WellLabelled(w) && |s.history| + 1 < UNSOLICITED then s.(history := s.history + [w]) else s
    case SendPoll =>
      if s.poll.Idle? then s.(poll := Asked(s.last)) else s
    case AnswerPoll =>
      if s.poll.Asked?
      then s.(poll := Answered(s.poll.index, JournalAnswer(s.history, s.setup.maxSize, s.poll.index), |s.history|))
      else s
    case DeliverAnswer =>
      if s.poll.Answered? && s.poll.answer != [] then Deliver(s) else s
    case AnswerPage(i) =>
      if i < |s.pages| && s.pages[i].PageAsked?
      then s.(pages := s.pages[i := PageAnswered(PageTree(ServerAt(s, |s.history|), MUTABLE_PAGE), |s.history|)])
      else s
    case DeliverPage(i) =>
      if i < |s.pages| && s.pages[i].PageAnswered? then DeliverSnapshot(s, i) else s
  }

  ghost function Exec(s: State, events: seq<Event>): State
    decreases |events|
  {
    if events == [] then s else Next(Exec(s, events[..|events| - 1]), events[|events| - 1])
  }

  // ---- the invariant ----

  ghost predicate PollOk(s: State) {
    match s.poll
    case Idle => true
    case Asked(index) => index == s.last
    case Answered(index, answer, count) =>
      index == s.last <= count <= |s.history| && answer == JournalAnswer(s.history[..count], s.setup.maxSize, index)
  }

  ghost predicate PagesOk(s: State) {
    forall i :: 0 <= i < |s.pages| && s.pages[i].PageAnswered? ==>
      s.pages[i].takenAt <= |s.history| && FromServer(s, s.pages[i])
  }

  ghost predicate FromServer(s: State, page: Page)
    requires page.PageAnswered? && page.takenAt <= |s.history|
  {
    forall i :: 0 <= i < |page.nodes| ==>
      Lookup(ServerAt(s, page.takenAt), page.nodes[i].labelRule) == Some(page.nodes[i])
  }

  /** From time `t` on, replaying what the client has not seen yields the server's value. */
  ghost predicate InStepAt(s: State, labelRule: Label, t: nat)
    requires s.last <= t <= |s.history|
  {
    Lookup(Replay(Client(s.setup.client), s.local, s.history[s.last..t]), labelRule) == Lookup(ServerAt(s, t), labelRule)
  }

  ghost predicate InStep(s: State, labelRule: Label, since: nat)
    requires s.last <= |s.history|
  {
    forall t :: s.last <= t <= |s.history| && since <= t ==> InStepAt(s, labelRule, t)
  }

  ghost predicate Inv(s: State) {
    && WellKeyed(s.setup.initial) && WellKeyed(s.local) && AllWellLabelled(s.history) && |s.history| < UNSOLICITED
    && s.last <= |s.history|
    && PollOk(s) && PagesOk(s)
    && (s.gaps == 0 ==>
          s.pages == [] && s.local == Replay(Client(s.setup.client), s.setup.initial, s.history[..s.last]))
    && (ByPaths(s) ==> StepsOk(s))
  }

  ghost predicate StepsOk(s: State)
    requires s.last <= |s.history|
  {
    && (forall labelRule :: labelRule in s.asOf ==>
          Replicable(labelRule) && s.asOf[labelRule] <= |s.history| && InStep(s, labelRule, s.asOf[labelRule]))
    && (s.gaps == 0 ==> forall labelRule :: Replicable(labelRule) ==> labelRule in s.asOf && s.asOf[labelRule] == 0)
  }

  lemma InitInv(setup: Setup)
    requires WellKeyed(setup.initial)
    ensures Inv(Init(setup))
  {
    var s := Init(setup);
    assert s.history[..0] == [] && s.history[0..0] == [];
  }

  lemma WriteKeepsInStep(s: State, w: ServerWrite, labelRule: Label, since: nat)
    requires ByPaths(s) && s.last <= |s.history| && since <= |s.history| && Replicable(labelRule)
    requires AllWellLabelled(s.history) && WellLabelled(w)
    requires InStep(s, labelRule, since)
    ensures InStep(s.(history := s.history + [w]), labelRule, since)
  {
    var s' := s.(history := s.history + [w]);
    var now := |s.history|;
    forall t | s.last <= t <= |s'.history| && since <= t ensures InStepAt(s', labelRule, t) {
      if t <= now {
        assert s'.history[s.last..t] == s.history[s.last..t] && s'.history[..t] == s.history[..t];
        assert InStepAt(s, labelRule, t);
      } else {
        var seen := s.history[s.last..now];
        assert InStepAt(s, labelRule, now);
        assert s'.history[s.last..t] == seen + [w] && s'.history[..t] == s.history[..now] + [w];
        ReplayAppend(Client(ByPath), s.local, seen, [w]);
        ReplayAppend(Server(ByPath), s.setup.initial, s.history[..now], [w]);
        ReplayAt(Replay(Client(ByPath), s.local, seen), ServerAt(s, now), [w], labelRule);
      }
    }
  }

  /** Growing the history does not change what an earlier snapshot or answer says. */
  lemma WriteKeepsMessages(s: State, w: ServerWrite)
    requires PollOk(s) && PagesOk(s) && s.last <= |s.history|
    ensures PollOk(s.(history := s.history + [w])) && PagesOk(s.(history := s.history + [w]))
    ensures (s.history + [w])[..s.last] == s.history[..s.last]
  {
    var s' := s.(history := s.history + [w]);
    assert forall t :: 0 <= t <= |s.history| ==> s'.history[..t] == s.history[..t];
    forall i | 0 <= i < |s.pages| && s.pages[i].PageAnswered? ensures FromServer(s', s.pages[i]) {
      assert FromServer(s, s.pages[i]);
    }
  }

  lemma WriteKeepsInv(s: State, w: ServerWrite)
    requires Inv(s) && WellLabelled(w) && |s.history| + 1 < UNSOLICITED
    ensures Inv(Next(s, Write(w)))
  {
    WriteKeepsMessages(s, w);
    hide PollOk, PagesOk, InStep, Replay, WellLabelled, WellKeyed;
    if ByPaths(s) {
      forall labelRule | labelRule in s.asOf ensures InStep(Next(s, Write(w)), labelRule, s.asOf[labelRule]) {
        WriteKeepsInStep(s, w, labelRule, s.asOf[labelRule]);
      }
    }
  }

  /** What a delivered answer does, whatever happened between the poll and its delivery. */
  lemma DeliverMoves(s: State)
    requires Inv(s) && s.poll.Answered?
    ensures Deliver(s).last == s.poll.count
    ensures HasGap(s.last, s.poll.answer) <==>
              !InJournal(JournalOf(s.history[..s.poll.count], s.setup.maxSize), s.last)
    ensures !HasGap(s.last, s.poll.answer) ==>
              Deliver(s).local == Replay(Client(s.setup.client), s.local, s.history[s.last..s.poll.count])
  {
    var then' := s.history[..s.poll.count];
    hide HasGap, JournalAnswer, NewerThan, LastSolicited, InJournal, JournalOf, Replay;
    GapIffNotInJournal(then', s.setup.maxSize, s.last);
    AnswerCarriesUnseen(then', s.setup.maxSize, s.last);
    var unseen := if s.last <= |then'| then then'[s.last..] else [];
    ReplayHeard(s.setup.client, s.local, unseen);
    assert s.last <= |then'| ==> then'[s.last..] == s.history[s.last..s.poll.count];
  }

  /** Applying unseen writes up to `count` keeps a label in step. */
  lemma DeliverKeepsInStep(s: State, s': State, count: nat, labelRule: Label, since: nat)
    requires s.last <= count <= |s.history| && InStep(s, labelRule, since)
    requires s'.setup == s.setup && s'.history == s.history && s'.last == count
    requires s'.local == Replay(Client(s.setup.client), s.local, s.history[s.last..count])
    ensures InStep(s', labelRule, since)
  {
    forall t | count <= t <= |s.history| && since <= t ensures InStepAt(s', labelRule, t) {
      assert InStepAt(s, labelRule, t);
      ReplayAppend(Client(s.setup.client), s.local, s.history[s.last..count], s.history[count..t]);
      assert s.history[s.last..count] + s.history[count..t] == s.history[s.last..t];
    }
  }

  /** The replay of a stretch of the history, taken further. */
  lemma ReplayFurther(side: Side, store: Store, history: seq<ServerWrite>, first: nat, k: nat, t: nat)
    requires first <= k <= t <= |history|
    ensures Replay(side, Replay(side, store, history[first..k]), history[k..t]) == Replay(side, store, history[first..t])
  {
    ReplayAppend(side, store, history[first..k], history[k..t]);
    assert history[first..k] + history[k..t] == history[first..t];
  }

  lemma DeliverKeepsInv(s: State)
    requires Inv(s) && s.poll.Answered?
    ensures Inv(Deliver(s))
  {
    DeliverMoves(s);
    var s' := Deliver(s);
    var count := s.poll.count;
    SamePages(s, s');
    hide HasGap, NewerThan, LastSolicited, Replay, WellKeyed, PagesOk, InStep;
    if !HasGap(s.last, s.poll.answer) {
      ReplayFurther(Client(s.setup.client), s.setup.initial, s.history, 0, s.last, count);
      assert s.history[0..s.last] == s.history[..s.last] && s.history[0..count] == s.history[..count];
      ReplayKeepsKeys(Client(s.setup.client), s.local, s.history[s.last..count]);
      if ByPaths(s) {
        forall labelRule | labelRule in s.asOf ensures InStep(s', labelRule, s.asOf[labelRule]) {
          DeliverKeepsInStep(s, s', count, labelRule, s.asOf[labelRule]);
        }
      }
    }
  }

  /** Whether a snapshot comes from the server depends on the history alone. */
  lemma SamePages(s: State, s': State)
    requires PagesOk(s) && s'.setup == s.setup && s'.history == s.history
    requires forall i :: 0 <= i < |s'.pages| && s'.pages[i].PageAnswered? ==> s'.pages[i] in s.pages
    ensures PagesOk(s')
  {
    forall i | 0 <= i < |s'.pages| && s'.pages[i].PageAnswered?
      ensures s'.pages[i].takenAt <= |s.history| && FromServer(s', s'.pages[i])
    {
      var j :| 0 <= j < |s.pages| && s.pages[j] == s'.pages[i];
      assert FromServer(s, s.pages[j]);
    }
  }

  /** Being in step depends on what the client holds, not on messages. */
  lemma SameSteps(s: State, s': State)
    requires s.last <= |s.history| && StepsOk(s)
    requires s'.setup == s.setup && s'.history == s.history && s'.local == s.local && s'.last == s.last
    requires s'.asOf == s.asOf && s'.gaps == s.gaps
    ensures StepsOk(s')
  {
    forall labelRule | labelRule in s'.asOf ensures InStep(s', labelRule, s'.asOf[labelRule]) {
      forall t | s.last <= t <= |s.history| && s.asOf[labelRule] <= t ensures InStepAt(s', labelRule, t) {
        assert InStepAt(s, labelRule, t);
      }
    }
  }

  lemma AnsweredPage(s: State)
    requires Inv(s)
    ensures var page := PageAnswered(PageTree(ServerAt(s, |s.history|), MUTABLE_PAGE), |s.history|);
            FromServer(s, page)
  {
    var now := ServerAt(s, |s.history|);
    assert s.history[..|s.history|] == s.history;
    ReplayKeepsKeys(Server(s.setup.server), s.setup.initial, s.history);
    if MUTABLE_PAGE in now {
      StoredAmongHolds(now, now[MUTABLE_PAGE].childNames);
    }
  }

  lemma AnswerPageKeepsInv(s: State, i: nat)
    requires Inv(s)
    ensures Inv(Next(s, AnswerPage(i)))
  {
    var s' := Next(s, AnswerPage(i));
    AnsweredPage(s);
    hide Replay, PageTree, WellKeyed;
    forall j | 0 <= j < |s'.pages| && s'.pages[j].PageAnswered?
      ensures s'.pages[j].takenAt <= |s.history| && FromServer(s', s'.pages[j])
    {
      if j != i || s.pages[j].PageAnswered? { assert FromServer(s, s.pages[j]); }
    }
    if ByPaths(s) { SameSteps(s, s'); }
  }

  lemma {:induction false} UpsertedAllAt(store: Store, nodes: seq<TreeNode>, labelRule: Label)
    ensures !Carries(nodes, labelRule) ==>
              Lookup(UpsertedAll(store, nodes), labelRule) == Lookup(store, labelRule)
    ensures Carries(nodes, labelRule) ==>
              exists i :: 0 <= i < |nodes| && nodes[i].labelRule == labelRule
                          && Lookup(UpsertedAll(store, nodes), labelRule) == Some(nodes[i])
    decreases |nodes|
  {
    if nodes != [] {
      var init, last := nodes[..|nodes| - 1], nodes[|nodes| - 1];
      UpsertedAllAt(store, init, labelRule);
      assert nodes[|nodes| - 1] == last;
      if last.labelRule != labelRule && Carries(nodes, labelRule) {
        var i :| 0 <= i < |nodes| && nodes[i].labelRule == labelRule;
        assert init[i].labelRule == labelRule;
      }
      if Carries(init, labelRule) {
        var i :| 0 <= i < |init| && init[i].labelRule == labelRule
                 && Lookup(UpsertedAll(store, init), labelRule) == Some(init[i]);
        assert nodes[i].labelRule == labelRule;
      }
    }
  }

  lemma {:induction false} UpsertsKeepKeys(store: Store, nodes: seq<TreeNode>)
    requires WellKeyed(store)
    ensures WellKeyed(UpsertedAll(store, nodes))
    decreases |nodes|
  {
    if nodes != [] { UpsertsKeepKeys(store, nodes[..|nodes| - 1]); }
  }

  /** The history up to `t` as the part up to `k` and the part after it. */
  lemma ServerAtSplit(s: State, k: nat, t: nat)
    requires k <= t <= |s.history|
    ensures ServerAt(s, t) == Replay(Server(s.setup.server), ServerAt(s, k), s.history[k..t])
  {
    ReplayAppend(Server(s.setup.server), s.setup.initial, s.history[..k], s.history[k..t]);
    assert s.history[..k] + s.history[k..t] == s.history[..t];
  }

  /**
   The snapshot theorem where deletes go by path.  `local` holds, at one label, the value a snapshot took
   at time `takenAt`, and the client then replays everything after its index `k`.  A snapshot no older
   than `k` is right from its own time on, although (k, takenAt] is replayed over newer data.  An older
   one is right exactly when the label is written again or its value is still the server's.
   */
  lemma SnapshotAgreement(s: State, local: Store, labelRule: Label, k: nat, takenAt: nat, t: nat)
    requires ByPaths(s) && AllWellLabelled(s.history) && Replicable(labelRule)
    requires k <= t <= |s.history| && takenAt <= t
    requires Lookup(local, labelRule) == Lookup(ServerAt(s, takenAt), labelRule)
    ensures k <= takenAt ==>
              Lookup(Replay(Client(ByPath), local, s.history[k..t]), labelRule) == Lookup(ServerAt(s, t), labelRule)
    ensures Lookup(Replay(Client(ByPath), local, s.history[k..t]), labelRule) == Lookup(ServerAt(s, t), labelRule)
            <==> AnyTouches(s.history[k..t], labelRule)
                 || Lookup(ServerAt(s, takenAt), labelRule) == Lookup(ServerAt(s, t), labelRule)
  {
    var unseen := s.history[k..t];
    ServerAtSplit(s, k, t);
    ReplayAt(local, ServerAt(s, k), unseen, labelRule);
    if k <= takenAt && !AnyTouches(unseen, labelRule) {
      var early := s.history[k..takenAt];
      ServerAtSplit(s, k, takenAt);
      assert forall i :: 0 <= i < |early| ==> early[i] == unseen[i];
      ReplayAt(local, ServerAt(s, k), early, labelRule);
    }
  }

  /**
   The snapshot theorem whatever a delete means to either side.  Writes that settle a label take a snapshot
   no older than the index to the server's value, although older writes are replayed over it.
   */
  lemma SnapshotAgreesWhenSettled(s: State, local: Store, labelRule: Label, k: nat, takenAt: nat, t: nat)
    requires WellKeyed(s.setup.initial) && WellKeyed(local) && AllWellLabelled(s.history) && Replicable(labelRule)
    requires k <= takenAt <= t <= |s.history| && Settled(s.history[k..t], labelRule)
    requires Lookup(local, labelRule) == Lookup(ServerAt(s, takenAt), labelRule)
    ensures Lookup(Replay(Client(s.setup.client), local, s.history[k..t]), labelRule) == Lookup(ServerAt(s, t), labelRule)
  {
    hide Replay, Settled, LastSettling, WellKeyed, ServerAt;
    var unseen := s.history[k..t];
    ServerAtSplit(s, k, t);
    ServerKeepsKeys(s, k);
    if LastSettling(unseen, labelRule) == None {
      ServerAtSplit(s, k, takenAt);
      assert s.history[k..takenAt] == unseen[..takenAt - k];
      SettledLeavesAlone(Server(s.setup.server), ServerAt(s, k), unseen, labelRule, takenAt - k);
    }
    SettledSidesAgree(Client(s.setup.client), local, Server(s.setup.server), ServerAt(s, k), unseen, labelRule);
  }

  lemma ServerKeepsKeys(s: State, k: nat)
    requires WellKeyed(s.setup.initial) && AllWellLabelled(s.history) && k <= |s.history|
    ensures WellKeyed(ServerAt(s, k))
  {
    ReplayKeepsKeys(Server(s.setup.server), s.setup.initial, s.history[..k]);
  }

  lemma SnapshotValue(s: State, i: nat, labelRule: Label)
    requires PagesOk(s) && i < |s.pages| && s.pages[i].PageAnswered? && Carries(s.pages[i].nodes, labelRule)
    ensures Lookup(UpsertedAll(s.local, s.pages[i].nodes), labelRule) ==
            Lookup(ServerAt(s, s.pages[i].takenAt), labelRule)
    ensures Lookup(ServerAt(s, s.pages[i].takenAt), labelRule).Some?
  {
    UpsertedAllAt(s.local, s.pages[i].nodes, labelRule);
    assert FromServer(s, s.pages[i]);
  }

  lemma DeliverPageKeepsStep(s: State, i: nat, labelRule: Label, t: nat)
    requires Inv(s) && ByPaths(s) && i < |s.pages| && s.pages[i].PageAnswered?
    requires labelRule in DeliverSnapshot(s, i).asOf && s.last <= t <= |s.history|
    requires DeliverSnapshot(s, i).asOf[labelRule] <= t
    ensures InStepAt(DeliverSnapshot(s, i), labelRule, t)
  {
    var s' := DeliverSnapshot(s, i);
    var page := s.pages[i];
    hide Replay, ServerAt, UpsertedAll, WellKeyed;
    if Carries(page.nodes, labelRule) {
      SnapshotValue(s, i, labelRule);
      SnapshotAgreement(s, s'.local, labelRule, s.last, page.takenAt, t);
      SameServer(s, s', t);
    } else {
      UpsertedAllAt(s.local, page.nodes, labelRule);
      assert InStepAt(s, labelRule, t);
      SameServer(s, s', t);
      ReplayAt(s.local, s.setup.initial, s.history[s.last..t], labelRule);
      ReplayAt(s'.local, s.setup.initial, s.history[s.last..t], labelRule);
    }
  }

  lemma SameServer(s: State, s': State, t: nat)
    requires s'.setup == s.setup && s'.history == s.history && t <= |s.history|
    ensures ServerAt(s', t) == ServerAt(s, t)
  {
  }

  lemma DeliverPageKeepsInv(s: State, i: nat)
    requires Inv(s) && i < |s.pages| && s.pages[i].PageAnswered?
    ensures Inv(DeliverSnapshot(s, i))
  {
    var s' := DeliverSnapshot(s, i);
    SamePages(s, s');
    UpsertsKeepKeys(s.local, s.pages[i].nodes);
    if ByPaths(s) {
      hide Replay, ServerAt, UpsertedAll, WellKeyed, InStepAt, PagesOk;
      forall labelRule | labelRule in s'.asOf ensures InStep(s', labelRule, s'.asOf[labelRule]) {
        forall t | s.last <= t <= |s.history| && s'.asOf[labelRule] <= t ensures InStepAt(s', labelRule, t) {
          DeliverPageKeepsStep(s, i, labelRule, t);
        }
      }
    }
  }

  lemma PollStepsKeepInv(s: State, e: Event)
    requires Inv(s) && (e.SendPoll? || e.AnswerPoll?)
    ensures Inv(Next(s, e))
  {
    var s' := Next(s, e);
    assert s.history[..|s.history|] == s.history;
    SamePages(s, s');
    hide Replay, WellKeyed, PagesOk;
    if ByPaths(s) { SameSteps(s, s'); }
  }

  lemma NextKeepsInv(s: State, e: Event)
    requires Inv(s)
    ensures Inv(Next(s, e))
  {
    hide Inv, Deliver, DeliverSnapshot, WellLabelled;
    if e.Write? {
      if WellLabelled(e.w) && |s.history| + 1 < UNSOLICITED { WriteKeepsInv(s, e.w); }
    } else if e.DeliverAnswer? {
      if s.poll.Answered? && s.poll.answer != [] { DeliverKeepsInv(s); }
    } else if e.AnswerPage? {
      AnswerPageKeepsInv(s, e.i);
    } else if e.DeliverPage? {
      if e.i < |s.pages| && s.pages[e.i].PageAnswered? { DeliverPageKeepsInv(s, e.i); }
    } else {
      PollStepsKeepInv(s, e);
    }
  }

  lemma {:induction false} ExecKeepsInv(s: State, events: seq<Event>)
    requires Inv(s)
    ensures Inv(Exec(s, events))
    decreases |events|
  {
    hide Inv, Next;
    if events != [] {
      ExecKeepsInv(s, events[..|events| - 1]);
      NextKeepsInv(Exec(s, events[..|events| - 1]), events[|events| - 1]);
    }
  }

  lemma {:induction false} SameSetup(s: State, events: seq<Event>)
    ensures Exec(s, events).setup == s.setup
    decreases |events|
  {
    if events != [] { SameSetup(s, events[..|events| - 1]); }
  }

  lemma ReachedKeepsInv(setup: Setup, events: seq<Event>)
    requires WellKeyed(setup.initial)
    ensures Inv(Exec(Init(setup), events)) && Exec(Init(setup), events).setup == setup
  {
    hide Inv, Exec, Init;
    InitInv(setup);
    ExecKeepsInv(Init(setup), events);
    SameSetup(Init(setup), events);
    assert Init(setup).setup == setup by { InitSetup(setup); }
  }

  lemma InitSetup(setup: Setup)
    ensures Init(setup).setup == setup
  {
  }
}
