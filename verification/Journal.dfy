/**
 What the journal and the replica mean, independently of how the two classes keep them: the server's
 journal is a suffix of the numbered history of writes, and the client's store is a replay of what the
 server told it.
 */
module JournalSpec {
  import opened TreeModel
  import opened MemoryTrees

  /** The number of a notification that answers no poll: (uint64_t)-1. */
  const UNSOLICITED: nat := 0xFFFF_FFFF_FFFF_FFFF

  const MUTABLE_PAGE := "MutableNodes"

  // ---- writes ----

  /** A write of the server's backend: what its listeners are told, and whether a transaction made it. */
  datatype ServerWrite = ServerWrite(labelRule: Label, node: Option<TreeNode>, byTransaction: bool)

  function Told(w: ServerWrite): Notification {
    Notification(w.labelRule, w.node)
  }

  /** What a client makes of it: nobody tells the client of transactions. */
  function Heard(n: Notification): ServerWrite {
    ServerWrite(n.labelRule, n.node, false)
  }

  function AllHeard(ws: seq<ServerWrite>): (r: seq<ServerWrite>)
    ensures |r| == |ws| && forall i :: 0 <= i < |r| ==> r[i] == Heard(Told(ws[i]))
  {
    seq(|ws|, i requires 0 <= i < |ws| => Heard(Told(ws[i])))
  }

  /** A backend notifies an upsert under the label of the node it stored. */
  predicate WellLabelled(w: ServerWrite) {
    w.node.Some? ==> w.node.value.labelRule == w.labelRule
  }

  ghost predicate AllWellLabelled(ws: seq<ServerWrite>) {
    forall i :: 0 <= i < |ws| ==> WellLabelled(ws[i])
  }

  // ---- the two sides ----

  /** Who takes the writes; to the client a notification without a label only carries a number. */
  datatype Side = Server(deletion: Deletion) | Client(deletion: Deletion)

  /** A transaction of the in-memory tree erases one key, whatever hangs below it. */
  predicate TakesOneKey(side: Side, w: ServerWrite) {
    side == Server(ByChildNames) && w.byTransaction
  }

  function Applied(side: Side, store: Store, w: ServerWrite): Store {
    if side.Client? && w.labelRule == "" then store
    else
      match w.node
      case Some(node) => store[node.labelRule := node]
      case None =>
        if TakesOneKey(side, w) then store - {w.labelRule} else Deleted(side.deletion, store, w.labelRule)
  }

  function Replay(side: Side, store: Store, ws: seq<ServerWrite>): Store {
    if ws == [] then store else Applied(side, Replay(side, store, ws[..|ws| - 1]), ws[|ws| - 1])
  }

  lemma {:induction false} ReplayAppend(side: Side, store: Store, a: seq<ServerWrite>, b: seq<ServerWrite>)
    ensures Replay(side, store, a + b) == Replay(side, Replay(side, store, a), b)
    decreases |b|
  {
    hide Applied;
    if b == [] {
      assert a + b == a;
    } else {
      ReplayAppend(side, store, a, b[..|b| - 1]);
      assert (a + b)[..|a + b| - 1] == a + b[..|b| - 1];
    }
  }

  /** One more write. */
  lemma ReplayMore(side: Side, store: Store, ws: seq<ServerWrite>, w: ServerWrite)
    ensures Replay(side, store, ws + [w]) == Applied(side, Replay(side, store, ws), w)
  {
    assert (ws + [w])[..|ws|] == ws;
  }

  /** The client replays what it is told. */
  lemma {:induction false} ReplayHeard(deletion: Deletion, store: Store, ws: seq<ServerWrite>)
    ensures Replay(Client(deletion), store, AllHeard(ws)) == Replay(Client(deletion), store, ws)
  {
    hide Deleted;
    if ws != [] {
      ReplayHeard(deletion, store, ws[..|ws| - 1]);
      assert AllHeard(ws)[..|ws| - 1] == AllHeard(ws[..|ws| - 1]);
    }
  }

  lemma AppliedKeepsKeys(side: Side, store: Store, w: ServerWrite)
    requires WellKeyed(store) && WellLabelled(w)
    ensures WellKeyed(Applied(side, store, w))
  {
    RemoveStaysInSubtree(store, w.labelRule);
  }

  lemma {:induction false} ReplayKeepsKeys(side: Side, store: Store, ws: seq<ServerWrite>)
    requires WellKeyed(store) && AllWellLabelled(ws)
    ensures WellKeyed(Replay(side, store, ws))
  {
    hide Applied, WellKeyed;
    if ws != [] {
      assert AllWellLabelled(ws[..|ws| - 1]);
      ReplayKeepsKeys(side, store, ws[..|ws| - 1]);
      AppliedKeepsKeys(side, Replay(side, store, ws[..|ws| - 1]), ws[|ws| - 1]);
    }
  }

  /**
   Where neither the empty label is written nor a transaction takes one key alone, client and server replay
   alike, whatever a delete means to them.
   */
  lemma {:induction false} ReplayIsServerStore(deletion: Deletion, store: Store, ws: seq<ServerWrite>)
    requires forall i :: 0 <= i < |ws| ==>
               ws[i].labelRule != "" && (ws[i].node == None ==> !TakesOneKey(Server(deletion), ws[i]))
    ensures Replay(Client(deletion), store, ws) == Replay(Server(deletion), store, ws)
  {
    hide Deleted, TakesOneKey;
    if ws != [] {
      ReplayIsServerStore(deletion, store, ws[..|ws| - 1]);
      assert !TakesOneKey(Client(deletion), ws[|ws| - 1]) by { ClientTakesAll(deletion, ws[|ws| - 1]); }
    }
  }

  lemma ClientTakesAll(deletion: Deletion, w: ServerWrite)
    ensures !TakesOneKey(Client(deletion), w)
  {
  }

  // ---- what decides a label ----

  /** The labels a client can follow: writes of the empty label never reach it. */
  predicate Replicable(labelRule: Label) {
    !InSubtree("", labelRule)
  }

  /** All labels but the empty one and those that start with a '/'. */
  lemma ReplicableIs(labelRule: Label)
    ensures Replicable(labelRule) <==> labelRule != "" && labelRule[0] != '/'
  {
    assert "" + "/" == "/";
  }

  predicate Touches(w: ServerWrite, labelRule: Label) {
    if w.node.Some? then w.labelRule == labelRule else InSubtree(w.labelRule, labelRule)
  }

  ghost predicate AnyTouches(ws: seq<ServerWrite>, labelRule: Label) {
    exists i :: 0 <= i < |ws| && Touches(ws[i], labelRule)
  }

  lemma AppliedAt(mine: Store, theirs: Store, w: ServerWrite, labelRule: Label)
    requires Replicable(labelRule) && WellLabelled(w)
    ensures var after, there := Applied(Client(ByPath), mine, w), Applied(Server(ByPath), theirs, w);
            if Touches(w, labelRule) then Lookup(after, labelRule) == Lookup(there, labelRule)
            else
              Lookup(after, labelRule) == Lookup(mine, labelRule) && Lookup(there, labelRule) == Lookup(theirs, labelRule)
  {
  }

  lemma AnyTouchesMore(ws: seq<ServerWrite>, w: ServerWrite, labelRule: Label)
    ensures AnyTouches(ws + [w], labelRule) <==> AnyTouches(ws, labelRule) || Touches(w, labelRule)
  {
    hide Touches;
    var all := ws + [w];
    if AnyTouches(ws, labelRule) {
      var i :| 0 <= i < |ws| && Touches(ws[i], labelRule);
      assert Touches(all[i], labelRule);
    }
    if Touches(w, labelRule) { assert Touches(all[|ws|], labelRule); }
  }

  /** Where deletes go by path, the last write that touches a label decides it, on either side. */
  lemma {:induction false} ReplayAt(mine: Store, theirs: Store, ws: seq<ServerWrite>, labelRule: Label)
    requires Replicable(labelRule) && AllWellLabelled(ws)
    ensures !AnyTouches(ws, labelRule) ==>
              Lookup(Replay(Client(ByPath), mine, ws), labelRule) == Lookup(mine, labelRule)
              && Lookup(Replay(Server(ByPath), theirs, ws), labelRule) == Lookup(theirs, labelRule)
    ensures AnyTouches(ws, labelRule) ==>
              Lookup(Replay(Client(ByPath), mine, ws), labelRule) == Lookup(Replay(Server(ByPath), theirs, ws), labelRule)
  {
    hide Applied, Touches, Replicable;
    if ws != [] {
      var init, last := ws[..|ws| - 1], ws[|ws| - 1];
      assert ws == init + [last];
      ReplayAt(mine, theirs, init, labelRule);
      AnyTouchesMore(init, last, labelRule);
      AppliedAt(Replay(Client(ByPath), mine, init), Replay(Server(ByPath), theirs, init), last, labelRule);
      hide AnyTouches;
    } else {
      assert !AnyTouches(ws, labelRule);
    }
  }

  /** A plain delete takes the key from this store: by its path alone, or along a chain of stored nodes. */
  ghost predicate Takes(deletion: Deletion, store: Store, labelRule: Label, key: Label) {
    match deletion
    case ByPath => key in store && InSubtree(labelRule, key)
    case ByChildNames => Linked(store, labelRule, key)
  }

  lemma TakesIsDeleted(deletion: Deletion, store: Store, labelRule: Label, key: Label)
    requires WellKeyed(store)
    ensures Takes(deletion, store, labelRule, key) ==> key in store && InSubtree(labelRule, key)
    ensures Lookup(Deleted(deletion, store, labelRule), key) ==
            if Takes(deletion, store, labelRule, key) then None else Lookup(store, key)
  {
    RemoveStaysInSubtree(store, labelRule);
    RemoveTakesLinked(store, labelRule, key);
    hide Linked, Removed;
  }

  /** The write is a delete that takes the key from this store, on this side. */
  ghost predicate Sweeps(side: Side, store: Store, w: ServerWrite, key: Label) {
    w.node == None &&
    if TakesOneKey(side, w) then key == w.labelRule && key in store
    else Takes(side.deletion, store, w.labelRule, key)
  }

  predicate Sets(w: ServerWrite, labelRule: Label) {
    w.node.Some? && w.labelRule == labelRule
  }

  /** What one write does to one label, on either side. */
  lemma AppliedValue(side: Side, store: Store, w: ServerWrite, key: Label)
    requires WellKeyed(store) && Replicable(key) && WellLabelled(w)
    ensures Sweeps(side, store, w, key) ==> key in store && InSubtree(w.labelRule, key)
    ensures Lookup(Applied(side, store, w), key) ==
            if Sweeps(side, store, w, key) then None else if Sets(w, key) then w.node else Lookup(store, key)
  {
    hide Takes, Deleted, WellKeyed;
    TakesIsDeleted(side.deletion, store, w.labelRule, key);
  }

  ghost predicate AnySets(ws: seq<ServerWrite>, labelRule: Label) {
    exists i :: 0 <= i < |ws| && Sets(ws[i], labelRule)
  }

  /** Entry `i` of the replay is a delete that takes the label, and nothing sets it again. */
  ghost predicate SweptAt(side: Side, store: Store, ws: seq<ServerWrite>, labelRule: Label, i: nat)
    requires i < |ws|
  {
    Sweeps(side, Replay(side, store, ws[..i]), ws[i], labelRule) && !AnySets(ws[i + 1..], labelRule)
  }

  ghost predicate SweptAway(side: Side, store: Store, ws: seq<ServerWrite>, labelRule: Label) {
    exists i :: 0 <= i < |ws| && SweptAt(side, store, ws, labelRule, i)
  }

  /** The value the last upsert of the label gives it, None without one. */
  function LastSet(ws: seq<ServerWrite>, labelRule: Label): Option<TreeNode> {
    if ws == [] then None
    else if Sets(ws[|ws| - 1], labelRule) then ws[|ws| - 1].node
    else LastSet(ws[..|ws| - 1], labelRule)
  }

  lemma AnySetsMore(ws: seq<ServerWrite>, w: ServerWrite, labelRule: Label)
    ensures AnySets(ws + [w], labelRule) <==> AnySets(ws, labelRule) || Sets(w, labelRule)
  {
    var all := ws + [w];
    if AnySets(ws, labelRule) {
      var i :| 0 <= i < |ws| && Sets(ws[i], labelRule);
      assert Sets(all[i], labelRule);
    }
    if Sets(w, labelRule) { assert Sets(all[|ws|], labelRule); }
  }

  lemma SweptAtMore(side: Side, store: Store, ws: seq<ServerWrite>, w: ServerWrite, labelRule: Label, i: nat)
    requires i < |ws|
    ensures SweptAt(side, store, ws + [w], labelRule, i) <==> SweptAt(side, store, ws, labelRule, i) && !Sets(w, labelRule)
  {
    var all := ws + [w];
    assert all[..i] == ws[..i] && all[i + 1..] == ws[i + 1..] + [w];
    AnySetsMore(ws[i + 1..], w, labelRule);
    hide Sweeps, Replay;
  }

  lemma SweptMore(side: Side, store: Store, ws: seq<ServerWrite>, w: ServerWrite, labelRule: Label)
    ensures SweptAway(side, store, ws + [w], labelRule) <==>
            !Sets(w, labelRule)
            && (SweptAway(side, store, ws, labelRule) || Sweeps(side, Replay(side, store, ws), w, labelRule))
  {
    var all := ws + [w];
    forall i: nat | i < |ws|
      ensures SweptAt(side, store, all, labelRule, i) <==> SweptAt(side, store, ws, labelRule, i) && !Sets(w, labelRule)
    {
      SweptAtMore(side, store, ws, w, labelRule, i);
    }
    assert all[..|ws|] == ws && all[|ws| + 1..] == [];
    assert SweptAt(side, store, all, labelRule, |ws|) <==> Sweeps(side, Replay(side, store, ws), w, labelRule);
    assert Sweeps(side, Replay(side, store, ws), w, labelRule) ==> !Sets(w, labelRule);
    hide SweptAt, Sweeps, Replay;
    if SweptAway(side, store, ws, labelRule) && !Sets(w, labelRule) {
      var i :| 0 <= i < |ws| && SweptAt(side, store, ws, labelRule, i);
      assert SweptAt(side, store, all, labelRule, i);
    }
  }

  /** What a replay leaves at a label: nothing when a delete swept it away for good, else the last upsert. */
  lemma {:induction false} ReplayValue(side: Side, store: Store, ws: seq<ServerWrite>, labelRule: Label)
    requires WellKeyed(store) && AllWellLabelled(ws) && Replicable(labelRule)
    ensures SweptAway(side, store, ws, labelRule) ==> AnySets(ws, labelRule) || labelRule in store
    ensures AnySets(ws, labelRule) ==> LastSet(ws, labelRule).Some?
    ensures Lookup(Replay(side, store, ws), labelRule) ==
            if SweptAway(side, store, ws, labelRule) then None
            else if AnySets(ws, labelRule) then LastSet(ws, labelRule) else Lookup(store, labelRule)
  {
    hide WellKeyed;
    if ws != [] {
      var init, last := ws[..|ws| - 1], ws[|ws| - 1];
      assert ws == init + [last];
      ReplayValue(side, store, init, labelRule);
      SweptMore(side, store, init, last, labelRule);
      AnySetsMore(init, last, labelRule);
      ReplayKeepsKeys(side, store, init);
      hide SweptAway, AnySets, Sweeps, Applied;
      AppliedValue(side, Replay(side, store, init), last, labelRule);
    }
  }

  /**
   Two sides that start alike at a label, or see it set, end alike exactly when the writes sweep it away
   from both or from neither.
   */
  lemma ReplaysAgreeExactly(side: Side, mine: Store, other: Side, theirs: Store, ws: seq<ServerWrite>, labelRule: Label)
    requires WellKeyed(mine) && WellKeyed(theirs) && AllWellLabelled(ws) && Replicable(labelRule)
    requires AnySets(ws, labelRule) || Lookup(mine, labelRule) == Lookup(theirs, labelRule)
    ensures Lookup(Replay(side, mine, ws), labelRule) == Lookup(Replay(other, theirs, ws), labelRule)
            <==> (SweptAway(side, mine, ws, labelRule) <==> SweptAway(other, theirs, ws, labelRule))
  {
    ReplayValue(side, mine, ws, labelRule);
    ReplayValue(other, theirs, ws, labelRule);
    hide SweptAway, AnySets, Replay, WellKeyed;
  }

  // ---- numbers ----

  const PLACEHOLDER := SequentialNotification(0, Notification("", None))

  /** The history with the server's numbers: a placeholder numbered 0, then write i under number i. */
  function Numbered(history: seq<ServerWrite>): (r: seq<SequentialNotification>)
    ensures |r| == |history| + 1
  {
    seq(|history| + 1, i requires 0 <= i <= |history| =>
      if i == 0 then PLACEHOLDER else SequentialNotification(i, Told(history[i - 1])))
  }

  function Kept(history: seq<ServerWrite>, maxSize: nat): (n: nat)
    ensures 1 <= n <= |history| + 1
  {
    var bound := if maxSize == 0 then 1 else maxSize;
    if |history| + 1 <= bound then |history| + 1 else bound
  }

  function FirstKept(history: seq<ServerWrite>, maxSize: nat): nat {
    |history| + 1 - Kept(history, maxSize)
  }

  /** The journal as a value: the newest entries of the numbered history. */
  function JournalOf(history: seq<ServerWrite>, maxSize: nat): seq<SequentialNotification> {
    Numbered(history)[FirstKept(history, maxSize)..]
  }

  ghost predicate InJournal(journal: seq<SequentialNotification>, index: nat) {
    exists i :: 0 <= i < |journal| && journal[i].number == index
  }

  function WrongSequence(latest: nat): seq<SequentialNotification> {
    [PLACEHOLDER, SequentialNotification(2, Notification("", None)),
     SequentialNotification(latest, Notification("", None))]
  }

  /** What a poll from `index` is answered: all entries from that number on, or the marker. */
  function JournalAnswer(history: seq<ServerWrite>, maxSize: nat, index: nat): (r: seq<SequentialNotification>)
    ensures |r| > 0
  {
    if FirstKept(history, maxSize) <= index <= |history|
    then Numbered(history)[index..]
    else WrongSequence(|history|)
  }

  /** The journal holds exactly the numbers FirstKept..|history|, contiguously and within its bound. */
  lemma JournalShape(history: seq<ServerWrite>, maxSize: nat)
    ensures var journal := JournalOf(history, maxSize);
            && journal != []
            && (maxSize >= 1 ==> |journal| <= maxSize)
            && journal[|journal| - 1].number == |history|
            && (forall i :: 1 <= i < |journal| ==> journal[i].number == journal[i - 1].number + 1)
            && (forall index: nat ::
                  InJournal(journal, index) <==> FirstKept(history, maxSize) <= index <= |history|)
  {
    var journal := JournalOf(history, maxSize);
    var first := FirstKept(history, maxSize);
    assert forall i :: 0 <= i < |journal| ==> journal[i].number == first + i;
    forall index: nat | first <= index <= |history| ensures InJournal(journal, index) {
      assert journal[index - first].number == index;
    }
  }

  /** Appending a write and dropping the front when the journal overflows keeps the newest suffix. */
  lemma JournalAppend(history: seq<ServerWrite>, maxSize: nat, w: ServerWrite)
    ensures var grown := JournalOf(history, maxSize) + [SequentialNotification(|history| + 1, Told(w))];
            JournalOf(history + [w], maxSize) == if |grown| > maxSize then grown[1..] else grown
  {
    var longer := history + [w];
    var grown := JournalOf(history, maxSize) + [SequentialNotification(|history| + 1, Told(w))];
    assert Numbered(longer) == Numbered(history) + [SequentialNotification(|history| + 1, Told(w))];
    assert grown == Numbered(longer)[FirstKept(history, maxSize)..];
  }

  // ---- the client's reading of an answer ----

  /** Scanning on from number `cur`, some solicited entry of `ns` skips a number. */
  predicate JumpAfter(cur: nat, ns: seq<SequentialNotification>)
    decreases |ns|
  {
    if ns == [] then false
    else if ns[0].number == UNSOLICITED then JumpAfter(cur, ns[1..])
    else ns[0].number > cur + 1 || JumpAfter(ns[0].number, ns[1..])
  }

  predicate HasGap(last: nat, ns: seq<SequentialNotification>)
    requires ns != []
  {
    last < ns[0].number || JumpAfter(ns[0].number, ns)
  }

  /** The newest solicited entry of an answer, its first entry when there is none. */
  function LastSolicited(ns: seq<SequentialNotification>): (r: SequentialNotification)
    requires ns != []
  {
    var newest := ns[|ns| - 1];
    if newest.number != UNSOLICITED || |ns| == 1 then newest else LastSolicited(ns[..|ns| - 1])
  }

  /** The writes the client takes from an answer. */
  function NewerThan(last: nat, ns: seq<SequentialNotification>): seq<ServerWrite> {
    if ns == [] then []
    else
      var init := NewerThan(last, ns[..|ns| - 1]);
      if ns[|ns| - 1].number > last then init + [Heard(ns[|ns| - 1].notification)] else init
  }

  lemma {:induction false} ContiguousHasNoJump(cur: nat, ns: seq<SequentialNotification>)
    requires forall i :: 0 <= i < |ns| ==> ns[i].number == ns[0].number + i < UNSOLICITED
    requires ns != [] ==> ns[0].number <= cur + 1
    ensures !JumpAfter(cur, ns)
    decreases |ns|
  {
    if ns != [] {
      var rest := ns[1..];
      assert forall i :: 0 <= i < |rest| ==> rest[i] == ns[i + 1];
      ContiguousHasNoJump(ns[0].number, rest);
    }
  }

  /**
   The client declares a gap exactly when its index is no longer (or not yet) a number of the
   journal, and in either case the answer moves it to the number of writes at answer time.
   */
  lemma GapIffNotInJournal(history: seq<ServerWrite>, maxSize: nat, index: nat)
    requires |history| < UNSOLICITED
    ensures var answer := JournalAnswer(history, maxSize, index);
            && (HasGap(index, answer) <==> !InJournal(JournalOf(history, maxSize), index))
            && LastSolicited(answer).number == |history|
  {
    JournalShape(history, maxSize);
    hide InJournal, JournalOf, Kept;
    if FirstKept(history, maxSize) <= index <= |history| {
      SuffixHasNoGap(history, index);
    } else {
      MarkerHasGap(index, |history|);
    }
  }

  lemma SuffixHasNoGap(history: seq<ServerWrite>, index: nat)
    requires index <= |history| < UNSOLICITED
    ensures !HasGap(index, Numbered(history)[index..]) && LastSolicited(Numbered(history)[index..]).number == |history|
  {
    var answer := Numbered(history)[index..];
    assert forall i :: 0 <= i < |answer| ==> answer[i].number == index + i;
    ContiguousHasNoJump(index, answer);
  }

  lemma MarkerHasGap(index: nat, latest: nat)
    requires latest < UNSOLICITED
    ensures HasGap(index, WrongSequence(latest)) && LastSolicited(WrongSequence(latest)).number == latest
  {
    var answer := WrongSequence(latest);
    assert JumpAfter(0, answer[1..]);
    assert JumpAfter(0, answer);
  }

  /** Without a gap the entries the client applies are precisely the writes it has not seen. */
  lemma {:induction false} NewerThanIsSuffix(history: seq<ServerWrite>, index: nat, upTo: nat)
    requires index <= upTo <= |history|
    ensures NewerThan(index, Numbered(history)[index..upTo + 1]) == AllHeard(history[index..upTo])
    decreases upTo
  {
    var part := Numbered(history)[index..upTo + 1];
    if upTo == index {
      assert part == [Numbered(history)[index]];
      assert NewerThan(index, part[..0]) == [];
    } else {
      NewerThanIsSuffix(history, index, upTo - 1);
      assert part[..|part| - 1] == Numbered(history)[index..upTo];
      assert AllHeard(history[index..upTo]) == AllHeard(history[index..upTo - 1]) + [Heard(Told(history[upTo - 1]))];
    }
  }

  /** An answer without a gap carries the writes from the client's index to the answer's time. */
  lemma AnswerCarriesUnseen(history: seq<ServerWrite>, maxSize: nat, index: nat)
    requires |history| < UNSOLICITED
    ensures var answer := JournalAnswer(history, maxSize, index);
            !HasGap(index, answer) ==>
              index <= |history| && NewerThan(index, answer) == AllHeard(history[index..])
  {
    hide HasGap, NewerThan, InJournal, JournalOf, LastSolicited, Numbered, WrongSequence;
    GapIffNotInJournal(history, maxSize, index);
    JournalShape(history, maxSize);
    if InJournal(JournalOf(history, maxSize), index) {
      NewerThanIsSuffix(history, index, |history|);
      assert Numbered(history)[index..|history| + 1] == Numbered(history)[index..];
      assert history[index..|history|] == history[index..];
    }
  }

  /** The marker: an entry numbered 0, one numbered 2, and the latest number, none with a label. */
  lemma MarkerIs(history: seq<ServerWrite>, maxSize: nat, index: nat)
    requires !InJournal(JournalOf(history, maxSize), index)
    ensures var answer, nothing := JournalAnswer(history, maxSize, index), Notification("", None);
            answer == [SequentialNotification(0, nothing), SequentialNotification(2, nothing),
                       SequentialNotification(|history|, nothing)]
  {
    JournalShape(history, maxSize);
  }

  // ---- any answer, whoever sent it ----

  /** The numbers of the entries that answer the poll, in order. */
  function SolicitedNumbers(ns: seq<SequentialNotification>): seq<nat> {
    if ns == [] then []
    else (if ns[0].number == UNSOLICITED then [] else [ns[0].number]) + SolicitedNumbers(ns[1..])
  }

  /** Some number is more than one above the one before it. */
  ghost predicate Jumps(numbers: seq<nat>) {
    exists i, j :: 0 <= i && j == i + 1 < |numbers| && numbers[j] > numbers[i] + 1
  }

  lemma JumpsFirst(numbers: seq<nat>)
    requires |numbers| >= 2
    ensures Jumps(numbers) <==> numbers[1] > numbers[0] + 1 || Jumps(numbers[1..])
  {
    var rest := numbers[1..];
    if Jumps(rest) {
      var i, j :| 0 <= i && j == i + 1 < |rest| && rest[j] > rest[i] + 1;
      assert numbers[j + 1] > numbers[i + 1] + 1;
    }
    if Jumps(numbers) {
      var i, j :| 0 <= i && j == i + 1 < |numbers| && numbers[j] > numbers[i] + 1;
      if i > 0 { assert rest[j - 1] > rest[i - 1] + 1; }
    }
  }

  /** A gap between entries is a jump of the solicited numbers; going back is none. */
  lemma {:induction false} JumpExactly(cur: nat, ns: seq<SequentialNotification>)
    ensures JumpAfter(cur, ns) <==> Jumps([cur] + SolicitedNumbers(ns))
    decreases |ns|
  {
    if ns != [] {
      var first, rest := ns[0].number, SolicitedNumbers(ns[1..]);
      if first == UNSOLICITED {
        JumpExactly(cur, ns[1..]);
        assert [] + rest == rest;
      } else {
        JumpExactly(first, ns[1..]);
        JumpsFirst([cur] + ([first] + rest));
        assert ([cur] + ([first] + rest))[1..] == [first] + rest;
      }
    }
  }

  /** The last entry that answers the poll, or the first of all when none does. */
  lemma {:induction false} LastSolicitedIs(ns: seq<SequentialNotification>) returns (i: nat)
    requires ns != []
    ensures i < |ns| && LastSolicited(ns) == ns[i] && (ns[i].number != UNSOLICITED || i == 0)
    ensures forall j :: i < j < |ns| ==> ns[j].number == UNSOLICITED
  {
    if ns[|ns| - 1].number != UNSOLICITED || |ns| == 1 {
      i := |ns| - 1;
    } else {
      i := LastSolicitedIs(ns[..|ns| - 1]);
    }
  }

  // ---- entries that answer no poll ----

  lemma {:induction false} JumpAppend(cur: nat, a: seq<SequentialNotification>, b: seq<SequentialNotification>)
    ensures JumpAfter(cur, a + b) <==> JumpAfter(cur, a) || JumpAfter(LastNumber(cur, a), b)
    decreases |a|
  {
    if a == [] {
      assert a + b == b;
    } else {
      assert (a + b)[1..] == a[1..] + b;
      JumpAppend(if a[0].number == UNSOLICITED then cur else a[0].number, a[1..], b);
    }
  }

  /** The number the scan stands at behind the entries. */
  function LastNumber(cur: nat, ns: seq<SequentialNotification>): nat
    decreases |ns|
  {
    if ns == [] then cur else LastNumber(if ns[0].number == UNSOLICITED then cur else ns[0].number, ns[1..])
  }

  lemma {:induction false} NewerAppend(last: nat, a: seq<SequentialNotification>, b: seq<SequentialNotification>)
    ensures NewerThan(last, a + b) == NewerThan(last, a) + NewerThan(last, b)
    ensures |b| == 1 ==> NewerThan(last, b) == if b[0].number > last then [Heard(b[0].notification)] else []
    decreases |b|
  {
    if |b| == 1 { assert b[..0] == [] && NewerThan(last, b[..0]) == []; }
    if b == [] {
      assert a + b == a;
    } else {
      NewerAppend(last, a, b[..|b| - 1]);
      assert (a + b)[..|a + b| - 1] == a + b[..|b| - 1];
    }
  }

  lemma {:induction false} LastAppend(a: seq<SequentialNotification>, b: seq<SequentialNotification>)
    requires a != []
    ensures LastSolicited(a + b) ==
            if forall i :: 0 <= i < |b| ==> b[i].number == UNSOLICITED then LastSolicited(a) else LastSolicited(b)
    decreases |b|
  {
    if b == [] {
      assert a + b == a;
    } else {
      var init, last := b[..|b| - 1], b[|b| - 1];
      assert (a + b)[..|a + b| - 1] == a + init;
      if last.number == UNSOLICITED { LastAppend(a, init); }
    }
  }

  /**
   An entry that answers no poll, in the middle of an answer, opens no gap and is not the last one, but it is
   applied where it stands.
   */
  lemma UnsolicitedIsApplied(last: nat, a: seq<SequentialNotification>, u: SequentialNotification,
                             b: seq<SequentialNotification>)
    requires a != [] && u.number == UNSOLICITED && last < UNSOLICITED
    ensures HasGap(last, a + [u] + b) <==> HasGap(last, a + b)
    ensures LastSolicited(a + [u] + b) == LastSolicited(a + b)
    ensures NewerThan(last, a + [u] + b) == NewerThan(last, a) + [Heard(u.notification)] + NewerThan(last, b)
  {
    NewerAppend(last, a + [u], b);
    NewerAppend(last, a, [u]);
    assert [u][..0] == [] && NewerThan(last, [u][..0]) == [];
    assert NewerThan(last, [u]) == [Heard(u.notification)];
    LastAppend(a, [u] + b);
    LastAppend(a, b);
    LastAppend([u], b);
    assert a + [u] + b == a + ([u] + b);
    JumpAppend(a[0].number, a, [u] + b);
    JumpAppend(a[0].number, a, b);
    assert ([u] + b)[1..] == b && ([u] + b)[0] == u;
    hide NewerThan, LastSolicited, LastNumber;
    assert (a + b)[0] == a[0] && (a + ([u] + b))[0] == a[0];
    assert (forall i :: 0 <= i < |b| ==> b[i].number == UNSOLICITED)
      <==> forall i :: 0 <= i < |[u] + b| ==> ([u] + b)[i].number == UNSOLICITED by { AllOrNot(u, b); }
  }

  lemma AllOrNot(u: SequentialNotification, b: seq<SequentialNotification>)
    requires u.number == UNSOLICITED
    ensures (forall i :: 0 <= i < |b| ==> b[i].number == UNSOLICITED)
            <==> forall i :: 0 <= i < |[u] + b| ==> ([u] + b)[i].number == UNSOLICITED
  {
    var all := [u] + b;
    assert forall i :: 0 <= i < |b| ==> all[i + 1] == b[i];
  }
}
