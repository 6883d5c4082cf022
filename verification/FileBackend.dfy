/** Wrap-around version numbers: their order and what incrementing does to it. */
module Versions {
  import opened TreeModel

  /** operator++ */
  function Incremented(v: TreeNodeVersion): TreeNodeVersion
    requires v.maxVersionSequence > 0
  {
    v.(versionNumber := (v.versionNumber + 1) % v.maxVersionSequence)
  }

  /** operator<: closer than half the sequence the lower number is older, else it has wrapped. */
  predicate Older(a: TreeNodeVersion, b: TreeNodeVersion) {
    var half := a.maxVersionSequence / 2;
    if a == b then false
    else if b.versionNumber > a.versionNumber then b.versionNumber - a.versionNumber <= half
    else a.versionNumber - b.versionNumber > half
  }

  /** Any two versions go by their numbers alone, and by the length of the left one's sequence. */
  lemma OlderIs(a: TreeNodeVersion, b: TreeNodeVersion)
    ensures var n, k, m := a.versionNumber, b.versionNumber, a.maxVersionSequence;
            Older(a, b) <==> if n < k then 2 * (k - n) <= m else 2 * (n - k) > m
  {
    assert a.maxVersionSequence - 2 * (a.maxVersionSequence / 2) in {0, 1};
  }

  predicate InRange(v: TreeNodeVersion) {
    v.versionNumber < v.maxVersionSequence
  }

  function Times(v: TreeNodeVersion, k: nat): (r: TreeNodeVersion)
    requires v.maxVersionSequence > 0
    ensures r.maxVersionSequence == v.maxVersionSequence
  {
    if k == 0 then v else Incremented(Times(v, k - 1))
  }

  lemma WrapOnce(a: nat, b: nat, m: nat)
    requires m > 0 && b < m
    ensures (a + b) % m == if a % m + b < m then a % m + b else a % m + b - m
  {
    var q, r := a / m, a % m;
    assert a == m * q + r;
    if r + b < m {
      WrapUnique(a + b, q, r + b, m);
    } else {
      assert m * (q + 1) == m * q + m;
      WrapUnique(a + b, q + 1, r + b - m, m);
    }
  }

  lemma {:induction false} MultiplesApart(m: nat, q: nat, p: nat)
    ensures q < p ==> m * q + m <= m * p
  {
    if q < p {
      assert m * p == m * (p - 1) + m;
      MultiplesApart(m, q, p - 1);
    }
  }

  lemma WrapUnique(a: nat, q: nat, r: nat, m: nat)
    requires m > 0 && r < m && a == m * q + r
    ensures a % m == r && a / m == q
  {
    MultiplesApart(m, q, a / m);
    MultiplesApart(m, a / m, q);
    assert a == m * (a / m) + a % m;
  }

  lemma {:induction false} TimesIs(v: TreeNodeVersion, k: nat)
    requires InRange(v)
    ensures Times(v, k) == v.(versionNumber := (v.versionNumber + k) % v.maxVersionSequence)
  {
    var m := v.maxVersionSequence;
    if k == 0 {
      WrapUnique(v.versionNumber, 0, v.versionNumber, m);
    } else {
      TimesIs(v, k - 1);
      if m == 1 {
        WrapUnique(v.versionNumber + k, v.versionNumber + k, 0, 1);
      } else {
        var before := (v.versionNumber + k - 1) % m;
        WrapOnce(v.versionNumber + k - 1, 1, m);
        if before + 1 < m { WrapUnique(before + 1, 0, before + 1, m); } else { WrapUnique(m, 1, 0, m); }
      }
    }
  }

  /** Of two versions that differ in their number alone exactly one is the older. */
  lemma ExactlyOneOlder(a: TreeNodeVersion, b: TreeNodeVersion)
    requires InRange(a) && InRange(b) && b == a.(versionNumber := b.versionNumber)
    ensures Older(a, b) || Older(b, a) <==> a.versionNumber != b.versionNumber
    ensures !(Older(a, b) && Older(b, a))
  {
    if a.versionNumber == b.versionNumber {
      assert a == b;
    }
  }

  /** A version is older than itself incremented `k` times for exactly these `k`, whatever wraps. */
  lemma OlderThanIncremented(v: TreeNodeVersion, k: nat)
    requires InRange(v)
    ensures var m := v.maxVersionSequence;
            var r := k % m;
            Older(v, Times(v, k)) <==> 1 <= r && (if v.versionNumber + r < m then r <= m / 2 else r < m - m / 2)
  {
    var m := v.maxVersionSequence;
    TimesIs(v, k);
    WrapOnce(k, v.versionNumber, m);
    assert v.versionNumber + k == k + v.versionNumber;
    hide Times;
    var r, n := k % m, v.versionNumber;
    assert Times(v, k).versionNumber == if n + r < m then n + r else n + r - m;
  }

  lemma OlderWithinHalf(v: TreeNodeVersion, k: nat)
    requires InRange(v) && 1 <= k <= (v.maxVersionSequence - 1) / 2
    ensures Older(v, Times(v, k)) && !Older(Times(v, k), v)
  {
    OlderThanIncremented(v, k);
    WrapUnique(k, 0, k, v.maxVersionSequence);
    TimesIs(v, k);
    hide Times;
    ExactlyOneOlder(v, Times(v, k));
  }
}

/** Transactions and the optimistic version checks that the in-memory tree and the file backend share. */
module Transactions {
  import opened TreeModel
  import opened Versions

  /** Version arithmetic divides by the length of the sequence. */
  ghost predicate Sequenced(store: Store) {
    forall labelRule :: labelRule in store ==> store[labelRule].version.maxVersionSequence > 0
  }

  predicate ChildExpected(store: Store, child: NewNodeVersion) {
    match Lookup(store, child.labelRule)
    case None => child.expected == None
    case Some(stored) => if child.expected == None then child.node == None else child.expected == Some(stored.version.versionNumber)
  }

  /** A missing parent that was expected to be missing passes without any other check. */
  predicate CanPerform(store: Store, sub: SubTransaction)
    requires sub.parent.labelRule in store ==> store[sub.parent.labelRule].version.maxVersionSequence > 0
  {
    match Lookup(store, sub.parent.labelRule)
    case None => sub.parent.expected == None
    case Some(stored) =>
      && sub.parent.expected == Some(stored.version.versionNumber)
      && sub.parent.node.Some?
      && sub.parent.node.value.version.versionNumber == Incremented(stored.version).versionNumber
      && forall i :: 0 <= i < |sub.children| ==> ChildExpected(store, sub.children[i])
  }

  ghost predicate CanApply(store: Store, t: Transaction)
    requires Sequenced(store)
  {
    forall i :: 0 <= i < |t| ==> CanPerform(store, t[i])
  }

  /**
   Which transactions are accepted, in terms of what is stored.  A stored parent must be written, under the
   number it is expected to have and with the next one, and its children must be as expected: a stored child
   under its number, or deleted under none, and a missing child expected to be missing.  A parent that is
   not stored must be expected to be missing; its children are not looked at.
   */
  lemma AcceptedExactly(store: Store, t: Transaction)
    requires Sequenced(store)
    ensures CanApply(store, t) <==>
            forall i :: 0 <= i < |t| ==>
              var parent, children := t[i].parent, t[i].children;
              if parent.labelRule in store then
                var stored := store[parent.labelRule].version;
                && parent.expected == Some(stored.versionNumber)
                && parent.node.Some?
                && parent.node.value.version.versionNumber == (stored.versionNumber + 1) % stored.maxVersionSequence
                && forall j :: 0 <= j < |children| ==>
                     if children[j].labelRule in store
                     then || children[j].expected == Some(store[children[j].labelRule].version.versionNumber)
                          || (children[j].expected == None && children[j].node == None)
                     else children[j].expected == None
              else parent.expected == None
  {
  }

  ghost predicate SequencedChange(change: NewNodeVersion) {
    change.node.Some? ==> change.node.value.version.maxVersionSequence > 0
  }

  ghost predicate SequencedTransaction(t: Transaction) {
    forall i :: 0 <= i < |t| ==>
      && SequencedChange(t[i].parent)
      && forall j :: 0 <= j < |t[i].children| ==> SequencedChange(t[i].children[j])
  }

  /** The changes of a transaction in the order they are made. */
  function Changes(t: Transaction): seq<NewNodeVersion>
    decreases |t|
  {
    if t == [] then [] else Changes(t[..|t| - 1]) + ([t[|t| - 1].parent] + t[|t| - 1].children)
  }

  /** Sub-transaction after sub-transaction, the parent of each before its children. */
  lemma {:induction false} ChangesOf(a: Transaction, b: Transaction)
    ensures Changes(a + b) == Changes(a) + Changes(b)
    ensures |b| == 1 ==> Changes(b) == [b[0].parent] + b[0].children
    decreases |b|
  {
    if b == [] {
      assert a + b == a;
    } else {
      ChangesOf(a, b[..|b| - 1]);
      assert (a + b)[..|a + b| - 1] == a + b[..|b| - 1];
    }
  }

  /** The node is to go under the label of its change. */
  predicate OwnLabel(change: NewNodeVersion) {
    change.node.Some? ==> change.node.value.labelRule == change.labelRule
  }

  ghost predicate OwnLabels(t: Transaction) {
    forall i :: 0 <= i < |Changes(t)| ==> OwnLabel(Changes(t)[i])
  }
}

/** A backend over files: the stored nodes as a map from label to node, and deletes by path. */
module FileBackends {
  import opened TreeModel
  import opened Versions
  import opened Transactions

  // ---- the writes ----

  /** Deleting the empty label deletes every file. */
  function DeletedFiles(store: Store, labelRule: Label): Store {
    if labelRule == "" then map[] else DeletedSubtree(store, labelRule)
  }

  /** A node is written at its own label, whatever the change is labelled. */
  function Written(store: Store, change: NewNodeVersion): Store {
    match change.node
    case Some(node) => store[node.labelRule := node]
    case None => DeletedFiles(store, change.labelRule)
  }

  function WrittenAll(store: Store, changes: seq<NewNodeVersion>): Store
    decreases |changes|
  {
    if changes == [] then store else Written(WrittenAll(store, changes[..|changes| - 1]), changes[|changes| - 1])
  }

  function Performed(store: Store, sub: SubTransaction): Store {
    WrittenAll(store, [sub.parent] + sub.children)
  }

  function PerformedAll(store: Store, t: Transaction): Store
    decreases |t|
  {
    if t == [] then store else Performed(PerformedAll(store, t[..|t| - 1]), t[|t| - 1])
  }

  class FileBackend {
    var store: Store

    constructor ()
      ensures store == map[]
    {
      store := map[];
    }

    method CanPerformSubTransaction(sub: SubTransaction) returns (ok: bool)
      requires Sequenced(store)
      ensures ok == CanPerform(store, sub)
    {
      var parent := Lookup(store, sub.parent.labelRule);
      if parent.None? {
        return sub.parent.expected.None?;
      }
      var stored := parent.value;
      if sub.parent.expected.None? || stored.version.versionNumber != sub.parent.expected.value {
        return false;
      }
      var next := (stored.version.versionNumber + 1) % stored.version.maxVersionSequence;
      if sub.parent.node.None? || next != sub.parent.node.value.version.versionNumber {
        return false;
      }
      for i := 0 to |sub.children|
        invariant forall k :: 0 <= k < i ==> ChildExpected(store, sub.children[k])
      {
        var child := sub.children[i];
        var oldChild := Lookup(store, child.labelRule);
        if oldChild.Some? {
          if child.expected.None? {
            if child.node.Some? {
              assert !ChildExpected(store, sub.children[i]);
              return false;
            }
          } else if child.expected.value != oldChild.value.version.versionNumber {
            assert !ChildExpected(store, sub.children[i]);
            return false;
          }
        } else if child.expected.Some? {
          assert !ChildExpected(store, sub.children[i]);
          return false;
        }
      }
      ok := true;
    }

    method PerformSubTransaction(sub: SubTransaction)
      modifies this
      ensures store == Performed(old(store), sub)
    {
      var changes := [sub.parent] + sub.children;
      store := Written(store, sub.parent);
      assert changes[..1] == [sub.parent] && changes[..1][..0] == [];
      for i := 0 to |sub.children|
        invariant store == WrittenAll(old(store), changes[..i + 1])
      {
        assert changes[..i + 2][..i + 1] == changes[..i + 1];
        store := Written(store, sub.children[i]);
      }
      assert changes[..|changes|] == changes;
    }

    /** Throws, changing nothing, unless every sub-transaction passes its checks against the initial store. */
    method ApplyTransaction(t: Transaction) returns (thrown: bool)
      requires Sequenced(store)
      modifies this
      ensures thrown <==> !CanApply(old(store), t)
      ensures store == if thrown then old(store) else PerformedAll(old(store), t)
    {
      for i := 0 to |t|
        invariant store == old(store)
        invariant forall k :: 0 <= k < i ==> CanPerform(store, t[k])
      {
        var ok := CanPerformSubTransaction(t[i]);
        if !ok {
          return true;
        }
      }
      for i := 0 to |t|
        invariant store == PerformedAll(old(store), t[..i])
      {
        assert t[..i + 1][..i] == t[..i];
        PerformSubTransaction(t[i]);
      }
      assert t[..|t|] == t;
      thrown := false;
    }
  }

  // ---- one parent, written by transactions only ----

  /** The change leaves the node at this label alone. */
  predicate Spares(change: NewNodeVersion, labelRule: Label) {
    match change.node
    case Some(node) => node.labelRule != labelRule
    case None => change.labelRule != "" && !InSubtree(change.labelRule, labelRule)
  }

  /** A write of the parent: at its label, with the agreed length of the version sequence. */
  predicate WritesParent(change: NewNodeVersion, labelRule: Label, m: nat) {
    change.labelRule == labelRule &&
    (change.node.Some? ==> change.node.value.labelRule == labelRule && change.node.value.version.maxVersionSequence == m)
  }

  predicate ChildrenSpare(sub: SubTransaction, labelRule: Label) {
    forall i :: 0 <= i < |sub.children| ==> Spares(sub.children[i], labelRule)
  }

  /** Nothing in the sub-transaction touches the label but a write of it as the parent. */
  predicate Orderly(sub: SubTransaction, labelRule: Label, m: nat) {
    && ChildrenSpare(sub, labelRule)
    && (WritesParent(sub.parent, labelRule, m) || (sub.parent.labelRule != labelRule && Spares(sub.parent, labelRule)))
  }

  /** How many sub-transactions have this parent. */
  function CountParent(t: Transaction, labelRule: Label): nat
    decreases |t|
  {
    if t == [] then 0
    else CountParent(t[..|t| - 1], labelRule) + if t[|t| - 1].parent.labelRule == labelRule then 1 else 0
  }

  ghost predicate OrderlyTransaction(t: Transaction, labelRule: Label, m: nat) {
    SequencedTransaction(t) && forall i :: 0 <= i < |t| ==> Orderly(t[i], labelRule, m)
  }

  /** Sub-transaction `i` is the last to write this parent. */
  predicate LastWrite(t: Transaction, labelRule: Label, i: nat) {
    && i < |t| && t[i].parent.labelRule == labelRule
    && forall j :: i < j < |t| ==> t[j].parent.labelRule != labelRule
  }

  ghost predicate ParentAt(store: Store, labelRule: Label, m: nat, number: nat) {
    && labelRule in store
    && store[labelRule].version.maxVersionSequence == m
    && store[labelRule].version.versionNumber == number
  }

  lemma SparedStays(store: Store, change: NewNodeVersion, labelRule: Label)
    requires Spares(change, labelRule)
    ensures Lookup(Written(store, change), labelRule) == Lookup(store, labelRule)
  {
  }

  lemma {:induction false} SparedByAll(store: Store, changes: seq<NewNodeVersion>, labelRule: Label, i: nat)
    requires i <= |changes| && forall k :: i <= k < |changes| ==> Spares(changes[k], labelRule)
    ensures Lookup(WrittenAll(store, changes), labelRule) == Lookup(WrittenAll(store, changes[..i]), labelRule)
    decreases |changes|
  {
    if i == |changes| {
      assert changes[..i] == changes;
    } else {
      var init := changes[..|changes| - 1];
      SparedByAll(store, init, labelRule, i);
      assert init[..i] == changes[..i];
      SparedStays(WrittenAll(store, init), changes[|changes| - 1], labelRule);
    }
  }

  /** The node that a sub-transaction leaves at a label it treats in order. */
  lemma PerformedAtParent(store: Store, sub: SubTransaction, labelRule: Label, m: nat)
    requires Orderly(sub, labelRule, m)
    ensures sub.parent.labelRule != labelRule ==> Lookup(Performed(store, sub), labelRule) == Lookup(store, labelRule)
    ensures sub.parent.labelRule == labelRule && sub.parent.node.Some? ==>
              Lookup(Performed(store, sub), labelRule) == sub.parent.node
  {
    var changes := [sub.parent] + sub.children;
    forall k | 1 <= k < |changes| ensures Spares(changes[k], labelRule) {
      assert changes[k] == sub.children[k - 1];
    }
    SparedByAll(store, changes, labelRule, 1);
    assert changes[..1] == [sub.parent] && [sub.parent][..0] == [];
    assert WrittenAll(store, [sub.parent]) == Written(store, sub.parent);
    if sub.parent.labelRule != labelRule { SparedStays(store, sub.parent, labelRule); }
  }

  lemma {:induction false} PerformedAllSpares(store: Store, t: Transaction, labelRule: Label, m: nat)
    requires forall i :: 0 <= i < |t| ==> Orderly(t[i], labelRule, m) && t[i].parent.labelRule != labelRule
    ensures Lookup(PerformedAll(store, t), labelRule) == Lookup(store, labelRule)
    decreases |t|
  {
    if t != [] {
      hide Orderly, Performed;
      PerformedAllSpares(store, t[..|t| - 1], labelRule, m);
      PerformedAtParent(PerformedAll(store, t[..|t| - 1]), t[|t| - 1], labelRule, m);
    }
  }

  /** Only the last write of the parent in a transaction stays. */
  lemma {:induction false} PerformedLastWrite(store: Store, t: Transaction, labelRule: Label, m: nat, i: nat)
    requires forall j :: 0 <= j < |t| ==> Orderly(t[j], labelRule, m)
    requires LastWrite(t, labelRule, i) && t[i].parent.node.Some?
    ensures Lookup(PerformedAll(store, t), labelRule) == t[i].parent.node
    decreases |t|
  {
    hide Orderly, Performed;
    var init, last := t[..|t| - 1], t[|t| - 1];
    if i < |init| { PerformedLastWrite(store, init, labelRule, m, i); }
    PerformedAtParent(PerformedAll(store, init), last, labelRule, m);
  }

  lemma {:induction false} LastWriteIs(t: Transaction, labelRule: Label) returns (i: nat)
    requires CountParent(t, labelRule) > 0
    ensures LastWrite(t, labelRule, i)
    decreases |t|
  {
    if t[|t| - 1].parent.labelRule == labelRule {
      i := |t| - 1;
    } else {
      i := LastWriteIs(t[..|t| - 1], labelRule);
    }
  }

  lemma {:induction false} CountZero(t: Transaction, labelRule: Label)
    ensures CountParent(t, labelRule) == 0 <==> forall i :: 0 <= i < |t| ==> t[i].parent.labelRule != labelRule
    decreases |t|
  {
    if t != [] { CountZero(t[..|t| - 1], labelRule); }
  }

  /** An accepted write of a stored parent carries the number behind the stored one. */
  lemma AcceptedWrite(store: Store, t: Transaction, labelRule: Label, j: nat)
    requires Sequenced(store) && labelRule in store && CanApply(store, t)
    requires j < |t| && t[j].parent.labelRule == labelRule
    ensures t[j].parent.node.Some?
    ensures t[j].parent.node.value.version.versionNumber == Incremented(store[labelRule].version).versionNumber
  {
    assert CanPerform(store, t[j]);
  }

  /** A commit moves the version of the parent one on, however often it writes it; others leave it. */
  lemma CommitCounts(store: Store, t: Transaction, labelRule: Label, m: nat, number: nat)
    requires Sequenced(store) && m > 0 && ParentAt(store, labelRule, m, number)
    requires OrderlyTransaction(t, labelRule, m) && CanApply(store, t)
    ensures ParentAt(PerformedAll(store, t), labelRule, m, if CountParent(t, labelRule) > 0 then (number + 1) % m else number)
  {
    hide CanApply, Sequenced, PerformedAll, SequencedTransaction, ChildrenSpare;
    if CountParent(t, labelRule) > 0 {
      var i := LastWriteIs(t, labelRule);
      AcceptedWrite(store, t, labelRule, i);
      PerformedLastWrite(store, t, labelRule, m, i);
      assert Orderly(t[i], labelRule, m);
    } else {
      CountZero(t, labelRule);
      PerformedAllSpares(store, t, labelRule, m);
    }
  }

  /** All writes of a stored parent that one transaction holds are accepted alike, and the last of them stays. */
  lemma OnlyLastWriteStays(store: Store, t: Transaction, labelRule: Label, m: nat, i: nat)
    requires Sequenced(store) && labelRule in store && OrderlyTransaction(t, labelRule, m) && CanApply(store, t)
    requires LastWrite(t, labelRule, i)
    ensures t[i].parent.node.Some? && Lookup(PerformedAll(store, t), labelRule) == t[i].parent.node
    ensures forall j :: 0 <= j < |t| && t[j].parent.labelRule == labelRule ==>
              t[j].parent.node.Some?
              && t[j].parent.node.value.version.versionNumber == t[i].parent.node.value.version.versionNumber
  {
    hide CanApply, Sequenced, PerformedAll, SequencedTransaction, Orderly;
    AcceptedWrite(store, t, labelRule, i);
    PerformedLastWrite(store, t, labelRule, m, i);
    forall j | 0 <= j < |t| && t[j].parent.labelRule == labelRule
      ensures t[j].parent.node.Some?
      ensures t[j].parent.node.value.version.versionNumber == t[i].parent.node.value.version.versionNumber
    {
      AcceptedWrite(store, t, labelRule, j);
    }
  }

  lemma {:induction false} SequencedWrites(store: Store, changes: seq<NewNodeVersion>)
    requires Sequenced(store) && forall k :: 0 <= k < |changes| ==> SequencedChange(changes[k])
    ensures Sequenced(WrittenAll(store, changes))
    decreases |changes|
  {
    if changes != [] { SequencedWrites(store, changes[..|changes| - 1]); }
  }

  lemma {:induction false} StaysSequenced(store: Store, t: Transaction)
    requires Sequenced(store) && SequencedTransaction(t)
    ensures Sequenced(PerformedAll(store, t))
    decreases |t|
  {
    if t != [] {
      var init, last := t[..|t| - 1], t[|t| - 1];
      StaysSequenced(store, init);
      forall k | 0 <= k < |[last.parent] + last.children| ensures SequencedChange(([last.parent] + last.children)[k]) {
        if k > 0 { assert ([last.parent] + last.children)[k] == t[|t| - 1].children[k - 1]; }
      }
      SequencedWrites(PerformedAll(store, init), [last.parent] + last.children);
    }
  }

  // ---- whole runs ----

  /** A run of transactions, each applied or refused. */
  ghost function StoreAfter(store: Store, run: seq<Transaction>): (r: Store)
    requires Sequenced(store) && forall i :: 0 <= i < |run| ==> SequencedTransaction(run[i])
    ensures Sequenced(r)
    decreases |run|
  {
    if run == [] then store
    else
      var before := StoreAfter(store, run[..|run| - 1]);
      var t := run[|run| - 1];
      StaysSequenced(before, t);
      if CanApply(before, t) then PerformedAll(before, t) else before
  }

  /** How many transactions of the run were accepted and wrote the parent. */
  ghost function Commits(store: Store, run: seq<Transaction>, labelRule: Label): nat
    requires Sequenced(store) && forall i :: 0 <= i < |run| ==> SequencedTransaction(run[i])
    decreases |run|
  {
    if run == [] then 0
    else
      var init, t := run[..|run| - 1], run[|run| - 1];
      Commits(store, init, labelRule) + if CanApply(StoreAfter(store, init), t) && CountParent(t, labelRule) > 0 then 1 else 0
  }

  /** How many writes of the parent the accepted transactions of the run held. */
  ghost function Writes(store: Store, run: seq<Transaction>, labelRule: Label): nat
    requires Sequenced(store) && forall i :: 0 <= i < |run| ==> SequencedTransaction(run[i])
    decreases |run|
  {
    if run == [] then 0
    else
      var init, t := run[..|run| - 1], run[|run| - 1];
      Writes(store, init, labelRule) + if CanApply(StoreAfter(store, init), t) then CountParent(t, labelRule) else 0
  }

  /** Transaction `i` of the run is refused, or writes the parent at most once. */
  ghost predicate AtMostOnce(store: Store, run: seq<Transaction>, labelRule: Label, i: nat)
    requires Sequenced(store) && i < |run| && forall j :: 0 <= j < |run| ==> SequencedTransaction(run[j])
  {
    CanApply(StoreAfter(store, run[..i]), run[i]) ==> CountParent(run[i], labelRule) <= 1
  }

  lemma AtMostOnceBefore(store: Store, run: seq<Transaction>, labelRule: Label, i: nat)
    requires Sequenced(store) && i < |run| - 1 && forall j :: 0 <= j < |run| ==> SequencedTransaction(run[j])
    ensures AtMostOnce(store, run[..|run| - 1], labelRule, i) <==> AtMostOnce(store, run, labelRule, i)
  {
    assert run[..|run| - 1][..i] == run[..i];
    hide CanApply, StoreAfter;
  }

  /** Every accepted write of the parent is counted exactly when no accepted transaction writes it twice. */
  lemma {:induction false} WritesCountedExactly(store: Store, run: seq<Transaction>, labelRule: Label)
    requires Sequenced(store) && forall i :: 0 <= i < |run| ==> SequencedTransaction(run[i])
    ensures Commits(store, run, labelRule) <= Writes(store, run, labelRule)
    ensures Commits(store, run, labelRule) == Writes(store, run, labelRule) <==>
              forall i :: 0 <= i < |run| ==> AtMostOnce(store, run, labelRule, i)
    decreases |run|
  {
    if run != [] {
      var init := run[..|run| - 1];
      WritesCountedExactly(store, init, labelRule);
      assert AtMostOnce(store, run, labelRule, |init|) <==>
             (CanApply(StoreAfter(store, init), run[|init|]) ==> CountParent(run[|init|], labelRule) <= 1);
      hide CanApply, StoreAfter, Sequenced, AtMostOnce, SequencedTransaction, CountParent;
      forall i | 0 <= i < |init|
        ensures AtMostOnce(store, init, labelRule, i) <==> AtMostOnce(store, run, labelRule, i)
      {
        AtMostOnceBefore(store, run, labelRule, i);
      }
    }
  }

  ghost predicate OrderlyRun(run: seq<Transaction>, labelRule: Label, m: nat) {
    forall i :: 0 <= i < |run| ==> OrderlyTransaction(run[i], labelRule, m)
  }

  /** After k commits the version of the parent has moved k on: no accepted write is lost or done twice. */
  lemma {:induction false} VersionCountsCommits(store: Store, run: seq<Transaction>, labelRule: Label, m: nat, first: nat)
    requires Sequenced(store) && first < m && ParentAt(store, labelRule, m, first) && OrderlyRun(run, labelRule, m)
    ensures ParentAt(StoreAfter(store, run), labelRule, m, (first + Commits(store, run, labelRule)) % m)
    decreases |run|
  {
    hide CanApply, PerformedAll, CountParent, Sequenced, SequencedTransaction, Orderly;
    if run == [] {
      WrapUnique(first, 0, first, m);
    } else {
      var init, t := run[..|run| - 1], run[|run| - 1];
      VersionCountsCommits(store, init, labelRule, m, first);
      var k := Commits(store, init, labelRule);
      if CanApply(StoreAfter(store, init), t) {
        CommitCounts(StoreAfter(store, init), t, labelRule, m, (first + k) % m);
        OneMore(first + k, m);
      }
    }
  }

  lemma OneMore(a: nat, m: nat)
    requires m > 0
    ensures (a % m + 1) % m == (a + 1) % m
  {
    if m > 1 {
      WrapOnce(a, 1, m);
      if a % m + 1 < m { WrapUnique(a % m + 1, 0, a % m + 1, m); } else { WrapUnique(m, 1, 0, m); }
    }
  }

  /** A transaction that still expects the first version is refused unless the commits went full circle. */
  lemma StaleIsRefused(store: Store, run: seq<Transaction>, labelRule: Label, m: nat, first: nat, t: Transaction, i: nat)
    requires Sequenced(store) && first < m && ParentAt(store, labelRule, m, first) && OrderlyRun(run, labelRule, m)
    requires i < |t| && t[i].parent.labelRule == labelRule && t[i].parent.expected == Some(first)
    ensures Lookup(StoreAfter(store, run), labelRule).Some?
    ensures Lookup(StoreAfter(store, run), labelRule).value.version.versionNumber == first <==> Commits(store, run, labelRule) % m == 0
    ensures CanApply(StoreAfter(store, run), t) ==> Commits(store, run, labelRule) % m == 0
  {
    VersionCountsCommits(store, run, labelRule, m, first);
    var k := Commits(store, run, labelRule);
    WrapOnce(k, first, m);
    assert first + k == k + first;
    if CanApply(StoreAfter(store, run), t) {
      assert CanPerform(StoreAfter(store, run), t[i]);
    }
  }

  // ---- what a transaction deletes ----

  lemma {:induction false} WrittenAppend(store: Store, a: seq<NewNodeVersion>, b: seq<NewNodeVersion>)
    ensures WrittenAll(store, a + b) == WrittenAll(WrittenAll(store, a), b)
    decreases |b|
  {
    hide Written;
    if b == [] {
      assert a + b == a;
    } else {
      WrittenAppend(store, a, b[..|b| - 1]);
      assert (a + b)[..|a + b| - 1] == a + b[..|b| - 1];
    }
  }

  lemma {:induction false} PerformedIsWritten(store: Store, t: Transaction)
    ensures PerformedAll(store, t) == WrittenAll(store, Changes(t))
    decreases |t|
  {
    if t != [] {
      PerformedIsWritten(store, t[..|t| - 1]);
      WrittenAppend(store, Changes(t[..|t| - 1]), [t[|t| - 1].parent] + t[|t| - 1].children);
    }
  }

  /** Change `j` deletes the label, and no later one touches it. */
  predicate DeletesLast(changes: seq<NewNodeVersion>, labelRule: Label, j: nat) {
    && j < |changes| && changes[j].node == None && !Spares(changes[j], labelRule)
    && forall k :: j < k < |changes| ==> Spares(changes[k], labelRule)
  }

  lemma {:induction false} WrittenSurvives(store: Store, changes: seq<NewNodeVersion>, labelRule: Label)
    requires labelRule in store
    ensures labelRule in WrittenAll(store, changes) <==> !exists j :: DeletesLast(changes, labelRule, j)
    decreases |changes|
  {
    if changes != [] {
      var init, last := changes[..|changes| - 1], changes[|changes| - 1];
      WrittenSurvives(store, init, labelRule);
      if Spares(last, labelRule) {
        SparedStays(WrittenAll(store, init), last, labelRule);
        forall j: nat ensures DeletesLast(changes, labelRule, j) <==> DeletesLast(init, labelRule, j) {
          SparedLast(init, last, labelRule, j);
        }
      } else if last.node == None {
        assert DeletesLast(changes, labelRule, |init|);
      } else {
        forall j: nat ensures !DeletesLast(changes, labelRule, j) {
          assert j < |init| ==> !Spares(changes[|init|], labelRule);
        }
      }
    }
  }

  lemma SparedLast(init: seq<NewNodeVersion>, last: NewNodeVersion, labelRule: Label, j: nat)
    requires Spares(last, labelRule)
    ensures DeletesLast(init + [last], labelRule, j) <==> DeletesLast(init, labelRule, j)
  {
    hide Spares;
    var all := init + [last];
    assert all[|init|] == last && forall k :: 0 <= k < |init| ==> all[k] == init[k];
  }

  /**
   A stored label survives an accepted transaction exactly when the last change that touches it, if there is
   one, is a write.  As the parent of a sub-transaction it is never deleted; as a child it may be.
   */
  lemma StoredSurvivesExactly(store: Store, t: Transaction, labelRule: Label)
    requires Sequenced(store) && CanApply(store, t) && labelRule in store
    ensures labelRule in PerformedAll(store, t) <==> !exists j :: DeletesLast(Changes(t), labelRule, j)
    ensures forall i :: 0 <= i < |t| && t[i].parent.labelRule == labelRule ==> t[i].parent.node.Some?
  {
    PerformedIsWritten(store, t);
    WrittenSurvives(store, Changes(t), labelRule);
    hide DeletesLast, PerformedAll, WrittenAll, Changes;
    forall i | 0 <= i < |t| && t[i].parent.labelRule == labelRule ensures t[i].parent.node.Some? {
      assert CanPerform(store, t[i]);
    }
  }

  /** A sub-transaction that writes a stored parent and names it again as a child to delete deletes it. */
  lemma ParentDeletedAsChild(store: Store, sub: SubTransaction, labelRule: Label)
    requires Sequenced(store) && labelRule in store && sub.parent.labelRule == labelRule
    requires sub.parent.expected == Some(store[labelRule].version.versionNumber) && sub.parent.node.Some?
    requires sub.parent.node.value.version.versionNumber == Incremented(store[labelRule].version).versionNumber
    requires sub.children == [NewNodeVersion(None, labelRule, None)]
    ensures CanApply(store, [sub]) && labelRule !in PerformedAll(store, [sub])
  {
    var changes := [sub.parent] + sub.children;
    assert changes[|changes| - 1] == sub.children[0];
    assert [sub][..0] == [];
  }

  // ---- which children are checked ----

  ghost predicate ChildrenExpected(store: Store, sub: SubTransaction) {
    forall i :: 0 <= i < |sub.children| ==> ChildExpected(store, sub.children[i])
  }

  /** Acceptance vouches for the children of a parent exactly when that parent is stored. */
  lemma ChildrenCheckedExactly(store: Store, labelRule: Label)
    requires Sequenced(store)
    ensures (forall sub: SubTransaction :: sub.parent.labelRule == labelRule && CanPerform(store, sub) ==>
               ChildrenExpected(store, sub))
            <==> labelRule in store
  {
    if labelRule !in store {
      var child := NewNodeVersion(Some(0), labelRule, None);
      var sub := SubTransaction(NewNodeVersion(None, labelRule, None), [child]);
      assert !ChildExpected(store, sub.children[0]);
      assert CanPerform(store, sub) && !ChildrenExpected(store, sub);
    }
  }

  /** So creating a parent replaces a stored child, whatever version it has by now. */
  lemma CreateReplacesChild(store: Store, sub: SubTransaction, i: nat)
    requires Sequenced(store) && sub.parent.labelRule !in store && sub.parent.expected == None
    requires i < |sub.children| && sub.children[i].node.Some?
    requires forall j :: i < j < |sub.children| ==> Spares(sub.children[j], sub.children[i].node.value.labelRule)
    ensures CanApply(store, [sub])
    ensures var child := sub.children[i].node.value;
            Lookup(PerformedAll(store, [sub]), child.labelRule) == Some(child)
  {
    var changes, child := [sub.parent] + sub.children, sub.children[i].node.value;
    assert forall k :: 0 <= k < |sub.children| ==> changes[k + 1] == sub.children[k];
    forall k | i + 2 <= k < |changes| ensures Spares(changes[k], child.labelRule) {
      assert changes[k] == sub.children[k - 1];
    }
    SparedByAll(store, changes, child.labelRule, i + 2);
    assert changes[..i + 2][|changes[..i + 2]| - 1] == sub.children[i];
    assert [sub][..0] == [];
    assert PerformedAll(store, [sub]) == WrittenAll(store, changes);
  }
}
