/** When two stores that replay the same writes agree: two guards a caller can check, each exact. */
module JournalAgreement {
  import opened TreeModel
  import opened MemoryTrees
  import opened JournalSpec

  // ---- two sides that take plain deletes alike ----

  /** The stores agree on every label a client can follow. */
  ghost predicate Alike(a: Store, b: Store) {
    forall labelRule :: Replicable(labelRule) ==> Lookup(a, labelRule) == Lookup(b, labelRule)
  }

  lemma ChainAlike(a: Store, b: Store, w: seq<Label>)
    requires WellKeyed(a) && Alike(a, b) && IsChain(a, w) && Replicable(w[|w| - 1])
    ensures IsChain(b, w)
  {
    hide AbsoluteChildNames;
    forall i | 0 <= i < |w| ensures w[i] in b && b[w[i]] == a[w[i]] {
      ChainGoesDown(a, w, i);
      assert Replicable(w[i]);
      assert Lookup(a, w[i]) == Lookup(b, w[i]);
    }
    forall i, j | 0 <= i && j == i + 1 < |w| ensures w[j] in AbsoluteChildNames(b[w[i]]) {
      assert w[j] in AbsoluteChildNames(a[w[i]]);
    }
  }

  lemma TakesAlike(deletion: Deletion, a: Store, b: Store, labelRule: Label, key: Label)
    requires WellKeyed(a) && Alike(a, b) && Replicable(key) && Takes(deletion, a, labelRule, key)
    ensures Takes(deletion, b, labelRule, key)
  {
    if deletion == ByChildNames {
      var w :| IsChain(a, w) && w[0] == labelRule && w[|w| - 1] == key;
      ChainAlike(a, b, w);
    } else {
      assert Lookup(a, key) == Lookup(b, key);
    }
  }

  /** A delete that the server takes as one key, while a child of the node is stored. */
  predicate Orphans(deletion: Deletion, store: Store, w: ServerWrite) {
    && w.node == None && TakesOneKey(Server(deletion), w)
    && Replicable(w.labelRule) && LeavesChildren(store, w.labelRule)
  }

  lemma OwnKey(store: Store, key: Label)
    ensures Linked(store, key, key) <==> key in store
  {
    if key in store { assert IsChain(store, [key]); }
  }

  lemma SweepsAlike(deletion: Deletion, mine: Store, theirs: Store, w: ServerWrite, key: Label)
    requires WellKeyed(mine) && WellKeyed(theirs) && Alike(mine, theirs) && Replicable(key)
    requires !Orphans(deletion, theirs, w)
    ensures Sweeps(Client(deletion), mine, w, key) <==> Sweeps(Server(deletion), theirs, w, key)
  {
    hide LeavesChildren, Linked, Alike, WellKeyed;
    if w.node == None {
      TakesIsDeleted(deletion, theirs, w.labelRule, key);
      if Takes(deletion, mine, w.labelRule, key) { TakesAlike(deletion, mine, theirs, w.labelRule, key); }
      AlikeItself(mine, theirs);
      if Takes(deletion, theirs, w.labelRule, key) { TakesAlike(deletion, theirs, mine, w.labelRule, key); }
      LinkedBelow(theirs, w.labelRule);
      OwnKey(theirs, w.labelRule);
    }
  }

  lemma AlikeItself(a: Store, b: Store)
    ensures Alike(a, a) && (Alike(a, b) ==> Alike(b, a))
  {
  }

  /** The client takes the child along. */
  lemma OrphanIsLost(deletion: Deletion, mine: Store, theirs: Store, w: ServerWrite)
    requires WellKeyed(mine) && WellKeyed(theirs) && Alike(mine, theirs) && Orphans(deletion, theirs, w)
    ensures !Alike(Applied(Client(deletion), mine, w), Applied(Server(deletion), theirs, w))
  {
    var names := AbsoluteChildNames(theirs[w.labelRule]);
    var i :| 0 <= i < |names| && names[i] != w.labelRule && names[i] in theirs;
    ChildIsLinked(theirs, w.labelRule, i);
    var child := names[i];
    assert Replicable(child) by { assert child == w.labelRule + ("/" + theirs[w.labelRule].childNames[i]); }
    hide Linked, AbsoluteChildNames, Deleted;
    AlikeItself(mine, theirs);
    TakesAlike(ByChildNames, theirs, mine, w.labelRule, child);
    AppliedValue(Client(deletion), mine, w, child);
    AppliedValue(Server(deletion), theirs, w, child);
  }

  /** One write keeps the stores alike exactly when the server leaves no child behind. */
  lemma AppliedAlikeExactly(deletion: Deletion, mine: Store, theirs: Store, w: ServerWrite)
    requires WellKeyed(mine) && WellKeyed(theirs) && Alike(mine, theirs) && WellLabelled(w)
    ensures Alike(Applied(Client(deletion), mine, w), Applied(Server(deletion), theirs, w))
            <==> !Orphans(deletion, theirs, w)
  {
    hide Applied, Sweeps, Orphans, WellKeyed;
    if Orphans(deletion, theirs, w) {
      OrphanIsLost(deletion, mine, theirs, w);
    } else {
      forall key | Replicable(key)
        ensures Lookup(Applied(Client(deletion), mine, w), key) == Lookup(Applied(Server(deletion), theirs, w), key)
      {
        assert Lookup(mine, key) == Lookup(theirs, key);
        AppliedValue(Client(deletion), mine, w, key);
        AppliedValue(Server(deletion), theirs, w, key);
        SweepsAlike(deletion, mine, theirs, w, key);
      }
    }
  }

  /** After the first `i` writes client and server agree on every label a client can follow. */
  ghost predicate AlikeAfter(deletion: Deletion, store: Store, ws: seq<ServerWrite>, i: nat)
    requires i <= |ws|
  {
    Alike(Replay(Client(deletion), store, ws[..i]), Replay(Server(deletion), store, ws[..i]))
  }

  predicate OrphansAt(deletion: Deletion, store: Store, ws: seq<ServerWrite>, i: nat)
    requires i < |ws|
  {
    Orphans(deletion, Replay(Server(deletion), store, ws[..i]), ws[i])
  }

  lemma AlikeFurther(deletion: Deletion, store: Store, ws: seq<ServerWrite>, i: nat)
    requires WellKeyed(store) && AllWellLabelled(ws) && i < |ws| && AlikeAfter(deletion, store, ws, i)
    ensures AlikeAfter(deletion, store, ws, i + 1) <==> !OrphansAt(deletion, store, ws, i)
  {
    hide Applied, Orphans, WellKeyed, Alike;
    ReplayKeepsKeys(Client(deletion), store, ws[..i]);
    ReplayKeepsKeys(Server(deletion), store, ws[..i]);
    assert ws[..i + 1] == ws[..i] + [ws[i]];
    ReplayMore(Client(deletion), store, ws[..i], ws[i]);
    ReplayMore(Server(deletion), store, ws[..i], ws[i]);
    hide Replay;
    var mine, theirs := Replay(Client(deletion), store, ws[..i]), Replay(Server(deletion), store, ws[..i]);
    AppliedAlikeExactly(deletion, mine, theirs, ws[i]);
  }

  /**
   Client and server that take plain deletes alike agree all along, on every label a client can follow,
   exactly when no transaction of the in-memory tree deletes a node that has a stored child.
   */
  lemma {:induction false} ReplayAlikeExactly(deletion: Deletion, store: Store, ws: seq<ServerWrite>, n: nat)
    requires WellKeyed(store) && AllWellLabelled(ws) && n <= |ws|
    ensures (forall i :: 0 <= i <= n ==> AlikeAfter(deletion, store, ws, i))
            <==> (forall i :: 0 <= i < n ==> !OrphansAt(deletion, store, ws, i))
  {
    hide WellKeyed;
    if n == 0 {
      assert ws[..0] == [];
      AlikeItself(store, store);
      assert AlikeAfter(deletion, store, ws, 0);
    } else {
      ReplayAlikeExactly(deletion, store, ws, n - 1);
      hide AlikeAfter, OrphansAt;
      if forall i :: 0 <= i <= n - 1 ==> AlikeAfter(deletion, store, ws, i) { AlikeFurther(deletion, store, ws, n - 1); }
    }
  }

  // ---- any two sides, by the labels and kinds of the writes alone ----

  /** The write is of the label itself. */
  predicate Settles(w: ServerWrite, labelRule: Label) {
    w.labelRule == labelRule
  }

  predicate DeletesAbove(w: ServerWrite, labelRule: Label) {
    w.node == None && w.labelRule != labelRule && InSubtree(w.labelRule, labelRule)
  }

  /** The last write of the label itself. */
  function LastSettling(ws: seq<ServerWrite>, labelRule: Label): Option<ServerWrite> {
    if ws == [] then None
    else if Settles(ws[|ws| - 1], labelRule) then Some(ws[|ws| - 1])
    else LastSettling(ws[..|ws| - 1], labelRule)
  }

  predicate EndsDeleted(ws: seq<ServerWrite>, labelRule: Label) {
    LastSettling(ws, labelRule).Some? && LastSettling(ws, labelRule).value.node == None
  }

  /** Every delete above the label is followed by a write of the label, or finds it deleted. */
  predicate Settled(ws: seq<ServerWrite>, labelRule: Label) {
    ws != [] ==>
      var init, last := ws[..|ws| - 1], ws[|ws| - 1];
      if Settles(last, labelRule) then true
      else if DeletesAbove(last, labelRule) then EndsDeleted(init, labelRule)
      else Settled(init, labelRule)
  }

  /** A write of the label decides it on every side. */
  lemma AppliedSettles(side: Side, store: Store, w: ServerWrite, labelRule: Label)
    requires WellKeyed(store) && WellLabelled(w) && Replicable(labelRule) && Settles(w, labelRule)
    ensures Lookup(Applied(side, store, w), labelRule) == w.node
  {
    AppliedValue(side, store, w, labelRule);
    OwnKey(store, labelRule);
    hide Applied, Linked, WellKeyed;
  }

  /** A write neither of the label nor a delete above it leaves it alone. */
  lemma AppliedSpares(side: Side, store: Store, w: ServerWrite, labelRule: Label)
    requires WellKeyed(store) && WellLabelled(w) && Replicable(labelRule)
    requires !Settles(w, labelRule) && !DeletesAbove(w, labelRule)
    ensures Lookup(Applied(side, store, w), labelRule) == Lookup(store, labelRule)
  {
    AppliedValue(side, store, w, labelRule);
    hide Applied, Takes, WellKeyed;
  }

  /** A label that ends deleted is stored nowhere, whatever is deleted above it. */
  lemma {:induction false} EndsDeletedIsGone(side: Side, store: Store, ws: seq<ServerWrite>, labelRule: Label)
    requires WellKeyed(store) && AllWellLabelled(ws) && Replicable(labelRule) && EndsDeleted(ws, labelRule)
    ensures Lookup(Replay(side, store, ws), labelRule) == None
  {
    hide Applied, WellKeyed, Sweeps;
    var init, last := ws[..|ws| - 1], ws[|ws| - 1];
    var before := Replay(side, store, init);
    ReplayKeepsKeys(side, store, init);
    if Settles(last, labelRule) {
      AppliedSettles(side, before, last, labelRule);
    } else {
      EndsDeletedIsGone(side, store, init, labelRule);
      AppliedValue(side, before, last, labelRule);
    }
  }

  /** Without a write of the label a settled stretch of writes leaves it alone, all along. */
  lemma {:induction false} SettledLeavesAlone(side: Side, store: Store, ws: seq<ServerWrite>, labelRule: Label, k: nat)
    requires WellKeyed(store) && AllWellLabelled(ws) && Replicable(labelRule) && k <= |ws|
    requires Settled(ws, labelRule) && LastSettling(ws, labelRule) == None
    ensures Lookup(Replay(side, store, ws[..k]), labelRule) == Lookup(store, labelRule)
  {
    hide Applied, WellKeyed;
    if ws != [] {
      var init, last := ws[..|ws| - 1], ws[|ws| - 1];
      if k < |ws| {
        SettledLeavesAlone(side, store, init, labelRule, k);
        assert init[..k] == ws[..k];
      } else {
        SettledLeavesAlone(side, store, init, labelRule, |init|);
        assert init[..|init|] == init && ws[..k] == ws;
        ReplayKeepsKeys(side, store, init);
        AppliedSpares(side, Replay(side, store, init), last, labelRule);
      }
    }
  }

  /**
   Whatever deletes mean to either of two sides: they agree on a label after any settled stretch of writes
   that writes it, or that finds them agreed on it.
   */
  lemma {:induction false} SettledSidesAgree(side: Side, mine: Store, other: Side, theirs: Store,
                                             ws: seq<ServerWrite>, labelRule: Label)
    requires WellKeyed(mine) && WellKeyed(theirs) && AllWellLabelled(ws) && Replicable(labelRule)
    requires Settled(ws, labelRule)
    requires LastSettling(ws, labelRule).Some? || Lookup(mine, labelRule) == Lookup(theirs, labelRule)
    ensures Lookup(Replay(side, mine, ws), labelRule) == Lookup(Replay(other, theirs, ws), labelRule)
  {
    hide Applied, WellKeyed;
    if ws != [] {
      var init, last := ws[..|ws| - 1], ws[|ws| - 1];
      ReplayKeepsKeys(side, mine, init);
      ReplayKeepsKeys(other, theirs, init);
      if Settles(last, labelRule) {
        AppliedSettles(side, Replay(side, mine, init), last, labelRule);
        AppliedSettles(other, Replay(other, theirs, init), last, labelRule);
      } else if DeletesAbove(last, labelRule) {
        EndsDeletedIsGone(side, mine, ws, labelRule);
        EndsDeletedIsGone(other, theirs, ws, labelRule);
      } else {
        SettledSidesAgree(side, mine, other, theirs, init, labelRule);
        AppliedSpares(side, Replay(side, mine, init), last, labelRule);
        AppliedSpares(other, Replay(other, theirs, init), last, labelRule);
      }
    }
  }

  // ---- without the guard ----

  predicate SameKind(a: ServerWrite, b: ServerWrite) {
    a.labelRule == b.labelRule && a.byTransaction == b.byTransaction && (a.node == None <==> b.node == None)
  }

  /** The writes are of the same labels and kinds, whatever nodes they write. */
  ghost predicate SameKinds(a: seq<ServerWrite>, b: seq<ServerWrite>) {
    |a| == |b| && forall i :: 0 <= i < |a| ==> SameKind(a[i], b[i])
  }

  /** The same write of a node that names no children. */
  function Bare(w: ServerWrite): (r: ServerWrite)
    ensures WellLabelled(r)
  {
    match w.node
    case None => w
    case Some(node) => w.(node := Some(node.(labelRule := w.labelRule, childNames := [])))
  }

  function AllBare(ws: seq<ServerWrite>): (r: seq<ServerWrite>)
    ensures |r| == |ws| && forall i :: 0 <= i < |r| ==> r[i] == Bare(ws[i])
    ensures AllWellLabelled(r) && SameKinds(r, ws)
  {
    seq(|ws|, i requires 0 <= i < |ws| => Bare(ws[i]))
  }

  /** No stored node names this one as a child. */
  ghost predicate Unnamed(store: Store, labelRule: Label) {
    forall key :: key in store ==> labelRule !in AbsoluteChildNames(store[key])
  }

  lemma UnnamedIsUnlinked(store: Store, labelRule: Label, from: Label)
    requires Unnamed(store, labelRule) && Linked(store, from, labelRule)
    ensures from == labelRule
  {
    var w :| IsChain(store, w) && w[0] == from && w[|w| - 1] == labelRule;
    LastLink(store, w);
  }

  lemma LastLink(store: Store, w: seq<Label>)
    requires IsChain(store, w)
    ensures |w| > 1 ==> w[|w| - 1] in AbsoluteChildNames(store[w[|w| - 2]])
  {
  }

  lemma BareStaysUnnamed(store: Store, w: ServerWrite, labelRule: Label)
    requires WellKeyed(store) && Unnamed(store, labelRule)
    ensures Unnamed(Applied(Server(ByChildNames), store, Bare(w)), labelRule)
  {
    RemoveStaysInSubtree(store, w.labelRule);
  }

  /** A server that deletes along child names keeps an unnamed label unless the writes end with its delete. */
  lemma {:induction false} UnnamedStays(store: Store, ws: seq<ServerWrite>, labelRule: Label)
    requires WellKeyed(store) && Replicable(labelRule)
    requires Unnamed(store, labelRule) && labelRule in store
    ensures var after := Replay(Server(ByChildNames), store, AllBare(ws));
            WellKeyed(after) && Unnamed(after, labelRule) && (labelRule in after <==> !EndsDeleted(ws, labelRule))
  {
    hide WellKeyed, Applied, Unnamed;
    if ws != [] {
      var init, last := ws[..|ws| - 1], ws[|ws| - 1];
      UnnamedStays(store, init, labelRule);
      assert AllBare(ws) == AllBare(init) + [Bare(last)];
      ReplayMore(Server(ByChildNames), store, AllBare(init), Bare(last));
      var before := Replay(Server(ByChildNames), store, AllBare(init));
      hide Replay;
      BareStaysUnnamed(before, last, labelRule);
      AppliedKeepsKeys(Server(ByChildNames), before, Bare(last));
      if Settles(last, labelRule) {
        AppliedSettles(Server(ByChildNames), before, Bare(last), labelRule);
      } else {
        AppliedValue(Server(ByChildNames), before, Bare(last), labelRule);
        hide Linked;
        if Linked(before, last.labelRule, labelRule) { UnnamedIsUnlinked(before, labelRule, last.labelRule); }
      }
    }
  }

  /** A client that deletes by path loses every label that the writes do not settle. */
  lemma {:induction false} UnsettledIsLost(store: Store, ws: seq<ServerWrite>, labelRule: Label)
    requires WellKeyed(store) && Replicable(labelRule) && !Settled(ws, labelRule)
    ensures Lookup(Replay(Client(ByPath), store, AllBare(ws)), labelRule) == None
  {
    hide WellKeyed, Applied;
    var init, last := ws[..|ws| - 1], ws[|ws| - 1];
    assert AllBare(ws) == AllBare(init) + [Bare(last)];
    ReplayMore(Client(ByPath), store, AllBare(init), Bare(last));
    assert WellKeyed(Replay(Client(ByPath), store, AllBare(init))) by {
      ReplayKeepsKeys(Client(ByPath), store, AllBare(init));
    }
    var before := Replay(Client(ByPath), store, AllBare(init));
    AppliedValue(Client(ByPath), before, Bare(last), labelRule);
    if !DeletesAbove(last, labelRule) { UnsettledIsLost(store, init, labelRule); }
  }

  lemma {:induction false} EndsDeletedIsSettled(ws: seq<ServerWrite>, labelRule: Label)
    requires EndsDeleted(ws, labelRule)
    ensures Settled(ws, labelRule)
  {
    if !Settles(ws[|ws| - 1], labelRule) { EndsDeletedIsSettled(ws[..|ws| - 1], labelRule); }
  }

  /** The guard looks at labels and kinds alone. */
  lemma {:induction false} SameKindsSettled(a: seq<ServerWrite>, b: seq<ServerWrite>, labelRule: Label)
    requires SameKinds(a, b)
    ensures EndsDeleted(a, labelRule) <==> EndsDeleted(b, labelRule)
    ensures Settled(a, labelRule) <==> Settled(b, labelRule)
    decreases |a|
  {
    if a != [] {
      assert SameKind(a[|a| - 1], b[|b| - 1]);
      SameKindsSettled(a[..|a| - 1], b[..|b| - 1], labelRule);
    }
  }
}
