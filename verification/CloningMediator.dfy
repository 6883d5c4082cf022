/** Two trees that a mediator keeps alike, by writing the changes of each to the other. */
module CloningMediators {
  import opened TreeModel
  import opened MemoryTrees
  import opened Transactions
  import opened Versions

  // ---- what the callback does to the other tree ----

  /** In versioned mode a node that is older than the one it would replace is not mirrored. */
  function MirroredNode(versioned: bool, to: Store, node: TreeNode): Store {
    var there := Lookup(to, node.labelRule);
    if there == Some(node) || (versioned && there.Some? && Older(node.version, there.value.version)) then to
    else to[node.labelRule := node]
  }

  /** A delete is mirrored only where its own label is stored. */
  function Mirrored(deletion: Deletion, versioned: bool, to: Store, labelRule: Label, from: Option<TreeNode>): Store {
    match from
    case None => if labelRule in to then Deleted(deletion, to, labelRule) else to
    case Some(node) => MirroredNode(versioned, to, node)
  }

  function MirroredAll(versioned: bool, to: Store, nodes: seq<TreeNode>): Store
    decreases |nodes|
  {
    if nodes == [] then to
    else MirroredNode(versioned, MirroredAll(versioned, to, nodes[..|nodes| - 1]), nodes[|nodes| - 1])
  }

  function MirroredChanges(versioned: bool, to: Store, changes: seq<NewNodeVersion>): Store
    decreases |changes|
  {
    if changes == [] then to
    else
      var last := changes[|changes| - 1];
      Mirrored(ByChildNames, versioned, MirroredChanges(versioned, to, changes[..|changes| - 1]), last.labelRule, last.node)
  }

  /** What the mediator writes to the other side for one change: at most one call. */
  function MirrorWrites(versioned: bool, to: Store, labelRule: Label, from: Option<TreeNode>): seq<TreeWrite> {
    var there := Lookup(to, labelRule);
    if there == from then []
    else if from.None? then [Deleting(labelRule)]
    else if versioned && there.Some? && Older(from.value.version, there.value.version) then []
    else [Upserting([from.value])]
  }

  /** For a list of nodes: one call to each that is not skipped when its turn comes, in order. */
  function MirrorAllWrites(versioned: bool, to: Store, nodes: seq<TreeNode>): seq<TreeWrite>
    decreases |nodes|
  {
    if nodes == [] then []
    else
      var init, last := nodes[..|nodes| - 1], nodes[|nodes| - 1];
      MirrorAllWrites(versioned, to, init)
      + MirrorWrites(versioned, MirroredAll(versioned, to, init), last.labelRule, Some(last))
  }

  function MirrorChangesWrites(versioned: bool, to: Store, changes: seq<NewNodeVersion>): seq<TreeWrite>
    decreases |changes|
  {
    if changes == [] then []
    else
      var init, last := changes[..|changes| - 1], changes[|changes| - 1];
      MirrorChangesWrites(versioned, to, init)
      + MirrorWrites(versioned, MirroredChanges(versioned, to, init), last.labelRule, last.node)
  }

  lemma NoChanges(versioned: bool, to: Store)
    ensures MirroredChanges(versioned, to, []) == to && MirrorChangesWrites(versioned, to, []) == []
  {
  }

  lemma ChangesNext(versioned: bool, to: Store, changes: seq<NewNodeVersion>, i: nat)
    requires i < |changes|
    ensures var now := MirroredChanges(versioned, to, changes[..i]);
            && MirroredChanges(versioned, to, changes[..i + 1]) ==
               Mirrored(ByChildNames, versioned, now, changes[i].labelRule, changes[i].node)
            && MirrorChangesWrites(versioned, to, changes[..i + 1]) ==
               MirrorChangesWrites(versioned, to, changes[..i])
               + MirrorWrites(versioned, now, changes[i].labelRule, changes[i].node)
  {
    assert changes[..i + 1][..i] == changes[..i];
  }

  lemma NothingToMirror(versioned: bool, to: Store)
    ensures MirroredAll(versioned, to, []) == to && MirrorAllWrites(versioned, to, []) == []
  {
  }

  lemma MirrorWritesNext(versioned: bool, to: Store, nodes: seq<TreeNode>, i: nat)
    requires i < |nodes|
    ensures MirrorAllWrites(versioned, to, nodes[..0]) == []
    ensures MirrorAllWrites(versioned, to, nodes[..i + 1]) ==
            MirrorAllWrites(versioned, to, nodes[..i])
            + MirrorWrites(versioned, MirroredAll(versioned, to, nodes[..i]), nodes[i].labelRule, Some(nodes[i]))
  {
    assert nodes[..i + 1][..i] == nodes[..i];
  }

  class CloningMediator {
    const a: MemoryTree
    const b: MemoryTree
    const versioned: bool
    var processingA: bool
    var processingB: bool

    constructor (a: MemoryTree, b: MemoryTree, versioned: bool)
      ensures this.a == a && this.b == b && this.versioned == versioned && Idle()
    {
      this.a, this.b, this.versioned := a, b, versioned;
      processingA, processingB := false, false;
    }

    predicate Idle()
      reads this
    {
      !processingA && !processingB
    }

    /** Whether a change on this side is one the mediator is writing. */
    predicate Suppressed(onA: bool)
      reads this
    {
      if onA then processingB else processingA
    }

    function Own(onA: bool): MemoryTree {
      if onA then a else b
    }

    /** The listener of one side: nothing happens while the other side is writing here. */
    method MediatorCallback(fromA: bool, labelRule: Label, from: Option<TreeNode>)
      requires a != b && (from.Some? ==> from.value.labelRule == labelRule)
      modifies this, a, b
      ensures Own(fromA).tree == old(Own(fromA).tree) && Own(fromA).writes == old(Own(fromA).writes)
      ensures Suppressed(fromA) == old(Suppressed(fromA)) && (old(Idle()) ==> Idle())
      ensures old(Suppressed(fromA)) ==>
                && processingA == old(processingA) && processingB == old(processingB)
                && Own(!fromA).tree == old(Own(!fromA).tree) && Own(!fromA).writes == old(Own(!fromA).writes)
      ensures !old(Suppressed(fromA)) ==>
                Own(!fromA).tree == Mirrored(ByChildNames, versioned, old(Own(!fromA).tree), labelRule, from)
      ensures !old(Suppressed(fromA)) ==>
                var there := Lookup(old(Own(!fromA).tree), labelRule);
                Own(!fromA).writes == old(Own(!fromA).writes) +
                if there == from then []
                else if from.None? then [Deleting(labelRule)]
                else if versioned && there.Some? && Older(from.value.version, there.value.version) then []
                else [Upserting([from.value])]
      decreases if Suppressed(fromA) then 0 else 1, 0
    {
      if Suppressed(fromA) {
        return;
      }
      SetProcessing(fromA, true);
      var to := Own(!fromA);
      var there := Lookup(to.tree, labelRule);
      if from == there {
        SetProcessing(fromA, false);
        return;
      }
      if from.None? {
        DeleteNode(!fromA, labelRule);
      } else if versioned {
        if there.None? || !Older(from.value.version, there.value.version) {
          UpsertedOne(to.tree, from.value);
          UpsertNode(!fromA, [from.value]);
        }
      } else {
        UpsertedOne(to.tree, from.value);
        UpsertNode(!fromA, [from.value]);
      }
      SetProcessing(fromA, false);
    }

    method SetProcessing(onA: bool, value: bool)
      modifies this
      ensures processingA == if onA then value else old(processingA)
      ensures processingB == if onA then old(processingB) else value
    {
      if onA { processingA := value; } else { processingB := value; }
    }

    /**
     A write to one side: all nodes are stored, then the listener hears of each.  The side that is written
     gets that one write and no echo of it; the other side ends up with every node mirrored in order.
     */
    method UpsertNode(onA: bool, nodes: seq<TreeNode>)
      requires a != b
      modifies this, a, b
      ensures Own(onA).tree == UpsertedAll(old(Own(onA).tree), nodes)
      ensures Own(onA).writes == old(Own(onA).writes) + [Upserting(nodes)]
      ensures Suppressed(onA) == old(Suppressed(onA)) && (old(Idle()) ==> Idle())
      ensures old(Suppressed(onA)) ==>
                && processingA == old(processingA) && processingB == old(processingB)
                && Own(!onA).tree == old(Own(!onA).tree) && Own(!onA).writes == old(Own(!onA).writes)
      ensures !old(Suppressed(onA)) ==>
                && Own(!onA).tree == MirroredAll(versioned, old(Own(!onA).tree), nodes)
                && Own(!onA).writes == old(Own(!onA).writes) + MirrorAllWrites(versioned, old(Own(!onA).tree), nodes)
      ensures old(Idle()) ==> (a.tree, b.tree) == Step(ByChildNames, versioned, old((a.tree, b.tree)), Upsert(onA, nodes))
      decreases if Suppressed(onA) then 0 else 1, 2
    {
      Own(onA).UpsertNode(nodes);
      hide MirroredAll, MirrorAllWrites, UpsertedAll;
      TellNodes(onA, nodes);
    }

    /** The listener hears of every node. */
    method TellNodes(onA: bool, nodes: seq<TreeNode>)
      requires a != b
      modifies this, a, b
      ensures Own(onA).tree == old(Own(onA).tree) && Own(onA).writes == old(Own(onA).writes)
      ensures Suppressed(onA) == old(Suppressed(onA)) && (old(Idle()) ==> Idle())
      ensures old(Suppressed(onA)) ==>
                && processingA == old(processingA) && processingB == old(processingB)
                && Own(!onA).tree == old(Own(!onA).tree) && Own(!onA).writes == old(Own(!onA).writes)
      ensures !old(Suppressed(onA)) ==>
                && Own(!onA).tree == MirroredAll(versioned, old(Own(!onA).tree), nodes)
                && Own(!onA).writes == old(Own(!onA).writes) + MirrorAllWrites(versioned, old(Own(!onA).tree), nodes)
      decreases if Suppressed(onA) then 0 else 1, 1
    {
      hide MirroredAll, MirrorAllWrites, MirroredNode;
      if |nodes| > 0 {
        MirrorWritesNext(versioned, old(Own(!onA).tree), nodes, 0);
        MirroredNext(versioned, old(Own(!onA).tree), nodes, 0);
      } else {
        NothingToMirror(versioned, old(Own(!onA).tree));
      }
      assert nodes[..0] == [];
      for i := 0 to |nodes|
        invariant Own(onA).tree == old(Own(onA).tree) && Own(onA).writes == old(Own(onA).writes)
        invariant Suppressed(onA) == old(Suppressed(onA)) && (old(Idle()) ==> Idle())
        invariant old(Suppressed(onA)) ==>
                    && processingA == old(processingA) && processingB == old(processingB)
                    && Own(!onA).tree == old(Own(!onA).tree) && Own(!onA).writes == old(Own(!onA).writes)
        invariant !old(Suppressed(onA)) ==>
                    && Own(!onA).tree == MirroredAll(versioned, old(Own(!onA).tree), nodes[..i])
                    && Own(!onA).writes ==
                       old(Own(!onA).writes) + MirrorAllWrites(versioned, old(Own(!onA).tree), nodes[..i])
      {
        MirrorWritesNext(versioned, old(Own(!onA).tree), nodes, i);
        MirroredNext(versioned, old(Own(!onA).tree), nodes, i);
        MediatorCallback(onA, nodes[i].labelRule, Some(nodes[i]));
      }
      assert nodes[..|nodes|] == nodes;
    }

    method DeleteNode(onA: bool, labelRule: Label)
      requires a != b
      modifies this, a, b
      ensures Own(onA).tree == Removed(old(Own(onA).tree), labelRule)
      ensures Own(onA).writes == old(Own(onA).writes) + [Deleting(labelRule)]
      ensures Suppressed(onA) == old(Suppressed(onA)) && (old(Idle()) ==> Idle())
      ensures old(Suppressed(onA)) ==>
                && processingA == old(processingA) && processingB == old(processingB)
                && Own(!onA).tree == old(Own(!onA).tree) && Own(!onA).writes == old(Own(!onA).writes)
      ensures !old(Suppressed(onA)) ==>
                && Own(!onA).tree == Mirrored(ByChildNames, versioned, old(Own(!onA).tree), labelRule, None)
                && Own(!onA).writes == old(Own(!onA).writes) +
                   if labelRule in old(Own(!onA).tree) then [Deleting(labelRule)] else []
      ensures old(Idle()) ==>
                (a.tree, b.tree) == Step(ByChildNames, versioned, old((a.tree, b.tree)), Delete(onA, labelRule))
      decreases if Suppressed(onA) then 0 else 1, 1
    {
      var _ := Own(onA).DeleteNode(labelRule);
      MediatorCallback(onA, labelRule, None);
    }

    /** The listener hears of every change. */
    method TellChanges(onA: bool, changes: seq<NewNodeVersion>)
      requires a != b && Idle() && forall i :: 0 <= i < |changes| ==> OwnLabel(changes[i])
      modifies this, a, b
      ensures Idle()
      ensures Own(onA).tree == old(Own(onA).tree) && Own(onA).writes == old(Own(onA).writes)
      ensures Own(!onA).tree == MirroredChanges(versioned, old(Own(!onA).tree), changes)
      ensures Own(!onA).writes == old(Own(!onA).writes) + MirrorChangesWrites(versioned, old(Own(!onA).tree), changes)
    {
      ghost var start, told := Own(!onA).tree, Own(!onA).writes;
      NoChanges(versioned, start);
      assert changes[..0] == [];
      hide MirroredChanges, MirrorChangesWrites, MirroredNode, Mirrored;
      for i := 0 to |changes|
        invariant Idle()
        invariant Own(onA).tree == old(Own(onA).tree) && Own(onA).writes == old(Own(onA).writes)
        invariant Own(!onA).tree == MirroredChanges(versioned, start, changes[..i])
        invariant Own(!onA).writes == told + MirrorChangesWrites(versioned, start, changes[..i])
      {
        assert OwnLabel(changes[i]);
        ChangesNext(versioned, start, changes, i);
        ghost var now := Own(!onA).writes;
        MediatorCallback(onA, changes[i].labelRule, changes[i].node);
        assert Own(!onA).writes == now +
          MirrorWrites(versioned, MirroredChanges(versioned, start, changes[..i]), changes[i].labelRule, changes[i].node);
      }
      assert changes[..|changes|] == changes;
    }

    /** A transaction on one side: all changes are made, then the listener hears of each. */
    method ApplyTransaction(onA: bool, t: Transaction) returns (thrown: bool)
      requires a != b && Idle() && Sequenced(Own(onA).tree) && OwnLabels(t)
      modifies this, a, b
      ensures Idle()
      ensures thrown <==> !CanApply(old(Own(onA).tree), t)
      ensures thrown ==>
                && Own(onA).tree == old(Own(onA).tree) && Own(!onA).tree == old(Own(!onA).tree)
                && Own(onA).writes == old(Own(onA).writes) && Own(!onA).writes == old(Own(!onA).writes)
      ensures !thrown ==>
                (a.tree, b.tree) == Run(ByChildNames, versioned, old((a.tree, b.tree)), ChangeCommands(onA, Changes(t)))
      ensures !thrown ==>
                && Own(onA).writes == old(Own(onA).writes) + [Transacting(t)]
                && Own(!onA).writes ==
                   old(Own(!onA).writes) + MirrorChangesWrites(versioned, old(Own(!onA).tree), Changes(t))
    {
      thrown := Own(onA).ApplyTransaction(t);
      if thrown {
        return;
      }
      hide MirroredChanges, MirrorChangesWrites, Run, ChangesMade, AllChanged, CanApply;
      TellChanges(onA, Changes(t));
      TransactionIsChanges(old(Own(onA).tree), t);
      ChangesRun(versioned, onA, old(a.tree), old(b.tree), Changes(t));
    }
  }

  lemma UpsertedOne(tree: Store, node: TreeNode)
    ensures UpsertedAll(tree, [node]) == tree[node.labelRule := node]
  {
    assert [node][..0] == [];
  }

  lemma MirroredNext(versioned: bool, to: Store, nodes: seq<TreeNode>, i: nat)
    requires i < |nodes|
    ensures MirroredAll(versioned, to, nodes[..0]) == to
    ensures MirroredAll(versioned, to, nodes[..i + 1]) ==
            MirroredNode(versioned, MirroredAll(versioned, to, nodes[..i]), nodes[i])
  {
    assert nodes[..i + 1][..i] == nodes[..i];
  }

  // ---- whole runs ----

  /** A write of one side; an erase is a delete that a transaction makes. */
  datatype Command =
    | Upsert(onA: bool, nodes: seq<TreeNode>)
    | Delete(onA: bool, labelRule: Label)
    | Erase(onA: bool, labelRule: Label)

  /** What a command makes of the tree it is for; the in-memory tree erases the one key. */
  function Commanded(deletion: Deletion, tree: Store, command: Command): Store {
    match command
    case Upsert(_, nodes) => UpsertedAll(tree, nodes)
    case Delete(_, labelRule) => Deleted(deletion, tree, labelRule)
    case Erase(_, labelRule) => if deletion == ByPath then Deleted(deletion, tree, labelRule) else tree - {labelRule}
  }

  /** What the idle mediator makes of the other tree. */
  function Echoed(deletion: Deletion, versioned: bool, tree: Store, command: Command): Store {
    match command
    case Upsert(_, nodes) => MirroredAll(versioned, tree, nodes)
    case Delete(_, labelRule) => Mirrored(deletion, versioned, tree, labelRule, None)
    case Erase(_, labelRule) => Mirrored(deletion, versioned, tree, labelRule, None)
  }

  /** The commands as one tree alone would carry them out. */
  function Replayed(deletion: Deletion, tree: Store, commands: seq<Command>): Store
    decreases |commands|
  {
    if commands == [] then tree
    else Commanded(deletion, Replayed(deletion, tree, commands[..|commands| - 1]), commands[|commands| - 1])
  }

  /** Both trees after a write to one of them through an idle mediator. */
  function Step(deletion: Deletion, versioned: bool, trees: (Store, Store), command: Command): (Store, Store) {
    if command.onA then (Commanded(deletion, trees.0, command), Echoed(deletion, versioned, trees.1, command))
    else (Echoed(deletion, versioned, trees.0, command), Commanded(deletion, trees.1, command))
  }

  function Run(deletion: Deletion, versioned: bool, trees: (Store, Store), commands: seq<Command>): (Store, Store)
    decreases |commands|
  {
    if commands == [] then trees
    else Step(deletion, versioned, Run(deletion, versioned, trees, commands[..|commands| - 1]), commands[|commands| - 1])
  }

  function ChangeCommand(onA: bool, change: NewNodeVersion): Command {
    match change.node
    case Some(node) => Upsert(onA, [node])
    case None => Erase(onA, change.labelRule)
  }

  /** A transaction as the commands its changes amount to. */
  function ChangeCommands(onA: bool, changes: seq<NewNodeVersion>): (r: seq<Command>)
    ensures |r| == |changes| && forall i :: 0 <= i < |r| ==> r[i] == ChangeCommand(onA, changes[i])
  {
    seq(|changes|, i requires 0 <= i < |changes| => ChangeCommand(onA, changes[i]))
  }

  /** Making all changes before telling of any comes to the same as telling of each at once. */
  lemma {:induction false} ChangesRun(versioned: bool, onA: bool, a: Store, b: Store, changes: seq<NewNodeVersion>)
    ensures Run(ByChildNames, versioned, (a, b), ChangeCommands(onA, changes)) ==
            if onA then (ChangesMade(a, changes), MirroredChanges(versioned, b, changes))
            else (MirroredChanges(versioned, a, changes), ChangesMade(b, changes))
    decreases |changes|
  {
    hide Removed, MirroredNode;
    if changes != [] {
      var init, last := changes[..|changes| - 1], changes[|changes| - 1];
      ChangesRun(versioned, onA, a, b, init);
      assert ChangeCommands(onA, changes)[..|init|] == ChangeCommands(onA, init);
      if last.node.Some? {
        UpsertedOne(ChangesMade(if onA then a else b, init), last.node.value);
        MirroredOne(versioned, MirroredChanges(versioned, if onA then b else a, init), last.node.value);
      }
    }
  }

  lemma MirroredOne(versioned: bool, tree: Store, node: TreeNode)
    ensures MirroredAll(versioned, tree, [node]) == MirroredNode(versioned, tree, node)
  {
    assert [node][..0] == [];
  }

  /** Without versions the mirror of a list of nodes is the upsert of them, skipping none that matters. */
  lemma {:induction false} UnversionedIsUpsert(to: Store, nodes: seq<TreeNode>)
    ensures MirroredAll(false, to, nodes) == UpsertedAll(to, nodes)
    decreases |nodes|
  {
    if nodes != [] {
      UnversionedIsUpsert(to, nodes[..|nodes| - 1]);
      var before, last := UpsertedAll(to, nodes[..|nodes| - 1]), nodes[|nodes| - 1];
      if Lookup(before, last.labelRule) == Some(last) { assert before[last.labelRule := last] == before; }
    }
  }

  // ---- versioned runs ----

  lemma {:induction false} MirrorKeepsOthers(versioned: bool, to: Store, nodes: seq<TreeNode>, i: nat, key: Label)
    requires i <= |nodes| && forall j :: i <= j < |nodes| ==> nodes[j].labelRule != key
    ensures Lookup(MirroredAll(versioned, to, nodes), key) == Lookup(MirroredAll(versioned, to, nodes[..i]), key)
    ensures Lookup(UpsertedAll(to, nodes), key) == Lookup(UpsertedAll(to, nodes[..i]), key)
    decreases |nodes|
  {
    if i == |nodes| {
      assert nodes[..i] == nodes;
    } else {
      var init := nodes[..|nodes| - 1];
      MirrorKeepsOthers(versioned, to, init, i, key);
      assert init[..i] == nodes[..i] && nodes[|nodes| - 1].labelRule != key;
    }
  }

  /** A mirrored list of nodes never replaces a node by an older one, at any of its steps. */
  lemma VersionedNeverOlder(to: Store, nodes: seq<TreeNode>, i: nat, key: Label)
    requires i < |nodes| && key in MirroredAll(true, to, nodes[..i])
    ensures var before, after := MirroredAll(true, to, nodes[..i]), MirroredAll(true, to, nodes[..i + 1]);
            key in after && !Older(after[key].version, before[key].version)
  {
    MirroredNext(true, to, nodes, i);
  }

  predicate LastOfLabel(nodes: seq<TreeNode>, i: nat) {
    i < |nodes| && forall j :: i < j < |nodes| ==> nodes[j].labelRule != nodes[i].labelRule
  }

  /** Node `i` is not older than what the mirror has under its label when its turn comes. */
  predicate KeepsUpAt(to: Store, nodes: seq<TreeNode>, i: nat)
    requires i < |nodes|
  {
    var there := Lookup(MirroredAll(true, to, nodes[..i]), nodes[i].labelRule);
    there.Some? ==> !Older(nodes[i].version, there.value.version)
  }

  lemma LastDecides(to: Store, nodes: seq<TreeNode>, i: nat)
    requires LastOfLabel(nodes, i)
    ensures Lookup(UpsertedAll(to, nodes), nodes[i].labelRule) == Some(nodes[i])
    ensures Lookup(MirroredAll(true, to, nodes), nodes[i].labelRule) == Some(nodes[i]) <==> KeepsUpAt(to, nodes, i)
  {
    MirrorKeepsOthers(true, to, nodes, i + 1, nodes[i].labelRule);
    MirroredNext(true, to, nodes, i);
    assert nodes[..i + 1][..i] == nodes[..i];
  }

  lemma {:induction false} LastOf(nodes: seq<TreeNode>, key: Label) returns (i: nat)
    requires exists j :: 0 <= j < |nodes| && nodes[j].labelRule == key
    ensures LastOfLabel(nodes, i) && nodes[i].labelRule == key
    decreases |nodes|
  {
    if nodes[|nodes| - 1].labelRule == key {
      i := |nodes| - 1;
    } else {
      var j :| 0 <= j < |nodes| && nodes[j].labelRule == key;
      assert nodes[..|nodes| - 1][j].labelRule == key;
      i := LastOf(nodes[..|nodes| - 1], key);
    }
  }

  ghost predicate KeepsUp(to: Store, nodes: seq<TreeNode>) {
    forall i: nat | LastOfLabel(nodes, i) :: KeepsUpAt(to, nodes, i)
  }

  /** The mirror of a list equals the list exactly when no node that stays is older than what it replaces. */
  lemma VersionedListExactly(to: Store, nodes: seq<TreeNode>)
    ensures MirroredAll(true, to, nodes) == UpsertedAll(to, nodes) <==> KeepsUp(to, nodes)
  {
    hide MirroredAll, UpsertedAll, KeepsUpAt;
    forall i: nat | LastOfLabel(nodes, i)
      ensures Lookup(MirroredAll(true, to, nodes), nodes[i].labelRule) == Lookup(UpsertedAll(to, nodes), nodes[i].labelRule)
              <==> KeepsUpAt(to, nodes, i)
    {
      LastDecides(to, nodes, i);
    }
    if KeepsUp(to, nodes) {
      forall key ensures Lookup(MirroredAll(true, to, nodes), key) == Lookup(UpsertedAll(to, nodes), key) {
        if exists j :: 0 <= j < |nodes| && nodes[j].labelRule == key {
          var i := LastOf(nodes, key);
        } else {
          MirrorKeepsOthers(true, to, nodes, 0, key);
          NothingMirrored(to, nodes);
        }
      }
      SameLookups(MirroredAll(true, to, nodes), UpsertedAll(to, nodes));
    }
  }

  lemma NothingMirrored(to: Store, nodes: seq<TreeNode>)
    ensures MirroredAll(true, to, nodes[..0]) == to == UpsertedAll(to, nodes[..0])
  {
  }

  lemma SameLookups(a: Store, b: Store)
    requires forall key :: Lookup(a, key) == Lookup(b, key)
    ensures a == b
  {
    forall key ensures key in a <==> key in b {
      assert Lookup(a, key) == Lookup(b, key);
    }
    forall key | key in a ensures a[key] == b[key] {
      assert Lookup(a, key) == Lookup(b, key);
    }
  }

  /** A delete by path of a label that is not stored, while something below it is. */
  ghost predicate HitsBelow(tree: Store, labelRule: Label) {
    labelRule !in tree && exists key :: key in tree && InSubtree(labelRule, key)
  }

  /**
   The mirror does the same: an upsert under versions keeps up, a delete by path hits a stored label or nothing
   at all, and a node that a transaction takes from the in-memory tree has no stored child.
   */
  ghost predicate Followed(deletion: Deletion, versioned: bool, tree: Store, command: Command) {
    match command
    case Upsert(_, nodes) => versioned ==> KeepsUp(tree, nodes)
    case Delete(_, labelRule) => deletion == ByPath ==> !HitsBelow(tree, labelRule)
    case Erase(_, labelRule) => if deletion == ByPath then !HitsBelow(tree, labelRule) else !LeavesChildren(tree, labelRule)
  }

  /** A delete by path changes a tree without its label exactly when something is stored below the label. */
  lemma PathDeleteExactly(tree: Store, labelRule: Label)
    ensures Mirrored(ByPath, true, tree, labelRule, None) == DeletedSubtree(tree, labelRule)
            <==> !HitsBelow(tree, labelRule)
  {
    if HitsBelow(tree, labelRule) {
      var key :| key in tree && InSubtree(labelRule, key);
      assert key !in DeletedSubtree(tree, labelRule);
    } else if labelRule !in tree {
      assert DeletedSubtree(tree, labelRule) == tree;
    }
  }

  lemma EchoExactly(deletion: Deletion, versioned: bool, tree: Store, command: Command)
    ensures Echoed(deletion, versioned, tree, command) == Commanded(deletion, tree, command)
            <==> Followed(deletion, versioned, tree, command)
  {
    hide KeepsUp, MirroredAll, UpsertedAll, HitsBelow, LeavesChildren;
    if command.Upsert? {
      if versioned { VersionedListExactly(tree, command.nodes); } else { UnversionedIsUpsert(tree, command.nodes); }
    } else if deletion == ByPath {
      PathDeleteExactly(tree, command.labelRule);
    } else if command.Erase? {
      EraseExactly(tree, command.labelRule);
    } else {
      assert command.labelRule !in tree ==> Removed(tree, command.labelRule) == tree;
    }
  }

  lemma EraseExactly(tree: Store, labelRule: Label)
    ensures Mirrored(ByChildNames, true, tree, labelRule, None) == tree - {labelRule} <==> !LeavesChildren(tree, labelRule)
  {
    if labelRule in tree { RemovedAlone(tree, labelRule); } else { assert tree - {labelRule} == tree; }
  }

  ghost predicate EqualAfter(deletion: Deletion, versioned: bool, tree: Store, commands: seq<Command>, i: nat)
    requires i <= |commands|
  {
    var trees := Run(deletion, versioned, (tree, tree), commands[..i]);
    trees.0 == trees.1
  }

  ghost predicate FollowedAt(deletion: Deletion, versioned: bool, tree: Store, commands: seq<Command>, i: nat)
    requires i < |commands|
  {
    Followed(deletion, versioned, Replayed(deletion, tree, commands[..i]), commands[i])
  }

  /** Both trees are what one tree alone would be. */
  ghost predicate AsOne(deletion: Deletion, versioned: bool, tree: Store, commands: seq<Command>) {
    var alone := Replayed(deletion, tree, commands);
    Run(deletion, versioned, (tree, tree), commands) == (alone, alone)
  }

  lemma RunFurther(deletion: Deletion, versioned: bool, tree: Store, commands: seq<Command>, i: nat)
    requires i < |commands| && AsOne(deletion, versioned, tree, commands[..i])
    ensures EqualAfter(deletion, versioned, tree, commands, i + 1) <==> FollowedAt(deletion, versioned, tree, commands, i)
    ensures EqualAfter(deletion, versioned, tree, commands, i + 1) ==> AsOne(deletion, versioned, tree, commands[..i + 1])
  {
    assert commands[..i + 1][..i] == commands[..i];
    EchoExactly(deletion, versioned, Replayed(deletion, tree, commands[..i]), commands[i]);
    hide Commanded, Echoed, Followed;
  }

  lemma {:induction false} RunUpTo(deletion: Deletion, versioned: bool, tree: Store, commands: seq<Command>, n: nat)
    requires n <= |commands|
    ensures (forall i :: 0 <= i <= n ==> EqualAfter(deletion, versioned, tree, commands, i))
            <==> (forall i :: 0 <= i < n ==> FollowedAt(deletion, versioned, tree, commands, i))
    ensures (forall i :: 0 <= i <= n ==> EqualAfter(deletion, versioned, tree, commands, i)) ==>
              AsOne(deletion, versioned, tree, commands[..n])
  {
    if n == 0 {
      assert commands[..0] == [] && EqualAfter(deletion, versioned, tree, commands, 0);
    } else {
      RunUpTo(deletion, versioned, tree, commands, n - 1);
      hide EqualAfter, FollowedAt, AsOne;
      if forall i :: 0 <= i <= n - 1 ==> EqualAfter(deletion, versioned, tree, commands, i) {
        RunFurther(deletion, versioned, tree, commands, n - 1);
      }
    }
  }

  /**
   Two equal trees, over files or in memory, are equal after every command of a run exactly when the mirror
   could follow every command; then both are what one tree alone would be.
   */
  lemma RunStaysEqualExactly(deletion: Deletion, versioned: bool, tree: Store, commands: seq<Command>)
    ensures (forall i :: 0 <= i <= |commands| ==> EqualAfter(deletion, versioned, tree, commands, i))
            <==> (forall i :: 0 <= i < |commands| ==> FollowedAt(deletion, versioned, tree, commands, i))
    ensures (forall i :: 0 <= i < |commands| ==> FollowedAt(deletion, versioned, tree, commands, i)) ==>
              AsOne(deletion, versioned, tree, commands)
  {
    RunUpTo(deletion, versioned, tree, commands, |commands|);
    assert commands[..|commands|] == commands;
  }

  /** In memory, without versions and transactions, the trees stay equal under any run of writes on either side. */
  lemma RunStaysEqual(tree: Store, commands: seq<Command>)
    requires forall i :: 0 <= i < |commands| ==> !commands[i].Erase?
    ensures Run(ByChildNames, false, (tree, tree), commands)
            == (Replayed(ByChildNames, tree, commands), Replayed(ByChildNames, tree, commands))
  {
    RunStaysEqualExactly(ByChildNames, false, tree, commands);
    hide Run, Replayed;
    assert forall i :: 0 <= i < |commands| ==> FollowedAt(ByChildNames, false, tree, commands, i);
  }

  /** By path the mirror keeps what lies below a deleted label that is not stored itself. */
  lemma UnstoredDeleteIsSkipped(tree: Store, labelRule: Label, key: Label)
    requires labelRule !in tree && key in tree && InSubtree(labelRule, key)
    ensures var trees := Run(ByPath, false, (tree, tree), [Delete(true, labelRule)]);
            key !in trees.0 && trees.1 == tree
  {
    assert [Delete(true, labelRule)][..0] == [];
  }

  /** In memory the mirror loses the stored children of a node that a transaction deletes. */
  lemma ErasedChildrenAreLost(tree: Store, labelRule: Label)
    requires LeavesChildren(tree, labelRule)
    ensures var trees := Run(ByChildNames, false, (tree, tree), [Erase(true, labelRule)]);
            trees.0 == tree - {labelRule} && trees.1 == Removed(tree, labelRule) && trees.0 != trees.1
  {
    assert [Erase(true, labelRule)][..0] == [];
    RemovedAlone(tree, labelRule);
  }
}
