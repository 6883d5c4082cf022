/** The in-memory tree behind a simple backend. */
module MemoryTrees {
  import opened TreeModel
  import opened Transactions

  function AbsoluteChildNames(node: TreeNode): (r: seq<Label>)
    ensures |r| == |node.childNames|
    ensures forall i :: 0 <= i < |r| ==> r[i] == node.labelRule + "/" + node.childNames[i]
  {
    seq(|node.childNames|, i requires 0 <= i < |node.childNames| => node.labelRule + "/" + node.childNames[i])
  }

  /** The label occurs somewhere in the name. */
  predicate Occurs(labelRule: Label, name: Label) {
    labelRule <= name || (name != "" && Occurs(labelRule, name[1..]))
  }

  /** The label occurs in a name that it is a part of, with anything before and behind it. */
  lemma {:induction false} OccursIs(labelRule: Label, name: Label)
    ensures Occurs(labelRule, name) <==> exists before, behind :: name == before + labelRule + behind
  {
    if labelRule <= name {
      assert name == "" + labelRule + name[|labelRule|..];
    } else if name != "" {
      OccursIs(labelRule, name[1..]);
      if before, behind :| name == before + labelRule + behind {
        assert before == "" ==> name == labelRule + behind;
        assert name[1..] == before[1..] + labelRule + behind;
      }
      if before, behind :| name[1..] == before + labelRule + behind {
        assert name == ([name[0]] + before) + labelRule + behind;
      }
    } else {
      forall before, behind ensures name != before + labelRule + behind {
        assert |before + labelRule + behind| >= |labelRule|;
      }
    }
  }

  function InPath(names: seq<Label>, labelRule: Label): (r: seq<Label>)
    ensures forall name :: name in r ==> name in names
  {
    if names == [] then []
    else (if Occurs(labelRule, names[0]) then [names[0]] else []) + InPath(names[1..], labelRule)
  }

  /** The deletion loop: the last name goes, with its node, and its children in the path come behind the rest. */
  function Swept(tree: Store, toDelete: seq<Label>, labelRule: Label): Store
    decreases |tree|, |toDelete|
  {
    if toDelete == [] then tree
    else
      var rest, current := toDelete[..|toDelete| - 1], toDelete[|toDelete| - 1];
      if current in tree then
        Swept(tree - {current}, rest + InPath(AbsoluteChildNames(tree[current]), labelRule), labelRule)
      else Swept(tree, rest, labelRule)
  }

  function Removed(tree: Store, labelRule: Label): Store {
    if labelRule in tree then Swept(tree - {labelRule}, AbsoluteChildNames(tree[labelRule]), labelRule) else tree
  }

  /**
   What a backend takes a delete to mean: every key below the label, as the file backend and the simple
   backend in JS do, or what the child names of stored nodes lead to, as the in-memory tree in C++ does.
   */
  datatype Deletion = ByPath | ByChildNames

  function Deleted(deletion: Deletion, store: Store, labelRule: Label): Store {
    match deletion
    case ByPath => DeletedSubtree(store, labelRule)
    case ByChildNames => Removed(store, labelRule)
  }

  // ---- what a delete takes ----

  ghost predicate AllBelow(names: seq<Label>, labelRule: Label) {
    forall name :: name in names ==> labelRule + "/" <= name
  }

  lemma ChildrenBelow(rest: seq<Label>, node: TreeNode, labelRule: Label)
    requires AllBelow(rest, labelRule) && labelRule + "/" <= node.labelRule
    ensures AllBelow(rest + InPath(AbsoluteChildNames(node), labelRule), labelRule)
  {
    var names := AbsoluteChildNames(node);
    forall name | name in InPath(names, labelRule) ensures labelRule + "/" <= name {
      var i :| 0 <= i < |names| && names[i] == name;
      assert name == node.labelRule + ("/" + node.childNames[i]);
    }
  }

  lemma {:induction false} SweepStaysBelow(tree: Store, toDelete: seq<Label>, labelRule: Label)
    requires WellKeyed(tree) && AllBelow(toDelete, labelRule)
    ensures var r := Swept(tree, toDelete, labelRule);
            && WellKeyed(r)
            && forall key :: if key in r then key in tree && r[key] == tree[key]
                             else key in tree ==> labelRule + "/" <= key
    decreases |tree|, |toDelete|
  {
    if toDelete != [] {
      var rest, current := toDelete[..|toDelete| - 1], toDelete[|toDelete| - 1];
      assert current in toDelete && forall name :: name in rest ==> name in toDelete;
      if current in tree {
        ChildrenBelow(rest, tree[current], labelRule);
        SweepStaysBelow(tree - {current}, rest + InPath(AbsoluteChildNames(tree[current]), labelRule), labelRule);
      } else {
        SweepStaysBelow(tree, rest, labelRule);
      }
    }
  }

  /** Deleting a label takes that node, and takes nothing but nodes below it. */
  lemma RemoveStaysInSubtree(tree: Store, labelRule: Label)
    requires WellKeyed(tree)
    ensures var r := Removed(tree, labelRule);
            && labelRule !in r && WellKeyed(r)
            && forall key :: if key in r then key in tree && r[key] == tree[key]
                             else key in tree ==> InSubtree(labelRule, key)
  {
    if labelRule in tree {
      SweepStaysBelow(tree - {labelRule}, AbsoluteChildNames(tree[labelRule]), labelRule);
    }
  }

  lemma {:induction false} InPathKeeps(names: seq<Label>, labelRule: Label)
    ensures forall name :: name in names && Occurs(labelRule, name) ==> name in InPath(names, labelRule)
  {
    if names != [] { InPathKeeps(names[1..], labelRule); }
  }

  /** The key went from the tree to what is left of it. */
  predicate Gone(tree: Store, left: Store, key: Label) {
    key in tree && key !in left
  }

  /** Every name to delete is gone, and so are the children in the path of every key that went. */
  lemma {:induction false} SweepTakesChildren(tree: Store, toDelete: seq<Label>, labelRule: Label, name: Label)
    ensures var r := Swept(tree, toDelete, labelRule);
            && r.Keys <= tree.Keys
            && (name in toDelete ==> name !in r)
            && forall key :: Gone(tree, r, key) && name in InPath(AbsoluteChildNames(tree[key]), labelRule) ==> name !in r
    decreases |tree|, |toDelete|
  {
    hide InPath, AbsoluteChildNames;
    if toDelete != [] {
      var rest, current := toDelete[..|toDelete| - 1], toDelete[|toDelete| - 1];
      assert toDelete == rest + [current];
      if current in tree {
        var more := InPath(AbsoluteChildNames(tree[current]), labelRule);
        SweepTakesChildren(tree - {current}, rest + more, labelRule, name);
        var r := Swept(tree, toDelete, labelRule);
        forall key | Gone(tree, r, key) && name in InPath(AbsoluteChildNames(tree[key]), labelRule)
          ensures name !in r
        {
          if key != current { assert Gone(tree - {current}, r, key); }
        }
      } else {
        SweepTakesChildren(tree, rest, labelRule, name);
      }
    }
  }

  /** Nothing else goes: a key that went was to be deleted, or is a child of another that went. */
  lemma {:induction false} SweepTakesNothingElse(tree: Store, toDelete: seq<Label>, labelRule: Label, key: Label)
    ensures var r := Swept(tree, toDelete, labelRule);
            Gone(tree, r, key) ==>
              key in toDelete || exists parent :: Gone(tree, r, parent) && key in AbsoluteChildNames(tree[parent])
    decreases |tree|, |toDelete|
  {
    hide InPath, AbsoluteChildNames;
    var r := Swept(tree, toDelete, labelRule);
    if toDelete != [] && Gone(tree, r, key) {
      var rest, current := toDelete[..|toDelete| - 1], toDelete[|toDelete| - 1];
      assert toDelete == rest + [current];
      if current in tree && key != current {
        var smaller := tree - {current};
        var more := InPath(AbsoluteChildNames(tree[current]), labelRule);
        SweepTakesNothingElse(smaller, rest + more, labelRule, key);
        SweepTakesChildren(smaller, rest + more, labelRule, current);
        assert Gone(smaller, r, key) && Gone(tree, r, current);
        if key !in rest + more {
          var parent :| Gone(smaller, r, parent) && key in AbsoluteChildNames(smaller[parent]);
          assert Gone(tree, r, parent) && smaller[parent] == tree[parent];
        }
      } else if current !in tree {
        SweepTakesNothingElse(tree, rest, labelRule, key);
      }
    }
  }

  /**
   A delete takes exactly the node and, from parent to child, everything below it: a child of a deleted
   node is gone, and a deleted node is the one asked for or a child of a deleted node.
   */
  lemma RemoveTakesDescendants(tree: Store, labelRule: Label)
    requires WellKeyed(tree) && labelRule in tree
    ensures var r := Removed(tree, labelRule);
            && Gone(tree, r, labelRule)
            && (forall parent, child :: Gone(tree, r, parent) && child in AbsoluteChildNames(tree[parent]) ==> child !in r)
            && (forall key :: Gone(tree, r, key) && key != labelRule ==>
                  exists parent :: Gone(tree, r, parent) && key in AbsoluteChildNames(tree[parent]))
  {
    var r := Removed(tree, labelRule);
    var rest, children := tree - {labelRule}, AbsoluteChildNames(tree[labelRule]);
    RemoveStaysInSubtree(tree, labelRule);
    hide Swept;
    forall parent, child | Gone(tree, r, parent) && child in AbsoluteChildNames(tree[parent]) ensures child !in r {
      SweepTakesChildren(rest, children, labelRule, child);
      if parent != labelRule {
        assert Gone(rest, r, parent);
        ChildInPath(tree[parent], child, labelRule);
      }
    }
    forall key | Gone(tree, r, key) && key != labelRule
      ensures exists parent :: Gone(tree, r, parent) && key in AbsoluteChildNames(tree[parent])
    {
      SweepTakesNothingElse(rest, children, labelRule, key);
      if key in children {
        assert Gone(tree, r, labelRule);
      } else {
        assert Gone(rest, r, key);
        var parent :| Gone(rest, r, parent) && key in AbsoluteChildNames(rest[parent]);
        assert Gone(tree, r, parent);
      }
    }
  }

  /** Below the label the path filter lets every child through. */
  lemma ChildInPath(node: TreeNode, child: Label, labelRule: Label)
    requires InSubtree(labelRule, node.labelRule) && child in AbsoluteChildNames(node)
    ensures child in InPath(AbsoluteChildNames(node), labelRule)
  {
    assert labelRule <= child;
    InPathKeeps(AbsoluteChildNames(node), labelRule);
  }

  // ---- links ----

  /** Stored nodes, each a child of the one before it. */
  ghost predicate IsChain(tree: Store, w: seq<Label>) {
    && w != [] && (forall i :: 0 <= i < |w| ==> w[i] in tree)
    && forall i, j :: 0 <= i && j == i + 1 < |w| ==> w[j] in AbsoluteChildNames(tree[w[i]])
  }

  /** A chain of stored nodes leads from the label to the key. */
  ghost predicate Linked(tree: Store, labelRule: Label, key: Label) {
    exists w :: IsChain(tree, w) && w[0] == labelRule && w[|w| - 1] == key
  }

  lemma ChainMore(tree: Store, w: seq<Label>, key: Label)
    requires IsChain(tree, w) && key in tree && key in AbsoluteChildNames(tree[w[|w| - 1]])
    ensures IsChain(tree, w + [key])
  {
    hide AbsoluteChildNames;
    var v := w + [key];
    forall i, j | 0 <= i && j == i + 1 < |v| ensures v[j] in AbsoluteChildNames(tree[v[i]]) {
      if j < |w| { assert w[j] in AbsoluteChildNames(tree[w[i]]); }
    }
  }

  lemma {:induction false} ChainIsGone(tree: Store, w: seq<Label>)
    requires WellKeyed(tree) && IsChain(tree, w)
    ensures Gone(tree, Removed(tree, w[0]), w[|w| - 1])
    decreases |w|
  {
    hide Removed, AbsoluteChildNames;
    RemoveTakesDescendants(tree, w[0]);
    if |w| > 1 {
      var init := w[..|w| - 1];
      ChainIsGone(tree, init);
      var i, j := |w| - 2, |w| - 1;
      assert w[j] in AbsoluteChildNames(tree[w[i]]);
    }
  }

  lemma {:induction false} GoneIsLinked(tree: Store, labelRule: Label, key: Label)
    requires WellKeyed(tree) && labelRule in tree && Gone(tree, Removed(tree, labelRule), key)
    ensures Linked(tree, labelRule, key)
    decreases |key|
  {
    RemoveTakesDescendants(tree, labelRule);
    hide Removed;
    if key == labelRule {
      assert IsChain(tree, [key]);
    } else {
      var parent :| Gone(tree, Removed(tree, labelRule), parent) && key in AbsoluteChildNames(tree[parent]);
      GoneIsLinked(tree, labelRule, parent);
      var w :| IsChain(tree, w) && w[0] == labelRule && w[|w| - 1] == parent;
      ChainMore(tree, w, key);
      assert (w + [key])[0] == labelRule && (w + [key])[|w + [key]| - 1] == key;
    }
  }

  /** A delete takes exactly the stored nodes that are linked below its label. */
  lemma RemoveTakesLinked(tree: Store, labelRule: Label, key: Label)
    requires WellKeyed(tree)
    ensures Gone(tree, Removed(tree, labelRule), key) <==> Linked(tree, labelRule, key)
  {
    if labelRule in tree && Gone(tree, Removed(tree, labelRule), key) {
      GoneIsLinked(tree, labelRule, key);
    }
    if Linked(tree, labelRule, key) {
      var w :| IsChain(tree, w) && w[0] == labelRule && w[|w| - 1] == key;
      ChainIsGone(tree, w);
    }
  }

  /** Every label on a chain is the last one or an ancestor of it. */
  lemma {:induction false} ChainGoesDown(tree: Store, w: seq<Label>, i: nat)
    requires WellKeyed(tree) && IsChain(tree, w) && i < |w|
    ensures InSubtree(w[i], w[|w| - 1])
    decreases |w| - i
  {
    if i < |w| - 1 {
      var j := i + 1;
      assert w[j] in AbsoluteChildNames(tree[w[i]]);
      ChainGoesDown(tree, w, j);
      assert w[i] + "/" <= w[j];
    }
  }

  /** A node that is deleted alone would leave a stored child behind. */
  predicate LeavesChildren(tree: Store, labelRule: Label) {
    labelRule in tree &&
    var names := AbsoluteChildNames(tree[labelRule]);
    exists i :: 0 <= i < |names| && names[i] != labelRule && names[i] in tree
  }

  lemma {:induction false} SweptOfNothing(tree: Store, toDelete: seq<Label>, labelRule: Label)
    requires forall name :: name in toDelete ==> name !in tree
    ensures Swept(tree, toDelete, labelRule) == tree
    decreases |toDelete|
  {
    if toDelete != [] {
      assert toDelete[|toDelete| - 1] in toDelete;
      SweptOfNothing(tree, toDelete[..|toDelete| - 1], labelRule);
    }
  }

  /** A delete takes the node alone exactly when no child of it is stored. */
  lemma RemovedAlone(tree: Store, labelRule: Label)
    requires labelRule in tree
    ensures Removed(tree, labelRule) == tree - {labelRule} <==> !LeavesChildren(tree, labelRule)
  {
    var names := AbsoluteChildNames(tree[labelRule]);
    if LeavesChildren(tree, labelRule) {
      var i :| 0 <= i < |names| && names[i] != labelRule && names[i] in tree;
      SweepTakesChildren(tree - {labelRule}, names, labelRule, names[i]);
    } else {
      forall name | name in names ensures name !in tree - {labelRule} {
        var i :| 0 <= i < |names| && names[i] == name;
      }
      SweptOfNothing(tree - {labelRule}, names, labelRule);
    }
  }

  /** A delete takes more than its own key exactly when a child of the node is stored. */
  lemma LinkedBelow(tree: Store, labelRule: Label)
    requires WellKeyed(tree)
    ensures (exists key :: key != labelRule && Linked(tree, labelRule, key)) <==> LeavesChildren(tree, labelRule)
  {
    if LeavesChildren(tree, labelRule) {
      var names := AbsoluteChildNames(tree[labelRule]);
      var i :| 0 <= i < |names| && names[i] != labelRule && names[i] in tree;
      ChildIsLinked(tree, labelRule, i);
    }
    if key :| key != labelRule && Linked(tree, labelRule, key) {
      var w :| IsChain(tree, w) && w[0] == labelRule && w[|w| - 1] == key;
      var first, second := 0, 1;
      assert w[second] in AbsoluteChildNames(tree[w[first]]);
    }
  }

  lemma ChildIsLinked(tree: Store, labelRule: Label, i: nat)
    requires WellKeyed(tree) && labelRule in tree && i < |tree[labelRule].childNames|
    requires AbsoluteChildNames(tree[labelRule])[i] in tree
    ensures var child := AbsoluteChildNames(tree[labelRule])[i];
            child != labelRule && Linked(tree, labelRule, child)
  {
    var child := AbsoluteChildNames(tree[labelRule])[i];
    var w := [labelRule, child];
    assert IsChain(tree, w) && w[0] == labelRule && w[|w| - 1] == child;
    assert child != labelRule by { assert child == labelRule + ("/" + tree[labelRule].childNames[i]); }
  }

  // ---- transactions ----

  /** The parent goes under its own label, a child under that of its change; a deleted node goes alone. */
  function ParentChanged(tree: Store, change: NewNodeVersion): Store {
    match change.node
    case Some(node) => tree[node.labelRule := node]
    case None => tree - {change.labelRule}
  }

  function ChildChanged(tree: Store, change: NewNodeVersion): Store {
    match change.node
    case Some(node) => tree[change.labelRule := node]
    case None => tree - {change.labelRule}
  }

  function ChildrenChanged(tree: Store, changes: seq<NewNodeVersion>): Store
    decreases |changes|
  {
    if changes == [] then tree else ChildChanged(ChildrenChanged(tree, changes[..|changes| - 1]), changes[|changes| - 1])
  }

  function SubChanged(tree: Store, sub: SubTransaction): Store {
    ChildrenChanged(ParentChanged(tree, sub.parent), sub.children)
  }

  lemma {:induction false} ChildrenChangedAt(tree: Store, changes: seq<NewNodeVersion>, key: Label, i: nat)
    ensures i < |changes| && changes[i].labelRule == key
            && (forall j :: i < j < |changes| ==> changes[j].labelRule != key) ==>
              Lookup(ChildrenChanged(tree, changes), key) == changes[i].node
    ensures (forall j :: 0 <= j < |changes| ==> changes[j].labelRule != key) ==>
              Lookup(ChildrenChanged(tree, changes), key) == Lookup(tree, key)
    decreases |changes|
  {
    if changes != [] { ChildrenChangedAt(tree, changes[..|changes| - 1], key, i); }
  }

  /**
   What a sub-transaction leaves at a label: what its last child of that label says; without such a child,
   what the parent says, if its node is to go there or it is to be deleted there; else what was there.
   */
  lemma SubChangedAt(tree: Store, sub: SubTransaction, key: Label, i: nat)
    ensures i < |sub.children| && sub.children[i].labelRule == key
            && (forall j :: i < j < |sub.children| ==> sub.children[j].labelRule != key) ==>
              Lookup(SubChanged(tree, sub), key) == sub.children[i].node
    ensures (forall j :: 0 <= j < |sub.children| ==> sub.children[j].labelRule != key) ==>
              Lookup(SubChanged(tree, sub), key) ==
              match sub.parent.node
              case Some(node) => if node.labelRule == key then Some(node) else Lookup(tree, key)
              case None => if sub.parent.labelRule == key then None else Lookup(tree, key)
  {
    ChildrenChangedAt(ParentChanged(tree, sub.parent), sub.children, key, i);
  }

  function AllChanged(tree: Store, t: Transaction): Store
    decreases |t|
  {
    if t == [] then tree else SubChanged(AllChanged(tree, t[..|t| - 1]), t[|t| - 1])
  }

  /** The changes one by one, every node under its own label. */
  function ChangesMade(tree: Store, changes: seq<NewNodeVersion>): Store
    decreases |changes|
  {
    if changes == [] then tree else ParentChanged(ChangesMade(tree, changes[..|changes| - 1]), changes[|changes| - 1])
  }

  lemma {:induction false} ChangesAppend(tree: Store, a: seq<NewNodeVersion>, b: seq<NewNodeVersion>)
    ensures ChangesMade(tree, a + b) == ChangesMade(ChangesMade(tree, a), b)
    decreases |b|
  {
    hide ParentChanged;
    if b == [] {
      assert a + b == a;
    } else {
      ChangesAppend(tree, a, b[..|b| - 1]);
      assert (a + b)[..|a + b| - 1] == a + b[..|b| - 1];
    }
  }

  lemma {:induction false} ChildrenMade(tree: Store, children: seq<NewNodeVersion>)
    requires forall i :: 0 <= i < |children| ==> OwnLabel(children[i])
    ensures ChildrenChanged(tree, children) == ChangesMade(tree, children)
    decreases |children|
  {
    if children != [] { ChildrenMade(tree, children[..|children| - 1]); }
  }

  /** A transaction of nodes under their own labels is its changes one by one. */
  lemma {:induction false} TransactionIsChanges(tree: Store, t: Transaction)
    requires OwnLabels(t)
    ensures AllChanged(tree, t) == ChangesMade(tree, Changes(t))
    decreases |t|
  {
    hide OwnLabel, ParentChanged;
    if t != [] {
      var init, sub := t[..|t| - 1], t[|t| - 1];
      var before, last := Changes(init), [sub.parent] + sub.children;
      assert Changes(t) == before + last;
      forall i | 0 <= i < |before| ensures OwnLabel(before[i]) {
        assert before[i] == Changes(t)[i];
      }
      forall i | 0 <= i < |sub.children| ensures OwnLabel(sub.children[i]) {
        assert sub.children[i] == Changes(t)[|before| + 1 + i];
      }
      TransactionIsChanges(tree, init);
      ChangesAppend(tree, before, last);
      var made := ChangesMade(tree, before);
      ChangesAppend(made, [sub.parent], sub.children);
      assert [sub.parent][..0] == [];
      ChildrenMade(ParentChanged(made, sub.parent), sub.children);
    }
  }

  /** What was written to a tree by a caller, in order. */
  datatype TreeWrite = Upserting(nodes: seq<TreeNode>) | Deleting(labelRule: Label) | Transacting(t: Transaction)

  class MemoryTree {
    var tree: Store
    ghost var writes: seq<TreeWrite>

    constructor ()
      ensures tree == map[] && writes == []
    {
      tree, writes := map[], [];
    }

    method UpsertNode(nodes: seq<TreeNode>)
      modifies this
      ensures tree == UpsertedAll(old(tree), nodes) && writes == old(writes) + [Upserting(nodes)]
    {
      for i := 0 to |nodes|
        invariant tree == UpsertedAll(old(tree), nodes[..i]) && writes == old(writes)
      {
        assert nodes[..i + 1][..i] == nodes[..i];
        tree := tree[nodes[i].labelRule := nodes[i]];
      }
      assert nodes[..|nodes|] == nodes;
      writes := writes + [Upserting(nodes)];
    }

    method DeleteNode(labelRule: Label) returns (found: bool)
      modifies this
      ensures found <==> labelRule in old(tree)
      ensures tree == Removed(old(tree), labelRule) && writes == old(writes) + [Deleting(labelRule)]
    {
      writes := writes + [Deleting(labelRule)];
      if labelRule !in tree {
        return false;
      }
      var toDelete := AbsoluteChildNames(tree[labelRule]);
      tree := tree - {labelRule};
      ghost var goal := Swept(tree, toDelete, labelRule);
      while toDelete != []
        invariant Swept(tree, toDelete, labelRule) == goal && writes == old(writes) + [Deleting(labelRule)]
        decreases |tree|, |toDelete|
      {
        var current := toDelete[|toDelete| - 1];
        toDelete := toDelete[..|toDelete| - 1];
        if current in tree {
          toDelete := toDelete + InPath(AbsoluteChildNames(tree[current]), labelRule);
          tree := tree - {current};
        }
      }
      found := true;
    }

    method PerformSubTransaction(sub: SubTransaction)
      modifies `tree
      ensures tree == SubChanged(old(tree), sub)
    {
      if sub.parent.node.Some? {
        tree := tree[sub.parent.node.value.labelRule := sub.parent.node.value];
      } else {
        tree := tree - {sub.parent.labelRule};
      }
      for i := 0 to |sub.children|
        invariant tree == ChildrenChanged(ParentChanged(old(tree), sub.parent), sub.children[..i])
      {
        assert sub.children[..i + 1][..i] == sub.children[..i];
        var child := sub.children[i];
        if child.node.Some? {
          tree := tree[child.labelRule := child.node.value];
        } else {
          tree := tree - {child.labelRule};
        }
      }
      assert sub.children[..|sub.children|] == sub.children;
    }

    /** Throws, changing nothing, unless every sub-transaction passes its checks against the initial tree. */
    method ApplyTransaction(t: Transaction) returns (thrown: bool)
      requires Sequenced(tree)
      modifies this
      ensures thrown <==> !CanApply(old(tree), t)
      ensures tree == if thrown then old(tree) else AllChanged(old(tree), t)
      ensures writes == if thrown then old(writes) else old(writes) + [Transacting(t)]
    {
      for i := 0 to |t|
        invariant tree == old(tree) && writes == old(writes)
        invariant forall k :: 0 <= k < i ==> CanPerform(tree, t[k])
      {
        if !CanPerform(tree, t[i]) {
          return true;
        }
      }
      for i := 0 to |t|
        invariant tree == AllChanged(old(tree), t[..i]) && writes == old(writes)
      {
        assert t[..i + 1][..i] == t[..i];
        PerformSubTransaction(t[i]);
      }
      assert t[..|t|] == t;
      writes := writes + [Transacting(t)];
      thrown := false;
    }
  }
}
