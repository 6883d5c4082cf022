/**
 Relabelling across a mount, the composite backend that routes to the mounted ones, and the redirected
 backend that makes a subtree of a composite look like a whole tree.
 */
module Relabelling {
  import opened TreeModel

  predicate EndsWithSlash(prefix: string) {
    prefix != "" && prefix[|prefix| - 1] == '/'
  }

  function Prefixed(prefix: string, s: string): string {
    if prefix <= s then s else prefix + s
  }

  function Shortened(prefix: string, s: string): string {
    if prefix <= s then s[|prefix|..] else s
  }

  function PrefixedAll(prefix: string, names: seq<string>): (r: seq<string>)
    ensures |r| == |names| && forall i :: 0 <= i < |r| ==> r[i] == Prefixed(prefix, names[i])
  {
    seq(|names|, i requires 0 <= i < |names| => Prefixed(prefix, names[i]))
  }

  function ShortenedAll(prefix: string, names: seq<string>): (r: seq<string>)
    ensures |r| == |names| && forall i :: 0 <= i < |r| ==> r[i] == Shortened(prefix, names[i])
  {
    seq(|names|, i requires 0 <= i < |names| => Shortened(prefix, names[i]))
  }

  function PrefixedNode(prefix: string, node: TreeNode): TreeNode {
    node.(labelRule := Prefixed(prefix, node.labelRule), childNames := PrefixedAll(prefix, node.childNames))
  }

  function ShortenedNode(prefix: string, node: TreeNode): TreeNode {
    node.(labelRule := Shortened(prefix, node.labelRule), childNames := ShortenedAll(prefix, node.childNames))
  }

  /** The prefix goes in front of the label and of every child name that lacks it; None for a prefix without '/'. */
  method PrefixLabels(prefix: string, node: TreeNode) returns (r: Option<TreeNode>)
    ensures r == if prefix == "" || EndsWithSlash(prefix) then Some(PrefixedNode(prefix, node)) else None
  {
    if prefix == "" {
      assert PrefixedAll("", node.childNames) == node.childNames;
      return Some(node);
    }
    if prefix[|prefix| - 1] != '/' {
      return None;
    }
    var labelRule := if prefix <= node.labelRule then node.labelRule else prefix + node.labelRule;
    var names: seq<string> := [];
    for i := 0 to |node.childNames|
      invariant |names| == i && forall k :: 0 <= k < i ==> names[k] == Prefixed(prefix, node.childNames[k])
    {
      names := names + [if prefix <= node.childNames[i] then node.childNames[i] else prefix + node.childNames[i]];
    }
    assert names == PrefixedAll(prefix, node.childNames);
    r := Some(node.(labelRule := labelRule, childNames := names));
  }

  method ShortenLabels(prefix: string, node: TreeNode) returns (r: TreeNode)
    ensures r == ShortenedNode(prefix, node)
  {
    if prefix == "" {
      assert ShortenedAll("", node.childNames) == node.childNames;
      return node;
    }
    r := node;
    if prefix <= node.labelRule {
      r := r.(labelRule := node.labelRule[|prefix|..]);
    }
    for i := 0 to |node.childNames|
      invariant r == node.(labelRule := Shortened(prefix, node.labelRule), childNames := r.childNames)
      invariant |r.childNames| == |node.childNames|
      invariant forall k :: 0 <= k < i ==> r.childNames[k] == Shortened(prefix, node.childNames[k])
      invariant forall k :: i <= k < |node.childNames| ==> r.childNames[k] == node.childNames[k]
    {
      if prefix <= r.childNames[i] {
        r := r.(childNames := r.childNames[i := r.childNames[i][|prefix|..]]);
      }
    }
    assert r.childNames == ShortenedAll(prefix, node.childNames);
  }

  /** Neither the label nor a child name carries the prefix already. */
  predicate Clean(prefix: string, node: TreeNode) {
    !(prefix <= node.labelRule) && forall i :: 0 <= i < |node.childNames| ==> !(prefix <= node.childNames[i])
  }

  lemma ShortenUndoesPrefix(prefix: string, s: string)
    requires prefix != ""
    ensures prefix <= Prefixed(prefix, s)
    ensures Shortened(prefix, Prefixed(prefix, s)) == s <==> !(prefix <= s)
  {
  }

  /** Shortening undoes prefixing on exactly the nodes that do not carry the prefix yet. */
  lemma RelabelRoundTrip(prefix: string, node: TreeNode)
    requires prefix != ""
    ensures ShortenedNode(prefix, PrefixedNode(prefix, node)) == node <==> Clean(prefix, node)
  {
    var back := ShortenedNode(prefix, PrefixedNode(prefix, node));
    ShortenUndoesPrefix(prefix, node.labelRule);
    forall i | 0 <= i < |node.childNames|
      ensures back.childNames[i] == node.childNames[i] <==> !(prefix <= node.childNames[i])
    {
      ShortenUndoesPrefix(prefix, node.childNames[i]);
    }
    if Clean(prefix, node) { assert back.childNames == node.childNames; }
  }

  // ---- lifted to transactions ----

  function PrefixedVersion(prefix: string, v: NewNodeVersion): NewNodeVersion {
    NewNodeVersion(v.expected, Prefixed(prefix, v.labelRule),
                   match v.node case None => None case Some(n) => Some(PrefixedNode(prefix, n)))
  }

  function ShortenedVersion(prefix: string, v: NewNodeVersion): NewNodeVersion {
    NewNodeVersion(v.expected, Shortened(prefix, v.labelRule),
                   match v.node case None => None case Some(n) => Some(ShortenedNode(prefix, n)))
  }

  predicate CleanVersion(prefix: string, v: NewNodeVersion) {
    !(prefix <= v.labelRule) && (v.node.Some? ==> Clean(prefix, v.node.value))
  }

  function PrefixedSub(prefix: string, sub: SubTransaction): (r: SubTransaction)
    ensures |r.children| == |sub.children|
  {
    SubTransaction(PrefixedVersion(prefix, sub.parent),
                   seq(|sub.children|, i requires 0 <= i < |sub.children| => PrefixedVersion(prefix, sub.children[i])))
  }

  function ShortenedSub(prefix: string, sub: SubTransaction): (r: SubTransaction)
    ensures |r.children| == |sub.children|
  {
    SubTransaction(ShortenedVersion(prefix, sub.parent),
                   seq(|sub.children|, i requires 0 <= i < |sub.children| => ShortenedVersion(prefix, sub.children[i])))
  }

  predicate CleanSub(prefix: string, sub: SubTransaction) {
    && CleanVersion(prefix, sub.parent)
    && forall i :: 0 <= i < |sub.children| ==> CleanVersion(prefix, sub.children[i])
  }

  /** An empty prefix changes nothing, either way. */
  lemma NothingShortened(node: TreeNode)
    ensures ShortenedNode("", node) == node && PrefixedNode("", node) == node
  {
    assert ShortenedAll("", node.childNames) == node.childNames && PrefixedAll("", node.childNames) == node.childNames;
  }

  lemma VersionUnprefixed(v: NewNodeVersion)
    ensures PrefixedVersion("", v) == v
  {
    if v.node.Some? { assert PrefixedAll("", v.node.value.childNames) == v.node.value.childNames; }
  }

  /** None where the original throws: the prefix is neither empty nor ends with a slash. */
  method PrefixNewNodeVersionLabels(prefix: string, v: NewNodeVersion) returns (r: Option<NewNodeVersion>)
    ensures r == if prefix == "" || EndsWithSlash(prefix) then Some(PrefixedVersion(prefix, v)) else None
  {
    if prefix == "" {
      VersionUnprefixed(v);
      return Some(v);
    }
    if prefix[|prefix| - 1] != '/' {
      return None;
    }
    var prefixed := v;
    if v.node.Some? {
      var node := PrefixLabels(prefix, v.node.value);
      prefixed := prefixed.(node := node);
    }
    if !(prefix <= v.labelRule) {
      prefixed := prefixed.(labelRule := prefix + v.labelRule);
    }
    r := Some(prefixed);
  }

  method ShortenNewNodeVersionLabels(prefix: string, v: NewNodeVersion) returns (r: NewNodeVersion)
    ensures r == ShortenedVersion(prefix, v)
  {
    r := v;
    if prefix <= v.labelRule {
      r := r.(labelRule := v.labelRule[|prefix|..]);
    }
    if v.node.Some? {
      var node := ShortenLabels(prefix, v.node.value);
      r := r.(node := Some(node));
    }
  }

  method PrefixSubTransactionLabels(prefix: string, sub: SubTransaction) returns (r: Option<SubTransaction>)
    ensures r == if prefix == "" || EndsWithSlash(prefix) then Some(PrefixedSub(prefix, sub)) else None
  {
    if prefix == "" {
      SubUnprefixed(sub);
      return Some(sub);
    }
    var parent := PrefixNewNodeVersionLabels(prefix, sub.parent);
    if parent == None {
      return None;
    }
    var children: seq<NewNodeVersion> := [];
    for i := 0 to |sub.children|
      invariant |children| == i && forall k :: 0 <= k < i ==> children[k] == PrefixedVersion(prefix, sub.children[k])
    {
      var child := PrefixNewNodeVersionLabels(prefix, sub.children[i]);
      children := children + [child.value];
    }
    r := Some(SubTransaction(parent.value, children));
    assert children == PrefixedSub(prefix, sub).children;
  }

  lemma SubUnprefixed(sub: SubTransaction)
    ensures PrefixedSub("", sub) == sub
  {
    hide PrefixedVersion;
    VersionUnprefixed(sub.parent);
    forall i | 0 <= i < |sub.children| ensures PrefixedSub("", sub).children[i] == sub.children[i] {
      VersionUnprefixed(sub.children[i]);
    }
    assert PrefixedSub("", sub).children == sub.children;
  }

  method ShortenSubTransactionLabels(prefix: string, sub: SubTransaction) returns (r: SubTransaction)
    ensures r == ShortenedSub(prefix, sub)
  {
    var parent := ShortenNewNodeVersionLabels(prefix, sub.parent);
    var children: seq<NewNodeVersion> := [];
    for i := 0 to |sub.children|
      invariant |children| == i && forall k :: 0 <= k < i ==> children[k] == ShortenedVersion(prefix, sub.children[k])
    {
      var child := ShortenNewNodeVersionLabels(prefix, sub.children[i]);
      children := children + [child];
    }
    r := SubTransaction(parent, children);
    assert children == ShortenedSub(prefix, sub).children;
  }

  lemma NodeVersionRoundTrip(prefix: string, v: NewNodeVersion)
    requires prefix != ""
    ensures ShortenedVersion(prefix, PrefixedVersion(prefix, v)) == v <==> CleanVersion(prefix, v)
  {
    ShortenUndoesPrefix(prefix, v.labelRule);
    if v.node.Some? { RelabelRoundTrip(prefix, v.node.value); }
  }

  lemma SubRoundTrip(prefix: string, sub: SubTransaction)
    requires prefix != ""
    ensures ShortenedSub(prefix, PrefixedSub(prefix, sub)) == sub <==> CleanSub(prefix, sub)
  {
    hide PrefixedVersion, ShortenedVersion, CleanVersion;
    var back := ShortenedSub(prefix, PrefixedSub(prefix, sub));
    NodeVersionRoundTrip(prefix, sub.parent);
    forall i | 0 <= i < |sub.children|
      ensures back.children[i] == sub.children[i] <==> CleanVersion(prefix, sub.children[i])
    {
      NodeVersionRoundTrip(prefix, sub.children[i]);
    }
    if CleanSub(prefix, sub) { assert back.children == sub.children; }
  }

  lemma VersionUnshortened(v: NewNodeVersion)
    ensures ShortenedVersion("", v) == v
  {
    if v.node.Some? { NothingShortened(v.node.value); }
  }

  lemma SubUnshortened(sub: SubTransaction)
    ensures ShortenedSub("", sub) == sub
  {
    hide ShortenedVersion;
    VersionUnshortened(sub.parent);
    forall i | 0 <= i < |sub.children| ensures ShortenedSub("", sub).children[i] == sub.children[i] {
      VersionUnshortened(sub.children[i]);
    }
    assert ShortenedSub("", sub).children == sub.children;
  }

  lemma TransactionUnshortened(t: Transaction)
    ensures ShortenedTransaction("", t) == t
  {
    hide ShortenedSub;
    forall i | 0 <= i < |t| ensures ShortenedTransaction("", t)[i] == t[i] { SubUnshortened(t[i]); }
  }

  function PrefixedTransaction(prefix: string, t: Transaction): (r: Transaction)
    ensures |r| == |t| && forall i :: 0 <= i < |r| ==> r[i] == PrefixedSub(prefix, t[i])
  {
    seq(|t|, i requires 0 <= i < |t| => PrefixedSub(prefix, t[i]))
  }

  function ShortenedTransaction(prefix: string, t: Transaction): (r: Transaction)
    ensures |r| == |t| && forall i :: 0 <= i < |r| ==> r[i] == ShortenedSub(prefix, t[i])
  {
    seq(|t|, i requires 0 <= i < |t| => ShortenedSub(prefix, t[i]))
  }

  predicate CleanTransaction(prefix: string, t: Transaction) {
    forall i :: 0 <= i < |t| ==> CleanSub(prefix, t[i])
  }

  lemma TransactionRoundTrip(prefix: string, t: Transaction)
    requires prefix != ""
    ensures ShortenedTransaction(prefix, PrefixedTransaction(prefix, t)) == t <==> CleanTransaction(prefix, t)
  {
    hide PrefixedSub, ShortenedSub, CleanSub;
    var back := ShortenedTransaction(prefix, PrefixedTransaction(prefix, t));
    forall i | 0 <= i < |t| ensures back[i] == t[i] <==> CleanSub(prefix, t[i]) {
      SubRoundTrip(prefix, t[i]);
    }
    if CleanTransaction(prefix, t) { assert back == t; }
  }
}

module MountedBackends {
  import opened TreeModel
  import opened Mounts
  import opened Relabelling

  /** Any backend: what it does to its own state. */
  datatype Behaviour<!S> = Behaviour(
    get: (S, Label) -> Option<TreeNode>,
    upsert: (S, TreeNode) -> S,
    apply: (S, Transaction) -> (S, bool))

  class Backend<S> {
    const behaviour: Behaviour<S>
    var state: S

    constructor (behaviour: Behaviour<S>, state: S)
      ensures this.behaviour == behaviour && this.state == state
    {
      this.behaviour := behaviour;
      this.state := state;
    }

    method GetNode(labelRule: Label) returns (r: Option<TreeNode>)
      ensures r == behaviour.get(state, labelRule)
    {
      r := behaviour.get(state, labelRule);
    }

    method UpsertNode(nodes: seq<TreeNode>)
      modifies this
      ensures state == Upserted(behaviour, old(state), nodes)
    {
      for i := 0 to |nodes|
        invariant state == Upserted(behaviour, old(state), nodes[..i])
      {
        assert nodes[..i + 1][..i] == nodes[..i];
        state := behaviour.upsert(state, nodes[i]);
      }
      assert nodes[..|nodes|] == nodes;
    }

    method ApplyTransaction(t: Transaction) returns (ok: bool)
      modifies this
      ensures (state, ok) == behaviour.apply(old(state), t)
    {
      var r := behaviour.apply(state, t);
      state := r.0;
      ok := r.1;
    }
  }

  function Upserted<S>(b: Behaviour<S>, state: S, nodes: seq<TreeNode>): S
    decreases |nodes|
  {
    if nodes == [] then state
    else b.upsert(Upserted(b, state, nodes[..|nodes| - 1]), nodes[|nodes| - 1])
  }

  lemma UpsertedLast<S>(b: Behaviour<S>, state: S, nodes: seq<TreeNode>, last: TreeNode)
    ensures Upserted(b, state, nodes + [last]) == b.upsert(Upserted(b, state, nodes), last)
  {
    assert (nodes + [last])[..|nodes|] == nodes;
  }

  lemma NothingUpserted<S>(b: Behaviour<S>, state: S)
    ensures Upserted(b, state, []) == state
  {
  }

  // ---- what reaches which backend ----

  /** The nodes that reach one of the targets, relabelled for it; the target None is the root. */
  function Sent(mounts: seq<Label>, nodes: seq<TreeNode>, targets: set<Option<nat>>): seq<TreeNode>
    decreases |nodes|
  {
    if nodes == [] then []
    else
      var node := nodes[|nodes| - 1];
      Sent(mounts, nodes[..|nodes| - 1], targets)
      + if Relevant(mounts, node.labelRule) in targets then [Arriving(mounts, node)] else []
  }

  lemma NothingSent<S>(mounts: seq<Label>, targets: set<Option<nat>>, b: Behaviour<S>, state: S)
    ensures Upserted(b, state, Sent(mounts, [], targets)) == state
  {
  }

  lemma SentNext<S>(mounts: seq<Label>, nodes: seq<TreeNode>, i: nat, targets: set<Option<nat>>, b: Behaviour<S>, state: S)
    requires i < |nodes|
    ensures var before := Upserted(b, state, Sent(mounts, nodes[..i], targets));
            Upserted(b, state, Sent(mounts, nodes[..i + 1], targets)) ==
            if Relevant(mounts, nodes[i].labelRule) in targets then b.upsert(before, Arriving(mounts, nodes[i])) else before
  {
    assert nodes[..i + 1][..i] == nodes[..i];
    UpsertedLast(b, state, Sent(mounts, nodes[..i], targets), Arriving(mounts, nodes[i]));
    assert Sent(mounts, nodes[..i], targets) + [] == Sent(mounts, nodes[..i], targets);
  }

  function Arriving(mounts: seq<Label>, node: TreeNode): TreeNode {
    ShortenedNode(node.labelRule[..CutAt(mounts, node.labelRule)], node)
  }

  function PrefixOf(mounts: seq<Label>, labelRule: Label): string {
    labelRule[..CutAt(mounts, labelRule)]
  }

  function PrefixedNodes(prefix: string, nodes: seq<TreeNode>): (r: seq<TreeNode>)
    ensures |r| == |nodes| && forall i :: 0 <= i < |r| ==> r[i] == PrefixedNode(prefix, nodes[i])
  {
    seq(|nodes|, i requires 0 <= i < |nodes| => PrefixedNode(prefix, nodes[i]))
  }

  predicate AllClean(prefix: string, nodes: seq<TreeNode>) {
    forall i :: 0 <= i < |nodes| ==> Clean(prefix, nodes[i])
  }

  /** No mount is the label or an ancestor of it. */
  ghost predicate Uncovered(mounts: seq<Label>, labelRule: Label) {
    forall k :: 0 <= k < |mounts| ==> mounts[k] != labelRule && !(mounts[k] + "/" <= labelRule)
  }

  /** A label that no mount covers leads to the root, whole. */
  lemma UncoveredIsWhole(mounts: seq<Label>, labelRule: Label)
    requires Uncovered(mounts, labelRule)
    ensures Relevant(mounts, labelRule) == None && PrefixOf(mounts, labelRule) == ""
  {
  }

  /** The label of a mount leads to it and is cut off whole. */
  lemma MountIsCut(mounts: seq<Label>, k: nat)
    requires Sorted(mounts) && Separated(mounts) && k < |mounts|
    ensures Relevant(mounts, mounts[k]) == Some(k) && PrefixOf(mounts, mounts[k]) == mounts[k]
  {
    LookupFinds(mounts, mounts[k], k);
  }

  lemma ArrivesWhole(mounts: seq<Label>, node: TreeNode)
    requires Uncovered(mounts, node.labelRule)
    ensures Relevant(mounts, node.labelRule) == None && Arriving(mounts, node) == node
  {
    UncoveredIsWhole(mounts, node.labelRule);
    NothingShortened(node);
    hide Relevant, CutAt, ShortenedNode;
    assert node.labelRule[..CutAt(mounts, node.labelRule)] == PrefixOf(mounts, node.labelRule);
  }

  /** A node at a mount arrives under the empty label; one below it under what stands behind the '/'. */
  lemma ArrivesBelow(mounts: seq<Label>, k: nat, node: TreeNode)
    requires Sorted(mounts) && Separated(mounts) && k < |mounts|
    requires mounts[k] == node.labelRule || mounts[k] + "/" <= node.labelRule
    ensures var at, arriving := mounts[k] == node.labelRule, Arriving(mounts, node);
            var cut := if at then |mounts[k]| else |mounts[k]| + 1;
            && Relevant(mounts, node.labelRule) == Some(k)
            && arriving.labelRule == node.labelRule[cut..]
            && |arriving.childNames| == |node.childNames|
            && (forall i :: 0 <= i < |node.childNames| ==>
                  arriving.childNames[i] == if node.labelRule[..cut] <= node.childNames[i]
                                            then node.childNames[i][cut..] else node.childNames[i])
            && arriving.(labelRule := node.labelRule, childNames := node.childNames) == node
  {
    if mounts[k] == node.labelRule { MountIsCut(mounts, k); } else { PrefixLeadsToMount(mounts, k, node.labelRule); }
    hide Relevant, Sorted, Separated;
    assert node.labelRule[..CutAt(mounts, node.labelRule)] == PrefixOf(mounts, node.labelRule);
  }

  /** Nodes that no mount covers reach the root as they are, in order, and nothing else reaches any backend. */
  lemma {:induction false} UncoveredReachRoot(mounts: seq<Label>, nodes: seq<TreeNode>, targets: set<Option<nat>>)
    requires forall i :: 0 <= i < |nodes| ==> Uncovered(mounts, nodes[i].labelRule)
    ensures Sent(mounts, nodes, targets) == if None in targets then nodes else []
    decreases |nodes|
  {
    hide Relevant, Arriving, Uncovered;
    if nodes != [] {
      var init, last := nodes[..|nodes| - 1], nodes[|nodes| - 1];
      UncoveredReachRoot(mounts, init, targets);
      ArrivesWhole(mounts, last);
      assert nodes == init + [last];
    }
  }

  /** Every label with the prefix of a mount leads to that mount, cut behind the '/'. */
  lemma PrefixLeadsToMount(mounts: seq<Label>, k: nat, labelRule: Label)
    requires Sorted(mounts) && Separated(mounts) && k < |mounts|
    requires mounts[k] + "/" <= labelRule
    ensures Relevant(mounts, labelRule) == Some(k) && PrefixOf(mounts, labelRule) == mounts[k] + "/"
  {
    LookupFinds(mounts, labelRule, k);
  }

  lemma RedirectOne(mounts: seq<Label>, k: nat, node: TreeNode)
    requires Sorted(mounts) && Separated(mounts) && k < |mounts|
    ensures var sent := PrefixedNode(mounts[k] + "/", node);
            && Relevant(mounts, sent.labelRule) == Some(k)
            && (Arriving(mounts, sent) == node <==> Clean(mounts[k] + "/", node))
  {
    var prefix := mounts[k] + "/";
    ShortenUndoesPrefix(prefix, node.labelRule);
    PrefixLeadsToMount(mounts, k, Prefixed(prefix, node.labelRule));
    RelabelRoundTrip(prefix, node);
  }

  /** Through a redirect every clean node reaches its mount as it was, and nothing reaches another backend. */
  lemma {:induction false} RedirectReachesMount(mounts: seq<Label>, k: nat, nodes: seq<TreeNode>, targets: set<Option<nat>>)
    requires Sorted(mounts) && Separated(mounts) && k < |mounts|
    requires AllClean(mounts[k] + "/", nodes)
    ensures Sent(mounts, PrefixedNodes(mounts[k] + "/", nodes), targets) == if Some(k) in targets then nodes else []
    decreases |nodes|
  {
    hide PrefixedNode, Clean, Relevant, Arriving, Sorted, Separated;
    var prefix := mounts[k] + "/";
    if nodes != [] {
      var init, last := nodes[..|nodes| - 1], nodes[|nodes| - 1];
      RedirectReachesMount(mounts, k, init, targets);
      var sent := PrefixedNodes(prefix, nodes);
      assert sent[..|sent| - 1] == PrefixedNodes(prefix, init);
      RedirectOne(mounts, k, last);
      assert nodes == init + [last];
    }
  }

  /** Every sub-transaction of a redirected transaction leads to the mount. */
  lemma RedirectedTransaction(mounts: seq<Label>, k: nat, t: Transaction)
    requires Sorted(mounts) && Separated(mounts) && k < |mounts|
    ensures var sent := PrefixedTransaction(mounts[k] + "/", t);
            forall i :: 0 <= i < |sent| ==>
              && Relevant(mounts, sent[i].parent.labelRule) == Some(k)
              && PrefixOf(mounts, sent[i].parent.labelRule) == mounts[k] + "/"
  {
    var prefix := mounts[k] + "/";
    var sent := PrefixedTransaction(prefix, t);
    forall i | 0 <= i < |sent|
      ensures Relevant(mounts, sent[i].parent.labelRule) == Some(k)
      ensures PrefixOf(mounts, sent[i].parent.labelRule) == mounts[k] + "/"
    {
      assert sent[i].parent.labelRule == Prefixed(prefix, t[i].parent.labelRule);
      ShortenUndoesPrefix(prefix, t[i].parent.labelRule);
      PrefixLeadsToMount(mounts, k, sent[i].parent.labelRule);
    }
  }

  // ---- the composite ----

  datatype Mount<!S> = Mount(labelRule: Label, backend: Backend<S>)

  /** A call that may throw. */
  datatype Outcome<T> = Thrown | Returned(value: T)

  class CompositeBackend<S> {
    const root: Backend<S>
    var mounted: seq<Mount<S>>

    constructor (root: Backend<S>)
      ensures Valid() && mounted == [] && this.root == root
    {
      this.root := root;
      mounted := [];
    }

    ghost predicate Valid()
      reads this
    {
      Sorted(Labels())
    }

    function Labels(): (r: seq<Label>)
      reads this
      ensures |r| == |mounted| && forall i :: 0 <= i < |r| ==> r[i] == mounted[i].labelRule
    {
      seq(|mounted|, i requires 0 <= i < |mounted| reads this => mounted[i].labelRule)
    }

    ghost function Backends(): set<object>
      reads this
    {
      {root} + set i | 0 <= i < |mounted| :: mounted[i].backend
    }

    /** The targets that lead to this backend object; one object may be mounted twice. */
    ghost function Targets(b: Backend<S>): set<Option<nat>>
      reads this
    {
      (if b == root then {None} else {}) + set i: nat | i < |mounted| && mounted[i].backend == b :: Some(i)
    }

    function BackendAt(target: Option<nat>): Backend<S>
      requires target.Some? ==> target.value < |mounted|
      reads this
    {
      match target case None => root case Some(k) => mounted[k].backend
    }

    /** Where the label leads, and how much of it is cut off on the way. */
    method GetRelevantBackend(labelRule: Label) returns (cut: nat, backend: Backend<S>)
      ensures backend == BackendAt(Relevant(Labels(), labelRule)) && cut == CutAt(Labels(), labelRule)
      ensures Uncovered(Labels(), labelRule) ==> backend == root && cut == 0
    {
      if Uncovered(Labels(), labelRule) { UncoveredIsWhole(Labels(), labelRule); }
      var it := UpperBound(Labels(), labelRule);
      if it == 0 {
        return 0, root;
      }
      it := it - 1;
      var mount := mounted[it].labelRule;
      if mount <= labelRule {
        if |labelRule| == |mount| {
          assert mount == labelRule;
          return |mount|, mounted[it].backend;
        }
        if labelRule[|mount|] == '/' {
          assert mount + "/" <= labelRule;
          return |mount| + 1, mounted[it].backend;
        }
      }
      return 0, root;
    }

    /**
     Throws, changing nothing, for a label that is mounted, that the root has a node at, or that the overlap
     test refuses against some mount.  The overlap test must not read past the end of a label.
     */
    method MountBackend(labelRule: Label, backend: Backend<S>) returns (thrown: bool)
      requires Valid()
      requires forall i :: 0 <= i < |mounted| ==> LabelRuleOverlap(labelRule, mounted[i].labelRule).Some?
      modifies this
      ensures Valid()
      ensures thrown <==> || labelRule in old(Labels()) || root.behaviour.get(root.state, labelRule).Some?
                          || exists i :: 0 <= i < |old(mounted)| && LabelRuleOverlap(labelRule, old(mounted)[i].labelRule).value
      ensures thrown ==> mounted == old(mounted)
      ensures !thrown ==>
                var u := UpperBound(old(Labels()), labelRule);
                mounted == old(mounted)[..u] + [Mount(labelRule, backend)] + old(mounted)[u..]
    {
      hide LabelRuleOverlap, Sorted, UpperBound;
      var u := UpperBound(Labels(), labelRule);
      for i := 0 to |mounted|
        invariant labelRule !in Labels()[..i]
      {
        if mounted[i].labelRule == labelRule {
          assert Labels()[i] == labelRule;
          return true;
        }
      }
      assert Labels()[..|mounted|] == Labels();
      var there := root.GetNode(labelRule);
      if there.Some? {
        return true;
      }
      for i := 0 to |mounted|
        invariant forall k :: 0 <= k < i ==> !LabelRuleOverlap(labelRule, mounted[k].labelRule).value
      {
        if LabelRuleOverlap(labelRule, mounted[i].labelRule).value {
          return true;
        }
      }
      InsertKeepsSorted(Labels(), labelRule);
      mounted := mounted[..u] + [Mount(labelRule, backend)] + mounted[u..];
      assert Labels() == Inserted(old(Labels()), labelRule);
      thrown := false;
    }

    /** A node found at exactly the label of a mount cannot be relabelled: its prefix has no '/'. */
    ghost function Fetch(labelRule: Label): Outcome<Option<TreeNode>>
      reads this, Backends()
    {
      var prefix := PrefixOf(Labels(), labelRule);
      var backend := BackendAt(Relevant(Labels(), labelRule));
      match backend.behaviour.get(backend.state, labelRule[|prefix|..])
      case None => Returned(None)
      case Some(node) =>
        if prefix == "" || EndsWithSlash(prefix) then Returned(Some(PrefixedNode(prefix, node))) else Thrown
    }

    /** What a fetch is, by the mounts that cover the label. */
    lemma FetchIs(labelRule: Label)
      ensures Uncovered(Labels(), labelRule) ==> Fetch(labelRule) == Returned(root.behaviour.get(root.state, labelRule))
      ensures Valid() && Separated(Labels()) ==> forall k: nat | k < |mounted| ::
                var mount, b := mounted[k].labelRule, mounted[k].backend;
                && (mount == labelRule && labelRule != "" && !EndsWithSlash(labelRule) ==>
                      Fetch(labelRule) == if b.behaviour.get(b.state, "") == None then Returned(None) else Thrown)
                && (mount + "/" <= labelRule ==>
                      Fetch(labelRule) ==
                      match b.behaviour.get(b.state, labelRule[|mount| + 1..])
                      case None => Returned(None)
                      case Some(node) => Returned(Some(PrefixedNode(mount + "/", node))))
    {
      hide Relevant, CutAt, PrefixedNode, Uncovered, Sorted, Separated;
      if Uncovered(Labels(), labelRule) {
        UncoveredIsWhole(Labels(), labelRule);
        var got := root.behaviour.get(root.state, labelRule);
        if got.Some? { NothingShortened(got.value); }
      }
      if Valid() && Separated(Labels()) {
        forall k: nat | k < |mounted|
          ensures mounted[k].labelRule == labelRule && labelRule != "" && !EndsWithSlash(labelRule) ==>
                    var b := mounted[k].backend;
                    Fetch(labelRule) == if b.behaviour.get(b.state, "") == None then Returned(None) else Thrown
          ensures mounted[k].labelRule + "/" <= labelRule ==>
                    var mount, b := mounted[k].labelRule, mounted[k].backend;
                    Fetch(labelRule) ==
                    match b.behaviour.get(b.state, labelRule[|mount| + 1..])
                    case None => Returned(None)
                    case Some(node) => Returned(Some(PrefixedNode(mount + "/", node)))
        {
          assert Labels()[k] == mounted[k].labelRule && labelRule[|labelRule|..] == "";
          if mounted[k].labelRule == labelRule { MountIsCut(Labels(), k); }
          if mounted[k].labelRule + "/" <= labelRule { PrefixLeadsToMount(Labels(), k, labelRule); }
        }
      }
    }

    method GetNode(labelRule: Label) returns (r: Outcome<Option<TreeNode>>)
      ensures r == Fetch(labelRule)
      ensures Uncovered(Labels(), labelRule) ==> r == Returned(root.behaviour.get(root.state, labelRule))
    {
      FetchIs(labelRule);
      var cut, backend := GetRelevantBackend(labelRule);
      var result := backend.GetNode(labelRule[cut..]);
      if result.None? {
        return Returned(None);
      }
      var node := PrefixLabels(labelRule[..cut], result.value);
      r := if node.None? then Thrown else Returned(node);
    }

    method UpsertOne(node: TreeNode)
      modifies Backends()
      ensures forall b: Backend<S> :: b in Backends() ==>
                b.state == if Relevant(Labels(), node.labelRule) in Targets(b)
                           then b.behaviour.upsert(old(b.state), Arriving(Labels(), node)) else old(b.state)
    {
      hide Relevant, CutAt, ShortenedNode;
      var cut, backend := GetRelevantBackend(node.labelRule);
      var newNode := ShortenLabels(node.labelRule[..cut], node);
      backend.UpsertNode([newNode]);
      UpsertedLast(backend.behaviour, old(backend.state), [], newNode);
    }

    /**
     Every backend gets the nodes that lead to it, one by one and relabelled, and no others.  Nodes that no
     mount covers reach the root as they are.
     */
    method UpsertNode(nodes: seq<TreeNode>)
      modifies Backends()
      ensures forall b: Backend<S> :: b in Backends() ==>
                b.state == Upserted(b.behaviour, old(b.state), Sent(Labels(), nodes, Targets(b)))
      ensures (forall i :: 0 <= i < |nodes| ==> Uncovered(Labels(), nodes[i].labelRule)) ==>
                forall b: Backend<S> :: b in Backends() ==>
                  b.state == if b == root then Upserted(b.behaviour, old(b.state), nodes) else old(b.state)
    {
      hide Upserted, Sent, Uncovered, Targets;
      SendEach(nodes);
      if forall i :: 0 <= i < |nodes| ==> Uncovered(Labels(), nodes[i].labelRule) {
        forall b: Backend<S> | b in Backends()
          ensures b.state == if b == root then Upserted(b.behaviour, old(b.state), nodes) else old(b.state)
        {
          UncoveredReachRoot(Labels(), nodes, Targets(b));
          RootIsTarget(b);
          NothingUpserted(b.behaviour, old(b.state));
        }
      }
    }

    lemma RootIsTarget(b: Backend<S>)
      ensures None in Targets(b) <==> b == root
    {
    }

    /** The loop over the nodes. */
    method SendEach(nodes: seq<TreeNode>)
      modifies Backends()
      ensures forall b: Backend<S> :: b in Backends() ==>
                b.state == Upserted(b.behaviour, old(b.state), Sent(Labels(), nodes, Targets(b)))
    {
      hide Upserted, Sent, Relevant, CutAt, ShortenedNode, Arriving, Targets;
      assert nodes[..0] == [];
      forall b: Backend<S> | b in Backends()
        ensures b.state == Upserted(b.behaviour, old(b.state), Sent(Labels(), nodes[..0], Targets(b)))
      {
        NothingSent(Labels(), Targets(b), b.behaviour, b.state);
      }
      for i := 0 to |nodes|
        invariant forall b: Backend<S> :: b in Backends() ==>
                    b.state == Upserted(b.behaviour, old(b.state), Sent(Labels(), nodes[..i], Targets(b)))
      {
        UpsertOne(nodes[i]);
        forall b: Backend<S> | b in Backends()
          ensures b.state == Upserted(b.behaviour, old(b.state), Sent(Labels(), nodes[..i + 1], Targets(b)))
        {
          SentNext(Labels(), nodes, i, Targets(b), b.behaviour, old(b.state));
        }
      }
      assert nodes[..|nodes|] == nodes;
    }

    ghost predicate SamePrefix(t: Transaction)
      requires t != []
      reads this
    {
      forall i :: 0 <= i < |t| ==>
        PrefixOf(Labels(), t[i].parent.labelRule) == PrefixOf(Labels(), t[0].parent.labelRule)
    }

    /** The backend that a transaction goes to, and the transaction it gets. */
    ghost function TargetOf(t: Transaction): Backend<S>
      requires t != []
      reads this
    {
      BackendAt(Relevant(Labels(), t[0].parent.labelRule))
    }

    ghost function Relative(t: Transaction): Transaction
      requires t != []
      reads this
    {
      ShortenedTransaction(PrefixOf(Labels(), t[0].parent.labelRule), t)
    }

    /** A transaction whose parents no mount covers goes to the root as it is. */
    lemma UncoveredTransaction(t: Transaction)
      requires t != []
      ensures (forall i :: 0 <= i < |t| ==> Uncovered(Labels(), t[i].parent.labelRule)) ==>
                SamePrefix(t) && TargetOf(t) == root && Relative(t) == t
    {
      hide Relevant, CutAt, Uncovered, ShortenedTransaction, PrefixOf;
      if forall i :: 0 <= i < |t| ==> Uncovered(Labels(), t[i].parent.labelRule) {
        forall i | 0 <= i < |t|
          ensures Relevant(Labels(), t[i].parent.labelRule) == None && PrefixOf(Labels(), t[i].parent.labelRule) == ""
        {
          UncoveredIsWhole(Labels(), t[i].parent.labelRule);
        }
        TransactionUnshortened(t);
      }
    }

    /** The loop over the sub-transactions; None for one that has another prefix. */
    method ShortenEach(prefix: string, t: Transaction) returns (r: Option<Transaction>)
      ensures r == if forall i :: 0 <= i < |t| ==> PrefixOf(Labels(), t[i].parent.labelRule) == prefix
                   then Some(ShortenedTransaction(prefix, t)) else None
    {
      hide ShortenedSub, Relevant, CutAt, Uncovered;
      var mountedTransaction: Transaction := [];
      for i := 0 to |t|
        invariant |mountedTransaction| == i
        invariant forall k :: 0 <= k < i ==> PrefixOf(Labels(), t[k].parent.labelRule) == prefix
        invariant forall k :: 0 <= k < i ==> mountedTransaction[k] == ShortenedSub(prefix, t[k])
      {
        var subCut, _ := GetRelevantBackend(t[i].parent.labelRule);
        var subPrefix := t[i].parent.labelRule[..subCut];
        if subPrefix != prefix {
          assert PrefixOf(Labels(), t[i].parent.labelRule) != prefix;
          return None;
        }
        var sub := ShortenSubTransactionLabels(subPrefix, t[i]);
        mountedTransaction := mountedTransaction + [sub];
      }
      assert mountedTransaction == ShortenedTransaction(prefix, t);
      r := Some(mountedTransaction);
    }

    /**
     Throws exactly when the prefixes differ; else the backend of the first label applies all of it.  The
     original reads the first sub-transaction of an empty transaction.
     */
    method ApplyTransaction(t: Transaction) returns (r: Outcome<bool>)
      requires t != []
      modifies Backends()
      ensures r.Returned? <==> SamePrefix(t)
      ensures forall b: Backend<S> :: b in Backends() ==>
                if r.Returned? && b == TargetOf(t)
                then (b.state, r.value) == b.behaviour.apply(old(b.state), Relative(t))
                else b.state == old(b.state)
      ensures (forall i :: 0 <= i < |t| ==> Uncovered(Labels(), t[i].parent.labelRule)) ==>
                && r.Returned? && (root.state, r.value) == root.behaviour.apply(old(root.state), t)
                && forall b: Backend<S> :: b in Backends() && b != root ==> b.state == old(b.state)
    {
      hide ShortenedSub, Relevant, CutAt, Uncovered;
      UncoveredTransaction(t);
      var cut, backend := GetRelevantBackend(t[0].parent.labelRule);
      var prefix := t[0].parent.labelRule[..cut];
      var mountedTransaction := ShortenEach(prefix, t);
      if mountedTransaction.None? {
        return Thrown;
      }
      var ok := backend.ApplyTransaction(mountedTransaction.value);
      r := Returned(ok);
    }
  }

  // ---- the redirect ----

  class RedirectedBackend<S> {
    const root: CompositeBackend<S>
    const prefix: string

    /** The original throws for an empty prefix. */
    constructor (root: CompositeBackend<S>, prefix: string)
      requires prefix != ""
      ensures this.root == root && EndsWithSlash(this.prefix)
      ensures this.prefix == if EndsWithSlash(prefix) then prefix else prefix + "/"
    {
      this.root := root;
      this.prefix := if prefix[|prefix| - 1] == '/' then prefix else prefix + "/";
    }

    /** The prefix is that of mount `k` of a composite whose lookup is a scan. */
    ghost predicate LeadsTo(k: nat)
      reads root
    {
      && k < |root.mounted| && root.Valid() && Separated(root.Labels())
      && prefix == root.mounted[k].labelRule + "/"
    }

    /** A redirect to a mount answers what the mounted backend answers, exactly when that node is clean. */
    method GetNode(labelRule: Label) returns (r: Outcome<Option<TreeNode>>)
      ensures r == match root.Fetch(prefix + labelRule)
                   case Returned(Some(node)) => Returned(Some(ShortenedNode(prefix, node)))
                   case other => other
      ensures forall k: nat :: LeadsTo(k) ==>
                var backend := root.mounted[k].backend;
                var direct := backend.behaviour.get(backend.state, labelRule);
                && r.Returned? && (r.value.Some? <==> direct.Some?)
                && (r == Returned(direct) <==> (direct.Some? ==> Clean(prefix, direct.value)))
    {
      var result := root.GetNode(prefix + labelRule);
      if result.Thrown? || result.value.None? {
        r := result;
      } else {
        var node := ShortenLabels(prefix, result.value.value);
        r := Returned(Some(node));
      }
      forall k: nat | LeadsTo(k)
        ensures var backend := root.mounted[k].backend;
                var direct := backend.behaviour.get(backend.state, labelRule);
                && r.Returned? && (r.value.Some? <==> direct.Some?)
                && (r == Returned(direct) <==> (direct.Some? ==> Clean(prefix, direct.value)))
      {
        var backend := root.mounted[k].backend;
        PrefixLeadsToMount(root.Labels(), k, prefix + labelRule);
        assert (prefix + labelRule)[|prefix|..] == labelRule;
        var direct := backend.behaviour.get(backend.state, labelRule);
        if direct.Some? { RelabelRoundTrip(prefix, direct.value); }
      }
    }

    /** A redirect to a mount writes clean nodes to the mounted backend as they are, and nothing elsewhere. */
    method UpsertNode(nodes: seq<TreeNode>)
      requires EndsWithSlash(prefix)
      modifies root.Backends()
      ensures forall b: Backend<S> :: b in root.Backends() ==>
                b.state == Upserted(b.behaviour, old(b.state), Sent(root.Labels(), PrefixedNodes(prefix, nodes), root.Targets(b)))
      ensures forall k: nat :: LeadsTo(k) && AllClean(prefix, nodes) ==>
                forall b: Backend<S> :: b in root.Backends() ==>
                  b.state == if b == root.mounted[k].backend then Upserted(b.behaviour, old(b.state), nodes) else old(b.state)
    {
      assert nodes[..0] == [] && PrefixedNodes(prefix, []) == [];
      forall b: Backend<S> | b in root.Backends()
        ensures b.state == Upserted(b.behaviour, old(b.state), Sent(root.Labels(), [], root.Targets(b)))
      {
        NothingSent(root.Labels(), root.Targets(b), b.behaviour, b.state);
      }
      hide Sent, Upserted, PrefixedNode, AllClean, LeadsTo, Relevant, Arriving;
      var sent := PrefixedNodes(prefix, nodes);
      for i := 0 to |nodes|
        invariant forall b: Backend<S> :: b in root.Backends() ==>
                    b.state == Upserted(b.behaviour, old(b.state), Sent(root.Labels(), sent[..i], root.Targets(b)))
      {
        var newNode := PrefixLabels(prefix, nodes[i]);
        root.UpsertOne(newNode.value);
        forall b: Backend<S> | b in root.Backends()
          ensures b.state == Upserted(b.behaviour, old(b.state), Sent(root.Labels(), sent[..i + 1], root.Targets(b)))
        {
          SentNext(root.Labels(), sent, i, root.Targets(b), b.behaviour, old(b.state));
        }
      }
      assert sent[..|nodes|] == sent;
      RedirectIsMount(nodes);
    }

    /** What a redirect to a mount sends where. */
    lemma RedirectIsMount(nodes: seq<TreeNode>)
      ensures forall k: nat, b: Backend<S> :: LeadsTo(k) && AllClean(prefix, nodes) && b in root.Backends() ==>
                Sent(root.Labels(), PrefixedNodes(prefix, nodes), root.Targets(b)) ==
                if b == root.mounted[k].backend then nodes else []
    {
      hide Sent, AllClean;
      forall k: nat, b: Backend<S> | LeadsTo(k) && AllClean(prefix, nodes) && b in root.Backends()
        ensures Sent(root.Labels(), PrefixedNodes(prefix, nodes), root.Targets(b)) ==
                if b == root.mounted[k].backend then nodes else []
      {
        RedirectReachesMount(root.Labels(), k, nodes, root.Targets(b));
      }
    }

    /** A redirect to a mount hands the mounted backend a clean transaction as it is, and never throws. */
    method ApplyTransaction(t: Transaction) returns (r: Outcome<bool>)
      requires t != [] && EndsWithSlash(prefix)
      modifies root.Backends()
      ensures var sent := PrefixedTransaction(prefix, t);
              && (r.Returned? <==> root.SamePrefix(sent))
              && forall b: Backend<S> :: b in root.Backends() ==>
                   if r.Returned? && b == root.TargetOf(sent)
                   then (b.state, r.value) == b.behaviour.apply(old(b.state), root.Relative(sent))
                   else b.state == old(b.state)
      ensures forall k: nat :: LeadsTo(k) && CleanTransaction(prefix, t) ==>
                && r.Returned?
                && forall b: Backend<S> :: b in root.Backends() ==>
                     if b == root.mounted[k].backend then (b.state, r.value) == b.behaviour.apply(old(b.state), t)
                     else b.state == old(b.state)
    {
      hide PrefixedSub, CleanTransaction, LeadsTo;
      var mountedTransaction: Transaction := [];
      for i := 0 to |t|
        invariant |mountedTransaction| == i
        invariant forall b: Backend<S> :: b in root.Backends() ==> b.state == old(b.state)
        invariant forall k :: 0 <= k < i ==> mountedTransaction[k] == PrefixedSub(prefix, t[k])
      {
        var sub := PrefixSubTransactionLabels(prefix, t[i]);
        mountedTransaction := mountedTransaction + [sub.value];
      }
      assert mountedTransaction == PrefixedTransaction(prefix, t);
      r := root.ApplyTransaction(mountedTransaction);
      RedirectIsTarget(t);
    }

    lemma RedirectIsTarget(t: Transaction)
      requires t != []
      ensures forall k: nat :: LeadsTo(k) && CleanTransaction(prefix, t) ==>
                var sent := PrefixedTransaction(prefix, t);
                && root.SamePrefix(sent) && root.TargetOf(sent) == root.mounted[k].backend && root.Relative(sent) == t
    {
      forall k: nat | LeadsTo(k) && CleanTransaction(prefix, t)
        ensures var sent := PrefixedTransaction(prefix, t);
                && root.SamePrefix(sent) && root.TargetOf(sent) == root.mounted[k].backend && root.Relative(sent) == t
      {
        RedirectedTransaction(root.Labels(), k, t);
        TransactionRoundTrip(prefix, t);
        hide Relevant, PrefixOf, PrefixedSub, ShortenedSub, CleanTransaction;
      }
    }
  }
}
