/**
 The values every component of the tree protocol exchanges: nodes, versions, notifications and
 transactions.  A `string` here is a string of bytes: one character stands for one byte, and the
 UTF-8 encoding of text is the identity.
 */
module TreeModel {

  datatype Option<+T> = None | Some(value: T) {
    predicate IsFailure() {
      None?
    }

    function PropagateFailure<U>(): Option<U>
      requires None?
    {
      None
    }

    function Extract(): T
      requires Some?
    {
      value
    }
  }

  type Label = string
  type Bytes = string

  datatype PropertyInfo = PropertyInfo(typeName: string, name: string)

  datatype TreeNodeVersion = TreeNodeVersion(
    versionNumber: nat,
    maxVersionSequence: nat,
    policy: string,
    authorialProof: Option<string>,
    authors: Option<string>,
    readers: Option<string>,
    collisionDepth: Option<int>)

  datatype TreeNode = TreeNode(
    labelRule: Label,
    description: string,
    propertyInfos: seq<PropertyInfo>,
    version: TreeNodeVersion,
    childNames: seq<string>,
    propertyData: Bytes,
    queryHowTo: Option<string>,
    qaSequence: Option<string>)

  type Store = map<Label, TreeNode>

  datatype Notification = Notification(labelRule: Label, node: Option<TreeNode>)

  datatype SequentialNotification = SequentialNotification(number: nat, notification: Notification)

  /** A write of one label together with the version the writer believes is stored there. */
  datatype NewNodeVersion = NewNodeVersion(expected: Option<nat>, labelRule: Label, node: Option<TreeNode>)

  datatype SubTransaction = SubTransaction(parent: NewNodeVersion, children: seq<NewNodeVersion>)

  type Transaction = seq<SubTransaction>

  function Lookup(store: Store, labelRule: Label): Option<TreeNode> {
    if labelRule in store then Some(store[labelRule]) else None
  }

  /** `key` is `label` itself or lies below it in the tree. */
  predicate InSubtree(labelRule: Label, key: Label) {
    key == labelRule || labelRule + "/" <= key
  }

  /** Below a label lies what continues it behind a '/'. */
  lemma SubtreeIs(labelRule: Label, key: Label)
    ensures InSubtree(labelRule, key) <==> key == labelRule || exists rest :: key == labelRule + "/" + rest
  {
    if labelRule + "/" <= key { assert key == labelRule + "/" + key[|labelRule + "/"|..]; }
  }

  function DeletedSubtree(store: Store, labelRule: Label): Store {
    map key | key in store && !InSubtree(labelRule, key) :: store[key]
  }

  /** A delete by path takes the label and everything below it, and changes nothing else. */
  lemma DeletedSubtreeIs(store: Store, labelRule: Label, key: Label)
    ensures Lookup(DeletedSubtree(store, labelRule), key) ==
            if key == labelRule || labelRule + "/" <= key then None else Lookup(store, key)
  {
  }

  function UpsertedAll(store: Store, nodes: seq<TreeNode>): Store
    decreases |nodes|
  {
    if nodes == [] then store
    else
      var last := nodes[|nodes| - 1];
      UpsertedAll(store, nodes[..|nodes| - 1])[last.labelRule := last]
  }

  /** Every node is stored under its own label. */
  ghost predicate WellKeyed(store: Store) {
    forall labelRule :: labelRule in store ==> store[labelRule].labelRule == labelRule
  }
}
