/**
 * The older entry module, src/index.ts: withCancel returns an object with
 * `context` and `cancel` fields instead of a pair, and withValue is the
 * same code as in src/entry.ts. Its background and TODO roots are the two
 * roots of Entry.Tree.
 */
module Index {
  import opened Types
  import opened Contexts
  import opened Cancellation
  import opened Constructors
  import opened Stability
  import opened Registration
  import opened Entry

  /** The `{ context, cancel }` object of the ContextAndCancel interface. */
  datatype ContextAndCancel = ContextAndCancel(context: Id, cancel: CancelFunc)

  /** withCancel(context): a new cancel node wired under the parent by
      propagateCancel, returned with a cancel function that cancels it with
      Canceled and detaches it. */
  method WithCancel(tree: Tree, parent: Id) returns (r: ContextAndCancel)
    requires tree.Valid() && parent < |tree.nodes|
    modifies tree
    ensures tree.Valid() && Later(old(tree.nodes), tree.nodes)
    ensures tree.nodes == WithCancelSpec(old(tree.nodes), parent)
    ensures r == ContextAndCancel(|old(tree.nodes)|, CancelFunc(|old(tree.nodes)|, true))
    ensures Issued(tree.nodes, r.cancel)
  {
    ghost var ns := tree.nodes;
    WithCancelAllocates(ns, parent);
    WithCancelKeepsCoherent(ns, parent);
    WithCancelKeepsRegistered(ns, parent);
    WithCancelIssues(ns, parent);
    WithCancelLater(ns, parent);
    var c := |tree.nodes|;
    tree.nodes := tree.nodes + [NewCancel(parent)];
    tree.PropagateCancel(parent, c);
    r := ContextAndCancel(c, CancelFunc(c, true));
    RootsStable(ns, tree.nodes);
  }

  /** withValue(parent, key, val), identical to the one of src/entry.ts. */
  method WithValue(tree: Tree, parent: Id, key: JsValue, val: JsValue) returns (r: Result<Id>)
    requires tree.Valid() && parent < |tree.nodes|
    modifies tree
    ensures tree.Valid()
    ensures r.Fail? <==> IsNullish(key)
    ensures r.Fail? ==> r.error == InvalidKey && tree.nodes == old(tree.nodes)
    ensures r.Ok? ==> r.value == |old(tree.nodes)| && tree.nodes == Constructors.WithValue(old(tree.nodes), parent, key, val).value
  {
    r := tree.WithValue(parent, key, val);
  }
}
