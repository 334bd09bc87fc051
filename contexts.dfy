/**
 * The five kinds of context node and the read surface every context offers
 * (deadline, done, err, value, toString).
 *
 * All nodes live in one sequence; a node's id is its index, and every
 * reference a node holds (its parent, or the embedded cancel node of a timer
 * node) points to an older node. That is what makes every walk up the tree
 * terminate.
 */
module Contexts {
  import opened Types

  type Id = nat

  /**
   * One context object.
   *  - Empty: an EmptyContext root (background, TODO).
   *  - Value: a ValueContext, immutable after construction.
   *  - Cancel: a CancelContext with its three lazily set fields `_err`,
   *    `_done` and `_children` (the registry, a Set kept in insertion order).
   *  - Timer: a TimerContext; `inner` is its embedded CancelContext, `armed`
   *    says whether `_timeoutId` holds a pending host timer.
   *  - Opaque: a context of a kind this library does not know (it forwards
   *    every read to the context it wraps).
   */
  datatype Node =
    | Empty(name: string)
    | Value(parent: Id, key: JsValue, val: JsValue)
    | Cancel(parent: Id, err: Option<Reason>, done: DoneState, children: Option<seq<Id>>)
    | Timer(inner: Id, deadline: int, armed: bool)
    | Opaque(parent: Id)

  /** The part of a node fixed at construction. */
  function Erase(n: Node): Node {
    match n
    case Cancel(p, _, _, _) => Cancel(p, None, NotCreated, None)
    case Timer(i, d, _) => Timer(i, d, false)
    case _ => n
  }

  /** ns' keeps every node of ns with the same construction-time fields:
      nodes are only ever appended, and only their mutable fields change. */
  ghost predicate Extends(ns: seq<Node>, ns': seq<Node>) {
    |ns| <= |ns'| && forall j :: 0 <= j < |ns| ==> Erase(ns'[j]) == Erase(ns[j])
  }

  ghost predicate SameShape(ns: seq<Node>, ns': seq<Node>) {
    |ns| == |ns'| && Extends(ns, ns')
  }

  /** The registry of a node; a node without one has none. */
  function Registry(n: Node): seq<Id> {
    if n.Cancel? && n.children.Some? then n.children.value else []
  }

  /** No registry of ns' holds an entry its counterpart in ns did not hold. */
  ghost predicate Shrinks(ns: seq<Node>, ns': seq<Node>) {
    |ns| == |ns'| &&
    forall j, c :: 0 <= j < |ns| && c in Registry(ns'[j]) ==> c in Registry(ns[j])
  }

  /** A node that can be canceled directly (the Canceler interface). */
  predicate IsCanceler(ns: seq<Node>, c: Id) {
    c < |ns| && (ns[c].Cancel? || ns[c].Timer?)
  }

  /** c is the cancel node embedded in the timer node allocated right after it. */
  predicate IsInner(ns: seq<Node>, c: Id) {
    c + 1 < |ns| && ns[c + 1].Timer? && ns[c + 1].inner == c
  }

  /** A canceler that the library hands out: a cancel node of its own, or a
      timer node. Only these are ever registered with an ancestor. */
  predicate IsHandle(ns: seq<Node>, c: Id) {
    IsCanceler(ns, c) && !IsInner(ns, c)
  }

  /** The cancel node that holds the state of canceler c. */
  function Base(ns: seq<Node>, c: Id): Id
    requires c < |ns|
  {
    if ns[c].Timer? then ns[c].inner else c
  }

  /** c may sit in the registry of node a. */
  predicate Registrable(ns: seq<Node>, a: Id, c: Id) {
    a < c && IsHandle(ns, c) && a < Base(ns, c)
  }

  /** The references held by node j point to older nodes of the right kind. */
  predicate Linked(ns: seq<Node>, j: Id)
    requires j < |ns|
  {
    match ns[j]
    case Empty(_) => true
    case Value(p, _, _) => p < j
    case Opaque(p) => p < j
    case Cancel(p, _, _, _) =>
      p < j && forall c :: c in Registry(ns[j]) ==> Registrable(ns, j, c)
    case Timer(inner, _, _) => inner + 1 == j && ns[inner].Cancel?
  }

  predicate WellFormed(ns: seq<Node>) {
    forall j :: 0 <= j < |ns| ==> Linked(ns, j)
  }

  predicate NoDup(s: seq<Id>) {
    forall a, b :: 0 <= a < b < |s| ==> s[a] != s[b]
  }

  /**
   * The invariants of a cancel node: a reason is set exactly when the done
   * signal is resolved, a canceled node has no registry, and a registry
   * holds each child once. An armed timer belongs to a live cancel node.
   */
  predicate NodeCoherent(ns: seq<Node>, j: Id)
    requires j < |ns|
  {
    match ns[j]
    case Cancel(_, err, done, children) =>
      (err.Some? <==> done == Resolved) && (err.Some? ==> children.None?) &&
      NoDup(Registry(ns[j]))
    case Timer(inner, _, armed) =>
      armed ==> inner < |ns| && ns[inner].Cancel? && ns[inner].err.None?
    case _ => true
  }

  predicate Coherent(ns: seq<Node>) {
    WellFormed(ns) && forall j :: 0 <= j < |ns| ==> NodeCoherent(ns, j)
  }

  // ---------------------------------------------------------------------
  // The read surface.

  /** deadline(): a timer node's own deadline; every other kind forwards to
      its parent, and a root has none. */
  function Deadline(ns: seq<Node>, j: Id): Option<int>
    requires WellFormed(ns) && j < |ns|
    decreases j
  {
    assert Linked(ns, j);
    match ns[j]
    case Empty(_) => None
    case Value(p, _, _) => Deadline(ns, p)
    case Cancel(p, _, _, _) => Deadline(ns, p)
    case Timer(_, d, _) => Some(d)
    case Opaque(p) => Deadline(ns, p)
  }

  /** The cancel node whose `_done` field done() reads: a cancel node's own,
      the embedded node of a timer; value and opaque nodes forward; a root
      has none (done() returns null). */
  function SignalOwner(ns: seq<Node>, j: Id): (o: Option<Id>)
    requires WellFormed(ns) && j < |ns|
    ensures o.Some? ==> o.value <= j && ns[o.value].Cancel?
    decreases j
  {
    assert Linked(ns, j);
    match ns[j]
    case Empty(_) => None
    case Value(p, _, _) => SignalOwner(ns, p)
    case Cancel(_, _, _, _) => Some(j)
    case Timer(inner, _, _) => Some(inner)
    case Opaque(p) => SignalOwner(ns, p)
  }

  /** The state of the signal done() returns, without creating it; None is
      the null that means "can never be canceled". */
  function Signal(ns: seq<Node>, j: Id): Option<DoneState>
    requires WellFormed(ns) && j < |ns|
  {
    match SignalOwner(ns, j)
    case None => None
    case Some(o) => Some(ns[o].done)
  }

  /** err(). */
  function Err(ns: seq<Node>, j: Id): Option<Reason>
    requires WellFormed(ns) && j < |ns|
    decreases j
  {
    assert Linked(ns, j);
    match ns[j]
    case Empty(_) => None
    case Value(p, _, _) => Err(ns, p)
    case Cancel(_, err, _, _) => err
    case Timer(inner, _, _) => ns[inner].err
    case Opaque(p) => Err(ns, p)
  }

  /** value(k): a value node answers for its own key (compared with ===)
      and forwards every other key; a root misses (undefined). */
  function Lookup(ns: seq<Node>, j: Id, k: JsValue): JsValue
    requires WellFormed(ns) && j < |ns|
    decreases j
  {
    assert Linked(ns, j);
    match ns[j]
    case Empty(_) => Undefined
    case Value(p, key, v) => if key == k then v else Lookup(ns, p, k)
    case Cancel(p, _, _, _) => Lookup(ns, p, k)
    case Timer(inner, _, _) => Lookup(ns, inner, k)
    case Opaque(p) => Lookup(ns, p, k)
  }

  /** toString(). A timer node prints the description of its embedded node's
      parent followed by `.WithDeadline(...)`, with an upper-case W. */
  function Describe(ns: seq<Node>, j: Id): string
    requires WellFormed(ns) && j < |ns|
    decreases j
  {
    assert Linked(ns, j);
    match ns[j]
    case Empty(name) => "context." + name
    case Value(p, key, v) => Describe(ns, p) + ".withValue(" + Show(key) + ", " + Show(v) + ")"
    case Cancel(p, _, _, _) => Describe(ns, p) + ".withCancel"
    case Timer(inner, d, _) =>
      assert Linked(ns, inner);
      Describe(ns, ns[inner].parent) + ".WithDeadline(" + ShowTime(d) + ")"
    case Opaque(p) => Describe(ns, p)
  }

  /** new EmptyContext(name), whose name defaults to UNKNOWN. */
  function EmptyContext(name: Option<string>): (n: Node)
    ensures WellFormed([n])
    ensures Describe([n], 0) == "context." + (if name.Some? then name.value else "UNKNOWN")
    ensures Deadline([n], 0).None? && Signal([n], 0).None? && Err([n], 0).None?
    ensures forall k :: Lookup([n], 0, k) == Undefined
  {
    Empty(if name.Some? then name.value else "UNKNOWN")
  }

  // ---------------------------------------------------------------------
  // Reference definitions: every read is a search along the chain of
  // contexts from a node up to its root.

  /** The node, then the context it wraps, and so on up to a root; a timer
      node wraps its embedded cancel node. */
  function Chain(ns: seq<Node>, j: Id): (c: seq<Id>)
    requires WellFormed(ns) && j < |ns|
    ensures |c| >= 1 && c[0] == j
    ensures forall i :: 0 <= i < |c| ==> c[i] <= j
    decreases j
  {
    assert Linked(ns, j);
    match ns[j]
    case Empty(_) => [j]
    case Value(p, _, _) => [j] + Chain(ns, p)
    case Cancel(p, _, _, _) => [j] + Chain(ns, p)
    case Timer(inner, _, _) => [j] + Chain(ns, inner)
    case Opaque(p) => [j] + Chain(ns, p)
  }

  predicate InRange(ns: seq<Node>, cs: seq<Id>) {
    forall i :: 0 <= i < |cs| ==> cs[i] < |ns|
  }

  /** The value of the first binding of k along cs. */
  function FirstBinding(ns: seq<Node>, cs: seq<Id>, k: JsValue): JsValue
    requires InRange(ns, cs)
  {
    if cs == [] then Undefined
    else if ns[cs[0]].Value? && ns[cs[0]].key == k then ns[cs[0]].val
    else FirstBinding(ns, cs[1..], k)
  }

  /** The deadline of the first timer node along cs. */
  function FirstDeadline(ns: seq<Node>, cs: seq<Id>): Option<int>
    requires InRange(ns, cs)
  {
    if cs == [] then None
    else if ns[cs[0]].Timer? then Some(ns[cs[0]].deadline)
    else FirstDeadline(ns, cs[1..])
  }

  /** The first cancel node along cs; with stopAtOpaque, the search gives up
      at a node of unknown kind. */
  function FirstCancel(ns: seq<Node>, cs: seq<Id>, stopAtOpaque: bool): Option<Id>
    requires InRange(ns, cs)
  {
    if cs == [] then None
    else if ns[cs[0]].Cancel? then Some(cs[0])
    else if stopAtOpaque && ns[cs[0]].Opaque? then None
    else FirstCancel(ns, cs[1..], stopAtOpaque)
  }

  /** The most recent binding of a key wins, and bindings on the far side of
      cancel, timer and opaque nodes stay visible. */
  lemma {:induction false} LookupIsNearestBinding(ns: seq<Node>, j: Id, k: JsValue)
    requires WellFormed(ns) && j < |ns|
    ensures InRange(ns, Chain(ns, j))
    ensures Lookup(ns, j, k) == FirstBinding(ns, Chain(ns, j), k)
    decreases j
  {
    assert Linked(ns, j);
    var c := Chain(ns, j);
    match ns[j]
    case Empty(_) =>
    case Value(p, _, _) =>
      LookupIsNearestBinding(ns, p, k);
      assert c[1..] == Chain(ns, p);
    case Cancel(p, _, _, _) =>
      LookupIsNearestBinding(ns, p, k);
      assert c[1..] == Chain(ns, p);
    case Timer(inner, _, _) =>
      LookupIsNearestBinding(ns, inner, k);
      assert c[1..] == Chain(ns, inner);
    case Opaque(p) =>
      LookupIsNearestBinding(ns, p, k);
      assert c[1..] == Chain(ns, p);
  }

  /** A node's deadline is that of the nearest timer node above it. */
  lemma {:induction false} DeadlineIsNearestTimer(ns: seq<Node>, j: Id)
    requires WellFormed(ns) && j < |ns|
    ensures InRange(ns, Chain(ns, j))
    ensures Deadline(ns, j) == FirstDeadline(ns, Chain(ns, j))
    decreases j
  {
    assert Linked(ns, j);
    var c := Chain(ns, j);
    match ns[j]
    case Empty(_) =>
    case Value(p, _, _) =>
      DeadlineIsNearestTimer(ns, p);
      assert c[1..] == Chain(ns, p);
    case Cancel(p, _, _, _) =>
      DeadlineIsNearestTimer(ns, p);
      assert c[1..] == Chain(ns, p);
    case Timer(inner, _, _) =>
    case Opaque(p) =>
      DeadlineIsNearestTimer(ns, p);
      assert c[1..] == Chain(ns, p);
  }

  /** done() reads the signal of the nearest cancel node above, looking
      through opaque nodes, and err() reads that node's reason. */
  lemma {:induction false} ErrIsOwnersReason(ns: seq<Node>, j: Id)
    requires WellFormed(ns) && j < |ns|
    ensures InRange(ns, Chain(ns, j))
    ensures SignalOwner(ns, j) == FirstCancel(ns, Chain(ns, j), false)
    ensures Err(ns, j) == (if SignalOwner(ns, j).Some? then ns[SignalOwner(ns, j).value].err else None)
    decreases j
  {
    assert Linked(ns, j);
    var c := Chain(ns, j);
    match ns[j]
    case Empty(_) =>
    case Value(p, _, _) =>
      ErrIsOwnersReason(ns, p);
      assert c[1..] == Chain(ns, p);
    case Cancel(p, _, _, _) =>
    case Timer(inner, _, _) =>
      assert Linked(ns, inner);
      assert c[1..] == Chain(ns, inner);
    case Opaque(p) =>
      ErrIsOwnersReason(ns, p);
      assert c[1..] == Chain(ns, p);
  }

  /** A canceler reports the reason held by its own cancel node. */
  lemma CancelerReadsBase(ns: seq<Node>, x: Id)
    requires WellFormed(ns) && IsCanceler(ns, x)
    ensures Base(ns, x) < |ns| && ns[Base(ns, x)].Cancel?
    ensures Err(ns, x) == ns[Base(ns, x)].err
  {
    assert Linked(ns, x);
    ErrIsOwnersReason(ns, x);
    if ns[x].Timer? {
      ErrIsOwnersReason(ns, ns[x].inner);
    }
  }

  /** The Context contract: err() is null exactly while the done signal is
      not resolved (absent or pending), and non-null once it is. */
  lemma ErrIffResolved(ns: seq<Node>, j: Id)
    requires Coherent(ns) && j < |ns|
    ensures Err(ns, j).Some? <==> Signal(ns, j) == Some(Resolved)
    ensures Signal(ns, j).None? ==> Err(ns, j).None?
  {
    ErrIsOwnersReason(ns, j);
    var o := SignalOwner(ns, j);
    if o.Some? {
      assert NodeCoherent(ns, o.value);
    }
  }

  /** Every read but err() depends only on what is fixed at construction, so
      it returns the same result in every later state. */
  lemma {:induction false} ReadsStable(ns: seq<Node>, ns': seq<Node>, j: Id)
    requires WellFormed(ns) && WellFormed(ns') && Extends(ns, ns') && j < |ns|
    ensures Deadline(ns', j) == Deadline(ns, j)
    ensures SignalOwner(ns', j) == SignalOwner(ns, j)
    ensures Describe(ns', j) == Describe(ns, j)
    ensures Chain(ns', j) == Chain(ns, j)
    ensures forall k :: Lookup(ns', j, k) == Lookup(ns, j, k)
    decreases j
  {
    assert Linked(ns, j) && Linked(ns', j);
    assert Erase(ns'[j]) == Erase(ns[j]);
    match ns[j]
    case Empty(_) =>
    case Value(p, _, _) => ReadsStable(ns, ns', p);
    case Cancel(p, _, _, _) => ReadsStable(ns, ns', p);
    case Timer(inner, _, _) =>
      assert Linked(ns, inner);
      assert Erase(ns'[inner]) == Erase(ns[inner]);
      ReadsStable(ns, ns', inner);
      ReadsStable(ns, ns', ns[inner].parent);
    case Opaque(p) => ReadsStable(ns, ns', p);
  }

  /** A well-formed store stays well-formed when only mutable fields change
      and registries only lose entries. */
  lemma WellFormedTransfer(ns: seq<Node>, ns': seq<Node>)
    requires WellFormed(ns) && SameShape(ns, ns') && Shrinks(ns, ns')
    ensures WellFormed(ns')
  {
    forall j | 0 <= j < |ns'| ensures Linked(ns', j) {
      assert Linked(ns, j);
      assert Erase(ns'[j]) == Erase(ns[j]);
      if ns[j].Timer? {
        assert Erase(ns'[ns[j].inner]) == Erase(ns[ns[j].inner]);
      }
      forall c | c in Registry(ns'[j]) ensures Registrable(ns', j, c) {
        assert c in Registry(ns[j]);
        assert Registrable(ns, j, c);
        assert Erase(ns'[c]) == Erase(ns[c]);
        if c + 1 < |ns| {
          assert Erase(ns'[c + 1]) == Erase(ns[c + 1]);
        }
      }
    }
  }
}
