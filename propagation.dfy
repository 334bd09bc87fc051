/**
 * done() and propagateCancel (src/core.ts): how a new canceler is wired to
 * its parent.
 */
module Propagation {
  import opened Types
  import opened Contexts
  import opened Ancestry
  import opened Cancellation

  /** done() on node j: the signal owner creates its promise on first use;
      later calls return the same one. A root has no signal. */
  function CreateSignal(ns: seq<Node>, j: Id): (ns': seq<Node>)
    requires WellFormed(ns) && j < |ns|
    ensures SameShape(ns, ns') && Shrinks(ns, ns') && WellFormed(ns')
  {
    match SignalOwner(ns, j)
    case None => ns
    case Some(o) =>
      if ns[o].done == NotCreated then
        var ns' := ns[o := ns[o].(done := Pending)];
        assert Erase(ns'[o]) == Erase(ns[o]);
        WellFormedTransfer(ns, ns');
        ns'
      else ns
  }

  /** done() returns a signal exactly when the node can be canceled; the
      first call moves it from absent to pending, and reasons, registries and
      every other node stay as they were. */
  lemma CreateSignalEffect(ns: seq<Node>, j: Id)
    requires WellFormed(ns) && j < |ns|
    ensures var ns' := CreateSignal(ns, j);
      && Signal(ns', j) == (if Signal(ns, j) == Some(NotCreated) then Some(Pending) else Signal(ns, j))
      && (forall i :: 0 <= i < |ns| && Some(i) != SignalOwner(ns, j) ==> ns'[i] == ns[i])
      && (forall i :: 0 <= i < |ns| ==> Err(ns', i) == Err(ns, i))
      && (forall i :: 0 <= i < |ns| ==> Registry(ns'[i]) == Registry(ns[i]))
  {
    var ns' := CreateSignal(ns, j);
    ReadsStable(ns, ns', j);
    forall i | 0 <= i < |ns| ensures Err(ns', i) == Err(ns, i) {
      ErrIsOwnersReason(ns, i);
      ErrIsOwnersReason(ns', i);
      ReadsStable(ns, ns', i);
    }
  }

  /** done() twice is done() once: the promise is created at most once. */
  lemma CreateSignalIdempotent(ns: seq<Node>, j: Id)
    requires WellFormed(ns) && j < |ns|
    ensures CreateSignal(CreateSignal(ns, j), j) == CreateSignal(ns, j)
  {
    ReadsStable(ns, CreateSignal(ns, j), j);
  }

  lemma CreateSignalKeepsCoherent(ns: seq<Node>, j: Id)
    requires Coherent(ns) && j < |ns|
    ensures Coherent(CreateSignal(ns, j))
  {
    var ns' := CreateSignal(ns, j);
    forall i | 0 <= i < |ns| ensures NodeCoherent(ns', i) {
      assert NodeCoherent(ns, i);
      if ns'[i].Timer? && ns'[i].armed {
        assert Linked(ns, i);
      }
    }
  }

  /** `p._children.add(child)` on a live ancestor keeps the store well-formed
      when the child may be registered there. */
  lemma RegisterKeepsWellFormed(ns: seq<Node>, a: Id, child: Id)
    requires WellFormed(ns) && a < |ns| && ns[a].Cancel? && Registrable(ns, a, child)
    ensures SameShape(ns, Register(ns, a, child)) && WellFormed(Register(ns, a, child))
  {
    var ns' := Register(ns, a, child);
    assert Erase(ns'[a]) == Erase(ns[a]);
    forall j | 0 <= j < |ns'| ensures Linked(ns', j) {
      RegisterKeepsLinked(ns, a, child, j);
    }
  }

  lemma RegisterKeepsLinked(ns: seq<Node>, a: Id, child: Id, j: Id)
    requires WellFormed(ns) && a < |ns| && ns[a].Cancel? && Registrable(ns, a, child) && j < |ns|
    ensures Linked(Register(ns, a, child), j)
  {
    var ns' := Register(ns, a, child);
    assert Linked(ns, j);
    if ns[j].Timer? {
      assert ns'[ns[j].inner].Cancel?;
    }
    if ns[j].Cancel? {
      forall x | x in Registry(ns'[j]) ensures Registrable(ns', j, x) {
        assert Registrable(ns, j, x);
        assert Erase(ns'[x]) == Erase(ns[x]);
        if x + 1 < |ns| {
          assert Erase(ns'[x + 1]) == Erase(ns[x + 1]);
        }
      }
    }
  }

  /** What propagateCancel may rely on about the new canceler: it (and its
      cancel node) was created after `parent`. */
  predicate Attachable(ns: seq<Node>, parent: Id, child: Id) {
    IsHandle(ns, child) && parent < Base(ns, child) <= child
  }

  /**
   * propagateCancel(parent, child): ask the parent for its signal; if it has
   * none, stop. Otherwise find the cancel ancestor; if it is already
   * canceled, cancel the child with the same reason (without detaching);
   * if it is live, register the child there. With no cancel ancestor (an
   * opaque node on the way) the code builds a Promise.race over the
   * parent's signal and `child.done()`, which creates the child's signal
   * at once; the asynchronous watcher that the race starts is left out.
   */
  ghost function Propagate(ns: seq<Node>, parent: Id, child: Id): (ns': seq<Node>)
    requires WellFormed(ns) && Attachable(ns, parent, child)
    ensures SameShape(ns, ns') && WellFormed(ns')
  {
    if SignalOwner(ns, parent).None? then ns
    else
      var ns1 := CreateSignal(ns, parent);
      ParentCancelStable(ns, ns1, parent);
      match ParentCancel(ns1, parent)
      case None =>
        var ns2 := CreateSignal(ns1, child);
        ShapeTrans(ns, ns1, ns2);
        ns2
      case Some(a) =>
        assert Erase(ns1[child]) == Erase(ns[child]);
        assert child + 1 < |ns| ==> Erase(ns1[child + 1]) == Erase(ns[child + 1]);
        if ns1[a].err.Some? then
          var ns' := CancelSpec(ns1, child, false, ns1[a].err.value);
          ShapeTrans(ns, ns1, ns');
          ns'
        else
          RegisterKeepsWellFormed(ns1, a, child);
          Register(ns1, a, child)
  }

  /** A parent whose done() is null can never be canceled: nothing changes,
      the child is neither canceled nor registered. */
  lemma PropagateUnderRoot(ns: seq<Node>, parent: Id, child: Id)
    requires WellFormed(ns) && Attachable(ns, parent, child)
    requires Signal(ns, parent).None?
    ensures Propagate(ns, parent, child) == ns
  {
  }

  /** An already canceled ancestor cancels the child at once with its own
      reason, without detaching; nothing older than the child changes beyond
      the parent's signal being created. */
  lemma PropagateUnderCanceled(ns: seq<Node>, parent: Id, child: Id)
    requires Coherent(ns) && Attachable(ns, parent, child)
    requires ParentCancel(ns, parent).Some? && ns[ParentCancel(ns, parent).value].err.Some?
    ensures var e := ns[ParentCancel(ns, parent).value].err;
      var ns' := Propagate(ns, parent, child);
      && ns' == CancelSpec(CreateSignal(ns, parent), child, false, e.value)
      && Err(ns', child) == (if Err(ns, child).Some? then Err(ns, child) else e)
      && (forall j :: 0 <= j < Base(ns, child) ==> ns'[j] == CreateSignal(ns, parent)[j])
  {
    var a := ParentCancel(ns, parent).value;
    ParentCancelIsNearestCancel(ns, parent);
    var ns1 := CreateSignal(ns, parent);
    CreateSignalEffect(ns, parent);
    CreateSignalKeepsCoherent(ns, parent);
    ParentCancelStable(ns, ns1, parent);
    ErrIsOwnersReason(ns, a);
    assert Err(ns, a) == ns[a].err;
    assert ns1[a].err == ns[a].err;
    assert Erase(ns1[child]) == Erase(ns[child]);
    assert Linked(ns, child);
    if ns[child].Timer? {
      assert Erase(ns1[ns[child].inner]) == Erase(ns[ns[child].inner]);
    }
    FirstReasonWins(ns1, child, false, ns[a].err.value);
    SweepEffect(ns1, child, ns[a].err.value);
    assert Propagate(ns, parent, child) == Sweep(ns1, child, ns[a].err.value);
    ErrIsOwnersReason(ns, child);
    ErrIsOwnersReason(ns1, child);
  }

  /** A live ancestor's registry is created on first use and gains exactly
      the child, at the end; every other node is as after done(). */
  lemma PropagateUnderLive(ns: seq<Node>, parent: Id, child: Id)
    requires WellFormed(ns) && Attachable(ns, parent, child)
    requires ParentCancel(ns, parent).Some? && ns[ParentCancel(ns, parent).value].err.None?
    ensures var a := ParentCancel(ns, parent).value;
      var ns' := Propagate(ns, parent, child);
      && ns'[a].children.Some?
      && Registry(ns'[a]) == AddOnce(Registry(ns[a]), child)
      && (child !in Registry(ns[a]) ==> Registry(ns'[a]) == Registry(ns[a]) + [child])
      && ns'[a].err.None?
      && (forall j :: 0 <= j < |ns| && j != a ==> ns'[j] == CreateSignal(ns, parent)[j])
  {
    var a := ParentCancel(ns, parent).value;
    ParentCancelIsNearestCancel(ns, parent);
    var ns1 := CreateSignal(ns, parent);
    CreateSignalEffect(ns, parent);
    ParentCancelStable(ns, ns1, parent);
    assert Registry(ns1[a]) == Registry(ns[a]);
  }

  /** The parent can be canceled but has no cancel ancestor the walk can
      reach (an opaque node is in the way): propagateCancel falls back to
      its Promise.race. */
  predicate Watched(ns: seq<Node>, parent: Id)
    requires WellFormed(ns) && parent < |ns|
  {
    SignalOwner(ns, parent).Some? && ParentCancel(ns, parent).None?
  }

  /** Under an opaque node the code only starts its watcher: done() creates
      the parent's signal, building the race creates the child's, and no
      reason or registry changes. */
  lemma PropagateUnderOpaque(ns: seq<Node>, parent: Id, child: Id)
    requires WellFormed(ns) && Attachable(ns, parent, child) && Watched(ns, parent)
    ensures var ns' := Propagate(ns, parent, child);
      && ns' == CreateSignal(CreateSignal(ns, parent), child)
      && Signal(ns', child) == Some(if Signal(ns, child) == Some(NotCreated) then Pending else Signal(ns, child).value)
      && (forall j :: 0 <= j < |ns| ==> Err(ns', j) == Err(ns, j) && Registry(ns'[j]) == Registry(ns[j]))
  {
    var ns1 := CreateSignal(ns, parent);
    ParentCancelStable(ns, ns1, parent);
    CreateSignalEffect(ns, parent);
    CreateSignalEffect(ns1, child);
    ReadsStable(ns, ns1, child);
    assert Linked(ns, child);
    assert Signal(ns1, child) == Signal(ns, child);
  }

  /** propagateCancel keeps the store coherent, provided the child is not
      registered yet. */
  lemma PropagateKeepsCoherent(ns: seq<Node>, parent: Id, child: Id)
    requires Coherent(ns) && Attachable(ns, parent, child)
    requires forall j :: 0 <= j < |ns| ==> child !in Registry(ns[j])
    ensures Coherent(Propagate(ns, parent, child))
  {
    if SignalOwner(ns, parent).Some? {
      var ns1 := CreateSignal(ns, parent);
      CreateSignalKeepsCoherent(ns, parent);
      CreateSignalEffect(ns, parent);
      ParentCancelStable(ns, ns1, parent);
      match ParentCancel(ns1, parent)
      case None =>
        CreateSignalKeepsCoherent(ns1, child);
      case Some(a) =>
        assert Erase(ns1[child]) == Erase(ns[child]);
        if child + 1 < |ns| {
          assert Erase(ns1[child + 1]) == Erase(ns[child + 1]);
        }
        if ns1[a].err.None? {
          RegisterKeepsCoherent(ns1, a, child);
        } else {
          CancelKeepsCoherent(ns1, child, false, ns1[a].err.value);
        }
    }
  }

  /** Registering a child that no registry holds with a live cancel node
      keeps the node invariants. */
  lemma RegisterKeepsCoherent(ns: seq<Node>, a: Id, child: Id)
    requires Coherent(ns) && a < |ns| && ns[a].Cancel? && ns[a].err.None? && Registrable(ns, a, child)
    requires forall j :: 0 <= j < |ns| ==> child !in Registry(ns[j])
    ensures Coherent(Register(ns, a, child))
  {
    var ns' := Register(ns, a, child);
    RegisterKeepsWellFormed(ns, a, child);
    forall j | 0 <= j < |ns'| ensures NodeCoherent(ns', j) {
      assert NodeCoherent(ns, j);
      if ns'[j].Timer? && ns'[j].armed {
        assert Linked(ns, j);
      }
    }
  }

  /** propagateCancel never cancels anything older than the child: every
      node created before it reports the same err() afterwards. */
  lemma PropagateSparesOlder(ns: seq<Node>, parent: Id, child: Id)
    requires WellFormed(ns) && Attachable(ns, parent, child)
    ensures forall j :: 0 <= j < Base(ns, child) ==> Err(Propagate(ns, parent, child), j) == Err(ns, j)
  {
    var ns' := Propagate(ns, parent, child);
    if SignalOwner(ns, parent).Some? {
      var ns1 := CreateSignal(ns, parent);
      CreateSignalEffect(ns, parent);
      ParentCancelStable(ns, ns1, parent);
      assert Erase(ns1[child]) == Erase(ns[child]);
      assert Linked(ns, child);
      if ns[child].Timer? {
        assert Erase(ns1[ns[child].inner]) == Erase(ns[ns[child].inner]);
      }
      var b := Base(ns, child);
      assert forall j :: 0 <= j < b && ns1[j].Cancel? ==> ns'[j].Cancel? && ns'[j].err == ns1[j].err by {
        match ParentCancel(ns1, parent)
        case None =>
          CreateSignalEffect(ns1, child);
          forall j | 0 <= j < b && ns1[j].Cancel? ensures ns'[j] == ns1[j] {
            assert Linked(ns1, child);
          }
        case Some(a) =>
          if ns1[a].err.Some? {
            SweepEffect(ns1, child, ns1[a].err.value);
          }
      }
      forall j | 0 <= j < b ensures Err(ns', j) == Err(ns, j) {
        ErrKeptBelow(ns1, ns', b, j);
      }
    }
  }

  lemma PropagateSparesOlderAt(ns: seq<Node>, parent: Id, child: Id, j: Id)
    requires WellFormed(ns) && Attachable(ns, parent, child) && j < Base(ns, child)
    ensures Err(Propagate(ns, parent, child), j) == Err(ns, j)
  {
    PropagateSparesOlder(ns, parent, child);
  }

  /** A change that keeps every reason held below b keeps what err()
      reports for every node below b. */
  lemma ErrKeptBelow(ns: seq<Node>, ns': seq<Node>, b: Id, j: Id)
    requires WellFormed(ns) && WellFormed(ns') && Extends(ns, ns') && j < b <= |ns|
    requires forall i :: 0 <= i < b && ns[i].Cancel? ==> ns'[i].Cancel? && ns'[i].err == ns[i].err
    ensures Err(ns', j) == Err(ns, j)
  {
    ErrIsOwnersReason(ns, j);
    ErrIsOwnersReason(ns', j);
    ReadsStable(ns, ns', j);
  }

  /** The reason the parent's cancel ancestor already holds, if any: what
      propagateCancel hands to a new child. */
  function InheritedReason(ns: seq<Node>, parent: Id): Option<Reason>
    requires WellFormed(ns) && parent < |ns|
  {
    match ParentCancel(ns, parent)
    case None => None
    case Some(a) => ns[a].err
  }

  /** A cancel node whose signal has been asked for. */
  function Created(n: Node): Node {
    if n.Cancel? && n.done == NotCreated then n.(done := Pending) else n
  }

  /** A live child leaves propagateCancel canceled exactly when the parent's
      cancel ancestor is, with that ancestor's reason; otherwise its cancel
      node is untouched, except that under a watched parent its signal has
      been created. */
  lemma PropagateChildReason(ns: seq<Node>, parent: Id, child: Id)
    requires Coherent(ns) && Attachable(ns, parent, child) && Err(ns, child).None?
    ensures var ns' := Propagate(ns, parent, child);
      var b := Base(ns, child);
      && Err(ns', child) == InheritedReason(ns, parent)
      && (InheritedReason(ns, parent).None? ==>
            ns'[b] == if Watched(ns, parent) then Created(ns[b]) else ns[b])
  {
    var ns' := Propagate(ns, parent, child);
    CancelerReadsBase(ns, child);
    CancelerReadsBase(ns', child);
    assert Erase(ns'[child]) == Erase(ns[child]);
    PropagateBaseReason(ns, parent, child);
  }

  /** The reason and the node state propagateCancel leaves at the child's
      cancel node. */
  lemma PropagateBaseReason(ns: seq<Node>, parent: Id, child: Id)
    requires Coherent(ns) && Attachable(ns, parent, child) && ns[Base(ns, child)].Cancel?
    requires ns[Base(ns, child)].err.None?
    ensures var ns' := Propagate(ns, parent, child);
      var b := Base(ns, child);
      && ns'[b].Cancel? && ns'[b].err == InheritedReason(ns, parent)
      && (InheritedReason(ns, parent).None? ==>
            ns'[b] == if Watched(ns, parent) then Created(ns[b]) else ns[b])
  {
    var ns' := Propagate(ns, parent, child);
    ParentCancelIsNearestCancel(ns, parent);
    assert Linked(ns, child);
    if SignalOwner(ns, parent).Some? {
      CreateSignalEffect(ns, parent);
      match ParentCancel(ns, parent)
      case None =>
        PropagateUnderOpaque(ns, parent, child);
      case Some(a) =>
        if ns[a].err.Some? {
          PropagateUnderCanceled(ns, parent, child);
        } else {
          PropagateUnderLive(ns, parent, child);
        }
    }
  }
}
