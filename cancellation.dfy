/**
 * CancelContext.cancel and TimerContext.cancel as functions of the store.
 *
 * Sweep is `cancel(false, r)`: the first call on a live cancel node stores
 * the reason, resolves (or creates resolved) the done signal, cancels every
 * registered child with the same reason and `removeFromParent = false` in
 * registration order, then drops the registry. A timer node delegates to
 * its embedded cancel node and then clears its host timer. CancelSpec adds
 * `removeFromParent`: the canceled node leaves its ancestor's registry.
 */
module Cancellation {
  import opened Types
  import opened Contexts
  import opened Ancestry

  /** A cancel function handed to a caller: `() => c.cancel(detach, reason)`. */
  datatype CancelFunc = CancelFunc(target: Id, detach: bool)

  /** The context whose cancel ancestor a canceler leaves: a cancel node's
      `context`, a timer node's `_cancelContext.context`. */
  function ParentOf(ns: seq<Node>, c: Id): (p: Id)
    requires WellFormed(ns) && IsCanceler(ns, c)
    ensures p < Base(ns, c) <= c
  {
    assert Linked(ns, c);
    if ns[c].Cancel? then ns[c].parent
    else
      assert Linked(ns, ns[c].inner);
      ns[ns[c].inner].parent
  }

  /** Replacing one node by one with the same construction-time fields and no
      new registry entries keeps the store well-formed. */
  lemma EditKeepsShape(ns: seq<Node>, j: Id, n: Node)
    requires WellFormed(ns) && j < |ns| && Erase(n) == Erase(ns[j])
    requires forall x :: x in Registry(n) ==> x in Registry(ns[j])
    ensures SameShape(ns, ns[j := n]) && Shrinks(ns, ns[j := n]) && WellFormed(ns[j := n])
  {
    WellFormedTransfer(ns, ns[j := n]);
  }

  lemma ShapeTrans(ns0: seq<Node>, ns1: seq<Node>, ns2: seq<Node>)
    requires SameShape(ns0, ns1) && Shrinks(ns0, ns1) && SameShape(ns1, ns2) && Shrinks(ns1, ns2)
    ensures SameShape(ns0, ns2) && Shrinks(ns0, ns2)
  {
    forall j | 0 <= j < |ns0| ensures Erase(ns2[j]) == Erase(ns0[j]) {
      assert Erase(ns2[j]) == Erase(ns1[j]);
    }
  }

  /** Registrability depends only on construction-time fields. */
  lemma RegistrableStable(ns: seq<Node>, ns': seq<Node>, a: Id, cs: seq<Id>)
    requires SameShape(ns, ns')
    requires forall k :: 0 <= k < |cs| ==> Registrable(ns, a, cs[k])
    ensures forall k :: 0 <= k < |cs| ==> Registrable(ns', a, cs[k]) && Base(ns', cs[k]) == Base(ns, cs[k])
  {
    forall k | 0 <= k < |cs|
      ensures Registrable(ns', a, cs[k]) && Base(ns', cs[k]) == Base(ns, cs[k])
    {
      var c := cs[k];
      assert Registrable(ns, a, c);
      assert Erase(ns'[c]) == Erase(ns[c]);
      if c + 1 < |ns| {
        assert Erase(ns'[c + 1]) == Erase(ns[c + 1]);
      }
    }
  }

  /** cancel(false, r) on canceler c. */
  ghost function Sweep(ns: seq<Node>, c: Id, r: Reason): (ns': seq<Node>)
    requires WellFormed(ns) && IsCanceler(ns, c)
    ensures SameShape(ns, ns') && Shrinks(ns, ns') && WellFormed(ns')
    decreases |ns| - Base(ns, c), if ns[c].Timer? then 3 else 2, 0
  {
    assert Linked(ns, c);
    if ns[c].Cancel? then
      if ns[c].err.Some? then ns  // already canceled: the first reason wins
      else
        var cs := Registry(ns[c]);
        var marked := ns[c := ns[c].(err := Some(r), done := Resolved)];
        EditKeepsShape(ns, c, marked[c]);
        RegistrableStable(ns, marked, c, cs);
        var fanned := FanOut(marked, cs, c, r);
        assert Erase(fanned[c]) == Erase(marked[c]);
        var cleared := fanned[c := fanned[c].(children := None)];
        EditKeepsShape(fanned, c, cleared[c]);
        ShapeTrans(ns, marked, fanned);
        ShapeTrans(ns, fanned, cleared);
        cleared
    else
      var delegated := Sweep(ns, ns[c].inner, r);
      assert Erase(delegated[c]) == Erase(ns[c]);
      var disarmed := delegated[c := delegated[c].(armed := false)];
      EditKeepsShape(delegated, c, disarmed[c]);
      ShapeTrans(ns, delegated, disarmed);
      disarmed
  }

  /** The fan-out loop: cancel each registered child in turn. */
  ghost function FanOut(ns: seq<Node>, cs: seq<Id>, lo: Id, r: Reason): (ns': seq<Node>)
    requires WellFormed(ns) && lo < |ns|
    requires forall k :: 0 <= k < |cs| ==> Registrable(ns, lo, cs[k])
    ensures SameShape(ns, ns') && Shrinks(ns, ns') && WellFormed(ns')
    decreases |ns| - lo, 1, |cs|
  {
    if cs == [] then ns
    else
      assert Registrable(ns, lo, cs[0]);
      var ns1 := Sweep(ns, cs[0], r);
      RegistrableStable(ns, ns1, lo, cs[1..]);
      var ns2 := FanOut(ns1, cs[1..], lo, r);
      ShapeTrans(ns, ns1, ns2);
      ns2
  }

  /** cancel(removeFromParent, r) on canceler c. A cancel node that is
      already canceled returns before detaching; a timer node detaches in
      any case. */
  ghost function CancelSpec(ns: seq<Node>, c: Id, remove: bool, r: Reason): (ns': seq<Node>)
    requires WellFormed(ns) && IsCanceler(ns, c)
    ensures SameShape(ns, ns') && Shrinks(ns, ns') && WellFormed(ns')
  {
    var swept := Sweep(ns, c, r);
    if remove && (ns[c].Timer? || ns[c].err.None?) then
      var ns' := Detach(swept, ParentOf(ns, c), c);
      ShapeTrans(ns, swept, ns');
      ns'
    else swept
  }

  // ---------------------------------------------------------------------
  // What a sweep does to each node.

  /** Node j is a cancel node that holds a reason. */
  ghost predicate CanceledAt(ns: seq<Node>, j: int) {
    0 <= j < |ns| && ns[j].Cancel? && ns[j].err.Some?
  }

  /** The only changes a sweep makes to a node: a live cancel node becomes
      canceled with reason r (signal resolved, registry dropped), a timer
      node loses its host timer. */
  ghost predicate Touched(a: Node, b: Node, r: Reason) {
    || b == a
    || (a.Cancel? && a.err.None? && b == Cancel(a.parent, Some(r), Resolved, None))
    || (a.Timer? && b == a.(armed := false))
  }

  /** Every node is at most Touched, and the nodes below `lo` are unchanged. */
  ghost predicate SweptBy(ns: seq<Node>, ns': seq<Node>, lo: int, r: Reason) {
    && |ns| == |ns'|
    && (forall j :: 0 <= j < |ns| ==> Touched(ns[j], ns'[j], r))
    && (forall j :: 0 <= j < |ns| && j < lo ==> ns'[j] == ns[j])
  }

  /** An armed timer of ns' found its embedded node as it was in ns, unless
      that node is `spared`. */
  ghost predicate ArmedInnerKept(ns: seq<Node>, ns': seq<Node>, spared: int) {
    |ns| == |ns'| &&
    forall t :: 0 <= t < |ns'| && ns'[t].Timer? && ns'[t].armed && ns'[t].inner < |ns| && ns'[t].inner != spared ==>
      ns'[ns'[t].inner] == ns[ns'[t].inner]
  }

  lemma TouchedTrans(a: Node, b: Node, c: Node, r: Reason)
    requires Touched(a, b, r) && Touched(b, c, r)
    ensures Touched(a, c, r)
  {
  }

  lemma SweptByTrans(ns0: seq<Node>, ns1: seq<Node>, ns2: seq<Node>, lo: int, r: Reason)
    requires SweptBy(ns0, ns1, lo, r) && SweptBy(ns1, ns2, lo, r)
    ensures SweptBy(ns0, ns2, lo, r)
  {
    forall j | 0 <= j < |ns0| ensures Touched(ns0[j], ns2[j], r) {
      TouchedTrans(ns0[j], ns1[j], ns2[j], r);
    }
  }

  /**
   * The effect of cancel(false, r) on canceler c: the nodes it changes are
   * only canceled (with r) or disarmed; nothing older than c's cancel node
   * changes, so cancellation never flows upward; c's cancel node ends up
   * canceled and c's timer disarmed; every child registered with a live c
   * ends up canceled; and an armed timer still sees its embedded node as
   * it was.
   */
  lemma {:induction false} SweepEffect(ns: seq<Node>, c: Id, r: Reason)
    requires WellFormed(ns) && IsCanceler(ns, c)
    ensures var ns' := Sweep(ns, c, r);
      && SweptBy(ns, ns', Base(ns, c), r)
      && CanceledAt(ns', Base(ns, c))
      && (ns[c].Timer? ==> !ns'[c].armed)
      && (ns[c].Cancel? && ns[c].err.None? ==>
            forall x :: x in Registry(ns[c]) ==>
              x < |ns| && CanceledAt(ns', Base(ns, x)) && (ns[x].Timer? ==> !ns'[x].armed))
      && ArmedInnerKept(ns, ns', Base(ns, c))
    decreases |ns| - Base(ns, c), if ns[c].Timer? then 3 else 2, 0
  {
    assert Linked(ns, c);
    var ns' := Sweep(ns, c, r);
    if ns[c].Cancel? {
      if ns[c].err.None? {
        var cs := Registry(ns[c]);
        var marked := ns[c := ns[c].(err := Some(r), done := Resolved)];
        EditKeepsShape(ns, c, marked[c]);
        RegistrableStable(ns, marked, c, cs);
        var fanned := FanOut(marked, cs, c, r);
        FanOutEffect(marked, cs, c, r);
        assert ns' == fanned[c := fanned[c].(children := None)];
        MarkFanClear(ns, c, r, marked, fanned);
      }
    } else {
      var inner := ns[c].inner;
      assert Linked(ns, inner);
      var delegated := Sweep(ns, inner, r);
      SweepEffect(ns, inner, r);
      assert ns' == delegated[c := delegated[c].(armed := false)];
      assert Touched(ns[c], delegated[c], r);
      forall t | 0 <= t < |ns'| && ns'[t].Timer? && ns'[t].armed && ns'[t].inner < |ns| && ns'[t].inner != inner
        ensures ns'[ns'[t].inner] == ns[ns'[t].inner]
      {
        assert t != c;
        assert delegated[t] == ns'[t];
        assert Linked(ns', t);
      }
    }
  }

  /** The live-cancel-node case of SweepEffect, given what the fan-out did. */
  lemma MarkFanClear(ns: seq<Node>, c: Id, r: Reason, marked: seq<Node>, fanned: seq<Node>)
    requires WellFormed(ns) && c < |ns| && ns[c].Cancel? && ns[c].err.None?
    requires marked == ns[c := ns[c].(err := Some(r), done := Resolved)]
    requires SameShape(marked, fanned) && SweptBy(marked, fanned, c + 1, r)
    requires forall k :: 0 <= k < |Registry(ns[c])| ==>
      Registry(ns[c])[k] < |marked| && CanceledAt(fanned, Base(marked, Registry(ns[c])[k])) &&
      (marked[Registry(ns[c])[k]].Timer? ==> !fanned[Registry(ns[c])[k]].armed)
    requires ArmedInnerKept(marked, fanned, -1)
    ensures var ns' := fanned[c := fanned[c].(children := None)];
      && SweptBy(ns, ns', c, r)
      && CanceledAt(ns', c)
      && (forall x :: x in Registry(ns[c]) ==>
            x < |ns| && CanceledAt(ns', Base(ns, x)) && (ns[x].Timer? ==> !ns'[x].armed))
      && ArmedInnerKept(ns, ns', c)
  {
    var cs := Registry(ns[c]);
    var ns' := fanned[c := fanned[c].(children := None)];
    assert fanned[c] == marked[c];
    assert Linked(ns, c);
    forall j | 0 <= j < |ns| ensures Touched(ns[j], ns'[j], r) {
      if j != c {
        assert marked[j] == ns[j];
      }
    }
    forall x | x in cs ensures x < |ns| && CanceledAt(ns', Base(ns, x)) && (ns[x].Timer? ==> !ns'[x].armed) {
      var k :| 0 <= k < |cs| && cs[k] == x;
      assert Registrable(ns, c, cs[k]);
      assert Erase(marked[x]) == Erase(ns[x]);
    }
    forall t | 0 <= t < |ns'| && ns'[t].Timer? && ns'[t].armed && ns'[t].inner < |ns| && ns'[t].inner != c
      ensures ns'[ns'[t].inner] == ns[ns'[t].inner]
    {
      assert fanned[t] == ns'[t];
      var i := ns'[t].inner;
      assert fanned[i] == marked[i] == ns[i];
      assert ns'[i] == fanned[i];
    }
  }

  /** The fan-out loop: every child ends up canceled (a timer child also
      disarmed), nothing at or below the registry's owner changes, and no
      armed timer's embedded node changes (children are never embedded
      nodes). */
  lemma {:induction false} FanOutEffect(ns: seq<Node>, cs: seq<Id>, lo: Id, r: Reason)
    requires WellFormed(ns) && lo < |ns|
    requires forall k :: 0 <= k < |cs| ==> Registrable(ns, lo, cs[k])
    ensures var ns' := FanOut(ns, cs, lo, r);
      && SweptBy(ns, ns', lo + 1, r)
      && (forall k :: 0 <= k < |cs| ==>
            CanceledAt(ns', Base(ns, cs[k])) && (ns[cs[k]].Timer? ==> !ns'[cs[k]].armed))
      && ArmedInnerKept(ns, ns', -1)
    decreases |ns| - lo, 1, |cs|
  {
    if cs != [] {
      var c0 := cs[0];
      assert Registrable(ns, lo, c0);
      var ns1 := Sweep(ns, c0, r);
      SweepEffect(ns, c0, r);
      RegistrableStable(ns, ns1, lo, cs[1..]);
      var ns2 := FanOut(ns1, cs[1..], lo, r);
      FanOutEffect(ns1, cs[1..], lo, r);
      assert ns2 == FanOut(ns, cs, lo, r);
      SweptByTrans(ns, ns1, ns2, lo + 1, r);
      FanOutStepReached(ns, ns1, ns2, cs, lo, r);
      FanOutStepArmed(ns, ns1, ns2, lo, c0, r);
    }
  }

  /** One fan-out step: the first child is canceled by its own sweep and
      stays so; the rest are canceled by the remaining steps. */
  lemma FanOutStepReached(ns: seq<Node>, ns1: seq<Node>, ns2: seq<Node>, cs: seq<Id>, lo: Id, r: Reason)
    requires WellFormed(ns) && cs != [] && SameShape(ns, ns1)
    requires forall k :: 0 <= k < |cs| ==> Registrable(ns, lo, cs[k])
    requires cs[0] < |ns| && CanceledAt(ns1, Base(ns, cs[0])) && (ns[cs[0]].Timer? ==> !ns1[cs[0]].armed)
    requires SweptBy(ns1, ns2, lo + 1, r)
    requires forall k :: 0 <= k < |cs[1..]| ==>
      (cs[1..][k] < |ns1| && CanceledAt(ns2, Base(ns1, cs[1..][k])) &&
       (ns1[cs[1..][k]].Timer? ==> !ns2[cs[1..][k]].armed))
    ensures forall k :: 0 <= k < |cs| ==>
      CanceledAt(ns2, Base(ns, cs[k])) && (ns[cs[k]].Timer? ==> !ns2[cs[k]].armed)
  {
    forall k | 0 <= k < |cs|
      ensures CanceledAt(ns2, Base(ns, cs[k])) && (ns[cs[k]].Timer? ==> !ns2[cs[k]].armed)
    {
      assert Registrable(ns, lo, cs[k]);
      if k == 0 {
        assert Touched(ns1[Base(ns, cs[0])], ns2[Base(ns, cs[0])], r);
        assert Touched(ns1[cs[0]], ns2[cs[0]], r);
      } else {
        assert cs[k] == cs[1..][k - 1];
        assert Erase(ns1[cs[k]]) == Erase(ns[cs[k]]);
      }
    }
  }

  /** One fan-out step keeps every armed timer's embedded node: the first
      sweep spares only the child's own cancel node, which no armed timer
      of the result embeds. */
  lemma FanOutStepArmed(ns: seq<Node>, ns1: seq<Node>, ns2: seq<Node>, lo: Id, c0: Id, r: Reason)
    requires WellFormed(ns) && Registrable(ns, lo, c0) && SameShape(ns, ns1)
    requires ArmedInnerKept(ns, ns1, Base(ns, c0)) && (ns[c0].Timer? ==> !ns1[c0].armed)
    requires SweptBy(ns1, ns2, lo + 1, r) && ArmedInnerKept(ns1, ns2, -1)
    ensures ArmedInnerKept(ns, ns2, -1)
  {
    forall t | 0 <= t < |ns2| && ns2[t].Timer? && ns2[t].armed && ns2[t].inner < |ns|
      ensures ns2[ns2[t].inner] == ns[ns2[t].inner]
    {
      assert Touched(ns1[t], ns2[t], r);
      assert ns1[t] == ns2[t];
      var i := ns2[t].inner;
      assert Linked(ns, t);
      assert Erase(ns1[t]) == Erase(ns[t]);
      assert i != Base(ns, c0) by {
        assert Linked(ns, c0);
        if ns[c0].Timer? {
          assert ns[c0].inner + 1 == c0;
        } else {
          assert !IsInner(ns, c0);
        }
      }
    }
  }

  // ---------------------------------------------------------------------
  // The invariants survive a cancel.

  /** Every node but t satisfies the node invariants (t = -1: every node). */
  ghost predicate CoherentBut(ns: seq<Node>, t: int) {
    WellFormed(ns) && forall j :: 0 <= j < |ns| && j != t ==> NodeCoherent(ns, j)
  }

  /** A store reached from a coherent one by Touched steps is coherent, except
      for an armed timer whose embedded node was `spared` from the armed-timer
      guarantee. */
  lemma SweptCoherent(ns: seq<Node>, ns': seq<Node>, lo: int, r: Reason, spared: int)
    requires Coherent(ns) && WellFormed(ns') && SweptBy(ns, ns', lo, r) && ArmedInnerKept(ns, ns', spared)
    ensures forall j :: 0 <= j < |ns'| && !(ns'[j].Timer? && ns'[j].armed && ns'[j].inner == spared) ==>
      NodeCoherent(ns', j)
  {
    forall j | 0 <= j < |ns'| && !(ns'[j].Timer? && ns'[j].armed && ns'[j].inner == spared)
      ensures NodeCoherent(ns', j)
    {
      assert Touched(ns[j], ns'[j], r);
      assert NodeCoherent(ns, j);
      if ns'[j].Timer? && ns'[j].armed {
        assert Linked(ns', j);
        assert ns'[j] == ns[j];
        assert ns'[ns'[j].inner] == ns[ns'[j].inner];
      }
    }
  }

  /** cancel(false, r) on a handle keeps the store coherent. */
  lemma SweepKeepsCoherent(ns: seq<Node>, c: Id, r: Reason)
    requires Coherent(ns) && IsHandle(ns, c)
    ensures Coherent(Sweep(ns, c, r))
  {
    var ns' := Sweep(ns, c, r);
    SweepEffect(ns, c, r);
    SweptCoherent(ns, ns', Base(ns, c), r, Base(ns, c));
    forall j | 0 <= j < |ns'| ensures NodeCoherent(ns', j) {
      if ns'[j].Timer? && ns'[j].armed {
        assert ns'[j].inner != Base(ns, c) by {
          assert Linked(ns', j) && Linked(ns, c);
          assert Erase(ns'[j]) == Erase(ns[j]);
          if ns[c].Timer? {
            assert ns[c].inner + 1 == c;
          } else {
            assert !IsInner(ns, c);
          }
        }
      }
    }
  }

  /** removeChild keeps the node invariants of every node but t. */
  lemma DetachKeepsCoherent(ns: seq<Node>, parent: Id, child: Id, t: int)
    requires CoherentBut(ns, t) && parent < |ns|
    requires t == -1 || (0 <= t < |ns| && ns[t].Timer?)
    ensures CoherentBut(Detach(ns, parent, child), t)
  {
    var ns' := Detach(ns, parent, child);
    var a := ParentCancel(ns, parent);
    forall j | 0 <= j < |ns'| && j != t ensures NodeCoherent(ns', j) {
      assert NodeCoherent(ns, j);
      if a.Some? && j == a.value {
        WithoutNoDup(Registry(ns[j]), child);
      }
      if ns'[j].Timer? && ns'[j].armed {
        assert Linked(ns, j);
      }
    }
  }

  /** Whether cancel(remove, _) on c ends with removeChild: a cancel node
      returns early when already canceled, a timer node never does. */
  predicate Detaches(ns: seq<Node>, c: Id, remove: bool)
    requires c < |ns|
  {
    remove && (ns[c].Timer? || (ns[c].Cancel? && ns[c].err.None?))
  }

  /** The cancel ancestor whose registry c leaves. */
  function AncestorOf(ns: seq<Node>, c: Id): Option<Id>
    requires WellFormed(ns) && IsCanceler(ns, c)
  {
    ParentCancel(ns, ParentOf(ns, c))
  }

  /** cancel(remove, r) is the sweep followed, when it detaches, by a change
      to the ancestor's registry alone; the ancestor is older than c's
      cancel node. */
  lemma CancelShape(ns: seq<Node>, c: Id, remove: bool, r: Reason)
    requires WellFormed(ns) && IsCanceler(ns, c)
    ensures var ns' := CancelSpec(ns, c, remove, r);
      var swept := Sweep(ns, c, r);
      var a := AncestorOf(ns, c);
      && |ns'| == |ns|
      && (forall j :: 0 <= j < |ns| && Some(j) != a ==> ns'[j] == swept[j])
      && (a.Some? ==>
            && a.value < Base(ns, c)
            && ns'[a.value].err == ns[a.value].err && ns'[a.value].done == ns[a.value].done
            && ns'[a.value].children.Some? == ns[a.value].children.Some?
            && Registry(ns'[a.value]) ==
                 (if Detaches(ns, c, remove) then Without(Registry(ns[a.value]), c) else Registry(ns[a.value])))
  {
    var swept := Sweep(ns, c, r);
    SweepEffect(ns, c, r);
    var p := ParentOf(ns, c);
    var a := AncestorOf(ns, c);
    if a.Some? {
      assert swept[a.value] == ns[a.value];
    }
    if Detaches(ns, c, remove) {
      DetachRemovesOnlyChild(swept, p, c);
      ParentCancelStable(ns, swept, p);
    }
  }

  /**
   * The effect of cancel(remove, r) on canceler c. Only c's ancestor (its
   * registry loses c when the call detaches) and nodes Touched with r
   * change; nothing else older than c's cancel node changes, so nothing
   * propagates upward. c's cancel node ends up canceled, c's timer disarmed,
   * and when c was live, every child in its registry ends up canceled.
   */
  lemma CancelEffect(ns: seq<Node>, c: Id, remove: bool, r: Reason)
    requires WellFormed(ns) && IsCanceler(ns, c)
    ensures var ns' := CancelSpec(ns, c, remove, r);
      var a := AncestorOf(ns, c);
      && |ns'| == |ns|
      && (forall j :: 0 <= j < |ns| && Some(j) != a ==> Touched(ns[j], ns'[j], r))
      && (forall j :: 0 <= j < |ns| && j < Base(ns, c) && Some(j) != a ==> ns'[j] == ns[j])
      && CanceledAt(ns', Base(ns, c))
      && (ns[c].Timer? ==> !ns'[c].armed)
      && (ns[Base(ns, c)].err.None? ==>
            forall x :: x in Registry(ns[Base(ns, c)]) ==>
              && x < |ns| && CanceledAt(ns', Base(ns, x))
              && (ns[Base(ns, x)].err.None? ==> ns'[Base(ns, x)].err == Some(r))
              && (ns[x].Timer? ==> !ns'[x].armed))
  {
    SweepEffect(ns, c, r);
    CancelShape(ns, c, remove, r);
    var ns' := CancelSpec(ns, c, remove, r);
    var swept := Sweep(ns, c, r);
    var a := AncestorOf(ns, c);
    assert Linked(ns, c);
    var b := Base(ns, c);
    if ns[b].err.None? {
      if ns[c].Timer? {
        assert Linked(ns, b);
        SweepEffect(ns, b, r);
      }
      forall x | x in Registry(ns[b])
        ensures x < |ns| && CanceledAt(ns', Base(ns, x))
        ensures ns[Base(ns, x)].err.None? ==> ns'[Base(ns, x)].err == Some(r)
        ensures ns[x].Timer? ==> !ns'[x].armed
      {
        assert Linked(ns, b);
        CancelEffectOn(ns, c, remove, r, x);
      }
    }
  }

  /** What cancel does to one canceler registered with c's cancel node. */
  lemma CancelEffectOn(ns: seq<Node>, c: Id, remove: bool, r: Reason, x: Id)
    requires WellFormed(ns) && IsCanceler(ns, c)
    requires Base(ns, c) < |ns| && ns[Base(ns, c)].Cancel?
    requires ns[Base(ns, c)].err.None? && x in Registry(ns[Base(ns, c)])
    ensures var ns' := CancelSpec(ns, c, remove, r);
      && x < |ns| && CanceledAt(ns', Base(ns, x))
      && (ns[Base(ns, x)].err.None? ==> ns'[Base(ns, x)].err == Some(r))
      && (ns[x].Timer? ==> !ns'[x].armed)
  {
    SweepEffect(ns, c, r);
    CancelShape(ns, c, remove, r);
    var ns' := CancelSpec(ns, c, remove, r);
    assert Linked(ns, c);
    var b := Base(ns, c);
    if ns[c].Timer? {
      assert Linked(ns, b);
      SweepEffect(ns, b, r);
    }
    assert Linked(ns, b);
    assert Registrable(ns, b, x);
    assert Touched(ns[Base(ns, x)], ns'[Base(ns, x)], r);
  }

  /** cancel on a handle keeps the store coherent: reason set exactly when
      the signal is resolved, no registry on a canceled node, no duplicate
      registration, no armed timer over a canceled node. */
  lemma CancelKeepsCoherent(ns: seq<Node>, c: Id, remove: bool, r: Reason)
    requires Coherent(ns) && IsHandle(ns, c)
    ensures Coherent(CancelSpec(ns, c, remove, r))
  {
    SweepKeepsCoherent(ns, c, r);
    var swept := Sweep(ns, c, r);
    if Detaches(ns, c, remove) {
      DetachKeepsCoherent(swept, ParentOf(ns, c), c, -1);
    }
  }

  /** Once set, a node's reason never changes, and a canceled node is not
      changed at all; a done signal only moves forward (a pending signal is
      resolved, never replaced); a reason that appears is r. */
  ghost predicate Progress(ns: seq<Node>, ns': seq<Node>, r: Reason) {
    && |ns'| == |ns|
    && (forall j :: CanceledAt(ns, j) ==> ns'[j] == ns[j])
    && (forall j :: 0 <= j < |ns| && ns[j].Cancel? ==>
          && ns'[j].Cancel?
          && (ns'[j].done == ns[j].done || ns'[j].done == Resolved)
          && (ns'[j].err == ns[j].err || ns'[j].err == Some(r)))
  }

  lemma CancelProgress(ns: seq<Node>, c: Id, remove: bool, r: Reason)
    requires Coherent(ns) && IsCanceler(ns, c)
    ensures Progress(ns, CancelSpec(ns, c, remove, r), r)
  {
    CancelShape(ns, c, remove, r);
    var ns' := CancelSpec(ns, c, remove, r);
    forall j | CanceledAt(ns, j) ensures ns'[j] == ns[j] {
      CancelProgressAt(ns, c, remove, r, j);
    }
    forall j | 0 <= j < |ns| && ns[j].Cancel?
      ensures ns'[j].Cancel? && (ns'[j].done == ns[j].done || ns'[j].done == Resolved)
      ensures ns'[j].err == ns[j].err || ns'[j].err == Some(r)
    {
      CancelProgressAt(ns, c, remove, r, j);
    }
  }

  /** What cancel does to one cancel node: a canceled node is left alone,
      and a live one at most takes r and resolves its signal. */
  lemma CancelProgressAt(ns: seq<Node>, c: Id, remove: bool, r: Reason, j: Id)
    requires Coherent(ns) && IsCanceler(ns, c) && j < |ns| && ns[j].Cancel?
    ensures var ns' := CancelSpec(ns, c, remove, r);
      && (ns[j].err.Some? ==> ns'[j] == ns[j])
      && ns'[j].Cancel? && (ns'[j].done == ns[j].done || ns'[j].done == Resolved)
      && (ns'[j].err == ns[j].err || ns'[j].err == Some(r))
  {
    CancelEffect(ns, c, remove, r);
    CancelShape(ns, c, remove, r);
    var ns' := CancelSpec(ns, c, remove, r);
    var a := AncestorOf(ns, c);
    if Some(j) == a {
      assert NodeCoherent(ns, j);
      if ns[j].err.Some? && Detaches(ns, c, remove) {
        WithoutAbsent(Registry(ns[j]), c);
      }
    } else {
      assert Touched(ns[j], ns'[j], r);
    }
  }

  /** First cancel wins: the reason c reports afterwards is the one it
      already had, or r if it was live. */
  lemma FirstReasonWins(ns: seq<Node>, c: Id, remove: bool, r: Reason)
    requires Coherent(ns) && IsCanceler(ns, c)
    ensures var ns' := CancelSpec(ns, c, remove, r);
      && Err(ns', c) == (if Err(ns, c).Some? then Err(ns, c) else Some(r))
      && Signal(ns', c) == Some(Resolved)
  {
    CancelEffect(ns, c, remove, r);
    CancelProgress(ns, c, remove, r);
    CancelShape(ns, c, remove, r);
    var ns' := CancelSpec(ns, c, remove, r);
    assert Linked(ns, c) && Linked(ns', c);
    var b := Base(ns, c);
    assert Erase(ns'[c]) == Erase(ns[c]);
    assert Touched(ns[b], ns'[b], r) by {
      assert Some(b) != AncestorOf(ns, c);
    }
    assert NodeCoherent(ns, b);
  }

  /** Canceling a node that is already canceled and no longer registered
      with its ancestor changes nothing. */
  lemma CancelAgainIsNoOp(ns: seq<Node>, c: Id, remove: bool, r: Reason)
    requires Coherent(ns) && IsCanceler(ns, c) && CanceledAt(ns, Base(ns, c))
    requires remove && AncestorOf(ns, c).Some? ==> c !in Registry(ns[AncestorOf(ns, c).value])
    ensures CancelSpec(ns, c, remove, r) == ns
  {
    assert Linked(ns, c);
    if ns[c].Timer? {
      assert NodeCoherent(ns, c);
      assert Sweep(ns, ns[c].inner, r) == ns;
      assert ns[c := ns[c].(armed := false)] == ns;
      if Detaches(ns, c, remove) {
        DetachRemovesOnlyChild(ns, ParentOf(ns, c), c);
        var a := AncestorOf(ns, c);
        if a.Some? {
          WithoutAbsent(Registry(ns[a.value]), c);
        }
      }
    }
  }

  /** The CancelFunc contract: after the first call, later calls (with any
      reason) do nothing, whether or not the function detaches. */
  lemma CancelTwice(ns: seq<Node>, c: Id, remove: bool, r: Reason, r2: Reason)
    requires Coherent(ns) && IsHandle(ns, c)
    ensures var ns1 := CancelSpec(ns, c, remove, r);
      CancelSpec(ns1, c, remove, r2) == ns1
  {
    var ns1 := CancelSpec(ns, c, remove, r);
    CancelKeepsCoherent(ns, c, remove, r);
    CancelEffect(ns, c, remove, r);
    CancelShape(ns, c, remove, r);
    assert Linked(ns, c) && Linked(ns1, c);
    assert Erase(ns1[c]) == Erase(ns[c]);
    ParentCancelStable(ns, ns1, ParentOf(ns, c));
    assert AncestorOf(ns1, c) == AncestorOf(ns, c);
    var a := AncestorOf(ns, c);
    if remove && !Detaches(ns, c, true) {
      // a cancel node that was already canceled: both calls return early
      assert Sweep(ns, c, r) == ns;
      assert ns1 == ns;
      assert Sweep(ns1, c, r2) == ns1;
    } else {
      CancelAgainIsNoOp(ns1, c, remove, r2);
    }
  }

  /** Stopping a host timer commutes with a sweep: the sweep never reads
      `_timeoutId`, it only clears it. */
  lemma {:induction false} SweepDisarmCommute(ns: seq<Node>, t: Id, c: Id, r: Reason)
    requires WellFormed(ns) && IsCanceler(ns, c) && t < |ns| && ns[t].Timer?
    ensures WellFormed(ns[t := ns[t].(armed := false)])
    ensures var ns1 := Sweep(ns, c, r);
      Sweep(ns[t := ns[t].(armed := false)], c, r) == ns1[t := ns1[t].(armed := false)]
    decreases |ns| - Base(ns, c), if ns[c].Timer? then 3 else 2, 0
  {
    var stopped := ns[t := ns[t].(armed := false)];
    EditKeepsShape(ns, t, stopped[t]);
    assert Linked(ns, c);
    if ns[c].Cancel? {
      if ns[c].err.None? {
        MarkDisarmCommute(ns, t, c, r);
      }
    } else {
      var inner := ns[c].inner;
      assert stopped[c].inner == inner;
      SweepDisarmCommute(ns, t, inner, r);
    }
  }

  /** The cancel-node case of SweepDisarmCommute: recording the reason and
      then the fan-out loop. */
  lemma {:induction false} MarkDisarmCommute(ns: seq<Node>, t: Id, c: Id, r: Reason)
    requires WellFormed(ns) && IsCanceler(ns, c) && t < |ns| && ns[t].Timer?
    requires ns[c].Cancel? && ns[c].err.None?
    ensures WellFormed(ns[t := ns[t].(armed := false)])
    ensures var ns1 := Sweep(ns, c, r);
      Sweep(ns[t := ns[t].(armed := false)], c, r) == ns1[t := ns1[t].(armed := false)]
    decreases |ns| - c, 1, |Registry(ns[c])| + 1
  {
    var stopped := ns[t := ns[t].(armed := false)];
    EditKeepsShape(ns, t, stopped[t]);
    assert Linked(ns, c);
    var cs := Registry(ns[c]);
    var marked := ns[c := ns[c].(err := Some(r), done := Resolved)];
    EditKeepsShape(ns, c, marked[c]);
    RegistrableStable(ns, marked, c, cs);
    assert stopped[c := stopped[c].(err := Some(r), done := Resolved)] == marked[t := marked[t].(armed := false)];
    FanOutDisarmCommute(marked, t, cs, c, r);
  }

  /** Stopping a host timer commutes with the fan-out loop. */
  lemma {:induction false} FanOutDisarmCommute(ns: seq<Node>, t: Id, cs: seq<Id>, lo: Id, r: Reason)
    requires WellFormed(ns) && lo < |ns| && t < |ns| && ns[t].Timer?
    requires forall k :: 0 <= k < |cs| ==> Registrable(ns, lo, cs[k])
    ensures WellFormed(ns[t := ns[t].(armed := false)])
    ensures forall k :: 0 <= k < |cs| ==> Registrable(ns[t := ns[t].(armed := false)], lo, cs[k])
    ensures var ns1 := FanOut(ns, cs, lo, r);
      FanOut(ns[t := ns[t].(armed := false)], cs, lo, r) == ns1[t := ns1[t].(armed := false)]
    decreases |ns| - lo, 1, |cs|
  {
    var stopped := ns[t := ns[t].(armed := false)];
    EditKeepsShape(ns, t, stopped[t]);
    RegistrableStable(ns, stopped, lo, cs);
    if cs != [] {
      assert Registrable(ns, lo, cs[0]);
      var ns1 := Sweep(ns, cs[0], r);
      SweepDisarmCommute(ns, t, cs[0], r);
      RegistrableStable(ns, ns1, lo, cs[1..]);
      assert Erase(ns1[t]) == Erase(ns[t]);
      FanOutDisarmCommute(ns1, t, cs[1..], lo, r);
    }
  }

  /** A timer node's cancel runs in the order delegate, removeChild, clear
      the host timer; that is the same store as sweeping (which disarms)
      and then detaching. The order of the class comment, stop the timer
      and then delegate (and detach), ends in that store too. */
  lemma TimerCancelOrder(ns: seq<Node>, c: Id, remove: bool, r: Reason)
    requires WellFormed(ns) && c < |ns| && ns[c].Timer?
    ensures Linked(ns, c)
    ensures var d := Sweep(ns, ns[c].inner, r);
      var e := if remove then Detach(d, ParentOf(ns, c), c) else d;
      e[c := e[c].(armed := false)] == CancelSpec(ns, c, remove, r)
    ensures WellFormed(ns[c := ns[c].(armed := false)])
    ensures var d := Sweep(ns[c := ns[c].(armed := false)], ns[c].inner, r);
      (if remove then Detach(d, ParentOf(ns, c), c) else d) == CancelSpec(ns, c, remove, r)
  {
    assert Linked(ns, c);
    var inner := ns[c].inner;
    assert Linked(ns, inner);
    var d := Sweep(ns, inner, r);
    SweepDisarmCommute(ns, c, inner, r);
    assert d[c := d[c].(armed := false)] == Sweep(ns, c, r);
    if remove {
      var p := ns[inner].parent;
      var e := Detach(d, p, c);
      var disarmed := d[c := d[c].(armed := false)];
      assert disarmed == Sweep(ns, c, r);
      assert Extends(d, disarmed) by {
        assert Erase(disarmed[c]) == Erase(d[c]);
      }
      ParentCancelStable(d, disarmed, p);
      DetachRemovesOnlyChild(d, p, c);
      DetachRemovesOnlyChild(disarmed, p, c);
      var lhs := e[c := e[c].(armed := false)];
      var rhs := Detach(disarmed, p, c);
      assert |lhs| == |rhs|;
      forall j | 0 <= j < |lhs| ensures lhs[j] == rhs[j] {
        if j != c && Some(j) == ParentCancel(d, p) {
          assert disarmed[j] == d[j];
        }
      }
      assert lhs == rhs;
    }
  }
}
