/**
 * The ancestor walk and the registry edits of src/core.ts:
 * getParentCancelContext and removeChild, and the Set operations that
 * propagateCancel and removeChild apply to a registry.
 */
module Ancestry {
  import opened Types
  import opened Contexts

  /**
   * getParentCancelContext: the nearest cancel node that holds a registry
   * for children of j. A cancel node is its own; a timer node answers with
   * its embedded cancel node; a value node passes the question to its
   * parent; a root or a node of unknown kind ends the walk with null.
   *
   * The code reads `p.cancelContext` on a timer node, a field TimerContext
   * does not have (it is `_cancelContext`); this walk returns the embedded
   * node, as the comment above the function intends.
   * ParentCancelAsWritten below is the code as written.
   */
  function ParentCancel(ns: seq<Node>, j: Id): (a: Option<Id>)
    requires WellFormed(ns) && j < |ns|
    ensures a.Some? ==> a.value <= j && ns[a.value].Cancel?
    decreases j
  {
    assert Linked(ns, j);
    match ns[j]
    case Cancel(_, _, _, _) => Some(j)
    case Timer(inner, _, _) => Some(inner)
    case Value(p, _, _) => ParentCancel(ns, p)
    case Empty(_) => None
    case Opaque(_) => None
  }

  /** The walk finds the first cancel node on the chain above j, giving up
      at a node of unknown kind; when it finds one, that is also the node
      whose signal done() returns. */
  lemma {:induction false} ParentCancelIsNearestCancel(ns: seq<Node>, j: Id)
    requires WellFormed(ns) && j < |ns|
    ensures InRange(ns, Chain(ns, j))
    ensures ParentCancel(ns, j) == FirstCancel(ns, Chain(ns, j), true)
    ensures ParentCancel(ns, j).Some? ==> ParentCancel(ns, j) == SignalOwner(ns, j)
    decreases j
  {
    assert Linked(ns, j);
    var c := Chain(ns, j);
    match ns[j]
    case Empty(_) =>
    case Value(p, _, _) =>
      ParentCancelIsNearestCancel(ns, p);
      assert c[1..] == Chain(ns, p);
    case Cancel(p, _, _, _) =>
    case Timer(inner, _, _) =>
      assert Linked(ns, inner);
      assert c[1..] == Chain(ns, inner);
    case Opaque(p) =>
  }

  /** The walk looks only at what is fixed at construction. */
  lemma {:induction false} ParentCancelStable(ns: seq<Node>, ns': seq<Node>, j: Id)
    requires WellFormed(ns) && WellFormed(ns') && Extends(ns, ns') && j < |ns|
    ensures ParentCancel(ns', j) == ParentCancel(ns, j)
    decreases j
  {
    assert Linked(ns, j);
    assert Erase(ns'[j]) == Erase(ns[j]);
    if ns[j].Value? {
      ParentCancelStable(ns, ns', ns[j].parent);
    }
  }

  datatype Walk = Found(id: Id) | NotFound | UndefinedField

  /** getParentCancelContext as written: on a timer node it returns the
      missing field `cancelContext`, that is, undefined. */
  function ParentCancelAsWritten(ns: seq<Node>, j: Id): Walk
    requires WellFormed(ns) && j < |ns|
    decreases j
  {
    assert Linked(ns, j);
    match ns[j]
    case Cancel(_, _, _, _) => Found(j)
    case Timer(_, _, _) => UndefinedField
    case Value(p, _, _) => ParentCancelAsWritten(ns, p)
    case Empty(_) => NotFound
    case Opaque(_) => NotFound
  }

  /** The two walks agree except where the code reads the missing field: there
      the intended walk returns the timer's embedded cancel node. */
  lemma {:induction false} AsWrittenWalkDiffers(ns: seq<Node>, j: Id)
    requires WellFormed(ns) && j < |ns|
    ensures ParentCancelAsWritten(ns, j).NotFound? <==> ParentCancel(ns, j).None?
    ensures ParentCancelAsWritten(ns, j).Found? ==>
              ParentCancel(ns, j) == Some(ParentCancelAsWritten(ns, j).id)
    ensures ParentCancelAsWritten(ns, j) == UndefinedField ==>
              ParentCancel(ns, j).Some? && IsInner(ns, ParentCancel(ns, j).value)
    decreases j
  {
    assert Linked(ns, j);
    if ns[j].Value? {
      AsWrittenWalkDiffers(ns, ns[j].parent);
    }
  }

  /** What propagateCancel does as written once the parent's done() is not
      null: reading `p._err` on undefined throws a TypeError. */
  function PropagateOutcomeAsWritten(ns: seq<Node>, parent: Id): Outcome
    requires WellFormed(ns) && parent < |ns|
  {
    if SignalOwner(ns, parent).None? then Pass
    else if ParentCancelAsWritten(ns, parent) == UndefinedField then Raised(TypeError)
    else Pass
  }

  /** As written, withCancel, withDeadline and withTimeout over a timer node
      (or over value nodes above one) throw; the intended walk registers the
      child with the timer's embedded cancel node instead. */
  lemma AsWrittenTimerParentThrows(ns: seq<Node>, t: Id)
    requires WellFormed(ns) && t < |ns| && ns[t].Timer?
    ensures PropagateOutcomeAsWritten(ns, t) == Raised(TypeError)
    ensures ParentCancel(ns, t) == Some(ns[t].inner) && IsInner(ns, ns[t].inner)
  {
    assert Linked(ns, t);
  }

  // ---------------------------------------------------------------------
  // Registry edits. A registry is a JavaScript Set: duplicate-free, in
  // insertion order.

  /** Set.delete: every entry but x, in the same order. */
  function Without(cs: seq<Id>, x: Id): (r: seq<Id>)
    ensures forall y :: y in r <==> y in cs && y != x
    ensures |r| <= |cs|
  {
    if cs == [] then []
    else (if cs[0] == x then [] else [cs[0]]) + Without(cs[1..], x)
  }

  /** Deleting an absent entry changes nothing. */
  lemma {:induction false} WithoutAbsent(cs: seq<Id>, x: Id)
    requires x !in cs
    ensures Without(cs, x) == cs
  {
    if cs != [] {
      WithoutAbsent(cs[1..], x);
      assert cs == [cs[0]] + cs[1..];
    }
  }

  /** Deleting a present entry removes exactly that entry and keeps the others
      in order, so the size drops by one. */
  lemma {:induction false} WithoutDeletesOne(cs: seq<Id>, k: nat)
    requires NoDup(cs) && k < |cs|
    ensures Without(cs, cs[k]) == cs[..k] + cs[k + 1..]
    ensures |Without(cs, cs[k])| == |cs| - 1
  {
    var x := cs[k];
    if k == 0 {
      assert x !in cs[1..] by {
        forall i | 0 <= i < |cs[1..]| ensures cs[1..][i] != x {
          assert cs[1..][i] == cs[i + 1];
        }
      }
      WithoutAbsent(cs[1..], x);
    } else {
      var rest := cs[1..];
      assert NoDup(rest) by {
        forall a, b | 0 <= a < b < |rest| ensures rest[a] != rest[b] {
          assert rest[a] == cs[a + 1] && rest[b] == cs[b + 1];
        }
      }
      assert rest[k - 1] == x;
      assert cs[0] != x;
      WithoutDeletesOne(rest, k - 1);
      calc {
        Without(cs, x);
        [cs[0]] + Without(rest, x);
        [cs[0]] + (rest[..k - 1] + rest[k..]);
        { assert [cs[0]] + rest[..k - 1] == cs[..k]; assert rest[k..] == cs[k + 1..]; }
        cs[..k] + cs[k + 1..];
      }
    }
  }

  /** Deleting keeps a registry duplicate-free. */
  lemma WithoutNoDup(cs: seq<Id>, x: Id)
    requires NoDup(cs)
    ensures NoDup(Without(cs, x))
  {
    if x in cs {
      var k :| 0 <= k < |cs| && cs[k] == x;
      WithoutDeletesOne(cs, k);
      var r := cs[..k] + cs[k + 1..];
      forall a, b | 0 <= a < b < |r| ensures r[a] != r[b] {
        var a' := if a < k then a else a + 1;
        var b' := if b < k then b else b + 1;
        assert r[a] == cs[a'] && r[b] == cs[b'];
      }
    } else {
      WithoutAbsent(cs, x);
    }
  }

  /** Set.add: x joins at the end unless it is already present. */
  function AddOnce(cs: seq<Id>, x: Id): (r: seq<Id>)
    ensures forall y :: y in r <==> y in cs || y == x
    ensures NoDup(cs) ==> NoDup(r)
    ensures x !in cs ==> r == cs + [x]
  {
    if x in cs then cs else cs + [x]
  }

  /** `p._children.add(child)`, creating the Set on first use. */
  function Register(ns: seq<Node>, a: Id, child: Id): seq<Node>
    requires a < |ns| && ns[a].Cancel?
  {
    ns[a := ns[a].(children := Some(AddOnce(Registry(ns[a]), child)))]
  }

  /** removeChild(parent, child): delete child from the registry of the
      parent's nearest cancel ancestor, if there is one and it has a registry. */
  function Detach(ns: seq<Node>, parent: Id, child: Id): (r: seq<Node>)
    requires WellFormed(ns) && parent < |ns|
    ensures SameShape(ns, r) && Shrinks(ns, r) && WellFormed(r)
  {
    match ParentCancel(ns, parent)
    case None => ns
    case Some(a) =>
      if ns[a].children.None? then ns
      else
        var r := ns[a := ns[a].(children := Some(Without(ns[a].children.value, child)))];
        assert SameShape(ns, r) && Shrinks(ns, r) by {
          assert Erase(r[a]) == Erase(ns[a]);
        }
        WellFormedTransfer(ns, r);
        r
  }

  /** removeChild deletes exactly `child` from the ancestor's registry (keeping
      the rest in order) and touches nothing else: no reason, no signal, no
      other registry. */
  lemma DetachRemovesOnlyChild(ns: seq<Node>, parent: Id, child: Id)
    requires WellFormed(ns) && parent < |ns|
    ensures var r := Detach(ns, parent, child);
      && (ParentCancel(ns, parent).None? ==> r == ns)
      && (forall j :: 0 <= j < |ns| && Some(j) != ParentCancel(ns, parent) ==> r[j] == ns[j])
      && (ParentCancel(ns, parent).Some? ==>
            var a := ParentCancel(ns, parent).value;
            && r[a].err == ns[a].err && r[a].done == ns[a].done
            && r[a].children.Some? == ns[a].children.Some?
            && Registry(r[a]) == Without(Registry(ns[a]), child)
            && child !in Registry(r[a]))
  {
  }

  /** A registry entry is a node registered under a; removeChild on its
      parent deletes it there and the registry shrinks by exactly one. */
  lemma DetachShrinksByOne(ns: seq<Node>, parent: Id, child: Id)
    requires Coherent(ns) && parent < |ns|
    requires ParentCancel(ns, parent).Some? && child in Registry(ns[ParentCancel(ns, parent).value])
    ensures var a := ParentCancel(ns, parent).value;
      |Registry(Detach(ns, parent, child)[a])| == |Registry(ns[a])| - 1
  {
    var a := ParentCancel(ns, parent).value;
    var cs := Registry(ns[a]);
    assert NodeCoherent(ns, a);
    var k :| 0 <= k < |cs| && cs[k] == child;
    WithoutDeletesOne(cs, k);
  }
}
