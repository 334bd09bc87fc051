/**
 * Which canceler sits in which registry. propagateCancel puts a new
 * canceler into the registry of its cancel ancestor, cancel fans out over a
 * registry and then drops it, and removeChild takes a canceler out again.
 * Together they keep the registries exact: every live canceler with a cancel
 * ancestor is registered there and nowhere else, and no registry holds a
 * canceled one. This module states that invariant, proves that every
 * operation keeps it, and derives the library's central promise from it: a
 * context's done() resolves whenever its parent's does, and a cancel reaches
 * exactly the contexts below the one canceled.
 */
module Registration {
  import opened Types
  import opened Contexts
  import opened Ancestry
  import opened Cancellation
  import opened Propagation
  import opened Constructors
  import opened Stability

  // ---------------------------------------------------------------------
  // The tree of cancel nodes.

  /** The cancel ancestor of cancel node o: the node in whose registry the
      canceler built on o is put. */
  function Up(ns: seq<Node>, o: Id): (u: Option<Id>)
    requires WellFormed(ns) && o < |ns| && ns[o].Cancel?
    ensures u.Some? ==> u.value < o && ns[u.value].Cancel?
  {
    assert Linked(ns, o);
    ParentCancel(ns, ns[o].parent)
  }

  /** The canceler the library hands out for cancel node o: o itself, or
      the timer node that embeds it. */
  function HandleOf(ns: seq<Node>, o: Id): (h: Id)
    requires WellFormed(ns) && o < |ns| && ns[o].Cancel?
    ensures IsHandle(ns, h) && Base(ns, h) == o && AncestorOf(ns, h) == Up(ns, o)
  {
    if IsInner(ns, o) then
      assert o + 2 < |ns| ==> Linked(ns, o + 2);
      o + 1
    else o
  }

  lemma HandleOfBase(ns: seq<Node>, x: Id)
    requires WellFormed(ns) && IsHandle(ns, x)
    ensures Base(ns, x) < |ns| && ns[Base(ns, x)].Cancel? && HandleOf(ns, Base(ns, x)) == x
    ensures Up(ns, Base(ns, x)) == AncestorOf(ns, x)
  {
    assert Linked(ns, x);
  }

  /** Cancel node o lies below cancel node b: climbing from o through cancel
      ancestors reaches b. The climb ends at a root or at a node of unknown
      kind, as the ancestor walk does. */
  predicate Descends(ns: seq<Node>, o: Id, b: Id)
    requires WellFormed(ns) && o < |ns| && ns[o].Cancel?
    decreases o
  {
    o == b || (Up(ns, o).Some? && Descends(ns, Up(ns, o).value, b))
  }

  /** The climb looks only at construction-time fields. */
  lemma {:induction false} DescendsStable(ns: seq<Node>, ns': seq<Node>, o: Id, b: Id)
    requires WellFormed(ns) && WellFormed(ns') && Extends(ns, ns') && o < |ns| && ns[o].Cancel?
    ensures ns'[o].Cancel? && Up(ns', o) == Up(ns, o)
    ensures Descends(ns', o, b) == Descends(ns, o, b)
    decreases o
  {
    assert Erase(ns'[o]) == Erase(ns[o]);
    assert Linked(ns, o);
    ParentCancelStable(ns, ns', ns[o].parent);
    if Up(ns, o).Some? {
      DescendsStable(ns, ns', Up(ns, o).value, b);
    }
  }

  /** Which ancestor a canceler leaves depends only on construction-time
      fields. */
  lemma AncestorStable(ns: seq<Node>, ns': seq<Node>, x: Id)
    requires WellFormed(ns) && WellFormed(ns') && Extends(ns, ns') && IsCanceler(ns, x)
    ensures IsCanceler(ns', x) && Base(ns', x) == Base(ns, x) && ParentOf(ns', x) == ParentOf(ns, x)
    ensures AncestorOf(ns', x) == AncestorOf(ns, x)
  {
    assert Erase(ns'[x]) == Erase(ns[x]);
    assert Linked(ns, x);
    if ns[x].Timer? {
      assert Erase(ns'[ns[x].inner]) == Erase(ns[ns[x].inner]);
    }
    ParentCancelStable(ns, ns', ParentOf(ns, x));
  }

  /** A handle stays a handle as long as no new timer node embeds an old
      cancel node. */
  lemma HandleStable(ns: seq<Node>, ns': seq<Node>, x: Id)
    requires Extends(ns, ns') && IsHandle(ns, x)
    requires forall j :: |ns| <= j < |ns'| && ns'[j].Timer? ==> ns'[j].inner >= |ns|
    ensures IsHandle(ns', x)
  {
    assert Erase(ns'[x]) == Erase(ns[x]);
    if x + 1 < |ns| {
      assert Erase(ns'[x + 1]) == Erase(ns[x + 1]);
    }
  }

  /** Editing mutable fields makes no new handle. */
  lemma ShapeKeepsHandles(ns: seq<Node>, ns': seq<Node>, x: Id)
    requires SameShape(ns, ns') && IsHandle(ns', x)
    ensures IsHandle(ns, x)
  {
    assert Erase(ns'[x]) == Erase(ns[x]);
    if x + 1 < |ns| {
      assert Erase(ns'[x + 1]) == Erase(ns[x + 1]);
    }
  }

  // ---------------------------------------------------------------------
  // The invariant.

  /** Every registry entry sits in the registry of its own cancel ancestor,
      so a canceler is registered in one place at most. */
  ghost predicate Faithful(ns: seq<Node>)
    requires WellFormed(ns)
  {
    forall a: Id, x: Id :: 0 <= a < |ns| && x in Registry(ns[a]) ==> IsCanceler(ns, x) && AncestorOf(ns, x) == Some(a)
  }

  /** Canceler x exists and its cancel node holds no reason. */
  ghost predicate Live(ns: seq<Node>, x: Id) {
    x < |ns| && !CanceledAt(ns, Base(ns, x))
  }

  /** Every registry entry but e is live. */
  ghost predicate EntriesLiveBut(ns: seq<Node>, e: int)
    requires WellFormed(ns)
  {
    forall a: Id, x: Id :: 0 <= a < |ns| && x in Registry(ns[a]) && x != e ==> Live(ns, x)
  }

  /** A live canceler with a cancel ancestor is in that ancestor's registry. */
  ghost predicate Enrolled(ns: seq<Node>, x: Id)
    requires WellFormed(ns) && IsCanceler(ns, x)
  {
    Live(ns, x) && AncestorOf(ns, x).Some? ==> x in Registry(ns[AncestorOf(ns, x).value])
  }

  /** Every handle but e is enrolled. */
  ghost predicate EnrolledBut(ns: seq<Node>, e: int)
    requires WellFormed(ns)
  {
    forall x :: IsHandle(ns, x) && x != e ==> Enrolled(ns, x)
  }

  /** The registry invariant. */
  ghost predicate Registered(ns: seq<Node>)
    requires WellFormed(ns)
  {
    Faithful(ns) && EntriesLiveBut(ns, -1) && EnrolledBut(ns, -1)
  }

  /** Registries can only lose entries without breaking faithfulness. */
  lemma FaithfulShrinks(ns: seq<Node>, ns': seq<Node>)
    requires WellFormed(ns) && WellFormed(ns') && SameShape(ns, ns') && Shrinks(ns, ns') && Faithful(ns)
    ensures Faithful(ns')
  {
    forall a: Id, x: Id | 0 <= a < |ns'| && x in Registry(ns'[a])
      ensures IsCanceler(ns', x) && AncestorOf(ns', x) == Some(a)
    {
      assert x in Registry(ns[a]);
      AncestorStable(ns, ns', x);
    }
  }

  /** ns' differs from ns only in signals and armed flags. */
  ghost predicate SameRegistration(ns: seq<Node>, ns': seq<Node>) {
    && SameShape(ns, ns')
    && forall j :: 0 <= j < |ns| ==>
         Registry(ns'[j]) == Registry(ns[j]) && (ns[j].Cancel? ==> ns'[j].err == ns[j].err)
  }

  lemma RegistrationTransfer(ns: seq<Node>, ns': seq<Node>, e: int)
    requires WellFormed(ns) && WellFormed(ns') && SameRegistration(ns, ns')
    requires Faithful(ns) && EntriesLiveBut(ns, e) && EnrolledBut(ns, e)
    ensures Faithful(ns') && EntriesLiveBut(ns', e) && EnrolledBut(ns', e)
  {
    FaithfulShrinks(ns, ns');
    forall a: Id, x: Id | 0 <= a < |ns'| && x in Registry(ns'[a]) && x != e
      ensures Live(ns', x)
    {
      assert x in Registry(ns[a]);
      assert Linked(ns, a);
      assert Live(ns, x);
      AncestorStable(ns, ns', x);
      HandleOfBase(ns, x);
      assert ns'[Base(ns, x)].err == ns[Base(ns, x)].err;
    }
    assert EntriesLiveBut(ns', e);
    forall x | IsHandle(ns', x) && x != e ensures Enrolled(ns', x) {
      ShapeKeepsHandles(ns, ns', x);
      AncestorStable(ns, ns', x);
      assert Enrolled(ns, x);
    }
  }

  /** done() touches no registry and no reason. */
  lemma CreateSignalSameRegistration(ns: seq<Node>, j: Id)
    requires WellFormed(ns) && j < |ns|
    ensures SameRegistration(ns, CreateSignal(ns, j))
  {
    CreateSignalEffect(ns, j);
  }

  // ---------------------------------------------------------------------
  // What a sweep cancels.

  /** Cancel node o was live in ns and is canceled in ns'. */
  ghost predicate NewlyCanceled(ns: seq<Node>, ns': seq<Node>, o: int) {
    0 <= o < |ns| && ns[o].Cancel? && ns[o].err.None? && CanceledAt(ns', o)
  }

  /** Every node canceled between ns and ns' is b, or its cancel ancestor is
      `root` or was canceled in the same step. */
  ghost predicate Grounded(ns: seq<Node>, ns': seq<Node>, root: int, b: int)
    requires WellFormed(ns)
  {
    forall o :: NewlyCanceled(ns, ns', o) ==>
      o == b || (Up(ns, o).Some? && (Up(ns, o).value == root || NewlyCanceled(ns, ns', Up(ns, o).value)))
  }

  /** A node canceled between ns and ns' left no canceler of its registry
      live. */
  ghost predicate Closed(ns: seq<Node>, ns': seq<Node>)
    requires WellFormed(ns)
  {
    forall u: Id, x: Id :: NewlyCanceled(ns, ns', u) && x in Registry(ns[u]) ==> CanceledFrom(ns, ns', x)
  }

  /** The cancel node that holds canceler x's state in ns is canceled in ns'. */
  ghost predicate CanceledFrom(ns: seq<Node>, ns': seq<Node>, x: Id) {
    x < |ns| && CanceledAt(ns', Base(ns, x))
  }

  /** A sweep cancels c's own node and, below it, only nodes whose cancel
      ancestor it canceled as well. */
  lemma {:induction false} SweepGrounded(ns: seq<Node>, c: Id, r: Reason)
    requires WellFormed(ns) && Faithful(ns) && IsCanceler(ns, c)
    ensures Grounded(ns, Sweep(ns, c, r), -1, Base(ns, c))
    decreases |ns| - Base(ns, c), if ns[c].Timer? then 3 else 2, 0
  {
    assert Linked(ns, c);
    var ns' := Sweep(ns, c, r);
    if ns[c].Cancel? {
      if ns[c].err.None? {
        var cs := Registry(ns[c]);
        var marked := ns[c := ns[c].(err := Some(r), done := Resolved)];
        EditKeepsShape(ns, c, marked[c]);
        RegistrableStable(ns, marked, c, cs);
        FaithfulShrinks(ns, marked);
        forall k | 0 <= k < |cs| ensures AncestorOf(marked, cs[k]) == Some(c) {
          AncestorStable(ns, marked, cs[k]);
        }
        var fanned := FanOut(marked, cs, c, r);
        FanOutGrounded(marked, cs, c, r);
        FanOutEffect(marked, cs, c, r);
        assert ns' == fanned[c := fanned[c].(children := None)];
        forall o | NewlyCanceled(ns, ns', o)
          ensures o == c || (Up(ns, o).Some? && NewlyCanceled(ns, ns', Up(ns, o).value))
        {
          if o != c {
            assert ns'[o] == fanned[o] && marked[o] == ns[o];
            assert NewlyCanceled(marked, fanned, o);
            DescendsStable(ns, marked, o, o);
            var u := Up(ns, o).value;
            if u != c {
              assert NewlyCanceled(marked, fanned, u);
              assert marked[u] == ns[u] && ns'[u] == fanned[u];
            }
          }
        }
      }
    } else {
      var inner := ns[c].inner;
      assert Linked(ns, inner);
      var delegated := Sweep(ns, inner, r);
      SweepGrounded(ns, inner, r);
      assert ns' == delegated[c := delegated[c].(armed := false)];
      forall o | NewlyCanceled(ns, ns', o)
        ensures o == inner || (Up(ns, o).Some? && NewlyCanceled(ns, ns', Up(ns, o).value))
      {
        assert NewlyCanceled(ns, delegated, o);
        if o != inner {
          assert NewlyCanceled(ns, delegated, Up(ns, o).value);
        }
      }
    }
  }

  /** The fan-out over lo's registry cancels only nodes whose cancel
      ancestor is lo or was canceled in the same step. */
  lemma {:induction false} FanOutGrounded(ns: seq<Node>, cs: seq<Id>, lo: Id, r: Reason)
    requires WellFormed(ns) && Faithful(ns) && lo < |ns|
    requires forall k :: 0 <= k < |cs| ==> Registrable(ns, lo, cs[k]) && AncestorOf(ns, cs[k]) == Some(lo)
    ensures Grounded(ns, FanOut(ns, cs, lo, r), lo, -1)
    decreases |ns| - lo, 1, |cs|
  {
    if cs != [] {
      var c0 := cs[0];
      assert Registrable(ns, lo, c0) && AncestorOf(ns, c0) == Some(lo);
      var ns1 := Sweep(ns, c0, r);
      SweepGrounded(ns, c0, r);
      SweepEffect(ns, c0, r);
      RegistrableStable(ns, ns1, lo, cs[1..]);
      FaithfulShrinks(ns, ns1);
      forall k | 0 <= k < |cs[1..]| ensures AncestorOf(ns1, cs[1..][k]) == Some(lo) {
        assert cs[1..][k] == cs[k + 1];
        AncestorStable(ns, ns1, cs[k + 1]);
      }
      var ns2 := FanOut(ns1, cs[1..], lo, r);
      FanOutGrounded(ns1, cs[1..], lo, r);
      FanOutEffect(ns1, cs[1..], lo, r);
      assert ns2 == FanOut(ns, cs, lo, r);
      forall o | NewlyCanceled(ns, ns2, o)
        ensures Up(ns, o).Some? && (Up(ns, o).value == lo || NewlyCanceled(ns, ns2, Up(ns, o).value))
      {
        FanOutGroundedAt(ns, ns1, ns2, lo, c0, r, o);
      }
    }
  }

  /** One step of FanOutGrounded: a node canceled by the sweep of c0 or by
      the rest of the fan-out hangs below lo. */
  lemma FanOutGroundedAt(ns: seq<Node>, ns1: seq<Node>, ns2: seq<Node>, lo: Id, c0: Id, r: Reason, o: Id)
    requires WellFormed(ns) && WellFormed(ns1) && WellFormed(ns2) && SameShape(ns, ns1)
    requires IsHandle(ns, c0) && AncestorOf(ns, c0) == Some(lo)
    requires SweptBy(ns, ns1, Base(ns, c0), r) && SweptBy(ns1, ns2, lo + 1, r)
    requires Grounded(ns, ns1, -1, Base(ns, c0)) && Grounded(ns1, ns2, lo, -1)
    requires NewlyCanceled(ns, ns2, o)
    ensures Up(ns, o).Some? && (Up(ns, o).value == lo || NewlyCanceled(ns, ns2, Up(ns, o).value))
  {
    DescendsStable(ns, ns1, o, o);
    assert Touched(ns[o], ns1[o], r);
    if CanceledAt(ns1, o) {
      assert NewlyCanceled(ns, ns1, o);
      if o == Base(ns, c0) {
        HandleOfBase(ns, c0);
      } else {
        var u := Up(ns, o).value;
        assert NewlyCanceled(ns, ns1, u);
        assert Touched(ns1[u], ns2[u], r);
      }
    } else {
      assert ns1[o] == ns[o];
      assert NewlyCanceled(ns1, ns2, o);
      var u := Up(ns1, o).value;
      if u != lo {
        assert NewlyCanceled(ns1, ns2, u);
        assert Touched(ns[u], ns1[u], r);
      }
    }
  }

  /** A sweep leaves no canceler registered with a node it canceled live. */
  lemma SweepClosed(ns: seq<Node>, c: Id, r: Reason)
    requires WellFormed(ns) && IsCanceler(ns, c)
    ensures Closed(ns, Sweep(ns, c, r))
  {
    forall u: Id, x: Id | NewlyCanceled(ns, Sweep(ns, c, r), u) && x in Registry(ns[u])
      ensures CanceledFrom(ns, Sweep(ns, c, r), x)
    {
      SweepClosedAt(ns, c, r, u, x);
    }
  }

  lemma {:induction false} SweepClosedAt(ns: seq<Node>, c: Id, r: Reason, u: Id, x: Id)
    requires WellFormed(ns) && IsCanceler(ns, c)
    requires NewlyCanceled(ns, Sweep(ns, c, r), u) && x in Registry(ns[u])
    ensures x < |ns| && CanceledAt(Sweep(ns, c, r), Base(ns, x))
    decreases |ns| - Base(ns, c), if ns[c].Timer? then 3 else 2, 0
  {
    assert Linked(ns, c);
    assert Linked(ns, u);
    assert Registrable(ns, u, x);
    assert Linked(ns, x);
    var b := Base(ns, x);
    var ns' := Sweep(ns, c, r);
    if ns[c].Cancel? {
      assert ns[c].err.None?;
      var cs := Registry(ns[c]);
      var marked := ns[c := ns[c].(err := Some(r), done := Resolved)];
      EditKeepsShape(ns, c, marked[c]);
      RegistrableStable(ns, marked, c, cs);
      RegistrableStable(ns, marked, u, [x]);
      var fanned := FanOut(marked, cs, c, r);
      FanOutEffect(marked, cs, c, r);
      assert ns' == fanned[c := fanned[c].(children := None)];
      if u == c {
        var k :| 0 <= k < |cs| && cs[k] == x;
        assert CanceledAt(fanned, Base(marked, cs[k]));
      } else {
        assert marked[u] == ns[u] && ns'[u] == fanned[u];
        FanOutClosedAt(marked, cs, c, r, u, x);
      }
      assert b != c;
      assert ns'[b] == fanned[b];
    } else {
      var inner := ns[c].inner;
      assert Linked(ns, inner);
      var delegated := Sweep(ns, inner, r);
      assert ns' == delegated[c := delegated[c].(armed := false)];
      assert ns'[u] == delegated[u];
      SweepClosedAt(ns, inner, r, u, x);
      assert ns'[b] == delegated[b];
    }
  }

  lemma {:induction false} FanOutClosedAt(ns: seq<Node>, cs: seq<Id>, lo: Id, r: Reason, u: Id, x: Id)
    requires WellFormed(ns) && lo < |ns|
    requires forall k :: 0 <= k < |cs| ==> Registrable(ns, lo, cs[k])
    requires NewlyCanceled(ns, FanOut(ns, cs, lo, r), u) && x in Registry(ns[u])
    ensures x < |ns| && CanceledAt(FanOut(ns, cs, lo, r), Base(ns, x))
    decreases |ns| - lo, 1, |cs|
  {
    assert Linked(ns, u);
    assert Registrable(ns, u, x);
    var b := Base(ns, x);
    assert cs != [];
    var c0 := cs[0];
    assert Registrable(ns, lo, c0);
    var ns1 := Sweep(ns, c0, r);
    SweepEffect(ns, c0, r);
    RegistrableStable(ns, ns1, lo, cs[1..]);
    RegistrableStable(ns, ns1, u, [x]);
    var ns2 := FanOut(ns1, cs[1..], lo, r);
    FanOutEffect(ns1, cs[1..], lo, r);
    assert ns2 == FanOut(ns, cs, lo, r);
    assert Touched(ns[u], ns1[u], r);
    if CanceledAt(ns1, u) {
      SweepClosedAt(ns, c0, r, u, x);
      assert Touched(ns1[b], ns2[b], r);
    } else {
      assert ns1[u] == ns[u];
      FanOutClosedAt(ns1, cs[1..], lo, r, u, x);
    }
  }

  // ---------------------------------------------------------------------
  // Every operation keeps the invariant.

  /** cancel(false, r) on handle c, in a state where every live canceler
      but c is enrolled: afterwards every live canceler is enrolled, and the
      only registry entry that may be canceled is c itself. */
  lemma SweepKeepsRegistered(ns: seq<Node>, c: Id, r: Reason)
    requires Coherent(ns) && IsHandle(ns, c)
    requires Faithful(ns) && EntriesLiveBut(ns, -1) && EnrolledBut(ns, c)
    ensures var ns' := Sweep(ns, c, r);
      Faithful(ns') && EntriesLiveBut(ns', c) && EnrolledBut(ns', -1)
  {
    var ns' := Sweep(ns, c, r);
    FaithfulShrinks(ns, ns');
    forall a: Id, x: Id | 0 <= a < |ns'| && x in Registry(ns'[a]) && x != c
      ensures Live(ns', x)
    {
      SweepLeavesEntryLive(ns, c, r, a, x);
    }
    forall x | IsHandle(ns', x) && x != -1 ensures Enrolled(ns', x) {
      SweepKeepsEnrolled(ns, c, r, x);
    }
  }

  /** A registry that survives a sweep belongs to a node the sweep left
      alone, and its entries other than c stay live: the sweep cancels only
      nodes below c whose cancel ancestor it canceled as well. */
  lemma SweepLeavesEntryLive(ns: seq<Node>, c: Id, r: Reason, a: Id, x: Id)
    requires Coherent(ns) && IsHandle(ns, c)
    requires Faithful(ns) && EntriesLiveBut(ns, -1)
    requires a < |ns| && x in Registry(Sweep(ns, c, r)[a]) && x != c
    ensures Live(Sweep(ns, c, r), x)
  {
    var ns' := Sweep(ns, c, r);
    SweepEffect(ns, c, r);
    SweepGrounded(ns, c, r);
    HandleOfBase(ns, c);
    assert Touched(ns[a], ns'[a], r);
    assert ns'[a] == ns[a];
    assert Linked(ns, a) && NodeCoherent(ns, a);
    assert !NewlyCanceled(ns, ns', a);
    AncestorStable(ns, ns', x);
    assert Live(ns, x) && AncestorOf(ns, x) == Some(a);
    HandleOfBase(ns, x);
    assert Base(ns, x) != Base(ns, c);
  }

  /** A canceler the sweep leaves live stays in its ancestor's registry:
      the sweep drops only the registries of nodes it cancels, and those
      take all their entries down with them. */
  lemma SweepKeepsEnrolled(ns: seq<Node>, c: Id, r: Reason, x: Id)
    requires Coherent(ns) && IsHandle(ns, c)
    requires Faithful(ns) && EnrolledBut(ns, c)
    requires IsHandle(Sweep(ns, c, r), x)
    ensures Enrolled(Sweep(ns, c, r), x)
  {
    var ns' := Sweep(ns, c, r);
    SweepEffect(ns, c, r);
    SweepClosed(ns, c, r);
    HandleOfBase(ns, c);
    ShapeKeepsHandles(ns, ns', x);
    AncestorStable(ns, ns', x);
    HandleOfBase(ns, x);
    assert Touched(ns[Base(ns, x)], ns'[Base(ns, x)], r);
    if Live(ns', x) && AncestorOf(ns, x).Some? {
      var u := AncestorOf(ns, x).value;
      assert x != c;
      assert Live(ns, x);
      assert x in Registry(ns[u]);
      assert NodeCoherent(ns, u);
      assert !CanceledFrom(ns, ns', x);
      assert !NewlyCanceled(ns, ns', u);
      assert Touched(ns[u], ns'[u], r);
      assert ns'[u] == ns[u];
    }
  }

  /** removeChild after the sweep: taking the canceled c out of its
      ancestor's registry leaves every registry entry live. */
  lemma DetachKeepsRegistered(ns: seq<Node>, c: Id)
    requires WellFormed(ns) && IsHandle(ns, c) && !Live(ns, c)
    requires Faithful(ns) && EntriesLiveBut(ns, c) && EnrolledBut(ns, -1)
    ensures Registered(Detach(ns, ParentOf(ns, c), c))
  {
    var ns' := Detach(ns, ParentOf(ns, c), c);
    FaithfulShrinks(ns, ns');
    forall a: Id, x: Id | 0 <= a < |ns'| && x in Registry(ns'[a]) && x != -1
      ensures Live(ns', x)
    {
      DetachLeavesEntryLive(ns, c, a, x);
    }
    forall x | IsHandle(ns', x) && x != -1 ensures Enrolled(ns', x) {
      DetachKeepsEnrolled(ns, c, x);
    }
  }

  /** An entry that survives removeChild was live before, and removeChild
      sets no reason. */
  lemma DetachLeavesEntryLive(ns: seq<Node>, c: Id, a: Id, x: Id)
    requires WellFormed(ns) && IsHandle(ns, c) && !Live(ns, c)
    requires Faithful(ns) && EntriesLiveBut(ns, c)
    requires a < |ns| && x in Registry(Detach(ns, ParentOf(ns, c), c)[a])
    ensures Live(Detach(ns, ParentOf(ns, c), c), x)
  {
    var ns' := Detach(ns, ParentOf(ns, c), c);
    DetachRemovesOnlyChild(ns, ParentOf(ns, c), c);
    assert x in Registry(ns[a]);
    assert AncestorOf(ns, x) == Some(a);
    assert x != c;
    assert Live(ns, x);
    AncestorStable(ns, ns', x);
    assert Linked(ns, a);
    HandleOfBase(ns, x);
    assert ns'[Base(ns, x)].err == ns[Base(ns, x)].err;
  }

  /** removeChild drops no live canceler's registration. */
  lemma DetachKeepsEnrolled(ns: seq<Node>, c: Id, x: Id)
    requires WellFormed(ns) && IsHandle(ns, c) && !Live(ns, c)
    requires Faithful(ns) && EnrolledBut(ns, -1)
    requires IsHandle(Detach(ns, ParentOf(ns, c), c), x)
    ensures Enrolled(Detach(ns, ParentOf(ns, c), c), x)
  {
    var ns' := Detach(ns, ParentOf(ns, c), c);
    DetachRemovesOnlyChild(ns, ParentOf(ns, c), c);
    ShapeKeepsHandles(ns, ns', x);
    AncestorStable(ns, ns', x);
    assert Enrolled(ns, x);
  }

  /** A canceled c that no registry holds completes the invariant. */
  lemma UnregisteredKeepsRegistered(ns: seq<Node>, c: Id)
    requires WellFormed(ns) && Unregistered(ns, c)
    requires Faithful(ns) && EntriesLiveBut(ns, c) && EnrolledBut(ns, -1)
    ensures Registered(ns)
  {
  }

  /** cancel(remove, r) on handle c keeps the invariant, given that c is the
      only canceler that may be missing from its ancestor's registry and that
      a cancel which does not detach finds c in no registry. */
  lemma CancelKeepsRegistered(ns: seq<Node>, c: Id, remove: bool, r: Reason)
    requires Coherent(ns) && IsHandle(ns, c)
    requires Faithful(ns) && EntriesLiveBut(ns, -1) && EnrolledBut(ns, c)
    requires remove || Unregistered(ns, c)
    ensures Registered(CancelSpec(ns, c, remove, r))
  {
    var swept := Sweep(ns, c, r);
    SweepKeepsRegistered(ns, c, r);
    SweepEffect(ns, c, r);
    HandleOfBase(ns, c);
    assert !Live(swept, c);
    if Detaches(ns, c, remove) {
      AncestorStable(ns, swept, c);
      DetachKeepsRegistered(swept, c);
    } else {
      assert Linked(ns, c);
      assert Unregistered(ns, c);
      assert Unregistered(swept, c);
      UnregisteredKeepsRegistered(swept, c);
    }
  }

  /** A canceled canceler is in no registry. */
  lemma CanceledUnregistered(ns: seq<Node>, c: Id)
    requires WellFormed(ns) && Registered(ns) && !Live(ns, c)
    ensures Unregistered(ns, c)
  {
  }

  /** done() keeps the invariant. */
  lemma CreateSignalKeepsRegistered(ns: seq<Node>, j: Id)
    requires WellFormed(ns) && j < |ns| && Registered(ns)
    ensures Registered(CreateSignal(ns, j))
  {
    CreateSignalSameRegistration(ns, j);
    RegistrationTransfer(ns, CreateSignal(ns, j), -1);
  }

  /** `p._children.add(child)` with the child's own cancel ancestor, the one
      step that enrolls a canceler. */
  lemma RegisterKeepsRegistered(ns: seq<Node>, a: Id, child: Id)
    requires WellFormed(ns) && a < |ns| && ns[a].Cancel? && Registrable(ns, a, child)
    requires AncestorOf(ns, child) == Some(a) && Live(ns, child)
    requires Faithful(ns) && EntriesLiveBut(ns, -1) && EnrolledBut(ns, child)
    ensures WellFormed(Register(ns, a, child)) && Registered(Register(ns, a, child))
  {
    var ns' := Register(ns, a, child);
    RegisterKeepsWellFormed(ns, a, child);
    forall j: Id, x: Id | 0 <= j < |ns'| && x in Registry(ns'[j])
      ensures IsCanceler(ns', x) && AncestorOf(ns', x) == Some(j) && Live(ns', x)
    {
      RegisterKeepsEntry(ns, a, child, j, x);
    }
    forall x | IsHandle(ns', x) && x != -1 ensures Enrolled(ns', x) {
      RegisterKeepsEnrolled(ns, a, child, x);
    }
  }

  /** Every entry of a registry after the add is faithful and live. */
  lemma RegisterKeepsEntry(ns: seq<Node>, a: Id, child: Id, j: Id, x: Id)
    requires WellFormed(ns) && a < |ns| && ns[a].Cancel? && Registrable(ns, a, child)
    requires AncestorOf(ns, child) == Some(a) && Live(ns, child)
    requires Faithful(ns) && EntriesLiveBut(ns, -1)
    requires j < |ns| && x in Registry(Register(ns, a, child)[j])
    ensures var ns' := Register(ns, a, child);
      WellFormed(ns') && IsCanceler(ns', x) && AncestorOf(ns', x) == Some(j) && Live(ns', x)
  {
    var ns' := Register(ns, a, child);
    RegisterKeepsWellFormed(ns, a, child);
    assert x == child || x in Registry(ns[j]);
    assert Linked(ns, j);
    assert IsHandle(ns, x);
    AncestorStable(ns, ns', x);
    HandleOfBase(ns, x);
    if x != child {
      assert Live(ns, x);
    }
    assert ns'[Base(ns, x)].err == ns[Base(ns, x)].err;
  }

  /** The add drops no registration and enrolls the child. */
  lemma RegisterKeepsEnrolled(ns: seq<Node>, a: Id, child: Id, x: Id)
    requires WellFormed(ns) && a < |ns| && ns[a].Cancel? && Registrable(ns, a, child)
    requires AncestorOf(ns, child) == Some(a) && Live(ns, child)
    requires Faithful(ns) && EnrolledBut(ns, child)
    requires IsHandle(Register(ns, a, child), x)
    ensures var ns' := Register(ns, a, child);
      WellFormed(ns') && IsCanceler(ns', x) && Enrolled(ns', x)
  {
    var ns' := Register(ns, a, child);
    RegisterKeepsWellFormed(ns, a, child);
    ShapeKeepsHandles(ns, ns', x);
    AncestorStable(ns, ns', x);
    HandleOfBase(ns, x);
    if x != child {
      assert Enrolled(ns, x);
    }
    assert ns'[Base(ns, x)].err == ns[Base(ns, x)].err;
  }

  /** propagateCancel keeps the invariant for a new canceler: it registers
      the child with a live cancel ancestor, cancels it at once under a
      canceled one (so it needs no registry), and registers nothing when the
      walk finds no cancel ancestor (the child then has none to be in). */
  lemma PropagateKeepsRegistered(ns: seq<Node>, parent: Id, child: Id)
    requires Coherent(ns) && Attachable(ns, parent, child) && ParentOf(ns, child) == parent
    requires Live(ns, child) && Unregistered(ns, child)
    requires Faithful(ns) && EntriesLiveBut(ns, -1) && EnrolledBut(ns, child)
    ensures Registered(Propagate(ns, parent, child))
  {
    ParentCancelIsNearestCancel(ns, parent);
    if SignalOwner(ns, parent).None? {
      assert Enrolled(ns, child);
    } else {
      var ns1 := CreateSignal(ns, parent);
      CreateSignalSameRegistration(ns, parent);
      CreateSignalKeepsCoherent(ns, parent);
      RegistrationTransfer(ns, ns1, child);
      ParentCancelStable(ns, ns1, parent);
      AncestorStable(ns, ns1, child);
      HandleOfBase(ns, child);
      match ParentCancel(ns, parent)
      case None =>
        var ns2 := CreateSignal(ns1, child);
        CreateSignalSameRegistration(ns1, child);
        RegistrationTransfer(ns1, ns2, child);
        AncestorStable(ns1, ns2, child);
        assert Enrolled(ns2, child);
      case Some(a) =>
        assert Unregistered(ns1, child);
        if ns1[a].err.Some? {
          CancelKeepsRegistered(ns1, child, false, ns1[a].err.value);
        } else {
          assert Erase(ns1[child]) == Erase(ns[child]);
          assert child + 1 < |ns| ==> Erase(ns1[child + 1]) == Erase(ns[child + 1]);
          RegisterKeepsRegistered(ns1, a, child);
        }
    }
  }

  /** Appending nodes with empty registries, whose timers embed only new
      cancel nodes, keeps the invariant for every old canceler. */
  lemma AppendKeepsRegistration(ns: seq<Node>, ns': seq<Node>)
    requires WellFormed(ns) && WellFormed(ns') && |ns| <= |ns'| && ns'[..|ns|] == ns
    requires forall j :: |ns| <= j < |ns'| ==> Registry(ns'[j]) == [] && (ns'[j].Timer? ==> ns'[j].inner >= |ns|)
    requires Registered(ns)
    ensures Extends(ns, ns') && Faithful(ns') && EntriesLiveBut(ns', -1)
    ensures forall x: Id :: IsHandle(ns', x) && x < |ns| ==> Enrolled(ns', x)
  {
    assert forall j :: 0 <= j < |ns| ==> ns'[j] == ns[j];
    assert Extends(ns, ns');
    forall a: Id, x: Id | 0 <= a < |ns'| && x in Registry(ns'[a])
      ensures IsCanceler(ns', x) && AncestorOf(ns', x) == Some(a) && Live(ns', x)
    {
      assert a < |ns|;
      AncestorStable(ns, ns', x);
      assert Linked(ns, a);
      HandleOfBase(ns, x);
      assert Live(ns, x);
    }
    forall x: Id | IsHandle(ns', x) && x < |ns| ensures Enrolled(ns', x) {
      assert IsHandle(ns, x);
      AncestorStable(ns, ns', x);
      HandleOfBase(ns, x);
      assert Enrolled(ns, x);
    }
  }

  /** withValue appends a value node, the wrapper of an unknown context
      kind an opaque one; neither has a registry or is a canceler. */
  lemma AppendLeafKeepsRegistered(ns: seq<Node>, n: Node)
    requires WellFormed(ns) && WellFormed(ns + [n]) && (n.Value? || n.Opaque?) && Registered(ns)
    ensures Registered(ns + [n])
  {
    var ns' := ns + [n];
    assert ns'[..|ns|] == ns;
    AppendKeepsRegistration(ns, ns');
  }

  lemma WithCancelKeepsRegistered(ns: seq<Node>, parent: Id)
    requires Coherent(ns) && parent < |ns| && Registered(ns)
    ensures Registered(WithCancelSpec(ns, parent))
  {
    var ns1 := ns + [NewCancel(parent)];
    WithCancelAllocates(ns, parent);
    assert ns1[..|ns|] == ns;
    AppendKeepsRegistration(ns, ns1);
    PropagateKeepsRegistered(ns1, parent, |ns|);
  }

  lemma WithDeadlineKeepsRegistered(ns: seq<Node>, parent: Id, d: int, duration: int)
    requires Coherent(ns) && parent < |ns| && Registered(ns)
    ensures Registered(WithDeadlineSpec(ns, parent, d, duration).0)
  {
    if Clamped(ns, parent, d) {
      WithCancelKeepsRegistered(ns, parent);
    } else {
      WiredKeepsRegistered(ns, parent, d);
      WiredState(ns, parent, d);
      WiredHandle(ns, parent, d);
      SettleKeepsRegistered(Wired(ns, parent, d), |ns| + 1, duration);
    }
  }

  /** The timer node and its cancel node, wired under the parent. */
  lemma WiredKeepsRegistered(ns: seq<Node>, parent: Id, d: int)
    requires Coherent(ns) && parent < |ns| && Registered(ns)
    ensures Registered(Wired(ns, parent, d))
  {
    var t := |ns| + 1;
    var ns1 := ns + TimerPair(ns, parent, d);
    TimerPairAppends(ns, parent, d);
    assert ns1[..|ns|] == ns;
    AppendKeepsRegistration(ns, ns1);
    assert !IsHandle(ns1, |ns|);
    PropagateKeepsRegistered(ns1, parent, t);
  }

  /** Expiring at once, or arming the host timer. */
  lemma SettleKeepsRegistered(ns2: seq<Node>, t: Id, duration: int)
    requires Coherent(ns2) && IsHandle(ns2, t) && ns2[t].Timer? && Registered(ns2)
    ensures Registered(Settle(ns2, t, duration))
  {
    if duration <= 0 {
      CancelKeepsRegistered(ns2, t, true, DeadlineExceeded);
    } else if Err(ns2, t).None? {
      var ns3 := ns2[t := ns2[t].(armed := true)];
      assert Erase(ns3[t]) == Erase(ns2[t]);
      assert ns3 == Settle(ns2, t, duration);
      RegistrationTransfer(ns2, ns3, -1);
    }
  }

  /** A cancel function as the library hands it out: it detaches, or its
      context was already canceled when it was made (withDeadline with a
      delay <= 0 returns `() => c.cancel(false, ...)`). */
  ghost predicate Issued(ns: seq<Node>, f: CancelFunc) {
    IsHandle(ns, f.target) && (f.detach || CanceledAt(ns, Base(ns, f.target)))
  }

  lemma WithCancelIssues(ns: seq<Node>, parent: Id)
    requires Coherent(ns) && parent < |ns|
    ensures Issued(WithCancelSpec(ns, parent), CancelFunc(|ns|, true))
  {
    var ns' := WithCancelSpec(ns, parent);
    WithCancelAllocates(ns, parent);
    assert Erase(ns'[|ns|]) == Erase((ns + [NewCancel(parent)])[|ns|]);
  }

  lemma WithDeadlineIssues(ns: seq<Node>, parent: Id, d: int, duration: int)
    requires Coherent(ns) && parent < |ns|
    ensures var res := WithDeadlineSpec(ns, parent, d, duration);
      Issued(res.0, res.2) && res.2.target == res.1
  {
    if Clamped(ns, parent, d) {
      WithCancelIssues(ns, parent);
    } else {
      var t := |ns| + 1;
      var ns2 := Wired(ns, parent, d);
      WiredHandle(ns, parent, d);
      var ns3 := Settle(ns2, t, duration);
      HandleStable(ns2, ns3, t);
      AncestorStable(ns2, ns3, t);
      if duration <= 0 {
        CancelEffect(ns2, t, true, DeadlineExceeded);
      }
    }
  }

  /** A cancel function stays one the library hands out. */
  lemma IssuedLater(ns: seq<Node>, ns': seq<Node>, f: CancelFunc)
    requires WellFormed(ns) && WellFormed(ns') && Later(ns, ns') && Issued(ns, f)
    ensures Issued(ns', f)
  {
    HandleStable(ns, ns', f.target);
    AncestorStable(ns, ns', f.target);
  }

  lemma InvokeKeepsRegistered(ns: seq<Node>, f: CancelFunc)
    requires Coherent(ns) && Registered(ns) && Issued(ns, f)
    ensures Registered(InvokeSpec(ns, f))
  {
    if !f.detach {
      CanceledUnregistered(ns, f.target);
    }
    CancelKeepsRegistered(ns, f.target, f.detach, Canceled);
  }

  lemma FireKeepsRegistered(ns: seq<Node>, t: Id)
    requires Coherent(ns) && t < |ns| && ns[t].Timer? && IsHandle(ns, t) && Registered(ns)
    ensures Registered(FireSpec(ns, t))
  {
    if ns[t].armed {
      CancelKeepsRegistered(ns, t, true, DeadlineExceeded);
    }
  }

  // ---------------------------------------------------------------------
  // What the invariant buys.

  /** In a state that keeps the invariant, every cancel node below a
      canceled one is canceled too. */
  lemma {:induction false} CanceledBelow(ns: seq<Node>, o: Id, b: Id)
    requires Coherent(ns) && Registered(ns) && o < |ns| && ns[o].Cancel?
    requires Descends(ns, o, b) && CanceledAt(ns, b)
    ensures CanceledAt(ns, o)
    decreases o
  {
    if o != b {
      var u := Up(ns, o).value;
      CanceledBelow(ns, u, b);
      var h := HandleOf(ns, o);
      assert Enrolled(ns, h);
      assert NodeCoherent(ns, u);
    }
  }

  /** The withCancel promise: a context's done() is resolved whenever its
      parent's is, provided the parent has a cancel ancestor that the walk
      reaches (through an unknown context kind only the asynchronous
      watcher, which is not modelled, would pass it on). */
  lemma ChildFollowsParent(ns: seq<Node>, child: Id)
    requires Coherent(ns) && Registered(ns) && IsHandle(ns, child)
    requires ParentCancel(ns, ParentOf(ns, child)).Some?
    ensures Err(ns, ParentOf(ns, child)).Some? ==> Err(ns, child).Some?
    ensures Signal(ns, ParentOf(ns, child)) == Some(Resolved) ==> Signal(ns, child) == Some(Resolved)
  {
    var p := ParentOf(ns, child);
    ParentCancelIsNearestCancel(ns, p);
    ErrIsOwnersReason(ns, p);
    ErrIsOwnersReason(ns, child);
    ErrIffResolved(ns, p);
    ErrIffResolved(ns, child);
    HandleOfBase(ns, child);
    assert Linked(ns, child);
    var a := ParentCancel(ns, p).value;
    if CanceledAt(ns, a) {
      CanceledBelow(ns, Base(ns, child), a);
    }
  }

  /** A sweep from c cancels every cancel node below c's own. */
  lemma {:induction false} SweepReachesBelow(ns: seq<Node>, c: Id, r: Reason, o: Id)
    requires Coherent(ns) && Registered(ns) && IsHandle(ns, c) && o < |ns| && ns[o].Cancel?
    requires Descends(ns, o, Base(ns, c))
    ensures CanceledAt(Sweep(ns, c, r), o)
    decreases o
  {
    var ns' := Sweep(ns, c, r);
    SweepEffect(ns, c, r);
    assert Touched(ns[o], ns'[o], r);
    if o != Base(ns, c) && !CanceledAt(ns, o) {
      var u := Up(ns, o).value;
      SweepReachesBelow(ns, c, r, u);
      var h := HandleOf(ns, o);
      assert Enrolled(ns, h);
      assert NodeCoherent(ns, u);
      assert Touched(ns[u], ns'[u], r);
      SweepClosedAt(ns, c, r, u, h);
    }
  }

  /** A sweep from c cancels nothing but cancel nodes below c's own. */
  lemma {:induction false} SweepOnlyBelow(ns: seq<Node>, c: Id, r: Reason, o: Id)
    requires WellFormed(ns) && Faithful(ns) && IsCanceler(ns, c)
    requires NewlyCanceled(ns, Sweep(ns, c, r), o)
    ensures Descends(ns, o, Base(ns, c))
    decreases o
  {
    SweepGrounded(ns, c, r);
    if o != Base(ns, c) {
      SweepOnlyBelow(ns, c, r, Up(ns, o).value);
    }
  }

  /** What a cancel reaches (tests/withCancel.spec.ts, "parent finishes
      child"): cancel(remove, r) on handle c sets a reason on exactly the
      contexts whose signal lives in a cancel node below c's own, climbing
      through cancel ancestors as registration does, on top of those that
      already had one; every reason it sets is r. */
  lemma CancelReaches(ns: seq<Node>, c: Id, remove: bool, r: Reason, j: Id)
    requires Coherent(ns) && Registered(ns) && IsHandle(ns, c) && j < |ns|
    ensures var ns' := CancelSpec(ns, c, remove, r);
      var o := SignalOwner(ns, j);
      && (Err(ns', j).Some? <==> Err(ns, j).Some? || (o.Some? && Descends(ns, o.value, Base(ns, c))))
      && (Err(ns, j).None? && Err(ns', j).Some? ==> Err(ns', j) == Some(r))
  {
    var ns' := CancelSpec(ns, c, remove, r);
    var swept := Sweep(ns, c, r);
    ErrIsOwnersReason(ns, j);
    ErrIsOwnersReason(ns', j);
    ReadsStable(ns, ns', j);
    var o := SignalOwner(ns, j);
    if o.Some? {
      var b := o.value;
      CancelShape(ns, c, remove, r);
      SweepEffect(ns, c, r);
      assert ns'[b].err == swept[b].err;
      assert Touched(ns[b], swept[b], r);
      if Descends(ns, b, Base(ns, c)) {
        SweepReachesBelow(ns, c, r, b);
      }
      if NewlyCanceled(ns, swept, b) {
        SweepOnlyBelow(ns, c, r, b);
      }
    }
  }

  /** Canceling a canceler that is already canceled changes nothing: the
      invariant guarantees it is in no registry, so even a detaching call
      has nothing to remove. */
  lemma CancelCanceledIsNoOp(ns: seq<Node>, c: Id, remove: bool, r: Reason)
    requires Coherent(ns) && Registered(ns) && IsHandle(ns, c) && CanceledAt(ns, Base(ns, c))
    ensures CancelSpec(ns, c, remove, r) == ns
  {
    CanceledUnregistered(ns, c);
    CancelAgainIsNoOp(ns, c, remove, r);
  }

  /** types.ts: after the first call, later calls to a CancelFunc do
      nothing, in whatever state the program has reached by then. */
  lemma InvokeStaysIdempotent(ns: seq<Node>, f: CancelFunc, ns2: seq<Node>)
    requires Coherent(ns) && IsHandle(ns, f.target)
    requires Coherent(ns2) && Registered(ns2) && Later(InvokeSpec(ns, f), ns2)
    ensures IsHandle(ns2, f.target) && InvokeSpec(ns2, f) == ns2
  {
    var c := f.target;
    var ns1 := InvokeSpec(ns, f);
    CancelEffect(ns, c, f.detach, Canceled);
    HandleStable(ns, ns1, c);
    HandleStable(ns1, ns2, c);
    AncestorStable(ns, ns1, c);
    AncestorStable(ns1, ns2, c);
    assert CanceledAt(ns1, Base(ns, c));
    CancelCanceledIsNoOp(ns2, c, f.detach, Canceled);
  }
}
