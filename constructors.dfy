/**
 * The public constructors of src/entry.ts as functions of the store:
 * withCancel, withValue, withDeadline, withTimeout, the expiry of a
 * deadline's host timer, and the cancel functions handed to callers.
 */
module Constructors {
  import opened Types
  import opened Contexts
  import opened Ancestry
  import opened Cancellation
  import opened Propagation

  // ---------------------------------------------------------------------
  // Growing the store.

  /** The nodes from m on are linked and do not claim a node older than m
      as a timer's embedded node. */
  predicate LinkedFrom(ns: seq<Node>, m: nat) {
    forall j :: m <= j < |ns| ==> Linked(ns, j) && (ns[j].Timer? ==> ns[j].inner >= m)
  }

  /** Appending such nodes keeps the store well-formed and leaves every
      existing node as it was. */
  lemma AppendKeepsWellFormed(ns: seq<Node>, ns': seq<Node>)
    requires WellFormed(ns) && |ns| <= |ns'| && ns'[..|ns|] == ns && LinkedFrom(ns', |ns|)
    ensures WellFormed(ns') && Extends(ns, ns')
  {
    forall j | 0 <= j < |ns| ensures Linked(ns', j) && ns'[j] == ns[j] {
      assert Linked(ns, j);
      assert ns'[j] == ns'[..|ns|][j];
      forall x | x in Registry(ns'[j]) ensures Registrable(ns', j, x) {
        assert Registrable(ns, j, x);
        assert ns'[x] == ns'[..|ns|][x];
        if x + 1 < |ns| {
          assert ns'[x + 1] == ns'[..|ns|][x + 1];
        }
      }
      if ns[j].Timer? {
        assert ns'[ns[j].inner] == ns'[..|ns|][ns[j].inner];
      }
    }
  }

  /** The same for the node invariants. */
  lemma AppendKeepsCoherent(ns: seq<Node>, ns': seq<Node>)
    requires Coherent(ns) && |ns| <= |ns'| && ns'[..|ns|] == ns && LinkedFrom(ns', |ns|)
    requires forall j :: |ns| <= j < |ns'| ==> NodeCoherent(ns', j)
    ensures Coherent(ns') && Extends(ns, ns')
  {
    AppendKeepsWellFormed(ns, ns');
    forall j | 0 <= j < |ns| ensures NodeCoherent(ns', j) {
      assert NodeCoherent(ns, j);
      assert ns'[j] == ns'[..|ns|][j];
      if ns[j].Timer? && ns[j].armed {
        assert Linked(ns, j);
        assert ns'[ns[j].inner] == ns'[..|ns|][ns[j].inner];
      }
    }
  }

  /** getCancelContext: a fresh cancel node over the parent. */
  function NewCancel(parent: Id): Node {
    Cancel(parent, None, NotCreated, None)
  }

  /** No registry holds x. */
  ghost predicate Unregistered(ns: seq<Node>, x: Id) {
    forall j :: 0 <= j < |ns| ==> x !in Registry(ns[j])
  }

  /** Every registry entry is an existing node, so a new node is in no
      registry. */
  lemma FreshUnregistered(ns: seq<Node>, extra: seq<Node>, x: Id)
    requires WellFormed(ns) && WellFormed(ns + extra) && |ns| <= x
    requires forall i :: 0 <= i < |extra| ==> Registry(extra[i]) == []
    ensures Unregistered(ns + extra, x)
  {
    forall j | 0 <= j < |ns + extra| ensures x !in Registry((ns + extra)[j]) {
      if j < |ns| {
        assert Linked(ns, j);
        assert (ns + extra)[j] == ns[j];
      } else {
        assert (ns + extra)[j] == extra[j - |ns|];
      }
    }
  }

  // ---------------------------------------------------------------------
  // withCancel.

  /** withCancel(parent): append a cancel node over parent and wire it with
      propagateCancel; the new node is the last one. */
  ghost function WithCancelSpec(ns: seq<Node>, parent: Id): (ns': seq<Node>)
    requires WellFormed(ns) && parent < |ns|
    ensures |ns'| == |ns| + 1 && WellFormed(ns') && Extends(ns, ns')
  {
    var ns1 := ns + [NewCancel(parent)];
    assert ns1[..|ns|] == ns;
    AppendKeepsWellFormed(ns, ns1);
    var ns' := Propagate(ns1, parent, |ns|);
    assert Extends(ns, ns') by {
      forall j | 0 <= j < |ns| ensures Erase(ns'[j]) == Erase(ns[j]) {
        assert Erase(ns'[j]) == Erase(ns1[j]);
      }
    }
    ns'
  }

  /** The store right after withCancel allocates its node: coherent, the
      node attachable and in no registry, and the parent's reads as before. */
  lemma WithCancelAllocates(ns: seq<Node>, parent: Id)
    requires Coherent(ns) && parent < |ns|
    ensures var ns1 := ns + [NewCancel(parent)];
      && Coherent(ns1) && Extends(ns, ns1)
      && Attachable(ns1, parent, |ns|) && Unregistered(ns1, |ns|)
      && ParentCancel(ns1, parent) == ParentCancel(ns, parent)
      && InheritedReason(ns1, parent) == InheritedReason(ns, parent)
      && WithCancelSpec(ns, parent) == Propagate(ns1, parent, |ns|)
  {
    var ns1 := ns + [NewCancel(parent)];
    assert ns1[..|ns|] == ns;
    AppendKeepsCoherent(ns, ns1);
    FreshUnregistered(ns, [NewCancel(parent)], |ns|);
    ParentCancelStable(ns, ns1, parent);
    ParentCancelIsNearestCancel(ns, parent);
  }

  /** withCancel keeps the store coherent and changes no older context's
      err(): a new child never cancels anything above it. */
  lemma WithCancelKeepsCoherent(ns: seq<Node>, parent: Id)
    requires Coherent(ns) && parent < |ns|
    ensures var ns' := WithCancelSpec(ns, parent);
      && Coherent(ns')
      && (forall j :: 0 <= j < |ns| ==> Err(ns', j) == Err(ns, j))
  {
    var ns1 := ns + [NewCancel(parent)];
    WithCancelAllocates(ns, parent);
    var ns' := Propagate(ns1, parent, |ns|);
    PropagateKeepsCoherent(ns1, parent, |ns|);
    PropagateSparesOlder(ns1, parent, |ns|);
    forall j | 0 <= j < |ns| ensures Err(ns1, j) == Err(ns, j) {
      ErrIsOwnersReason(ns, j);
      ErrIsOwnersReason(ns1, j);
      ReadsStable(ns, ns1, j);
    }
  }

  /** The context withCancel returns is a cancel node over parent whose
      deadline, values and description derive from the parent. */
  lemma WithCancelReads(ns: seq<Node>, parent: Id)
    requires Coherent(ns) && parent < |ns|
    ensures var ns' := WithCancelSpec(ns, parent);
      var c := |ns|;
      && ns'[c].Cancel? && ns'[c].parent == parent
      && Describe(ns', c) == Describe(ns, parent) + ".withCancel"
      && Deadline(ns', c) == Deadline(ns, parent)
      && (forall k :: Lookup(ns', c, k) == Lookup(ns, parent, k))
  {
    var ns1 := ns + [NewCancel(parent)];
    WithCancelAllocates(ns, parent);
    var ns' := Propagate(ns1, parent, |ns|);
    ReadsStable(ns1, ns', |ns|);
    ReadsStable(ns, ns1, parent);
    assert Erase(ns'[|ns|]) == Erase(ns1[|ns|]);
  }

  /** The new context starts canceled exactly when the parent's cancel
      ancestor already is, with that reason; otherwise it sits at the end of
      that ancestor's registry, and its signal is not yet created unless an
      opaque parent made propagateCancel ask for it. */
  lemma WithCancelState(ns: seq<Node>, parent: Id)
    requires Coherent(ns) && parent < |ns|
    ensures var ns' := WithCancelSpec(ns, parent);
      var c := |ns|;
      && Err(ns', c) == InheritedReason(ns, parent)
      && Signal(ns', c) == Some(if InheritedReason(ns, parent).Some? then Resolved
                                else if Watched(ns, parent) then Pending else NotCreated)
      && (ParentCancel(ns, parent).Some? && InheritedReason(ns, parent).None? ==>
            Registry(ns'[ParentCancel(ns, parent).value]) == Registry(ns[ParentCancel(ns, parent).value]) + [c])
  {
    var c := |ns|;
    var ns1 := ns + [NewCancel(parent)];
    WithCancelAllocates(ns, parent);
    var ns' := Propagate(ns1, parent, c);
    WithCancelKeepsCoherent(ns, parent);
    PropagateChildReason(ns1, parent, c);
    ReadsStable(ns, ns1, parent);
    ErrIffResolved(ns', c);
    if ParentCancel(ns, parent).Some? && InheritedReason(ns, parent).None? {
      var a := ParentCancel(ns, parent).value;
      ParentCancelIsNearestCancel(ns1, parent);
      PropagateUnderLive(ns1, parent, c);
      CreateSignalEffect(ns1, parent);
      assert ns1[a] == ns[a];
    }
  }

  // ---------------------------------------------------------------------
  // withDeadline and withTimeout.

  /** The time left until deadline d at time now, in milliseconds. */
  function Remaining(now: int, d: int): (ms: int)
    ensures ms <= 0 <==> d <= now
  {
    d - now
  }

  /** The duration as src/entry.ts:80 computes it: the subtraction is the
      wrong way round. */
  function DurationAsWritten(now: int, d: int): (ms: int)
    ensures ms <= 0 <==> now <= d
  {
    now - d
  }

  /** The parent's deadline is already earlier than d. */
  function Clamped(ns: seq<Node>, parent: Id, d: int): bool
    requires WellFormed(ns) && parent < |ns|
  {
    Deadline(ns, parent).Some? && Deadline(ns, parent).value < d
  }

  /** A cancel node over parent and the timer node embedding it. */
  function TimerPair(ns: seq<Node>, parent: Id, d: int): seq<Node> {
    [NewCancel(parent), Timer(|ns|, d, false)]
  }

  lemma TimerPairAppends(ns: seq<Node>, parent: Id, d: int)
    requires Coherent(ns) && parent < |ns|
    ensures var ns1 := ns + TimerPair(ns, parent, d);
      && Coherent(ns1) && Extends(ns, ns1)
      && Attachable(ns1, parent, |ns| + 1) && Unregistered(ns1, |ns| + 1)
      && Err(ns1, |ns| + 1).None?
      && ParentCancel(ns1, parent) == ParentCancel(ns, parent)
      && InheritedReason(ns1, parent) == InheritedReason(ns, parent)
  {
    var extra := TimerPair(ns, parent, d);
    var ns1 := ns + extra;
    assert ns1[..|ns|] == ns;
    AppendKeepsCoherent(ns, ns1);
    FreshUnregistered(ns, extra, |ns| + 1);
    ParentCancelStable(ns, ns1, parent);
    ParentCancelIsNearestCancel(ns, parent);
  }

  /** The store after withDeadline has built the timer node and run
      propagateCancel, before it looks at the delay. */
  ghost function Wired(ns: seq<Node>, parent: Id, d: int): (ns2: seq<Node>)
    requires Coherent(ns) && parent < |ns|
    ensures SameShape(ns + TimerPair(ns, parent, d), ns2) && WellFormed(ns2)
  {
    TimerPairAppends(ns, parent, d);
    Propagate(ns + TimerPair(ns, parent, d), parent, |ns| + 1)
  }

  /** What withDeadline does once the timer node is wired: a delay <= 0
      cancels it with DeadlineExceeded and detaches it; otherwise the host
      timer is armed unless the node is already canceled. */
  ghost function Settle(ns2: seq<Node>, t: Id, duration: int): (ns3: seq<Node>)
    requires WellFormed(ns2) && IsHandle(ns2, t) && ns2[t].Timer?
    ensures SameShape(ns2, ns3) && WellFormed(ns3)
  {
    if duration <= 0 then CancelSpec(ns2, t, true, DeadlineExceeded)
    else if Err(ns2, t).None? then
      var ns3 := ns2[t := ns2[t].(armed := true)];
      assert Erase(ns3[t]) == Erase(ns2[t]);
      WellFormedTransfer(ns2, ns3);
      ns3
    else ns2
  }

  /** The timer node is a handle of the wired store. */
  lemma WiredHandle(ns: seq<Node>, parent: Id, d: int)
    requires Coherent(ns) && parent < |ns|
    ensures var ns2 := Wired(ns, parent, d);
      && IsHandle(ns2, |ns| + 1) && ns2[|ns| + 1].Timer? && ns2[|ns| + 1].deadline == d
      && Extends(ns, ns2) && ParentOf(ns2, |ns| + 1) == parent
      && ParentCancel(ns2, parent) == ParentCancel(ns, parent)
  {
    var ns1 := ns + TimerPair(ns, parent, d);
    TimerPairAppends(ns, parent, d);
    var ns2 := Wired(ns, parent, d);
    assert Erase(ns2[|ns| + 1]) == Erase(ns1[|ns| + 1]);
    assert Erase(ns2[|ns|]) == Erase(ns1[|ns|]);
    assert Extends(ns, ns2) by {
      forall j | 0 <= j < |ns| ensures Erase(ns2[j]) == Erase(ns[j]) {
        assert Erase(ns2[j]) == Erase(ns1[j]);
      }
    }
    ParentCancelStable(ns, ns2, parent);
  }

  /**
   * withDeadline(parent, d) with the host timer's delay `duration`: a parent
   * deadline earlier than d makes it withCancel. Otherwise a timer node is
   * built, wired with propagateCancel and settled; a delay <= 0 hands out a
   * cancel function that does not detach. Results: the store, the context,
   * its cancel function.
   */
  ghost function WithDeadlineSpec(ns: seq<Node>, parent: Id, d: int, duration: int): (res: (seq<Node>, Id, CancelFunc))
    requires Coherent(ns) && parent < |ns|
    ensures WellFormed(res.0) && res.1 < |res.0|
  {
    if Clamped(ns, parent, d) then
      (WithCancelSpec(ns, parent), |ns|, CancelFunc(|ns|, true))
    else
      WiredHandle(ns, parent, d);
      (Settle(Wired(ns, parent, d), |ns| + 1, duration), |ns| + 1, CancelFunc(|ns| + 1, duration > 0))
  }

  /** withDeadline under a parent whose deadline is earlier is withCancel:
      no timer node, and the deadline reads as the parent's. */
  lemma WithDeadlineClamped(ns: seq<Node>, parent: Id, d: int, duration: int)
    requires Coherent(ns) && parent < |ns| && Clamped(ns, parent, d)
    ensures var res := WithDeadlineSpec(ns, parent, d, duration);
      && res == (WithCancelSpec(ns, parent), |ns|, CancelFunc(|ns|, true))
      && res.0[res.1].Cancel?
      && Deadline(res.0, res.1) == Deadline(ns, parent)
      && Deadline(res.0, res.1).value < d
  {
    WithCancelReads(ns, parent);
  }

  /** Otherwise the context is a new timer node with deadline d, over the
      parent's values, described as the parent followed by
      `.WithDeadline(d)`. */
  lemma WithDeadlineReads(ns: seq<Node>, parent: Id, d: int, duration: int)
    requires Coherent(ns) && parent < |ns| && !Clamped(ns, parent, d)
    ensures var res := WithDeadlineSpec(ns, parent, d, duration);
      var t := res.1;
      && t == |ns| + 1 && res.0[t].Timer?
      && Deadline(res.0, t) == Some(d)
      && Describe(res.0, t) == Describe(ns, parent) + ".WithDeadline(" + ShowTime(d) + ")"
      && (forall k :: Lookup(res.0, t, k) == Lookup(ns, parent, k))
  {
    var t := |ns| + 1;
    var ns1 := ns + TimerPair(ns, parent, d);
    var ns3 := WithDeadlineSpec(ns, parent, d, duration).0;
    TimerPairReads(ns, parent, d);
    SettledExtends(ns, parent, d, duration);
    assert WithDeadlineSpec(ns, parent, d, duration).1 == t;
    assert Erase(ns3[t]) == Erase(ns1[t]);
    ReadsStable(ns1, ns3, t);
  }

  /** The reads of the timer node as built, before any wiring. */
  lemma TimerPairReads(ns: seq<Node>, parent: Id, d: int)
    requires Coherent(ns) && parent < |ns|
    ensures var ns1 := ns + TimerPair(ns, parent, d);
      var t := |ns| + 1;
      && WellFormed(ns1) && ns1[t].Timer?
      && Deadline(ns1, t) == Some(d)
      && Describe(ns1, t) == Describe(ns, parent) + ".WithDeadline(" + ShowTime(d) + ")"
      && (forall k :: Lookup(ns1, t, k) == Lookup(ns, parent, k))
  {
    var t := |ns| + 1;
    var ns1 := ns + TimerPair(ns, parent, d);
    TimerPairAppends(ns, parent, d);
    ReadsStable(ns, ns1, parent);
    assert Linked(ns1, t - 1);
    forall k ensures Lookup(ns1, t, k) == Lookup(ns, parent, k) {
      assert Lookup(ns1, t, k) == Lookup(ns1, t - 1, k) == Lookup(ns1, parent, k);
    }
  }

  /** Wiring and settling change no construction-time field of the timer
      pair. */
  lemma SettledExtends(ns: seq<Node>, parent: Id, d: int, duration: int)
    requires Coherent(ns) && parent < |ns| && !Clamped(ns, parent, d)
    ensures var res := WithDeadlineSpec(ns, parent, d, duration);
      WellFormed(ns + TimerPair(ns, parent, d)) && SameShape(ns + TimerPair(ns, parent, d), res.0)
  {
    TimerPairAppends(ns, parent, d);
    WiredHandle(ns, parent, d);
    var ns1 := ns + TimerPair(ns, parent, d);
    var ns2 := Wired(ns, parent, d);
    var ns3 := Settle(ns2, |ns| + 1, duration);
    forall j | 0 <= j < |ns1| ensures Erase(ns3[j]) == Erase(ns1[j]) {
      assert Erase(ns3[j]) == Erase(ns2[j]);
    }
  }

  /** After propagateCancel the store is coherent and the timer node is
      unarmed, holding the reason it inherited, if any. */
  lemma WiredState(ns: seq<Node>, parent: Id, d: int)
    requires Coherent(ns) && parent < |ns|
    ensures var ns2 := Wired(ns, parent, d);
      var t := |ns| + 1;
      && Coherent(ns2) && ns2[t].Timer? && !ns2[t].armed
      && Err(ns2, t) == InheritedReason(ns, parent)
      && (InheritedReason(ns, parent).None? ==>
            ns2[|ns|] == if Watched(ns, parent) then Created(NewCancel(parent)) else NewCancel(parent))
  {
    WiredCoherent(ns, parent, d);
    WiredReason(ns, parent, d);
  }

  lemma WiredCoherent(ns: seq<Node>, parent: Id, d: int)
    requires Coherent(ns) && parent < |ns|
    ensures var ns2 := Wired(ns, parent, d);
      Coherent(ns2) && ns2[|ns| + 1].Timer? && !ns2[|ns| + 1].armed
  {
    var t := |ns| + 1;
    var ns1 := ns + TimerPair(ns, parent, d);
    TimerPairAppends(ns, parent, d);
    var ns2 := Wired(ns, parent, d);
    PropagateKeepsCoherent(ns1, parent, t);
    assert NodeCoherent(ns2, t);
    assert Linked(ns2, t);
  }

  lemma WiredReason(ns: seq<Node>, parent: Id, d: int)
    requires Coherent(ns) && parent < |ns|
    ensures var ns2 := Wired(ns, parent, d);
      && Err(ns2, |ns| + 1) == InheritedReason(ns, parent)
      && (InheritedReason(ns, parent).None? ==>
            ns2[|ns|] == if Watched(ns, parent) then Created(NewCancel(parent)) else NewCancel(parent))
  {
    var t := |ns| + 1;
    var ns1 := ns + TimerPair(ns, parent, d);
    TimerPairAppends(ns, parent, d);
    ReadsStable(ns, ns1, parent);
    PropagateChildReason(ns1, parent, t);
    assert Base(ns1, t) == |ns| && ns1[|ns|] == NewCancel(parent);
  }

  /** With a live cancel ancestor the timer node ends up at the end of its
      registry. */
  lemma WiredRegistered(ns: seq<Node>, parent: Id, d: int)
    requires Coherent(ns) && parent < |ns|
    requires ParentCancel(ns, parent).Some? && InheritedReason(ns, parent).None?
    ensures var a := ParentCancel(ns, parent).value;
      Registry(Wired(ns, parent, d)[a]) == Registry(ns[a]) + [|ns| + 1]
  {
    var t := |ns| + 1;
    var ns1 := ns + TimerPair(ns, parent, d);
    TimerPairAppends(ns, parent, d);
    var a := ParentCancel(ns, parent).value;
    assert ParentCancel(ns1, parent) == Some(a) && a < |ns|;
    assert ns1[a] == ns[a] && ns[a].err.None?;
    assert t !in Registry(ns1[a]);
    assert Wired(ns, parent, d) == Propagate(ns1, parent, t);
    PropagateUnderLive(ns1, parent, t);
  }

  /** A delay <= 0: the timer node ends canceled (with DeadlineExceeded,
      unless it inherited a reason first), unarmed and out of its ancestor's
      registry, and its cancel function does not detach. */
  lemma WithDeadlineExpired(ns: seq<Node>, parent: Id, d: int, duration: int)
    requires Coherent(ns) && parent < |ns| && !Clamped(ns, parent, d) && duration <= 0
    ensures var res := WithDeadlineSpec(ns, parent, d, duration);
      var t := |ns| + 1;
      && Coherent(res.0) && res.1 == t && res.2 == CancelFunc(t, false)
      && Err(res.0, t) == Some(if InheritedReason(ns, parent).Some? then InheritedReason(ns, parent).value else DeadlineExceeded)
      && Signal(res.0, t) == Some(Resolved)
      && !res.0[t].armed
      && (ParentCancel(ns, parent).Some? ==> t !in Registry(res.0[ParentCancel(ns, parent).value]))
  {
    var t := |ns| + 1;
    WiredHandle(ns, parent, d);
    WiredState(ns, parent, d);
    var ns2 := Wired(ns, parent, d);
    assert AncestorOf(ns2, t) == ParentCancel(ns, parent);
    assert WithDeadlineSpec(ns, parent, d, duration).0 == CancelSpec(ns2, t, true, DeadlineExceeded);
    ExpireTimer(ns2, t);
  }

  /** Canceling a timer node with DeadlineExceeded and detaching it. */
  lemma ExpireTimer(ns: seq<Node>, t: Id)
    requires Coherent(ns) && IsHandle(ns, t) && ns[t].Timer?
    ensures var ns' := CancelSpec(ns, t, true, DeadlineExceeded);
      && Coherent(ns')
      && Err(ns', t) == (if Err(ns, t).Some? then Err(ns, t) else Some(DeadlineExceeded))
      && Signal(ns', t) == Some(Resolved)
      && !ns'[t].armed
      && (AncestorOf(ns, t).Some? ==> t !in Registry(ns'[AncestorOf(ns, t).value]))
  {
    FirstReasonWins(ns, t, true, DeadlineExceeded);
    CancelEffect(ns, t, true, DeadlineExceeded);
    CancelShape(ns, t, true, DeadlineExceeded);
    CancelKeepsCoherent(ns, t, true, DeadlineExceeded);
  }

  /** A positive delay over a live parent: the timer node is live with its
      host timer armed, registered at the end of its ancestor's registry,
      its signal not yet created unless an opaque parent made
      propagateCancel ask for it, and its cancel function detaches. */
  lemma WithDeadlineArmed(ns: seq<Node>, parent: Id, d: int, duration: int)
    requires Coherent(ns) && parent < |ns| && !Clamped(ns, parent, d) && duration > 0
    requires InheritedReason(ns, parent).None?
    ensures var res := WithDeadlineSpec(ns, parent, d, duration);
      var t := |ns| + 1;
      && Coherent(res.0) && res.1 == t && res.2 == CancelFunc(t, true)
      && Err(res.0, t).None? && Signal(res.0, t) == Some(if Watched(ns, parent) then Pending else NotCreated)
      && res.0[t].armed
      && (ParentCancel(ns, parent).Some? ==>
            Registry(res.0[ParentCancel(ns, parent).value]) == Registry(ns[ParentCancel(ns, parent).value]) + [t])
  {
    var t := |ns| + 1;
    WiredHandle(ns, parent, d);
    WiredState(ns, parent, d);
    var ns2 := Wired(ns, parent, d);
    ArmKeepsCoherent(ns2, t);
    assert WithDeadlineSpec(ns, parent, d, duration).0 == ns2[t := ns2[t].(armed := true)];
    if ParentCancel(ns, parent).Some? {
      WiredRegistered(ns, parent, d);
    }
  }

  /** Arming the host timer of a live timer node keeps the store coherent
      and changes nothing else the timer node reports. */
  lemma ArmKeepsCoherent(ns2: seq<Node>, t: Id)
    requires Coherent(ns2) && IsHandle(ns2, t) && ns2[t].Timer? && Err(ns2, t).None?
    ensures var ns3 := ns2[t := ns2[t].(armed := true)];
      && Coherent(ns3) && Err(ns3, t) == Err(ns2, t) && Signal(ns3, t) == Signal(ns2, t)
  {
    var ns3 := ns2[t := ns2[t].(armed := true)];
    assert Linked(ns2, t);
    CancelerReadsBase(ns2, t);
    assert Erase(ns3[t]) == Erase(ns2[t]);
    WellFormedTransfer(ns2, ns3);
    forall j | 0 <= j < |ns3| ensures NodeCoherent(ns3, j) {
      assert NodeCoherent(ns2, j);
      if ns3[j].Timer? && ns3[j].armed && j != t {
        assert Linked(ns2, j);
      }
    }
    ReadsStable(ns2, ns3, t);
    ErrIsOwnersReason(ns2, t);
    ErrIsOwnersReason(ns3, t);
  }

  /** A positive delay under a parent whose cancel ancestor is already
      canceled: the timer node carries that reason and no host timer is
      armed. */
  lemma WithDeadlineInherits(ns: seq<Node>, parent: Id, d: int, duration: int)
    requires Coherent(ns) && parent < |ns| && !Clamped(ns, parent, d) && duration > 0
    requires InheritedReason(ns, parent).Some?
    ensures var res := WithDeadlineSpec(ns, parent, d, duration);
      var t := |ns| + 1;
      && Coherent(res.0) && res.1 == t
      && Err(res.0, t) == InheritedReason(ns, parent)
      && !res.0[t].armed
  {
    WiredHandle(ns, parent, d);
    WiredState(ns, parent, d);
  }

  /** withDeadline appends one node when it falls back to withCancel and
      two (the embedded cancel node, then the timer node) otherwise, and
      keeps every older node's construction-time fields. */
  lemma WithDeadlineExtends(ns: seq<Node>, parent: Id, d: int, duration: int)
    requires Coherent(ns) && parent < |ns|
    ensures var res := WithDeadlineSpec(ns, parent, d, duration);
      && Extends(ns, res.0)
      && |res.0| == |ns| + (if Clamped(ns, parent, d) then 1 else 2)
      && res.1 == |res.0| - 1
  {
    if !Clamped(ns, parent, d) {
      WiredHandle(ns, parent, d);
      var ns2 := Wired(ns, parent, d);
      var ns3 := Settle(ns2, |ns| + 1, duration);
      forall j | 0 <= j < |ns| ensures Erase(ns3[j]) == Erase(ns[j]) {
        assert Erase(ns3[j]) == Erase(ns2[j]);
      }
    }
  }

  /** withDeadline keeps the store coherent. */
  lemma WithDeadlineKeepsCoherent(ns: seq<Node>, parent: Id, d: int, duration: int)
    requires Coherent(ns) && parent < |ns|
    ensures Coherent(WithDeadlineSpec(ns, parent, d, duration).0)
  {
    if Clamped(ns, parent, d) {
      WithCancelKeepsCoherent(ns, parent);
    } else if duration <= 0 {
      WithDeadlineExpired(ns, parent, d, duration);
    } else if InheritedReason(ns, parent).None? {
      WithDeadlineArmed(ns, parent, d, duration);
    } else {
      WithDeadlineInherits(ns, parent, d, duration);
    }
  }

  /** withDeadline changes no older context's err(): the only reason it can
      set is the new context's own. */
  lemma WithDeadlineSparesOlder(ns: seq<Node>, parent: Id, d: int, duration: int)
    requires Coherent(ns) && parent < |ns|
    ensures var ns' := WithDeadlineSpec(ns, parent, d, duration).0;
      forall j :: 0 <= j < |ns| ==> Err(ns', j) == Err(ns, j)
  {
    if Clamped(ns, parent, d) {
      WithCancelKeepsCoherent(ns, parent);
    } else {
      forall j | 0 <= j < |ns|
        ensures Err(WithDeadlineSpec(ns, parent, d, duration).0, j) == Err(ns, j)
      {
        SettledSparesOlder(ns, parent, d, duration, j);
      }
    }
  }

  lemma SettledSparesOlder(ns: seq<Node>, parent: Id, d: int, duration: int, j: Id)
    requires Coherent(ns) && parent < |ns| && !Clamped(ns, parent, d) && j < |ns|
    ensures Err(WithDeadlineSpec(ns, parent, d, duration).0, j) == Err(ns, j)
  {
    var t := |ns| + 1;
    var ns1 := ns + TimerPair(ns, parent, d);
    TimerPairAppends(ns, parent, d);
    var ns2 := Wired(ns, parent, d);
    WiredHandle(ns, parent, d);
    WiredSparesOlder(ns, parent, d, j);
    assert Erase(ns2[t]) == Erase(ns1[t]);
    SettleSparesOlderErr(ns2, t, duration, j);
  }

  /** Settling the timer changes no err() of a context older than its
      cancel node. */
  lemma SettleSparesOlderErr(ns2: seq<Node>, t: Id, duration: int, j: Id)
    requires WellFormed(ns2) && IsHandle(ns2, t) && ns2[t].Timer? && j < Base(ns2, t) && j < |ns2|
    ensures Err(Settle(ns2, t, duration), j) == Err(ns2, j)
  {
    var ns3 := Settle(ns2, t, duration);
    ErrIsOwnersReason(ns2, j);
    ErrIsOwnersReason(ns3, j);
    ReadsStable(ns2, ns3, j);
    var o := SignalOwner(ns2, j);
    if o.Some? {
      SettleSparesOlder(ns2, t, duration, o.value);
    }
  }

  /** Wiring the timer touches no older reason either. */
  lemma WiredSparesOlder(ns: seq<Node>, parent: Id, d: int, j: Id)
    requires Coherent(ns) && parent < |ns| && j < |ns|
    ensures Err(Wired(ns, parent, d), j) == Err(ns, j)
  {
    var ns1 := ns + TimerPair(ns, parent, d);
    TimerPairAppends(ns, parent, d);
    TimerPairKeepsErr(ns, parent, d, j);
    assert Base(ns1, |ns| + 1) == |ns|;
    PropagateSparesOlderAt(ns1, parent, |ns| + 1, j);
  }

  /** Appending the timer pair leaves every older node's reason as it was. */
  lemma TimerPairKeepsErr(ns: seq<Node>, parent: Id, d: int, j: Id)
    requires Coherent(ns) && parent < |ns| && j < |ns|
    ensures WellFormed(ns + TimerPair(ns, parent, d))
    ensures Err(ns + TimerPair(ns, parent, d), j) == Err(ns, j)
  {
    var ns1 := ns + TimerPair(ns, parent, d);
    TimerPairAppends(ns, parent, d);
    assert ns1[..|ns|] == ns;
    StateStable(ns, ns1, j);
  }

  /** Settling the timer touches no reason older than its cancel node. */
  lemma SettleSparesOlder(ns2: seq<Node>, t: Id, duration: int, o: Id)
    requires WellFormed(ns2) && IsHandle(ns2, t) && ns2[t].Timer?
    requires o < Base(ns2, t) && o < |ns2| && ns2[o].Cancel?
    ensures Settle(ns2, t, duration)[o].err == ns2[o].err
  {
    assert Linked(ns2, t);
    if duration <= 0 {
      CancelShape(ns2, t, true, DeadlineExceeded);
      CancelEffect(ns2, t, true, DeadlineExceeded);
    }
  }

  // ---------------------------------------------------------------------
  // The delay: as intended and as written.

  /** withDeadline at time `now`: the delay is the time remaining. */
  ghost function WithDeadlineAt(ns: seq<Node>, parent: Id, d: int, now: int): (res: (seq<Node>, Id, CancelFunc))
    requires Coherent(ns) && parent < |ns|
    ensures WellFormed(res.0) && res.1 < |res.0|
  {
    WithDeadlineSpec(ns, parent, d, Remaining(now, d))
  }

  /** A deadline in the future over a live parent leaves the context pending
      with its timer armed, as the doc comment and the tests require. */
  lemma FutureDeadlineStaysPending(ns: seq<Node>, parent: Id, d: int, now: int)
    requires Coherent(ns) && parent < |ns| && !Clamped(ns, parent, d) && InheritedReason(ns, parent).None?
    requires now < d
    ensures var res := WithDeadlineAt(ns, parent, d, now);
      Err(res.0, res.1).None? && res.0[res.1].armed
  {
    WithDeadlineArmed(ns, parent, d, Remaining(now, d));
  }

  /** A deadline that has passed (or is now) cancels the context at once
      with DeadlineExceeded. */
  lemma PastDeadlineExpires(ns: seq<Node>, parent: Id, d: int, now: int)
    requires Coherent(ns) && parent < |ns| && !Clamped(ns, parent, d) && InheritedReason(ns, parent).None?
    requires d <= now
    ensures var res := WithDeadlineAt(ns, parent, d, now);
      Err(res.0, res.1) == Some(DeadlineExceeded) && !res.0[res.1].armed
  {
    WithDeadlineExpired(ns, parent, d, Remaining(now, d));
  }

  /** withDeadline as src/entry.ts:80 computes the delay. */
  ghost function WithDeadlineAsWritten(ns: seq<Node>, parent: Id, d: int, now: int): (res: (seq<Node>, Id, CancelFunc))
    requires Coherent(ns) && parent < |ns|
    ensures WellFormed(res.0) && res.1 < |res.0|
  {
    WithDeadlineSpec(ns, parent, d, DurationAsWritten(now, d))
  }

  /** As written, every deadline in the future is canceled at once with
      DeadlineExceeded... */
  lemma AsWrittenFutureDeadlineExpires(ns: seq<Node>, parent: Id, d: int, now: int)
    requires Coherent(ns) && parent < |ns| && !Clamped(ns, parent, d) && InheritedReason(ns, parent).None?
    requires now < d
    ensures var res := WithDeadlineAsWritten(ns, parent, d, now);
      Err(res.0, res.1) == Some(DeadlineExceeded) && !res.0[res.1].armed
  {
    WithDeadlineExpired(ns, parent, d, DurationAsWritten(now, d));
  }

  /** ...and a deadline already in the past stays pending, with its timer
      armed for `now - d` milliseconds. */
  lemma AsWrittenPastDeadlinePending(ns: seq<Node>, parent: Id, d: int, now: int)
    requires Coherent(ns) && parent < |ns| && !Clamped(ns, parent, d) && InheritedReason(ns, parent).None?
    requires d < now
    ensures var res := WithDeadlineAsWritten(ns, parent, d, now);
      Err(res.0, res.1).None? && res.0[res.1].armed
  {
    WithDeadlineArmed(ns, parent, d, DurationAsWritten(now, d));
  }

  /** withTimeout(parent, ms) at time now is withDeadline(parent, now + ms). */
  ghost function WithTimeoutAt(ns: seq<Node>, parent: Id, ms: int, now: int): (res: (seq<Node>, Id, CancelFunc))
    requires Coherent(ns) && parent < |ns|
    ensures WellFormed(res.0) && res.1 < |res.0|
  {
    WithDeadlineAt(ns, parent, now + ms, now)
  }

  /** A positive timeout over a live parent yields a pending context whose
      deadline is now + ms; a timeout <= 0 yields one already canceled. */
  lemma WithTimeoutOutcome(ns: seq<Node>, parent: Id, ms: int, now: int)
    requires Coherent(ns) && parent < |ns| && !Clamped(ns, parent, now + ms) && InheritedReason(ns, parent).None?
    ensures var res := WithTimeoutAt(ns, parent, ms, now);
      && Deadline(res.0, res.1) == Some(now + ms)
      && (ms > 0 ==> Err(res.0, res.1).None? && res.0[res.1].armed)
      && (ms <= 0 ==> Err(res.0, res.1) == Some(DeadlineExceeded))
  {
    var d := now + ms;
    assert WithTimeoutAt(ns, parent, ms, now) == WithDeadlineSpec(ns, parent, d, Remaining(now, d));
    WithDeadlineReads(ns, parent, d, Remaining(now, d));
    if ms > 0 {
      FutureDeadlineStaysPending(ns, parent, d, now);
    } else {
      PastDeadlineExpires(ns, parent, d, now);
    }
  }

  // ---------------------------------------------------------------------
  // Cancel functions and the host timer.

  /** Calling a cancel function handed out by withCancel or withDeadline:
      `c.cancel(detach, canceledError)`. */
  ghost function InvokeSpec(ns: seq<Node>, f: CancelFunc): (ns': seq<Node>)
    requires Coherent(ns) && f.target < |ns| && IsHandle(ns, f.target)
    ensures Coherent(ns')
  {
    CancelKeepsCoherent(ns, f.target, f.detach, Canceled);
    CancelSpec(ns, f.target, f.detach, Canceled)
  }

  /** After a cancel function runs, its context is canceled (with Canceled
      unless it already had a reason), its signal is resolved, every
      context registered under it is canceled too, and a detaching function
      has taken the context out of its ancestor's registry. */
  lemma InvokeCancels(ns: seq<Node>, f: CancelFunc)
    requires Coherent(ns) && f.target < |ns| && IsHandle(ns, f.target)
    ensures var ns' := InvokeSpec(ns, f);
      var c := f.target;
      && Err(ns', c) == (if Err(ns, c).Some? then Err(ns, c) else Some(Canceled))
      && Signal(ns', c) == Some(Resolved)
      && (ns[Base(ns, c)].err.None? ==>
            forall x :: x in Registry(ns[Base(ns, c)]) ==> x < |ns| && CanceledAt(ns', Base(ns, x)))
      && (f.detach && Detaches(ns, c, true) && AncestorOf(ns, c).Some? ==>
            c !in Registry(ns'[AncestorOf(ns, c).value]))
  {
    var c := f.target;
    FirstReasonWins(ns, c, f.detach, Canceled);
    CancelEffect(ns, c, f.detach, Canceled);
    CancelShape(ns, c, f.detach, Canceled);
  }

  /** A cancel function may be called any number of times: every call after
      the first leaves the store as it is. */
  lemma InvokeIdempotent(ns: seq<Node>, f: CancelFunc)
    requires Coherent(ns) && f.target < |ns| && IsHandle(ns, f.target)
    ensures var ns1 := InvokeSpec(ns, f);
      InvokeSpec(ns1, f) == ns1
  {
    CancelTwice(ns, f.target, f.detach, Canceled, Canceled);
  }

  /** The host timer's callback: `c.cancel(true, deadlineExceededError)`.
      A cleared timer never runs it. */
  ghost function FireSpec(ns: seq<Node>, t: Id): (ns': seq<Node>)
    requires Coherent(ns) && t < |ns| && ns[t].Timer? && IsHandle(ns, t)
    ensures Coherent(ns')
  {
    if ns[t].armed then
      CancelKeepsCoherent(ns, t, true, DeadlineExceeded);
      CancelSpec(ns, t, true, DeadlineExceeded)
    else ns
  }

  /** When an armed timer fires, its context is canceled with
      DeadlineExceeded, its timer is cleared and it leaves its ancestor's
      registry. */
  lemma FireExpires(ns: seq<Node>, t: Id)
    requires Coherent(ns) && t < |ns| && ns[t].Timer? && IsHandle(ns, t) && ns[t].armed
    ensures var ns' := FireSpec(ns, t);
      && Err(ns', t) == Some(DeadlineExceeded)
      && Signal(ns', t) == Some(Resolved)
      && !ns'[t].armed
      && (AncestorOf(ns, t).Some? ==> t !in Registry(ns'[AncestorOf(ns, t).value]))
  {
    assert NodeCoherent(ns, t);
    ExpireTimer(ns, t);
  }

  /** Canceling a timer context clears its timer, so it cannot fire later. */
  lemma CanceledTimerNeverFires(ns: seq<Node>, t: Id, remove: bool)
    requires Coherent(ns) && t < |ns| && ns[t].Timer? && IsHandle(ns, t)
    ensures var ns1 := CancelSpec(ns, t, remove, Canceled);
      && Coherent(ns1) && ns1[t].Timer? && IsHandle(ns1, t) && !ns1[t].armed
      && FireSpec(ns1, t) == ns1
  {
    CancelKeepsCoherent(ns, t, remove, Canceled);
    CancelEffect(ns, t, remove, Canceled);
    CancelShape(ns, t, remove, Canceled);
    var ns1 := CancelSpec(ns, t, remove, Canceled);
    assert Erase(ns1[t]) == Erase(ns[t]);
    assert Linked(ns, t);
    assert Erase(ns1[ns[t].inner]) == Erase(ns[ns[t].inner]);
  }

  // ---------------------------------------------------------------------
  // withValue.

  /** A store extended at its end keeps the answers of err() and done(). */
  lemma {:induction false} StateStable(ns: seq<Node>, ns': seq<Node>, j: Id)
    requires WellFormed(ns) && WellFormed(ns') && |ns| <= |ns'| && ns'[..|ns|] == ns && j < |ns|
    ensures Err(ns', j) == Err(ns, j) && Signal(ns', j) == Signal(ns, j)
    decreases j
  {
    assert Linked(ns, j);
    assert ns'[j] == ns'[..|ns|][j];
    match ns[j]
    case Value(p, _, _) => StateStable(ns, ns', p);
    case Opaque(p) => StateStable(ns, ns', p);
    case Timer(inner, _, _) => assert ns'[inner] == ns'[..|ns|][inner];
    case Cancel(_, _, _, _) =>
    case Empty(_) =>
  }

  /** withValue(parent, key, val): refuses a null or undefined key,
      otherwise appends a value node. */
  function WithValue(ns: seq<Node>, parent: Id, key: JsValue, val: JsValue): (r: Result<seq<Node>>)
    requires WellFormed(ns) && parent < |ns|
    ensures r.Fail? <==> IsNullish(key)
    ensures r.Fail? ==> r.error == InvalidKey
    ensures r.Ok? ==> |r.value| == |ns| + 1 && r.value[..|ns|] == ns && WellFormed(r.value)
  {
    if IsNullish(key) then Fail(InvalidKey)
    else
      var ns' := ns + [Value(parent, key, val)];
      assert ns'[..|ns|] == ns;
      assert Linked(ns', |ns|);
      AppendKeepsWellFormed(ns, ns');
      Ok(ns')
  }

  /** The new value context answers its own key with val and every other
      key as the parent does; deadline, done and err are the parent's; its
      description appends `.withValue(key, val)`; nothing else changes. */
  lemma WithValueReads(ns: seq<Node>, parent: Id, key: JsValue, val: JsValue)
    requires Coherent(ns) && parent < |ns| && !IsNullish(key)
    ensures var ns' := WithValue(ns, parent, key, val).value;
      var v := |ns|;
      && Coherent(ns')
      && Lookup(ns', v, key) == val
      && (forall k :: k != key ==> Lookup(ns', v, k) == Lookup(ns, parent, k))
      && Deadline(ns', v) == Deadline(ns, parent)
      && Signal(ns', v) == Signal(ns, parent)
      && Err(ns', v) == Err(ns, parent)
      && Describe(ns', v) == Describe(ns, parent) + ".withValue(" + Show(key) + ", " + Show(val) + ")"
  {
    var ns' := WithValue(ns, parent, key, val).value;
    assert Linked(ns', |ns|);
    AppendKeepsCoherent(ns, ns');
    ReadsStable(ns, ns', parent);
    StateStable(ns, ns', parent);
  }

  /** The description of a timer context uses `.WithDeadline(` with a
      capital W: withTimeout(background(), ms) describes itself as
      `context.background.WithDeadline(...)`, not with the lower-case
      prefix the test suite looks for. */
  lemma TimerDescriptionCasing(ns: seq<Node>, ms: int, now: int)
    requires Coherent(ns) && |ns| > 0 && ns[0] == Empty("background")
    ensures var res := WithTimeoutAt(ns, 0, ms, now);
      && "context.background.WithDeadline(" <= Describe(res.0, res.1)
      && !("context.background.withDeadline(" <= Describe(res.0, res.1))
  {
    assert Deadline(ns, 0).None? && Describe(ns, 0) == "context.background";
    WithDeadlineReads(ns, 0, now + ms, Remaining(now, now + ms));
    var res := WithTimeoutAt(ns, 0, ms, now);
    CapitalPrefix(Describe(res.0, res.1), ShowTime(now + ms));
  }

  lemma CapitalPrefix(s: string, tail: string)
    requires s == "context.background" + ".WithDeadline(" + tail + ")"
    ensures "context.background.WithDeadline(" <= s
    ensures !("context.background.withDeadline(" <= s)
  {
    var p := "context.background.WithDeadline(";
    assert s == p + (tail + ")");
    assert s[19] == 'W';
  }
}
