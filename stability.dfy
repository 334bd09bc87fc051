/**
 * What the Context interface promises across time: a context's deadline
 * never changes, and once err() is non-null it keeps returning the same
 * reason and done() stays resolved, whatever the program does next.
 */
module Stability {
  import opened Types
  import opened Contexts
  import opened Ancestry
  import opened Cancellation
  import opened Propagation
  import opened Constructors

  /** ns' is a later state of ns: nodes were only appended (a new timer node
      embeds a new cancel node), every node kept its construction-time
      fields, and no canceled node changed at all. */
  ghost predicate Later(ns: seq<Node>, ns': seq<Node>) {
    && Extends(ns, ns')
    && (forall j :: |ns| <= j < |ns'| && ns'[j].Timer? ==> ns'[j].inner >= |ns|)
    && forall j :: CanceledAt(ns, j) ==> ns'[j] == ns[j]
  }

  lemma LaterTrans(ns0: seq<Node>, ns1: seq<Node>, ns2: seq<Node>)
    requires Later(ns0, ns1) && Later(ns1, ns2)
    ensures Later(ns0, ns2)
  {
    forall j | 0 <= j < |ns0| ensures Erase(ns2[j]) == Erase(ns0[j]) {
      assert Erase(ns2[j]) == Erase(ns1[j]);
    }
    forall j | CanceledAt(ns0, j) ensures ns2[j] == ns0[j] {
      assert CanceledAt(ns1, j);
    }
  }

  /** types.ts: deadline() answers the same on every call, and once err()
      is non-null it keeps its value and done() stays resolved. */
  lemma ReadsAreFinal(ns: seq<Node>, ns': seq<Node>, j: Id)
    requires WellFormed(ns) && WellFormed(ns') && Later(ns, ns') && j < |ns|
    ensures Deadline(ns', j) == Deadline(ns, j)
    ensures Err(ns, j).Some? ==> Err(ns', j) == Err(ns, j) && Signal(ns', j) == Signal(ns, j)
  {
    ReadsStable(ns, ns', j);
    ErrIsOwnersReason(ns, j);
    ErrIsOwnersReason(ns', j);
    if Err(ns, j).Some? {
      assert CanceledAt(ns, SignalOwner(ns, j).value);
    }
  }

  lemma AppendLater(ns: seq<Node>, ns': seq<Node>)
    requires |ns| <= |ns'| && ns'[..|ns|] == ns
    requires forall j :: |ns| <= j < |ns'| && ns'[j].Timer? ==> ns'[j].inner >= |ns|
    ensures Later(ns, ns')
  {
    forall j | 0 <= j < |ns| ensures ns'[j] == ns[j] {
      assert ns'[j] == ns'[..|ns|][j];
    }
  }

  lemma CreateSignalLater(ns: seq<Node>, j: Id)
    requires Coherent(ns) && j < |ns|
    ensures Later(ns, CreateSignal(ns, j))
  {
    CreateSignalEffect(ns, j);
    var o := SignalOwner(ns, j);
    if o.Some? {
      assert NodeCoherent(ns, o.value);
    }
  }

  lemma CancelLater(ns: seq<Node>, c: Id, remove: bool, r: Reason)
    requires Coherent(ns) && IsCanceler(ns, c)
    ensures Later(ns, CancelSpec(ns, c, remove, r))
  {
    CancelProgress(ns, c, remove, r);
  }

  lemma PropagateLater(ns: seq<Node>, parent: Id, child: Id)
    requires Coherent(ns) && Attachable(ns, parent, child)
    ensures Later(ns, Propagate(ns, parent, child))
  {
    var ns' := Propagate(ns, parent, child);
    if SignalOwner(ns, parent).Some? {
      var ns1 := CreateSignal(ns, parent);
      CreateSignalLater(ns, parent);
      CreateSignalKeepsCoherent(ns, parent);
      ParentCancelStable(ns, ns1, parent);
      match ParentCancel(ns1, parent)
      case None =>
        CreateSignalLater(ns1, child);
        LaterTrans(ns, ns1, ns');
      case Some(a) =>
        assert Erase(ns1[child]) == Erase(ns[child]);
        if ns1[a].err.Some? {
          CancelLater(ns1, child, false, ns1[a].err.value);
        } else {
          assert Erase(ns'[a]) == Erase(ns1[a]);
        }
        LaterTrans(ns, ns1, ns');
    }
  }

  /** Every constructor leaves earlier contexts in a later state. */
  lemma WithCancelLater(ns: seq<Node>, parent: Id)
    requires Coherent(ns) && parent < |ns|
    ensures Later(ns, WithCancelSpec(ns, parent))
  {
    var ns1 := ns + [NewCancel(parent)];
    assert ns1[..|ns|] == ns;
    AppendLater(ns, ns1);
    WithCancelAllocates(ns, parent);
    PropagateLater(ns1, parent, |ns|);
    LaterTrans(ns, ns1, WithCancelSpec(ns, parent));
  }

  lemma WithDeadlineLater(ns: seq<Node>, parent: Id, d: int, duration: int)
    requires Coherent(ns) && parent < |ns|
    ensures Later(ns, WithDeadlineSpec(ns, parent, d, duration).0)
  {
    if Clamped(ns, parent, d) {
      WithCancelLater(ns, parent);
    } else {
      var t := |ns| + 1;
      var ns1 := ns + TimerPair(ns, parent, d);
      assert ns1[..|ns|] == ns;
      AppendLater(ns, ns1);
      TimerPairAppends(ns, parent, d);
      PropagateLater(ns1, parent, t);
      var ns2 := Wired(ns, parent, d);
      LaterTrans(ns, ns1, ns2);
      WiredHandle(ns, parent, d);
      WiredState(ns, parent, d);
      var ns3 := Settle(ns2, t, duration);
      if duration <= 0 {
        CancelLater(ns2, t, true, DeadlineExceeded);
      } else {
        assert Erase(ns3[t]) == Erase(ns2[t]);
      }
      LaterTrans(ns, ns2, ns3);
    }
  }

  lemma WithValueLater(ns: seq<Node>, parent: Id, key: JsValue, val: JsValue)
    requires WellFormed(ns) && parent < |ns| && !IsNullish(key)
    ensures Later(ns, WithValue(ns, parent, key, val).value)
  {
    AppendLater(ns, WithValue(ns, parent, key, val).value);
  }

  lemma InvokeLater(ns: seq<Node>, f: CancelFunc)
    requires Coherent(ns) && f.target < |ns| && IsHandle(ns, f.target)
    ensures Later(ns, InvokeSpec(ns, f))
  {
    CancelLater(ns, f.target, f.detach, Canceled);
  }

  lemma FireLater(ns: seq<Node>, t: Id)
    requires Coherent(ns) && t < |ns| && ns[t].Timer? && IsHandle(ns, t)
    ensures Later(ns, FireSpec(ns, t))
  {
    if ns[t].armed {
      CancelLater(ns, t, true, DeadlineExceeded);
    }
  }
}
