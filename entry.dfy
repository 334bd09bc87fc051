/**
 * The library as a program runs it: one mutable tree of context objects
 * (src/entry.ts, src/core.ts and the classes under src/contexts), with
 * every operation written the way the source performs it, step by step,
 * and proved equal to the specification functions of the other modules.
 * Two steps run the corrected code rather than the code as written (the
 * two rows of the README's Findings table): GetParentCancelContext returns
 * a timer's embedded cancel node instead of the undefined field read at
 * src/core.ts:40, and WithDeadline arms its timer for `d - now`
 * (Constructors.Remaining) instead of the `now - d` of src/entry.ts:80.
 */
module Entry {
  import opened Types
  import opened Contexts
  import opened Ancestry
  import opened Cancellation
  import opened Propagation
  import opened Constructors
  import opened Stability
  import opened Registration

  /** Every context object the program has created, by id. */
  class Tree {
    var nodes: seq<Node>

    /** The invariants every public operation keeps: the store is
        coherent, every live canceler is registered exactly with its cancel
        ancestor, and ids 0 and 1 are the two module-level roots. */
    ghost predicate Valid()
      reads this
    {
      && Coherent(nodes)
      && Registered(nodes)
      && |nodes| >= 2
      && nodes[0] == Empty("background")
      && nodes[1] == Empty("TODO")
    }

    /** Loading the module creates backgroundCtx and todoCtx. */
    constructor ()
      ensures Valid()
      ensures nodes == [Empty("background"), Empty("TODO")]
    {
      nodes := [Empty("background"), Empty("TODO")];
    }

    /** background(): the root that is never canceled, has no values and no
        deadline. */
    function Background(): (c: Id)
      reads this
      requires Valid()
      ensures c < |nodes|
      ensures Describe(nodes, c) == "context.background"
      ensures Deadline(nodes, c).None? && Signal(nodes, c).None? && Err(nodes, c).None?
      ensures forall k :: Lookup(nodes, c, k) == Undefined
    {
      0
    }

    /** TODO(): the other root, alike in every read but its name. */
    function Todo(): (c: Id)
      reads this
      requires Valid()
      ensures c < |nodes|
      ensures Describe(nodes, c) == "context.TODO"
      ensures Deadline(nodes, c).None? && Signal(nodes, c).None? && Err(nodes, c).None?
      ensures forall k :: Lookup(nodes, c, k) == Undefined
    {
      1
    }

    /** done() on context j: a cancel node creates its pending signal on
        first use; a timer asks its embedded node; value and opaque nodes
        ask their parent; a root has none. */
    method Done(j: Id) returns (s: Option<DoneState>)
      requires WellFormed(nodes) && j < |nodes|
      modifies this
      ensures nodes == CreateSignal(old(nodes), j)
      ensures s == Signal(nodes, j)
      ensures s.None? <==> SignalOwner(old(nodes), j).None?
      ensures old(Valid()) ==> Valid() && Later(old(nodes), nodes)
      decreases j
    {
      assert Linked(nodes, j);
      if Valid() {
        CreateSignalLater(nodes, j);
        CreateSignalKeepsCoherent(nodes, j);
        CreateSignalKeepsRegistered(nodes, j);
        RootsStable(nodes, CreateSignal(nodes, j));
      }
      match nodes[j]
      case Empty(_) =>
        s := None;
      case Value(p, _, _) =>
        s := Done(p);
        assert Erase(nodes[j]) == Erase(old(nodes)[j]);
      case Opaque(p) =>
        s := Done(p);
        assert Erase(nodes[j]) == Erase(old(nodes)[j]);
      case Cancel(_, _, done, _) =>
        if done == NotCreated {
          nodes := nodes[j := nodes[j].(done := Pending)];
        }
        s := Some(nodes[j].done);
      case Timer(inner, _, _) =>
        s := Done(inner);
        assert Erase(nodes[j]) == Erase(old(nodes)[j]);
    }

    /** getParentCancelContext: walk up through value nodes until a cancel
        or timer node answers, or the walk ends at any other kind. */
    method GetParentCancelContext(parent: Id) returns (a: Option<Id>)
      requires WellFormed(nodes) && parent < |nodes|
      ensures a == ParentCancel(nodes, parent)
    {
      var p: Id := parent;
      while true
        invariant p < |nodes| && ParentCancel(nodes, p) == ParentCancel(nodes, parent)
        decreases p
      {
        assert Linked(nodes, p);
        if nodes[p].Cancel? {
          return Some(p);
        }
        if nodes[p].Timer? {
          return Some(nodes[p].inner);
        }
        if nodes[p].Value? {
          p := nodes[p].parent;
        } else {
          return None;
        }
      }
    }

    /** removeChild(parent, child). */
    method RemoveChild(parent: Id, child: Id)
      requires WellFormed(nodes) && parent < |nodes|
      modifies this
      ensures nodes == Detach(old(nodes), parent, child)
    {
      var a := GetParentCancelContext(parent);
      if a.None? {
        return;
      }
      var x := a.value;
      if nodes[x].children.Some? {
        nodes := nodes[x := nodes[x].(children := Some(Without(nodes[x].children.value, child)))];
      }
    }

    /**
     * CancelContext.cancel and TimerContext.cancel. Without a reason the
     * call throws before changing anything. A cancel node that already has
     * a reason returns at once; otherwise it records the reason, resolves
     * its signal, cancels each registered child (without detaching), drops
     * its registry and, if asked, leaves its ancestor's registry. A timer
     * node is handed to CancelTimer.
     */
    method CancelNode(c: Id, remove: bool, err: Option<Reason>) returns (o: Outcome)
      requires WellFormed(nodes) && IsCanceler(nodes, c)
      modifies this
      ensures err.None? ==> o == Raised(InternalError) && nodes == old(nodes)
      ensures err.Some? ==> o == Pass && nodes == CancelSpec(old(nodes), c, remove, err.value)
      decreases |nodes| - Base(nodes, c), if nodes[c].Timer? then 2 else 0
    {
      assert Linked(nodes, c);
      if nodes[c].Timer? {
        o := CancelTimer(c, remove, err);
        return;
      }
      if err.None? {
        return Raised(InternalError);
      }
      if nodes[c].err.Some? {
        assert Sweep(nodes, c, err.value) == nodes;
        return Pass;
      }
      ghost var ns0 := nodes;
      nodes := nodes[c := nodes[c].(err := err, done := Resolved)];
      EditKeepsShape(ns0, c, nodes[c]);
      var r := err.value;
      if nodes[c].children.Some? {
        // for (const child of this._children) child.cancel(false, err)
        ghost var marked := nodes;
        ghost var cs := Registry(nodes[c]);
        assert Linked(nodes, c);
        var k := 0;
        while k < |nodes[c].children.value|
          invariant 0 <= k <= |cs|
          invariant WellFormed(nodes) && SameShape(marked, nodes) && Shrinks(marked, nodes)
          invariant nodes[c] == marked[c]
          invariant forall i :: k <= i < |cs| ==> Registrable(nodes, c, cs[i])
          invariant FanOut(nodes, cs[k..], c, r) == FanOut(marked, cs, c, r)
          decreases |cs| - k
        {
          ghost var prev := nodes;
          var child := nodes[c].children.value[k];
          assert child == cs[k] && Registrable(nodes, c, child);
          var res := CancelNode(child, false, err);
          SweepEffect(prev, child, r);
          ShapeTrans(marked, prev, nodes);
          RegistrableStable(prev, nodes, c, cs[k + 1..]);
          forall i | k + 1 <= i < |cs| ensures Registrable(nodes, c, cs[i]) {
            assert cs[i] == cs[k + 1..][i - k - 1];
          }
          assert cs[k..][0] == cs[k] && cs[k..][1..] == cs[k + 1..];
          k := k + 1;
        }
        assert cs[k..] == [];
        nodes := nodes[c := nodes[c].(children := None)];
      } else {
        assert FanOut(nodes, [], c, r) == nodes;
      }
      assert nodes == Sweep(ns0, c, err.value);
      if remove {
        RemoveChild(nodes[c].parent, c);
      }
      return Pass;
    }

    /** The timer node's cancel(removeFromParent, err): cancel the inner
        cancel node without detaching it, detach the timer node itself when
        asked, and disarm its timer. */
    method CancelTimer(c: Id, remove: bool, err: Option<Reason>) returns (o: Outcome)
      requires WellFormed(nodes) && IsCanceler(nodes, c) && nodes[c].Timer?
      modifies this
      ensures err.None? ==> o == Raised(InternalError) && nodes == old(nodes)
      ensures err.Some? ==> o == Pass && nodes == CancelSpec(old(nodes), c, remove, err.value)
      decreases |nodes| - Base(nodes, c), 1
    {
      assert Linked(nodes, c);
      ghost var ns0 := nodes;
      var inner := nodes[c].inner;
      o := CancelNode(inner, false, err);
      if o.Raised? {
        return;
      }
      assert nodes == Sweep(ns0, inner, err.value);
      assert Linked(ns0, inner);
      assert Erase(nodes[inner]) == Erase(ns0[inner]);
      if remove {
        RemoveChild(nodes[inner].parent, c);
      }
      if nodes[c].armed {
        nodes := nodes[c := nodes[c].(armed := false)];
      } else {
        assert nodes[c := nodes[c].(armed := false)] == nodes;
      }
      TimerCancelOrder(ns0, c, remove, err.value);
      return Pass;
    }

    /** propagateCancel(parent, child): create the parent's signal; under a
        root do nothing; under a cancel ancestor that already has a reason,
        cancel the child with it; under a live one, add the child to its
        registry; with no cancel ancestor, ask the child for its signal. */
    method PropagateCancel(parent: Id, child: Id)
      requires WellFormed(nodes) && Attachable(nodes, parent, child)
      modifies this
      ensures nodes == Propagate(old(nodes), parent, child)
    {
      ghost var ns := nodes;
      var parentDone := Done(parent);
      if parentDone.None? {
        return;  // the parent is never canceled
      }
      ParentCancelStable(ns, nodes, parent);
      assert Erase(nodes[child]) == Erase(ns[child]);
      assert child + 1 < |ns| ==> Erase(nodes[child + 1]) == Erase(ns[child + 1]);
      var p := GetParentCancelContext(parent);
      if p.Some? {
        var a := p.value;
        if nodes[a].err.Some? {
          var res := CancelNode(child, false, nodes[a].err);
        } else {
          if nodes[a].children.None? {
            nodes := nodes[a := nodes[a].(children := Some([]))];
          }
          nodes := nodes[a := nodes[a].(children := Some(AddOnce(nodes[a].children.value, child)))];
        }
      } else {
        // Promise.race([parentDone.then(...), child.done()]): only the
        // synchronous call to child.done() is modelled
        var childDone := Done(child);
      }
    }

    /** withCancel(parent): a new cancel node attached under parent, and a
        cancel function that detaches it. */
    method WithCancel(parent: Id) returns (ctx: Id, cancel: CancelFunc)
      requires Valid() && parent < |nodes|
      modifies this
      ensures Valid() && Later(old(nodes), nodes)
      ensures nodes == WithCancelSpec(old(nodes), parent)
      ensures ctx == |old(nodes)| && cancel == CancelFunc(ctx, true) && Issued(nodes, cancel)
    {
      WithCancelLater(nodes, parent);
      ghost var ns := nodes;
      WithCancelAllocates(ns, parent);
      WithCancelKeepsCoherent(ns, parent);
      WithCancelKeepsRegistered(ns, parent);
      WithCancelIssues(ns, parent);
      ctx := |nodes|;
      nodes := nodes + [NewCancel(parent)];
      PropagateCancel(parent, ctx);
      cancel := CancelFunc(ctx, true);
      RootsStable(ns, nodes);
    }

    /** withValue(parent, key, val). */
    method WithValue(parent: Id, key: JsValue, val: JsValue) returns (r: Result<Id>)
      requires Valid() && parent < |nodes|
      modifies this
      ensures Valid() && Later(old(nodes), nodes)
      ensures r.Fail? <==> IsNullish(key)
      ensures r.Fail? ==> r.error == InvalidKey && nodes == old(nodes)
      ensures r.Ok? ==> r.value == |old(nodes)| && nodes == Constructors.WithValue(old(nodes), parent, key, val).value
    {
      if !IsNullish(key) {
        WithValueLater(nodes, parent, key, val);
      }
      if IsNullish(key) {
        return Fail(InvalidKey);
      }
      ghost var ns := nodes;
      WithValueReads(ns, parent, key, val);
      r := Ok(|nodes|);
      nodes := nodes + [Value(parent, key, val)];
      AppendLeafKeepsRegistered(ns, Value(parent, key, val));
    }

    /** `new TimerContext(getCancelContext(parent), d)` followed by
        `propagateCancel(parent, c)`: the embedded cancel node and the timer
        node are appended, and the timer node is attached under parent. */
    method AttachTimer(parent: Id, d: int) returns (t: Id)
      requires Coherent(nodes) && parent < |nodes|
      modifies this
      ensures t == |old(nodes)| + 1 && nodes == Wired(old(nodes), parent, d)
    {
      ghost var ns := nodes;
      var inner := |nodes|;
      nodes := nodes + [NewCancel(parent)];
      t := inner + 1;
      nodes := nodes + [Timer(inner, d, false)];
      assert nodes == ns + TimerPair(ns, parent, d);
      TimerPairAppends(ns, parent, d);
      PropagateCancel(parent, t);
      assert nodes == Propagate(ns + TimerPair(ns, parent, d), parent, t);
    }

    /** The rest of withDeadline once timer node t is wired: a delay <= 0
        cancels it with DeadlineExceeded and detaches it, and its cancel
        function does not detach again; otherwise the host timer is armed
        unless t is already canceled. */
    method StartTimer(t: Id, duration: int) returns (cancel: CancelFunc)
      requires WellFormed(nodes) && IsHandle(nodes, t) && nodes[t].Timer?
      modifies this
      ensures nodes == Settle(old(nodes), t, duration)
      ensures cancel == CancelFunc(t, duration > 0)
    {
      if duration <= 0 {
        var res := CancelNode(t, true, Some(DeadlineExceeded));
        cancel := CancelFunc(t, false);  // the deadline has already passed
      } else {
        if Err(nodes, t).None? {
          nodes := nodes[t := nodes[t].(armed := true)];
        }
        cancel := CancelFunc(t, true);
      }
    }

    /** withDeadline(parent, d) at time `now`. */
    method WithDeadline(parent: Id, d: int, now: int) returns (ctx: Id, cancel: CancelFunc)
      requires Valid() && parent < |nodes|
      modifies this
      ensures Valid() && Later(old(nodes), nodes)
      ensures (nodes, ctx, cancel) == WithDeadlineAt(old(nodes), parent, d, now)
      ensures Issued(nodes, cancel)
    {
      ghost var ns := nodes;
      var parentDeadline := Deadline(nodes, parent);
      if parentDeadline.Some? && parentDeadline.value < d {
        // the parent's deadline is already sooner
        ctx, cancel := WithCancel(parent);
        return;
      }
      ctx := AttachTimer(parent, d);
      WiredHandle(ns, parent, d);
      var duration := Remaining(now, d);
      cancel := StartTimer(ctx, duration);
      assert (nodes, ctx, cancel) == WithDeadlineSpec(ns, parent, d, duration);
      WithDeadlineKeepsCoherent(ns, parent, d, duration);
      WithDeadlineKeepsRegistered(ns, parent, d, duration);
      WithDeadlineIssues(ns, parent, d, duration);
      WithDeadlineExtends(ns, parent, d, duration);
      WithDeadlineLater(ns, parent, d, duration);
      RootsStable(ns, nodes);
    }

    /** withTimeout(parent, ms) at time `now`. */
    method WithTimeout(parent: Id, ms: int, now: int) returns (ctx: Id, cancel: CancelFunc)
      requires Valid() && parent < |nodes|
      modifies this
      ensures Valid() && Later(old(nodes), nodes)
      ensures (nodes, ctx, cancel) == WithTimeoutAt(old(nodes), parent, ms, now)
      ensures Issued(nodes, cancel)
    {
      ctx, cancel := WithDeadline(parent, now + ms, now);
    }

    /** Calling a cancel function returned by withCancel, withDeadline or
        withTimeout. */
    method Invoke(f: CancelFunc)
      requires Valid() && Issued(nodes, f)
      modifies this
      ensures Valid() && Later(old(nodes), nodes)
      ensures nodes == InvokeSpec(old(nodes), f)
    {
      InvokeLater(nodes, f);
      ghost var ns := nodes;
      CancelKeepsCoherent(ns, f.target, f.detach, Canceled);
      InvokeKeepsRegistered(ns, f);
      var res := CancelNode(f.target, f.detach, Some(Canceled));
      RootsStable(ns, nodes);
    }

    /** The host timer of timer node t goes off. */
    method FireTimer(t: Id)
      requires Valid() && t < |nodes| && nodes[t].Timer? && IsHandle(nodes, t)
      modifies this
      ensures Valid() && Later(old(nodes), nodes)
      ensures nodes == FireSpec(old(nodes), t)
    {
      FireLater(nodes, t);
      FireKeepsRegistered(nodes, t);
      ghost var ns := nodes;
      if nodes[t].armed {
        CancelKeepsCoherent(ns, t, true, DeadlineExceeded);
        var res := CancelNode(t, true, Some(DeadlineExceeded));
      }
      RootsStable(ns, nodes);
    }

    /** A context of a kind the library does not know, wrapping parent (the
        OtherContext of the test helpers). */
    method Wrap(parent: Id) returns (w: Id)
      requires Valid() && parent < |nodes|
      modifies this
      ensures Valid() && Later(old(nodes), nodes)
      ensures w == |old(nodes)| && nodes == old(nodes) + [Opaque(parent)]
      ensures Describe(nodes, w) == Describe(old(nodes), parent)
      ensures Deadline(nodes, w) == Deadline(old(nodes), parent)
      ensures Err(nodes, w) == Err(old(nodes), parent) && Signal(nodes, w) == Signal(old(nodes), parent)
      ensures forall k :: Lookup(nodes, w, k) == Lookup(old(nodes), parent, k)
    {
      AppendLater(nodes, nodes + [Opaque(parent)]);
      assert (nodes + [Opaque(parent)])[..|nodes|] == nodes;
      ghost var ns := nodes;
      w := |nodes|;
      nodes := nodes + [Opaque(parent)];
      assert Linked(nodes, w);
      assert nodes[..|ns|] == ns;
      AppendKeepsCoherent(ns, nodes);
      AppendLeafKeepsRegistered(ns, Opaque(parent));
      ReadsStable(ns, nodes, parent);
      StateStable(ns, nodes, parent);
    }
  }

  /** No operation replaces the two roots. */
  lemma RootsStable(ns: seq<Node>, ns': seq<Node>)
    requires Extends(ns, ns') && |ns| >= 2
    requires ns[0] == Empty("background") && ns[1] == Empty("TODO")
    ensures ns'[0] == ns[0] && ns'[1] == ns[1]
  {
    assert Erase(ns'[0]) == Erase(ns[0]);
    assert Erase(ns'[1]) == Erase(ns[1]);
  }
}
