/**
 * A scenario from the test suite replayed on Entry.Tree: the operations run
 * in the test's order, and what the test expects of each context is stated
 * and proved from the contracts of the operations.
 */
module Scenarios {
  import opened Types
  import opened Contexts
  import opened Ancestry
  import opened Cancellation
  import opened Propagation
  import opened Constructors
  import opened Stability
  import opened Registration
  import opened Entry

  /** Context j has been canceled with Canceled and its done() is resolved. */
  ghost predicate FinishedByCancel(ns: seq<Node>, j: Id)
    requires WellFormed(ns)
  {
    j < |ns| && Err(ns, j) == Some(Canceled) && Signal(ns, j) == Some(Resolved)
  }

  /** The key and value the test binds. */
  const Key: JsValue := Str("key")
  const Val: JsValue := Str("value")

  /** Ten hours, the test's timeout in milliseconds. */
  const TenHours := 10 * 60 * 60 * 1000

  /** withCancel(background()) appends a bare cancel node: background()
      has no done(), so propagateCancel does nothing. */
  lemma ParentUnderBackground(ns0: seq<Node>, ns1: seq<Node>)
    requires Coherent(ns0) && |ns0| >= 1 && ns0[0] == Empty("background")
    requires ns1 == WithCancelSpec(ns0, 0)
    ensures ns1 == ns0 + [NewCancel(0)] && Deadline(ns1, |ns0|).None?
  {
    WithCancelAllocates(ns0, 0);
    PropagateUnderRoot(ns0 + [NewCancel(0)], 0, |ns0|);
    WithCancelReads(ns0, 0);
  }

  /** withCancel(parent) under the live parent registers the child. */
  lemma CancelChildRegistered(ns1: seq<Node>, ns2: seq<Node>, p: Id)
    requires Coherent(ns1) && p + 1 == |ns1| && ns1[p] == NewCancel(0) && Deadline(ns1, p).None?
    requires ns2 == WithCancelSpec(ns1, p)
    ensures |ns2| == p + 2 && ns2[p].Cancel? && ns2[p].err.None? && Registry(ns2[p]) == [p + 1]
    ensures ns2[p + 1].Cancel? && ns2[p + 1].parent == p && ns2[p + 1].err.None?
    ensures Deadline(ns2, p).None?
  {
    WithCancelState(ns1, p);
    WithCancelKeepsCoherent(ns1, p);
    WithCancelReads(ns1, p);
    ReadsStable(ns1, ns2, p);
    assert Erase(ns2[p]) == Erase(ns1[p]);
    assert Err(ns2, p) == ns2[p].err;
  }

  /** withValue(parent, ...) under the live parent: a context that reads
      the parent's reason and deadline, and whose ancestor walk finds the
      parent. */
  lemma ValueChildUnderParent(ns2: seq<Node>, ns3: seq<Node>, p: Id)
    requires Coherent(ns2) && p + 2 == |ns2| && ns2[p].Cancel? && ns2[p].err.None? && Deadline(ns2, p).None?
    requires ns3 == ns2 + [Value(p, Key, Val)]
    ensures Coherent(ns3) && ns3[p] == ns2[p]
    ensures ParentCancel(ns3, p + 2) == Some(p) && InheritedReason(ns3, p + 2).None?
    ensures Deadline(ns3, p + 2).None? && Err(ns3, p + 2).None?
  {
    assert ns3[..|ns2|] == ns2;
    assert ns3 == WithValue(ns2, p, Key, Val).value;
    WithValueReads(ns2, p, Key, Val);
    assert Err(ns2, p) == ns2[p].err;
  }

  /** withDeadline without clamping appends the cancel node over the
      parent and the timer node embedding it. */
  lemma TimerShape(ns3: seq<Node>, q: Id, d: int, duration: int)
    requires Coherent(ns3) && q < |ns3| && !Clamped(ns3, q, d)
    ensures var ns4 := WithDeadlineSpec(ns3, q, d, duration).0;
      var t := |ns3| + 1;
      && |ns4| == t + 1 && Extends(ns3, ns4)
      && Erase(ns4[t]) == Timer(t - 1, d, false) && Erase(ns4[t - 1]) == NewCancel(q)
  {
    var t := |ns3| + 1;
    var ns1 := ns3 + TimerPair(ns3, q, d);
    TimerPairAppends(ns3, q, d);
    WiredHandle(ns3, q, d);
    var wired := Wired(ns3, q, d);
    var ns4 := Settle(wired, t, duration);
    assert Erase(wired[t - 1]) == Erase(ns1[t - 1]);
    assert Erase(wired[t]) == Erase(ns1[t]);
    assert Erase(ns4[t - 1]) == Erase(wired[t - 1]);
    assert Erase(ns4[t]) == Erase(wired[t]);
    forall j | 0 <= j < |ns3| ensures Erase(ns4[j]) == Erase(ns3[j]) {
      assert Erase(ns4[j]) == Erase(wired[j]);
    }
  }

  /** withTimeout(valueChild, ten hours) under the live parent: a timer node
      over a fresh cancel node, registered with the parent. */
  lemma TimerChildRegistered(ns2: seq<Node>, ns3: seq<Node>, ns4: seq<Node>, p: Id, now: int)
    requires Coherent(ns2) && p + 2 == |ns2| && ns2[p].Cancel? && ns2[p].err.None? && Deadline(ns2, p).None?
    requires ns3 == ns2 + [Value(p, Key, Val)] && Coherent(ns3)
    requires ns4 == WithTimeoutAt(ns3, p + 2, TenHours, now).0
    ensures WithTimeoutAt(ns3, p + 2, TenHours, now).1 == p + 4 && |ns4| == p + 5
    ensures Registry(ns4[p]) == Registry(ns2[p]) + [p + 4]
    ensures Err(ns4, p + 4).None?
    ensures forall j :: 0 <= j < |ns3| ==> Err(ns4, j) == Err(ns3, j)
    ensures Extends(ns3, ns4) && ns4[p + 4].Timer? && ns4[p + 4].inner == p + 3
    ensures ns4[p + 3].Cancel? && ns4[p + 3].parent == p + 2
  {
    var d := now + TenHours;
    var duration := Remaining(now, d);
    ValueChildUnderParent(ns2, ns3, p);
    assert !Clamped(ns3, p + 2, d);
    assert WithTimeoutAt(ns3, p + 2, TenHours, now) == WithDeadlineSpec(ns3, p + 2, d, duration);
    TimerShape(ns3, p + 2, d, duration);
    WithDeadlineArmed(ns3, p + 2, d, duration);
    WithDeadlineSparesOlder(ns3, p + 2, d, duration);
  }

  /** Context j has no reason yet, and its signal lives in a cancel node
      below cancel node p. */
  ghost predicate PendingBelow(ns: seq<Node>, p: Id, j: Id)
    requires WellFormed(ns)
  {
    && j < |ns| && Err(ns, j).None? && SignalOwner(ns, j).Some?
    && Descends(ns, SignalOwner(ns, j).value, p)
  }

  /** The tree the test builds, with the parent at p, its cancel child at
      p + 1, its value child at p + 2 and the timer grandchild at p + 4 (over
      its cancel node at p + 3), before anything is canceled: the parent's
      registry holds exactly the two cancelable descendants, the ancestor
      walk from either one's parent finds the parent, and every context is
      pending below the parent. */
  ghost predicate PendingTestTree(ns: seq<Node>, p: Id)
    requires WellFormed(ns)
  {
    && |ns| == p + 5 && IsHandle(ns, p) && ns[p].Cancel?
    && Registry(ns[p]) == [p + 1, p + 4]
    && ParentCancel(ns, p) == Some(p) && ParentCancel(ns, p + 2) == Some(p)
    && PendingBelow(ns, p, p) && PendingBelow(ns, p, p + 1)
    && PendingBelow(ns, p, p + 2) && PendingBelow(ns, p, p + 4)
  }

  /** The parent at p with its cancel child at p + 1 as the last node:
      both live, the child alone in the parent's registry. */
  ghost predicate ParentWithChild(ns: seq<Node>, p: Id)
    requires WellFormed(ns)
  {
    && p + 2 == |ns| && ns[p].Cancel? && ns[p].err.None? && Deadline(ns, p).None?
    && Registry(ns[p]) == [p + 1]
    && ns[p + 1].Cancel? && ns[p + 1].parent == p && ns[p + 1].err.None?
  }

  /** withTimeout(valueChild, ten hours) after withValue: the tree of the
      test before the cancel. */
  lemma PendingAfterTimer(ns2: seq<Node>, ns3: seq<Node>, ns4: seq<Node>, p: Id, now: int)
    requires Coherent(ns2) && ParentWithChild(ns2, p)
    requires ns3 == ns2 + [Value(p, Key, Val)] && Coherent(ns3)
    requires ns4 == WithTimeoutAt(ns3, p + 2, TenHours, now).0 && Coherent(ns4)
    ensures WithTimeoutAt(ns3, p + 2, TenHours, now).1 == p + 4 && PendingTestTree(ns4, p)
  {
    TimerChildRegistered(ns2, ns3, ns4, p, now);
    BeforeTimer(ns2, ns3, p);
    assert Erase(ns4[p]) == Erase(ns3[p]);
    assert Erase(ns4[p + 1]) == Erase(ns3[p + 1]);
    assert Erase(ns4[p + 2]) == Erase(ns3[p + 2]);
    PendingFromShape(ns4, p);
  }

  /** The three contexts older than the timer, after withValue. */
  lemma BeforeTimer(ns2: seq<Node>, ns3: seq<Node>, p: Id)
    requires Coherent(ns2) && p + 2 == |ns2| && ns2[p].Cancel? && ns2[p].err.None? && Deadline(ns2, p).None?
    requires ns2[p + 1].Cancel? && ns2[p + 1].parent == p && ns2[p + 1].err.None?
    requires ns3 == ns2 + [Value(p, Key, Val)]
    ensures Coherent(ns3) && ns3[p] == ns2[p] && ns3[p + 1] == ns2[p + 1] && ns3[p + 2] == Value(p, Key, Val)
    ensures Err(ns3, p).None? && Err(ns3, p + 1).None? && Err(ns3, p + 2).None?
  {
    ValueChildUnderParent(ns2, ns3, p);
    assert Err(ns3, p) == ns3[p].err;
    assert Err(ns3, p + 1) == ns3[p + 1].err;
  }

  /** In the test's tree with no reason set, every context is pending below
      the parent. */
  lemma PendingFromShape(ns4: seq<Node>, p: Id)
    requires WellFormed(ns4) && |ns4| == p + 5
    requires ns4[p].Cancel? && ns4[p + 1].Cancel? && ns4[p + 1].parent == p
    requires ns4[p + 2].Value? && ns4[p + 2].parent == p
    requires ns4[p + 3].Cancel? && ns4[p + 3].parent == p + 2
    requires ns4[p + 4].Timer? && ns4[p + 4].inner == p + 3
    requires Err(ns4, p).None? && Err(ns4, p + 1).None? && Err(ns4, p + 2).None? && Err(ns4, p + 4).None?
    ensures IsHandle(ns4, p)
    ensures ParentCancel(ns4, p) == Some(p) && ParentCancel(ns4, p + 2) == Some(p)
    ensures PendingBelow(ns4, p, p) && PendingBelow(ns4, p, p + 1)
    ensures PendingBelow(ns4, p, p + 2) && PendingBelow(ns4, p, p + 4)
  {
    WalkFromParent(ns4, p);
  }

  /** In a store shaped like the test's tree, the ancestor walk and the climb
      from every context's signal owner reach the parent. */
  lemma WalkFromParent(ns4: seq<Node>, p: Id)
    requires WellFormed(ns4) && |ns4| == p + 5
    requires ns4[p].Cancel? && ns4[p + 1].Cancel? && ns4[p + 1].parent == p
    requires ns4[p + 2].Value? && ns4[p + 2].parent == p
    requires ns4[p + 3].Cancel? && ns4[p + 3].parent == p + 2
    requires ns4[p + 4].Timer? && ns4[p + 4].inner == p + 3
    ensures IsHandle(ns4, p)
    ensures ParentCancel(ns4, p) == Some(p) && ParentCancel(ns4, p + 2) == Some(p)
    ensures SignalOwner(ns4, p) == Some(p) && Descends(ns4, p, p)
    ensures SignalOwner(ns4, p + 1) == Some(p + 1) && Descends(ns4, p + 1, p)
    ensures SignalOwner(ns4, p + 2) == Some(p)
    ensures SignalOwner(ns4, p + 4) == Some(p + 3) && Descends(ns4, p + 3, p)
  {
    assert Up(ns4, p + 1) == Some(p);
    assert Up(ns4, p + 3) == Some(p);
  }

  /** Calling the parent's cancel function on that tree: every one of the
      contexts ends with Canceled and a resolved done(), and the parent's
      registry is gone. */
  lemma FinishAll(ns: seq<Node>, p: Id, js: seq<Id>)
    requires Coherent(ns) && Registered(ns) && IsHandle(ns, p) && ns[p].Cancel?
    requires forall j :: j in js ==> PendingBelow(ns, p, j)
    ensures var ns' := InvokeSpec(ns, CancelFunc(p, true));
      && (forall j :: j in js ==> FinishedByCancel(ns', j))
      && ns'[p].Cancel? && ns'[p].children.None?
  {
    var ns' := InvokeSpec(ns, CancelFunc(p, true));
    forall j | j in js ensures FinishedByCancel(ns', j) {
      assert PendingBelow(ns, p, j);
      CancelReaches(ns, p, true, Canceled, j);
      ErrIffResolved(ns', j);
    }
    CancelEffect(ns, p, true, Canceled);
    assert NodeCoherent(ns', p);
  }

  /** A withValue context made under the canceled parent reads the
      parent's reason and signal, and appending it changes no older
      context. */
  lemma StaysFinished(ns5: seq<Node>, ns6: seq<Node>, p: Id, js: seq<Id>)
    requires Coherent(ns5) && p < |ns5| && p in js && forall j :: j in js ==> FinishedByCancel(ns5, j)
    requires ns6 == ns5 + [Value(p, Key, Val)]
    ensures WellFormed(ns6) && ns6[p] == ns5[p]
    ensures forall j :: j in js ==> FinishedByCancel(ns6, j)
    ensures FinishedByCancel(ns6, |ns5|)
  {
    assert ns6 == WithValue(ns5, p, Key, Val).value;
    WithValueReads(ns5, p, Key, Val);
    forall j | j in js ensures FinishedByCancel(ns6, j) {
      StateStable(ns5, ns6, j);
    }
  }

  /** withCancel(background()), then withCancel(parent). */
  method BuildParent(tree: Tree) returns (parent: Id, cancel: CancelFunc, cancelChild: Id)
    requires tree.Valid()
    modifies tree
    ensures tree.Valid()
    ensures cancel == CancelFunc(parent, true) && cancelChild == parent + 1
    ensures ParentWithChild(tree.nodes, parent)
  {
    var cancelChildCancel;
    var background := tree.Background();
    ghost var ns0 := tree.nodes;
    parent, cancel := tree.WithCancel(background);
    ghost var ns1 := tree.nodes;
    ParentUnderBackground(ns0, ns1);
    cancelChild, cancelChildCancel := tree.WithCancel(parent);
    CancelChildRegistered(ns1, tree.nodes, parent);
  }

  /** The first half of the test: the tree under a withCancel context,
      before anything is canceled. */
  method BuildTestTree(tree: Tree, now: int)
    returns (parent: Id, cancel: CancelFunc, cancelChild: Id, valueChild: Id, timerChild: Id)
    requires tree.Valid()
    modifies tree
    ensures tree.Valid()
    ensures cancel == CancelFunc(parent, true)
    ensures cancelChild == parent + 1 && valueChild == parent + 2 && timerChild == parent + 4
    ensures PendingTestTree(tree.nodes, parent)
  {
    var cancelTimer;
    parent, cancel, cancelChild := BuildParent(tree);
    ghost var ns2 := tree.nodes;
    var v := tree.WithValue(parent, Key, Val);
    valueChild := v.value;
    ghost var ns3 := tree.nodes;
    assert ns3 == ns2 + [Value(parent, Key, Val)];
    timerChild, cancelTimer := tree.WithTimeout(valueChild, TenHours, now);
    PendingAfterTimer(ns2, ns3, tree.nodes, parent, now);
  }

  /** tests/withCancel.spec.ts, "parent finishes child". Under a withCancel
      context `parent` the test builds a withCancel child and, through a
      withValue child, a ten-hour withTimeout grandchild. Both cancelable
      descendants sit in the parent's registry and the ancestor walk from
      either one's parent finds the parent (PendingTestTree). Calling the
      parent's cancel function cancels all four contexts with Canceled and
      drops the parent's registry, and a withValue context made afterwards
      under the parent is canceled as well. */
  method ParentFinishesChild(tree: Tree, now: int)
    returns (parent: Id, cancelChild: Id, valueChild: Id, timerChild: Id, precanceled: Id)
    requires tree.Valid()
    modifies tree
    ensures tree.Valid()
    ensures FinishedByCancel(tree.nodes, parent) && FinishedByCancel(tree.nodes, cancelChild)
    ensures FinishedByCancel(tree.nodes, valueChild) && FinishedByCancel(tree.nodes, timerChild)
    ensures FinishedByCancel(tree.nodes, precanceled)
    ensures tree.nodes[parent].Cancel? && tree.nodes[parent].children.None?
  {
    var cancel;
    parent, cancel, cancelChild, valueChild, timerChild := BuildTestTree(tree, now);
    ghost var ns4 := tree.nodes;
    assert Registry(ns4[parent]) == [cancelChild, timerChild];
    assert ParentCancel(ns4, parent) == Some(parent) && ParentCancel(ns4, valueChild) == Some(parent);

    tree.Invoke(cancel);
    ghost var ns5 := tree.nodes;
    ghost var js := [parent, cancelChild, valueChild, timerChild];
    FinishAll(ns4, parent, js);

    var w := tree.WithValue(parent, Key, Val);
    precanceled := w.value;
    StaysFinished(ns5, tree.nodes, parent, js);
  }
}
