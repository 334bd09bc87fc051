# gontext — a verified model of the context tree

gontext is a TypeScript port of Go's `context` package. A program builds a tree of
contexts from two roots (`background()` and `TODO()`):

- `withCancel` adds a node that can be canceled;
- `withValue` adds a key/value binding;
- `withDeadline` and `withTimeout` add a node that cancels itself when a host timer fires.

Canceling a node records a reason (`Canceled` or `DeadlineExceeded`) once and for all. It
resolves the node's done signal and cancels every context registered under it. A new
cancelable child is registered with its nearest cancelable ancestor by `propagateCancel`, or
is canceled at once if that ancestor already has a reason.

The model keeps every context object in one store, a `seq<Node>` indexed by id. Nodes are
only ever appended, and every reference points to an older node.

- **Node kinds.** `Empty` (a root), `Value`, `Cancel` (with its `_err`, `_done` and `_children`
  fields), `Timer` (an embedded cancel node, a deadline and an `armed` flag standing for
  `_timeoutId`) and `Opaque` (a context of a kind the library does not know, like the test
  helper `OtherContext`).
- **Registries.** A registry is a duplicate-free sequence in insertion order, as a JavaScript
  `Set` iterates.
- **Two layers.**
  - The modules `Contexts`, `Ancestry`, `Cancellation`, `Propagation`, `Constructors` and
    `Stability` define each operation as a function of the store and prove what it does.
    `Registration` proves the registry invariant below. `Scenarios` replays the test
    "parent finishes child" of tests/withCancel.spec.ts on the class. The replay holds for
    the corrected delay: with the delay as written (src/entry.ts:80), the ten-hour timer
    child expires at once (`Constructors.AsWrittenFutureDeadlineExpires`), and the test's
    `pending` expectation for it at tests/withCancel.spec.ts:44 would fail.
  - The class `Entry.Tree` holds the store in a mutable field. Its methods perform each
    operation step by step as the source does: the `while (true)` ancestor walk, the loop
    over `_children`, the recursive `cancel` calls. Each method is proved to leave exactly
    the store the specification function describes.
  - Two of those steps run the corrected code, not the code as written; both are rows of
    "## Findings" below. `Entry.Tree.GetParentCancelContext` returns a timer's embedded
    cancel node, where src/core.ts:40 reads a missing field and propagateCancel then
    throws (`Ancestry.ParentCancelAsWritten`). `Entry.Tree.WithDeadline` arms its timer
    for `d - now` (`Constructors.Remaining`), where src/entry.ts:80 computes `now - d`
    (`Constructors.DurationAsWritten`). The as-written behaviour is modelled and proved
    only in the functional layer.
  - The public operations keep the invariant `Valid()`: the constructor, `WithCancel`,
    `WithValue`, `WithDeadline`, `WithTimeout`, `Invoke`, `FireTimer` and `Wrap`. `Done`
    only needs a well-formed store; `Registration.CreateSignalKeepsRegistered` and
    `Propagation.CreateSignalKeepsCoherent` show that it keeps the invariant too.
  - The internal steps `GetParentCancelContext`, `RemoveChild`, `CancelNode`, `CancelTimer`,
    `PropagateCancel` and `StartTimer` run in the middle of an operation, where the
    invariant may be broken for a moment. They only require a well-formed store, and the
    operation that calls them restores `Valid()`. `AttachTimer` requires a coherent store
    and leaves the store `Constructors.Wired` describes.
- **The registry invariant.** `Valid()` includes `Registration.Registered`, which has three parts:
  - every registry entry is a canceler, and it sits in the registry of its own cancel
    ancestor, so no canceler is registered twice;
  - every registry entry is live;
  - every live canceler that has a cancel ancestor is in that ancestor's registry.

  Every public operation keeps it. With it, canceling a context reaches every context
  below it (`Registration.CancelReaches`). Once a context is canceled, it is in no registry, so
  canceling it again changes nothing in any later state (`Registration.InvokeStaysIdempotent`).
- **Issued cancel functions.** A cancel function is what withCancel, withDeadline or withTimeout
  returned. It detaches its context, or its context was already canceled when the function
  was made (the expired withDeadline case). `Entry.Tree.Invoke` accepts only such a function
  (`Registration.Issued`). Every constructor proves it returns one, and
  `Registration.IssuedLater` proves it stays one in every later state.
- **Clock and timers.** The clock is a `now` parameter. A host timer going off is the
  explicit event `Entry.Tree.FireTimer`.

Two places where the code and its own documentation disagree, without being defects:

- **Timer description casing.** A timer context describes itself as
  `<parent>.WithDeadline(<deadline>)`, with a capital W, as the code writes it.
  tests/timerContext.spec.ts:23 expects the lower-case prefix.
  `Constructors.TimerDescriptionCasing` pins the code's behaviour.
- **Timer cancel order.** The class comment of TimerContext says the timer is stopped before
  delegating. The code delegates first, then detaches, then clears the timer.
  `Entry.Tree.CancelTimer` follows the code. `Cancellation.TimerCancelOrder` proves that the
  code's order ends in the store `Cancellation.CancelSpec` describes, and that the comment's
  order (stop the timer, then delegate and detach) ends in that same store.

## Model

| member | source | states |
|---|---|---|
| Contexts.EmptyContext | src/contexts/emptyContext.ts:5-22 | A root named `name` (default `UNKNOWN`) has no deadline, no done signal and no reason. It misses every key and describes itself as `context.<name>`. |
| Contexts.LookupIsNearestBinding | src/contexts/valueContext.ts:21-26 | `value(k)` is the value of the nearest value node on the chain to the root that binds `k`, so the most recent binding wins. The search looks through cancel, timer and opaque nodes and gives undefined when nothing binds `k`. |
| Contexts.DeadlineIsNearestTimer | src/contexts/timerContext.ts:19-21 | `deadline()` is the deadline of the nearest timer node on the chain, and null when there is none. |
| Contexts.Deadline | src/contexts/timerContext.ts:19-21 | `deadline()`: a timer node answers its own deadline. Value, cancel and opaque nodes forward to their parent (src/contexts/valueContext.ts:12-14, src/contexts/cancelContext.ts:20-22). A root answers null. Contexts.DeadlineIsNearestTimer states its meaning. |
| Contexts.SignalOwner | src/contexts/cancelContext.ts:23-33 | The cancel node whose `_done` field `done()` reads: a cancel node's own, or a timer's embedded node (src/contexts/timerContext.ts:22-24). Value and opaque nodes forward. A root has none. The owner is a cancel node at or above the context. |
| Contexts.Signal | src/contexts/valueContext.ts:15-17 | The state of the signal `done()` returns, read without creating it. It is null for a root (src/contexts/emptyContext.ts:10-12). |
| Contexts.Err | src/contexts/valueContext.ts:18-20 | `err()`: a cancel node's `_err`, or a timer's embedded node's (src/contexts/timerContext.ts:25-27). Value and opaque nodes forward. A root has none. Contexts.ErrIsOwnersReason states its meaning. |
| Contexts.Lookup | src/contexts/valueContext.ts:21-26 | `value(k)`: a value node answers its own key, compared with `===`, and forwards every other key. A root answers undefined. Contexts.LookupIsNearestBinding states its meaning. |
| Contexts.Describe | src/contexts/valueContext.ts:27-29 | `toString()` for each kind: the parent's description followed by `.withValue(k, v)` or `.withCancel`, `.WithDeadline(d)` for a timer (src/contexts/timerContext.ts:31-33), and `context.<name>` for a root. |
| Contexts.CancelerReadsBase | src/contexts/timerContext.ts:25-27 | A canceler's `err()` is the reason held by its own cancel node, which for a timer is the embedded node. |
| Contexts.ErrIsOwnersReason | src/contexts/timerContext.ts:22-27 | `done()` belongs to the first cancel node on the chain (for a timer, its embedded node). `err()` is that node's reason, and null when there is no such node. |
| Contexts.ErrIffResolved | src/types.ts:14-21 | In a coherent store, `err()` is non-null exactly when the done signal is resolved. A context with no signal has no reason. |
| Contexts.ReadsStable | src/types.ts:5-10 | `deadline()`, the owner of `done()`, the description and every `value(k)` depend only on fields fixed at construction. |
| Ancestry.ParentCancel | src/core.ts:33-48 | The ancestor walk answers a cancel node at or above its start. |
| Ancestry.ParentCancelIsNearestCancel | src/core.ts:33-48 | The walk returns the first cancel node on the chain. It passes through value nodes and gives up at a root or an unknown kind. When it finds one, that node also owns `done()`. |
| Ancestry.ParentCancelStable | src/core.ts:33-48 | The walk's answer depends only on construction-time fields. |
| Ancestry.AsWrittenWalkDiffers | src/core.ts:39-41 | The walk as written agrees with the intended one, except that on a timer it yields undefined where the intended walk yields the embedded cancel node. |
| Ancestry.AsWrittenTimerParentThrows | src/core.ts:51-60 | As written, propagateCancel under a timer parent throws a TypeError. |
| Ancestry.Without | src/core.ts:23-25 | `Set.delete` keeps exactly the other entries and never grows the registry. |
| Ancestry.WithoutDeletesOne | src/core.ts:23-25 | Deleting a present entry removes it alone, keeps the others in order, and shrinks the registry by one. |
| Ancestry.WithoutAbsent | src/core.ts:23-25 | Deleting an absent entry changes nothing. |
| Ancestry.WithoutNoDup | src/core.ts:23-25 | Deleting keeps a registry duplicate-free. |
| Ancestry.ParentCancelAsWritten | src/core.ts:33-48 | getParentCancelContext as written: a timer node yields the undefined field `cancelContext`. Ancestry.AsWrittenWalkDiffers states how it differs from the corrected walk. |
| Ancestry.PropagateOutcomeAsWritten | src/core.ts:51-60 | What propagateCancel does as written once `done()` is not null: it throws a TypeError where the walk yields undefined. Ancestry.AsWrittenTimerParentThrows states when that happens. |
| Ancestry.AddOnce | src/core.ts:62-65 | `Set.add` appends a new entry at the end and leaves a present one where it is. |
| Ancestry.Register | src/core.ts:62-65 | `p._children.add(child)`, creating the Set on first use. Propagation.PropagateUnderLive states its effect. Propagation.RegisterKeepsCoherent and Registration.RegisterKeepsRegistered show it keeps the invariants. |
| Ancestry.Detach | src/core.ts:17-26 | removeChild keeps the store well-formed and only ever removes registry entries. |
| Ancestry.DetachRemovesOnlyChild | src/core.ts:17-26 | removeChild does nothing without a cancel ancestor. Otherwise it deletes exactly the child from that ancestor's registry and leaves the ancestor's reason, signal and every other node as they were. |
| Ancestry.DetachShrinksByOne | src/core.ts:23-25 | Removing a registered child shrinks the registry by exactly one. |
| Cancellation.ParentOf | src/contexts/timerContext.ts:36-39 | The context a canceler detaches from is older than its cancel node. |
| Cancellation.SweepEffect | src/contexts/cancelContext.ts:40-58 | cancel without detaching leaves every node older than the canceler's cancel node unchanged. It changes other nodes at most from live to canceled, or by disarming a timer. It cancels the target. It disarms a timer target. It cancels every registered child of a live target and disarms the child timers. |
| Cancellation.FanOutEffect | src/contexts/cancelContext.ts:53-58 | The loop over `_children` cancels every child and disarms every child timer, and leaves the owner and everything older untouched. |
| Cancellation.SweepKeepsCoherent | src/contexts/cancelContext.ts:40-58 | cancel without detaching keeps every invariant of the store. |
| Cancellation.DetachKeepsCoherent | src/core.ts:17-26 | removeChild keeps every invariant of the store. |
| Cancellation.CancelShape | src/contexts/cancelContext.ts:59-61 | Beyond what the cancel sweep changes, only the ancestor changes. It keeps its reason and signal and only loses the canceler from its registry, so nothing propagates upwards. |
| Cancellation.Sweep | src/contexts/cancelContext.ts:40-58 | cancel without detaching changes only mutable fields, only removes registry entries, and keeps the store well-formed. |
| Cancellation.FanOut | src/contexts/cancelContext.ts:53-58 | The loop over `_children` changes only mutable fields, only removes registry entries, and keeps the store well-formed. |
| Cancellation.CancelSpec | src/contexts/cancelContext.ts:40-62 | cancel with or without detaching changes only mutable fields, only removes registry entries, and keeps the store well-formed. |
| Cancellation.CancelEffectOn | src/contexts/cancelContext.ts:53-56 | Each canceler registered with a live canceler's cancel node ends canceled and disarmed. It takes the given reason if it had none. |
| Cancellation.CancelEffect | src/contexts/cancelContext.ts:40-62 | After cancel: the canceler is canceled; a timer canceler is disarmed; each child registered with a live canceler is canceled, taking the reason if it was live; nothing older changes except the ancestor's registry. |
| Cancellation.CancelKeepsCoherent | src/contexts/cancelContext.ts:14-16 | cancel keeps the invariants: a reason is set exactly when the signal is resolved; a canceled node has no registry; registries are duplicate-free; an armed timer has a live cancel node. |
| Cancellation.CancelProgress | src/contexts/cancelContext.ts:44-52 | cancel never changes a node that is already canceled. A reason only goes from none to the given one, and a signal only becomes resolved. |
| Cancellation.CancelProgressAt | src/contexts/cancelContext.ts:44-52 | For one cancel node: if it was already canceled, cancel leaves it as it was. Otherwise it at most takes the given reason and resolves its signal. |
| Cancellation.FirstReasonWins | src/contexts/cancelContext.ts:44-52 | After cancel, `err()` is the earlier reason if there was one, else the given one, and the signal is resolved whether or not `done()` had been called. |
| Cancellation.CancelAgainIsNoOp | src/contexts/cancelContext.ts:44-46 | cancel on a canceled context that is no longer registered changes nothing. |
| Cancellation.CancelTwice | src/contexts/timerContext.ts:34-44 | A second cancel of the same context, with any reason, leaves the store as the first left it. |
| Cancellation.TimerCancelOrder | src/contexts/timerContext.ts:10-44 | The code's order (delegate, then detach, then clear the timer) ends in the CancelSpec store. The class comment's order (stop the timer, then delegate, then detach) ends in the same store. |
| Cancellation.SweepDisarmCommute | src/contexts/timerContext.ts:40-43 | Clearing a host timer before a cancel or after it gives the same store, because cancel never reads `_timeoutId`. |
| Cancellation.FanOutDisarmCommute | src/contexts/cancelContext.ts:53-58 | Clearing a host timer before or after the loop over `_children` gives the same store. |
| Propagation.CreateSignal | src/contexts/cancelContext.ts:23-33 | `done()` only touches mutable fields and registries. |
| Propagation.CreateSignalEffect | src/contexts/cancelContext.ts:23-33 | The first `done()` moves the owner's signal from absent to pending, and later calls keep it. Reasons, registries and every other node are unchanged. |
| Propagation.CreateSignalIdempotent | src/contexts/cancelContext.ts:23-33 | Calling `done()` twice is the same as calling it once. |
| Propagation.CreateSignalKeepsCoherent | src/contexts/cancelContext.ts:23-33 | `done()` keeps the invariants. |
| Propagation.Propagate | src/core.ts:51-66 | propagateCancel only changes mutable fields and keeps the store well-formed. |
| Propagation.PropagateUnderRoot | src/core.ts:52-55 | When the parent's `done()` is null, nothing changes. |
| Propagation.PropagateUnderCanceled | src/core.ts:57-60 | Under an ancestor that already has a reason, the child is canceled with that same reason, without detaching. Nothing older than the child changes beyond the parent's signal. |
| Propagation.PropagateUnderLive | src/core.ts:61-66 | Under a live ancestor, its registry is created if needed and gains exactly the child at the end. Every other node is as after `done()`. |
| Propagation.PropagateUnderOpaque | src/core.ts:56-79 | Under an unknown kind with no cancel ancestor in reach, the parent's signal and the child's signal are created (`parent.done()`, and `child.done()` inside the race). No reason and no registry changes. |
| Propagation.PropagateKeepsCoherent | src/core.ts:51-66 | propagateCancel keeps the invariants for a child that is not yet registered. |
| Propagation.PropagateSparesOlder | src/core.ts:51-66 | propagateCancel never changes the `err()` of a context older than the child. |
| Propagation.RegisterKeepsCoherent | src/core.ts:62-65 | Adding an unregistered child to a live ancestor's registry keeps the invariants. |
| Propagation.PropagateBaseReason | src/core.ts:57-66 | The child's cancel node ends with exactly the reason the ancestor held. If there was none, the node is untouched, except that under an unknown parent kind its signal is created. |
| Propagation.PropagateChildReason | src/core.ts:57-66 | A live child ends with exactly the reason the ancestor held, or stays untouched if the ancestor is live. |
| Constructors.WithCancelSpec | src/entry.ts:42-46 | withCancel appends one node and keeps every older node's construction-time fields. |
| Constructors.WithCancelKeepsCoherent | src/entry.ts:42-46 | withCancel keeps the invariants and changes no older context's `err()`. |
| Constructors.WithCancelReads | src/contexts/cancelContext.ts:18-39 | The new cancel node has the given parent. Its deadline and values are the parent's, and its description is `<parent>.withCancel`. |
| Constructors.WithCancelState | src/entry.ts:42-46 | The new context is canceled exactly when the parent's cancel ancestor already is, with that reason. Otherwise its signal is not created and it is last in the ancestor's registry. |
| Constructors.Remaining | src/entry.ts:80-81 | The delay is at most zero exactly when the deadline is not after `now`. |
| Constructors.DurationAsWritten | src/entry.ts:80-81 | The delay as written is at most zero exactly when the deadline is at or after `now`. |
| Constructors.WithDeadlineSpec | src/entry.ts:72-92 | withDeadline yields a well-formed store and an existing context. |
| Constructors.WithDeadlineClamped | src/entry.ts:73-77 | When the parent's deadline is earlier, withDeadline is withCancel, and the deadline reads as the parent's. |
| Constructors.WithDeadlineReads | src/contexts/timerContext.ts:19-33 | Otherwise the result is a timer node with deadline `d`, the parent's values and the description `<parent>.WithDeadline(<d>)`. |
| Constructors.Wired | src/entry.ts:78-79 | Building the timer context and running propagateCancel changes only mutable fields of the two new nodes and of older nodes, and keeps the store well-formed. |
| Constructors.WiredState | src/entry.ts:78-79 | After propagateCancel, the store is coherent, the timer is unarmed and carries exactly the reason its ancestor held. A live timer's cancel node is untouched, apart from the signal an unknown parent kind makes it create. |
| Constructors.WiredCoherent | src/entry.ts:78-79 | After propagateCancel, the store is coherent and the timer node is unarmed. |
| Constructors.WiredReason | src/entry.ts:78-79 | After propagateCancel, the timer reports exactly the reason its ancestor held. If there was none, its cancel node is as built, with its signal created only under an unknown parent kind. |
| Constructors.WiredSparesOlder | src/entry.ts:78-79 | Building and wiring the timer context changes no older context's `err()`. |
| Constructors.Settle | src/entry.ts:80-91 | Expiring or arming the timer changes only mutable fields and keeps the store well-formed. |
| Constructors.SettleSparesOlder | src/entry.ts:80-91 | Expiring or arming the timer changes no reason older than the timer's cancel node. |
| Constructors.ArmKeepsCoherent | src/entry.ts:85-90 | Arming the host timer of a live timer context keeps the store coherent, and changes neither its `err()` nor its signal. |
| Constructors.WiredRegistered | src/entry.ts:78-79 | Under a live ancestor, the timer node (not its embedded node) is last in the ancestor's registry. |
| Constructors.WithDeadlineExpired | src/entry.ts:81-84 | For a delay at most zero, the context is canceled with DeadlineExceeded unless it already had a reason. Its signal is resolved, no timer is armed, it has left its ancestor's registry, and its cancel function does not detach. |
| Constructors.ExpireTimer | src/contexts/timerContext.ts:34-44 | Canceling a timer with DeadlineExceeded and detaching it resolves it, disarms it, removes it from its ancestor's registry and keeps the invariants. |
| Constructors.WithDeadlineArmed | src/entry.ts:85-91 | For a positive delay under a live parent, the context is live, its signal is not created, its timer is armed, it is last in its ancestor's registry, and its cancel function detaches. |
| Constructors.WithDeadlineInherits | src/entry.ts:85-91 | For a positive delay under a canceled ancestor, the context keeps that ancestor's reason and no timer is armed. |
| Constructors.WithDeadlineExtends | src/entry.ts:72-92 | withDeadline appends one node (the withCancel fallback) or two (the embedded cancel node, then the timer), and returns the last one. |
| Constructors.WithDeadlineKeepsCoherent | src/entry.ts:72-92 | withDeadline keeps the invariants. |
| Constructors.WithDeadlineSparesOlder | src/entry.ts:72-92 | withDeadline changes no older context's `err()`. This holds for the withCancel fallback, for a timer that expires at once, and for an armed timer. |
| Constructors.SettledSparesOlder | src/entry.ts:78-91 | Without the fallback, wiring and then expiring or arming the timer leaves every older context's `err()` as it was. |
| Constructors.WithDeadlineAt | src/entry.ts:72-92 | withDeadline at time `now` yields a well-formed store and an existing context. |
| Constructors.FutureDeadlineStaysPending | src/entry.ts:61-68 | A deadline after `now` under a live parent leaves the context pending with its timer armed. |
| Constructors.PastDeadlineExpires | src/entry.ts:80-84 | A deadline at or before `now` cancels the context at once with DeadlineExceeded. |
| Constructors.WithDeadlineAsWritten | src/entry.ts:80 | withDeadline with the delay as written yields a well-formed store. |
| Constructors.AsWrittenFutureDeadlineExpires | src/entry.ts:80-84 | As written, every deadline in the future is canceled at once with DeadlineExceeded. |
| Constructors.AsWrittenPastDeadlinePending | src/entry.ts:80-91 | As written, a deadline in the past stays pending with a timer armed. |
| Constructors.WithTimeoutAt | src/entry.ts:97-99 | withTimeout(ms) is withDeadline(now + ms) and yields a well-formed store. |
| Constructors.WithTimeoutOutcome | src/entry.ts:97-99 | The context's deadline is `now + ms`. It is pending with an armed timer for a positive timeout, and canceled with DeadlineExceeded otherwise. |
| Constructors.TimerDescriptionCasing | src/contexts/timerContext.ts:31-33 | A timeout under background describes itself with the prefix `context.background.WithDeadline(`, never the lower-case one. |
| Constructors.InvokeSpec | src/entry.ts:45 | Calling a cancel function keeps the invariants. |
| Constructors.InvokeCancels | src/entry.ts:45 | After a cancel function runs, its context has the earlier reason or Canceled, and its signal is resolved. Every child registered with it is canceled. A detaching function has taken it out of its ancestor's registry. |
| Constructors.InvokeIdempotent | src/types.ts:27-31 | Calling a cancel function again immediately after the first call changes nothing. Registration.InvokeStaysIdempotent covers a second call in any later state. |
| Constructors.FireSpec | src/entry.ts:86-89 | The timer callback keeps the invariants. |
| Constructors.FireExpires | src/entry.ts:86-89 | An armed timer that fires cancels its context with DeadlineExceeded, disarms and detaches it. |
| Constructors.CanceledTimerNeverFires | src/contexts/timerContext.ts:40-43 | Canceling a timer context clears its timer, so a later firing changes nothing. |
| Constructors.StateStable | src/types.ts:5-21 | Appending nodes changes neither `err()` nor the state of `done()` for any existing context. So building new contexts never changes what an older context reports. |
| Constructors.WithValue | src/entry.ts:54-59 | withValue fails with InvalidKey exactly for a null or undefined key. Otherwise it appends one node and keeps the store well-formed. |
| Constructors.WithValueReads | src/contexts/valueContext.ts:12-29 | The value node answers its own key with its value and every other key as the parent does. Its deadline, signal and reason are the parent's, and its description is `<parent>.withValue(<key>, <val>)`. |
| Stability.ReadsAreFinal | src/types.ts:5-21 | Across any later state, `deadline()` answers the same. Once `err()` is non-null, it keeps its value and the signal stays resolved. |
| Stability.LaterTrans | src/types.ts:19-21 | A later state of a later state is a later state. |
| Stability.CreateSignalLater | src/contexts/cancelContext.ts:23-33 | `done()` leads to a later state. |
| Stability.CancelLater | src/contexts/cancelContext.ts:40-62 | cancel leads to a later state. |
| Stability.PropagateLater | src/core.ts:51-66 | propagateCancel leads to a later state. |
| Stability.WithCancelLater | src/entry.ts:42-46 | withCancel leads to a later state. |
| Stability.WithDeadlineLater | src/entry.ts:72-92 | withDeadline leads to a later state. |
| Stability.WithValueLater | src/entry.ts:54-59 | withValue leads to a later state. |
| Stability.InvokeLater | src/entry.ts:45 | Calling a cancel function leads to a later state. |
| Stability.FireLater | src/entry.ts:86-89 | The timer callback leads to a later state. |
| Entry.Tree.constructor | src/index.ts:8-9 | The store starts with the two roots `background` and `TODO`. |
| Entry.Tree.Background | src/index.ts:17-19 | background() is the fixed root `context.background`, with no deadline, no signal, no reason and no values. |
| Entry.Tree.Todo | src/index.ts:28-30 | TODO() is the other fixed root, `context.TODO`, alike in every read. |
| Entry.Tree.Done | src/contexts/cancelContext.ts:23-33 | `done()` by delegation leaves the store CreateSignal describes, returns that signal, and is null exactly when no cancel node is in reach. |
| Entry.Tree.GetParentCancelContext | src/core.ts:33-48 | The `while (true)` walk returns what ParentCancel specifies. |
| Entry.Tree.RemoveChild | src/core.ts:17-26 | removeChild leaves exactly the store Detach specifies. |
| Entry.Tree.CancelNode | src/contexts/cancelContext.ts:40-62 | Without a reason it raises InternalError and changes nothing. Otherwise it leaves exactly the store CancelSpec specifies. A timer node is handed to Entry.Tree.CancelTimer. |
| Entry.Tree.CancelTimer | src/contexts/timerContext.ts:34-44 | A timer node's cancel delegates to its embedded node without detaching, detaches the timer node itself when asked, then clears the timer. Without a reason it raises InternalError and changes nothing. Otherwise it leaves exactly the store CancelSpec specifies. |
| Entry.Tree.PropagateCancel | src/core.ts:51-66 | propagateCancel leaves exactly the store Propagate specifies. |
| Entry.Tree.WithCancel | src/entry.ts:42-46 | withCancel leaves the WithCancelSpec store, keeps `Valid()`, moves to a later state, and returns the new node with a detaching cancel function. |
| Entry.Tree.WithValue | src/entry.ts:54-59 | withValue fails exactly for a nullish key and changes nothing then. Otherwise it appends the value node. It keeps `Valid()`. |
| Entry.Tree.AttachTimer | src/entry.ts:78-79 | Constructing the timer context and propagating leaves the Wired store. |
| Entry.Tree.StartTimer | src/entry.ts:80-91 | The rest of withDeadline leaves the Settle store. The returned cancel function detaches exactly when the delay is positive. |
| Entry.Tree.WithDeadline | src/entry.ts:72-92 | withDeadline leaves the store, context and cancel function WithDeadlineAt specifies, and keeps `Valid()`. |
| Entry.Tree.WithTimeout | src/entry.ts:97-99 | withTimeout is withDeadline at `now + ms`. |
| Entry.Tree.Invoke | src/entry.ts:45 | Calling a cancel function the library issued leaves the InvokeSpec store, keeps `Valid()` (and so the registry invariant), and moves to a later state. |
| Entry.Tree.FireTimer | src/entry.ts:86-89 | A firing timer leaves the FireSpec store and keeps `Valid()`. |
| Entry.Tree.Wrap | tests/_helpers.ts:10-28 | A context of an unknown kind forwards the description, deadline, reason, signal and every value of the context it wraps. |
| Index.WithCancel | src/index.ts:40-47 | The object-returning withCancel leaves the WithCancelSpec store and returns `{ context, cancel }` with a detaching cancel function. |
| Index.WithValue | src/index.ts:55-60 | Same contract as withValue in src/entry.ts. |
| Registration.Registered | src/core.ts:61-66 | The registry invariant: every entry sits in the registry of its own cancel ancestor, every entry is live, and every live canceler is in its cancel ancestor's registry. |
| Registration.Issued | src/entry.ts:45 | A cancel function as the library returns it: it detaches its context, or that context was already canceled. |
| Registration.SweepKeepsRegistered | src/contexts/cancelContext.ts:40-58 | cancel without detaching restores the invariant, which may fail only at the canceled canceler's own registration. |
| Registration.DetachKeepsRegistered | src/core.ts:17-26 | removeChild of a canceled canceler restores the invariant. |
| Registration.CancelKeepsRegistered | src/contexts/cancelContext.ts:40-62 | cancel keeps the invariant when it detaches, or when the canceler was in no registry. |
| Registration.CanceledUnregistered | src/contexts/cancelContext.ts:57-61 | Under the invariant, a canceled canceler is in no registry. |
| Registration.CreateSignalKeepsRegistered | src/contexts/cancelContext.ts:23-33 | `done()` keeps the invariant. |
| Registration.RegisterKeepsRegistered | src/core.ts:62-65 | Adding a live child to its own cancel ancestor's registry restores the invariant. |
| Registration.PropagateKeepsRegistered | src/core.ts:51-79 | propagateCancel for a new canceler restores the invariant: it registers the child, or cancels it and leaves it out. |
| Registration.AppendLeafKeepsRegistered | src/entry.ts:54-59 | Appending a value node or a wrapper keeps the invariant. |
| Registration.WithCancelKeepsRegistered | src/entry.ts:42-46 | withCancel keeps the invariant. |
| Registration.WithDeadlineKeepsRegistered | src/entry.ts:72-92 | withDeadline keeps the invariant, in the clamped, expired and armed cases. |
| Registration.WiredKeepsRegistered | src/entry.ts:78-79 | Building and wiring the timer context keeps the invariant. |
| Registration.SettleKeepsRegistered | src/entry.ts:80-91 | Expiring or arming the timer keeps the invariant. |
| Registration.WithCancelIssues | src/entry.ts:42-46 | withCancel returns an issued cancel function. |
| Registration.WithDeadlineIssues | src/entry.ts:72-92 | withDeadline returns an issued cancel function, including the non-detaching one of an expired deadline. |
| Registration.IssuedLater | src/types.ts:27-31 | A cancel function stays issued in every later state. |
| Registration.InvokeKeepsRegistered | src/entry.ts:45 | Calling an issued cancel function keeps the invariant. |
| Registration.FireKeepsRegistered | src/entry.ts:86-89 | A host timer going off keeps the invariant. |
| Registration.CanceledBelow | src/contexts/cancelContext.ts:53-58 | Under the invariant, every cancel node below a canceled one is canceled. |
| Registration.ChildFollowsParent | src/core.ts:51-66 | Under the invariant, when the walk from a child's parent reaches a cancel ancestor: if the parent has a reason, so does the child, and if the parent's `done()` is resolved, so is the child's. |
| Registration.SweepReachesBelow | src/contexts/cancelContext.ts:53-58 | Under the invariant, cancel reaches every cancel node below the canceled one. |
| Registration.SweepOnlyBelow | src/contexts/cancelContext.ts:53-58 | cancel sets a reason only on cancel nodes below the canceled one. |
| Registration.CancelReaches | tests/withCancel.spec.ts:33-64 | Under the invariant, after cancel a context has a reason exactly when it had one before or it lies below the canceled canceler. Every reason set is the given one. |
| Registration.CancelCanceledIsNoOp | src/contexts/cancelContext.ts:44-46 | Under the invariant, canceling a canceled canceler leaves the whole store as it was. |
| Registration.InvokeStaysIdempotent | src/types.ts:27-31 | After a cancel function's first call, calling it again in any later state that keeps the invariant changes nothing. |
| Scenarios.ParentUnderBackground | tests/withCancel.spec.ts:37 | withCancel(background()) appends a bare cancel node with no deadline. |
| Scenarios.CancelChildRegistered | tests/withCancel.spec.ts:38 | withCancel(parent) registers the child as the parent's only entry. |
| Scenarios.ValueChildUnderParent | tests/withCancel.spec.ts:39 | withValue(parent, 'key', 'value') reads the parent as its cancel ancestor and has no reason. |
| Scenarios.TimerShape | src/entry.ts:72-92 | An unclamped withDeadline appends the cancel node and then the timer node, and changes only mutable fields of older nodes. |
| Scenarios.TimerChildRegistered | tests/withCancel.spec.ts:40 | withTimeout(valueChild, ten hours) registers the timer node after the cancel child, with no reason. No older context's `err()` changes. |
| Scenarios.PendingAfterTimer | tests/withCancel.spec.ts:40-56 | After the four constructors, the tree has the shape the test checks. None of the four contexts has a reason yet, and each one's `done()` is read from a cancel node at or below the parent. The model does not call `done()` here. |
| Scenarios.BeforeTimer | tests/withCancel.spec.ts:37-39 | The parent, the cancel child and the value child have no reason after withValue. |
| Scenarios.PendingFromShape | tests/withCancel.spec.ts:41-44 | In a store of the test's shape with no reasons, each context's `done()` is read from a cancel node at or below the parent. |
| Scenarios.WalkFromParent | tests/withCancel.spec.ts:55-56 | In a store of the test's shape, getParentCancelContext of both cancelable children answers the parent. |
| Scenarios.FinishAll | tests/withCancel.spec.ts:58-64 | Calling the parent's cancel function clears its registry and leaves every pending context below it canceled with Canceled and resolved. |
| Scenarios.StaysFinished | tests/withCancel.spec.ts:66-69 | withValue under the canceled parent reads Canceled and a resolved signal, and the others stay finished. |
| Scenarios.BuildParent | tests/withCancel.spec.ts:37-38 | The parent and its cancel child, built through the class, keep `Valid()`. |
| Scenarios.BuildTestTree | tests/withCancel.spec.ts:37-44 | The test's tree, built through the class, keeps `Valid()`. None of the four contexts has a reason yet, and each one's `done()` is read from a cancel node at or below the parent. |
| Scenarios.ParentFinishesChild | tests/withCancel.spec.ts:33-70 | The whole test run through the class: after the parent's cancel, the parent, both children, the timer child and a later withValue child are canceled with Canceled and resolved, and the parent's `_children` is null. |

## Left out

- The `Promise.race` watcher that propagateCancel starts under a context of an unknown kind (src/core.ts:67-79). It observes a foreign node asynchronously. The model does the synchronous part of that branch: it creates the parent's signal (`parent.done()`) and the child's signal (`child.done()`), and changes nothing else (Propagation.PropagateUnderOpaque). The later cancel that the watcher would perform is not modelled. So Registration.ChildFollowsParent only covers a child whose parent has a cancel ancestor the walk reaches, not a path through an unknown context kind.
- Real timers and the clock (`setTimeout`, `clearTimeout`, `Date.now`). The clock is a `now` parameter, `_timeoutId` is the `armed` flag, and a timer going off is the explicit event Entry.Tree.FireTimer. The host never runs a cleared timer's callback, so FireSpec does nothing on an unarmed timer.
- Entry.Tree.WithTimeout: it uses one `now` for both `Date.now()` reads (src/entry.ts:98 and src/entry.ts:80). Time that elapses between the two reads is not modelled.
- Promise objects. A signal is a DoneState (not created, pending, resolved). Promise identity becomes "a created signal is never replaced".
- The error classes (src/errors/*.ts) are the two Reason values. Thrown errors become results:
  - a missing cancel reason is the outcome `Raised(InternalError)`;
  - a nullish `withValue` key is `Fail(InvalidKey)`.
  `null` and `undefined` reasons are both the absent reason.
- Module and typing breakage. src/entry.ts:5 imports names that src/contexts/emptyContext.ts does not export, and src/entry.ts returns a pair where src/types.ts:34-37 declares an object. The roots are the two that src/index.ts:8-9 builds, shared by both entry modules.
- Stringification:
  - keys and values are a subset of JavaScript values (undefined, null, booleans, integers, strings, symbols), compared with `===`;
  - objects, functions and non-integer numbers are not modelled;
  - a symbol is identified by its description;
  - a symbol is rendered `Symbol(<description>)`, although JavaScript throws when a template literal meets one;
  - a deadline is an integer count of milliseconds and is rendered as that number, not as `Date.prototype.toString` renders it.
- JavaScript numbers are floating point. Times and delays here are unbounded integers.
- Test scaffolding in tests/_helpers.ts, other than OtherContext (Entry.Tree.Wrap).

## Findings

| source | as written | input that shows it | evidently intended | confidence | as-written member | corrected member |
|---|---|---|---|---|---|---|
| src/core.ts:40 | getParentCancelContext returns `p.cancelContext` for a timer context, but TimerContext declares the field as `_cancelContext` (src/contexts/timerContext.ts:16), so the walk returns undefined. propagateCancel then reads `p._err` on undefined. | `withCancel(withTimeout(background(), 500)[0])`: the walk from the timer context yields undefined, and line 58 throws a TypeError. | Return the embedded cancel node, as the comment above the function says, so the child is registered with it. | high; not executed | Ancestry.ParentCancelAsWritten, Ancestry.AsWrittenTimerParentThrows | Ancestry.ParentCancel, Ancestry.ParentCancelIsNearestCancel |
| src/entry.ts:80 | The delay is `Date.now() - d.getTime()`, which is negative for every deadline in the future. | `withTimeout(background(), 500)` at time `now`: the delay is -500, so the context is canceled with DeadlineExceeded at once, while tests/timerContext.spec.ts:22 expects `err()` to be null. | `d.getTime() - Date.now()`: a future deadline stays pending with an armed timer, as src/entry.ts:61-68 documents. | high; not executed | Constructors.DurationAsWritten, Constructors.AsWrittenFutureDeadlineExpires | Constructors.Remaining, Constructors.FutureDeadlineStaysPending |
