/** The concat-map-iterable operator (flatMapConcatIterable): upstream emits
    batches of values, downstream receives the values one at a time, never
    more than it has requested, followed by at most one terminal signal.
    Every entry point of the operator is a pure transition on an immutable
    record; the downstream is an oracle that decides which of its callbacks
    throw. */
module ConcatMapIterable {
  import opened Wrappers

  /** How a stream ends. */
  datatype Terminal<E> = Complete | Error(error: E)

  /** What downstream observes: a value, or the terminal signal. */
  datatype Signal<T, E> = Item(value: T) | Done(terminal: Terminal<E>)

  /** How an entry point returns to its caller: normally, or by throwing. */
  datatype Exit<E> = Returned | Threw(error: E)

  /** The downstream's behaviour: whether processing the k-th value of the
      subscription (counted from 0, failed attempts included) throws, and
      whether its onComplete and onError callbacks throw. */
  datatype Consumer<E> = Consumer(onNextFails: nat -> Option<E>, onCompleteFails: Option<E>, onErrorFails: Option<E>)

  /** Which entry point started a drain: upstream's onNext, or downstream's
      request. They differ in what a failing delivery does. */
  datatype Path = FromUpstream | FromDemand

  datatype Operator<T, E> = Operator(
    cursor: seq<T>,                 // the values of the current batch not yet pulled
    releasable: bool,               // the current batch has a release handle
    demand: nat,                    // requested by downstream and not yet pulled
    pending: Option<Terminal<E>>,   // an upstream terminal waiting behind the cursor
    thrown: Option<E>,              // a failure thrown out of onNext, reported at upstream's terminal
    terminated: bool,
    upstreamCancelled: bool,
    released: bool,                 // a batch's release handle has been invoked
    requested: nat,                 // all demand downstream has granted
    pulled: nat,                    // all values taken from batches for delivery
    received: seq<T>,               // the values of every accepted batch, in arrival order
    trace: seq<Signal<T, E>>)       // what downstream has observed

  function Min(a: nat, b: nat): nat {
    if a <= b then a else b
  }

  /** The values in a trace, in order. */
  function Values<T, E>(trace: seq<Signal<T, E>>): (r: seq<T>)
    ensures |r| <= |trace|
  {
    if |trace| == 0 then []
    else Values(trace[..|trace| - 1]) + (if trace[|trace| - 1].Item? then [trace[|trace| - 1].value] else [])
  }

  /** The signals that deliver `vs`, one value each. */
  function Items<T, E>(vs: seq<T>): (r: seq<Signal<T, E>>)
    ensures |r| == |vs| && forall k :: 0 <= k < |vs| ==> r[k] == Item(vs[k])
  {
    seq(|vs|, k requires 0 <= k < |vs| => Item(vs[k]))
  }

  /** Every signal but the last is a value: at most one terminal, and
      nothing after it. */
  predicate TerminalLast<T, E>(trace: seq<Signal<T, E>>) {
    forall k :: 0 <= k < |trace| - 1 ==> trace[k].Item?
  }

  predicate HasTerminal<T, E>(trace: seq<Signal<T, E>>) {
    |trace| > 0 && trace[|trace| - 1].Done?
  }

  /** What every entry point keeps true. */
  predicate Valid<T, E>(op: Operator<T, E>) {
    && TerminalLast(op.trace)
    && (HasTerminal(op.trace) ==> op.terminated)
    && (op.terminated ==> |op.cursor| == 0)
    && (op.thrown.Some? ==> |op.cursor| == 0)
    && (op.upstreamCancelled ==> op.terminated)
    && (op.pending.Some? && !op.terminated ==> |op.cursor| > 0 && op.thrown.None?)
    && op.pulled + op.demand == op.requested
    && |op.trace| <= op.pulled + (if HasTerminal(op.trace) then 1 else 0)
  }

  /** An operator nothing has happened to yet: nothing requested, received
      or delivered, nothing deferred, released or cancelled. */
  predicate Fresh<T, E>(op: Operator<T, E>) {
    && Valid(op) && op.cursor == [] && op.demand == 0 && op.pulled == 0 && op.requested == 0
    && op.trace == [] && op.received == [] && op.pending.None? && op.thrown.None?
    && !op.terminated && !op.upstreamCancelled && !op.released
  }

  /** A freshly subscribed operator. */
  function Init<T, E>(): (op: Operator<T, E>)
    ensures Fresh(op)
  {
    Operator([], false, 0, None, None, false, false, false, 0, 0, [], [])
  }

  /** The downstream callback failure, if any, for terminal `t`. */
  function TerminalFails<E>(c: Consumer<E>, t: Terminal<E>): Option<E> {
    match t
    case Complete => c.onCompleteFails
    case Error(_) => c.onErrorFails
  }

  /** Handing a terminal to downstream: only once the cursor is empty. The
      operator is terminated either way; a throwing callback propagates to the
      caller and the terminal is not observed. Upstream is not cancelled. */
  function DeliverTerminal<T, E>(op: Operator<T, E>, c: Consumer<E>, t: Terminal<E>): (r: (Operator<T, E>, Exit<E>))
    requires !op.terminated && |op.cursor| == 0
    ensures r.0.terminated && r.0.upstreamCancelled == op.upstreamCancelled
    ensures r.0.requested == op.requested && r.0.pulled == op.pulled && r.0.demand == op.demand
    ensures r.1.Returned? <==> TerminalFails(c, t).None?
    ensures r.1.Returned? ==> r.0.trace == op.trace + [Done(t)] && HasTerminal(r.0.trace)
    ensures r.1.Threw? ==> r.0.trace == op.trace && r.1.error == TerminalFails(c, t).value
  {
    var done := op.(terminated := true, pending := None);
    match TerminalFails(c, t)
    case None => (done.(trace := op.trace + [Done(t)]), Returned)
    case Some(e) => (done, Threw(e))
  }

  /** Dropping the current batch after a failed delivery: its release handle
      is invoked when values remain. On the upstream path the failure is
      thrown out of onNext and kept for upstream's terminal; on the demand
      path upstream is cancelled and downstream gets onError, and request
      returns normally. */
  function Abandon<T, E>(op: Operator<T, E>, c: Consumer<E>, e: E, path: Path): (r: (Operator<T, E>, Exit<E>))
    requires !op.terminated && op.thrown.None?
    requires path == FromUpstream ==> op.pending.None?
    ensures |r.0.cursor| == 0
    ensures r.0.released == (op.released || (op.releasable && |op.cursor| > 0))
    ensures path == FromUpstream ==> r == (op.(cursor := [], released := r.0.released, thrown := Some(e)), Threw(e))
    ensures path == FromDemand ==> r.0.terminated && r.0.upstreamCancelled
    ensures path == FromDemand && c.onErrorFails.None? ==> r.1 == Returned && r.0.trace == op.trace + [Done(Error(e))]
  {
    var dropped := op.(cursor := [], released := op.released || (op.releasable && |op.cursor| > 0));
    match path
    case FromUpstream => (dropped.(thrown := Some(e)), Threw(e))
    case FromDemand => DeliverTerminal(dropped.(upstreamCancelled := true), c, Error(e))
  }

  /** The drain loop's own state: the values left in the cursor, the demand,
      the count of values pulled and what downstream has observed. */
  datatype Loop<T, E> = Loop(cursor: seq<T>, demand: nat, pulled: nat, trace: seq<Signal<T, E>>)

  /** How the loop stops: out of demand or of values, or at a delivery that
      threw. */
  datatype LoopEnd<T, E> = Drained(loop: Loop<T, E>) | Failed(loop: Loop<T, E>, error: E)

  /** Downstream processes deliveries `from` to `from + k - 1` without
      throwing. */
  ghost predicate Healthy<E>(c: Consumer<E>, from: nat, k: nat) {
    forall j :: from <= j < from + k ==> c.onNextFails(j).None?
  }

  /** The signals appended after delivering the first value of `xs` and then
      the next `m` of them are those for the first m + 1 values. */
  lemma ItemsCons<T, E>(trace: seq<Signal<T, E>>, xs: seq<T>, m: nat)
    requires m < |xs|
    ensures (trace + [Item(xs[0])]) + Items<T, E>(xs[1..][..m]) == trace + Items<T, E>(xs[..m + 1])
  {
    var a := Items<T, E>(xs[1..][..m]);
    var b := Items<T, E>(xs[..m + 1]);
    assert b == [Item(xs[0])] + a by {
      forall k | 0 <= k < |b| ensures b[k] == ([Item(xs[0])] + a)[k] {
        if k > 0 {
          assert xs[..m + 1][k] == xs[1..][..m][k - 1];
        }
      }
    }
  }

  /** The loop pulls values while there is demand and a value left, handing
      each to downstream, and stops early only at a delivery that throws. */
  function Pull<T, E>(l: Loop<T, E>, c: Consumer<E>): (r: LoopEnd<T, E>)
    ensures l.pulled <= r.loop.pulled <= l.pulled + |l.cursor|
    ensures r.loop.pulled + r.loop.demand == l.pulled + l.demand
    ensures |r.loop.cursor| == |l.cursor| - (r.loop.pulled - l.pulled)
    ensures r.Drained? ==> r.loop.demand == 0 || |r.loop.cursor| == 0
    ensures r.Failed? ==> l.pulled < r.loop.pulled && c.onNextFails(r.loop.pulled - 1) == Some(r.error)
    decreases |l.cursor|
  {
    if l.demand > 0 && |l.cursor| > 0 then
      var next := Loop(l.cursor[1..], l.demand - 1, l.pulled + 1, l.trace);
      if c.onNextFails(l.pulled).None? then
        Pull(next.(trace := l.trace + [Item(l.cursor[0])]), c)
      else Failed(next, c.onNextFails(l.pulled).value)
    else Drained(l)
  }

  /** The number of values the loop delivered: all it pulled, but the one
      whose delivery threw. */
  function Delivered<T, E>(l: Loop<T, E>, r: LoopEnd<T, E>): int {
    r.loop.pulled - l.pulled - (if r.Failed? then 1 else 0)
  }

  /** The loop leaves the cursor without the values it pulled. */
  lemma {:induction false} PullLeaves<T, E>(l: Loop<T, E>, c: Consumer<E>)
    ensures Pull(l, c).loop.cursor == l.cursor[Pull(l, c).loop.pulled - l.pulled..]
    decreases |l.cursor|
  {
    var r := Pull(l, c);
    if l.demand > 0 && |l.cursor| > 0 && c.onNextFails(l.pulled).None? {
      var l1 := Loop(l.cursor[1..], l.demand - 1, l.pulled + 1, l.trace + [Item(l.cursor[0])]);
      PullLeaves(l1, c);
      assert r == Pull(l1, c);
      assert l.cursor[1..][r.loop.pulled - l1.pulled..] == l.cursor[r.loop.pulled - l.pulled..];
    } else if !(l.demand > 0 && |l.cursor| > 0) {
      assert l.cursor[0..] == l.cursor;
    }
  }

  /** What downstream observed during the loop: the first values of the
      cursor, in order, each processed without throwing. */
  lemma {:induction false} PullDelivers<T, E>(l: Loop<T, E>, c: Consumer<E>)
    ensures var r := Pull(l, c);
            && 0 <= Delivered(l, r) <= r.loop.pulled - l.pulled
            && r.loop.trace == l.trace + Items(l.cursor[..Delivered(l, r)])
            && Healthy(c, l.pulled, Delivered(l, r))
    decreases |l.cursor|
  {
    var r := Pull(l, c);
    if l.demand > 0 && |l.cursor| > 0 && c.onNextFails(l.pulled).None? {
      var l1 := Loop(l.cursor[1..], l.demand - 1, l.pulled + 1, l.trace + [Item(l.cursor[0])]);
      PullDelivers(l1, c);
      assert r == Pull(l1, c);
      var m := Delivered(l1, r);
      assert Delivered(l, r) == m + 1;
      ItemsCons(l.trace, l.cursor, m);
    } else {
      assert l.cursor[..0] == [];
    }
  }

  function LoopOf<T, E>(op: Operator<T, E>): Loop<T, E> {
    Loop(op.cursor, op.demand, op.pulled, op.trace)
  }

  /** After the loop: a failed delivery abandons the batch; an emptied cursor
      lets a deferred terminal through. */
  function Settle<T, E>(op: Operator<T, E>, c: Consumer<E>, path: Path, end: LoopEnd<T, E>): (r: (Operator<T, E>, Exit<E>))
    requires !op.terminated && op.thrown.None?
    requires path == FromUpstream ==> op.pending.None?
  {
    var l := end.loop;
    var after := op.(cursor := l.cursor, demand := l.demand, pulled := l.pulled, trace := l.trace);
    match end
    case Failed(_, e) => Abandon(after, c, e, path)
    case Drained(_) =>
      if |l.cursor| == 0 && op.pending.Some? then DeliverTerminal(after, c, op.pending.value)
      else (after, Returned)
  }

  /** The drain procedure shared by request and onNext. */
  function Drain<T, E>(op: Operator<T, E>, c: Consumer<E>, path: Path): (r: (Operator<T, E>, Exit<E>))
    requires !op.terminated && op.thrown.None?
    requires path == FromUpstream ==> op.pending.None?
  {
    Settle(op, c, path, Pull(LoopOf(op), c))
  }

  /** request(n): the demand grows by n and the drain runs; no effect once
      terminated, and nothing to drain after onNext has thrown. */
  function OnRequest<T, E>(op: Operator<T, E>, c: Consumer<E>, n: nat): (r: (Operator<T, E>, Exit<E>))
    requires Valid(op) && n > 0
    ensures op.terminated ==> r == (op, Returned)
    ensures !op.terminated ==> r.0.requested == op.requested + n
    ensures r.0.upstreamCancelled ==> op.upstreamCancelled || r.0.terminated
    ensures Valid(r.0)
  {
    if op.terminated then (op, Returned)
    else
      var more := op.(demand := op.demand + n, requested := op.requested + n);
      if op.thrown.Some? then (more, Returned)
      else
        var r := Drain(more, c, FromDemand);
        DrainValid(more, c, FromDemand);
        r
  }

  /** Whether upstream may call onNext now: the operator asks for one batch
      at a time, and only once the current one is exhausted. */
  predicate AcceptsBatch<T, E>(op: Operator<T, E>) {
    op.terminated || op.thrown.Some? || (|op.cursor| == 0 && op.pending.None?)
  }

  /** onNext(batch): dropped once terminated or after a thrown failure;
      otherwise the batch becomes the cursor and the drain runs. A failing
      delivery is thrown to the caller. */
  function OnNext<T, E>(op: Operator<T, E>, c: Consumer<E>, batch: seq<T>, releasable: bool): (r: (Operator<T, E>, Exit<E>))
    requires Valid(op) && AcceptsBatch(op)
    ensures op.terminated || op.thrown.Some? ==> r == (op, Returned)
    ensures r.0.upstreamCancelled == op.upstreamCancelled
    ensures Valid(r.0)
  {
    if op.terminated || op.thrown.Some? then (op, Returned)
    else
      var installed := op.(cursor := batch, releasable := releasable, received := op.received + batch);
      var r := Drain(installed, c, FromUpstream);
      DrainValid(installed, c, FromUpstream);
      r
  }

  /** onComplete / onError: delivered at once when the cursor is empty,
      deferred behind the values left in it otherwise; after onNext has
      thrown, downstream gets onError with that failure instead. Upstream is
      never cancelled. */
  function OnTerminal<T, E>(op: Operator<T, E>, c: Consumer<E>, t: Terminal<E>): (r: (Operator<T, E>, Exit<E>))
    requires Valid(op) && (op.terminated || op.pending.None?)
    ensures op.terminated ==> r == (op, Returned)
    ensures !op.terminated && |op.cursor| > 0 ==> r == (op.(pending := Some(t)), Returned)
    ensures !op.terminated && |op.cursor| == 0 ==>
              var delivered := if op.thrown.Some? then Error(op.thrown.value) else t;
              r.0.terminated && (r.1.Returned? <==> TerminalFails(c, delivered).None?) &&
              (r.1.Returned? ==> r.0.trace == op.trace + [Done(delivered)])
    ensures r.0.upstreamCancelled == op.upstreamCancelled
    ensures Valid(r.0)
  {
    if op.terminated then (op, Returned)
    else if op.thrown.Some? then DeliverTerminal(op, c, Error(op.thrown.value))
    else if |op.cursor| == 0 then DeliverTerminal(op, c, t)
    else (op.(pending := Some(t)), Returned)
  }

  /** cancel(): terminates without delivering anything, invokes the release
      handle of a batch that still has values, and cancels upstream. */
  function OnCancel<T, E>(op: Operator<T, E>): (r: Operator<T, E>)
    requires Valid(op)
    ensures r.terminated && r.trace == op.trace && Valid(r)
    ensures !op.terminated ==> r.upstreamCancelled
    ensures r.released <==> op.released || (!op.terminated && op.releasable && |op.cursor| > 0)
  {
    if op.terminated then op
    else op.(terminated := true, upstreamCancelled := true, cursor := [],
             released := op.released || (op.releasable && |op.cursor| > 0))
  }

  // ---------------------------------------------------------------------
  // The drain keeps the invariant

  lemma {:induction false} ValuesSnoc<T, E>(trace: seq<Signal<T, E>>, s: Signal<T, E>)
    ensures Values(trace + [s]) == Values(trace) + (if s.Item? then [s.value] else [])
  {
    assert (trace + [s])[..|trace|] == trace;
  }

  /** A trace with at most a final terminal holds one value per signal but
      that terminal. */
  lemma {:induction false} ValuesCount<T, E>(trace: seq<Signal<T, E>>)
    requires TerminalLast(trace)
    ensures |Values(trace)| == |trace| - (if HasTerminal(trace) then 1 else 0)
    decreases |trace|
  {
    if |trace| > 0 {
      var init := trace[..|trace| - 1];
      assert TerminalLast(init) && !HasTerminal(init) by {
        assert forall k :: 0 <= k < |init| ==> init[k] == trace[k];
      }
      ValuesCount(init);
    }
  }

  /** Appending delivered values to a trace without a terminal. */
  lemma {:induction false} ValuesItems<T, E>(trace: seq<Signal<T, E>>, xs: seq<T>)
    requires TerminalLast(trace) && !HasTerminal(trace)
    ensures Values(trace + Items(xs)) == Values(trace) + xs
    ensures TerminalLast(trace + Items(xs)) && !HasTerminal(trace + Items(xs))
    decreases |xs|
  {
    if |xs| > 0 {
      var init := xs[..|xs| - 1];
      ValuesItems(trace, init);
      assert trace + Items(xs) == (trace + Items(init)) + [Item(xs[|xs| - 1])];
      ValuesSnoc(trace + Items(init), Item(xs[|xs| - 1]));
      assert init + [xs[|xs| - 1]] == xs;
    } else {
      assert trace + Items(xs) == trace;
    }
  }

  /** Appending the terminal to a trace of values. */
  lemma AppendDone<T, E>(trace: seq<Signal<T, E>>, t: Terminal<E>)
    requires TerminalLast(trace) && !HasTerminal(trace)
    ensures TerminalLast(trace + [Done(t)]) && HasTerminal(trace + [Done(t)])
    ensures Values(trace + [Done(t)]) == Values(trace)
  {
    ValuesSnoc(trace, Done(t));
  }

  /** Settling a loop that kept the trace free of terminals keeps the
      invariant. */
  lemma SettleValid<T, E>(op: Operator<T, E>, c: Consumer<E>, path: Path, end: LoopEnd<T, E>, after: Operator<T, E>)
    requires !op.terminated && op.thrown.None? && !op.upstreamCancelled
    requires path == FromUpstream ==> op.pending.None?
    requires after == op.(cursor := end.loop.cursor, demand := end.loop.demand, pulled := end.loop.pulled, trace := end.loop.trace)
    requires TerminalLast(after.trace) && !HasTerminal(after.trace)
    requires after.pulled + after.demand == after.requested && |after.trace| <= after.pulled
    ensures Valid(Settle(op, c, path, end).0)
  {
    if end.Failed? {
      AppendDone(after.trace, Error(end.error));
    } else if |after.cursor| == 0 && op.pending.Some? {
      AppendDone(after.trace, op.pending.value);
    }
  }

  /** The drain keeps the invariant. */
  lemma DrainValid<T, E>(op: Operator<T, E>, c: Consumer<E>, path: Path)
    requires !op.terminated && op.thrown.None? && !op.upstreamCancelled
    requires path == FromUpstream ==> op.pending.None?
    requires TerminalLast(op.trace) && !HasTerminal(op.trace)
    requires op.pulled + op.demand == op.requested && |op.trace| <= op.pulled
    ensures Valid(Drain(op, c, path).0)
  {
    var l := LoopOf(op);
    var end := Pull(l, c);
    PullDelivers(l, c);
    ValuesItems(op.trace, op.cursor[..Delivered(l, end)]);
    var after := op.(cursor := end.loop.cursor, demand := end.loop.demand, pulled := end.loop.pulled, trace := end.loop.trace);
    SettleValid(op, c, path, end, after);
  }

  // ---------------------------------------------------------------------
  // The drain in closed form

  /** A loop whose deliveries all succeed pulls min(demand, |cursor|) values
      and hands them to downstream in order. */
  lemma PullAll<T, E>(l: Loop<T, E>, c: Consumer<E>)
    requires Healthy(c, l.pulled, Min(l.demand, |l.cursor|))
    ensures var k := Min(l.demand, |l.cursor|);
            Pull(l, c) == Drained(Loop(l.cursor[k..], l.demand - k, l.pulled + k, l.trace + Items(l.cursor[..k])))
  {
    var end := Pull(l, c);
    PullDelivers(l, c);
    PullLeaves(l, c);
    if end.Failed? {
      assert false;
    }
  }

  /** The operator once the drain loop has taken `taken` values from the
      cursor, using up as much demand, and delivered the first `delivered`
      of them. */
  function AfterLoop<T, E>(op: Operator<T, E>, taken: nat, delivered: nat): Operator<T, E>
    requires delivered <= taken <= |op.cursor| && taken <= op.demand
  {
    op.(cursor := op.cursor[taken..], demand := op.demand - taken, pulled := op.pulled + taken,
        trace := op.trace + Items(op.cursor[..delivered]))
  }

  /** With a downstream that processes the next min(demand, |cursor|) values
      without throwing, the drain delivers exactly those values in cursor
      order, consumes that much demand, and lets a deferred terminal through
      exactly when the cursor is emptied. */
  lemma DrainClosedForm<T, E>(op: Operator<T, E>, c: Consumer<E>, path: Path)
    requires !op.terminated && op.thrown.None?
    requires path == FromUpstream ==> op.pending.None?
    requires Healthy(c, op.pulled, Min(op.demand, |op.cursor|))
    ensures var k := Min(op.demand, |op.cursor|);
            Drain(op, c, path) ==
              if k == |op.cursor| && op.pending.Some? then DeliverTerminal(AfterLoop(op, k, k), c, op.pending.value)
              else (AfterLoop(op, k, k), Returned)
  {
    PullAll(LoopOf(op), c);
  }

  /** A loop whose first m deliveries succeed and whose next one throws
      stops there, having pulled m + 1 values and delivered m. */
  lemma {:induction false} PullFails<T, E>(l: Loop<T, E>, c: Consumer<E>, m: nat, e: E)
    requires m < l.demand && m < |l.cursor|
    requires Healthy(c, l.pulled, m) && c.onNextFails(l.pulled + m) == Some(e)
    ensures Pull(l, c) == Failed(Loop(l.cursor[m + 1..], l.demand - m - 1, l.pulled + m + 1, l.trace + Items(l.cursor[..m])), e)
  {
    var end := Pull(l, c);
    PullDelivers(l, c);
    PullLeaves(l, c);
    if end.Drained? {
      assert false;
    }
    assert end.loop.pulled - 1 >= l.pulled + m;
  }

  /** The drain when its (m+1)-th delivery throws: the first m values come
      out and the batch is abandoned with that failure. */
  lemma {:induction false} DrainFails<T, E>(op: Operator<T, E>, c: Consumer<E>, path: Path, m: nat, e: E)
    requires !op.terminated && op.thrown.None?
    requires path == FromUpstream ==> op.pending.None?
    requires m < op.demand && m < |op.cursor|
    requires Healthy(c, op.pulled, m) && c.onNextFails(op.pulled + m) == Some(e)
    ensures Drain(op, c, path) == Abandon(AfterLoop(op, m + 1, m), c, e, path)
  {
    PullFails(LoopOf(op), c, m, e);
  }

  lemma {:induction false} RequestDrains<T, E>(op: Operator<T, E>, c: Consumer<E>, n: nat)
    requires Valid(op) && n > 0 && !op.terminated && op.thrown.None?
    ensures OnRequest(op, c, n) == Drain(op.(demand := op.demand + n, requested := op.requested + n), c, FromDemand)
  {
  }

  lemma {:induction false} EmitDrains<T, E>(op: Operator<T, E>, c: Consumer<E>, batch: seq<T>, releasable: bool)
    requires Valid(op) && AcceptsBatch(op) && !op.terminated && op.thrown.None?
    ensures OnNext(op, c, batch, releasable) ==
              Drain(op.(cursor := batch, releasable := releasable, received := op.received + batch), c, FromUpstream)
  {
  }

  /** request(n) when downstream processes every value it may now take: the
      values come out in cursor order and a deferred terminal follows once
      the cursor is emptied. */
  lemma {:induction false} RequestDelivers<T, E>(op: Operator<T, E>, c: Consumer<E>, n: nat)
    requires Valid(op) && n > 0 && !op.terminated && op.thrown.None?
    requires Healthy(c, op.pulled, Min(op.demand + n, |op.cursor|))
    ensures var more := op.(demand := op.demand + n, requested := op.requested + n);
            var k := Min(more.demand, |more.cursor|);
            OnRequest(op, c, n) ==
              if k == |more.cursor| && more.pending.Some? then DeliverTerminal(AfterLoop(more, k, k), c, more.pending.value)
              else (AfterLoop(more, k, k), Returned)
  {
    RequestDrains(op, c, n);
    DrainClosedForm(op.(demand := op.demand + n, requested := op.requested + n), c, FromDemand);
  }

  /** request(n) when the (m+1)-th value it delivers throws: the first m
      values come out, then the batch is abandoned on the demand path, so
      upstream is cancelled, downstream gets onError with that failure and
      request itself returns normally (see Abandon). */
  lemma {:induction false} RequestFails<T, E>(op: Operator<T, E>, c: Consumer<E>, n: nat, m: nat, e: E)
    requires Valid(op) && n > 0 && !op.terminated && op.thrown.None?
    requires m < op.demand + n && m < |op.cursor|
    requires Healthy(c, op.pulled, m) && c.onNextFails(op.pulled + m) == Some(e)
    ensures var more := op.(demand := op.demand + n, requested := op.requested + n);
            OnRequest(op, c, n) == Abandon(AfterLoop(more, m + 1, m), c, e, FromDemand)
  {
    RequestDrains(op, c, n);
    DrainFails(op.(demand := op.demand + n, requested := op.requested + n), c, FromDemand, m, e);
  }

  /** onNext(batch) when downstream processes every value it may take: the
      batch becomes the cursor and its first min(demand, |batch|) values come
      out in order. */
  lemma {:induction false} EmitDelivers<T, E>(op: Operator<T, E>, c: Consumer<E>, batch: seq<T>, releasable: bool)
    requires Valid(op) && AcceptsBatch(op) && !op.terminated && op.thrown.None?
    requires Healthy(c, op.pulled, Min(op.demand, |batch|))
    ensures var installed := op.(cursor := batch, releasable := releasable, received := op.received + batch);
            var k := Min(installed.demand, |installed.cursor|);
            OnNext(op, c, batch, releasable) == (AfterLoop(installed, k, k), Returned)
  {
    EmitDrains(op, c, batch, releasable);
    DrainClosedForm(op.(cursor := batch, releasable := releasable, received := op.received + batch), c, FromUpstream);
  }

  /** onNext(batch) when the (m+1)-th value it delivers throws: the first m
      values come out, then the batch is abandoned on the upstream path, so
      the failure is thrown to upstream and kept for its terminal, and
      upstream is not cancelled (see Abandon). */
  lemma {:induction false} EmitFails<T, E>(op: Operator<T, E>, c: Consumer<E>, batch: seq<T>, releasable: bool, m: nat, e: E)
    requires Valid(op) && AcceptsBatch(op) && !op.terminated && op.thrown.None?
    requires m < op.demand && m < |batch|
    requires Healthy(c, op.pulled, m) && c.onNextFails(op.pulled + m) == Some(e)
    ensures var installed := op.(cursor := batch, releasable := releasable, received := op.received + batch);
            OnNext(op, c, batch, releasable) == Abandon(AfterLoop(installed, m + 1, m), c, e, FromUpstream)
  {
    EmitDrains(op, c, batch, releasable);
    DrainFails(op.(cursor := batch, releasable := releasable, received := op.received + batch), c, FromUpstream, m, e);
  }

  // ---------------------------------------------------------------------
  // Runs of commands

  /** The calls the operator receives: downstream's request and cancel,
      upstream's onNext, onComplete and onError. */
  datatype Command<T, E> = Request(n: nat) | Emit(batch: seq<T>, releasable: bool) | Terminate(terminal: Terminal<E>) | Cancel

  /** The calling protocol: positive requests, a batch only when the operator
      can take one, and a single upstream terminal. */
  predicate Admissible<T, E>(op: Operator<T, E>, cmd: Command<T, E>) {
    match cmd
    case Request(n) => n > 0
    case Emit(_, _) => AcceptsBatch(op)
    case Terminate(_) => op.terminated || op.pending.None?
    case Cancel => true
  }

  /** One call. Calls only ever extend what downstream has observed, and
      once terminated the operator ignores every call. */
  function Apply<T, E>(op: Operator<T, E>, c: Consumer<E>, cmd: Command<T, E>): (r: (Operator<T, E>, Exit<E>))
    requires Valid(op) && Admissible(op, cmd)
    ensures Valid(r.0)
    ensures op.terminated ==> r == (op, Returned)
  {
    match cmd
    case Request(n) => OnRequest(op, c, n)
    case Emit(batch, releasable) => OnNext(op, c, batch, releasable)
    case Terminate(t) => OnTerminal(op, c, t)
    case Cancel => (OnCancel(op), Returned)
  }

  /** A call never takes back what downstream has observed. */
  lemma ApplyExtends<T, E>(op: Operator<T, E>, c: Consumer<E>, cmd: Command<T, E>)
    requires Valid(op) && Admissible(op, cmd)
    ensures op.trace <= Apply(op, c, cmd).0.trace
  {
    if !op.terminated && op.thrown.None? {
      match cmd
      case Request(n) =>
        RequestDrains(op, c, n);
        DrainExtends(op.(demand := op.demand + n, requested := op.requested + n), c, FromDemand);
      case Emit(batch, releasable) =>
        EmitDrains(op, c, batch, releasable);
        DrainExtends(op.(cursor := batch, releasable := releasable, received := op.received + batch), c, FromUpstream);
      case _ =>
    }
  }

  /** The drain only appends to the trace. */
  lemma DrainExtends<T, E>(op: Operator<T, E>, c: Consumer<E>, path: Path)
    requires !op.terminated && op.thrown.None?
    requires path == FromUpstream ==> op.pending.None?
    ensures op.trace <= Drain(op, c, path).0.trace
  {
    PullDelivers(LoopOf(op), c);
  }

  /** The result of a run: the final operator and how each call returned, or
      the index of the first call that broke the calling protocol. */
  datatype RunResult<T, E> = Ran(op: Operator<T, E>, exits: seq<Exit<E>>) | Refused(at: nat)

  /** A sequence of calls. Downstream never sees more values than it
      requested, and what it sees only grows. */
  function Run<T, E>(op: Operator<T, E>, c: Consumer<E>, cmds: seq<Command<T, E>>): (r: RunResult<T, E>)
    requires Valid(op)
    ensures r.Ran? ==> Valid(r.op) && |r.exits| == |cmds| && op.trace <= r.op.trace
    ensures r.Ran? ==> |Values(r.op.trace)| + r.op.demand <= r.op.requested
    ensures r.Refused? ==> r.at < |cmds|
    decreases |cmds|
  {
    if |cmds| == 0 then
      ValuesCount(op.trace);
      Ran(op, [])
    else if !Admissible(op, cmds[0]) then Refused(0)
    else
      var (next, exit) := Apply(op, c, cmds[0]);
      ApplyExtends(op, c, cmds[0]);
      match Run(next, c, cmds[1..])
      case Ran(last, exits) => Ran(last, [exit] + exits)
      case Refused(k) => Refused(k + 1)
  }

  /** Once terminated, every admissible call returns normally and changes
      nothing. */
  lemma {:induction false} TerminatedAbsorbs<T, E>(op: Operator<T, E>, c: Consumer<E>, cmds: seq<Command<T, E>>)
    requires Valid(op) && op.terminated
    ensures Run(op, c, cmds).Ran? ==>
              Run(op, c, cmds).op == op && forall k :: 0 <= k < |cmds| ==> Run(op, c, cmds).exits[k] == Returned
    decreases |cmds|
  {
    if |cmds| > 0 && Admissible(op, cmds[0]) {
      TerminatedAbsorbs(op, c, cmds[1..]);
      var r := Run(op, c, cmds);
      if r.Ran? {
        forall k | 0 <= k < |cmds| ensures r.exits[k] == Returned {
          if k > 0 {
            assert r.exits[k] == Run(op, c, cmds[1..]).exits[k - 1];
          }
        }
      }
    }
  }

  /** A second cancel changes nothing. */
  lemma CancelIdempotent<T, E>(op: Operator<T, E>)
    requires Valid(op)
    ensures OnCancel(OnCancel(op)) == OnCancel(op)
  {
  }

  // ---------------------------------------------------------------------
  // Flattening order

  /** A downstream whose processing of values never throws. */
  ghost predicate NeverFails<E>(c: Consumer<E>) {
    forall j :: c.onNextFails(j).None?
  }

  /** The values delivered are the batches' values in arrival order: all of
      them but those still in the cursor, or, after a cancel, a prefix. */
  ghost predicate Flattened<T, E>(op: Operator<T, E>) {
    if op.upstreamCancelled then Values(op.trace) <= op.received
    else op.thrown.None? && Values(op.trace) + op.cursor == op.received
  }

  lemma SettleFlattens<T, E>(op: Operator<T, E>, c: Consumer<E>, path: Path, end: LoopEnd<T, E>, after: Operator<T, E>)
    requires !op.terminated && op.thrown.None? && !op.upstreamCancelled
    requires path == FromUpstream ==> op.pending.None?
    requires end.Drained?
    requires after == op.(cursor := end.loop.cursor, demand := end.loop.demand, pulled := end.loop.pulled, trace := end.loop.trace)
    requires TerminalLast(after.trace) && !HasTerminal(after.trace)
    requires Values(after.trace) + after.cursor == op.received
    ensures Flattened(Settle(op, c, path, end).0)
  {
    if |after.cursor| == 0 && op.pending.Some? {
      AppendDone(after.trace, op.pending.value);
    }
  }

  /** With a downstream that never throws, the loop over an operator's cursor
      ends drained, in the state AfterLoop describes. */
  lemma PullAllOf<T, E>(op: Operator<T, E>, c: Consumer<E>)
    requires NeverFails(c)
    ensures var k := Min(op.demand, |op.cursor|);
            var after := AfterLoop(op, k, k);
            Pull(LoopOf(op), c) == Drained(Loop(after.cursor, after.demand, after.pulled, after.trace))
  {
    var k := Min(op.demand, |op.cursor|);
    var l := LoopOf(op);
    assert Healthy(c, l.pulled, k);
    PullAll(l, c);
  }

  /** Delivering a prefix of a flattened cursor keeps the delivered values
      followed by what is left equal to what arrived. */
  lemma AfterLoopFlattens<T, E>(op: Operator<T, E>, k: nat)
    requires k <= |op.cursor| && k <= op.demand
    requires TerminalLast(op.trace) && !HasTerminal(op.trace)
    requires Values(op.trace) + op.cursor == op.received
    ensures var after := AfterLoop(op, k, k);
            TerminalLast(after.trace) && !HasTerminal(after.trace) &&
            Values(after.trace) + after.cursor == op.received
  {
    var head := op.cursor[..k];
    ValuesItems(op.trace, head);
    assert head + op.cursor[k..] == op.cursor;
  }

  lemma DrainFlattens<T, E>(op: Operator<T, E>, c: Consumer<E>, path: Path)
    requires !op.terminated && op.thrown.None? && !op.upstreamCancelled
    requires path == FromUpstream ==> op.pending.None?
    requires NeverFails(c) && TerminalLast(op.trace) && !HasTerminal(op.trace)
    requires Values(op.trace) + op.cursor == op.received
    ensures Flattened(Drain(op, c, path).0)
  {
    var k := Min(op.demand, |op.cursor|);
    PullAllOf(op, c);
    AfterLoopFlattens(op, k);
    SettleFlattens(op, c, path, Pull(LoopOf(op), c), AfterLoop(op, k, k));
  }

  lemma RequestFlattens<T, E>(op: Operator<T, E>, c: Consumer<E>, n: nat)
    requires Valid(op) && n > 0 && NeverFails(c) && Flattened(op) && !op.terminated
    ensures Flattened(OnRequest(op, c, n).0)
  {
    RequestDrains(op, c, n);
    DrainFlattens(op.(demand := op.demand + n, requested := op.requested + n), c, FromDemand);
  }

  lemma EmitFlattens<T, E>(op: Operator<T, E>, c: Consumer<E>, batch: seq<T>, releasable: bool)
    requires Valid(op) && AcceptsBatch(op) && NeverFails(c) && Flattened(op) && !op.terminated
    ensures Flattened(OnNext(op, c, batch, releasable).0)
  {
    var installed := op.(cursor := batch, releasable := releasable, received := op.received + batch);
    EmitDrains(op, c, batch, releasable);
    assert Values(installed.trace) + installed.cursor == installed.received;
    DrainFlattens(installed, c, FromUpstream);
  }

  lemma TerminateFlattens<T, E>(op: Operator<T, E>, c: Consumer<E>, t: Terminal<E>)
    requires Valid(op) && op.pending.None? && Flattened(op) && !op.terminated
    ensures Flattened(OnTerminal(op, c, t).0)
  {
    if |op.cursor| == 0 {
      ValuesSnoc(op.trace, Done(t));
    }
  }

  /** Every call keeps the flattening order, for a downstream that never
      throws while processing values. */
  lemma ApplyFlattens<T, E>(op: Operator<T, E>, c: Consumer<E>, cmd: Command<T, E>)
    requires Valid(op) && Admissible(op, cmd) && NeverFails(c) && Flattened(op)
    ensures Flattened(Apply(op, c, cmd).0)
  {
    if !op.terminated {
      match cmd
      case Request(n) => RequestFlattens(op, c, n);
      case Emit(batch, releasable) => EmitFlattens(op, c, batch, releasable);
      case Terminate(t) => TerminateFlattens(op, c, t);
      case Cancel => assert Values(op.trace) <= Values(op.trace) + op.cursor;
    }
  }

  /** For a downstream that never throws while processing values, what it
      receives is the concatenation of the accepted batches, in arrival
      order: everything not still in the cursor, or a prefix of it after a
      cancel. */
  lemma {:induction false} RunFlattens<T, E>(op: Operator<T, E>, c: Consumer<E>, cmds: seq<Command<T, E>>)
    requires Valid(op) && NeverFails(c) && Flattened(op)
    ensures Run(op, c, cmds).Ran? ==> Flattened(Run(op, c, cmds).op)
    decreases |cmds|
  {
    if |cmds| > 0 && Admissible(op, cmds[0]) {
      ApplyFlattens(op, c, cmds[0]);
      RunFlattens(Apply(op, c, cmds[0]).0, c, cmds[1..]);
    }
  }
}
