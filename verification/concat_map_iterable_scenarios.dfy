/** The scenarios of the operator's unit tests, replayed on the model: the
    calls a test makes and what downstream observes after each. A scenario
    starts from a fresh operator (Init is one) or from the state an earlier
    scenario leaves, and holds for any values and any downstream that
    throws exactly where the test's downstream throws. */
module ConcatMapIterableScenarios {
  import opened Wrappers
  import opened ConcatMapIterable

  /** A downstream whose callbacks never throw. */
  ghost predicate Quiet<E>(c: Consumer<E>) {
    NeverFails(c) && c.onCompleteFails.None? && c.onErrorFails.None?
  }

  /** request(n) then a batch, on an operator with nothing left to deliver
      (a fresh one, or one whose last batch is exhausted): the first
      min(demand, |batch|) values come out in order, the rest stay in the
      cursor with the demand used up, and nothing is terminated, released or
      cancelled. */
  lemma RequestThenBatch<T, E>(op: Operator<T, E>, c: Consumer<E>, n: nat, batch: seq<T>, releasable: bool)
    requires Valid(op) && NeverFails(c) && n > 0 && !op.terminated && op.thrown.None? && op.cursor == []
    ensures var op1 := Apply(op, c, Request(n)).0;
            var r2 := Apply(op1, c, Emit(batch, releasable));
            var k := Min(op.demand + n, |batch|);
            && op1.trace == op.trace && op1.demand == op.demand + n
            && r2.1 == Returned && r2.0.trace == op.trace + Items(batch[..k]) && r2.0.cursor == batch[k..]
            && r2.0.demand == op.demand + n - k && r2.0.releasable == releasable
            && !r2.0.terminated && r2.0.pending.None? && r2.0.thrown.None?
            && r2.0.upstreamCancelled == op.upstreamCancelled && r2.0.released == op.released
  {
    var op1 := Apply(op, c, Request(n)).0;
    assert op1 == op.(demand := op.demand + n, requested := op.requested + n) by {
      RequestDelivers(op, c, n);
    }
    EmitDelivers(op1, c, batch, releasable);
  }

  /** A request for one more value while the current batch still has some:
      the next value comes out and nothing else changes for downstream. */
  lemma RequestResumesBatch<T, E>(op: Operator<T, E>, c: Consumer<E>, v: T, rest: seq<T>)
    requires Valid(op) && NeverFails(c) && !op.terminated && op.thrown.None? && op.pending.None?
    requires op.cursor == [v] + rest && op.demand == 0
    ensures var r := Apply(op, c, Request(1));
            && r.1 == Returned && r.0.trace == op.trace + [Item(v)] && r.0.cursor == rest
            && r.0.demand == 0 && !r.0.terminated
  {
    RequestDelivers(op, c, 1);
    assert op.cursor[..1] == [v];
  }

  /** Requests made while the operator has nothing to deliver add up to one
      request of the sum. */
  lemma RequestsAccumulate<T, E>(op: Operator<T, E>, c: Consumer<E>, a: nat, b: nat)
    requires Valid(op) && !op.terminated && op.thrown.None? && op.cursor == [] && a > 0 && b > 0
    ensures Apply(Apply(op, c, Request(a)).0, c, Request(b)) == Apply(op, c, Request(a + b))
  {
    var op1 := Apply(op, c, Request(a)).0;
    assert op1 == op.(demand := op.demand + a, requested := op.requested + a) by {
      RequestDelivers(op, c, a);
    }
    RequestDelivers(op1, c, b);
    RequestDelivers(op, c, a + b);
  }

  /** A terminal that arrives while values remain waits for them: it is not
      delivered, and the request that takes the last value delivers it right
      after that value. Upstream is not cancelled. */
  lemma DeferredTerminalFollowsLastValue<T, E>(op: Operator<T, E>, c: Consumer<E>, v: T, t: Terminal<E>)
    requires Valid(op) && Quiet(c) && !op.terminated && op.thrown.None? && op.pending.None?
    requires op.cursor == [v] && op.demand == 0
    ensures var op1 := Apply(op, c, Terminate(t)).0;
            var r2 := Apply(op1, c, Request(1));
            && op1.trace == op.trace && !op1.terminated
            && r2.1 == Returned && r2.0.trace == op.trace + [Item(v), Done(t)] && r2.0.terminated
            && r2.0.upstreamCancelled == op.upstreamCancelled
  {
    var op1 := Apply(op, c, Terminate(t)).0;
    assert op1 == op.(pending := Some(t));
    RequestDelivers(op1, c, 1);
    assert op.cursor[..1] == [v];
  }

  /** A terminal that arrives with nothing left to deliver goes straight to
      downstream; upstream is not cancelled. */
  lemma TerminalWhenIdle<T, E>(op: Operator<T, E>, c: Consumer<E>, t: Terminal<E>)
    requires Valid(op) && Quiet(c) && !op.terminated && op.thrown.None? && op.cursor == []
    ensures var r := Apply(op, c, Terminate(t));
            && r.1 == Returned && r.0.trace == op.trace + [Done(t)] && r.0.terminated
            && r.0.upstreamCancelled == op.upstreamCancelled
  {
  }

  /** A terminal callback that throws: the failure propagates to upstream's
      onComplete or onError call; the operator is terminated and downstream
      observed nothing. */
  lemma TerminalCallbackThrows<T, E>(op0: Operator<T, E>, c: Consumer<E>, t: Terminal<E>, e: E)
    requires Fresh(op0) && (if t.Complete? then c.onCompleteFails else c.onErrorFails) == Some(e)
    ensures var r := Apply(op0, c, Terminate(t));
            r.1 == Threw(e) && r.0.trace == [] && r.0.terminated && !r.0.upstreamCancelled
  {
  }

  /** Cancel while a batch still has values: the batch's release handle is
      invoked and upstream is cancelled; what downstream saw stays as it was. */
  lemma CancelReleasesBatch<T, E>(op: Operator<T, E>)
    requires Valid(op) && !op.terminated && |op.cursor| > 0 && op.releasable
    ensures var op1 := OnCancel(op);
            op1.released && op1.upstreamCancelled && op1.terminated && op1.trace == op.trace
  {
  }

  /** A value whose processing throws while onNext delivers it: the failure
      is thrown to upstream's onNext, downstream sees no terminal yet, and
      upstream is not cancelled. */
  lemma OnNextFailureIsThrown<T, E>(op0: Operator<T, E>, c: Consumer<E>, n: nat, batch: seq<T>, releasable: bool, e: E)
    requires Fresh(op0) && n > 0 && |batch| > 0 && c.onNextFails(0) == Some(e)
    ensures var op1 := Apply(op0, c, Request(n)).0;
            var r2 := Apply(op1, c, Emit(batch, releasable));
            && r2.1 == Threw(e) && r2.0.trace == [] && r2.0.thrown == Some(e) && r2.0.cursor == []
            && !r2.0.terminated && !r2.0.upstreamCancelled
  {
    var op1 := Apply(op0, c, Request(n)).0;
    assert op1 == op0.(demand := n, requested := n) by {
      RequestDelivers(op0, c, n);
    }
    EmitFails(op1, c, batch, releasable, 0, e);
    assert batch[..0] == [];
  }

  /** After onNext has thrown, upstream's terminal, whichever it is, reaches
      downstream as onError with the thrown failure. */
  lemma ThrownFailureSurfacesAtTerminal<T, E>(op: Operator<T, E>, c: Consumer<E>, t: Terminal<E>, e: E)
    requires Valid(op) && !op.terminated && op.thrown == Some(e) && c.onErrorFails.None?
    ensures var r := Apply(op, c, Terminate(t));
            r.1 == Returned && r.0.trace == op.trace + [Done(Error(e))] && r.0.terminated
            && r.0.upstreamCancelled == op.upstreamCancelled
  {
  }

  /** A batch that arrives before any demand waits; the request whose first
      value throws returns normally, cancels upstream and hands downstream
      onError with that failure instead of the value. */
  lemma RequestFailureCancelsUpstream<T, E>(op0: Operator<T, E>, c: Consumer<E>, batch: seq<T>, releasable: bool, e: E)
    requires Fresh(op0) && |batch| > 0 && c.onNextFails(0) == Some(e) && c.onErrorFails.None?
    ensures var op1 := Apply(op0, c, Emit(batch, releasable)).0;
            var r2 := Apply(op1, c, Request(1));
            && op1.trace == [] && op1.cursor == batch
            && r2.1 == Returned && r2.0.trace == [Done(Error(e))] && r2.0.terminated && r2.0.upstreamCancelled
  {
    var op1 := Apply(op0, c, Emit(batch, releasable)).0;
    assert op1 == op0.(cursor := batch, releasable := releasable, received := batch) by {
      EmitDelivers(op0, c, batch, releasable);
    }
    RequestFails(op1, c, 1, 0, e);
    assert batch[..0] == [];
  }

  /** Once terminated, later requests and batches deliver nothing. */
  lemma NothingAfterTermination<T, E>(op: Operator<T, E>, c: Consumer<E>, n: nat, batch: seq<T>, releasable: bool)
    requires Valid(op) && op.terminated && n > 0
    ensures var op1 := Apply(op, c, Request(n)).0;
            var r2 := Apply(op1, c, Emit(batch, releasable));
            r2 == (op, Returned)
  {
  }
}
