/** The period limit over whole runs of transfers (programs/issuer-forge/src/hook/execute.rs). */
module ProgramVelocity {
  import opened Common
  import opened PolicyModel
  import opened PolicyLayout
  import opened PolicyDecoding
  import opened Refusals
  import opened TransferRules
  import opened ProgramRules

  /** The counter after a transfer of this amount was allowed. */
  function Counted(counter: VelocityCounter, windowSeconds: nat, amount: int, now: int): VelocityCounter {
    if now >= SaturateI64(counter.windowStart + windowSeconds) then VelocityCounter(now, amount)
    else counter.(spentInWindow := SaturateU64(counter.spentInWindow + amount))
  }

  /** One call of the hook: the verdict and the counter it leaves behind, if the sender has one. */
  function HookStep(view: PolicyView, counter: Option<VelocityCounter>, ctx: TransferContext)
    : (Verdict, Option<VelocityCounter>)
  {
    var verdict := ProgramVerdict(view, ctx.(velocity := counter));
    (verdict,
     if verdict == Allowed && counter.Some? && view.periodLimit.Some?
     then Some(Counted(counter.value, Max(0, view.periodLimit.value.windowSeconds), ctx.amount, ctx.now)) else counter)
  }

  /** The sender's counter account, the only one the hook writes; it may not have been created. */
  class CounterAccount {
    var counter: Option<VelocityCounter>

    constructor (counter: Option<VelocityCounter>)
      ensures this.counter == counter
    {
      this.counter := counter;
    }

    /** The transfer is judged with the counter as it is; what it spends is written once it is allowed. */
    method Execute(slots: seq<Slot>, ctx: TransferContext) returns (verdict: Verdict)
      requires WellSized(slots)
      modifies this
      ensures (verdict, counter) == HookStep(ViewOf(slots), old(counter), ctx)
      ensures verdict != Allowed || old(counter).None? ==> counter == old(counter)
    {
      verdict := EvaluateSlots(slots, ctx.(velocity := counter));
      if verdict != Allowed { return; }
      var policy := ReadPolicy(slots);
      if counter.Some? && policy.periodLimit.Some? {
        var current, windowSeconds := counter.value, policy.periodLimit.value.windowSeconds;
        var closed := ctx.now >= SaturateI64(current.windowStart + Max(0, windowSeconds));
        if closed {
          counter := Some(VelocityCounter(ctx.now, ctx.amount));
        } else {
          counter := Some(current.(spentInWindow := SaturateU64(current.spentInWindow + ctx.amount)));
        }
      }
    }
  }

  /** Under a period limit nothing passes for a sender without a counter. */
  lemma NoCounterNoTransfer(view: PolicyView, ctx: TransferContext)
    requires view.periodLimit.Some?
    ensures HookStep(view, None, ctx).0 != Allowed
  {
    var without := ctx.(velocity := None);
    ProgramVerdictIsFirst(view, without);
    var f := c => ProgramFails(c, view, without);
    assert f(VelocityCounterMissing);
  }

  // ─── Runs ──────────────────────────────────────────────────────────────────

  /** A transfer that went through, when, and the start of the window it was counted in. */
  datatype Sent = Sent(window: int, amount: int, at: int)

  function TotalIn(sent: seq<Sent>, window: int): int {
    if sent == [] then 0
    else TotalIn(sent[..|sent| - 1], window)
         + if sent[|sent| - 1].window == window then sent[|sent| - 1].amount else 0
  }

  datatype Ledger = Ledger(counter: VelocityCounter, sent: seq<Sent>)

  function Next(view: PolicyView, ledger: Ledger, ctx: TransferContext): Ledger {
    var (verdict, counter) := HookStep(view, Some(ledger.counter), ctx);
    Ledger(counter.value,
           if verdict == Allowed then ledger.sent + [Sent(counter.value.windowStart, ctx.amount, ctx.now)] else ledger.sent)
  }

  function Run(view: PolicyView, ledger: Ledger, transfers: seq<TransferContext>): Ledger {
    if transfers == [] then ledger
    else Next(view, Run(view, ledger, transfers[..|transfers| - 1]), transfers[|transfers| - 1])
  }

  /** The window opened with the counter, or with a transfer that went through. */
  predicate Opened(start: VelocityCounter, sent: seq<Sent>, window: int) {
    window == start.windowStart || exists i :: 0 <= i < |sent| && sent[i].at == sent[i].window == window
  }

  /** One window ends before the other begins. */
  predicate Apart(limit: PeriodLimit, v: int, w: int) {
    v == w || v + limit.windowSeconds <= w || w + limit.windowSeconds <= v
  }

  /**
   * What every transfer keeps: the counter is what was sent in its window and what it held at the
   * start; windows open with a transfer, last as long as the limit says and do not overlap; each
   * transfer is counted before its window ends; and no window, past or current, holds more than
   * the limit.
   */
  ghost predicate Kept(limit: PeriodLimit, start: VelocityCounter, ledger: Ledger) {
    var Ledger(counter, sent) := ledger;
    && IsMoment(counter.windowStart) && 0 <= counter.spentInWindow
    && Opened(start, sent, counter.windowStart)
    && (forall i :: 0 <= i < |sent| ==>
          && sent[i].at < sent[i].window + limit.windowSeconds && Opened(start, sent, sent[i].window)
          && (sent[i].window == counter.windowStart || sent[i].window + limit.windowSeconds <= counter.windowStart))
    && (forall i, j :: 0 <= i < j < |sent| ==> Apart(limit, sent[i].window, sent[j].window))
    && (forall w :: TotalIn(sent, w) <= limit.amount)
    && (start.windowStart == counter.windowStart || start.windowStart + limit.windowSeconds <= counter.windowStart)
    && counter.spentInWindow == TotalIn(sent, counter.windowStart)
                                + if counter.windowStart == start.windowStart then start.spentInWindow else 0
  }

  lemma {:induction false} NothingSentIn(sent: seq<Sent>, window: int)
    requires forall i :: 0 <= i < |sent| ==> sent[i].window != window
    ensures TotalIn(sent, window) == 0
  {
    if sent != [] {
      var before := sent[..|sent| - 1];
      assert forall i :: 0 <= i < |before| ==> before[i] == sent[i];
      NothingSentIn(before, window);
    }
  }

  lemma AllowedFits(view: PolicyView, limit: PeriodLimit, counter: VelocityCounter, ctx: TransferContext)
    requires view.periodLimit == Some(limit) && limit.amount < U64_MAX
    requires ProgramVerdict(view, ctx.(velocity := Some(counter))) == Allowed
    ensures
      var windowEnd := SaturateI64(counter.windowStart + limit.windowSeconds);
      (if ctx.now < windowEnd then counter.spentInWindow else 0) + ctx.amount <= limit.amount
  {
    var counted := ctx.(velocity := Some(counter));
    ProgramVerdictIsFirst(view, counted);
    var f := c => ProgramFails(c, view, counted);
    assert FirstFailing(f, Allowed);
    assert !f(PeriodLimitExceeded);
  }

  lemma OpenedStays(start: VelocityCounter, sent: seq<Sent>, entry: Sent, window: int)
    requires Opened(start, sent, window)
    ensures Opened(start, sent + [entry], window)
  {
    if window != start.windowStart {
      var i :| 0 <= i < |sent| && sent[i].at == sent[i].window == window;
      assert (sent + [entry])[i] == sent[i];
    }
  }

  lemma TotalAfter(sent: seq<Sent>, entry: Sent, window: int)
    ensures TotalIn(sent + [entry], window) == TotalIn(sent, window) + if entry.window == window then entry.amount else 0
  {
    assert (sent + [entry])[..|sent|] == sent;
  }

  /** The window a transfer falls in, after the one before it: the same while that runs, else a new one from now. */
  lemma CountedIn(limit: PeriodLimit, counter: VelocityCounter, amount: int, now: int)
    requires IsMoment(counter.windowStart) && IsMoment(now) && 0 <= counter.spentInWindow && 0 <= amount
    requires MIN_PERIOD_SECONDS <= limit.windowSeconds <= MAX_PERIOD_SECONDS && limit.amount < U64_MAX
    requires (if now < counter.windowStart + limit.windowSeconds then counter.spentInWindow else 0) + amount <= limit.amount
    ensures
      Counted(counter, limit.windowSeconds, amount, now)
      == if now < counter.windowStart + limit.windowSeconds
         then VelocityCounter(counter.windowStart, counter.spentInWindow + amount) else VelocityCounter(now, amount)
  {
  }

  lemma KeptByTransfer(view: PolicyView, limit: PeriodLimit, start: VelocityCounter, ledger: Ledger, ctx: TransferContext)
    requires view.periodLimit == Some(limit) && 0 < limit.amount < U64_MAX
    requires MIN_PERIOD_SECONDS <= limit.windowSeconds <= MAX_PERIOD_SECONDS
    requires Kept(limit, start, ledger) && 0 <= start.spentInWindow && 0 <= ctx.amount && IsMoment(ctx.now)
    ensures Kept(limit, start, Next(view, ledger, ctx))
  {
    if HookStep(view, Some(ledger.counter), ctx).0 == Allowed {
      AllowedFits(view, limit, ledger.counter, ctx);
      CountedIn(limit, ledger.counter, ctx.amount, ctx.now);
      var counter := Counted(ledger.counter, limit.windowSeconds, ctx.amount, ctx.now);
      var entry := Sent(counter.windowStart, ctx.amount, ctx.now);
      assert Next(view, ledger, ctx) == Ledger(counter, ledger.sent + [entry]);
      KeptByEntry(limit, start, ledger, counter, entry);
    }
  }

  lemma KeptByEntry(limit: PeriodLimit, start: VelocityCounter, ledger: Ledger, counter: VelocityCounter, entry: Sent)
    requires Kept(limit, start, ledger) && 0 <= start.spentInWindow && 0 <= entry.amount && IsMoment(entry.at)
    requires 0 < limit.windowSeconds && entry.window == counter.windowStart
    requires
      if entry.at < ledger.counter.windowStart + limit.windowSeconds
      then counter == VelocityCounter(ledger.counter.windowStart, ledger.counter.spentInWindow + entry.amount)
      else counter == VelocityCounter(entry.at, entry.amount)
    requires counter.spentInWindow <= limit.amount
    ensures Kept(limit, start, Ledger(counter, ledger.sent + [entry]))
  {
    var sent, more := ledger.sent, ledger.sent + [entry];
    forall w ensures TotalIn(more, w) == TotalIn(sent, w) + if entry.window == w then entry.amount else 0 {
      TotalAfter(sent, entry, w);
    }
    forall i | 0 <= i < |sent| ensures Opened(start, more, sent[i].window) {
      OpenedStays(start, sent, entry, sent[i].window);
    }
    if entry.window == ledger.counter.windowStart {
      OpenedStays(start, sent, entry, entry.window);
    } else {
      assert more[|sent|] == entry;
      NothingSentIn(sent, entry.window);
    }
  }

  /**
   * Over any run of transfers, at any times and between any parties, what goes through in one
   * window of the sender's counter never sums to more than the period limit, and the counter is
   * exactly what its window let through.
   */
  lemma {:induction false} WindowNeverOverspent(view: PolicyView, limit: PeriodLimit, start: VelocityCounter,
                                                transfers: seq<TransferContext>)
    requires view.periodLimit == Some(limit) && 0 < limit.amount < U64_MAX
    requires MIN_PERIOD_SECONDS <= limit.windowSeconds <= MAX_PERIOD_SECONDS
    requires IsMoment(start.windowStart) && 0 <= start.spentInWindow
    requires forall i :: 0 <= i < |transfers| ==> 0 <= transfers[i].amount && IsMoment(transfers[i].now)
    ensures Kept(limit, start, Run(view, Ledger(start, []), transfers))
    ensures forall w :: TotalIn(Run(view, Ledger(start, []), transfers).sent, w) <= limit.amount
  {
    if transfers != [] {
      var n := |transfers| - 1;
      WindowNeverOverspent(view, limit, start, transfers[..n]);
      KeptByTransfer(view, limit, start, Run(view, Ledger(start, []), transfers[..n]), transfers[n]);
    }
  }

  /** Every check but the period limit passes, whatever the counter holds. */
  ghost predicate PassesOtherwise(view: PolicyView, ctx: TransferContext) {
    forall counter, c :: c != PeriodLimitExceeded ==> !ProgramFails(c, view, ctx.(velocity := Some(counter)))
  }

  lemma CeilingAllows(view: PolicyView, limit: PeriodLimit, counter: VelocityCounter, ctx: TransferContext)
    requires view.periodLimit == Some(limit) && limit.amount == U64_MAX && PassesOtherwise(view, ctx)
    ensures ProgramVerdict(view, ctx.(velocity := Some(counter))) == Allowed
  {
    var counted := ctx.(velocity := Some(counter));
    ProgramVerdictIsFirst(view, counted);
    var f := c => ProgramFails(c, view, counted);
    forall c ensures !f(c) { if c == PeriodLimitExceeded { assert !ProgramPeriodExceeded(view, counted); } }
  }

  /**
   * At the u64 ceiling there is no limit: the saturated sum never exceeds it, and the same transfer
   * of that amount goes through twice in one window.
   */
  lemma CeilingOverspends(view: PolicyView, limit: PeriodLimit, now: int, ctx: TransferContext)
    requires view.periodLimit == Some(limit) && limit.amount == U64_MAX && PassesOtherwise(view, ctx)
    requires MIN_PERIOD_SECONDS <= limit.windowSeconds <= MAX_PERIOD_SECONDS
    requires IsMoment(now) && ctx.now == now && ctx.amount == U64_MAX
    ensures TotalIn(Run(view, Ledger(VelocityCounter(now, 0), []), [ctx, ctx]).sent, now) == 2 * limit.amount
  {
    var start := Ledger(VelocityCounter(now, 0), []);
    var once, twice := Next(view, start, ctx), Next(view, Next(view, start, ctx), ctx);
    CeilingAllows(view, limit, start.counter, ctx);
    CeilingAllows(view, limit, once.counter, ctx);
    assert [ctx, ctx][..1] == [ctx] && [ctx][..0] == [];
    assert Run(view, start, [ctx]) == once;
    assert once.sent == [Sent(now, U64_MAX, now)] && twice.sent == [Sent(now, U64_MAX, now), Sent(now, U64_MAX, now)];
    assert once.sent[..0] == [] && twice.sent[..1] == once.sent;
    assert TotalIn(once.sent, now) == U64_MAX;
  }
}
