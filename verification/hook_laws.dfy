/** What the hook's verdict means in terms of the records and the times themselves. */
module HookLaws {
  import opened Common
  import opened PolicyModel
  import opened PolicyLayout
  import opened PolicyDecoding
  import opened Refusals
  import opened TransferRules
  import opened TransferLaws
  import opened ProgramLayout
  import opened ProgramRules

  lemma SamePartiesFailTheSame(view: PolicyView, ctx: TransferContext, other: TransferContext, code: RefusalCode)
    requires other == ctx.(sender := other.sender, recipient := other.recipient)
    requires ProgramViewOf(other.sender, view, ctx.now) == ProgramViewOf(ctx.sender, view, ctx.now)
    requires ProgramViewOf(other.recipient, view, ctx.now) == ProgramViewOf(ctx.recipient, view, ctx.now)
    ensures ProgramFails(code, view, other) <==> ProgramFails(code, view, ctx)
  {
  }

  lemma SamePartiesSameVerdict(view: PolicyView, ctx: TransferContext, other: TransferContext)
    requires other == ctx.(sender := other.sender, recipient := other.recipient)
    requires ProgramViewOf(other.sender, view, ctx.now) == ProgramViewOf(ctx.sender, view, ctx.now)
    requires ProgramViewOf(other.recipient, view, ctx.now) == ProgramViewOf(ctx.recipient, view, ctx.now)
    ensures ProgramVerdict(view, other) == ProgramVerdict(view, ctx)
  {
    ProgramVerdictIsFirst(view, ctx);
    ProgramVerdictIsFirst(view, other);
    var f := c => ProgramFails(c, view, ctx);
    var g := c => ProgramFails(c, view, other);
    forall c ensures f(c) <==> g(c) { SamePartiesFailTheSame(view, ctx, other, c); }
    SameFailuresSameVerdict(f, g, ProgramVerdict(view, ctx), ProgramVerdict(view, other));
  }

  /** Until the second it expires a register record counts as one that never does, and from that second on as none. */
  lemma RegisterCountsForHook(view: PolicyView, ctx: TransferContext, side: Side, record: StatusRecord, e: int)
    requires PartyOn(ctx, side).register == Recorded(record) && record.expiresAt == Some(e)
    ensures ctx.now < e ==>
              ProgramVerdict(view, WithRegister(ctx, side, Recorded(record.(expiresAt := None)))) == ProgramVerdict(view, ctx)
    ensures ctx.now >= e ==> ProgramVerdict(view, WithRegister(ctx, side, Absent)) == ProgramVerdict(view, ctx)
  {
    if ctx.now < e {
      SamePartiesSameVerdict(view, ctx, WithRegister(ctx, side, Recorded(record.(expiresAt := None))));
    } else {
      SamePartiesSameVerdict(view, ctx, WithRegister(ctx, side, Absent));
    }
  }

  /** A provider record counts as one issued this second that never expires while it is neither expired nor too old, otherwise as none. */
  lemma ProviderCountsForHook(view: PolicyView, ctx: TransferContext, side: Side, status: ProviderStatus)
    requires PartyOn(ctx, side).provider == Recorded(status) && IsMoment(status.issuedAt) && IsMoment(ctx.now)
    ensures
      var lasting := ProviderStatus(status.record.(expiresAt := None), ctx.now);
      var counts := && (status.record.expiresAt.Some? ==> ctx.now < status.record.expiresAt.value)
                    && (view.maxAge.Some? ==> ctx.now - status.issuedAt <= view.maxAge.value);
      ProgramVerdict(view, ctx)
      == ProgramVerdict(view, WithProvider(ctx, side, if counts then Recorded(lasting) else Absent))
  {
    var lasting := ProviderStatus(status.record.(expiresAt := None), ctx.now);
    if (status.record.expiresAt.Some? ==> ctx.now < status.record.expiresAt.value)
       && (view.maxAge.Some? ==> ctx.now - status.issuedAt <= view.maxAge.value) {
      SamePartiesSameVerdict(view, ctx, WithProvider(ctx, side, Recorded(lasting)));
    } else {
      SamePartiesSameVerdict(view, ctx, WithProvider(ctx, side, Absent));
    }
  }

  /** A slot of a kind the program does not know is never passed over: no transfer is allowed, and it is the reason when there is no other. */
  lemma UnknownKindNeverPasses(slots: seq<Slot>, ctx: TransferContext)
    requires WellSized(slots) && exists i :: 0 <= i < |slots| && slots[i].kind > 4
    ensures ProgramVerdict(ViewOf(slots), ctx).Refused?
    ensures (forall c :: c != UnknownRuleKind ==> !ProgramFails(c, ViewOf(slots), ctx)) ==>
              ProgramVerdict(ViewOf(slots), ctx) == Refused(UnknownRuleKind)
  {
    var view := ViewOf(slots);
    var f := c => ProgramFails(c, view, ctx);
    ProgramVerdictIsFirst(view, ctx);
    assert FirstFailing(f, ProgramVerdict(view, ctx));
    assert f(UnknownRuleKind);
  }

  /**
   * Under rules the program let into the account the hook allows exactly what meets them, and in
   * the one case of the saturating sum what meets them without the period limit.
   */
  lemma HookAllowsExactly(slots: seq<Slot>, ctx: TransferContext)
    requires Sized(slots) && ProgramAccepts(slots) && ValidContext(ctx)
    ensures
      && Accepted(slots)
      && var policy := Decode(slots).value;
         ProgramVerdict(ViewOf(slots), ctx) == Allowed <==>
         Meets(policy, ctx) || (Overflows(policy, ctx) && Meets(policy.(periodLimit := None), ctx))
  {
    ProgramAcceptsCanonical(slots);
    EvaluatorsAgree(slots, ctx);
    NormaliseValid(PolicyOf(DraftOf(slots)));
    var policy := Decode(slots).value;
    AllowedExactly(policy, ctx);
    AllowedExactly(policy.(periodLimit := None), ctx);
  }
}
