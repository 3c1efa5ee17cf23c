/**
  Two places where the helpers, as written, do not do what their comments
  say, each modelled both ways: the written behaviour with an input that
  exhibits it, and the evidently intended behaviour with its property proved.

  1. The fixed-code wrappers call `assertThrows(blockOrPromise, code, ctx)`,
     so the context lands in the `expectedReason` slot and `assertThrows`
     runs with an undefined context. The geth branch's comment says that it
     "simply passes if no revert message is given"; the intended call gives
     an empty reason and the caller's context.
  2. `assertRevert` strips the quotes around a derived reason before it
     removes the ` -- Reason given: <reason>.` annotation, so for a message
     `... revert 'Foo' -- Reason given: Foo.` the closing quote is not at the
     end when quotes are stripped and survives as `Foo'`. The comment before
     the annotation removal says Truffle v5 adds the annotation to the error
     message; removing it first recovers `Foo`.
 */
module Findings {
  import opened Wrappers
  import opened Strings
  import opened AssertThrow
  import opened RevertFacts

  // ---------------------------------------------------------------------
  // 1. The wrappers' context

  /**
    A fixed-code wrapper as evidently intended: `assertThrows` with an empty
    expected reason and the caller's context, awaited for its effect only.
   */
  function ThrowsWithoutReason<C>(env: Env<C>, outcome: Outcome, code: string, ctx: Option<C>): (v: Verdict)
    ensures outcome.Completed? ==> v == Fail
    ensures v.Pass? ==> v.returned.None?
    ensures outcome.Raised? && !env.isGeth(ctx) ==> (v.Pass? <==> Contains(outcome.error.message, code))
    ensures outcome.Raised? && env.isGeth(ctx) ==>
              (v.Pass? <==> outcome.error.receipt == Some(Receipt(Some(FailedStatus))))
    ensures v == Crash <==> outcome.Raised? && env.isGeth(ctx) && outcome.error.receipt.None?
  {
    Discard(AssertThrows(env, outcome, code, Text(""), ctx))
  }

  /**
    The intended wrappers agree with the written ones wherever the context
    plays no part: outside geth (for both the given and the undefined
    context), and whenever the operation completes.
   */
  lemma IntendedAgreesOffGeth<C>(env: Env<C>, outcome: Outcome, ctx: Option<C>)
    requires !env.isGeth(ctx) && !env.isGeth(None)
    ensures ThrowsWithoutReason(env, outcome, JumpCode, ctx) == AssertJump(env, outcome, ctx)
    ensures ThrowsWithoutReason(env, outcome, InvalidOpcodeCode, ctx) == AssertInvalidOpcode(env, outcome, ctx)
    ensures ThrowsWithoutReason(env, outcome, OutOfGasCode, ctx) == AssertOutOfGas(env, outcome, ctx)
  {
  }

  /** An environment that is geth exactly for a defined context, as a node handle would make it. */
  function GethByContext(): Env<int> {
    Env((o: Option<int>) => o.Some?, (t: Tx, o: Option<int>) => "", (c: int) => false)
  }

  /**
    As written: on geth, a caller that passes its context and catches a
    failed transaction (status `0x0`, a message without `invalid JUMP`)
    gets an assertion failure, because the wrappers ask `isGeth` about an
    undefined context and then search the message. As intended it passes.
   */
  lemma WrapperLosesContext()
    ensures var e := Err("", Some(Receipt(Some(FailedStatus))), None, None);
            && AssertJump(GethByContext(), Raised(e), Some(0)) == Fail
            && ThrowsWithoutReason(GethByContext(), Raised(e), JumpCode, Some(0)) == Pass(None)
  {
    var e := Err("", Some(Receipt(Some(FailedStatus))), None, None);
    assert !Contains(e.message, JumpCode);
  }

  /**
    As written: where `isGeth` holds without a context, a wrapper called
    without one throws a TypeError; as intended it passes once the status
    is `0x0`.
   */
  lemma WrapperCrashesWithoutContext<C>(env: Env<C>, e: Err)
    requires env.isGeth(None) && e.receipt == Some(Receipt(Some(FailedStatus)))
    ensures AssertJump(env, Raised(e), None) == Crash
    ensures ThrowsWithoutReason(env, Raised(e), JumpCode, None) == Pass(None)
  {
  }

  // ---------------------------------------------------------------------
  // 2. The order of quote stripping and annotation removal

  /**
    The reason derived from a message as intended: after the markers, the
    annotation for the expected reason is removed, and only then is the
    rest trimmed and stripped of its quotes.
   */
  function DeriveReasonFor(message: string, expected: string): (r: string)
    ensures |r| <= |message|
  {
    var stripped := RemoveFirst(RemoveFirst(RemoveFirst(message, ErrorPrefix), ThrowPrefixV2), ThrowPrefix);
    StripQuotes(Trim(RemoveFirst(stripped, ReasonGiven(expected))))
  }

  /** The reason compared, as intended. */
  function EffectiveReasonFor(e: Err, expected: string): (r: Option<string>)
    ensures r.None? <==> EffectiveReason(e).None?
    ensures !IsFalsy(e.reason) ==> r == e.reason
    ensures IsFalsy(e.reason) && Contains(e.message, ThrowPrefix) ==> r == Some(DeriveReasonFor(e.message, expected))
    ensures IsFalsy(e.reason) && !Contains(e.message, ThrowPrefix) ==> r == e.reason
  {
    if IsFalsy(e.reason) && Contains(e.message, ThrowPrefix) then Some(DeriveReasonFor(e.message, expected))
    else e.reason
  }

  /** The reason check, as intended. */
  function CheckReasonFixed(e: Err, expected: string): (v: Verdict)
    ensures v.Pass? ==> v.returned.None? && IsTrimmed(expected)
    ensures v == Crash <==> CheckReason(e, expected) == Crash
    ensures !IsFalsy(e.reason) ==> v == CheckReason(e, expected)
  {
    match EffectiveReasonFor(e, expected)
    case None => Crash
    case Some(reason) =>
      if NormaliseReason(reason, expected) == expected then Pass(None) else Fail
  }

  /** `assertRevert`, as intended: `assertThrows` as written, then the intended reason check. */
  function AssertRevertFixed<C>(env: Env<C>, outcome: Outcome, expectedReason: Option<string>, ctx: Option<C>): (v: Verdict)
    ensures !v.Pass? && v != AssertRevert(env, outcome, expectedReason, ctx) ==> v == Fail
    ensures v.Pass? ==> outcome.Raised? && v.returned.None?
    ensures IsFalsy(expectedReason) ==> v == AssertRevert(env, outcome, expectedReason, ctx)
  {
    match AssertThrows(env, outcome, RevertCode, ReasonArgOf(expectedReason), ctx)
    case Fail => Fail
    case Crash => Crash
    case Pass(returned) =>
      if IsFalsy(expectedReason) then Pass(None)
      else match returned
        case None => Crash
        case Some(e) => CheckReasonFixed(e, expectedReason.value)
  }

  /**
    Where the message carries no annotation for the expected reason, the
    intended derivation is the written one: the correction changes nothing
    else.
   */
  lemma FixedAgreesWithoutAnnotation(message: string, expected: string)
    requires !Contains(RemoveFirst(RemoveFirst(RemoveFirst(message, ErrorPrefix), ThrowPrefixV2), ThrowPrefix), ReasonGiven(expected))
    ensures DeriveReasonFor(message, expected) == DeriveReason(message)
  {
  }

  /** `  '<r>'` is free of ` -` when `r` is. */
  lemma PaddedQuotedNoSpaceDash(r: string)
    requires NoSpaceDash(r)
    ensures NoSpaceDash("  " + ([Quote] + r + [Quote]))
  {
    var q := [Quote] + r + [Quote];
    var p := "  " + q;
    forall k | 0 <= k < |p| - 1
      ensures !(p[k] == ' ' && p[k + 1] == '-')
    {
      if k < 2 {
        assert p[k + 1] == ' ' || p[k + 1] == Quote;
      } else if k == 2 {
        assert p[k] == Quote;
      } else if k + 1 < |p| - 1 {
        assert p[k] == r[k - 3] && p[k + 1] == r[k - 2];
      } else {
        assert p[k + 1] == Quote;
      }
    }
  }

  /** The annotation sits right after `  '<r>'` once the markers are gone. */
  lemma AnnotationAfterQuoted(r: string)
    requires NoSpaceDash(r)
    ensures RemoveFirst("  " + AnnotatedBody(r), ReasonGiven(r)) == "  " + ([Quote] + r + [Quote])
  {
    var q := [Quote] + r + [Quote];
    AppendAssoc("  ", q, ReasonGiven(r));
    PaddedQuotedNoSpaceDash(r);
    RemoveAnnotation("  " + q, r);
  }

  /** `  '<r>'` trims and strips to `r`. */
  lemma PaddedQuotedStrips(r: string)
    ensures StripQuotes(Trim("  " + ([Quote] + r + [Quote]))) == r
  {
    var q := [Quote] + r + [Quote];
    assert q[0] == Quote && q[|q| - 1] == Quote;
    assert "  " + q == "  " + q + "";
    TrimAround("  ", q, "");
    StripQuotesOfQuoted(r);
  }

  /** As intended, the reason derived from `... revert '<r>' -- Reason given: <r>.` is `r`. */
  lemma AnnotatedReasonDerivedFixed(r: string)
    requires NoSpaceDash(r) && !Contains(AnnotatedBody(r), ThrowPrefix)
    ensures DeriveReasonFor(GanacheMessage(AnnotatedBody(r)), r) == r
  {
    GanacheMarkersRemoved(AnnotatedBody(r));
    AnnotationAfterQuoted(r);
    PaddedQuotedStrips(r);
  }

  /** A trimmed reason shorter than its annotation normalises to itself. */
  lemma NormaliseBare(r: string)
    requires IsTrimmed(r)
    ensures NormaliseReason(r, r) == r
  {
    ShorterNeverContains(r, ReasonGiven(r));
    assert r == "" + r + "";
    TrimAround("", r, "");
  }

  /**
    As intended, outside geth, `assertRevert` with a non-empty trimmed reason
    `r` passes on an error whose message is `...: revert '<r>' -- Reason
    given: <r>.` and that has no reason of its own; as written it fails
    (`AnnotatedReasonFails`).
   */
  lemma AnnotatedReasonPassesFixed<C>(env: Env<C>, e: Err, r: string, ctx: Option<C>)
    requires !env.isGeth(ctx) && IsFalsy(e.reason) && e.message == GanacheMessage(AnnotatedBody(r))
    requires r != "" && IsTrimmed(r) && NoSpaceDash(r) && !Contains(AnnotatedBody(r), ThrowPrefix)
    ensures AssertRevertFixed(env, Raised(e), Some(r), ctx) == Pass(None)
    ensures AssertRevert(env, Raised(e), Some(r), ctx) == Fail
  {
    GanacheMessageMarked(AnnotatedBody(r));
    assert AssertThrows(env, Raised(e), RevertCode, Text(r), ctx) == Pass(Some(e));
    AnnotatedReasonDerivedFixed(r);
    assert EffectiveReasonFor(e, r) == Some(r);
    NormaliseBare(r);
    AnnotatedReasonFails(env, e, r, ctx);
  }

  /** The example message for `foo`, which is `Foo`: as intended `assertRevert` passes, as written it fails. */
  lemma FooExamplePassesFixed<C>(env: Env<C>, ctx: Option<C>, m: string, foo: string)
    requires !env.isGeth(ctx) && foo == "Foo"
    requires m == "Returned error: " + "VM Exception while " + "processing transaction: revert" + " " + "'Foo' -- Reason given: Foo."
    ensures AssertRevertFixed(env, Raised(Err(m, None, None, None)), Some(foo), ctx) == Pass(None)
    ensures AssertRevert(env, Raised(Err(m, None, None, None)), Some(foo), ctx) == Fail
  {
    FooAnnotatedSpelled(foo);
    GanacheMessageSpelled(AnnotatedBody(foo));
    FooAnnotated(foo);
    AnnotatedReasonPassesFixed(env, Err(m, None, None, None), foo, ctx);
  }
}
