/**
  Properties of the failure classifier `AssertThrows` and of the three
  fixed-code wrappers, one lemma per branch of the decision table.
 */
module ThrowsFacts {
  import opened Wrappers
  import opened Strings
  import opened AssertThrow

  /** The characters with a meaning of their own in a JavaScript regular expression. */
  predicate IsRegexMeta(c: char) {
    || c == '\\' || c == '^' || c == '$' || c == '.' || c == '|' || c == '?' || c == '*'
    || c == '+' || c == '(' || c == ')' || c == '[' || c == ']' || c == '{' || c == '}'
  }

  /** A pattern that a regex search matches exactly where it occurs as a substring. */
  predicate IsPlainPattern(code: string) {
    forall k | 0 <= k < |code| :: !IsRegexMeta(code[k])
  }

  /** The four error codes are plain text, so searching for them is substring containment. */
  lemma CodesArePlain()
    ensures IsPlainPattern(JumpCode) && IsPlainPattern(InvalidOpcodeCode)
    ensures IsPlainPattern(OutOfGasCode) && IsPlainPattern(RevertCode)
  {
  }

  /** An operation that does not raise makes every helper report a failure. */
  lemma CompletedAlwaysFails<C>(env: Env<C>, code: string, reason: ReasonArg<C>, expected: Option<string>, ctx: Option<C>)
    ensures AssertThrows(env, Completed, code, reason, ctx) == Fail
    ensures AssertJump(env, Completed, ctx) == Fail
    ensures AssertInvalidOpcode(env, Completed, ctx) == Fail
    ensures AssertOutOfGas(env, Completed, ctx) == Fail
    ensures AssertRevert(env, Completed, expected, ctx) == Fail
  {
  }

  /** On geth an error without a receipt makes `error.receipt.status` throw. */
  lemma GethMissingReceiptCrashes<C>(env: Env<C>, e: Err, code: string, reason: ReasonArg<C>, ctx: Option<C>)
    requires env.isGeth(ctx) && e.receipt.None?
    ensures AssertThrows(env, Raised(e), code, reason, ctx) == Crash
  {
  }

  /** On geth a receipt status other than `0x0` (or none at all) is a failure, whatever else holds. */
  lemma GethWrongStatusFails<C>(env: Env<C>, e: Err, code: string, reason: ReasonArg<C>, ctx: Option<C>)
    requires env.isGeth(ctx) && e.receipt.Some? && e.receipt.value.status != Some(FailedStatus)
    ensures AssertThrows(env, Raised(e), code, reason, ctx) == Fail
  {
  }

  /** On geth an undefined expected reason makes `expectedReason.length` throw once the status matches. */
  lemma GethUndefinedReasonCrashes<C>(env: Env<C>, e: Err, code: string, ctx: Option<C>)
    requires env.isGeth(ctx) && e.receipt == Some(Receipt(Some(FailedStatus)))
    ensures AssertThrows(env, Raised(e), code, Undefined, ctx) == Crash
  {
  }

  /**
    On geth, with the failure status and a zero-length expected reason, the
    helper passes returning nothing, and the decoder is never consulted: any
    other decoder gives the same verdict.
   */
  lemma GethNoReasonPassesWithoutDecoding<C>(env: Env<C>, other: (Tx, Option<C>) -> string, e: Err, code: string, reason: ReasonArg<C>, ctx: Option<C>)
    requires env.isGeth(ctx) && e.receipt == Some(Receipt(Some(FailedStatus)))
    requires LengthIsFalsy(env, reason) == Some(true)
    ensures AssertThrows(env, Raised(e), code, reason, ctx) == Pass(None)
    ensures AssertThrows(env.(decode := other), Raised(e), code, reason, ctx) == Pass(None)
  {
  }

  /** On geth, when a reason is expected, an error without a transaction is a failure. */
  lemma GethMissingTxFails<C>(env: Env<C>, e: Err, code: string, reason: ReasonArg<C>, ctx: Option<C>)
    requires env.isGeth(ctx) && e.receipt == Some(Receipt(Some(FailedStatus)))
    requires LengthIsFalsy(env, reason) == Some(false) && e.tx.None?
    ensures AssertThrows(env, Raised(e), code, reason, ctx) == Fail
  {
  }

  /**
    On geth, when a reason is expected and the error carries a transaction,
    the helper passes returning the error with `reason` set to exactly what
    the decoder gives for that transaction and context; no other field changes.
   */
  lemma GethAttachesDecodedReason<C>(env: Env<C>, e: Err, code: string, reason: ReasonArg<C>, ctx: Option<C>, tx: Tx)
    requires env.isGeth(ctx) && e.receipt == Some(Receipt(Some(FailedStatus)))
    requires LengthIsFalsy(env, reason) == Some(false) && e.tx == Some(tx)
    ensures var v := AssertThrows(env, Raised(e), code, reason, ctx);
            && v.Pass? && v.returned.Some?
            && v.returned.value.reason == Some(env.decode(tx, ctx))
            && v.returned.value.message == e.message
            && v.returned.value.receipt == e.receipt
            && v.returned.value.tx == e.tx
  {
  }

  /**
    Outside geth the helper passes, returning the very error it caught,
    exactly when the message contains the code, and fails otherwise; the
    expected reason and the decoder play no part.
   */
  lemma NonGethMatchesCode<C>(env: Env<C>, other: (Tx, Option<C>) -> string, e: Err, code: string, reason: ReasonArg<C>, reason': ReasonArg<C>, ctx: Option<C>)
    requires !env.isGeth(ctx)
    ensures AssertThrows(env, Raised(e), code, reason, ctx) == Pass(Some(e)) <==> Contains(e.message, code)
    ensures !Contains(e.message, code) ==> AssertThrows(env, Raised(e), code, reason, ctx) == Fail
    ensures AssertThrows(env, Raised(e), code, reason, ctx) == AssertThrows(env.(decode := other), Raised(e), code, reason', ctx)
  {
  }

  /**
    The wrappers hand `assertThrows` an undefined context, so the caller's
    context never reaches the environment predicate nor the decoder: only
    `isGeth(undefined)` and the context's `length` matter.
   */
  lemma WrappersIgnoreContextForDetection<C>(env: Env<C>, g: Option<C> -> bool, d: (Tx, Option<C>) -> string, outcome: Outcome, ctx: Option<C>)
    requires g(None) == env.isGeth(None)
    ensures AssertJump(env.(isGeth := g, decode := d), outcome, ctx) == AssertJump(env, outcome, ctx)
    ensures AssertInvalidOpcode(env.(isGeth := g, decode := d), outcome, ctx) == AssertInvalidOpcode(env, outcome, ctx)
    ensures AssertOutOfGas(env.(isGeth := g, decode := d), outcome, ctx) == AssertOutOfGas(env, outcome, ctx)
  {
  }

  /**
    When `isGeth(undefined)` holds, a wrapper called without a context throws
    a TypeError on a reverted transaction, because the undefined context sits
    in the `expectedReason` slot and its `length` is read.
   */
  lemma WrappersWithoutContextCrashOnGeth<C>(env: Env<C>, e: Err)
    requires env.isGeth(None) && e.receipt == Some(Receipt(Some(FailedStatus)))
    ensures AssertJump(env, Raised(e), None) == Crash
    ensures AssertInvalidOpcode(env, Raised(e), None) == Crash
    ensures AssertOutOfGas(env, Raised(e), None) == Crash
  {
  }

  /**
    When `isGeth(undefined)` holds and a context is passed, a wrapper passes
    on any reverted transaction, whatever its message says, unless the
    context has a truthy `length` and the error carries no `tx`.
   */
  lemma WrappersWithContextOnGeth<C>(env: Env<C>, e: Err, c: C)
    requires env.isGeth(None) && e.receipt == Some(Receipt(Some(FailedStatus)))
    ensures AssertJump(env, Raised(e), Some(c)).Pass? <==> !env.lengthTruthy(c) || e.tx.Some?
    ensures AssertOutOfGas(env, Raised(e), Some(c)) == AssertJump(env, Raised(e), Some(c))
    ensures AssertInvalidOpcode(env, Raised(e), Some(c)) == AssertJump(env, Raised(e), Some(c))
  {
  }
}
