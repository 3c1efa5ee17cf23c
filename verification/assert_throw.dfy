/**
  The failure classifier of the test helpers (`assertThrows`), its three
  fixed-code wrappers, and `assertRevert` with its revert-reason normaliser.

  The operation under test is not run: its outcome is an input. The two
  foreign collaborators, the environment predicate (`isGeth`) and the reason
  decoder (`decodeErrorReasonFromTx`), are function-valued fields of an `Env`.
  A chai assertion failure is `Fail`; a JavaScript runtime error (a property
  read on `undefined`) is `Crash`.
 */
module AssertThrow {
  import opened Wrappers
  import opened Strings

  /** The prefix web3 puts in front of a node's error message. */
  const ErrorPrefix: string := "Returned error:"

  /** Ganache's revert marker. */
  const ThrowPrefix: string := "VM Exception while " + "processing transaction: revert"

  /** Buidler's revert marker; it extends `ThrowPrefix`. */
  const ThrowPrefixV2: string := "VM Exception while " + "processing transaction: " + "reverted with reason string"

  /** The receipt status of a failed transaction on geth. */
  const FailedStatus: string := "0x0"

  const JumpCode: string := "invalid JUMP"
  const InvalidOpcodeCode: string := "invalid opcode"
  const OutOfGasCode: string := "out of gas"
  const RevertCode: string := "revert"

  /** A raw transaction reference, handed to the decoder. */
  type Tx = string

  /** The transaction receipt attached to an error; its `status` may be absent. */
  datatype Receipt = Receipt(status: Option<string>)

  /** The error the operation raised. Every field but `message` may be undefined. */
  datatype Err = Err(message: string, receipt: Option<Receipt>, tx: Option<Tx>, reason: Option<string>)

  /** How the operation under test settled. */
  datatype Outcome = Completed | Raised(error: Err)

  /**
    The JavaScript value in `assertThrows`'s `expectedReason` slot: undefined,
    a string, or (as the wrappers pass it) the caller's context object.
   */
  datatype ReasonArg<C> = Undefined | Text(text: string) | Context(ctx: C)

  /**
    The collaborators the model cannot see, over contexts `C` (None is an
    undefined context): whether the environment is geth, what the decoder
    returns for a transaction, and whether a context object has a truthy
    `length` property.
   */
  datatype Env<!C> = Env(isGeth: Option<C> -> bool, decode: (Tx, Option<C>) -> string, lengthTruthy: C -> bool)

  /**
    What an assertion helper does: its promise resolves (to the error, or to
    undefined), it reports an assertion failure, or it throws a TypeError.
   */
  datatype Verdict = Pass(returned: Option<Err>) | Fail | Crash

  /** The value in the `expectedReason` slot of `assertThrows` for a string argument that may be undefined. */
  function ReasonArgOf<C>(reason: Option<string>): (a: ReasonArg<C>)
    ensures a.Undefined? <==> reason.None?
    ensures reason.Some? ==> a == Text(reason.value)
  {
    match reason
    case None => Undefined
    case Some(s) => Text(s)
  }

  /** The context passed through the `expectedReason` slot, as the wrappers do. */
  function ContextArg<C>(ctx: Option<C>): (a: ReasonArg<C>)
    ensures a.Undefined? <==> ctx.None?
    ensures ctx.Some? ==> a == Context(ctx.value)
  {
    match ctx
    case None => Undefined
    case Some(c) => Context(c)
  }

  /**
    `!expectedReason.length`: Some(true) when the length is falsy, Some(false)
    when it is truthy, None when reading it throws (the slot is undefined).
   */
  function LengthIsFalsy<C>(env: Env<C>, expectedReason: ReasonArg<C>): (r: Option<bool>)
    ensures r.None? <==> expectedReason.Undefined?
    ensures expectedReason.Text? ==> r == Some(expectedReason.text == "")
  {
    match expectedReason
    case Undefined => None
    case Text(s) => Some(|s| == 0)
    case Context(c) => Some(!env.lengthTruthy(c))
  }

  /**
    The geth branch: the receipt status must be the failure status; with no
    expected reason that is enough, otherwise the error must carry a
    transaction, whose decoded reason is attached to the returned error.
   */
  function GethVerdict<C>(env: Env<C>, e: Err, expectedReason: ReasonArg<C>, ctx: Option<C>): (v: Verdict)
    ensures v.Pass? && v.returned.Some? ==> e.tx.Some? && v.returned.value == e.(reason := Some(env.decode(e.tx.value, ctx)))
    ensures v.Pass? ==> e.receipt == Some(Receipt(Some(FailedStatus)))
    ensures v == Crash <==> e.receipt.None? || (e.receipt.value.status == Some(FailedStatus) && expectedReason.Undefined?)
  {
    match e.receipt
    case None => Crash
    case Some(receipt) =>
      if receipt.status != Some(FailedStatus) then Fail
      else match LengthIsFalsy(env, expectedReason)
        case None => Crash
        case Some(noReason) =>
          if noReason then Pass(None)
          else match e.tx
            case None => Fail
            case Some(tx) => Pass(Some(e.(reason := Some(env.decode(tx, ctx)))))
  }

  /**
    `assertThrows(blockOrPromise, expectedErrorCode, expectedReason, ctx)`.
    Outside geth the error message is searched for the code; the search is
    substring containment, which is what a regex search does for codes free
    of regex metacharacters (see `CodesArePlain`).
   */
  function AssertThrows<C>(env: Env<C>, outcome: Outcome, code: string, expectedReason: ReasonArg<C>, ctx: Option<C>): (v: Verdict)
    ensures outcome.Completed? ==> v == Fail
    ensures v.Pass? ==> outcome.Raised?
    ensures v.Pass? && v.returned.Some? ==> v.returned.value.(reason := outcome.error.reason) == outcome.error
    ensures v == Crash ==> outcome.Raised? && env.isGeth(ctx)
    ensures outcome.Raised? && !env.isGeth(ctx) ==> (v.Pass? <==> Contains(outcome.error.message, code))
  {
    match outcome
    case Completed => Fail
    case Raised(e) =>
      if env.isGeth(ctx) then GethVerdict(env, e, expectedReason, ctx)
      else if Contains(e.message, code) then Pass(Some(e))
      else Fail
  }

  /** Awaiting a helper for its effect only: a pass resolves to undefined. */
  function Discard(v: Verdict): (r: Verdict)
    ensures r.Pass? <==> v.Pass?
    ensures r.Pass? ==> r.returned.None?
    ensures !v.Pass? ==> r == v
  {
    if v.Pass? then Pass(None) else v
  }

  /**
    `assertJump(blockOrPromise, ctx)`. As written it calls
    `assertThrows(blockOrPromise, 'invalid JUMP', ctx)`: the context lands in
    the `expectedReason` slot and `assertThrows` sees an undefined context.
   */
  function AssertJump<C>(env: Env<C>, outcome: Outcome, ctx: Option<C>): (v: Verdict)
    ensures outcome.Completed? ==> v == Fail
    ensures v.Pass? ==> v.returned.None?
    ensures outcome.Raised? && !env.isGeth(None) ==> (v.Pass? <==> Contains(outcome.error.message, JumpCode))
    ensures v == Crash ==> outcome.Raised? && env.isGeth(None)
  {
    Discard(AssertThrows(env, outcome, JumpCode, ContextArg(ctx), None))
  }

  /** `assertInvalidOpcode(blockOrPromise, ctx)`, with the same argument shift as `AssertJump`. */
  function AssertInvalidOpcode<C>(env: Env<C>, outcome: Outcome, ctx: Option<C>): (v: Verdict)
    ensures outcome.Completed? ==> v == Fail
    ensures v.Pass? ==> v.returned.None?
    ensures outcome.Raised? && !env.isGeth(None) ==> (v.Pass? <==> Contains(outcome.error.message, InvalidOpcodeCode))
    ensures v == Crash ==> outcome.Raised? && env.isGeth(None)
  {
    Discard(AssertThrows(env, outcome, InvalidOpcodeCode, ContextArg(ctx), None))
  }

  /** `assertOutOfGas(blockOrPromise, ctx)`, with the same argument shift as `AssertJump`. */
  function AssertOutOfGas<C>(env: Env<C>, outcome: Outcome, ctx: Option<C>): (v: Verdict)
    ensures outcome.Completed? ==> v == Fail
    ensures v.Pass? ==> v.returned.None?
    ensures outcome.Raised? && !env.isGeth(None) ==> (v.Pass? <==> Contains(outcome.error.message, OutOfGasCode))
    ensures v == Crash ==> outcome.Raised? && env.isGeth(None)
  {
    Discard(AssertThrows(env, outcome, OutOfGasCode, ContextArg(ctx), None))
  }

  /** The JavaScript falsiness of an optional string: undefined or empty. */
  predicate IsFalsy(s: Option<string>) {
    s.None? || s.value == ""
  }

  /**
    `!expectedReason` (in `assertRevert`) and `!expectedReason.length` (in
    `assertThrows`) agree on every string, but on undefined the first is true
    and the second throws.
   */
  lemma FalsyAgreesWithLength<C>(env: Env<C>, reason: Option<string>)
    ensures reason.Some? ==> LengthIsFalsy(env, ReasonArgOf(reason)) == Some(IsFalsy(reason))
    ensures reason.None? ==> IsFalsy(reason) && LengthIsFalsy(env, ReasonArgOf(reason)).None?
  {
  }

  /**
    The reason recovered from an error message that lacks a `reason` field:
    remove the first `Returned error:`, then the first buidler marker, then
    the first ganache marker, trim, and strip one quote at each end.
   */
  function DeriveReason(message: string): (r: string)
    ensures |r| <= |message|
  {
    var stripped := RemoveFirst(RemoveFirst(RemoveFirst(message, ErrorPrefix), ThrowPrefixV2), ThrowPrefix);
    StripQuotes(Trim(stripped))
  }

  /** The annotation some Truffle versions append: ` -- Reason given: <reason>.` */
  function ReasonGiven(expected: string): (g: string)
    ensures |g| == |expected| + 19
    ensures g[18..|g| - 1] == expected
  {
    " -- Reason given: " + expected + "."
  }

  /** The reason the comparison sees: the error's own, or one derived from its message. */
  function EffectiveReason(e: Err): (r: Option<string>)
    ensures r.None? <==> e.reason.None? && !Contains(e.message, ThrowPrefix)
    ensures !IsFalsy(e.reason) ==> r == e.reason
    ensures IsFalsy(e.reason) && Contains(e.message, ThrowPrefix) ==> r == Some(DeriveReason(e.message))
    ensures IsFalsy(e.reason) && !Contains(e.message, ThrowPrefix) ==> r == e.reason
  {
    if IsFalsy(e.reason) && Contains(e.message, ThrowPrefix) then Some(DeriveReason(e.message))
    else e.reason
  }

  /** Drops the first `Reason given` annotation for `expected` and trims. */
  function NormaliseReason(reason: string, expected: string): (r: string)
    ensures IsTrimmed(r)
    ensures !Contains(reason, ReasonGiven(expected)) ==> r == Trim(reason)
  {
    Trim(RemoveFirst(reason, ReasonGiven(expected)))
  }

  /**
    The reason check of `assertRevert` on the error `assertThrows` returned:
    a missing reason with no marker in the message is a TypeError; otherwise
    the normalised reason must equal the expected one exactly.
   */
  function CheckReason(e: Err, expected: string): (v: Verdict)
    ensures v.Pass? ==> v.returned.None?
    ensures v == Crash <==> e.reason.None? && !Contains(e.message, ThrowPrefix)
    ensures v.Pass? ==> IsTrimmed(expected)
    ensures !IsFalsy(e.reason) && e.reason.value == expected && IsTrimmed(expected) ==> v.Pass?
  {
    match EffectiveReason(e)
    case None => Crash
    case Some(reason) =>
      if NormaliseReason(reason, expected) == expected then Pass(None) else Fail
  }

  /**
    `assertRevert(blockOrPromise, expectedReason, ctx)`: `assertThrows` with
    the code `revert`; without an expected reason (undefined or empty) that is
    all, otherwise the reason of the returned error is checked.
   */
  function AssertRevert<C>(env: Env<C>, outcome: Outcome, expectedReason: Option<string>, ctx: Option<C>): (v: Verdict)
    ensures outcome.Completed? ==> v == Fail
    ensures v.Pass? ==> outcome.Raised? && v.returned.None?
    ensures v.Pass? && !IsFalsy(expectedReason) ==> IsTrimmed(expectedReason.value)
    ensures IsFalsy(expectedReason) ==> v == Discard(AssertThrows(env, outcome, RevertCode, ReasonArgOf(expectedReason), ctx))
  {
    match AssertThrows(env, outcome, RevertCode, ReasonArgOf(expectedReason), ctx)
    case Fail => Fail
    case Crash => Crash
    case Pass(returned) =>
      if IsFalsy(expectedReason) then Pass(None)
      else match returned
        case None => Crash
        case Some(e) => CheckReason(e, expectedReason.value)
  }
}
