# Test-helper assertions for Ethereum contract tests, modelled in Dafny

The test helpers of `@aragon/contract-helpers-test` (the `test-helpers`
package) export four assertions for contract test suites: `assertJump`,
`assertInvalidOpcode`, `assertOutOfGas` and `assertRevert`. All four are built
on the internal classifier `assertThrows`. Each runs an operation that is
expected to fail and classifies how it failed:

- `assertThrows` is the classifier. On geth it checks the receipt status. When
  a reason is expected, it decodes the reason from the transaction. Elsewhere
  it searches the error message for an error code.
- `assertJump`, `assertInvalidOpcode` and `assertOutOfGas` wrap it with a fixed
  code.
- `assertRevert` wraps it with the code `revert`. It then derives the revert
  reason from the message when the error carries none (Truffle v4 and buidler
  messages). It normalises away Truffle v5's ` -- Reason given: …` annotation
  and compares the result with the expected reason.

The package also has two hex-string constants and a helper that drops a `0x`
prefix.

The model is written in pure functions:

- The operation under test is not run. Its outcome, completed or raised with
  an error, is an input.
- The result of an assertion is a `Verdict`:
  - `Pass`: the promise resolves, to the error or to nothing.
  - `Fail`: a chai assertion failure.
  - `Crash`: a JavaScript TypeError from reading a property of `undefined`.
- The two collaborators the helpers import are fields of an `Env` value.
  `isGeth` is an environment predicate and `decodeErrorReasonFromTx` a reason
  decoder. A third field of `Env` gives the truthiness of a context object's
  `length`, which the model cannot see either.

Modules:

- `Wrappers`: `Option`.
- `Strings`: the JavaScript string operations the helpers use: `includes`,
  `indexOf`, `replace` with a string pattern, `trim`, and the quote-stripping
  regex `/^'|'$/g`. Each comes with the lemmas that characterise it.
- `Bytes`: `EMPTY_BYTES`, `ZERO_BYTES32` and `stripBytePrefix`.
- `AssertThrow`: the classifier, the four assertions and the reason normaliser.
- `ThrowsFacts`: the decision table of `assertThrows` and its wrappers, one
  lemma per branch.
- `RevertFacts`: reason recovery from ganache and buidler messages, and the
  two orders the normaliser depends on.
- `Findings`: the two discrepancies below, each as written and as intended.

## Model

| member | source | states |
|---|---|---|
| `Strings.Contains` | packages/test-helpers/src/asserts/assertThrow.js:88 | `includes` (and `search(code) > -1` for the plain codes): the empty pattern is found in every string and a pattern longer than the string in none |
| `Strings.IndexOf` | packages/test-helpers/src/asserts/assertThrow.js:46 | the index found is the leftmost occurrence of the pattern, and there is none exactly when the string does not contain it |
| `Strings.RemoveFirst` | packages/test-helpers/src/asserts/assertThrow.js:89-92 | `replace(pattern, '')` leaves a string without the pattern unchanged; otherwise it deletes exactly the leftmost occurrence and shortens the string by the pattern's length |
| `Strings.RemoveFirstRestores` | packages/test-helpers/src/asserts/assertThrow.js:89-92 | re-inserting the pattern where it was first found gives back the original message |
| `Strings.RemoveFirstAfter` | packages/test-helpers/src/asserts/assertThrow.js:99 | when no occurrence starts inside `a`, replacing in `a + pattern + b` gives `a + b` |
| `Strings.Trim` | packages/test-helpers/src/asserts/assertThrow.js:93 | `trim()` returns a piece of the input with no whitespace at either end and only whitespace (the ECMAScript set) around it |
| `Strings.TrimUnique` | packages/test-helpers/src/asserts/assertThrow.js:93 | that description determines `trim()`: any trimmed core of a string is its trim |
| `Strings.TrimIdempotent` | packages/test-helpers/src/asserts/assertThrow.js:100 | trimming an already trimmed reason changes nothing |
| `Strings.TrimAround` | packages/test-helpers/src/asserts/assertThrow.js:93 | trimming removes exactly the whitespace wrapped around a trimmed string |
| `Strings.StripQuotes` | packages/test-helpers/src/asserts/assertThrow.js:94 | `/^'|'$/g` deletes one leading and one trailing single quote; a lone quote is consumed only once |
| `Strings.StripQuotesOfQuoted` | packages/test-helpers/src/asserts/assertThrow.js:94 | a string wrapped in single quotes strips back to itself |
| `Bytes.Repeat` | packages/test-helpers/src/bytes.js:2 | `c.repeat(n)` has length `n` and every character is `c` |
| `Bytes.StripBytePrefix` | packages/test-helpers/src/bytes.js:4-6 | a string starting with `0x` loses exactly that prefix; any other string is returned unchanged |
| `Bytes.StripAddedPrefix` | packages/test-helpers/src/bytes.js:4-6 | prefixing `0x` and stripping is the identity on every string |
| `Bytes.StripRemovesOnePrefix` | packages/test-helpers/src/bytes.js:5 | only one prefix is removed: `0x0xab` becomes `0xab` |
| `Bytes.StripIsCaseSensitive` | packages/test-helpers/src/bytes.js:5 | an upper-case `0X` is not a prefix |
| `Bytes.StripFixesExactlyBare` | packages/test-helpers/src/bytes.js:4-6 | for every string, stripping leaves it unchanged exactly when it lacks the prefix, and stripping twice equals stripping once exactly when the stripped string lacks it |
| `Bytes.EmptyBytesFacts` | packages/test-helpers/src/bytes.js:1 | `EMPTY_BYTES` is `0x` and strips to the empty string |
| `Bytes.ZeroBytes32Facts` | packages/test-helpers/src/bytes.js:2 | `ZERO_BYTES32` is 66 characters, `0x` then 64 zeros, and strips to the 64 zeros |
| `AssertThrow.LengthIsFalsy` | packages/test-helpers/src/asserts/assertThrow.js:30 | `!expectedReason.length` throws exactly for an undefined reason and is true for a string exactly when it is empty |
| `AssertThrow.GethVerdict` | packages/test-helpers/src/asserts/assertThrow.js:20-44 | on geth a pass needs the receipt status `0x0`; a returned error is the caught one with `reason` set to the decoder's answer; a TypeError happens exactly when the receipt is missing, or the status matches and the expected reason is undefined |
| `AssertThrow.AssertThrows` | packages/test-helpers/src/asserts/assertThrow.js:9-61 | a completed operation fails; a returned error differs from the caught one in `reason` at most; only geth can throw a TypeError; off geth it passes exactly when the message contains the code |
| `AssertThrow.Discard` | packages/test-helpers/src/asserts/assertThrow.js:64 | awaiting for effect keeps pass, fail and crash and resolves a pass to nothing |
| `AssertThrow.AssertJump` | packages/test-helpers/src/asserts/assertThrow.js:63-65 | a completed operation fails; a pass resolves to nothing; off geth for an undefined context it passes exactly when the message contains `invalid JUMP`; a crash needs `isGeth(undefined)` |
| `AssertThrow.AssertInvalidOpcode` | packages/test-helpers/src/asserts/assertThrow.js:67-69 | the same with `invalid opcode` |
| `AssertThrow.AssertOutOfGas` | packages/test-helpers/src/asserts/assertThrow.js:71-73 | the same with `out of gas` |
| `AssertThrow.DeriveReason` | packages/test-helpers/src/asserts/assertThrow.js:88-95 | the derived reason is never longer than the message |
| `AssertThrow.ReasonGiven` | packages/test-helpers/src/asserts/assertThrow.js:99 | the annotation is 19 characters longer than the reason and holds it just before its final full stop |
| `AssertThrow.EffectiveReason` | packages/test-helpers/src/asserts/assertThrow.js:87-95 | a falsy own reason with the ganache marker in the message is replaced by the reason derived from the message; otherwise the own reason is kept, so there is none to compare exactly when the error has none and the message lacks the marker |
| `AssertThrow.IsFalsy` | packages/test-helpers/src/asserts/assertThrow.js:83-88 | JavaScript falsiness of a string that may be undefined, as `!expectedReason` and `!error.reason` test it: undefined or empty |
| `AssertThrow.FalsyAgreesWithLength` | packages/test-helpers/src/asserts/assertThrow.js:83 | `!expectedReason` (line 83) and `!expectedReason.length` (line 30) agree on every string; on undefined the first is true and the second throws |
| `AssertThrow.NormaliseReason` | packages/test-helpers/src/asserts/assertThrow.js:97-100 | the normalised reason is trimmed, and is the trimmed reason when the annotation is absent |
| `AssertThrow.CheckReason` | packages/test-helpers/src/asserts/assertThrow.js:97-108 | a TypeError exactly when no reason can be found; a pass needs a trimmed expected reason; an error whose own reason is the trimmed expected one passes |
| `AssertThrow.AssertRevert` | packages/test-helpers/src/asserts/assertThrow.js:75-109 | a completed operation fails; a pass resolves to nothing and needs a trimmed expected reason; without an expected reason it is `assertThrows` with `revert` |
| `ThrowsFacts.CodesArePlain` | packages/test-helpers/src/asserts/assertThrow.js:46 | the four codes contain no regex metacharacter, so `search` finds them exactly where they occur as text |
| `ThrowsFacts.CompletedAlwaysFails` | packages/test-helpers/src/asserts/assertThrow.js:54-60 | an operation that does not fail makes every helper report a failure |
| `ThrowsFacts.GethMissingReceiptCrashes` | packages/test-helpers/src/asserts/assertThrow.js:23 | on geth an error without a receipt throws a TypeError |
| `ThrowsFacts.GethWrongStatusFails` | packages/test-helpers/src/asserts/assertThrow.js:25-29 | on geth any status other than `0x0` is a failure |
| `ThrowsFacts.GethUndefinedReasonCrashes` | packages/test-helpers/src/asserts/assertThrow.js:30 | on geth an undefined expected reason throws once the status matches |
| `ThrowsFacts.GethNoReasonPassesWithoutDecoding` | packages/test-helpers/src/asserts/assertThrow.js:30-34 | on geth with an empty expected reason the helper passes, whatever the decoder would say |
| `ThrowsFacts.GethMissingTxFails` | packages/test-helpers/src/asserts/assertThrow.js:36-41 | on geth with an expected reason an error without `tx` fails |
| `ThrowsFacts.GethAttachesDecodedReason` | packages/test-helpers/src/asserts/assertThrow.js:43-44 | on geth the returned error carries the decoded reason and is otherwise the caught error |
| `ThrowsFacts.NonGethMatchesCode` | packages/test-helpers/src/asserts/assertThrow.js:46-51 | off geth the helper returns the caught error exactly when its message contains the code, and neither the expected reason nor the decoder matters |
| `ThrowsFacts.WrappersIgnoreContextForDetection` | packages/test-helpers/src/asserts/assertThrow.js:63-73 | the wrappers' verdicts depend only on `isGeth(undefined)` (and on the context's `length`), never on the caller's context as an environment, and never on the decoder's answer: the decoder may be called, with an undefined context, but its answer is discarded by the wrapper's bare `await` |
| `ThrowsFacts.WrappersWithoutContextCrashOnGeth` | packages/test-helpers/src/asserts/assertThrow.js:63-73 | when `isGeth(undefined)` holds, a wrapper called without a context throws on a failed transaction |
| `ThrowsFacts.WrappersWithContextOnGeth` | packages/test-helpers/src/asserts/assertThrow.js:63-73 | when `isGeth(undefined)` holds, a wrapper given a context passes on any failed transaction, unless the context has a truthy `length` and the error no `tx` |
| `RevertFacts.ThrowPrefixStartsV2` | packages/test-helpers/src/asserts/assertThrow.js:6-7 | the ganache marker is a 49-character prefix of the 70-character buidler marker |
| `RevertFacts.NoThrowPrefixNoV2` | packages/test-helpers/src/asserts/assertThrow.js:88 | a message without the ganache marker has no buidler marker either, so the derivation never sees a message with only the longer marker |
| `RevertFacts.GanacheMessageMarked` | packages/test-helpers/src/asserts/assertThrow.js:78 | every ganache message contains the marker and the code `revert` |
| `RevertFacts.DeriveGanacheReason` | packages/test-helpers/src/asserts/assertThrow.js:88-95 | from `Returned error: VM Exception while processing transaction: revert <body>` the derived reason is the body with its quotes stripped |
| `RevertFacts.GanacheReasonRecovered` | packages/test-helpers/src/asserts/assertThrow.js:88-95 | an error without its own reason whose message is a ganache message with a trimmed, marker-free body gets that body with its quotes stripped as its reason |
| `RevertFacts.DeriveBuidlerReason` | packages/test-helpers/src/asserts/assertThrow.js:88-95 | from `VM Exception while processing transaction: reverted with reason string <body>` the derived reason is the body with its quotes stripped |
| `RevertFacts.MarkerOrderMatters` | packages/test-helpers/src/asserts/assertThrow.js:91-92 | the buidler marker must be removed before the ganache marker; in the other order a buidler reason keeps the residue `ed with reason string` |
| `RevertFacts.BuidlerFooExample` | packages/test-helpers/src/asserts/assertThrow.js:91-94 | a buidler message with `'Foo'` yields `Foo` as written, and `ed with reason string 'Foo` in the other order |
| `RevertFacts.AnnotatedReasonKeepsClosingQuote` | packages/test-helpers/src/asserts/assertThrow.js:94-100 | for a message ending `'<r>' -- Reason given: <r>.` the derived reason keeps the closing quote and normalises to `r'` |
| `RevertFacts.AnnotatedReasonFails` | packages/test-helpers/src/asserts/assertThrow.js:75-108 | off geth `assertRevert` fails on such a message for any non-empty trimmed reason |
| `RevertFacts.FooExampleFails` | packages/test-helpers/src/asserts/assertThrow.js:88-108 | the message `... revert 'Foo' -- Reason given: Foo.` normalises to `Foo'`, and `assertRevert` expecting `Foo` fails |
| `RevertFacts.NormaliseAnnotated` | packages/test-helpers/src/asserts/assertThrow.js:98-100 | a reason followed by its own annotation normalises back to the reason |
| `RevertFacts.UnquotedAnnotatedPasses` | packages/test-helpers/src/asserts/assertThrow.js:75-108 | off geth, an unquoted reason followed by its annotation, `...: revert <r> -- Reason given: <r>.`, passes as written |
| `RevertFacts.AnnotatedReasonFieldPasses` | packages/test-helpers/src/asserts/assertThrow.js:97-108 | Truffle v5: an error whose `reason` is the expected one plus its annotation passes the reason check |
| `RevertFacts.RevertWithoutReasonIsThrows` | packages/test-helpers/src/asserts/assertThrow.js:76-85 | without an expected reason `assertRevert` passes, fails and throws exactly when `assertThrows` with `revert` does, and throws on geth for an undefined reason |
| `RevertFacts.NonGethRevertChecksReason` | packages/test-helpers/src/asserts/assertThrow.js:75-108 | off geth with a non-empty expected reason, `assertRevert` passes exactly when the message contains `revert` and the effective reason normalises to the expected one; a message containing `revert` but no marker, on an error without a reason, throws |
| `RevertFacts.GethRevertChecksDecodedReason` | packages/test-helpers/src/asserts/assertThrow.js:43-108 | on geth, with a non-empty decoded reason, that reason is the one compared: `assertRevert` passes exactly when it normalises to the expected one |
| `RevertFacts.GethEmptyDecodedReason` | packages/test-helpers/src/asserts/assertThrow.js:43-108 | on geth with an empty decoded reason, a message carrying the marker supplies the reason compared (a pass exactly when it normalises to the expected one), and without the marker the assertion fails |
| `Findings.ThrowsWithoutReason` | packages/test-helpers/src/asserts/assertThrow.js:30-34 | the intended wrapper call never throws except for a missing receipt, passes on geth exactly for status `0x0`, and searches for the code elsewhere |
| `Findings.IntendedAgreesOffGeth` | packages/test-helpers/src/asserts/assertThrow.js:63-73 | off geth the intended and the written wrappers agree |
| `Findings.WrapperLosesContext` | packages/test-helpers/src/asserts/assertThrow.js:63-65 | with a context that identifies geth, the written `assertJump` fails on a failed transaction and the intended one passes |
| `Findings.WrapperCrashesWithoutContext` | packages/test-helpers/src/asserts/assertThrow.js:63-65 | where `isGeth(undefined)` holds, the written `assertJump` throws and the intended one passes |
| `Findings.DeriveReasonFor` | packages/test-helpers/src/asserts/assertThrow.js:88-99 | the reason derived with the annotation removed first is never longer than the message |
| `Findings.EffectiveReasonFor` | packages/test-helpers/src/asserts/assertThrow.js:87-95 | the intended reason lookup derives the reason, with the annotation removed first, in the same cases as the written one, keeps the own reason otherwise, and fails exactly when the written one does |
| `Findings.CheckReasonFixed` | packages/test-helpers/src/asserts/assertThrow.js:97-108 | the intended reason check throws exactly when the written one does and agrees with it for errors that carry a reason |
| `Findings.AssertRevertFixed` | packages/test-helpers/src/asserts/assertThrow.js:75-109 | the intended `assertRevert` passes only on a raised error and resolves to nothing; where it does not pass yet differs from the written one it reports a failure; without an expected reason the two agree |
| `Findings.FixedAgreesWithoutAnnotation` | packages/test-helpers/src/asserts/assertThrow.js:88-99 | on messages without the annotation the intended derivation is the written one |
| `Findings.AnnotatedReasonDerivedFixed` | packages/test-helpers/src/asserts/assertThrow.js:88-99 | with the annotation removed first, `... revert '<r>' -- Reason given: <r>.` yields `r` |
| `Findings.AnnotatedReasonPassesFixed` | packages/test-helpers/src/asserts/assertThrow.js:75-108 | on such a message the intended `assertRevert` passes and the written one fails |
| `Findings.FooExamplePassesFixed` | packages/test-helpers/src/asserts/assertThrow.js:75-108 | on the `Foo` example message the intended `assertRevert` passes and the written one fails |

## Left out

- The operation under test is not run. Whether it is a function to call or a
  promise to await (lines 16-18) makes no difference to the model. Its
  outcome, completed or raised, is an input.
- `isGeth` (`../node`) and `decodeErrorReasonFromTx` (`../decoding`) are not
  part of this model. They are arbitrary functions in `Env`.
- The decoder's result is not awaited in the source (line 43). The model takes
  it to be a string.
- The text of chai's failure messages (lines 28, 40, 49, 57-59, 105-107) is
  not modelled. `Fail` carries no message.
- The in-place assignments to `error.reason` (lines 43, 89, 98) are modelled
  as a returned copy. Only the copy's `reason` differs from the caught error.
- `AssertThrows`: `search` turns a string code into a regular expression. The
  model searches for the code as plain text. This agrees for the four codes
  the helpers use (`CodesArePlain`). Other regex codes are not modelled.
- `AssertThrow.GethVerdict`: `assert.equal` compares the status with `==`.
  Statuses are modelled as optional strings. A non-string status that `==`
  equates with `'0x0'` is not modelled. That covers the boolean `false`, which
  web3 1.x reports for a failed receipt, and the number `0`. With such a
  status the source passes the status check where the model fails it.
- `AssertThrow.Err`: the thrown value is always an object with a string
  `message`, and a non-empty `reason` is a string. A thrown non-object, or a
  non-string reason, would give other TypeErrors or comparisons. Those are not
  modelled.
- A `null` context or expected reason (as opposed to `undefined`) is not
  distinguished. The context's `length` is reduced to a truthiness predicate.
- JavaScript strings are UTF-16 code units. The model's characters are Unicode
  scalar values, which makes no difference to the ASCII markers and
  annotations involved.
- `Bytes.StripBytePrefix`: the argument is a string. The source would throw on
  other values.

## Findings

| source | as written | input that shows it | evidently intended | confidence | as-written member | corrected member |
|---|---|---|---|---|---|---|
| packages/test-helpers/src/asserts/assertThrow.js:63-73 | the wrappers call `assertThrows(blockOrPromise, code, ctx)`, so `ctx` fills the `expectedReason` slot and `assertThrows` sees an undefined context | on geth, the caller passes a context that identifies geth, and the transaction fails with status `0x0` and a message without `invalid JUMP`: the result is a failure; called without a context where `isGeth(undefined)` holds: TypeError at `expectedReason.length` | `assertThrows(blockOrPromise, code, '', ctx)`, which passes on any failed geth transaction, as the comment at lines 31-32 says | not executed; medium | `Findings.WrapperLosesContext` | `Findings.ThrowsWithoutReason` |
| packages/test-helpers/src/asserts/assertThrow.js:94-99 | the quotes around a derived reason are stripped (line 94) before the ` -- Reason given: <expected>.` annotation is removed (line 99) | the message `Returned error: VM Exception while processing transaction: revert 'Foo' -- Reason given: Foo.` with expected reason `Foo` normalises to `Foo'`, so `assertRevert` fails | the comment at line 97 says Truffle v5 adds the annotation to the error message, so the annotation is meant to go wherever it sits; removed first, the reason is `Foo` and the assertion passes. The annotation handling works for an unquoted reason (`RevertFacts.UnquotedAnnotatedPasses`), so the discrepancy is confined to messages that are both quoted and annotated | not executed; medium: whether a runner emits such a message is not established | `RevertFacts.FooExampleFails` | `Findings.AssertRevertFixed` |

The `AssertThrow` module follows the code as written, and the corrected
pipeline lives in `Findings`.
