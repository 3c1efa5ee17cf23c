/**
  Properties of `assertRevert`: how it relates to `assertThrows`, how the
  reason is recovered from ganache and buidler messages, and the two orders
  the normaliser depends on (the longer marker before the shorter one, the
  quote stripping before the `Reason given` removal).
 */
module RevertFacts {
  import opened Wrappers
  import opened Strings
  import opened AssertThrow

  /** What follows `Returned error:` in a ganache message: ` VM Exception while processing transaction: revert <body>`. */
  function GanacheTail(body: string): string {
    " " + ThrowPrefix + " " + body
  }

  /** A ganache revert message as web3 reports it: `Returned error: VM Exception while processing transaction: revert <body>`. */
  function GanacheMessage(body: string): string {
    ErrorPrefix + GanacheTail(body)
  }

  /** A buidler revert message: `VM Exception while processing transaction: reverted with reason string <body>`. */
  function BuidlerMessage(body: string): string {
    ThrowPrefixV2 + (" " + body)
  }

  /** What remains of a buidler marker once the ganache marker is cut from its front. */
  const V2Residue: string := "ed with reason string"

  /** `a` has no space directly followed by a dash (it does not contain ` -`), and does not end in a space. */
  predicate NoSpaceDash(a: string) {
    && (forall k | 0 <= k < |a| - 1 :: !(a[k] == ' ' && a[k + 1] == '-'))
    && (|a| > 0 ==> a[|a| - 1] != ' ')
  }

  /** The ganache marker is a proper prefix of the buidler marker. */
  lemma ThrowPrefixStartsV2()
    ensures |ThrowPrefix| == 49 && |ThrowPrefixV2| == 70
    ensures ThrowPrefixV2 == ThrowPrefix + V2Residue
  {
    var a, b := "VM Exception while ", "processing transaction: ";
    MarkerPieces();
    AppendAssoc(a, b, "revert" + V2Residue);
    AppendAssoc(a, b, "revert");
    AppendAssoc(a + b, "revert", V2Residue);
  }

  /** The literal pieces the two markers share. */
  lemma MarkerPieces()
    ensures "processing transaction: revert" == "processing transaction: " + "revert"
    ensures "reverted with reason string" == "revert" + V2Residue
  {
  }

  /** The residue is neither blank nor quoted at its ends. */
  lemma ResidueFacts()
    ensures |V2Residue| == 21 && V2Residue[0] == 'e' && V2Residue[20] == 'g'
    ensures IsTrimmed(V2Residue) && !StartsWithQuote(V2Residue) && !EndsWithQuote(V2Residue)
  {
  }

  /** A message that does not contain the ganache marker does not contain the buidler marker either. */
  lemma NoThrowPrefixNoV2(s: string)
    requires !Contains(s, ThrowPrefix)
    ensures !Contains(s, ThrowPrefixV2)
  {
    ThrowPrefixStartsV2();
    forall i | 0 <= i <= |s| - |ThrowPrefixV2|
      ensures !OccursAt(s, ThrowPrefixV2, i)
    {
      OccurrenceOfPrefix(s, ThrowPrefixV2, ThrowPrefix, i);
    }
  }

  /** The only place a marker can start after a head free of its first character is in the tail. */
  lemma OccurrenceInTail(head: string, tail: string, pat: string)
    requires |pat| > 0 && !Contains(tail, pat)
    requires forall k | 0 <= k < |head| :: head[k] != pat[0]
    ensures !Contains(head + tail, pat)
  {
    forall i | 0 <= i <= |head + tail| - |pat|
      ensures !OccursAt(head + tail, pat, i)
    {
      if i < |head| {
        MismatchPreventsOccurrence(head + tail, pat, i, 0);
      } else {
        OccurrenceInSuffix(head, tail, pat, i);
      }
    }
  }

  /** After `Returned error:` is gone, a ganache message holds no buidler marker. */
  lemma GanacheTailHasNoV2(body: string)
    requires !Contains(body, ThrowPrefix)
    ensures !Contains(GanacheTail(body), ThrowPrefixV2)
  {
    ThrowPrefixStartsV2();
    var head := " " + ThrowPrefix + " ";
    var x := head + body;
    NoThrowPrefixNoV2(body);
    forall i | 0 <= i <= |x| - |ThrowPrefixV2|
      ensures !OccursAt(x, ThrowPrefixV2, i)
    {
      if i >= |head| {
        OccurrenceInSuffix(head, body, ThrowPrefixV2, i);
      } else if i == 1 {
        assert x[50] == ' ' && ThrowPrefixV2[49] == 'e';
        MismatchPreventsOccurrence(x, ThrowPrefixV2, 1, 49);
      } else {
        assert x[i] != 'V';
        MismatchPreventsOccurrence(x, ThrowPrefixV2, i, 0);
      }
    }
  }

  lemma TwoSpaces(s: string)
    ensures " " + (" " + s) == "  " + s
    ensures "  " + s == "  " + s + ""
  {
  }

  /** `Returned error:` at the front of a ganache message is the occurrence removed. */
  lemma ErrorPrefixRemoved(body: string)
    ensures RemoveFirst(GanacheMessage(body), ErrorPrefix) == GanacheTail(body)
  {
    RemoveFirstOfPrefix(ErrorPrefix, GanacheTail(body));
  }

  /** The ganache marker right after the leading space is the occurrence removed. */
  lemma GanacheMarkerRemoved(body: string)
    ensures RemoveFirst(GanacheTail(body), ThrowPrefix) == "  " + body
  {
    var x := GanacheTail(body);
    AppendAssoc(" " + ThrowPrefix, " ", body);
    NoOccurrenceWithoutHead(x, ThrowPrefix, 0, 1);
    RemoveFirstAfter(" ", ThrowPrefix, " " + body);
    TwoSpaces(body);
  }

  /** The three marker removals leave a ganache message's body behind two spaces. */
  lemma GanacheMarkersRemoved(body: string)
    requires !Contains(body, ThrowPrefix)
    ensures RemoveFirst(RemoveFirst(RemoveFirst(GanacheMessage(body), ErrorPrefix), ThrowPrefixV2), ThrowPrefix) == "  " + body
  {
    ErrorPrefixRemoved(body);
    GanacheTailHasNoV2(body);
    GanacheMarkerRemoved(body);
  }

  /**
    Ganache, Truffle v4: the reason recovered from a ganache message is its
    body with one quote stripped from each end, provided the body is trimmed
    and does not itself contain the marker.
   */
  lemma DeriveGanacheReason(body: string)
    requires IsTrimmed(body) && !Contains(body, ThrowPrefix)
    ensures DeriveReason(GanacheMessage(body)) == StripQuotes(body)
  {
    GanacheMarkersRemoved(body);
    TwoSpaces(body);
    TrimAround("  ", body, "");
  }

  /** A buidler message whose body lacks `Returned error:` lacks it altogether. */
  lemma BuidlerHasNoErrorPrefix(body: string)
    requires !Contains(body, ErrorPrefix)
    ensures RemoveFirst(BuidlerMessage(body), ErrorPrefix) == BuidlerMessage(body)
  {
    AppendAssoc(ThrowPrefixV2, " ", body);
    OccurrenceInTail(ThrowPrefixV2 + " ", body, ErrorPrefix);
  }

  /** The buidler marker at the front of a buidler message is the occurrence removed. */
  lemma BuidlerMarkerRemoved(body: string)
    ensures RemoveFirst(BuidlerMessage(body), ThrowPrefixV2) == " " + body
  {
    RemoveFirstOfPrefix(ThrowPrefixV2, " " + body);
  }

  /** The written marker removals leave a buidler message's body behind one space. */
  lemma BuidlerMarkersRemoved(body: string)
    requires !Contains(body, ErrorPrefix) && !Contains(body, ThrowPrefix)
    ensures RemoveFirst(RemoveFirst(RemoveFirst(BuidlerMessage(body), ErrorPrefix), ThrowPrefixV2), ThrowPrefix) == " " + body
  {
    BuidlerHasNoErrorPrefix(body);
    BuidlerMarkerRemoved(body);
    OccurrenceInTail(" ", body, ThrowPrefix);
  }

  /** Buidler: the reason recovered from a buidler message is its body with one quote stripped from each end. */
  lemma DeriveBuidlerReason(body: string)
    requires IsTrimmed(body) && !Contains(body, ErrorPrefix) && !Contains(body, ThrowPrefix)
    ensures DeriveReason(BuidlerMessage(body)) == StripQuotes(body)
  {
    BuidlerMarkersRemoved(body);
    assert " " + body == " " + body + "";
    TrimAround(" ", body, "");
  }

  /** The marker removals in the other order: the ganache marker first, then the buidler one. */
  function DeriveReasonShortMarkerFirst(message: string): string {
    StripQuotes(Trim(RemoveFirst(RemoveFirst(RemoveFirst(message, ErrorPrefix), ThrowPrefix), ThrowPrefixV2)))
  }

  /** In the other order the ganache marker is cut from the front of the buidler one, leaving its residue. */
  lemma ShortMarkerFirstLeavesResidue(body: string)
    requires !Contains(body, ErrorPrefix) && !Contains(body, ThrowPrefix)
    ensures RemoveFirst(RemoveFirst(RemoveFirst(BuidlerMessage(body), ErrorPrefix), ThrowPrefix), ThrowPrefixV2)
            == V2Residue + " " + body
  {
    var m := BuidlerMessage(body);
    BuidlerHasNoErrorPrefix(body);
    var y := V2Residue + " " + body;
    assert RemoveFirst(m, ThrowPrefix) == y by {
      ThrowPrefixStartsV2();
      AppendAssoc(ThrowPrefix, V2Residue, " " + body);
      AppendAssoc(V2Residue, " ", body);
      RemoveFirstOfPrefix(ThrowPrefix, y);
    }
    ResidueHasNoV2(body);
  }

  /** The buidler residue followed by a body free of the ganache marker holds no buidler marker. */
  lemma ResidueHasNoV2(body: string)
    requires !Contains(body, ThrowPrefix)
    ensures RemoveFirst(V2Residue + " " + body, ThrowPrefixV2) == V2Residue + " " + body
  {
    NoThrowPrefixNoV2(body);
    var head := V2Residue + " ";
    assert forall k | 0 <= k < |head| :: head[k] != ThrowPrefixV2[0];
    assert V2Residue + " " + body == head + body;
    OccurrenceInTail(head, body, ThrowPrefixV2);
  }

  /** A head that is neither blank nor a quote at its ends survives trimming and quote stripping. */
  lemma HeadSurvives(head: string, body: string)
    requires |head| > 0 && IsTrimmed(head) && !StartsWithQuote(head) && !EndsWithQuote(head) && IsTrimmed(body)
    ensures var r := StripQuotes(Trim(head + " " + body));
            |r| >= |head| && r[..|head|] == head && |r| > |body|
  {
    TrimJoin(head, body);
    var t := Trim(head + " " + body);
    assert t[..|head|] == head;
    assert t[0] == head[0];
    StripQuotesKeepsHead(t, head);
  }

  /**
    Because the ganache marker is a prefix of the buidler marker, the buidler
    marker must go first: in the other order a buidler message keeps the
    residue `ed with reason string` at the head of its reason.
   */
  lemma MarkerOrderMatters(body: string)
    requires IsTrimmed(body) && !Contains(body, ErrorPrefix) && !Contains(body, ThrowPrefix)
    ensures DeriveReason(BuidlerMessage(body)) == StripQuotes(body)
    ensures var swapped := DeriveReasonShortMarkerFirst(BuidlerMessage(body));
            |swapped| >= |V2Residue| && swapped[..|V2Residue|] == V2Residue
            && swapped != DeriveReason(BuidlerMessage(body))
  {
    DeriveBuidlerReason(body);
    ShortMarkerFirstLeavesResidue(body);
    ResidueFacts();
    HeadSurvives(V2Residue, body);
  }

  /** The quoted reason `'Foo'` strips to `Foo`. */
  lemma FooUnquoted(q: string)
    requires q == "'Foo'"
    ensures StripQuotes(q) == "Foo"
  {
    assert q == [Quote] + "Foo" + [Quote];
    StripQuotesOfQuoted("Foo");
  }

  /** With the residue in front, only the closing quote of `'Foo'` is stripped. */
  lemma ResidueFooStripped(q: string)
    requires q == "'Foo'"
    ensures StripQuotes(Trim(V2Residue + " " + q)) == V2Residue + " 'Foo"
  {
    var z := V2Residue + " 'Foo";
    assert " " + q == " 'Foo" + [Quote];
    AppendAssoc(V2Residue, " ", q);
    AppendAssoc(V2Residue, " 'Foo", [Quote]);
    assert V2Residue + " " + q == z + [Quote];
    assert (z + [Quote])[..|z|] == z;
    ResidueFacts();
    TrimJoin(V2Residue, q);
  }

  /** A buidler message with reason `Foo`: the written order recovers `Foo`, the other order does not. */
  lemma BuidlerFooExample(q: string)
    requires q == "'Foo'"
    ensures DeriveReason(BuidlerMessage(q)) == "Foo"
    ensures DeriveReasonShortMarkerFirst(BuidlerMessage(q)) == V2Residue + " 'Foo"
  {
    NoOccurrenceWithoutHead(q, ErrorPrefix, 0, |q|);
    NoOccurrenceWithoutHead(q, ThrowPrefix, 0, |q|);
    FooUnquoted(q);
    DeriveBuidlerReason(q);
    ShortMarkerFirstLeavesResidue(q);
    ResidueFooStripped(q);
  }

  /** `'<r>' -- Reason given: <r>.`: a quoted reason followed by Truffle's annotation for it. */
  function AnnotatedBody(r: string): string {
    [Quote] + r + [Quote] + ReasonGiven(r)
  }

  /** An annotated body starts with a quote and ends with a full stop, so it is trimmed. */
  lemma AnnotatedBodyShape(r: string)
    ensures var body := AnnotatedBody(r);
            |body| == 2 * |r| + 21 && body[0] == Quote && body[|body| - 1] == '.' && IsTrimmed(body)
  {
  }

  /** Quote stripping removes only the opening quote of an annotated body, which ends in a full stop. */
  lemma AnnotatedBodyStripped(r: string)
    ensures StripQuotes(AnnotatedBody(r)) == r + [Quote] + ReasonGiven(r)
  {
    var tail := r + [Quote] + ReasonGiven(r);
    var body := AnnotatedBody(r);
    assert body == [Quote] + tail;
    assert body[|body| - 1] == '.';
    assert ([Quote] + tail)[1..] == tail;
  }

  /** No occurrence of a pattern starting with ` -` begins inside a string free of ` -` that does not end in a space. */
  lemma NoAnnotationInside(a: string, pat: string, b: string)
    requires |pat| >= 2 && pat[0] == ' ' && pat[1] == '-' && NoSpaceDash(a)
    ensures forall i | 0 <= i < |a| :: !OccursAt(a + pat + b, pat, i)
  {
    var s := a + pat + b;
    forall i | 0 <= i < |a|
      ensures !OccursAt(s, pat, i)
    {
      if i + 1 < |a| {
        assert s[i] == a[i] && s[i + 1] == a[i + 1];
        if a[i] != ' ' {
          MismatchPreventsOccurrence(s, pat, i, 0);
        } else {
          MismatchPreventsOccurrence(s, pat, i, 1);
        }
      } else {
        assert s[i] == a[i];
        MismatchPreventsOccurrence(s, pat, i, 0);
      }
    }
  }

  /** Appending a quote keeps a string free of ` -`. */
  lemma QuotedKeepsNoSpaceDash(r: string)
    requires NoSpaceDash(r)
    ensures NoSpaceDash(r + [Quote])
  {
    var a := r + [Quote];
    forall k | 0 <= k < |a| - 1
      ensures !(a[k] == ' ' && a[k + 1] == '-')
    {
      if k + 1 < |r| {
        assert a[k] == r[k] && a[k + 1] == r[k + 1];
      } else {
        assert a[k + 1] == Quote;
      }
    }
  }

  /** The leftmost annotation for `r` in `p + annotation` is the one after `p`. */
  lemma RemoveAnnotation(p: string, r: string)
    requires NoSpaceDash(p)
    ensures RemoveFirst(p + ReasonGiven(r), ReasonGiven(r)) == p
  {
    NoAnnotationInside(p, ReasonGiven(r), "");
    assert p + ReasonGiven(r) == p + ReasonGiven(r) + "";
    RemoveFirstAfter(p, ReasonGiven(r), "");
    assert p + "" == p;
  }

  /** Normalising `r'` followed by the annotation for `r` removes the annotation and keeps the quote. */
  lemma NormaliseQuotedAnnotated(r: string)
    requires IsTrimmed(r) && NoSpaceDash(r)
    ensures NormaliseReason(r + [Quote] + ReasonGiven(r), r) == r + [Quote]
  {
    QuotedKeepsNoSpaceDash(r);
    RemoveAnnotation(r + [Quote], r);
    assert r + [Quote] == "" + (r + [Quote]) + "";
    TrimAround("", r + [Quote], "");
  }

  /**
    The quote stripping runs before the annotation is removed: for a quoted
    reason followed by its annotation, the closing quote is no longer at the
    end when quotes are stripped, so it survives and the normalised reason
    is `r'`, not `r`.
   */
  lemma AnnotatedReasonKeepsClosingQuote(r: string)
    requires IsTrimmed(r) && NoSpaceDash(r) && !Contains(AnnotatedBody(r), ThrowPrefix)
    ensures DeriveReason(GanacheMessage(AnnotatedBody(r))) == r + [Quote] + ReasonGiven(r)
    ensures NormaliseReason(DeriveReason(GanacheMessage(AnnotatedBody(r))), r) == r + [Quote]
  {
    AnnotatedBodyShape(r);
    DeriveGanacheReason(AnnotatedBody(r));
    AnnotatedBodyStripped(r);
    NormaliseQuotedAnnotated(r);
  }

  /** The ganache marker, hence the code `revert`, occurs in every ganache message. */
  lemma GanacheMessageMarked(body: string)
    ensures Contains(GanacheMessage(body), ThrowPrefix)
    ensures Contains(GanacheMessage(body), RevertCode)
  {
    var m := GanacheMessage(body);
    var at := |ErrorPrefix| + 1;
    MarkerAt(body);
    assert ThrowPrefix[43..49] == RevertCode;
    OccurrenceOfInfix(m, ThrowPrefix, at, 43, RevertCode);
    assert OccursAt(m, RevertCode, at + 43);
  }

  /** The ganache marker of a ganache message starts right after `Returned error: `. */
  lemma MarkerAt(body: string)
    ensures OccursAt(GanacheMessage(body), ThrowPrefix, |ErrorPrefix| + 1)
  {
    AppendAssoc(ErrorPrefix, " " + ThrowPrefix, " " + body);
    AppendAssoc(ErrorPrefix, " ", ThrowPrefix);
    assert GanacheMessage(body) == (ErrorPrefix + " ") + ThrowPrefix + (" " + body);
    OccursAfter(ErrorPrefix + " ", ThrowPrefix, " " + body);
  }

  /**
    Hence, outside geth, `assertRevert` with a non-empty reason `r` fails on
    an error whose message is `...: revert '<r>' -- Reason given: <r>.` and
    that has no reason of its own.
   */
  lemma AnnotatedReasonFails<C>(env: Env<C>, e: Err, r: string, ctx: Option<C>)
    requires !env.isGeth(ctx) && IsFalsy(e.reason) && e.message == GanacheMessage(AnnotatedBody(r))
    requires r != "" && IsTrimmed(r) && NoSpaceDash(r) && !Contains(AnnotatedBody(r), ThrowPrefix)
    ensures AssertRevert(env, Raised(e), Some(r), ctx) == Fail
  {
    GanacheMessageMarked(AnnotatedBody(r));
    assert AssertThrows(env, Raised(e), RevertCode, Text(r), ctx) == Pass(Some(e));
    assert EffectiveReason(e) == Some(DeriveReason(e.message));
    AnnotatedReasonKeepsClosingQuote(r);
    assert (r + [Quote])[|r|] == Quote;
    assert NormaliseReason(DeriveReason(e.message), r) != r;
  }

  /** A ganache message spelled out. */
  lemma GanacheMessageSpelled(body: string)
    ensures GanacheMessage(body) == "Returned error: " + "VM Exception while " + "processing transaction: revert" + " " + body
  {
    assert "Returned error: " == ErrorPrefix + " ";
    AppendAssoc("Returned error: ", "VM Exception while ", "processing transaction: revert");
    AppendAssoc(ErrorPrefix, " ", ThrowPrefix);
    AppendAssoc(ErrorPrefix, " " + ThrowPrefix, " ");
    AppendAssoc(ErrorPrefix, " " + ThrowPrefix + " ", body);
  }

  /** The annotated body for `Foo` spelled out. */
  lemma FooAnnotatedSpelled(foo: string)
    requires foo == "Foo"
    ensures AnnotatedBody(foo) == "'Foo' -- Reason given: Foo."
  {
  }

  /** `foo`, which is `Foo`, meets the conditions of `AnnotatedReasonFails`. */
  lemma FooAnnotated(foo: string)
    requires foo == "Foo"
    ensures foo != "" && !Contains(AnnotatedBody(foo), ThrowPrefix) && NoSpaceDash(foo) && IsTrimmed(foo)
  {
    AnnotatedBodyShape(foo);
    ThrowPrefixStartsV2();
    ShorterNeverContains(AnnotatedBody(foo), ThrowPrefix);
  }

  /** The annotated message for `foo`, which is `Foo`, normalises to `Foo'`. */
  lemma FooNormalisesWithQuote(foo: string)
    requires foo == "Foo"
    ensures NormaliseReason(DeriveReason(GanacheMessage(AnnotatedBody(foo))), foo) == "Foo'"
  {
    assert foo + [Quote] == "Foo'";
    FooAnnotated(foo);
    AnnotatedReasonKeepsClosingQuote(foo);
  }

  /** `assertRevert` expecting `foo`, which is `Foo`, fails on the annotated message for it. */
  lemma FooAnnotatedFails<C>(env: Env<C>, ctx: Option<C>, foo: string)
    requires !env.isGeth(ctx) && foo == "Foo"
    ensures AssertRevert(env, Raised(Err(GanacheMessage(AnnotatedBody(foo)), None, None, None)), Some(foo), ctx) == Fail
  {
    FooAnnotated(foo);
    AnnotatedReasonFails(env, Err(GanacheMessage(AnnotatedBody(foo)), None, None, None), foo, ctx);
  }

  /**
    The example message `m`, which is `Returned error: VM Exception while
    processing transaction: revert 'Foo' -- Reason given: Foo.`, normalises
    to `Foo'`, and `assertRevert` expecting `Foo` fails on it.
   */
  lemma FooExampleFails<C>(env: Env<C>, ctx: Option<C>, m: string, foo: string)
    requires !env.isGeth(ctx) && foo == "Foo"
    requires m == "Returned error: " + "VM Exception while " + "processing transaction: revert" + " " + "'Foo' -- Reason given: Foo."
    ensures NormaliseReason(DeriveReason(m), foo) == "Foo'"
    ensures AssertRevert(env, Raised(Err(m, None, None, None)), Some(foo), ctx) == Fail
  {
    FooAnnotatedSpelled(foo);
    GanacheMessageSpelled(AnnotatedBody(foo));
    FooNormalisesWithQuote(foo);
    FooAnnotatedFails(env, ctx, foo);
  }

  /**
    Without an expected reason (undefined or empty), `assertRevert` is
    `assertThrows` with the code `revert`: it passes, fails or throws exactly
    when that does, and compares no reason.
   */
  lemma RevertWithoutReasonIsThrows<C>(env: Env<C>, outcome: Outcome, expected: Option<string>, ctx: Option<C>)
    requires IsFalsy(expected)
    ensures var t := AssertThrows(env, outcome, RevertCode, ReasonArgOf(expected), ctx);
            var v := AssertRevert(env, outcome, expected, ctx);
            && (v.Pass? <==> t.Pass?) && (v == Fail <==> t == Fail) && (v == Crash <==> t == Crash)
    ensures expected.None? && env.isGeth(ctx) && outcome.Raised? && outcome.error.receipt == Some(Receipt(Some(FailedStatus)))
            ==> AssertRevert(env, outcome, expected, ctx) == Crash
  {
  }

  /**
    Outside geth, with a non-empty expected reason, `assertRevert` passes
    exactly when the message contains `revert` and the error's reason (its
    own, or the one derived from the message) normalises to the expected one.
   */
  lemma NonGethRevertChecksReason<C>(env: Env<C>, e: Err, expected: string, ctx: Option<C>)
    requires !env.isGeth(ctx) && expected != ""
    ensures AssertRevert(env, Raised(e), Some(expected), ctx).Pass?
            <==> Contains(e.message, RevertCode) && EffectiveReason(e).Some?
                 && NormaliseReason(EffectiveReason(e).value, expected) == expected
    ensures Contains(e.message, RevertCode) && e.reason.None? && !Contains(e.message, ThrowPrefix)
            ==> AssertRevert(env, Raised(e), Some(expected), ctx) == Crash
  {
  }

  /**
    On geth, with a non-empty expected reason, the reason compared is the
    decoder's (unless it is empty and the message carries the marker), and
    `assertRevert` passes exactly when it normalises to the expected one.
   */
  lemma GethRevertChecksDecodedReason<C>(env: Env<C>, e: Err, expected: string, ctx: Option<C>, tx: Tx)
    requires env.isGeth(ctx) && e.receipt == Some(Receipt(Some(FailedStatus))) && e.tx == Some(tx)
    requires expected != "" && env.decode(tx, ctx) != ""
    ensures AssertRevert(env, Raised(e), Some(expected), ctx).Pass?
            <==> NormaliseReason(env.decode(tx, ctx), expected) == expected
  {
    var decoded := e.(reason := Some(env.decode(tx, ctx)));
    assert AssertThrows(env, Raised(e), RevertCode, Text(expected), ctx) == Pass(Some(decoded));
    assert EffectiveReason(decoded) == Some(env.decode(tx, ctx));
  }

  /**
    On geth, when the decoder finds no reason, the error's reason is empty,
    hence falsy: a message carrying the ganache marker supplies the reason
    compared, and a message without it leaves the empty reason, which never
    equals a non-empty expected one.
   */
  lemma GethEmptyDecodedReason<C>(env: Env<C>, e: Err, expected: string, ctx: Option<C>, tx: Tx)
    requires env.isGeth(ctx) && e.receipt == Some(Receipt(Some(FailedStatus))) && e.tx == Some(tx)
    requires expected != "" && env.decode(tx, ctx) == ""
    ensures Contains(e.message, ThrowPrefix) ==>
              (AssertRevert(env, Raised(e), Some(expected), ctx).Pass?
               <==> NormaliseReason(DeriveReason(e.message), expected) == expected)
    ensures !Contains(e.message, ThrowPrefix) ==> AssertRevert(env, Raised(e), Some(expected), ctx) == Fail
  {
    var decoded := e.(reason := Some(""));
    assert AssertThrows(env, Raised(e), RevertCode, Text(expected), ctx) == Pass(Some(decoded));
    assert AssertRevert(env, Raised(e), Some(expected), ctx) == CheckReason(decoded, expected);
    if Contains(e.message, ThrowPrefix) {
      assert EffectiveReason(decoded) == Some(DeriveReason(e.message));
    } else {
      assert EffectiveReason(decoded) == Some("");
      ShorterNeverContains("", ReasonGiven(expected));
      assert NormaliseReason("", expected) == "";
    }
  }

  /**
    Ganache, Truffle v4: an error without a reason of its own whose message is
    a ganache message gets, as its reason, the body with its quotes stripped.
   */
  lemma GanacheReasonRecovered(e: Err, body: string)
    requires IsFalsy(e.reason) && e.message == GanacheMessage(body)
    requires IsTrimmed(body) && !Contains(body, ThrowPrefix)
    ensures EffectiveReason(e) == Some(StripQuotes(body))
  {
    GanacheMessageMarked(body);
    DeriveGanacheReason(body);
  }

  /**
    The annotation removal does its job on the message it was written for:
    outside geth, an unquoted reason followed by its annotation,
    `...: revert <r> -- Reason given: <r>.`, passes as written.
   */
  lemma UnquotedAnnotatedPasses<C>(env: Env<C>, e: Err, r: string, ctx: Option<C>)
    requires !env.isGeth(ctx) && IsFalsy(e.reason) && e.message == GanacheMessage(r + ReasonGiven(r))
    requires r != "" && IsTrimmed(r) && NoSpaceDash(r) && !StartsWithQuote(r)
    requires !Contains(r + ReasonGiven(r), ThrowPrefix)
    ensures AssertRevert(env, Raised(e), Some(r), ctx) == Pass(None)
  {
    var body := r + ReasonGiven(r);
    assert body[0] == r[0] && body[|body| - 1] == '.';
    assert StripQuotes(body) == body;
    GanacheReasonRecovered(e, body);
    GanacheMessageMarked(body);
    assert AssertThrows(env, Raised(e), RevertCode, Text(r), ctx) == Pass(Some(e));
    NormaliseAnnotated(r);
  }

  /**
    Truffle v5: an error whose own reason is the expected one followed by its
    annotation passes, since the annotation is removed before the comparison.
   */
  lemma AnnotatedReasonFieldPasses(e: Err, r: string)
    requires r != "" && IsTrimmed(r) && NoSpaceDash(r) && e.reason == Some(r + ReasonGiven(r))
    ensures CheckReason(e, r) == Pass(None)
  {
    NormaliseAnnotated(r);
    assert EffectiveReason(e) == Some(r + ReasonGiven(r));
  }

  /** A trimmed reason followed by its own annotation normalises to the reason. */
  lemma NormaliseAnnotated(r: string)
    requires IsTrimmed(r) && NoSpaceDash(r)
    ensures NormaliseReason(r + ReasonGiven(r), r) == r
  {
    RemoveAnnotation(r, r);
    assert r == "" + r + "";
    TrimAround("", r, "");
  }
}
