/**
 * express-validator's field chains. A chain is an ordered list of checks
 * and sanitizers for one body field. Running it does not stop at a failing
 * check: every failing check records an error, and each sanitizer changes
 * the value the later steps see. `optional()` skips the whole chain for an
 * undefined (or, with `nullable`, a null) value.
 */
module Validation {
  import opened Wrappers
  import opened Json
  import JsStrings

  /**
   * The validators the routes use. Standard validators (`notEmpty`,
   * `isLength`, `isInt`, `isURL`, `isISO8601`) look at `toString` of the
   * value, element by element for an array; the others are custom checks
   * on the whole value. The URL and ISO-8601 syntaxes are parameters.
   */
  datatype Rule =
    | IsString                         // isString()
    | NotString                        // not().isString()
    | IsArray                          // isArray()
    | NotArray                         // not().isArray()
    | StrictBoolean                    // isBoolean({ strict: true })
    | NotEmpty                         // notEmpty()
    | MaxLength(limit: nat)            // isLength({ max })
    | IntBetween(low: int, high: int)  // isInt({ min, max })
    | Url(isUrl: string -> bool)       // isURL()
    | Iso8601(isIso: string -> bool)   // isISO8601()
    | KnownTags(tags: seq<string>)     // custom(): a non-empty array of listed tags
    | KnownId(ids: seq<string>)        // custom(): strictly equal to one of the ids

  /** A check with the message it records, or the `trim()` sanitizer. */
  datatype Step = Check(rule: Rule, message: string) | Trim

  /** No `optional()`, `optional()`, or `optional({ nullable: true })`. */
  datatype Optionality = Mandatory | SkipUndefined | SkipUndefinedOrNull

  datatype Chain = Chain(field: string, optionality: Optionality, steps: seq<Step>)

  /** An error as express-validator records it: `msg` and the field `path`. */
  datatype ValidationError = ValidationError(msg: string, path: string)

  predicate Skips(o: Optionality, v: Json) {
    match o
    case Mandatory => false
    case SkipUndefined => v == Undefined
    case SkipUndefinedOrNull => v == Undefined || v == Null
  }

  /** The messages of every failing check, in step order. */
  function Failures(steps: seq<Step>, v: Json): seq<string>
  {
    if steps == [] then []
    else
      match steps[0]
      case Check(rule, m) => (if Passes(rule, v) then [] else [m]) + Failures(steps[1..], v)
      case Trim => Failures(steps[1..], TrimValue(v))
  }

  /** The message of the first failing check: evaluation that stops at the first failure. */
  function FirstFailure(steps: seq<Step>, v: Json): Option<string>
  {
    if steps == [] then None
    else
      match steps[0]
      case Check(rule, m) => if Passes(rule, v) then FirstFailure(steps[1..], v) else Some(m)
      case Trim => FirstFailure(steps[1..], TrimValue(v))
  }

  /** The value after every sanitizer has run. */
  function Settle(steps: seq<Step>, v: Json): Json
  {
    if steps == [] then v
    else
      match steps[0]
      case Check(_, _) => Settle(steps[1..], v)
      case Trim => Settle(steps[1..], TrimValue(v))
  }

  /** Stopping at the first failure reports exactly the first error a full run records. */
  lemma {:induction false} FirstFailureIsFirstRecorded(steps: seq<Step>, v: Json)
    ensures FirstFailure(steps, v).None? <==> Failures(steps, v) == []
    ensures FirstFailure(steps, v).Some? ==> FirstFailure(steps, v).value == Failures(steps, v)[0]
  {
    if steps != [] {
      match steps[0]
      case Check(_, _) => FirstFailureIsFirstRecorded(steps[1..], v);
      case Trim => FirstFailureIsFirstRecorded(steps[1..], TrimValue(v));
    }
  }

  /** The errors one chain records for `body`, all under the chain's field. */
  function RunChain(c: Chain, body: Body): (errs: seq<ValidationError>)
    ensures forall k :: 0 <= k < |errs| ==> errs[k].path == c.field
  {
    var v := Lookup(body, c.field);
    if Skips(c.optionality, v) then []
    else
      var msgs := Failures(c.steps, v);
      seq(|msgs|, k requires 0 <= k < |msgs| => ValidationError(msgs[k], c.field))
  }

  /** The errors a route's chains record, chain after chain. */
  function RunChains(cs: seq<Chain>, body: Body): seq<ValidationError>
  {
    if cs == [] then [] else RunChain(cs[0], body) + RunChains(cs[1..], body)
  }

  /** The first failure of one chain, if it runs. */
  function ChainVerdict(c: Chain, body: Body): Option<string>
  {
    var v := Lookup(body, c.field);
    if Skips(c.optionality, v) then None else FirstFailure(c.steps, v)
  }

  /**
   * The reference reading of a route's validation: one error per failing
   * field, its first failing check, in field-declaration order.
   */
  function FirstErrors(cs: seq<Chain>, body: Body): seq<ValidationError>
  {
    if cs == [] then [] else Reported(cs[0], body) + FirstErrors(cs[1..], body)
  }

  /** The error one chain contributes to `FirstErrors`: none, or its first failure under its field. */
  function Reported(c: Chain, body: Body): (r: seq<ValidationError>)
    ensures |r| <= 1
    ensures r == [] <==> ChainVerdict(c, body).None?
    ensures r != [] ==> r[0] == ValidationError(ChainVerdict(c, body).value, c.field)
  {
    match ChainVerdict(c, body)
    case Some(m) => [ValidationError(m, c.field)]
    case None => []
  }

  /** A chain's last check fails exactly when its rule does, and leaves the value as it is. */
  lemma LastCheck(rule: Rule, m: string, v: Json)
    ensures FirstFailure([Check(rule, m)], v) == if Passes(rule, v) then None else Some(m)
    ensures Settle([Check(rule, m)], v) == v
  {
    assert [Check(rule, m)][1..] == [];
  }

  /** `FirstErrors` of a chain followed by more chains. */
  lemma FirstErrorsCons(c: Chain, cs: seq<Chain>, body: Body)
    ensures FirstErrors([c] + cs, body) == Reported(c, body) + FirstErrors(cs, body)
  {
    assert ([c] + cs)[1..] == cs;
  }

  /**
   * Checks that all carry one message, as `body(field, message)` gives
   * them: the chain reports that message exactly when some check fails,
   * and leaves the value as it is.
   */
  lemma {:induction false} OneMessage(steps: seq<Step>, m: string, v: Json)
    requires forall i :: 0 <= i < |steps| ==> steps[i].Check? && steps[i].message == m
    ensures FirstFailure(steps, v) ==
      if forall i :: 0 <= i < |steps| ==> Passes(steps[i].rule, v) then None else Some(m)
    ensures Settle(steps, v) == v
  {
    if steps != [] {
      OneMessage(steps[1..], m, v);
      assert forall i :: 1 <= i < |steps| ==> steps[i] == steps[1..][i - 1];
    }
  }

  /** The value of a chain's field once its sanitizers have run (unchanged when skipped). */
  function Settled(c: Chain, body: Body): Json
  {
    var v := Lookup(body, c.field);
    if Skips(c.optionality, v) then v else Settle(c.steps, v)
  }

  // ---- the validators and the sanitizer ----

  /** A standard validator's verdict: `p` holds of `toString` of the value, or of every element's. */
  predicate EveryText(v: Json, p: string -> bool) {
    if v.Arr? then forall i :: 0 <= i < |v.items| ==> p(Text(v.items[i])) else p(Text(v))
  }

  /** validator.js `isInt({ min, max })` on a text: `^[-+]?[0-9]+$` and the bounds. */
  predicate IntTextBetween(s: string, min: int, max: int) {
    JsStrings.IsIntText(s) && min <= JsStrings.IntValue(s) <= max
  }

  /** Whether `v` passes `rule`. */
  predicate Passes(rule: Rule, v: Json) {
    match rule
    case IsString => v.Str?
    case NotString => !v.Str?
    case IsArray => v.Arr?
    case NotArray => !v.Arr?
    case StrictBoolean => v.Bool?
    case NotEmpty => EveryText(v, s => s != [])
    case MaxLength(max) => EveryText(v, s => Length(s) <= max)
    case IntBetween(min, max) => EveryText(v, s => IntTextBetween(s, min, max))
    case Url(isUrl) => EveryText(v, isUrl)
    case Iso8601(isIso) => EveryText(v, isIso)
    case KnownTags(tags) =>
      v.Arr? && |v.items| > 0 && forall i :: 0 <= i < |v.items| ==> v.items[i].Str? && v.items[i].s in tags
    case KnownId(ids) => v.Str? && v.s in ids
  }

  /** The `trim` sanitizer: trims `toString` of the value, element-wise on arrays. */
  function TrimValue(v: Json): Json {
    if v.Arr? then Arr(seq(|v.items|, i requires 0 <= i < |v.items| => Str(JsStrings.Trim(Text(v.items[i])))))
    else Str(JsStrings.Trim(Text(v)))
  }

  /** Without variation selectors, `isLength` counts every code point. */
  lemma {:induction false} LengthWithoutSelectors(s: string)
    requires forall i :: 0 <= i < |s| ==> !IsVariationSelector(s[i])
    ensures Length(s) == |s|
  {
    if s != [] {
      LengthWithoutSelectors(s[1..]);
    }
  }

  /** U+FE0E and U+FE0F, which validator.js `isLength` does not count. */
  predicate IsVariationSelector(c: char) {
    c == '\U{FE0E}' || c == '\U{FE0F}'
  }

  /** The length validator.js `isLength` measures: code points, less variation selectors. */
  function Length(s: string): (n: nat)
    ensures n <= |s|
  {
    if s == [] then 0
    else Length(s[1..]) + (if IsVariationSelector(s[0]) then 0 else 1)
  }

  /**
   * The chain of a required text field: `isString()` with message `invalid`,
   * `trim()`, `notEmpty()` with message `required`, `isLength({ max })` with
   * message `tooLong`.
   */
  function TextChain(field: string, max: nat, invalid: string, required: string, tooLong: string): Chain {
    Chain(field, Mandatory, [Check(IsString, invalid), Trim, Check(NotEmpty, required), Check(MaxLength(max), tooLong)])
  }

  /** The two checks after `trim` in a text chain, on the trimmed string `x`. */
  lemma TrimmedTextVerdict(field: string, max: nat, invalid: string, required: string, tooLong: string, x: string)
    ensures FirstFailure(TextChain(field, max, invalid, required, tooLong).steps[2..], Str(x)) ==
      if x == [] then Some(required) else if Length(x) > max then Some(tooLong) else None
    ensures Settle(TextChain(field, max, invalid, required, tooLong).steps[2..], Str(x)) == Str(x)
  {
    var s2 := TextChain(field, max, invalid, required, tooLong).steps[2..];
    assert s2 == [Check(NotEmpty, required), Check(MaxLength(max), tooLong)];
    var s3 := s2[1..];
    assert s3 == [Check(MaxLength(max), tooLong)];
    assert s3[1..] == [];
    assert Passes(NotEmpty, Str(x)) <==> x != [];
    assert Passes(MaxLength(max), Str(x)) <==> Length(x) <= max;
    assert FirstFailure(s3[1..], Str(x)) == None;
    assert FirstFailure(s3, Str(x)) == if Length(x) <= max then None else Some(tooLong);
    assert Settle(s3, Str(x)) == Str(x);
  }

  /** A text chain on a string: `isString()` passes and the later checks see the trimmed string. */
  lemma TextChainOnString(field: string, max: nat, invalid: string, required: string, tooLong: string, v: Json)
    requires v.Str?
    ensures FirstFailure(TextChain(field, max, invalid, required, tooLong).steps, v) ==
      FirstFailure(TextChain(field, max, invalid, required, tooLong).steps[2..], TrimValue(v))
    ensures Settle(TextChain(field, max, invalid, required, tooLong).steps, v) ==
      Settle(TextChain(field, max, invalid, required, tooLong).steps[2..], TrimValue(v))
  {
    var s0 := TextChain(field, max, invalid, required, tooLong).steps;
    var s1 := s0[1..];
    assert s0[0] == Check(IsString, invalid) && s1[0] == Trim && s1[1..] == s0[2..];
  }

  /**
   * A text chain reports `invalid` for a non-string, else `required` when
   * the trimmed string is empty, else `tooLong` when the trimmed string is
   * longer than `max`; a string leaves the chain trimmed.
   */
  lemma TextChainVerdict(field: string, max: nat, invalid: string, required: string, tooLong: string, v: Json)
    ensures FirstFailure(TextChain(field, max, invalid, required, tooLong).steps, v) ==
      if !v.Str? then Some(invalid)
      else if JsStrings.Trim(v.s) == [] then Some(required)
      else if Length(JsStrings.Trim(v.s)) > max then Some(tooLong)
      else None
    ensures v.Str? ==> Settle(TextChain(field, max, invalid, required, tooLong).steps, v) == Str(JsStrings.Trim(v.s))
  {
    if v.Str? {
      TextChainOnString(field, max, invalid, required, tooLong, v);
      assert TrimValue(v) == Str(JsStrings.Trim(v.s));
      TrimmedTextVerdict(field, max, invalid, required, tooLong, JsStrings.Trim(v.s));
    } else {
      assert TextChain(field, max, invalid, required, tooLong).steps[0] == Check(IsString, invalid);
    }
  }

  /** What a text chain contributes to `FirstErrors` for a body whose field holds `v`. */
  lemma TextChainReported(field: string, max: nat, invalid: string, required: string, tooLong: string, body: Body, v: Json)
    requires Lookup(body, field) == v
    ensures Reported(TextChain(field, max, invalid, required, tooLong), body) ==
      if !v.Str? then [ValidationError(invalid, field)]
      else if JsStrings.Trim(v.s) == [] then [ValidationError(required, field)]
      else if Length(JsStrings.Trim(v.s)) > max then [ValidationError(tooLong, field)]
      else []
  {
    TextChainVerdict(field, max, invalid, required, tooLong, v);
  }

  /** A value its text chain lets through: a string whose trimmed text is non-empty and at most `max` long. */
  predicate TextFits(v: Json, max: nat) {
    v.Str? && JsStrings.Trim(v.s) != [] && Length(JsStrings.Trim(v.s)) <= max
  }

  /** A text chain reports nothing exactly for the values that fit it. */
  lemma TextChainFits(field: string, max: nat, invalid: string, required: string, tooLong: string, body: Body, v: Json)
    requires Lookup(body, field) == v
    ensures Reported(TextChain(field, max, invalid, required, tooLong), body) == [] <==> TextFits(v, max)
  {
    TextChainReported(field, max, invalid, required, tooLong, body, v);
  }

  /** A fitting value leaves its text chain as its trimmed string. */
  lemma TextChainSettled(field: string, max: nat, invalid: string, required: string, tooLong: string, body: Body)
    requires TextFits(Lookup(body, field), max)
    ensures Settled(TextChain(field, max, invalid, required, tooLong), body) == Str(JsStrings.Trim(Lookup(body, field).s))
  {
    TextChainVerdict(field, max, invalid, required, tooLong, Lookup(body, field));
  }
}
