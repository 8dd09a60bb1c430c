/**
 * The input-validation middleware. It reads every error the chains of a
 * route recorded, keeps only the first error of each field
 * (`onlyFirstError`), and either answers 400 with those errors renamed to
 * `{ message, field }` or passes the request on to the handler.
 */
module InputValidation {
  import opened Wrappers
  import opened Validation

  /** The set of fields that have at least one error in `errs`. */
  function Paths(errs: seq<ValidationError>): set<string> {
    set k | 0 <= k < |errs| :: errs[k].path
  }

  /**
   * `onlyFirstError` from the field set `seen` on: walks the errors in
   * recording order and keeps an error exactly when no earlier one (nor
   * `seen`) has its field.
   */
  function KeepFirst(errs: seq<ValidationError>, seen: set<string>): (r: seq<ValidationError>)
    ensures |r| <= |errs|
    ensures forall k :: 0 <= k < |r| ==> r[k].path !in seen && r[k] in errs
    ensures forall j, k :: 0 <= j < k < |r| ==> r[j].path != r[k].path
    ensures Paths(r) == Paths(errs) - seen
  {
    if errs == [] then []
    else
      var rest := errs[1..];
      assert errs == [errs[0]] + rest;
      PathsCons(errs[0], rest);
      if errs[0].path in seen then KeepFirst(rest, seen)
      else
        var tail := KeepFirst(rest, seen + {errs[0].path});
        PathsCons(errs[0], tail);
        [errs[0]] + tail
  }

  /** The fields of an error list are its head's field and its tail's. */
  lemma PathsCons(e: ValidationError, rest: seq<ValidationError>)
    ensures Paths([e] + rest) == {e.path} + Paths(rest)
  {
    var r := [e] + rest;
    forall p | p in Paths(r) ensures p in {e.path} + Paths(rest) {
      var k :| 0 <= k < |r| && r[k].path == p;
      if k > 0 { assert rest[k - 1].path == p; }
    }
    assert r[0].path == e.path;
    forall p | p in Paths(rest) ensures p in Paths(r) {
      var k :| 0 <= k < |rest| && rest[k].path == p;
      assert r[k + 1].path == p;
    }
  }

  /** The position of the first error filed under `p`, or `|errs|` when none is. */
  function FirstAt(errs: seq<ValidationError>, p: string): (n: nat)
    ensures n <= |errs|
    ensures n < |errs| <==> p in Paths(errs)
    ensures n < |errs| ==> errs[n].path == p
    ensures forall j :: 0 <= j < n ==> errs[j].path != p
  {
    if errs == [] then 0
    else if errs[0].path == p then 0
    else
      var n := 1 + FirstAt(errs[1..], p);
      assert forall j :: 1 <= j < |errs| ==> errs[j] == errs[1..][j - 1];
      assert errs == [errs[0]] + errs[1..];
      PathsCons(errs[0], errs[1..]);
      n
  }

  /** Past a head filed under another field, the first position of `p` is one more than in the rest. */
  lemma FirstAtPastHead(errs: seq<ValidationError>, p: string)
    requires errs != [] && errs[0].path != p
    ensures FirstAt(errs, p) == 1 + FirstAt(errs[1..], p)
    ensures FirstAt(errs[1..], p) < |errs[1..]| ==> errs[FirstAt(errs, p)] == errs[1..][FirstAt(errs[1..], p)]
  {
  }

  /** Every error `KeepFirst` keeps is the first error recorded under its field. */
  lemma {:induction false} KeepFirstKeepsFirsts(errs: seq<ValidationError>, seen: set<string>)
    ensures forall k :: 0 <= k < |KeepFirst(errs, seen)| ==>
              && FirstAt(errs, KeepFirst(errs, seen)[k].path) < |errs|
              && errs[FirstAt(errs, KeepFirst(errs, seen)[k].path)] == KeepFirst(errs, seen)[k]
  {
    if errs != [] {
      var e, rest := errs[0], errs[1..];
      var r := KeepFirst(errs, seen);
      var seen' := if e.path in seen then seen else seen + {e.path};
      var tail := KeepFirst(rest, seen');
      KeepFirstKeepsFirsts(rest, seen');
      var d := if e.path in seen then 0 else 1;
      assert r == if e.path in seen then tail else [e] + tail;
      forall k | d <= k < |r|
        ensures FirstAt(errs, r[k].path) < |errs| && errs[FirstAt(errs, r[k].path)] == r[k]
      {
        var p := r[k].path;
        assert r[k] == tail[k - d];
        assert tail[k - d].path !in seen';
        assert FirstAt(rest, p) < |rest| && rest[FirstAt(rest, p)] == tail[k - d];
        FirstAtPastHead(errs, p);
      }
    }
  }

  /** The errors `KeepFirst` keeps come in the order of the first errors of their fields. */
  lemma {:induction false} KeepFirstKeepsOrder(errs: seq<ValidationError>, seen: set<string>)
    ensures forall j, k :: 0 <= j < k < |KeepFirst(errs, seen)| ==>
              FirstAt(errs, KeepFirst(errs, seen)[j].path) < FirstAt(errs, KeepFirst(errs, seen)[k].path)
  {
    if errs != [] {
      var e, rest := errs[0], errs[1..];
      var r := KeepFirst(errs, seen);
      var seen' := if e.path in seen then seen else seen + {e.path};
      var tail := KeepFirst(rest, seen');
      KeepFirstKeepsOrder(rest, seen');
      var d := if e.path in seen then 0 else 1;
      assert r == if e.path in seen then tail else [e] + tail;
      forall k | d <= k < |r| ensures FirstAt(errs, r[k].path) == 1 + FirstAt(rest, tail[k - d].path) {
        assert r[k] == tail[k - d];
        assert tail[k - d].path !in seen';
        FirstAtPastHead(errs, r[k].path);
      }
      forall j, k | 0 <= j < k < |r| ensures FirstAt(errs, r[j].path) < FirstAt(errs, r[k].path) {
        if j < d {
          assert r[j] == e;
        } else {
          assert FirstAt(rest, tail[j - d].path) < FirstAt(rest, tail[k - d].path);
        }
      }
    }
  }

  /**
   * `errors.array({ onlyFirstError: true })`: the first error of each
   * failing field, in the order those first errors were recorded.
   */
  function OnlyFirstError(errs: seq<ValidationError>): (r: seq<ValidationError>)
    ensures forall j, k :: 0 <= j < k < |r| ==> r[j].path != r[k].path
    ensures Paths(r) == Paths(errs)
    ensures r == [] <==> errs == []
    ensures forall k :: 0 <= k < |r| ==> FirstAt(errs, r[k].path) < |errs| && errs[FirstAt(errs, r[k].path)] == r[k]
    ensures forall j, k :: 0 <= j < k < |r| ==> FirstAt(errs, r[j].path) < FirstAt(errs, r[k].path)
  {
    var r := KeepFirst(errs, {});
    KeepFirstKeepsFirsts(errs, {});
    KeepFirstKeepsOrder(errs, {});
    assert errs != [] ==> errs[0].path in Paths(errs);
    assert r != [] ==> r[0].path in Paths(r);
    r
  }

  /** One entry of the 400 answer's `errorsMessages`. */
  datatype FieldError = FieldError(message: string, field: string)

  /** What the middleware does: call `next()`, or answer 400 with `errorsMessages`. */
  datatype Verdict = Next | Reject(errorsMessages: seq<FieldError>)

  /** Renames `msg` to `message` and `path` to `field`, keeping the order. */
  function Rename(errs: seq<ValidationError>): (r: seq<FieldError>)
    ensures |r| == |errs|
    ensures forall k :: 0 <= k < |r| ==> r[k].message == errs[k].msg && r[k].field == errs[k].path
  {
    seq(|errs|, k requires 0 <= k < |errs| => FieldError(errs[k].msg, errs[k].path))
  }

  /**
   * `inputValidationMiddleware` on the errors `errs` the route's chains
   * recorded: the request passes on exactly when nothing failed; otherwise
   * the answer lists one error per failing field, each field once.
   */
  function Middleware(errs: seq<ValidationError>): (r: Verdict)
    ensures r.Next? <==> errs == []
    ensures r.Reject? ==> Fields(r.errorsMessages) == Paths(errs)
    ensures r.Reject? ==>
              forall k :: 0 <= k < |r.errorsMessages| ==>
                var i := FirstAt(errs, r.errorsMessages[k].field);
                i < |errs| && errs[i] == ValidationError(r.errorsMessages[k].message, r.errorsMessages[k].field)
    ensures r.Reject? ==>
              forall j, k :: 0 <= j < k < |r.errorsMessages| ==>
                FirstAt(errs, r.errorsMessages[j].field) < FirstAt(errs, r.errorsMessages[k].field)
  {
    if errs == [] then Next
    else
      var kept := OnlyFirstError(errs);
      var msgs := Rename(kept);
      RenameFields(kept);
      Reject(msgs)
  }

  /** The fields an answer lists. */
  function Fields(msgs: seq<FieldError>): set<string> {
    set k | 0 <= k < |msgs| :: msgs[k].field
  }

  /** Renaming keeps the set of fields. */
  lemma RenameFields(errs: seq<ValidationError>)
    ensures Fields(Rename(errs)) == Paths(errs)
  {
    var r := Rename(errs);
    forall p | p in Paths(errs) ensures p in Fields(r) {
      var k :| 0 <= k < |errs| && errs[k].path == p;
      assert r[k].field == p;
    }
  }

  // ---- the bridge between recorded errors and the first-failure reading ----

  /** Fields already reported swallow every later error under them. */
  lemma {:induction false} KeepFirstSkipsSeen(e: seq<ValidationError>, b: seq<ValidationError>, seen: set<string>)
    requires forall k :: 0 <= k < |e| ==> e[k].path in seen
    ensures KeepFirst(e + b, seen) == KeepFirst(b, seen)
  {
    if e != [] {
      assert (e + b)[0] == e[0] && (e + b)[1..] == e[1..] + b;
      KeepFirstSkipsSeen(e[1..], b, seen);
    } else {
      assert e + b == b;
    }
  }

  /** The errors of one field `f` contribute their first error and then mark `f` as seen. */
  lemma KeepFirstOneField(e: seq<ValidationError>, b: seq<ValidationError>, seen: set<string>, f: string)
    requires forall k :: 0 <= k < |e| ==> e[k].path == f
    requires f !in seen
    ensures e == [] ==> KeepFirst(e + b, seen) == KeepFirst(b, seen)
    ensures e != [] ==> KeepFirst(e + b, seen) == [e[0]] + KeepFirst(b, seen + {f})
  {
    if e != [] {
      assert e + b == [e[0]] + (e[1..] + b);
      assert (e + b)[1..] == e[1..] + b;
      KeepFirstSkipsSeen(e[1..], b, seen + {f});
    } else {
      assert e + b == b;
    }
  }

  /** The fields of a route's chains are pairwise distinct. */
  predicate DistinctFields(cs: seq<Chain>) {
    forall i, j :: 0 <= i < j < |cs| ==> cs[i].field != cs[j].field
  }

  /**
   * With one chain per field, keeping the first recorded error of each
   * field is the same as taking each chain's first failing check in
   * declaration order.
   */
  lemma {:induction false} KeepFirstIsFirstErrors(cs: seq<Chain>, body: Json.Body, seen: set<string>)
    requires DistinctFields(cs)
    requires forall i :: 0 <= i < |cs| ==> cs[i].field !in seen
    ensures KeepFirst(RunChains(cs, body), seen) == FirstErrors(cs, body)
  {
    if cs != [] {
      var c := cs[0];
      var e := RunChain(c, body);
      KeepFirstOneField(e, RunChains(cs[1..], body), seen, c.field);
      var seen' := if e == [] then seen else seen + {c.field};
      forall i | 0 <= i < |cs[1..]| ensures cs[1..][i].field !in seen' {
        assert cs[1..][i] == cs[i + 1];
      }
      KeepFirstIsFirstErrors(cs[1..], body, seen');
      RunChainFirst(c, body);
    }
  }

  /** The first error a chain records is the one it reports. */
  lemma RunChainFirst(c: Chain, body: Json.Body)
    ensures RunChain(c, body) == [] <==> Reported(c, body) == []
    ensures RunChain(c, body) != [] ==> [RunChain(c, body)[0]] == Reported(c, body)
  {
    var v := Json.Lookup(body, c.field);
    if !Skips(c.optionality, v) {
      FirstFailureIsFirstRecorded(c.steps, v);
    }
  }

  /**
   * The middleware over a route whose chains name distinct fields: the
   * request passes exactly when every chain's first-failure verdict is
   * clean, and otherwise the answer is each failing field's first failing
   * check, in declaration order.
   */
  lemma MiddlewareReportsFirstErrors(cs: seq<Chain>, body: Json.Body)
    requires DistinctFields(cs)
    ensures Middleware(RunChains(cs, body)) ==
              if FirstErrors(cs, body) == [] then Next else Reject(Rename(FirstErrors(cs, body)))
  {
    KeepFirstIsFirstErrors(cs, body, {});
  }

  /** A route's first-failure reading is clean exactly when no chain reports a failure. */
  lemma {:induction false} FirstErrorsEmpty(cs: seq<Chain>, body: Json.Body)
    ensures FirstErrors(cs, body) == [] <==> forall i :: 0 <= i < |cs| ==> ChainVerdict(cs[i], body).None?
  {
    if cs != [] {
      FirstErrorsEmpty(cs[1..], body);
      assert forall i :: 1 <= i < |cs| ==> cs[i] == cs[1..][i - 1];
    }
  }
}
