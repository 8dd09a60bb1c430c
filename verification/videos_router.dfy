/**
 * The `/videos` routes. None of them checks authorization. Create and
 * update run six field chains and the input-validation middleware; the
 * four optional fields' chains carry a single message each. The path's
 * `videoId` reaches the repository through unary `+`, so a path that is
 * not a number finds nothing.
 */
module VideosRouter {
  import opened Wrappers
  import opened Json
  import opened Db
  import opened Validation
  import opened InputValidation
  import opened Http
  import JsStrings
  import JsNumbers
  import Table
  import VideosRepository

  /** `title`: a string, trimmed, non-empty, at most 40 long. */
  const TitleChain: Chain := TextChain("title", 40, "title is invalid", "title is required", "title is too long")

  /** `author`: a string, trimmed, non-empty, at most 20 long. */
  const AuthorChain: Chain := TextChain("author", 20, "author is invalid", "author is required", "author is too long")

  const DownloadableMessage: string := "can be downloaded is invalid"
  const AgeMessage: string := "min age restriction is invalid"
  const DateMessage: string := "publication date is invalid"
  const ResolutionsMessage: string := "available resolutions is invalid"

  /** `canBeDownloaded`: when present, strictly a boolean. */
  const CanBeDownloadedChain: Chain :=
    Chain("canBeDownloaded", SkipUndefined, [Check(StrictBoolean, DownloadableMessage)])

  /** `minAgeRestriction`: when present and not `null`, neither string nor array, an integer from 1 to 18. */
  const MinAgeRestrictionChain: Chain :=
    Chain("minAgeRestriction", SkipUndefinedOrNull, [
      Check(NotString, AgeMessage),
      Check(NotArray, AgeMessage),
      Check(IntBetween(1, 18), AgeMessage)])

  /** `publicationDate`: when present, not an array, an ISO-8601 date. */
  function PublicationDateChain(isIso: string -> bool): Chain {
    Chain("publicationDate", SkipUndefined, [Check(NotArray, DateMessage), Check(Iso8601(isIso), DateMessage)])
  }

  /** The resolution tags the custom check accepts. */
  const Tags: seq<string> := ["P144", "P240", "P360", "P480", "P720", "P1080", "P1440", "P2160"]

  /** `availableResolutions`: when present and not `null`, a non-empty array of known tags. */
  const AvailableResolutionsChain: Chain :=
    Chain("availableResolutions", SkipUndefinedOrNull, [Check(IsArray, ResolutionsMessage), Check(KnownTags(Tags), ResolutionsMessage)])

  /** The chains of POST and PUT, in the order the routes list them. */
  function Chains(isIso: string -> bool): (cs: seq<Chain>)
    ensures DistinctFields(cs)
  {
    [TitleChain, AuthorChain, CanBeDownloadedChain, MinAgeRestrictionChain, PublicationDateChain(isIso),
     AvailableResolutionsChain]
  }

  /** The accepted tags are exactly the spellings of the resolutions. */
  lemma TagsAreResolutionNames(t: string)
    ensures t in Tags <==> ParseResolution(t).Some?
  {
  }

  /** What the `canBeDownloaded` chain contributes to `FirstErrors` for a body whose field holds `v`. */
  lemma CanBeDownloadedReported(body: Body, v: Json)
    requires Lookup(body, "canBeDownloaded") == v
    ensures Reported(CanBeDownloadedChain, body) ==
      if v == Undefined || v.Bool? then [] else [ValidationError(DownloadableMessage, "canBeDownloaded")]
  {
    OneMessage(CanBeDownloadedChain.steps, DownloadableMessage, v);
  }

  /** `toString` of a boolean or an object is not an integer. */
  lemma TextOfBoolOrObjectIsNotInt(v: Json)
    requires v.Bool? || v.Obj?
    ensures !JsStrings.IsIntText(Text(v))
  {
    var t := Text(v);
    assert t[0] == 't' || t[0] == 'f' || t[0] == '[';
    assert !JsStrings.IsDigit(t[0]);
  }

  /**
   * What the `minAgeRestriction` chain contributes: nothing for a missing
   * or `null` value or a number whose text is an integer from 1 to 18, the
   * one message otherwise.
   */
  lemma MinAgeRestrictionReported(body: Body, v: Json)
    requires Lookup(body, "minAgeRestriction") == v
    ensures Reported(MinAgeRestrictionChain, body) ==
      if v == Undefined || v == Null || (v.Num? && IntTextBetween(v.repr, 1, 18)) then []
      else [ValidationError(AgeMessage, "minAgeRestriction")]
  {
    var steps := MinAgeRestrictionChain.steps;
    OneMessage(steps, AgeMessage, v);
    assert steps[0].rule == NotString && steps[1].rule == NotArray && steps[2].rule == IntBetween(1, 18);
    var all := Passes(NotString, v) && Passes(NotArray, v) && Passes(IntBetween(1, 18), v);
    assert (forall i :: 0 <= i < |steps| ==> Passes(steps[i].rule, v)) <==> all;
    if v.Bool? || v.Obj? {
      TextOfBoolOrObjectIsNotInt(v);
    }
  }

  /** What the `publicationDate` chain contributes: nothing for a missing value or a non-array ISO-8601 text. */
  lemma PublicationDateReported(isIso: string -> bool, body: Body, v: Json)
    requires Lookup(body, "publicationDate") == v
    ensures Reported(PublicationDateChain(isIso), body) ==
      if v == Undefined || (!v.Arr? && isIso(Text(v))) then [] else [ValidationError(DateMessage, "publicationDate")]
  {
    var steps := PublicationDateChain(isIso).steps;
    OneMessage(steps, DateMessage, v);
    assert steps[0].rule == NotArray && steps[1].rule == Iso8601(isIso);
    assert (forall i :: 0 <= i < |steps| ==> Passes(steps[i].rule, v)) <==>
           Passes(NotArray, v) && Passes(Iso8601(isIso), v);
  }

  /** A non-empty array of known resolution spellings. */
  predicate ResolutionList(v: Json) {
    && v.Arr? && |v.items| > 0
    && forall i :: 0 <= i < |v.items| ==> v.items[i].Str? && ParseResolution(v.items[i].s).Some?
  }

  /**
   * What the `availableResolutions` chain contributes: nothing for a
   * missing or `null` value or a non-empty array of known tags, the one
   * message otherwise.
   */
  lemma AvailableResolutionsReported(body: Body, v: Json)
    requires Lookup(body, "availableResolutions") == v
    ensures Reported(AvailableResolutionsChain, body) ==
      if v == Undefined || v == Null || ResolutionList(v) then []
      else [ValidationError(ResolutionsMessage, "availableResolutions")]
  {
    var steps := AvailableResolutionsChain.steps;
    OneMessage(steps, ResolutionsMessage, v);
    assert steps[0].rule == IsArray && steps[1].rule == KnownTags(Tags);
    assert (forall i :: 0 <= i < |steps| ==> Passes(steps[i].rule, v)) <==>
           Passes(IsArray, v) && Passes(KnownTags(Tags), v);
    forall t: string {
      TagsAreResolutionNames(t);
    }
  }

  /** `FirstErrors` of six chains, chain by chain. */
  lemma FirstErrorsOfSix(c0: Chain, c1: Chain, c2: Chain, c3: Chain, c4: Chain, c5: Chain, body: Body)
    ensures FirstErrors([c0, c1, c2, c3, c4, c5], body) ==
              Reported(c0, body) + (Reported(c1, body) + (Reported(c2, body)
              + (Reported(c3, body) + (Reported(c4, body) + Reported(c5, body)))))
  {
    FirstErrorsCons(c0, [c1, c2, c3, c4, c5], body);
    assert [c0, c1, c2, c3, c4, c5] == [c0] + [c1, c2, c3, c4, c5];
    FirstErrorsCons(c1, [c2, c3, c4, c5], body);
    assert [c1, c2, c3, c4, c5] == [c1] + [c2, c3, c4, c5];
    FirstErrorsCons(c2, [c3, c4, c5], body);
    assert [c2, c3, c4, c5] == [c2] + [c3, c4, c5];
    FirstErrorsCons(c3, [c4, c5], body);
    assert [c3, c4, c5] == [c3] + [c4, c5];
    FirstErrorsCons(c4, [c5], body);
    assert [c4, c5] == [c4] + [c5];
    FirstErrorsCons(c5, [], body);
    assert [c5] == [c5] + [];
    assert Reported(c5, body) + [] == Reported(c5, body);
  }

  /** The route's first-failure reading, field by field. */
  lemma FirstErrorsByField(isIso: string -> bool, body: Body)
    ensures FirstErrors(Chains(isIso), body) ==
              Reported(TitleChain, body) + (Reported(AuthorChain, body)
              + (Reported(CanBeDownloadedChain, body) + (Reported(MinAgeRestrictionChain, body)
              + (Reported(PublicationDateChain(isIso), body) + Reported(AvailableResolutionsChain, body)))))
  {
    FirstErrorsOfSix(TitleChain, AuthorChain, CanBeDownloadedChain, MinAgeRestrictionChain,
                     PublicationDateChain(isIso), AvailableResolutionsChain, body);
  }

  // ---- reading the validated body ----

  /** A `minAgeRestriction` value as the repository stores it: `null`, or an integer number. */
  function ReadAge(v: Json): (r: Option<Option<int>>)
    ensures r == Some(None) <==> v == Null
    ensures r.Some? && r.value.Some? ==>
              v.Num? && JsStrings.IsIntText(v.repr) && JsStrings.IntValue(v.repr) == r.value.value
    ensures r.None? <==> !(v == Null || (v.Num? && JsStrings.IsIntText(v.repr)))
  {
    if v == Null then Some(None)
    else if v.Num? && JsStrings.IsIntText(v.repr) then Some(Some(JsStrings.IntValue(v.repr)))
    else None
  }

  /** The resolutions an array of tag strings lists, in order; `None` when some element is not a known tag. */
  function ParseTags(items: seq<Json>): (r: Option<seq<Resolution>>)
    ensures r.Some? ==> |r.value| == |items|
    ensures r.Some? ==> forall i :: 0 <= i < |items| ==> items[i] == Str(ResolutionName(r.value[i]))
    ensures r.None? <==> exists i :: 0 <= i < |items| && !(items[i].Str? && ParseResolution(items[i].s).Some?)
  {
    if items == [] then Some([])
    else if !(items[0].Str? && ParseResolution(items[0].s).Some?) then None
    else
      match ParseTags(items[1..])
      case None =>
        var i :| 0 <= i < |items[1..]| && !(items[1..][i].Str? && ParseResolution(items[1..][i].s).Some?);
        assert items[i + 1] == items[1..][i];
        None
      case Some(rest) =>
        var r := [ParseResolution(items[0].s).value] + rest;
        assert forall i :: 1 <= i < |items| ==> items[i] == items[1..][i - 1] && r[i] == rest[i - 1];
        Some(r)
  }

  /** The JSON array that spells a list of resolutions, element by element. */
  function TagList(rs: seq<Resolution>): (v: Json)
    ensures v.Arr? && |v.items| == |rs|
    ensures forall i :: 0 <= i < |rs| ==> v.items[i] == Str(ResolutionName(rs[i]))
  {
    Arr(seq(|rs|, i requires 0 <= i < |rs| => Str(ResolutionName(rs[i]))))
  }

  /** Spelling a list of resolutions and parsing it back gives the list. */
  lemma {:induction false} TagsRoundTrip(rs: seq<Resolution>)
    ensures ParseTags(TagList(rs).items) == Some(rs)
  {
    if rs != [] {
      assert TagList(rs).items[1..] == TagList(rs[1..]).items;
      TagsRoundTrip(rs[1..]);
      ResolutionRoundTrip(rs[0]);
      assert rs == [rs[0]] + rs[1..];
    }
  }

  /** An `availableResolutions` value as the repository stores it: `null`, or a list of resolutions. */
  function ReadResolutions(v: Json): (r: Option<Option<seq<Resolution>>>)
    ensures r == Some(None) <==> v == Null
    ensures r.Some? && r.value.Some? ==> v.Arr? && ParseTags(v.items) == r.value
    ensures ResolutionList(v) ==> r.Some? && r.value.Some? && |r.value.value| > 0
  {
    if v == Null then Some(None)
    else if v.Arr? then
      match ParseTags(v.items)
      case Some(rs) => Some(Some(rs))
      case None => None
    else None
  }

  /** A `canBeDownloaded` value as the repository stores it: a boolean. */
  function ReadBool(v: Json): (r: Option<bool>)
    ensures r.Some? <==> v.Bool?
    ensures r.Some? ==> v == Bool(r.value)
  {
    if v.Bool? then Some(v.b) else None
  }

  /** A `publicationDate` value, which the repository passes on as it is. */
  function ReadAny(v: Json): (r: Option<Json>)
    ensures r == Some(v)
  {
    Some(v)
  }

  /**
   * An optional member of the body: omitted when the body does not carry
   * it (a JSON body never holds `undefined`, so the inherited
   * `hasOwnProperty` answers true exactly for a value other than
   * `undefined`), else what `read` makes of its value. A body that shadows
   * `hasOwnProperty` itself is marked in `VideoInputOf` instead.
   */
  function ReadMember<T>(v: Json, read: Json -> Option<T>): (r: Option<VideosRepository.Field<T>>)
    ensures r == Some(VideosRepository.Omitted) <==> v == Undefined
    ensures r.Some? && r.value.Given? ==> v != Undefined && read(v) == Some(r.value.value)
    ensures v != Undefined ==> (r.Some? <==> read(v).Some?)
  {
    if v == Undefined then Some(VideosRepository.Omitted)
    else
      match read(v)
      case Some(x) => Some(VideosRepository.Given(x))
      case None => None
  }

  /**
   * The handler's reading of the body: the sanitized title and author, each
   * optional member, and whether the body has a `hasOwnProperty` key of its
   * own (JSON parsing makes every key an own property). `None` when a value has a shape the repository
   * cannot store, which validation rules out.
   */
  function VideoInputOf(body: Body): Option<VideosRepository.VideoInput> {
    var title := Settled(TitleChain, body);
    var author := Settled(AuthorChain, body);
    var d := ReadMember(Lookup(body, "canBeDownloaded"), ReadBool);
    var a := ReadMember(Lookup(body, "minAgeRestriction"), ReadAge);
    var p := ReadMember(Lookup(body, "publicationDate"), ReadAny);
    var rs := ReadMember(Lookup(body, "availableResolutions"), ReadResolutions);
    if title.Str? && author.Str? && d.Some? && a.Some? && p.Some? && rs.Some? then
      Some(VideosRepository.VideoInput(title.s, author.s, d.value, a.value, p.value, rs.value,
                                       "hasOwnProperty" in body))
    else None
  }

  /** The handler's input shadows `hasOwnProperty` exactly when the body has that key. */
  lemma ShadowRead(body: Body)
    requires VideoInputOf(body).Some?
    ensures VideoInputOf(body).value.shadowsHasOwnProperty <==> "hasOwnProperty" in body
  {
  }

  /** A `canBeDownloaded` value that passes: missing or a boolean. */
  predicate DownloadableFits(v: Json) {
    v == Undefined || v.Bool?
  }

  /** A `minAgeRestriction` value that passes: missing, `null` or a number from 1 to 18. */
  predicate AgeFits(v: Json) {
    v == Undefined || v == Null || (v.Num? && IntTextBetween(v.repr, 1, 18))
  }

  /** A `publicationDate` value that passes: missing or a non-array ISO-8601 value. */
  predicate DateFits(isIso: string -> bool, v: Json) {
    v == Undefined || (!v.Arr? && isIso(Text(v)))
  }

  /** An `availableResolutions` value that passes: missing, `null` or a non-empty list of known tags. */
  predicate ResolutionsFit(v: Json) {
    v == Undefined || v == Null || ResolutionList(v)
  }

  /** The bodies validation lets through: every field's value passes its chain. */
  predicate Accepted(isIso: string -> bool, body: Body) {
    && TextFits(Lookup(body, "title"), 40)
    && TextFits(Lookup(body, "author"), 20)
    && DownloadableFits(Lookup(body, "canBeDownloaded"))
    && AgeFits(Lookup(body, "minAgeRestriction"))
    && DateFits(isIso, Lookup(body, "publicationDate"))
    && ResolutionsFit(Lookup(body, "availableResolutions"))
  }

  /** The route reports nothing exactly when no chain reports anything. */
  lemma ValidIffFieldsPass(isIso: string -> bool, body: Body)
    ensures FirstErrors(Chains(isIso), body) == [] <==>
              && Reported(TitleChain, body) == [] && Reported(AuthorChain, body) == []
              && Reported(CanBeDownloadedChain, body) == [] && Reported(MinAgeRestrictionChain, body) == []
              && Reported(PublicationDateChain(isIso), body) == [] && Reported(AvailableResolutionsChain, body) == []
  {
    FirstErrorsByField(isIso, body);
  }

  /** Validation reports nothing exactly for the accepted bodies. */
  lemma ValidIffAccepted(isIso: string -> bool, body: Body)
    ensures FirstErrors(Chains(isIso), body) == [] <==> Accepted(isIso, body)
  {
    ValidIffFieldsPass(isIso, body);
    var t, a := Lookup(body, "title"), Lookup(body, "author");
    TextChainFits("title", 40, "title is invalid", "title is required", "title is too long", body, t);
    TextChainFits("author", 20, "author is invalid", "author is required", "author is too long", body, a);
    assert Reported(CanBeDownloadedChain, body) == [] <==> DownloadableFits(Lookup(body, "canBeDownloaded")) by {
      CanBeDownloadedReported(body, Lookup(body, "canBeDownloaded"));
    }
    assert Reported(MinAgeRestrictionChain, body) == [] <==> AgeFits(Lookup(body, "minAgeRestriction")) by {
      MinAgeRestrictionReported(body, Lookup(body, "minAgeRestriction"));
    }
    assert Reported(PublicationDateChain(isIso), body) == [] <==>
           DateFits(isIso, Lookup(body, "publicationDate")) by {
      PublicationDateReported(isIso, body, Lookup(body, "publicationDate"));
    }
    assert Reported(AvailableResolutionsChain, body) == [] <==>
           ResolutionsFit(Lookup(body, "availableResolutions")) by {
      AvailableResolutionsReported(body, Lookup(body, "availableResolutions"));
    }
  }

  /** An accepted body is read field by field: the trimmed title and author and each optional member. */
  lemma AcceptedInput(isIso: string -> bool, body: Body)
    requires Accepted(isIso, body)
    ensures Lookup(body, "title").Str? && Lookup(body, "author").Str?
    ensures ReadMember(Lookup(body, "canBeDownloaded"), ReadBool).Some?
    ensures ReadMember(Lookup(body, "minAgeRestriction"), ReadAge).Some?
    ensures ReadMember(Lookup(body, "availableResolutions"), ReadResolutions).Some?
    ensures VideoInputOf(body) ==
              Some(VideosRepository.VideoInput(
                JsStrings.Trim(Lookup(body, "title").s), JsStrings.Trim(Lookup(body, "author").s),
                ReadMember(Lookup(body, "canBeDownloaded"), ReadBool).value,
                ReadMember(Lookup(body, "minAgeRestriction"), ReadAge).value,
                ReadMember(Lookup(body, "publicationDate"), ReadAny).value,
                ReadMember(Lookup(body, "availableResolutions"), ReadResolutions).value,
                "hasOwnProperty" in body))
  {
    AcceptedTexts(body);
    AcceptedAge(Lookup(body, "minAgeRestriction"));
    AcceptedResolutions(Lookup(body, "availableResolutions"));
  }

  /** Fitting title and author values are read as their trimmed strings. */
  lemma AcceptedTexts(body: Body)
    requires TextFits(Lookup(body, "title"), 40) && TextFits(Lookup(body, "author"), 20)
    ensures Settled(TitleChain, body) == Str(JsStrings.Trim(Lookup(body, "title").s))
    ensures Settled(AuthorChain, body) == Str(JsStrings.Trim(Lookup(body, "author").s))
  {
    TextChainSettled("title", 40, "title is invalid", "title is required", "title is too long", body);
    TextChainSettled("author", 20, "author is invalid", "author is required", "author is too long", body);
  }

  /** An accepted age is read: missing as omitted, `null` as `None`, a number as its value from 1 to 18. */
  lemma AcceptedAge(v: Json)
    requires AgeFits(v)
    ensures var f := ReadMember(v, ReadAge);
            && f.Some?
            && (f.value == VideosRepository.Given(None) <==> v == Null)
            && (f.value.Given? && f.value.value.Some? ==> 1 <= f.value.value.value <= 18)
  {
  }

  /** An accepted resolution list is read as the non-empty list of resolutions it spells. */
  lemma AcceptedResolutions(v: Json)
    requires ResolutionsFit(v)
    ensures var f := ReadMember(v, ReadResolutions);
            && f.Some?
            && (f.value == VideosRepository.Given(None) <==> v == Null)
            && (f.value.Given? && f.value.value.Some? ==>
                  && f.value.value.value != []
                  && v == TagList(f.value.value.value))
  {
    if v.Arr? {
      var parsed := ParseTags(v.items).value;
      assert v.items == TagList(parsed).items;
    }
  }

  /**
   * When validation passes, the handler can read the body: title and author
   * are the trimmed strings; each optional field is omitted exactly when
   * the body lacks it and otherwise carries the body's value, with an age
   * from 1 to 18 and a non-empty list of resolutions.
   */
  lemma VideoInputOfValid(isIso: string -> bool, body: Body)
    requires FirstErrors(Chains(isIso), body) == []
    ensures VideoInputOf(body).Some?
    ensures var input := VideoInputOf(body).value;
            && Lookup(body, "title").Str? && input.title == JsStrings.Trim(Lookup(body, "title").s)
            && Lookup(body, "author").Str? && input.author == JsStrings.Trim(Lookup(body, "author").s)
            && (input.canBeDownloaded.Omitted? <==> Lookup(body, "canBeDownloaded") == Undefined)
            && (input.canBeDownloaded.Given? ==> Lookup(body, "canBeDownloaded") == Bool(input.canBeDownloaded.value))
            && (input.minAgeRestriction.Omitted? <==> Lookup(body, "minAgeRestriction") == Undefined)
            && (input.minAgeRestriction == VideosRepository.Given(None) <==> Lookup(body, "minAgeRestriction") == Null)
            && (input.minAgeRestriction.Given? && input.minAgeRestriction.value.Some? ==>
                  1 <= input.minAgeRestriction.value.value <= 18)
            && (input.publicationDate.Omitted? <==> Lookup(body, "publicationDate") == Undefined)
            && (input.publicationDate.Given? ==>
                  input.publicationDate.value == Lookup(body, "publicationDate")
                  && isIso(Text(input.publicationDate.value)))
            && (input.availableResolutions.Omitted? <==> Lookup(body, "availableResolutions") == Undefined)
            && (input.availableResolutions == VideosRepository.Given(None) <==>
                  Lookup(body, "availableResolutions") == Null)
            && (input.availableResolutions.Given? && input.availableResolutions.value.Some? ==>
                  && input.availableResolutions.value.value != []
                  && Lookup(body, "availableResolutions") == TagList(input.availableResolutions.value.value))
            && (input.shadowsHasOwnProperty <==> "hasOwnProperty" in body)
  {
    assert Accepted(isIso, body) by { ValidIffAccepted(isIso, body); }
    AcceptedInput(isIso, body);
    var input := VideoInputOf(body).value;
    var m, r := Lookup(body, "minAgeRestriction"), Lookup(body, "availableResolutions");
    assert input.minAgeRestriction == ReadMember(m, ReadAge).value;
    assert input.availableResolutions == ReadMember(r, ReadResolutions).value;
    AcceptedAge(m);
    AcceptedResolutions(r);
  }

  /** When validation passes, the handler's reading of the body succeeds. */
  lemma ValidReadable(isIso: string -> bool, body: Body)
    requires FirstErrors(Chains(isIso), body) == []
    ensures VideoInputOf(body).Some?
  {
    assert Accepted(isIso, body) by { ValidIffAccepted(isIso, body); }
    AcceptedInput(isIso, body);
  }

  // ---- the path ----

  /**
   * Unary `+` on the path's `videoId`, compared with `===` against integer
   * ids: the path matches the id its text denotes exactly, and no id when
   * its value is NaN, infinite or not an integer.
   */
  function CoerceId(path: string): (r: Option<int>)
    ensures r.Some? ==> JsNumbers.StringToNumber(path).Finite?
    ensures JsStrings.Trim(path) in {"Infinity", "+Infinity", "-Infinity"} ==> r.None?
  {
    JsNumbers.AsInteger(JsNumbers.StringToNumber(path))
  }

  /** A blank path, empty or all whitespace, converts to 0 and so matches the id 0. */
  lemma BlankPathIsZero(path: string)
    requires JsStrings.AllSpace(path)
    ensures CoerceId(path) == Some(0)
  {
  }

  /** The path matches the id `id` exactly when its text denotes `id` exactly. */
  lemma CoerceIdExact(path: string, id: int)
    ensures CoerceId(path) == Some(id) <==> JsNumbers.Denotes(JsNumbers.StringToNumber(path), id)
  {
    JsNumbers.AsIntegerExact(JsNumbers.StringToNumber(path), id);
  }

  /**
   * A path that starts with a letter and does not end in whitespace is no
   * integer: unary `+` gives NaN, or Infinity for "Infinity".
   */
  lemma LetterFirstIsNaN(path: string)
    requires path != [] && ('a' <= path[0] <= 'z' || 'A' <= path[0] <= 'Z')
    requires !JsStrings.IsSpace(path[|path| - 1])
    ensures CoerceId(path) == None
  {
    JsStrings.TrimKeepsUnpadded(path);
    var n := JsNumbers.StringToNumber(path);
    assert !n.Finite? by {
      assert JsNumbers.NonDecimal(path).None?;
      assert !JsStrings.IsDigit(path[0]) && path[0] !in "+-.";
    }
  }

  /** `String(id)` for an integer id: its decimal text, with `-` when negative. */
  function IdText(id: int): (t: string)
    ensures t != [] && !JsStrings.IsSpace(t[0]) && !JsStrings.IsSpace(t[|t| - 1])
  {
    if id < 0 then "-" + JsStrings.NatText(-id) else JsStrings.NatText(id)
  }

  /** The text of an id reads, under unary `+`, as exactly that id. */
  lemma IdTextReads(id: int)
    ensures JsNumbers.StringToNumber(IdText(id)) == JsNumbers.Finite(id, 0)
  {
    if id < 0 {
      assert IdText(id) == "-" + JsStrings.NatText(-id);
      JsNumbers.SignedDigitsRead(JsStrings.NatText(-id));
    } else {
      JsNumbers.DigitsRead(JsStrings.NatText(id));
    }
  }

  /** A path built from an id, as clients build them, reads back as that id. */
  lemma IdTextRoundTrip(id: int)
    ensures CoerceId(IdText(id)) == Some(id)
  {
    IdTextReads(id);
  }

  /** `n`, `e` and `k` written out reads as `n` times ten to the `k`, as `17e11` does. */
  lemma ExponentPathRead(n: nat, k: nat)
    ensures CoerceId(JsStrings.NatText(n) + "e" + JsStrings.NatText(k)) == Some(n * JsNumbers.Pow10(k))
  {
    JsNumbers.ExponentRead(JsStrings.NatText(n), JsStrings.NatText(k));
    JsNumbers.ScaleUpIsProduct(n, k);
  }

  /** An id written with a zero fraction, as in `1700000000000.0`, reads as the id. */
  lemma ZeroFractionPathRead(n: nat)
    ensures CoerceId(JsStrings.NatText(n) + ".0") == Some(n)
  {
    JsNumbers.ZeroFractionRead(JsStrings.NatText(n));
    JsNumbers.AsIntegerExact(JsNumbers.Finite(n * 10, -1), n);
    assert JsNumbers.Pow10(1) == 10;
  }

  /** `0x` and hexadecimal digits read as their value, as `0x18BCFE56800` does. */
  lemma HexPathRead(h: string)
    requires h != [] && JsNumbers.AllRadixDigits(h, 16)
    ensures CoerceId("0x" + h) == Some(JsNumbers.RadixValue(h, 16))
  {
    JsNumbers.HexRead(h);
  }

  /** Digits with a fraction whose value is not whole, as in `1.5`, are no id. */
  lemma FractionalPathIsNoId(d: string, f: string)
    requires d != [] && JsStrings.AllDigits(d) && JsStrings.AllDigits(f)
    requires JsStrings.AllDigits(d + f) && JsStrings.DigitsValue(d + f) % JsNumbers.Pow10(|f|) != 0
    ensures CoerceId(d + "." + f) == None
  {
    JsNumbers.FractionRead(d, f);
    var m := JsStrings.DigitsValue(d + f);
    var v := JsNumbers.Finite(m, -|f|);
    if JsNumbers.AsInteger(v).Some? {
      var q := JsNumbers.AsInteger(v).value;
      JsNumbers.ScaleDownIsQuotient(m, |f|, q);
      JsNumbers.MultipleHasNoRemainder(q, JsNumbers.Pow10(|f|));
      assert false;
    }
  }

  /**
   * A sign before a `0x`, `0o` or `0b` literal, as in `-0x10`, makes the
   * path NaN: only decimal literals may carry a sign.
   */
  lemma SignedRadixPathIsNaN(path: string)
    requires |path| >= 4 && (path[0] == '-' || path[0] == '+') && path[1] == '0'
    requires JsNumbers.Radix(path[2]) > 0 && !JsStrings.IsSpace(path[|path| - 1])
    ensures CoerceId(path) == None
  {
    JsNumbers.SignedRadixIsNaN(path);
  }

  /** The path's id names a video of the store. */
  predicate Names(s: Store, path: string) {
    CoerceId(path).Some? && VideosRepository.Exists(s, CoerceId(path).value)
  }

  /** `findVideo(+videoId)`: nothing for a path that is not a number. */
  function FindByPath(s: Store, path: string): (r: Option<Video>)
    ensures r.Some? <==> Names(s, path)
    ensures r.Some? ==> r == VideosRepository.FindVideo(s, CoerceId(path).value)
  {
    match CoerceId(path)
    case None => None
    case Some(id) => VideosRepository.FindVideo(s, id)
  }

  // ---- the routes ----

  /** `GET /videos`: 200 with every video, in order. */
  function GetVideos(s: Store): (r: Reply<Video>)
    ensures r.status == Ok && r.payload == Many(VideosRepository.FindVideos(s))
  {
    Reply(Ok, Many(s.videos))
  }

  /** `GET /videos/:videoId`: 200 with the first video with the id, 404 when none has it or the path is not a number. */
  function GetVideo(s: Store, path: string): (r: Reply<Video>)
    ensures r.status == Ok <==> Names(s, path)
    ensures r.status == NotFound <==> !Names(s, path)
    ensures forall i :: CoerceId(path).Some? && Table.IsFirst(s.videos, VideoKey, CoerceId(path).value, i) ==>
              r == Reply(Ok, One(s.videos[i]))
  {
    Found(FindByPath(s, path))
  }

  /**
   * `POST /videos`: no authorization; 400 with the validation errors, else
   * 201 with the created video. Only a 201 changes the store, and then
   * only its videos.
   */
  function PostVideo(s: Store, body: Body, isIso: string -> bool, clock: VideosRepository.Clock,
                     toIso: Json -> string): (r: (Store, Reply<Video>))
    ensures r.1.status == Created || r.1.status == BadRequest
    ensures r.1.status != Created ==> r.0 == s
    ensures FirstErrors(Chains(isIso), body) != [] ==>
              r == (s, Reply(BadRequest, Problems(Rename(FirstErrors(Chains(isIso), body)))))
    ensures FirstErrors(Chains(isIso), body) == [] ==>
              && r.1.status == Created
              && r.1.payload.One?
              && r.0.videos == s.videos + [r.1.payload.item]
              && r.0.blogs == s.blogs && r.0.posts == s.posts
              && r.1.payload.item.id == clock.stamp
              && r.1.payload.item.createdAt == clock.nowIso
  {
    MiddlewareReportsFirstErrors(Chains(isIso), body);
    match Screen(true, RunChains(Chains(isIso), body))
    case Some(reply) => (s, reply)
    case None =>
      ValidReadable(isIso, body);
      var (s', video) := VideosRepository.CreateVideo(s, VideoInputOf(body).value, clock, toIso);
      assert s'.videos == s'.videos[..|s.videos|] + [video];
      (s', Reply(Created, One(video)))
  }

  /**
   * A valid POST stores the trimmed title and author and fills in what the
   * body leaves out: not downloadable, no age restriction, no resolutions,
   * published one day after creation.
   */
  lemma PostVideoDefaults(s: Store, body: Body, isIso: string -> bool, clock: VideosRepository.Clock,
                          toIso: Json -> string)
    requires FirstErrors(Chains(isIso), body) == []
    ensures Lookup(body, "title").Str? && Lookup(body, "author").Str?
    ensures var video := PostVideo(s, body, isIso, clock, toIso).1.payload.item;
            && video.title == JsStrings.Trim(Lookup(body, "title").s)
            && video.author == JsStrings.Trim(Lookup(body, "author").s)
            && (Lookup(body, "canBeDownloaded") == Undefined ==> !video.canBeDownloaded)
            && (Lookup(body, "minAgeRestriction") == Undefined ==> video.minAgeRestriction == None)
            && (Lookup(body, "availableResolutions") == Undefined ==> video.availableResolutions == None)
            && (Lookup(body, "publicationDate") == Undefined ==> video.publicationDate == clock.dayLaterIso)
  {
    VideoInputOfValid(isIso, body);
  }

  /**
   * The PUT handler's answer to `updateVideo`: 204 for a video, 404 for
   * `null`, and Express's 500 when `updateVideo` threw.
   */
  function UpdateAnswer(outcome: VideosRepository.UpdateOutcome): (r: Reply<Video>)
    ensures r.payload == Empty
    ensures r.status == NoContent <==> outcome.Updated?
    ensures r.status == NotFound <==> outcome.NoVideo?
    ensures r.status == InternalError <==> outcome.Threw?
  {
    match outcome
    case NoVideo => Done(None)
    case Updated(video) => Done(Some(video))
    case Threw => Reply(InternalError, Empty)
  }

  /**
   * `PUT /videos/:videoId`: no authorization; 400 with the validation
   * errors, then 404 when the path names no video. Otherwise 204, or 500
   * when the body has its own `hasOwnProperty` key, which makes
   * `updateVideo` throw after writing title and author. Only the videos can
   * change, and only on a 204 or a 500.
   */
  function PutVideo(s: Store, path: string, body: Body, isIso: string -> bool, toIso: Json -> string)
    : (r: (Store, Reply<Video>))
    ensures r.1.status in {NoContent, NotFound, BadRequest, InternalError}
    ensures r.1.status != NoContent && r.1.status != InternalError ==> r.0 == s
    ensures r.0.blogs == s.blogs && r.0.posts == s.posts && |r.0.videos| == |s.videos|
    ensures FirstErrors(Chains(isIso), body) != [] ==>
              r == (s, Reply(BadRequest, Problems(Rename(FirstErrors(Chains(isIso), body)))))
    ensures FirstErrors(Chains(isIso), body) == [] ==>
              && VideoInputOf(body).Some?
              && r.1.payload == Empty
              && (r.1.status == NoContent <==> Names(s, path) && "hasOwnProperty" !in body)
              && (r.1.status == InternalError <==> Names(s, path) && "hasOwnProperty" in body)
              && (r.1.status == NotFound <==> !Names(s, path))
  {
    MiddlewareReportsFirstErrors(Chains(isIso), body);
    match Screen(true, RunChains(Chains(isIso), body))
    case Some(reply) => (s, reply)
    case None =>
      ValidReadable(isIso, body);
      ShadowRead(body);
      match CoerceId(path)
      case None => (s, Done(None))
      case Some(id) =>
        var (s', outcome) := VideosRepository.UpdateVideo(s, id, VideoInputOf(body).value, toIso);
        (s', UpdateAnswer(outcome))
  }

  /**
   * A PUT that passes validation on a path that coerces to the id `id`
   * answers what `updateVideo` on the handler's input ends in.
   */
  lemma PutVideoRunsHandler(s: Store, path: string, body: Body, isIso: string -> bool, toIso: Json -> string,
                            id: int)
    requires FirstErrors(Chains(isIso), body) == []
    ensures VideoInputOf(body).Some?
    ensures CoerceId(path) == Some(id) ==>
              var (s', outcome) := VideosRepository.UpdateVideo(s, id, VideoInputOf(body).value, toIso);
              PutVideo(s, path, body, isIso, toIso) == (s', UpdateAnswer(outcome))
  {
    assert RunChains(Chains(isIso), body) == [] by {
      MiddlewareReportsFirstErrors(Chains(isIso), body);
    }
    ValidReadable(isIso, body);
  }

  /**
   * A valid PUT on a path that coerces to the id of the `i`th video, the
   * first with that id, patches that video in place and answers 204; when
   * the body has its own `hasOwnProperty` key it answers 500 and leaves the
   * video with only the new title and author.
   */
  lemma PutVideoPatches(s: Store, path: string, body: Body, isIso: string -> bool, toIso: Json -> string,
                        id: int, i: int)
    requires FirstErrors(Chains(isIso), body) == []
    requires Table.IsFirst(s.videos, VideoKey, id, i)
    ensures VideoInputOf(body).Some?
    ensures CoerceId(path) == Some(id) && "hasOwnProperty" !in body ==>
              PutVideo(s, path, body, isIso, toIso) ==
                (s.(videos := s.videos[i := VideosRepository.Patch(s.videos[i], VideoInputOf(body).value, toIso)]),
                 Reply(NoContent, Empty))
    ensures CoerceId(path) == Some(id) && "hasOwnProperty" in body ==>
              PutVideo(s, path, body, isIso, toIso) ==
                (s.(videos := s.videos[i := s.videos[i].(title := VideoInputOf(body).value.title,
                                                         author := VideoInputOf(body).value.author)]),
                 Reply(InternalError, Empty))
  {
    PutVideoRunsHandler(s, path, body, isIso, toIso, id);
    VideoInputOfValid(isIso, body);
    var input := VideoInputOf(body).value;
    assert Table.IndexOf(s.videos, VideoKey, id) == Some(i);
    if input.shadowsHasOwnProperty {
      var video := VideosRepository.Retitle(s.videos[i], input);
      assert VideosRepository.UpdateVideo(s, id, input, toIso) ==
             (s.(videos := s.videos[i := video]), VideosRepository.Threw);
    } else {
      var video := VideosRepository.Patch(s.videos[i], input, toIso);
      assert VideosRepository.UpdateVideo(s, id, input, toIso) ==
             (s.(videos := s.videos[i := video]), VideosRepository.Updated(video));
    }
  }

  /** `DELETE /videos/:videoId`: no authorization; 204 when a video was removed, 404 otherwise. */
  function DeleteVideo(s: Store, path: string): (r: (Store, Reply<Video>))
    ensures r.1.status == NoContent <==> Names(s, path)
    ensures r.1.status == NotFound <==> !Names(s, path)
    ensures r.1.status != NoContent ==> r.0 == s
    ensures r.1.status == NoContent ==>
              |r.0.videos| == |s.videos| - 1 && r.0.blogs == s.blogs && r.0.posts == s.posts
  {
    match CoerceId(path)
    case None => (s, Done(None))
    case Some(id) =>
      var (s', removed) := VideosRepository.RemoveVideo(s, id);
      (s', Done(removed))
  }
}
