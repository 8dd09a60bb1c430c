/**
 * The answers of the `/videos` routes to the paths and bodies the
 * end-to-end tests send; keys a body does not mention read as missing.
 */
module VideosScenarios {
  import opened Wrappers
  import opened Json
  import opened Db
  import opened Validation
  import opened InputValidation
  import opened Http
  import opened VideosRouter
  import JsStrings
  import JsNumbers
  import Table
  import VideosRepository
  import opened Fixtures

  /** A body that carries only a title and an author, both strings. */
  predicate OnlyTexts(body: Body, title: string, author: string) {
    && Lookup(body, "title") == Str(title) && Lookup(body, "author") == Str(author)
    && Lookup(body, "canBeDownloaded") == Undefined && Lookup(body, "minAgeRestriction") == Undefined
    && Lookup(body, "publicationDate") == Undefined && Lookup(body, "availableResolutions") == Undefined
  }

  /** Empty title and author are each reported as required, and neither POST nor PUT changes the store. */
  lemma BlankTextsRequired(s: Store, body: Body, path: string, isIso: string -> bool,
                           clock: VideosRepository.Clock, toIso: Json -> string)
    requires OnlyTexts(body, "", "")
    ensures PostVideo(s, body, isIso, clock, toIso) ==
              (s, Reply(BadRequest, Problems([
                FieldError("title is required", "title"),
                FieldError("author is required", "author")])))
    ensures PutVideo(s, path, body, isIso, toIso) == PostVideo(s, body, isIso, clock, toIso)
  {
    var a := ValidationError("title is required", "title");
    var b := ValidationError("author is required", "author");
    assert FirstErrors(Chains(isIso), body) == [a, b] by {
      JsStrings.TrimKeepsUnpadded("");
      TextChainReported("title", 40, "title is invalid", "title is required", "title is too long", body, Str(""));
      TextChainReported("author", 20, "author is invalid", "author is required", "author is too long", body,
                        Str(""));
      CanBeDownloadedReported(body, Undefined);
      MinAgeRestrictionReported(body, Undefined);
      PublicationDateReported(isIso, body, Undefined);
      AvailableResolutionsReported(body, Undefined);
      FirstErrorsByField(isIso, body);
    }
    assert Rename([a, b]) == [FieldError(a.msg, a.path), FieldError(b.msg, b.path)];
  }

  /** A title and an author that fit their chains, with nothing else, pass validation. */
  lemma TextsAccepted(body: Body, title: string, author: string, isIso: string -> bool)
    requires OnlyTexts(body, title, author)
    requires title != [] && JsStrings.Trim(title) == title && Length(title) <= 40
    requires author != [] && JsStrings.Trim(author) == author && Length(author) <= 20
    ensures FirstErrors(Chains(isIso), body) == []
    ensures VideoInputOf(body) == Some(VideosRepository.VideoInput(title, author,
              VideosRepository.Omitted, VideosRepository.Omitted, VideosRepository.Omitted, VideosRepository.Omitted,
              "hasOwnProperty" in body))
  {
    assert Accepted(isIso, body);
    ValidIffAccepted(isIso, body);
    AcceptedInput(isIso, body);
  }

  /**
   * A POST with only a fitting title and author appends a video with those
   * texts and the defaults: not downloadable, no age restriction, no
   * resolutions, created now and published a day later.
   */
  lemma CreatedWithDefaults(s: Store, body: Body, title: string, author: string, isIso: string -> bool,
                            clock: VideosRepository.Clock, toIso: Json -> string)
    requires OnlyTexts(body, title, author)
    requires title != [] && JsStrings.Trim(title) == title && Length(title) <= 40
    requires author != [] && JsStrings.Trim(author) == author && Length(author) <= 20
    ensures var video := Video(clock.stamp, title, author, false, None, clock.nowIso, clock.dayLaterIso, None);
            PostVideo(s, body, isIso, clock, toIso) == (s.(videos := s.videos + [video]), Reply(Created, One(video)))
  {
    TextsAccepted(body, title, author, isIso);
    MiddlewareReportsFirstErrors(Chains(isIso), body);
  }

  /** The POST of the tests, with title `title` and author `author`, creates a video with the defaults. */
  lemma TestVideoCreated(s: Store, body: Body, isIso: string -> bool, clock: VideosRepository.Clock,
                         toIso: Json -> string)
    requires OnlyTexts(body, "title", "author")
    ensures var video := Video(clock.stamp, "title", "author", false, None, clock.nowIso, clock.dayLaterIso, None);
            PostVideo(s, body, isIso, clock, toIso) == (s.(videos := s.videos + [video]), Reply(Created, One(video)))
  {
    TitleMeasure();
    AuthorMeasure();
    CreatedWithDefaults(s, body, "title", "author", isIso, clock, toIso);
  }

  /** `+"helloWorld"` is NaN. */
  lemma HelloWorldIsNaN()
    ensures CoerceId("helloWorld") == None
  {
    var t := "helloWorld";
    assert t[0] == 'h' && t[|t| - 1] == 'd';
    LetterFirstIsNaN(t);
  }

  /** `16.0` is the id 16. */
  lemma FractionSpelling(path: string)
    requires path == "16.0"
    ensures CoerceId(path) == Some(16)
  {
    assert JsNumbers.StringToNumber(path) == JsNumbers.Finite(160, -1) by {
      JsNumbers.ZeroFractionRead("16");
      assert "16" + ".0" == path;
    }
    JsNumbers.AsIntegerExact(JsNumbers.Finite(160, -1), 16);
  }

  /** `0x10` is the id 16. */
  lemma HexSpelling(path: string)
    requires path == "0x10"
    ensures CoerceId(path) == Some(16)
  {
    assert JsNumbers.StringToNumber(path) == JsNumbers.Finite(16, 0) by {
      JsNumbers.HexRead("10");
      assert "0x" + "10" == path;
    }

  }

  /** `Infinity` is a number but no id. */
  lemma InfinityIsNoId(path: string)
    requires path == "Infinity"
    ensures CoerceId(path) == None
  {
    JsStrings.TrimKeepsUnpadded(path);
    assert JsNumbers.StringToNumber(path).Infinite?;
  }

  /**
   * A path that is not a number finds nothing: GET and DELETE answer 404,
   * and so does a PUT whose body passes validation; the store is unchanged.
   */
  lemma NonNumericPathNotFound(s: Store, body: Body, isIso: string -> bool, toIso: Json -> string)
    ensures GetVideo(s, "helloWorld") == Reply(NotFound, Empty)
    ensures DeleteVideo(s, "helloWorld") == (s, Reply(NotFound, Empty))
    ensures FirstErrors(Chains(isIso), body) == [] ==>
              PutVideo(s, "helloWorld", body, isIso, toIso) == (s, Reply(NotFound, Empty))
  {
    HelloWorldIsNaN();
  }

  /** The path of an id no video has: GET, DELETE and a valid PUT answer 404 and change nothing. */
  lemma MissingIdNotFound(s: Store, id: int, body: Body, isIso: string -> bool, toIso: Json -> string)
    requires !VideosRepository.Exists(s, id)
    ensures GetVideo(s, IdText(id)) == Reply(NotFound, Empty)
    ensures DeleteVideo(s, IdText(id)) == (s, Reply(NotFound, Empty))
    ensures FirstErrors(Chains(isIso), body) == [] ==>
              PutVideo(s, IdText(id), body, isIso, toIso) == (s, Reply(NotFound, Empty))
  {
    IdTextRoundTrip(id);
  }

  /** The path of a video's id finds the first video with that id. */
  lemma FoundById(s: Store, id: int, i: int)
    requires Table.IsFirst(s.videos, VideoKey, id, i)
    ensures GetVideo(s, IdText(id)) == Reply(Ok, One(s.videos[i]))
  {
    IdTextRoundTrip(id);
  }

  /** A fitting title and author and an ISO-8601 publication date, with nothing else, pass validation. */
  lemma TextsAndDateAccepted(body: Body, title: string, author: string, date: string, isIso: string -> bool)
    requires Lookup(body, "title") == Str(title) && Lookup(body, "author") == Str(author)
    requires Lookup(body, "publicationDate") == Str(date) && isIso(date)
    requires Lookup(body, "canBeDownloaded") == Undefined && Lookup(body, "minAgeRestriction") == Undefined
    requires Lookup(body, "availableResolutions") == Undefined
    requires title != [] && JsStrings.Trim(title) == title && Length(title) <= 40
    requires author != [] && JsStrings.Trim(author) == author && Length(author) <= 20
    ensures FirstErrors(Chains(isIso), body) == []
    ensures VideoInputOf(body) == Some(VideosRepository.VideoInput(title, author,
              VideosRepository.Omitted, VideosRepository.Omitted, VideosRepository.Given(Str(date)),
              VideosRepository.Omitted, "hasOwnProperty" in body))
  {
    assert Accepted(isIso, body) by {
      assert Text(Str(date)) == date;
    }
    assert FirstErrors(Chains(isIso), body) == [] by { ValidIffAccepted(isIso, body); }
    AcceptedInput(isIso, body);
    assert ReadMember(Lookup(body, "canBeDownloaded"), ReadBool) == Some(VideosRepository.Omitted);
    assert ReadMember(Lookup(body, "minAgeRestriction"), ReadAge) == Some(VideosRepository.Omitted);
    assert ReadMember(Lookup(body, "publicationDate"), ReadAny) == Some(VideosRepository.Given(Str(date)));
    assert ReadMember(Lookup(body, "availableResolutions"), ReadResolutions) == Some(VideosRepository.Omitted);
  }

  /**
   * The PUT of the tests: title `hello title`, author `hello author` and an
   * ISO-8601 publication date overwrite exactly those three fields of the
   * video, the date as its canonical form, and the answer is 204. A date
   * already in canonical form is stored as sent.
   */
  lemma TestVideoUpdated(s: Store, id: int, i: int, body: Body, date: string, isIso: string -> bool,
                         toIso: Json -> string)
    requires Table.IsFirst(s.videos, VideoKey, id, i)
    requires Lookup(body, "title") == Str("hello title") && Lookup(body, "author") == Str("hello author")
    requires Lookup(body, "publicationDate") == Str(date) && isIso(date)
    requires Lookup(body, "canBeDownloaded") == Undefined && Lookup(body, "minAgeRestriction") == Undefined
    requires Lookup(body, "availableResolutions") == Undefined && "hasOwnProperty" !in body
    ensures var video := s.videos[i].(title := "hello title", author := "hello author",
                                      publicationDate := toIso(Str(date)));
            PutVideo(s, IdText(id), body, isIso, toIso) == (s.(videos := s.videos[i := video]), Reply(NoContent, Empty))
    ensures toIso(Str(date)) == date ==>
              PutVideo(s, IdText(id), body, isIso, toIso).0.videos[i] ==
              s.videos[i].(title := "hello title", author := "hello author", publicationDate := date)
  {
    var input := VideosRepository.VideoInput("hello title", "hello author", VideosRepository.Omitted,
                   VideosRepository.Omitted, VideosRepository.Given(Str(date)), VideosRepository.Omitted, false);
    assert FirstErrors(Chains(isIso), body) == [] && VideoInputOf(body) == Some(input) by {
      HelloTitleMeasure();
      HelloAuthorMeasure();
      TextsAndDateAccepted(body, "hello title", "hello author", date, isIso);
    }
    assert CoerceId(IdText(id)) == Some(id) by { IdTextRoundTrip(id); }
    var video := s.videos[i].(title := "hello title", author := "hello author", publicationDate := toIso(Str(date)));
    assert VideosRepository.Patch(s.videos[i], input, toIso) == video;
    PutVideoPatches(s, IdText(id), body, isIso, toIso, id, i);
  }

  /**
   * The same PUT texts in a body that also carries a `hasOwnProperty` key,
   * whatever its value: title and author are written, then the key test
   * throws, so the answer is 500 and nothing else of the video changes.
   */
  lemma ShadowedHasOwnPropertyFails(s: Store, id: int, i: int, body: Body, isIso: string -> bool,
                                    toIso: Json -> string)
    requires Table.IsFirst(s.videos, VideoKey, id, i)
    requires OnlyTexts(body, "hello title", "hello author") && "hasOwnProperty" in body
    ensures PutVideo(s, IdText(id), body, isIso, toIso) ==
              (s.(videos := s.videos[i := s.videos[i].(title := "hello title", author := "hello author")]),
               Reply(InternalError, Empty))
  {
    HelloTitleMeasure();
    HelloAuthorMeasure();
    TextsAccepted(body, "hello title", "hello author", isIso);
    assert CoerceId(IdText(id)) == Some(id) by { IdTextRoundTrip(id); }
    PutVideoPatches(s, IdText(id), body, isIso, toIso, id, i);
  }

  /** DELETE on a video's id removes that video and answers 204, with or without credentials. */
  lemma DeleteRemoves(s: Store, id: int, i: int)
    requires Table.IsFirst(s.videos, VideoKey, id, i)
    ensures DeleteVideo(s, IdText(id)) == (s.(videos := Table.RemoveAt(s.videos, i)), Reply(NoContent, Empty))
  {
    IdTextRoundTrip(id);
  }
}
