/**
 * The answers of the `/blogs` routes to bodies whose fields hold what the
 * end-to-end tests send; other keys of the body play no part.
 */
module BlogsScenarios {
  import opened Wrappers
  import opened Json
  import opened Db
  import opened Validation
  import opened InputValidation
  import opened Http
  import opened BlogsRouter
  import JsStrings
  import opened Fixtures

  /** A body the route rejects gets the same 400 answer from POST and PUT, and neither changes the store. */
  lemma RejectedAlike(s: Store, body: Body, isUrl: string -> bool, newId: string, id: string,
                      a: ValidationError, b: ValidationError, c: ValidationError)
    requires Reported(NameChain, body) == [a]
    requires Reported(DescriptionChain, body) == [b]
    requires Reported(WebsiteUrlChain(isUrl), body) == [c]
    ensures PostBlog(s, true, body, isUrl, newId) ==
              (s, Reply(BadRequest, Problems([FieldError(a.msg, a.path), FieldError(b.msg, b.path), FieldError(c.msg, c.path)])))
    ensures PutBlog(s, true, id, body, isUrl) == PostBlog(s, true, body, isUrl, newId)
  {
    FirstErrorsByField(isUrl, body);
    var errs := FirstErrors(Chains(isUrl), body);
    assert errs == [a, b, c];
    assert Rename(errs) == [FieldError(a.msg, a.path), FieldError(b.msg, b.path), FieldError(c.msg, c.path)];
    PostBlogValidates(s, body, isUrl, newId);
  }

  /** Empty fields are each reported as required, in field order, and nothing is stored. */
  lemma BlankFieldsRequired(s: Store, body: Body, isUrl: string -> bool, newId: string, id: string)
    requires Lookup(body, "name") == Str("") && Lookup(body, "description") == Str("")
    requires Lookup(body, "websiteUrl") == Str("")
    ensures PostBlog(s, true, body, isUrl, newId) ==
              (s, Reply(BadRequest, Problems([
                FieldError("name is required", "name"),
                FieldError("description is required", "description"),
                FieldError("website url is required", "websiteUrl")])))
    ensures PutBlog(s, true, id, body, isUrl) == PostBlog(s, true, body, isUrl, newId)
  {
    JsStrings.TrimKeepsUnpadded("");
    TextChainReported("name", 15, "name is invalid", "name is required", "name is too long", body, Str(""));
    TextChainReported("description", 500, "description is invalid", "description is required",
                      "description is too long", body, Str(""));
    WebsiteUrlReported(isUrl, body, Str(""));
    RejectedAlike(s, body, isUrl, newId, id, ValidationError("name is required", "name"),
                  ValidationError("description is required", "description"),
                  ValidationError("website url is required", "websiteUrl"));
  }

  /** A name of 16 ones is one character too long. */
  lemma NameOfSixteenTooLong(body: Body)
    requires Lookup(body, "name") == Str(Ones(16))
    ensures Reported(NameChain, body) == [ValidationError("name is too long", "name")]
  {
    OnesMeasure(16);
    TextChainReported("name", 15, "name is invalid", "name is required", "name is too long", body, Str(Ones(16)));
  }

  /** A description of 501 ones is one character too long. */
  lemma DescriptionOf501TooLong(body: Body)
    requires Lookup(body, "description") == Str(Ones(501))
    ensures Reported(DescriptionChain, body) == [ValidationError("description is too long", "description")]
  {
    OnesMeasure(501);
    TextChainReported("description", 500, "description is invalid", "description is required",
                      "description is too long", body, Str(Ones(501)));
  }

  /** The long URL of the tests is one character too long. */
  lemma LongUrlTooLong(body: Body, isUrl: string -> bool)
    requires Lookup(body, "websiteUrl") == Str(LongUrl()) && isUrl(LongUrl())
    ensures Reported(WebsiteUrlChain(isUrl), body) == [ValidationError("website url is too long", "websiteUrl")]
  {
    LongUrlMeasure();
    WebsiteUrlReported(isUrl, body, Str(LongUrl()));
  }

  /** Values one past each bound are each reported as too long, given that the long URL is a URL. */
  lemma LongFieldsTooLong(s: Store, body: Body, isUrl: string -> bool, newId: string, id: string)
    requires Lookup(body, "name") == Str(Ones(16)) && Lookup(body, "description") == Str(Ones(501))
    requires Lookup(body, "websiteUrl") == Str(LongUrl())
    requires isUrl(LongUrl())
    ensures PostBlog(s, true, body, isUrl, newId) ==
              (s, Reply(BadRequest, Problems([
                FieldError("name is too long", "name"),
                FieldError("description is too long", "description"),
                FieldError("website url is too long", "websiteUrl")])))
    ensures PutBlog(s, true, id, body, isUrl) == PostBlog(s, true, body, isUrl, newId)
  {
    NameOfSixteenTooLong(body);
    DescriptionOf501TooLong(body);
    LongUrlTooLong(body, isUrl);
    RejectedAlike(s, body, isUrl, newId, id, ValidationError("name is too long", "name"),
                  ValidationError("description is too long", "description"),
                  ValidationError("website url is too long", "websiteUrl"));
  }

  /** Numbers for name and description are invalid, and `test` is not a URL. */
  lemma WrongTypesInvalid(s: Store, body: Body, isUrl: string -> bool, newId: string, id: string)
    requires Lookup(body, "name") == Num("1") && Lookup(body, "description") == Num("1")
    requires Lookup(body, "websiteUrl") == Str("test")
    requires !isUrl("test")
    ensures PostBlog(s, true, body, isUrl, newId) ==
              (s, Reply(BadRequest, Problems([
                FieldError("name is invalid", "name"),
                FieldError("description is invalid", "description"),
                FieldError("website url does not match the template", "websiteUrl")])))
    ensures PutBlog(s, true, id, body, isUrl) == PostBlog(s, true, body, isUrl, newId)
  {
    TextChainReported("name", 15, "name is invalid", "name is required", "name is too long", body, Num("1"));
    TextChainReported("description", 500, "description is invalid", "description is required",
                      "description is too long", body, Num("1"));
    WebsiteUrlReported(isUrl, body, Str("test"));
    RejectedAlike(s, body, isUrl, newId, id, ValidationError("name is invalid", "name"),
                  ValidationError("description is invalid", "description"),
                  ValidationError("website url does not match the template", "websiteUrl"));
  }

  /** `test` fits a text chain of bound `max` of at least 4. */
  lemma TestFits(v: Json, max: nat)
    requires v == Str("test") && max >= 4
    ensures TextFits(v, max)
  {
    TestMeasure();
  }

  /** The URL of the tests fits the `websiteUrl` chain when `isUrl` accepts it. */
  lemma TestUrlFits(isUrl: string -> bool, v: Json)
    requires v == Str("http://www.test.com/") && isUrl("http://www.test.com/")
    ensures UrlFits(isUrl, v)
  {
    TestUrlMeasure();
  }

  /** The well-formed blog of the tests passes validation. */
  lemma TestBlogAccepted(body: Body, isUrl: string -> bool)
    requires Lookup(body, "name") == Str("test") && Lookup(body, "description") == Str("test")
    requires Lookup(body, "websiteUrl") == Str("http://www.test.com/")
    requires isUrl("http://www.test.com/")
    ensures Accepted(isUrl, body)
  {
    TestFits(Lookup(body, "name"), 15);
    TestFits(Lookup(body, "description"), 500);
    TestUrlFits(isUrl, Lookup(body, "websiteUrl"));
  }

  /** The well-formed blog of the tests is created with exactly the fields sent, under the new id. */
  lemma TestBlogCreated(s: Store, body: Body, isUrl: string -> bool, newId: string)
    requires Lookup(body, "name") == Str("test") && Lookup(body, "description") == Str("test")
    requires Lookup(body, "websiteUrl") == Str("http://www.test.com/")
    requires isUrl("http://www.test.com/")
    ensures PostBlog(s, true, body, isUrl, newId).1 ==
              Reply(Created, One(Blog(newId, "test", "test", "http://www.test.com/")))
    ensures PostBlog(s, true, body, isUrl, newId).0.blogs ==
              s.blogs + [Blog(newId, "test", "test", "http://www.test.com/")]
  {
    TestMeasure();
    TestBlogAccepted(body, isUrl);
    ValidIffAccepted(isUrl, body);
    PostBlogValidates(s, body, isUrl, newId);
  }
}
