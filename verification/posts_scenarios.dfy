/**
 * The answers of the `/posts` routes to bodies whose fields hold what the
 * end-to-end tests send; other keys of the body play no part.
 */
module PostsScenarios {
  import opened Wrappers
  import opened Json
  import opened Db
  import opened Validation
  import opened InputValidation
  import opened Http
  import opened PostsRouter
  import JsStrings
  import BlogsRepository
  import opened Fixtures

  /** A body the route rejects gets the same 400 answer from POST and PUT, and neither changes the store. */
  lemma RejectedAlike(s: Store, body: Body, newId: string, id: string, errs: seq<ValidationError>)
    requires FirstErrors(Chains(s), body) == errs && errs != []
    ensures PostPost(s, true, body, newId) == (s, Reply(BadRequest, Problems(Rename(errs))))
    ensures PutPost(s, true, id, body) == PostPost(s, true, body, newId)
  {
    PostPostValidates(s, body, newId);
  }

  /** Three failing texts and a good blog id: three errors, in field order. */
  lemma RejectedTexts(s: Store, body: Body, newId: string, id: string,
                      a: ValidationError, b: ValidationError, c: ValidationError)
    requires Reported(TitleChain, body) == [a] && Reported(ShortDescriptionChain, body) == [b]
    requires Reported(ContentChain, body) == [c] && Reported(BlogIdChain(s), body) == []
    ensures PostPost(s, true, body, newId) ==
              (s, Reply(BadRequest, Problems([FieldError(a.msg, a.path), FieldError(b.msg, b.path), FieldError(c.msg, c.path)])))
    ensures PutPost(s, true, id, body) == PostPost(s, true, body, newId)
  {
    FirstErrorsByField(s, body);
    assert FirstErrors(Chains(s), body) == [a, b, c];
    assert Rename([a, b, c]) == [FieldError(a.msg, a.path), FieldError(b.msg, b.path), FieldError(c.msg, c.path)];
    RejectedAlike(s, body, newId, id, [a, b, c]);
  }

  /** Four failing fields: four errors, in field order. */
  lemma RejectedAll(s: Store, body: Body, newId: string, id: string,
                    a: ValidationError, b: ValidationError, c: ValidationError, d: ValidationError)
    requires Reported(TitleChain, body) == [a] && Reported(ShortDescriptionChain, body) == [b]
    requires Reported(ContentChain, body) == [c] && Reported(BlogIdChain(s), body) == [d]
    ensures PostPost(s, true, body, newId) ==
              (s, Reply(BadRequest, Problems([FieldError(a.msg, a.path), FieldError(b.msg, b.path),
                                              FieldError(c.msg, c.path), FieldError(d.msg, d.path)])))
    ensures PutPost(s, true, id, body) == PostPost(s, true, body, newId)
  {
    FirstErrorsByField(s, body);
    assert FirstErrors(Chains(s), body) == [a, b, c, d];
    assert Rename([a, b, c, d]) == [FieldError(a.msg, a.path), FieldError(b.msg, b.path),
                                    FieldError(c.msg, c.path), FieldError(d.msg, d.path)];
    RejectedAlike(s, body, newId, id, [a, b, c, d]);
  }

  /** Empty texts are each reported as required. */
  lemma BlankTextsRequired(body: Body)
    requires Lookup(body, "title") == Str("") && Lookup(body, "shortDescription") == Str("")
    requires Lookup(body, "content") == Str("")
    ensures Reported(TitleChain, body) == [ValidationError("title is required", "title")]
    ensures Reported(ShortDescriptionChain, body) ==
              [ValidationError("short description is required", "shortDescription")]
    ensures Reported(ContentChain, body) == [ValidationError("content is required", "content")]
  {
    JsStrings.TrimKeepsUnpadded("");
    TextChainReported("title", 30, "title is invalid", "title is required", "title is too long", body, Str(""));
    TextChainReported("shortDescription", 100, "short description is invalid", "short description is required",
                      "short description is too long", body, Str(""));
    TextChainReported("content", 1000, "content is invalid", "content is required", "content is too long",
                      body, Str(""));
  }

  /** Empty fields are each reported as required, in field order, whatever the store holds. */
  lemma BlankFieldsRequired(s: Store, body: Body, newId: string, id: string)
    requires Lookup(body, "title") == Str("") && Lookup(body, "shortDescription") == Str("")
    requires Lookup(body, "content") == Str("") && Lookup(body, "blogId") == Str("")
    ensures PostPost(s, true, body, newId) ==
              (s, Reply(BadRequest, Problems([
                FieldError("title is required", "title"),
                FieldError("short description is required", "shortDescription"),
                FieldError("content is required", "content"),
                FieldError("blog id is required", "blogId")])))
    ensures PutPost(s, true, id, body) == PostPost(s, true, body, newId)
  {
    BlankTextsRequired(body);
    BlogIdReported(s, body, Str(""));
    RejectedAll(s, body, newId, id, ValidationError("title is required", "title"),
                ValidationError("short description is required", "shortDescription"),
                ValidationError("content is required", "content"),
                ValidationError("blog id is required", "blogId"));
  }

  /** A title of 31 ones is one character too long. */
  lemma TitleOf31TooLong(body: Body)
    requires Lookup(body, "title") == Str(Ones(31))
    ensures Reported(TitleChain, body) == [ValidationError("title is too long", "title")]
  {
    OnesMeasure(31);
    TextChainReported("title", 30, "title is invalid", "title is required", "title is too long", body, Str(Ones(31)));
  }

  /** A short description of 101 ones is one character too long. */
  lemma ShortDescriptionOf101TooLong(body: Body)
    requires Lookup(body, "shortDescription") == Str(Ones(101))
    ensures Reported(ShortDescriptionChain, body) ==
              [ValidationError("short description is too long", "shortDescription")]
  {
    OnesMeasure(101);
    TextChainReported("shortDescription", 100, "short description is invalid", "short description is required",
                      "short description is too long", body, Str(Ones(101)));
  }

  /** A content of 1001 ones is one character too long. */
  lemma ContentOf1001TooLong(body: Body)
    requires Lookup(body, "content") == Str(Ones(1001))
    ensures Reported(ContentChain, body) == [ValidationError("content is too long", "content")]
  {
    OnesMeasure(1001);
    TextChainReported("content", 1000, "content is invalid", "content is required", "content is too long",
                      body, Str(Ones(1001)));
  }

  /** Texts one past each bound are each reported as too long; an existing blog id adds no error. */
  lemma LongFieldsTooLong(s: Store, body: Body, blogId: string, newId: string, id: string)
    requires Lookup(body, "title") == Str(Ones(31)) && Lookup(body, "shortDescription") == Str(Ones(101))
    requires Lookup(body, "content") == Str(Ones(1001)) && Lookup(body, "blogId") == Str(blogId)
    requires blogId != [] && BlogsRepository.Exists(s, blogId)
    ensures PostPost(s, true, body, newId) ==
              (s, Reply(BadRequest, Problems([
                FieldError("title is too long", "title"),
                FieldError("short description is too long", "shortDescription"),
                FieldError("content is too long", "content")])))
    ensures PutPost(s, true, id, body) == PostPost(s, true, body, newId)
  {
    TitleOf31TooLong(body);
    ShortDescriptionOf101TooLong(body);
    ContentOf1001TooLong(body);
    BlogIdFitsIff(s, body);
    RejectedTexts(s, body, newId, id, ValidationError("title is too long", "title"),
                  ValidationError("short description is too long", "shortDescription"),
                  ValidationError("content is too long", "content"));
  }

  /** Numbers for the three texts are each reported as invalid. */
  lemma NumberTextsInvalid(body: Body)
    requires Lookup(body, "title") == Num("1") && Lookup(body, "shortDescription") == Num("1")
    requires Lookup(body, "content") == Num("1")
    ensures Reported(TitleChain, body) == [ValidationError("title is invalid", "title")]
    ensures Reported(ShortDescriptionChain, body) ==
              [ValidationError("short description is invalid", "shortDescription")]
    ensures Reported(ContentChain, body) == [ValidationError("content is invalid", "content")]
  {
    TextChainReported("title", 30, "title is invalid", "title is required", "title is too long", body, Num("1"));
    TextChainReported("shortDescription", 100, "short description is invalid", "short description is required",
                      "short description is too long", body, Num("1"));
    TextChainReported("content", 1000, "content is invalid", "content is required", "content is too long",
                      body, Num("1"));
  }

  /** Numbers are invalid for every field, the blog id included: a number never equals a blog's string id. */
  lemma WrongTypesInvalid(s: Store, body: Body, newId: string, id: string)
    requires Lookup(body, "title") == Num("1") && Lookup(body, "shortDescription") == Num("1")
    requires Lookup(body, "content") == Num("1") && Lookup(body, "blogId") == Num("1")
    ensures PostPost(s, true, body, newId) ==
              (s, Reply(BadRequest, Problems([
                FieldError("title is invalid", "title"),
                FieldError("short description is invalid", "shortDescription"),
                FieldError("content is invalid", "content"),
                FieldError("blog id is invalid", "blogId")])))
    ensures PutPost(s, true, id, body) == PostPost(s, true, body, newId)
  {
    NumberTextsInvalid(body);
    BlogIdReported(s, body, Num("1"));
    RejectedAll(s, body, newId, id, ValidationError("title is invalid", "title"),
                ValidationError("short description is invalid", "shortDescription"),
                ValidationError("content is invalid", "content"),
                ValidationError("blog id is invalid", "blogId"));
  }

  /** The well-formed post of the tests passes validation. */
  lemma TestPostAccepted(s: Store, body: Body, blogId: string)
    requires Lookup(body, "title") == Str("test") && Lookup(body, "shortDescription") == Str("test")
    requires Lookup(body, "content") == Str("test") && Lookup(body, "blogId") == Str(blogId)
    requires blogId != [] && BlogsRepository.Exists(s, blogId)
    ensures Accepted(s, body)
  {
    TestMeasure();
  }

  /** The well-formed post of the tests is created with the fields sent and the name of its blog. */
  lemma TestPostCreated(s: Store, body: Body, blogId: string, newId: string)
    requires Lookup(body, "title") == Str("test") && Lookup(body, "shortDescription") == Str("test")
    requires Lookup(body, "content") == Str("test") && Lookup(body, "blogId") == Str(blogId)
    requires blogId != [] && BlogsRepository.Exists(s, blogId)
    ensures PostPost(s, true, body, newId).1 ==
              Reply(Created, One(Post(newId, "test", "test", "test", blogId,
                                      BlogsRepository.FindBlog(s, blogId).value.name)))
  {
    TestMeasure();
    TestPostAccepted(s, body, blogId);
    ValidIffAccepted(s, body);
    PostPostValidates(s, body, newId);
  }
}
