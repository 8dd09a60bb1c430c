/**
 * The `/blogs` routes. Reads are open; create, update and delete pass the
 * authorization check first and then, for create and update, the three
 * field chains and the input-validation middleware.
 */
module BlogsRouter {
  import opened Wrappers
  import opened Json
  import opened Db
  import opened Validation
  import opened InputValidation
  import opened Http
  import JsStrings
  import Table
  import BlogsRepository

  /** `name`: a string, trimmed, non-empty, at most 15 long. */
  const NameChain: Chain := TextChain("name", 15, "name is invalid", "name is required", "name is too long")

  /** `description`: a string, trimmed, non-empty, at most 500 long. */
  const DescriptionChain: Chain :=
    TextChain("description", 500, "description is invalid", "description is required", "description is too long")

  /** `websiteUrl`: non-empty, a URL, not an array, at most 100 long; no trimming. */
  function WebsiteUrlChain(isUrl: string -> bool): Chain {
    Chain("websiteUrl", Mandatory, [
      Check(NotEmpty, "website url is required"),
      Check(Url(isUrl), "website url does not match the template"),
      Check(NotArray, "website url is invalid"),
      Check(MaxLength(100), "website url is too long")])
  }

  /** The chains of POST and PUT, in the order the routes list them. */
  function Chains(isUrl: string -> bool): (cs: seq<Chain>)
    ensures DistinctFields(cs)
  {
    [NameChain, DescriptionChain, WebsiteUrlChain(isUrl)]
  }

  /** The last two `websiteUrl` checks: not an array, then at most 100 long. */
  lemma WebsiteUrlTail(isUrl: string -> bool, v: Json)
    ensures FirstFailure(WebsiteUrlChain(isUrl).steps[2..], v) ==
      if v.Arr? then Some("website url is invalid")
      else if Length(Text(v)) > 100 then Some("website url is too long")
      else None
    ensures Settle(WebsiteUrlChain(isUrl).steps[2..], v) == v
  {
    var s2 := WebsiteUrlChain(isUrl).steps[2..];
    assert s2 == [Check(NotArray, "website url is invalid"), Check(MaxLength(100), "website url is too long")];
    LastCheck(MaxLength(100), "website url is too long", v);
    assert s2[1..] == [Check(MaxLength(100), "website url is too long")];
  }

  /**
   * The `websiteUrl` verdict: for a non-array value, `required` when its
   * text is empty, else `template` when it is not a URL, else `too long`
   * past 100; an array that passes the first two checks element-wise is
   * `invalid`. The value is left as it is.
   */
  lemma WebsiteUrlVerdict(isUrl: string -> bool, v: Json)
    ensures FirstFailure(WebsiteUrlChain(isUrl).steps, v) ==
      if !Passes(NotEmpty, v) then Some("website url is required")
      else if !Passes(Url(isUrl), v) then Some("website url does not match the template")
      else if v.Arr? then Some("website url is invalid")
      else if Length(Text(v)) > 100 then Some("website url is too long")
      else None
    ensures !v.Arr? ==> (Passes(NotEmpty, v) <==> Text(v) != []) && (Passes(Url(isUrl), v) <==> isUrl(Text(v)))
    ensures Settle(WebsiteUrlChain(isUrl).steps, v) == v
  {
    var s0 := WebsiteUrlChain(isUrl).steps;
    WebsiteUrlTail(isUrl, v);
    assert s0[0] == Check(NotEmpty, "website url is required");
    assert s0[1..][0] == Check(Url(isUrl), "website url does not match the template");
    assert s0[1..][1..] == s0[2..];
  }

  /** A `websiteUrl` value the chain lets through: a non-array whose text is a non-empty URL at most 100 long. */
  predicate UrlFits(isUrl: string -> bool, v: Json) {
    !v.Arr? && Text(v) != [] && isUrl(Text(v)) && Length(Text(v)) <= 100
  }

  /** What the `websiteUrl` chain contributes to `FirstErrors` for a body whose URL is the non-array `v`. */
  lemma WebsiteUrlReported(isUrl: string -> bool, body: Body, v: Json)
    requires Lookup(body, "websiteUrl") == v && !v.Arr?
    ensures Reported(WebsiteUrlChain(isUrl), body) ==
      if Text(v) == [] then [ValidationError("website url is required", "websiteUrl")]
      else if !isUrl(Text(v)) then [ValidationError("website url does not match the template", "websiteUrl")]
      else if Length(Text(v)) > 100 then [ValidationError("website url is too long", "websiteUrl")]
      else []
  {
    WebsiteUrlVerdict(isUrl, v);
  }

  /** The `websiteUrl` chain reports nothing exactly for the values that fit it, and leaves the value as it is. */
  lemma WebsiteUrlFits(isUrl: string -> bool, body: Body)
    ensures Reported(WebsiteUrlChain(isUrl), body) == [] <==> UrlFits(isUrl, Lookup(body, "websiteUrl"))
    ensures Settled(WebsiteUrlChain(isUrl), body) == Lookup(body, "websiteUrl")
  {
    WebsiteUrlVerdict(isUrl, Lookup(body, "websiteUrl"));
  }

  /** The route's first-failure reading, field by field. */
  lemma FirstErrorsByField(isUrl: string -> bool, body: Body)
    ensures FirstErrors(Chains(isUrl), body) ==
              Reported(NameChain, body) + (Reported(DescriptionChain, body) + Reported(WebsiteUrlChain(isUrl), body))
  {
    var cs := Chains(isUrl);
    FirstErrorsCons(cs[0], cs[1..], body);
    FirstErrorsCons(cs[1], cs[2..], body);
    FirstErrorsCons(cs[2], cs[3..], body);
    assert cs == [cs[0]] + cs[1..] && cs[1..] == [cs[1]] + cs[2..] && cs[2..] == [cs[2]] + cs[3..];
    assert cs[3..] == [];
    assert Reported(cs[2], body) + [] == Reported(cs[2], body);
  }

  /**
   * The bodies validation lets through: a name and a description whose
   * trimmed texts are non-empty and at most 15 and 500 long, and a URL
   * that fits.
   */
  predicate Accepted(isUrl: string -> bool, body: Body) {
    && TextFits(Lookup(body, "name"), 15)
    && TextFits(Lookup(body, "description"), 500)
    && UrlFits(isUrl, Lookup(body, "websiteUrl"))
  }

  /** Validation reports nothing exactly for the accepted bodies. */
  lemma ValidIffAccepted(isUrl: string -> bool, body: Body)
    ensures FirstErrors(Chains(isUrl), body) == [] <==> Accepted(isUrl, body)
  {
    FirstErrorsByField(isUrl, body);
    TextChainFits("name", 15, "name is invalid", "name is required", "name is too long", body, Lookup(body, "name"));
    TextChainFits("description", 500, "description is invalid", "description is required",
                  "description is too long", body, Lookup(body, "description"));
    WebsiteUrlFits(isUrl, body);
  }

  /** What the handler reads from the sanitized body. */
  function InputOf(body: Body, isUrl: string -> bool): BlogsRepository.BlogInput {
    BlogsRepository.BlogInput(
      Text(Settled(NameChain, body)),
      Text(Settled(DescriptionChain, body)),
      Text(Settled(WebsiteUrlChain(isUrl), body)))
  }

  /** When validation passes, the handler reads the trimmed name and description and the URL's text. */
  lemma InputOfValid(body: Body, isUrl: string -> bool)
    requires FirstErrors(Chains(isUrl), body) == []
    ensures Lookup(body, "name").Str? && Lookup(body, "description").Str?
    ensures InputOf(body, isUrl) == BlogsRepository.BlogInput(
              JsStrings.Trim(Lookup(body, "name").s),
              JsStrings.Trim(Lookup(body, "description").s),
              Text(Lookup(body, "websiteUrl")))
  {
    ValidIffAccepted(isUrl, body);
    InputOfAccepted(body, isUrl);
  }

  /** The handler's reading of an accepted body. */
  lemma InputOfAccepted(body: Body, isUrl: string -> bool)
    requires Accepted(isUrl, body)
    ensures Lookup(body, "name").Str? && Lookup(body, "description").Str?
    ensures InputOf(body, isUrl) == BlogsRepository.BlogInput(
              JsStrings.Trim(Lookup(body, "name").s),
              JsStrings.Trim(Lookup(body, "description").s),
              Text(Lookup(body, "websiteUrl")))
  {
    TextChainSettled("name", 15, "name is invalid", "name is required", "name is too long", body);
    TextChainSettled("description", 500, "description is invalid", "description is required",
                     "description is too long", body);
    WebsiteUrlFits(isUrl, body);
  }

  /** `GET /blogs`: 200 with every blog, in order. */
  function GetBlogs(s: Store): (r: Reply<Blog>)
    ensures r.status == Ok && r.payload == Many(BlogsRepository.FindBlogs(s))
  {
    Reply(Ok, Many(s.blogs))
  }

  /** `GET /blogs/:blogId`: 200 with the first blog with the id, 404 when none has it. */
  function GetBlog(s: Store, id: string): (r: Reply<Blog>)
    ensures r.status == NotFound <==> !BlogsRepository.Exists(s, id)
    ensures forall i :: Table.IsFirst(s.blogs, BlogKey, id, i) ==> r == Reply(Ok, One(s.blogs[i]))
  {
    Found(BlogsRepository.FindBlog(s, id))
  }

  /**
   * `POST /blogs`: 401 unless authorized, then 400 with the validation
   * errors, then 201 with the created blog. Only a 201 changes the store.
   */
  function PostBlog(s: Store, authorized: bool, body: Body, isUrl: string -> bool, newId: string): (r: (Store, Reply<Blog>))
    ensures !authorized ==> r == (s, Reply(Unauthorized, Empty))
    ensures r.1.status != Created ==> r.0 == s
    ensures r.1.status == Created ==>
              && r.1.payload.One?
              && r.0.blogs == s.blogs + [r.1.payload.item]
              && r.1.payload.item.id == newId
              && r.0.posts == s.posts && r.0.videos == s.videos
  {
    match Screen(authorized, RunChains(Chains(isUrl), body))
    case Some(reply) => (s, reply)
    case None =>
      var (s', blog) := BlogsRepository.CreateBlog(s, InputOf(body, isUrl), newId);
      assert s'.blogs == s'.blogs[..|s.blogs|] + [blog];
      (s', Reply(Created, One(blog)))
  }

  /**
   * An authorized POST answers 400 with each failing field's first failing
   * check, in the order `name`, `description`, `websiteUrl`, when any check
   * fails; otherwise it answers 201 and stores the trimmed name and
   * description.
   */
  lemma PostBlogValidates(s: Store, body: Body, isUrl: string -> bool, newId: string)
    ensures FirstErrors(Chains(isUrl), body) != [] ==>
              PostBlog(s, true, body, isUrl, newId) ==
              (s, Reply(BadRequest, Problems(Rename(FirstErrors(Chains(isUrl), body)))))
    ensures FirstErrors(Chains(isUrl), body) == [] ==>
              && PostBlog(s, true, body, isUrl, newId).1.status == Created
              && Lookup(body, "name").Str? && Lookup(body, "description").Str?
              && PostBlog(s, true, body, isUrl, newId).1.payload.item ==
                   Blog(newId, JsStrings.Trim(Lookup(body, "name").s),
                        JsStrings.Trim(Lookup(body, "description").s), Text(Lookup(body, "websiteUrl")))
  {
    MiddlewareReportsFirstErrors(Chains(isUrl), body);
    if FirstErrors(Chains(isUrl), body) == [] {
      InputOfValid(body, isUrl);
    }
  }

  /**
   * `PUT /blogs/:blogId`: 401 unless authorized, then 400 with the
   * validation errors, then 204 when the update found the blog and 404
   * when it did not.
   */
  function PutBlog(s: Store, authorized: bool, id: string, body: Body, isUrl: string -> bool): (r: (Store, Reply<Blog>))
    ensures !authorized ==> r == (s, Reply(Unauthorized, Empty))
    ensures r.1.status != NoContent ==> r.0 == s
    ensures r.1.status == NoContent ==> BlogsRepository.Exists(s, id) && |r.0.blogs| == |s.blogs|
    ensures authorized && FirstErrors(Chains(isUrl), body) != [] ==>
              r == (s, Reply(BadRequest, Problems(Rename(FirstErrors(Chains(isUrl), body)))))
    ensures authorized && FirstErrors(Chains(isUrl), body) == [] ==>
              && (r.1.status == NoContent <==> BlogsRepository.Exists(s, id))
              && (r.1.status == NotFound <==> !BlogsRepository.Exists(s, id))
  {
    MiddlewareReportsFirstErrors(Chains(isUrl), body);
    match Screen(authorized, RunChains(Chains(isUrl), body))
    case Some(reply) => (s, reply)
    case None =>
      var (s', updated) := BlogsRepository.UpdateBlog(s, id, InputOf(body, isUrl));
      (s', Done(updated))
  }

  /**
   * An authorized, valid PUT on the id of a blog overwrites the first blog
   * with that id with the trimmed name and description and the URL's text,
   * keeps its id, and answers 204.
   */
  lemma PutBlogUpdates(s: Store, id: string, body: Body, isUrl: string -> bool, i: int)
    requires FirstErrors(Chains(isUrl), body) == []
    requires Table.IsFirst(s.blogs, BlogKey, id, i)
    ensures Lookup(body, "name").Str? && Lookup(body, "description").Str?
    ensures PutBlog(s, true, id, body, isUrl) ==
              (s.(blogs := s.blogs[i := Blog(id, JsStrings.Trim(Lookup(body, "name").s),
                                                 JsStrings.Trim(Lookup(body, "description").s),
                                                 Text(Lookup(body, "websiteUrl")))]),
               Reply(NoContent, Empty))
  {
    InputOfValid(body, isUrl);
    PutBlogRunsHandler(s, id, body, isUrl);
    var input := InputOf(body, isUrl);
    var blog := Blog(id, input.name, input.description, input.websiteUrl);
    assert Table.IndexOf(s.blogs, BlogKey, id) == Some(i);
    assert BlogsRepository.UpdateBlog(s, id, input) == (s.(blogs := s.blogs[i := blog]), Some(blog));
  }

  /** An authorized PUT that passes validation answers what `updateBlog` on the handler's input answers. */
  lemma PutBlogRunsHandler(s: Store, id: string, body: Body, isUrl: string -> bool)
    requires FirstErrors(Chains(isUrl), body) == []
    ensures var (s', updated) := BlogsRepository.UpdateBlog(s, id, InputOf(body, isUrl));
            PutBlog(s, true, id, body, isUrl) == (s', Done(updated))
  {
    MiddlewareReportsFirstErrors(Chains(isUrl), body);
  }

  /** `DELETE /blogs/:blogId`: 401 unless authorized, then 204 when a blog was removed and 404 otherwise. */
  function DeleteBlog(s: Store, authorized: bool, id: string): (r: (Store, Reply<Blog>))
    ensures !authorized ==> r == (s, Reply(Unauthorized, Empty))
    ensures authorized ==> (r.1.status == NoContent <==> BlogsRepository.Exists(s, id))
    ensures authorized ==> (r.1.status == NotFound <==> !BlogsRepository.Exists(s, id))
    ensures r.1.status != NoContent ==> r.0 == s
    ensures r.1.status == NoContent ==>
              |r.0.blogs| == |s.blogs| - 1 && r.0.posts == s.posts && r.0.videos == s.videos
  {
    if !authorized then (s, Reply(Unauthorized, Empty))
    else
      var (s', removed) := BlogsRepository.RemoveBlog(s, id);
      (s', Done(removed))
  }

  /** An authorized DELETE on the id of the `i`th blog, the first with that id, splices out that blog and answers 204. */
  lemma DeleteBlogRemoves(s: Store, id: string, i: int)
    requires Table.IsFirst(s.blogs, BlogKey, id, i)
    ensures DeleteBlog(s, true, id) == (s.(blogs := Table.RemoveAt(s.blogs, i)), Reply(NoContent, Empty))
  {
  }
}
