/**
 * The `/posts` routes. Reads are open; create, update and delete pass the
 * authorization check first and then, for create and update, the four
 * field chains and the input-validation middleware. The `blogId` chain
 * looks the id up among the blogs of the store.
 */
module PostsRouter {
  import opened Wrappers
  import opened Json
  import opened Db
  import opened Validation
  import opened InputValidation
  import opened Http
  import JsStrings
  import Table
  import BlogsRepository
  import PostsRepository

  /** `title`: a string, trimmed, non-empty, at most 30 long. */
  const TitleChain: Chain := TextChain("title", 30, "title is invalid", "title is required", "title is too long")

  /** `shortDescription`: a string, trimmed, non-empty, at most 100 long. */
  const ShortDescriptionChain: Chain :=
    TextChain("shortDescription", 100, "short description is invalid", "short description is required",
              "short description is too long")

  /** `content`: a string, trimmed, non-empty, at most 1000 long. */
  const ContentChain: Chain :=
    TextChain("content", 1000, "content is invalid", "content is required", "content is too long")

  /** The ids of the store's blogs, in order. */
  function BlogIds(s: Store): (ids: seq<string>)
    ensures forall id :: id in ids <==> BlogsRepository.Exists(s, id)
  {
    var ids := seq(|s.blogs|, i requires 0 <= i < |s.blogs| => s.blogs[i].id);
    assert forall id :: BlogsRepository.Exists(s, id) ==> id in ids by {
      forall id | BlogsRepository.Exists(s, id) ensures id in ids {
        var i :| 0 <= i < |s.blogs| && BlogKey(s.blogs[i]) == id;
        assert ids[i] == id;
      }
    }
    ids
  }

  /**
   * `blogId`: non-empty, then the custom check that `findBlog` finds it,
   * whose thrown message `blog id is invalid` is what the error carries.
   */
  function BlogIdChain(s: Store): Chain {
    Chain("blogId", Mandatory, [
      Check(NotEmpty, "blog id is required"),
      Check(KnownId(BlogIds(s)), "blog id is invalid")])
  }

  /** The chains of POST and PUT, in the order the routes list them. */
  function Chains(s: Store): (cs: seq<Chain>)
    ensures DistinctFields(cs)
  {
    [TitleChain, ShortDescriptionChain, ContentChain, BlogIdChain(s)]
  }

  /**
   * The `blogId` verdict: `required` when the value is empty, else
   * `invalid` unless it is a string equal to the id of some blog; so a
   * number never names a blog, whatever the store holds.
   */
  lemma BlogIdVerdict(s: Store, v: Json)
    ensures FirstFailure(BlogIdChain(s).steps, v) ==
      if !Passes(NotEmpty, v) then Some("blog id is required")
      else if !(v.Str? && BlogsRepository.Exists(s, v.s)) then Some("blog id is invalid")
      else None
    ensures !v.Arr? ==> (Passes(NotEmpty, v) <==> Text(v) != [])
    ensures Settle(BlogIdChain(s).steps, v) == v
  {
    var s0 := BlogIdChain(s).steps;
    assert s0[0] == Check(NotEmpty, "blog id is required");
    assert s0[1..] == [Check(KnownId(BlogIds(s)), "blog id is invalid")];
    LastCheck(KnownId(BlogIds(s)), "blog id is invalid", v);
  }

  /** A `blogId` value the chain lets through: a non-empty string that is the id of a blog of the store. */
  predicate BlogIdFits(s: Store, v: Json) {
    v.Str? && v.s != [] && BlogsRepository.Exists(s, v.s)
  }

  /** What the `blogId` chain contributes to `FirstErrors` for a body whose blog id is the non-array `v`. */
  lemma BlogIdReported(s: Store, body: Body, v: Json)
    requires Lookup(body, "blogId") == v && !v.Arr?
    ensures Reported(BlogIdChain(s), body) ==
      if Text(v) == [] then [ValidationError("blog id is required", "blogId")]
      else if !(v.Str? && BlogsRepository.Exists(s, v.s)) then [ValidationError("blog id is invalid", "blogId")]
      else []
  {
    BlogIdVerdict(s, v);
  }

  /** The `blogId` chain reports nothing exactly for the values that fit it, and leaves the value as it is. */
  lemma BlogIdFitsIff(s: Store, body: Body)
    ensures Reported(BlogIdChain(s), body) == [] <==> BlogIdFits(s, Lookup(body, "blogId"))
    ensures Settled(BlogIdChain(s), body) == Lookup(body, "blogId")
  {
    var v := Lookup(body, "blogId");
    BlogIdVerdict(s, v);
    if v.Str? {
      assert Passes(NotEmpty, v) <==> v.s != [];
    }
  }

  /** The route's first-failure reading, field by field. */
  lemma FirstErrorsByField(s: Store, body: Body)
    ensures FirstErrors(Chains(s), body) ==
              Reported(TitleChain, body) + (Reported(ShortDescriptionChain, body)
              + (Reported(ContentChain, body) + Reported(BlogIdChain(s), body)))
  {
    var cs := Chains(s);
    FirstErrorsCons(cs[0], cs[1..], body);
    FirstErrorsCons(cs[1], cs[2..], body);
    FirstErrorsCons(cs[2], cs[3..], body);
    FirstErrorsCons(cs[3], cs[4..], body);
    assert cs == [cs[0]] + cs[1..] && cs[1..] == [cs[1]] + cs[2..] && cs[2..] == [cs[2]] + cs[3..];
    assert cs[3..] == [cs[3]] + cs[4..] && cs[4..] == [];
    assert Reported(cs[3], body) + [] == Reported(cs[3], body);
  }

  /**
   * The bodies validation lets through: title, short description and
   * content whose trimmed texts are non-empty and at most 30, 100 and 1000
   * long, and the id of a blog of the store.
   */
  predicate Accepted(s: Store, body: Body) {
    && TextFits(Lookup(body, "title"), 30)
    && TextFits(Lookup(body, "shortDescription"), 100)
    && TextFits(Lookup(body, "content"), 1000)
    && BlogIdFits(s, Lookup(body, "blogId"))
  }

  /** Validation reports nothing exactly for the accepted bodies. */
  lemma ValidIffAccepted(s: Store, body: Body)
    ensures FirstErrors(Chains(s), body) == [] <==> Accepted(s, body)
  {
    FirstErrorsByField(s, body);
    TextChainFits("title", 30, "title is invalid", "title is required", "title is too long", body,
                  Lookup(body, "title"));
    TextChainFits("shortDescription", 100, "short description is invalid", "short description is required",
                  "short description is too long", body, Lookup(body, "shortDescription"));
    TextChainFits("content", 1000, "content is invalid", "content is required", "content is too long", body,
                  Lookup(body, "content"));
    BlogIdFitsIff(s, body);
  }

  /** What the handler reads from the sanitized body. */
  function InputOf(s: Store, body: Body): PostsRepository.PostInput {
    PostsRepository.PostInput(
      Text(Settled(TitleChain, body)),
      Text(Settled(ShortDescriptionChain, body)),
      Text(Settled(ContentChain, body)),
      Text(Settled(BlogIdChain(s), body)))
  }

  /** The handler's reading of an accepted body. */
  lemma InputOfAccepted(s: Store, body: Body)
    requires Accepted(s, body)
    ensures InputOf(s, body) == PostsRepository.PostInput(
              JsStrings.Trim(Lookup(body, "title").s),
              JsStrings.Trim(Lookup(body, "shortDescription").s),
              JsStrings.Trim(Lookup(body, "content").s),
              Lookup(body, "blogId").s)
  {
    AcceptedTexts(body);
    BlogIdFitsIff(s, body);
  }

  /** The three text chains leave fitting texts trimmed. */
  lemma AcceptedTexts(body: Body)
    requires TextFits(Lookup(body, "title"), 30)
    requires TextFits(Lookup(body, "shortDescription"), 100)
    requires TextFits(Lookup(body, "content"), 1000)
    ensures Settled(TitleChain, body) == Str(JsStrings.Trim(Lookup(body, "title").s))
    ensures Settled(ShortDescriptionChain, body) == Str(JsStrings.Trim(Lookup(body, "shortDescription").s))
    ensures Settled(ContentChain, body) == Str(JsStrings.Trim(Lookup(body, "content").s))
  {
    TextChainSettled("title", 30, "title is invalid", "title is required", "title is too long", body);
    TextChainSettled("shortDescription", 100, "short description is invalid", "short description is required",
                     "short description is too long", body);
    TextChainSettled("content", 1000, "content is invalid", "content is required", "content is too long", body);
  }

  /**
   * When validation passes, the handler reads the three trimmed texts and
   * a blog id that names a blog of the store: passing validation is what
   * makes `createPost`'s non-null assertion hold.
   */
  lemma InputOfValid(s: Store, body: Body)
    requires FirstErrors(Chains(s), body) == []
    ensures Lookup(body, "title").Str? && Lookup(body, "shortDescription").Str? && Lookup(body, "content").Str?
    ensures Lookup(body, "blogId").Str? && BlogsRepository.Exists(s, Lookup(body, "blogId").s)
    ensures InputOf(s, body) == PostsRepository.PostInput(
              JsStrings.Trim(Lookup(body, "title").s),
              JsStrings.Trim(Lookup(body, "shortDescription").s),
              JsStrings.Trim(Lookup(body, "content").s),
              Lookup(body, "blogId").s)
  {
    ValidIffAccepted(s, body);
    InputOfAccepted(s, body);
  }

  /** `GET /posts`: 200 with every post, in order. */
  function GetPosts(s: Store): (r: Reply<Post>)
    ensures r.status == Ok && r.payload == Many(PostsRepository.FindPosts(s))
  {
    Reply(Ok, Many(s.posts))
  }

  /** `GET /posts/:postId`: 200 with the first post with the id, 404 when none has it. */
  function GetPost(s: Store, id: string): (r: Reply<Post>)
    ensures r.status == NotFound <==> !PostsRepository.Exists(s, id)
    ensures forall i :: Table.IsFirst(s.posts, PostKey, id, i) ==> r == Reply(Ok, One(s.posts[i]))
  {
    Found(PostsRepository.FindPost(s, id))
  }

  /**
   * `POST /posts`: 401 unless authorized, then 400 with the validation
   * errors, then 201 with the created post. Only a 201 changes the store,
   * and then only its posts.
   */
  function PostPost(s: Store, authorized: bool, body: Body, newId: string): (r: (Store, Reply<Post>))
    ensures !authorized ==> r == (s, Reply(Unauthorized, Empty))
    ensures r.1.status != Created ==> r.0 == s
    ensures r.1.status == Created ==>
              && r.1.payload.One?
              && r.0.posts == s.posts + [r.1.payload.item]
              && r.1.payload.item.id == newId
              && r.0.blogs == s.blogs && r.0.videos == s.videos
  {
    MiddlewareReportsFirstErrors(Chains(s), body);
    match Screen(authorized, RunChains(Chains(s), body))
    case Some(reply) => (s, reply)
    case None =>
      InputOfValid(s, body);
      var (s', post) := PostsRepository.CreatePost(s, InputOf(s, body), newId);
      assert s'.posts == s'.posts[..|s.posts|] + [post];
      (s', Reply(Created, One(post)))
  }

  /**
   * An authorized POST answers 400 with each failing field's first failing
   * check, in the order `title`, `shortDescription`, `content`, `blogId`,
   * when any check fails; otherwise it answers 201 with a post holding the
   * trimmed texts, the blog id and the name of the first blog with that id.
   */
  lemma PostPostValidates(s: Store, body: Body, newId: string)
    ensures FirstErrors(Chains(s), body) != [] ==>
              PostPost(s, true, body, newId) == (s, Reply(BadRequest, Problems(Rename(FirstErrors(Chains(s), body)))))
    ensures FirstErrors(Chains(s), body) == [] ==>
              && PostPost(s, true, body, newId).1.status == Created
              && Lookup(body, "title").Str? && Lookup(body, "shortDescription").Str?
              && Lookup(body, "content").Str? && Lookup(body, "blogId").Str?
              && var post := PostPost(s, true, body, newId).1.payload.item;
              && post.id == newId
              && post.title == JsStrings.Trim(Lookup(body, "title").s)
              && post.shortDescription == JsStrings.Trim(Lookup(body, "shortDescription").s)
              && post.content == JsStrings.Trim(Lookup(body, "content").s)
              && post.blogId == Lookup(body, "blogId").s
              && BlogsRepository.FindBlog(s, post.blogId).Some?
              && post.blogName == BlogsRepository.FindBlog(s, post.blogId).value.name
  {
    MiddlewareReportsFirstErrors(Chains(s), body);
    if FirstErrors(Chains(s), body) == [] {
      InputOfValid(s, body);
      var blogId := Lookup(body, "blogId").s;
      var i := Table.IndexOf(s.blogs, BlogKey, blogId).value;
      assert Table.IsFirst(s.blogs, BlogKey, blogId, i);
    }
  }

  /**
   * `PUT /posts/:postId`: 401 unless authorized, then 400 with the
   * validation errors, then 204 when the update found the post and 404
   * when it did not. Only the posts can change.
   */
  function PutPost(s: Store, authorized: bool, id: string, body: Body): (r: (Store, Reply<Post>))
    ensures !authorized ==> r == (s, Reply(Unauthorized, Empty))
    ensures r.1.status != NoContent ==> r.0 == s
    ensures r.1.status == NoContent ==> PostsRepository.Exists(s, id) && |r.0.posts| == |s.posts|
    ensures r.0.blogs == s.blogs && r.0.videos == s.videos
    ensures authorized && FirstErrors(Chains(s), body) != [] ==>
              r == (s, Reply(BadRequest, Problems(Rename(FirstErrors(Chains(s), body)))))
    ensures authorized && FirstErrors(Chains(s), body) == [] ==>
              && (r.1.status == NoContent <==> PostsRepository.Exists(s, id))
              && (r.1.status == NotFound <==> !PostsRepository.Exists(s, id))
  {
    MiddlewareReportsFirstErrors(Chains(s), body);
    match Screen(authorized, RunChains(Chains(s), body))
    case Some(reply) => (s, reply)
    case None =>
      var (s', updated) := PostsRepository.UpdatePost(s, id, InputOf(s, body));
      (s', Done(updated))
  }

  /** An authorized PUT that passes validation answers what `updatePost` on the handler's input answers. */
  lemma PutPostRunsHandler(s: Store, id: string, body: Body)
    requires FirstErrors(Chains(s), body) == []
    ensures var (s', updated) := PostsRepository.UpdatePost(s, id, InputOf(s, body));
            PutPost(s, true, id, body) == (s', Done(updated))
  {
    MiddlewareReportsFirstErrors(Chains(s), body);
  }

  /**
   * An authorized, valid PUT on the id of a post overwrites the first post
   * with that id with the trimmed texts and the blog id, keeps its id and
   * its `blogName`, even when the blog id changes, and answers 204.
   */
  lemma PutPostUpdates(s: Store, id: string, body: Body, i: int)
    requires FirstErrors(Chains(s), body) == []
    requires Table.IsFirst(s.posts, PostKey, id, i)
    ensures Lookup(body, "title").Str? && Lookup(body, "shortDescription").Str? && Lookup(body, "content").Str?
    ensures Lookup(body, "blogId").Str?
    ensures PutPost(s, true, id, body) ==
              (s.(posts := s.posts[i := Post(id, JsStrings.Trim(Lookup(body, "title").s),
                                                JsStrings.Trim(Lookup(body, "shortDescription").s),
                                                JsStrings.Trim(Lookup(body, "content").s),
                                                Lookup(body, "blogId").s, s.posts[i].blogName)]),
               Reply(NoContent, Empty))
  {
    InputOfValid(s, body);
    PutPostRunsHandler(s, id, body);
    var input := InputOf(s, body);
    var post := Post(id, input.title, input.shortDescription, input.content, input.blogId, s.posts[i].blogName);
    assert Table.IndexOf(s.posts, PostKey, id) == Some(i);
    assert PostsRepository.UpdatePost(s, id, input) == (s.(posts := s.posts[i := post]), Some(post));
  }

  /** `DELETE /posts/:postId`: 401 unless authorized, then 204 when a post was removed and 404 otherwise. */
  function DeletePost(s: Store, authorized: bool, id: string): (r: (Store, Reply<Post>))
    ensures !authorized ==> r == (s, Reply(Unauthorized, Empty))
    ensures authorized ==> (r.1.status == NoContent <==> PostsRepository.Exists(s, id))
    ensures authorized ==> (r.1.status == NotFound <==> !PostsRepository.Exists(s, id))
    ensures r.1.status != NoContent ==> r.0 == s
    ensures r.1.status == NoContent ==>
              |r.0.posts| == |s.posts| - 1 && r.0.blogs == s.blogs && r.0.videos == s.videos
  {
    if !authorized then (s, Reply(Unauthorized, Empty))
    else
      var (s', removed) := PostsRepository.RemovePost(s, id);
      (s', Done(removed))
  }

  /** An authorized DELETE on the id of the `i`th post, the first with that id, splices out that post and answers 204. */
  lemma DeletePostRemoves(s: Store, id: string, i: int)
    requires Table.IsFirst(s.posts, PostKey, id, i)
    ensures DeletePost(s, true, id) == (s.(posts := Table.RemoveAt(s.posts, i)), Reply(NoContent, Empty))
  {
  }
}
