/**
 * The blogs repository: find, create, update in place, splice out and clear
 * over the store's array of blogs. Blog ids are generated from the clock in
 * the service; here the new id is a parameter.
 */
module BlogsRepository {
  import opened Wrappers
  import opened Db
  import Table

  /** The fields a request supplies for a blog. */
  datatype BlogInput = BlogInput(name: string, description: string, websiteUrl: string)

  /** All blog ids are distinct. */
  predicate IdsDistinct(s: Store) {
    Table.Unique(s.blogs, BlogKey)
  }

  /** Some blog has id `id`. */
  predicate Exists(s: Store, id: string) {
    Table.Has(s.blogs, BlogKey, id)
  }

  /** `findBlogs`: the array itself, in insertion order. */
  function FindBlogs(s: Store): seq<Blog> {
    s.blogs
  }

  /** `findBlog`: the first blog with the id, or `null`. */
  function FindBlog(s: Store, id: string): (r: Option<Blog>)
    ensures r.None? <==> !Exists(s, id)
    ensures forall i :: Table.IsFirst(s.blogs, BlogKey, id, i) ==> r == Some(s.blogs[i])
  {
    match Table.IndexOf(s.blogs, BlogKey, id)
    case None => None
    case Some(i) => Some(s.blogs[i])
  }

  /** `createBlog`: pushes one new blog built from the input and returns it. */
  function CreateBlog(s: Store, input: BlogInput, newId: string): (r: (Store, Blog))
    ensures |r.0.blogs| == |s.blogs| + 1
    ensures r.0.blogs[..|s.blogs|] == s.blogs && r.0.blogs[|s.blogs|] == r.1
    ensures r.1.id == newId
    ensures r.1.name == input.name && r.1.description == input.description
            && r.1.websiteUrl == input.websiteUrl
    ensures r.0.posts == s.posts && r.0.videos == s.videos
  {
    var blog := Blog(newId, input.name, input.description, input.websiteUrl);
    (s.(blogs := s.blogs + [blog]), blog)
  }

  /**
   * `updateBlog`: overwrites name, description and websiteUrl of the first
   * blog with the id and returns it; `null` and no change when none has it.
   */
  function UpdateBlog(s: Store, id: string, input: BlogInput): (r: (Store, Option<Blog>))
    ensures r.1.None? <==> !Exists(s, id)
    ensures r.1.None? ==> r.0 == s
    ensures |r.0.blogs| == |s.blogs|
    ensures forall i :: Table.IsFirst(s.blogs, BlogKey, id, i) ==>
              && r.1.Some?
              && r.0.blogs == s.blogs[i := r.1.value]
              && r.1.value.id == id
              && r.1.value.name == input.name
              && r.1.value.description == input.description
              && r.1.value.websiteUrl == input.websiteUrl
    ensures r.0.posts == s.posts && r.0.videos == s.videos
  {
    match Table.IndexOf(s.blogs, BlogKey, id)
    case None => (s, None)
    case Some(i) =>
      var blog := s.blogs[i].(name := input.name, description := input.description, websiteUrl := input.websiteUrl);
      (s.(blogs := s.blogs[i := blog]), Some(blog))
  }

  /**
   * `removeBlog`: splices out the first blog with the id and returns it;
   * `null` and no change when none has it.
   */
  function RemoveBlog(s: Store, id: string): (r: (Store, Option<Blog>))
    ensures r.1.None? <==> !Exists(s, id)
    ensures r.1.None? ==> r.0 == s
    ensures forall i :: Table.IsFirst(s.blogs, BlogKey, id, i) ==>
              && r.1 == Some(s.blogs[i])
              && r.0.blogs == Table.RemoveAt(s.blogs, i)
    ensures r.1.Some? ==> |r.0.blogs| == |s.blogs| - 1
    ensures r.0.posts == s.posts && r.0.videos == s.videos
  {
    match Table.IndexOf(s.blogs, BlogKey, id)
    case None => (s, None)
    case Some(i) => (s.(blogs := Table.RemoveAt(s.blogs, i)), Some(s.blogs[i]))
  }

  /** `deleteAll`: empties the blogs array. */
  function DeleteAll(s: Store): (r: Store)
    ensures r.blogs == [] && r.posts == s.posts && r.videos == s.videos
  {
    s.(blogs := [])
  }

  /** A blog created under a fresh id keeps ids distinct and is what `findBlog` then returns. */
  lemma CreateThenFind(s: Store, input: BlogInput, newId: string)
    requires IdsDistinct(s) && !Exists(s, newId)
    ensures IdsDistinct(CreateBlog(s, input, newId).0)
    ensures FindBlog(CreateBlog(s, input, newId).0, newId) == Some(CreateBlog(s, input, newId).1)
  {
    var (s', blog) := CreateBlog(s, input, newId);
    assert s'.blogs == s.blogs + [blog];
    Table.AppendFresh(s.blogs, BlogKey, blog);
  }

  /** After an update `findBlog` returns the updated blog, and ids stay distinct. */
  lemma UpdateThenFind(s: Store, id: string, input: BlogInput)
    requires IdsDistinct(s)
    ensures IdsDistinct(UpdateBlog(s, id, input).0)
    ensures FindBlog(UpdateBlog(s, id, input).0, id) == UpdateBlog(s, id, input).1
  {
    var (s', r) := UpdateBlog(s, id, input);
    match Table.IndexOf(s.blogs, BlogKey, id)
    case None =>
    case Some(i) =>
      Table.ReplaceKeepsUnique(s.blogs, BlogKey, i, r.value);
      assert Table.IsFirst(s'.blogs, BlogKey, id, i);
  }

  /** Repeating an update changes nothing more. */
  lemma UpdateIdempotent(s: Store, id: string, input: BlogInput)
    ensures UpdateBlog(UpdateBlog(s, id, input).0, id, input) == UpdateBlog(s, id, input)
  {
    var (s', r) := UpdateBlog(s, id, input);
    match Table.IndexOf(s.blogs, BlogKey, id)
    case None =>
    case Some(i) =>
      assert Table.IsFirst(s'.blogs, BlogKey, id, i);
      var again := s'.blogs[i].(name := input.name, description := input.description, websiteUrl := input.websiteUrl);
      assert again == r.value;
      assert s'.blogs[i := again] == s'.blogs;
  }

  /** In a store with distinct ids, a removed blog can no longer be found, and ids stay distinct. */
  lemma RemoveThenFind(s: Store, id: string)
    requires IdsDistinct(s)
    ensures IdsDistinct(RemoveBlog(s, id).0)
    ensures FindBlog(RemoveBlog(s, id).0, id) == None
  {
    match Table.IndexOf(s.blogs, BlogKey, id)
    case None =>
    case Some(i) =>
      Table.RemoveKeepsUnique(s.blogs, BlogKey, i);
  }
}
