/**
 * The posts repository. Creating a post looks its blog up in the blogs
 * repository and copies the blog's name into the post; nothing refreshes
 * that copy afterwards.
 */
module PostsRepository {
  import opened Wrappers
  import opened Db
  import Table
  import BlogsRepository

  /** The fields a request supplies for a post. */
  datatype PostInput = PostInput(title: string, shortDescription: string, content: string, blogId: string)

  /** All post ids are distinct. */
  predicate IdsDistinct(s: Store) {
    Table.Unique(s.posts, PostKey)
  }

  /** Some post has id `id`. */
  predicate Exists(s: Store, id: string) {
    Table.Has(s.posts, PostKey, id)
  }

  /** `findPosts`: the array itself, in insertion order. */
  function FindPosts(s: Store): seq<Post> {
    s.posts
  }

  /** `findPost`: the first post with the id, or `null`. */
  function FindPost(s: Store, id: string): (r: Option<Post>)
    ensures r.None? <==> !Exists(s, id)
    ensures forall i :: Table.IsFirst(s.posts, PostKey, id, i) ==> r == Some(s.posts[i])
  {
    match Table.IndexOf(s.posts, PostKey, id)
    case None => None
    case Some(i) => Some(s.posts[i])
  }

  /**
   * `createPost`: pushes one new post built from the input, with `blogName`
   * taken from the first blog whose id is `input.blogId`. The source
   * dereferences that blog with a non-null assertion, so the blog must exist.
   */
  function CreatePost(s: Store, input: PostInput, newId: string): (r: (Store, Post))
    requires BlogsRepository.Exists(s, input.blogId)
    ensures |r.0.posts| == |s.posts| + 1
    ensures r.0.posts[..|s.posts|] == s.posts && r.0.posts[|s.posts|] == r.1
    ensures r.1.id == newId
    ensures r.1.title == input.title && r.1.shortDescription == input.shortDescription
            && r.1.content == input.content && r.1.blogId == input.blogId
    ensures forall i :: Table.IsFirst(s.blogs, BlogKey, input.blogId, i) ==> r.1.blogName == s.blogs[i].name
    ensures r.0.blogs == s.blogs && r.0.videos == s.videos
  {
    var blog := BlogsRepository.FindBlog(s, input.blogId);
    var post := Post(newId, input.title, input.shortDescription, input.content, input.blogId, blog.value.name);
    (s.(posts := s.posts + [post]), post)
  }

  /**
   * `updatePost`: overwrites title, shortDescription, content and blogId of
   * the first post with the id and returns it; its id and its `blogName`
   * stay as they were, even when `blogId` changes. `null` and no change when
   * no post has the id.
   */
  function UpdatePost(s: Store, id: string, input: PostInput): (r: (Store, Option<Post>))
    ensures r.1.None? <==> !Exists(s, id)
    ensures r.1.None? ==> r.0 == s
    ensures |r.0.posts| == |s.posts|
    ensures forall i :: Table.IsFirst(s.posts, PostKey, id, i) ==>
              && r.1.Some?
              && r.0.posts == s.posts[i := r.1.value]
              && r.1.value.id == id
              && r.1.value.blogName == s.posts[i].blogName
              && r.1.value.title == input.title
              && r.1.value.shortDescription == input.shortDescription
              && r.1.value.content == input.content
              && r.1.value.blogId == input.blogId
    ensures r.0.blogs == s.blogs && r.0.videos == s.videos
  {
    match Table.IndexOf(s.posts, PostKey, id)
    case None => (s, None)
    case Some(i) =>
      var post := s.posts[i].(title := input.title, shortDescription := input.shortDescription,
                              content := input.content, blogId := input.blogId);
      (s.(posts := s.posts[i := post]), Some(post))
  }

  /**
   * `removePost`: splices out the first post with the id and returns it;
   * `null` and no change when none has it.
   */
  function RemovePost(s: Store, id: string): (r: (Store, Option<Post>))
    ensures r.1.None? <==> !Exists(s, id)
    ensures r.1.None? ==> r.0 == s
    ensures forall i :: Table.IsFirst(s.posts, PostKey, id, i) ==>
              && r.1 == Some(s.posts[i])
              && r.0.posts == Table.RemoveAt(s.posts, i)
    ensures r.1.Some? ==> |r.0.posts| == |s.posts| - 1
    ensures r.0.blogs == s.blogs && r.0.videos == s.videos
  {
    match Table.IndexOf(s.posts, PostKey, id)
    case None => (s, None)
    case Some(i) => (s.(posts := Table.RemoveAt(s.posts, i)), Some(s.posts[i]))
  }

  /** `deleteAll`: empties the posts array. */
  function DeleteAll(s: Store): (r: Store)
    ensures r.posts == [] && r.blogs == s.blogs && r.videos == s.videos
  {
    s.(posts := [])
  }

  /** A post created under a fresh id keeps ids distinct and is what `findPost` then returns. */
  lemma CreateThenFind(s: Store, input: PostInput, newId: string)
    requires BlogsRepository.Exists(s, input.blogId)
    requires IdsDistinct(s) && !Exists(s, newId)
    ensures IdsDistinct(CreatePost(s, input, newId).0)
    ensures FindPost(CreatePost(s, input, newId).0, newId) == Some(CreatePost(s, input, newId).1)
  {
    var (s', post) := CreatePost(s, input, newId);
    assert s'.posts == s.posts + [post];
    Table.AppendFresh(s.posts, PostKey, post);
  }

  /** After an update `findPost` returns the updated post, and ids stay distinct. */
  lemma UpdateThenFind(s: Store, id: string, input: PostInput)
    requires IdsDistinct(s)
    ensures IdsDistinct(UpdatePost(s, id, input).0)
    ensures FindPost(UpdatePost(s, id, input).0, id) == UpdatePost(s, id, input).1
  {
    var (s', r) := UpdatePost(s, id, input);
    match Table.IndexOf(s.posts, PostKey, id)
    case None =>
    case Some(i) =>
      Table.ReplaceKeepsUnique(s.posts, PostKey, i, r.value);
      assert Table.IsFirst(s'.posts, PostKey, id, i);
  }

  /** In a store with distinct ids, a removed post can no longer be found, and ids stay distinct. */
  lemma RemoveThenFind(s: Store, id: string)
    requires IdsDistinct(s)
    ensures IdsDistinct(RemovePost(s, id).0)
    ensures FindPost(RemovePost(s, id).0, id) == None
  {
    match Table.IndexOf(s.posts, PostKey, id)
    case None =>
    case Some(i) =>
      Table.RemoveKeepsUnique(s.posts, PostKey, i);
  }

  /**
   * Renaming a blog does not reach its posts: a post created for the blog
   * keeps the name the blog had at creation, while the blog now carries the
   * new one.
   */
  lemma BlogNameGoesStale(s: Store, input: PostInput, postId: string, rename: BlogsRepository.BlogInput)
    requires BlogsRepository.Exists(s, input.blogId)
    ensures var (s1, post) := CreatePost(s, input, postId);
            var (s2, renamed) := BlogsRepository.UpdateBlog(s1, input.blogId, rename);
            && s2.posts == s1.posts
            && s2.posts[|s.posts|] == post
            && post.blogName == BlogsRepository.FindBlog(s, input.blogId).value.name
            && renamed.Some?
            && renamed.value.name == rename.name
            && BlogsRepository.FindBlog(s2, input.blogId) == renamed
  {
    var (s1, post) := CreatePost(s, input, postId);
    var i := Table.IndexOf(s.blogs, BlogKey, input.blogId).value;
    var (s2, renamed) := BlogsRepository.UpdateBlog(s1, input.blogId, rename);
    assert Table.IsFirst(s1.blogs, BlogKey, input.blogId, i);
    assert Table.IsFirst(s2.blogs, BlogKey, input.blogId, i);
  }

  /**
   * Removing a blog does not cascade: in a store with distinct blog ids the
   * posts are untouched, and those that referenced the blog now reference
   * an id no blog has.
   */
  lemma RemovedBlogLeavesPostsDangling(s: Store, blogId: string)
    requires BlogsRepository.IdsDistinct(s)
    ensures BlogsRepository.RemoveBlog(s, blogId).0.posts == s.posts
    ensures BlogsRepository.FindBlog(BlogsRepository.RemoveBlog(s, blogId).0, blogId) == None
  {
    BlogsRepository.RemoveThenFind(s, blogId);
  }
}
