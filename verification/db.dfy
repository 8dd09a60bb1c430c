/**
 * The records of the in-memory database and the database itself: three
 * arrays, one per entity, owned by the store and changed only by the
 * repositories.
 */
module Db {
  import opened Wrappers

  datatype Blog = Blog(id: string, name: string, description: string, websiteUrl: string)

  /** A post; `blogName` is copied from its blog when the post is created. */
  datatype Post = Post(
    id: string,
    title: string,
    shortDescription: string,
    content: string,
    blogId: string,
    blogName: string)

  /** The resolution tags a video may list. */
  datatype Resolution = P144 | P240 | P360 | P480 | P720 | P1080 | P1440 | P2160

  /** A video; `null` fields are `None`. */
  datatype Video = Video(
    id: int,
    title: string,
    author: string,
    canBeDownloaded: bool,
    minAgeRestriction: Option<int>,
    createdAt: string,
    publicationDate: string,
    availableResolutions: Option<seq<Resolution>>)

  datatype Store = Store(blogs: seq<Blog>, posts: seq<Post>, videos: seq<Video>)

  function BlogKey(b: Blog): string { b.id }
  function PostKey(p: Post): string { p.id }
  function VideoKey(v: Video): int { v.id }

  /** The tag's spelling in requests and responses. */
  function ResolutionName(r: Resolution): string {
    match r
    case P144 => "P144"
    case P240 => "P240"
    case P360 => "P360"
    case P480 => "P480"
    case P720 => "P720"
    case P1080 => "P1080"
    case P1440 => "P1440"
    case P2160 => "P2160"
  }

  /** The tag a spelling names, if any. */
  function ParseResolution(s: string): (r: Option<Resolution>)
    ensures r.Some? ==> ResolutionName(r.value) == s
    ensures r.None? ==> forall t: Resolution :: ResolutionName(t) != s
  {
    if s == "P144" then Some(P144)
    else if s == "P240" then Some(P240)
    else if s == "P360" then Some(P360)
    else if s == "P480" then Some(P480)
    else if s == "P720" then Some(P720)
    else if s == "P1080" then Some(P1080)
    else if s == "P1440" then Some(P1440)
    else if s == "P2160" then Some(P2160)
    else None
  }

  /** Spelling a tag and reading it back gives the tag. */
  lemma ResolutionRoundTrip(r: Resolution)
    ensures ParseResolution(ResolutionName(r)) == Some(r)
  {
  }
}
