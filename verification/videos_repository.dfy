/**
 * The videos repository. Creation fills in defaults for the optional
 * fields; update overwrites an optional field only when the request carries
 * its key, so a key present with `null` still overwrites.
 */
module VideosRepository {
  import opened Wrappers
  import opened Db
  import opened Json
  import Table

  /** Whether a request body carries a key (`hasOwnProperty`), and with what value. */
  datatype Field<+T> = Omitted | Given(value: T)

  /**
   * The fields a request supplies for a video; `null` values are `None`.
   * `shadowsHasOwnProperty` says that the body carries its own
   * `hasOwnProperty` key: that member hides the inherited method, so a call
   * `newVideo.hasOwnProperty(...)` throws a TypeError.
   */
  datatype VideoInput = VideoInput(
    title: string,
    author: string,
    canBeDownloaded: Field<bool>,
    minAgeRestriction: Field<Option<int>>,
    publicationDate: Field<Json>,
    availableResolutions: Field<Option<seq<Resolution>>>,
    shadowsHasOwnProperty: bool)

  /**
   * How `updateVideo` ends: `null` when no video has the id, the patched
   * video, or the TypeError of the first `hasOwnProperty` call, thrown after
   * title and author were already written.
   */
  datatype UpdateOutcome = NoVideo | Updated(video: Video) | Threw

  /**
   * The clock readings `createVideo` takes: the millisecond timestamp that
   * becomes the id, the current instant and the instant one day later, both
   * as ISO-8601 text.
   */
  datatype Clock = Clock(stamp: int, nowIso: string, dayLaterIso: string)

  /** All video ids are distinct. */
  predicate IdsDistinct(s: Store) {
    Table.Unique(s.videos, VideoKey)
  }

  /** Some video has id `id`. */
  predicate Exists(s: Store, id: int) {
    Table.Has(s.videos, VideoKey, id)
  }

  /** `findVideos`: the array itself, in insertion order. */
  function FindVideos(s: Store): seq<Video> {
    s.videos
  }

  /** `findVideo`: the first video with the id, or `null`. */
  function FindVideo(s: Store, id: int): (r: Option<Video>)
    ensures r.None? <==> !Exists(s, id)
    ensures forall i :: Table.IsFirst(s.videos, VideoKey, id, i) ==> r == Some(s.videos[i])
  {
    match Table.IndexOf(s.videos, VideoKey, id)
    case None => None
    case Some(i) => Some(s.videos[i])
  }

  /** `canBeDownloaded || false`. */
  function DownloadableOrFalse(f: Field<bool>): (b: bool)
    ensures b <==> f == Given(true)
  {
    match f
    case Given(b) => b
    case Omitted => false
  }

  /** `minAgeRestriction || null`: a missing, `null` or zero age becomes `null`. */
  function AgeOrNull(f: Field<Option<int>>): (r: Option<int>)
    ensures r.None? <==> f == Omitted || f == Given(None) || f == Given(Some(0))
    ensures r.Some? ==> f == Given(r)
  {
    match f
    case Given(Some(n)) => if n != 0 then Some(n) else None
    case _ => None
  }

  /** `availableResolutions || null`: an array, even an empty one, is kept. */
  function ResolutionsOrNull(f: Field<Option<seq<Resolution>>>): (r: Option<seq<Resolution>>)
    ensures r.None? <==> f == Omitted || f == Given(None)
    ensures r.Some? ==> f == Given(r)
  {
    match f
    case Given(rs) => rs
    case Omitted => None
  }

  /**
   * `createVideo`: pushes one new video and returns it. `publicationDate` is
   * the normalised input date when the input has a truthy one, otherwise one
   * day after creation; `toIso` stands for `new Date(x).toISOString()`.
   */
  function CreateVideo(s: Store, input: VideoInput, clock: Clock, toIso: Json -> string): (r: (Store, Video))
    ensures |r.0.videos| == |s.videos| + 1
    ensures r.0.videos[..|s.videos|] == s.videos && r.0.videos[|s.videos|] == r.1
    ensures r.1.id == clock.stamp && r.1.createdAt == clock.nowIso
    ensures r.1.title == input.title && r.1.author == input.author
    ensures r.1.canBeDownloaded <==> input.canBeDownloaded == Given(true)
    ensures r.1.minAgeRestriction.Some? ==> input.minAgeRestriction == Given(r.1.minAgeRestriction)
    ensures r.1.minAgeRestriction.None? <==>
              input.minAgeRestriction == Omitted || input.minAgeRestriction == Given(None)
              || input.minAgeRestriction == Given(Some(0))
    ensures r.1.availableResolutions.Some? ==> input.availableResolutions == Given(r.1.availableResolutions)
    ensures r.1.availableResolutions.None? <==>
              input.availableResolutions == Omitted || input.availableResolutions == Given(None)
    ensures input.publicationDate.Given? && Truthy(input.publicationDate.value) ==>
              r.1.publicationDate == toIso(input.publicationDate.value)
    ensures !(input.publicationDate.Given? && Truthy(input.publicationDate.value)) ==>
              r.1.publicationDate == clock.dayLaterIso
    ensures r.0.blogs == s.blogs && r.0.posts == s.posts
  {
    var publicationDate :=
      match input.publicationDate
      case Given(d) => if Truthy(d) then toIso(d) else clock.dayLaterIso
      case Omitted => clock.dayLaterIso;
    var video := Video(
      clock.stamp,
      input.title,
      input.author,
      DownloadableOrFalse(input.canBeDownloaded),
      AgeOrNull(input.minAgeRestriction),
      clock.nowIso,
      publicationDate,
      ResolutionsOrNull(input.availableResolutions));
    (s.(videos := s.videos + [video]), video)
  }

  /** The two writes `updateVideo` makes before it tests any key. */
  function Retitle(video: Video, input: VideoInput): Video {
    video.(title := input.title, author := input.author)
  }

  /** The fields of `video` after `updateVideo` applies `input` to it. */
  function Patch(video: Video, input: VideoInput, toIso: Json -> string): Video {
    video.(
      title := input.title,
      author := input.author,
      canBeDownloaded := if input.canBeDownloaded.Given? then input.canBeDownloaded.value else video.canBeDownloaded,
      minAgeRestriction := if input.minAgeRestriction.Given? then input.minAgeRestriction.value else video.minAgeRestriction,
      publicationDate := if input.publicationDate.Given? then toIso(input.publicationDate.value) else video.publicationDate,
      availableResolutions :=
        if input.availableResolutions.Given? then input.availableResolutions.value else video.availableResolutions)
  }

  /**
   * `updateVideo`: on the first video with the id, writes title and author,
   * then overwrites each optional field exactly when the input carries its
   * key; id and createdAt never change. `null` and no change when no video
   * has the id. When the input shadows `hasOwnProperty`, the first key test
   * throws and the video keeps only the new title and author.
   */
  function UpdateVideo(s: Store, id: int, input: VideoInput, toIso: Json -> string): (r: (Store, UpdateOutcome))
    ensures r.1.NoVideo? <==> !Exists(s, id)
    ensures r.1.NoVideo? ==> r.0 == s
    ensures r.1.Threw? <==> Exists(s, id) && input.shadowsHasOwnProperty
    ensures |r.0.videos| == |s.videos|
    ensures forall i :: Table.IsFirst(s.videos, VideoKey, id, i) && input.shadowsHasOwnProperty ==>
              r.0.videos == s.videos[i := s.videos[i].(title := input.title, author := input.author)]
    ensures forall i :: Table.IsFirst(s.videos, VideoKey, id, i) && !input.shadowsHasOwnProperty ==>
              var old_ := s.videos[i];
              && r.1.Updated?
              && var v := r.1.video;
              && r.0.videos == s.videos[i := v]
              && v.id == id && v.createdAt == old_.createdAt
              && v.title == input.title && v.author == input.author
              && v.canBeDownloaded == (if input.canBeDownloaded.Given? then input.canBeDownloaded.value
                                       else old_.canBeDownloaded)
              && v.minAgeRestriction == (if input.minAgeRestriction.Given? then input.minAgeRestriction.value
                                         else old_.minAgeRestriction)
              && v.publicationDate == (if input.publicationDate.Given? then toIso(input.publicationDate.value)
                                       else old_.publicationDate)
              && v.availableResolutions == (if input.availableResolutions.Given? then input.availableResolutions.value
                                            else old_.availableResolutions)
    ensures r.0.blogs == s.blogs && r.0.posts == s.posts
  {
    match Table.IndexOf(s.videos, VideoKey, id)
    case None => (s, NoVideo)
    case Some(i) =>
      if input.shadowsHasOwnProperty then
        (s.(videos := s.videos[i := Retitle(s.videos[i], input)]), Threw)
      else
        var video := Patch(s.videos[i], input, toIso);
        (s.(videos := s.videos[i := video]), Updated(video))
  }

  /**
   * `removeVideo`: splices out the first video with the id and returns it;
   * `null` and no change when none has it.
   */
  function RemoveVideo(s: Store, id: int): (r: (Store, Option<Video>))
    ensures r.1.None? <==> !Exists(s, id)
    ensures r.1.None? ==> r.0 == s
    ensures forall i :: Table.IsFirst(s.videos, VideoKey, id, i) ==>
              && r.1 == Some(s.videos[i])
              && r.0.videos == Table.RemoveAt(s.videos, i)
    ensures r.1.Some? ==> |r.0.videos| == |s.videos| - 1
    ensures r.0.blogs == s.blogs && r.0.posts == s.posts
  {
    match Table.IndexOf(s.videos, VideoKey, id)
    case None => (s, None)
    case Some(i) => (s.(videos := Table.RemoveAt(s.videos, i)), Some(s.videos[i]))
  }

  /** `deleteAll`: empties the videos array. */
  function DeleteAll(s: Store): (r: Store)
    ensures r.videos == [] && r.blogs == s.blogs && r.posts == s.posts
  {
    s.(videos := [])
  }

  /** A video created under a fresh stamp keeps ids distinct and is what `findVideo` then returns. */
  lemma CreateThenFind(s: Store, input: VideoInput, clock: Clock, toIso: Json -> string)
    requires IdsDistinct(s) && !Exists(s, clock.stamp)
    ensures IdsDistinct(CreateVideo(s, input, clock, toIso).0)
    ensures FindVideo(CreateVideo(s, input, clock, toIso).0, clock.stamp) == Some(CreateVideo(s, input, clock, toIso).1)
  {
    var (s', video) := CreateVideo(s, input, clock, toIso);
    assert s'.videos == s.videos + [video];
    Table.AppendFresh(s.videos, VideoKey, video);
  }

  /**
   * After an update `findVideo` returns the updated video, or after the
   * throw the video with the new title and author; ids stay distinct.
   */
  lemma UpdateThenFind(s: Store, id: int, input: VideoInput, toIso: Json -> string)
    requires IdsDistinct(s)
    ensures IdsDistinct(UpdateVideo(s, id, input, toIso).0)
    ensures UpdateVideo(s, id, input, toIso).1.NoVideo? ==> FindVideo(UpdateVideo(s, id, input, toIso).0, id) == None
    ensures UpdateVideo(s, id, input, toIso).1.Updated? ==>
              FindVideo(UpdateVideo(s, id, input, toIso).0, id) == Some(UpdateVideo(s, id, input, toIso).1.video)
    ensures UpdateVideo(s, id, input, toIso).1.Threw? ==>
              && FindVideo(UpdateVideo(s, id, input, toIso).0, id).Some?
              && FindVideo(UpdateVideo(s, id, input, toIso).0, id).value.title == input.title
              && FindVideo(UpdateVideo(s, id, input, toIso).0, id).value.author == input.author
  {
    var (s', r) := UpdateVideo(s, id, input, toIso);
    match Table.IndexOf(s.videos, VideoKey, id)
    case None =>
    case Some(i) =>
      Table.ReplaceKeepsUnique(s.videos, VideoKey, i, s'.videos[i]);
      assert s'.videos == s.videos[i := s'.videos[i]];
      assert Table.IsFirst(s'.videos, VideoKey, id, i);
  }

  /** Repeating an update changes nothing more, whether it patched, threw or found nothing. */
  lemma UpdateIdempotent(s: Store, id: int, input: VideoInput, toIso: Json -> string)
    ensures UpdateVideo(UpdateVideo(s, id, input, toIso).0, id, input, toIso) == UpdateVideo(s, id, input, toIso)
  {
    var (s', r) := UpdateVideo(s, id, input, toIso);
    match Table.IndexOf(s.videos, VideoKey, id)
    case None =>
    case Some(i) =>
      assert Table.IsFirst(s'.videos, VideoKey, id, i);
      if input.shadowsHasOwnProperty {
        assert Retitle(s'.videos[i], input) == s'.videos[i];
        assert s'.videos[i := s'.videos[i]] == s'.videos;
      } else {
        assert Patch(s'.videos[i], input, toIso) == r.video;
        assert s'.videos[i := r.video] == s'.videos;
      }
  }

  /** In a store with distinct ids, a removed video can no longer be found, and ids stay distinct. */
  lemma RemoveThenFind(s: Store, id: int)
    requires IdsDistinct(s)
    ensures IdsDistinct(RemoveVideo(s, id).0)
    ensures FindVideo(RemoveVideo(s, id).0, id) == None
  {
    match Table.IndexOf(s.videos, VideoKey, id)
    case None =>
    case Some(i) =>
      Table.RemoveKeepsUnique(s.videos, VideoKey, i);
  }
}
