# test-vercel: blogs, posts and videos over an in-memory store

A Dafny model of the core of the `test-vercel` Express service. The service
keeps three arrays in memory: blogs, posts and videos. It exposes CRUD
routes for each array.

- **Store and repositories.** `Db.Store` holds the three arrays. The
  modules `BlogsRepository`, `PostsRepository` and `VideosRepository` are
  pure functions from a store to a new store and a result. Each one models
  the find / create / update / remove / deleteAll function of the same
  name, with first-match lookup and `splice(i, 1)` removal (module
  `Table`).
- **Validation.** The `Validation` module models express-validator's
  field chains:
  - no chain stops at its first failure;
  - `trim()` changes the value that later checks see;
  - `optional()` and `optional({ nullable: true })` skip a chain;
  - standard validators look at `toString` of the value, one element at a
    time for an array;
  - custom checks look at the whole value;
  - `body(field, message)` gives every check of a chain the same default
    message.
- **Middleware.** `InputValidation` models `inputValidationMiddleware`. It
  keeps the first error of each field (`onlyFirstError`), renames `msg` to
  `message` and `path` to `field`, and either answers 400 or calls the
  handler.
- **Routes.** `BlogsRouter`, `PostsRouter` and `VideosRouter` model the
  routes. The order is authorization (a boolean here), then the chains and
  the middleware, then the handler. Statuses are mapped as Express 4 does
  for `res.send(code)`; the mapping is in `Http`. A handler that throws gets
  the 500 of Express's default error handler.
- **Video ids in paths.** `JsNumbers` models unary `+` on the path's
  `videoId` as ECMAScript's StringToNumber (section 7.1.4.1.1 of
  ECMA-262). It reads signed decimals with fraction and exponent,
  `Infinity`, and unsigned `0x`/`0o`/`0b` integers, and keeps their exact
  value. A path matches the integer id its text denotes.
- **Scenarios.** The `*Scenarios` modules state the answers the
  end-to-end tests expect, as lemmas over any store and any body whose
  fields hold the test values.

Several things the service delegates become parameters of the model:

- validator.js `isURL` and `isISO8601`;
- `new Date(x).toISOString()`;
- the clock that produces ids and timestamps;
- the result of the authorization header check.

## Model

| member | source | states |
|---|---|---|
| Table.IndexOf | src/repositories/blogs-repository.ts:47-51 | `findIndex` gives the position of the first record with the key, or nothing exactly when no record has the key |
| Table.FirstIsUnique | src/repositories/blogs-repository.ts:10 | `find` has at most one first match |
| Table.RemoveAt | src/repositories/blogs-repository.ts:53 | `splice(i, 1)` removes exactly element `i`: the others stay in order, and the multiset loses only that element |
| Table.AppendFresh | src/repositories/blogs-repository.ts:27 | pushing a record with a fresh key keeps keys distinct, and the record is then the first with its key |
| Table.RemoveKeepsUnique | src/repositories/blogs-repository.ts:53 | splicing keeps keys distinct; with distinct keys the removed key is gone |
| Table.ReplaceKeepsUnique | src/repositories/blogs-repository.ts:39-41 | overwriting a record in place while keeping its id keeps keys distinct |
| Json.Lookup | src/routes/blogs-router.ts:10 | `body[key]` reads `undefined` exactly for keys the body does not carry |
| JsStrings.Leading | src/routes/blogs-router.ts:10 | counts exactly the leading whitespace that `trim()` drops |
| JsStrings.Trailing | src/routes/blogs-router.ts:10 | counts exactly the trailing whitespace that `trim()` drops |
| JsStrings.TrimIsSlice | src/routes/blogs-router.ts:10 | the trimmed text is the slice after the leading whitespace, the rest of the input is whitespace, and the result is unpadded |
| JsStrings.TrimEmptyIffBlank | src/routes/blogs-router.ts:10 | `trim()` then `notEmpty()` fails exactly for all-whitespace text, in both directions |
| JsStrings.TrimIdempotent | src/routes/blogs-router.ts:10 | trimming twice is trimming once |
| JsStrings.TrimKeepsUnpadded | src/routes/blogs-router.ts:10 | text without whitespace at either end comes out of `trim()` unchanged |
| JsStrings.NatText | src/routes/videos-router.ts:32 | the decimal text of an id is a digit run that reads back as the id |
| Validation.RunChain | src/routes/blogs-router.ts:10-12 | every error a chain records is filed under the chain's field |
| Validation.FirstFailureIsFirstRecorded | src/routes/blogs-router.ts:10 | stopping at the first failing check gives exactly the first error of the full run, which records every failure |
| Validation.Reported | src/middlewares/input-validation-middleware.ts:9 | each chain contributes at most one error: its first failure, under its field |
| Validation.LastCheck | src/routes/blogs-router.ts:12 | a chain's final check fails exactly when its rule does, and leaves the value unchanged |
| Validation.FirstErrorsCons | src/middlewares/input-validation-middleware.ts:9 | the first-failure errors of a list of chains are the first chain's errors followed by the rest's |
| Validation.OneMessage | src/routes/videos-router.ts:11-14 | a chain whose checks share the `body(field, message)` message reports that message exactly when some check fails |
| Validation.Length | src/routes/blogs-router.ts:10 | `isLength` never counts more than the code points |
| Validation.LengthWithoutSelectors | src/routes/blogs-router.ts:10 | with no variation selectors, `isLength` counts every code point |
| Validation.TrimmedTextVerdict | src/routes/blogs-router.ts:10 | after `trim`, `notEmpty` fails on empty text and `isLength({max})` fails past `max` |
| Validation.TextChainOnString | src/routes/blogs-router.ts:10 | on a string, `isString` passes and the later checks see the trimmed string |
| Validation.TextChainVerdict | src/routes/posts-router.ts:11-13 | a text chain reports `invalid` for a non-string, else `required` for blank text, else `too long` past the bound; a string is left trimmed |
| Validation.TextChainReported | src/routes/posts-router.ts:11-13 | the single error a text chain contributes, for each kind of value |
| Validation.TextChainFits | src/routes/blogs-router.ts:10-11 | a text chain reports nothing exactly when the value is a string whose trimmed text is non-empty and within the bound |
| Validation.TextChainSettled | src/routes/blogs-router.ts:10-11 | a value that fits leaves its chain as its trimmed string |
| InputValidation.KeepFirst | src/middlewares/input-validation-middleware.ts:9 | the errors kept come from the input and have pairwise distinct fields outside the already-seen set; together they cover every other field of the input |
| InputValidation.PathsCons | src/middlewares/input-validation-middleware.ts:9 | the fields of an error list are its head's field plus its tail's fields |
| InputValidation.FirstAt | src/middlewares/input-validation-middleware.ts:9 | the position of a field's first error, or the length when the field has none |
| InputValidation.KeepFirstKeepsFirsts | src/middlewares/input-validation-middleware.ts:9 | every error kept is the first error recorded under its field |
| InputValidation.KeepFirstKeepsOrder | src/middlewares/input-validation-middleware.ts:9 | the kept errors follow the order in which their fields first failed |
| InputValidation.OnlyFirstError | src/middlewares/input-validation-middleware.ts:9 | one error per failing field, and it is that field's first error; the fields keep the order of their first errors; no field is lost; the result is empty exactly when nothing failed; this is the order `mapped()` and `Object.values` give for plain field names, which all routes use (no integer-like names, no names of `Object.prototype` members) |
| InputValidation.Rename | src/middlewares/input-validation-middleware.ts:12-15 | `msg`/`path` become `message`/`field`, element by element, in order |
| InputValidation.Middleware | src/middlewares/input-validation-middleware.ts:5-20 | the request passes on exactly when no error was recorded; otherwise the answer lists exactly the failing fields, each with its first recorded error, in the order those first errors were recorded, for plain field names as in `OnlyFirstError` |
| InputValidation.RenameFields | src/middlewares/input-validation-middleware.ts:12-15 | renaming keeps the set of fields |
| InputValidation.KeepFirstSkipsSeen | src/middlewares/input-validation-middleware.ts:9 | errors under an already reported field are all dropped |
| InputValidation.KeepFirstOneField | src/middlewares/input-validation-middleware.ts:9 | a run of errors of one field contributes only its first error |
| InputValidation.KeepFirstIsFirstErrors | src/middlewares/input-validation-middleware.ts:9 | with one chain per field, keeping each field's first recorded error equals taking each chain's first failing check, in route order |
| InputValidation.RunChainFirst | src/middlewares/input-validation-middleware.ts:9 | a chain records nothing exactly when it reports nothing; otherwise its first recorded error is the one reported |
| InputValidation.MiddlewareReportsFirstErrors | src/middlewares/input-validation-middleware.ts:5-20 | for routes whose chains name distinct fields, the middleware passes exactly when no chain fails, else it answers 400 with each failing field's first failure in declaration order |
| InputValidation.FirstErrorsEmpty | src/middlewares/input-validation-middleware.ts:8 | the first-failure reading is empty exactly when every chain passes |
| Http.Screen | src/routes/blogs-router.ts:30-35 | authorization comes first: 401 whatever the body; then 400 with a non-empty error list exactly when errors were recorded |
| Http.Found | src/routes/blogs-router.ts:23-27 | 200 with the record when found, 404 otherwise |
| Http.Done | src/routes/blogs-router.ts:52-56 | 204 for a non-null repository result, 404 for `null`; neither answer carries a record |
| Db.ResolutionRoundTrip | src/routes/videos-router.ts:15 | each resolution tag reads back from its spelling |
| BlogsRepository.FindBlog | src/repositories/blogs-repository.ts:9-17 | `null` exactly when no blog has the id, else the first blog with it |
| BlogsRepository.CreateBlog | src/repositories/blogs-repository.ts:19-30 | appends exactly one blog with the input fields and the new id; earlier blogs, posts and videos are unchanged |
| BlogsRepository.UpdateBlog | src/repositories/blogs-repository.ts:32-44 | overwrites the first matching blog with the input, keeping its id and position; `null` and no change when none matches |
| BlogsRepository.RemoveBlog | src/repositories/blogs-repository.ts:46-56 | removes exactly the first matching blog and returns it; `null` and no change when none matches |
| BlogsRepository.DeleteAll | src/repositories/blogs-repository.ts:58-60 | empties the blogs only |
| BlogsRepository.CreateThenFind | src/repositories/blogs-repository.ts:19-30 | a blog created under a fresh id keeps ids distinct and is then found |
| BlogsRepository.UpdateThenFind | src/repositories/blogs-repository.ts:32-44 | after an update the blog found is the updated one, and ids stay distinct |
| BlogsRepository.UpdateIdempotent | src/repositories/blogs-repository.ts:32-44 | repeating an update changes nothing more |
| BlogsRepository.RemoveThenFind | src/repositories/blogs-repository.ts:46-56 | with distinct ids, a removed blog is no longer found, and ids stay distinct |
| PostsRepository.FindPost | src/repositories/posts-repository.ts:10-18 | `null` exactly when no post has the id, else the first post with it |
| PostsRepository.CreatePost | src/repositories/posts-repository.ts:20-34 | appends one post with the input fields and the name of the first blog with its blog id |
| PostsRepository.UpdatePost | src/repositories/posts-repository.ts:36-49 | overwrites the four input fields of the first matching post, keeping its id, position and `blogName` |
| PostsRepository.RemovePost | src/repositories/posts-repository.ts:51-61 | removes exactly the first matching post and returns it; `null` and no change when none matches |
| PostsRepository.DeleteAll | src/repositories/posts-repository.ts:63-65 | empties the posts only |
| PostsRepository.CreateThenFind | src/repositories/posts-repository.ts:20-34 | a post created under a fresh id keeps ids distinct and is then found |
| PostsRepository.UpdateThenFind | src/repositories/posts-repository.ts:36-49 | after an update the post found is the updated one, and ids stay distinct |
| PostsRepository.RemoveThenFind | src/repositories/posts-repository.ts:51-61 | with distinct ids, a removed post is no longer found, and ids stay distinct |
| PostsRepository.BlogNameGoesStale | src/repositories/posts-repository.ts:28 | renaming a blog leaves the name copied into its posts at creation untouched |
| PostsRepository.RemovedBlogLeavesPostsDangling | src/repositories/blogs-repository.ts:46-56 | removing a blog leaves every post as it was, including posts that now name a missing blog |
| VideosRepository.FindVideo | src/repositories/videos-repository.ts:9-17 | `null` exactly when no video has the id, else the first video with it |
| VideosRepository.DownloadableOrFalse | src/repositories/videos-repository.ts:24 | `canBeDownloaded` is true only when the input gave `true` |
| VideosRepository.AgeOrNull | src/repositories/videos-repository.ts:25 | a missing, `null` or zero age is stored as `null` |
| VideosRepository.ResolutionsOrNull | src/repositories/videos-repository.ts:27 | an array, even an empty one, is kept; a missing or `null` list is stored as `null` |
| VideosRepository.CreateVideo | src/repositories/videos-repository.ts:19-36 | appends one video: the id and `createdAt` from the clock, defaults for falsy optional fields, and the normalised date or one day later |
| VideosRepository.UpdateVideo | src/repositories/videos-repository.ts:38-65 | `null` and no change exactly when no video has the id; otherwise overwrites title and author, then each optional field exactly when the input carries its key (even with `null`), never changing id or `createdAt`; when the input has its own `hasOwnProperty` key, the first key test throws and the video keeps only the new title and author |
| VideosRepository.RemoveVideo | src/repositories/videos-repository.ts:67-77 | removes exactly the first matching video and returns it; `null` and no change when none matches |
| VideosRepository.DeleteAll | src/repositories/videos-repository.ts:79-81 | empties the videos only |
| VideosRepository.CreateThenFind | src/repositories/videos-repository.ts:19-36 | a video created under a fresh stamp keeps ids distinct and is then found |
| VideosRepository.UpdateThenFind | src/repositories/videos-repository.ts:38-65 | after an update the video found is the updated one, after the throw it is the one with the new title and author, and ids stay distinct |
| VideosRepository.UpdateIdempotent | src/repositories/videos-repository.ts:38-65 | repeating an update changes nothing more, and ends the same way, whether it patched, threw or found nothing |
| VideosRepository.RemoveThenFind | src/repositories/videos-repository.ts:67-77 | with distinct ids, a removed video is no longer found, and ids stay distinct |
| BlogsRouter.Chains | src/routes/blogs-router.ts:10-12 | the three chains name distinct fields, in the order the routes list them |
| BlogsRouter.WebsiteUrlTail | src/routes/blogs-router.ts:12 | the URL chain's last two checks fail for an array and past 100 characters |
| BlogsRouter.WebsiteUrlVerdict | src/routes/blogs-router.ts:12 | the URL verdict is `required`, then `template`, then `invalid` for an array, then `too long`; the value is not trimmed |
| BlogsRouter.WebsiteUrlReported | src/routes/blogs-router.ts:12 | the single error the URL chain contributes for a non-array value |
| BlogsRouter.WebsiteUrlFits | src/routes/blogs-router.ts:12 | the URL chain reports nothing exactly for a non-array whose text is a non-empty URL of at most 100 characters |
| BlogsRouter.FirstErrorsByField | src/routes/blogs-router.ts:32-35 | the route's errors are name's, then description's, then websiteUrl's |
| BlogsRouter.ValidIffAccepted | src/routes/blogs-router.ts:10-12 | validation passes exactly for bodies whose three fields fit their chains |
| BlogsRouter.InputOfAccepted | src/routes/blogs-router.ts:37 | the handler reads an accepted body as the trimmed name and description and the URL's text |
| BlogsRouter.InputOfValid | src/routes/blogs-router.ts:36-40 | after validation passes, name and description are strings and the handler reads them trimmed |
| BlogsRouter.GetBlogs | src/routes/blogs-router.ts:14-18 | 200 with every blog in order |
| BlogsRouter.GetBlog | src/routes/blogs-router.ts:20-28 | 404 exactly when no blog has the id, else 200 with the first such blog |
| BlogsRouter.PostBlog | src/routes/blogs-router.ts:30-41 | 401 without authorization whatever the body; only a 201 changes the store, appending the returned blog under the new id |
| BlogsRouter.PostBlogValidates | src/routes/blogs-router.ts:30-41 | authorized: 400 with the first-failure errors when any field fails, else 201 with the trimmed name and description |
| BlogsRouter.PutBlog | src/routes/blogs-router.ts:43-58 | 401 first; then 400 on errors; then 204 exactly when a blog has the id, 404 otherwise; only a 204 changes the store |
| BlogsRouter.PutBlogRunsHandler | src/routes/blogs-router.ts:49-57 | a valid authorized PUT answers what `updateBlog` returns, mapped to 204 or 404 |
| BlogsRouter.PutBlogUpdates | src/routes/blogs-router.ts:43-58 | a valid authorized PUT on an existing id overwrites that blog with the trimmed fields and answers 204 |
| BlogsRouter.DeleteBlog | src/routes/blogs-router.ts:60-68 | 401 first; then 204 exactly when a blog had the id (one fewer blog, posts and videos untouched), else 404 and no change |
| BlogsRouter.DeleteBlogRemoves | src/routes/blogs-router.ts:60-68 | an authorized DELETE on an existing id splices out the first blog with that id, keeps the rest in order, and answers 204 |
| BlogsScenarios.BlankFieldsRequired | __tests__/blogs.e2e.test.ts:24-40 | empty fields give the three `required` errors in order, for POST and PUT alike, with no change |
| BlogsScenarios.LongFieldsTooLong | __tests__/blogs.e2e.test.ts:42-62 | values one past each bound give the three `too long` errors |
| BlogsScenarios.WrongTypesInvalid | __tests__/blogs.e2e.test.ts:64-80 | numbers and a non-URL give `invalid`, `invalid`, `does not match the template` |
| BlogsScenarios.TestBlogCreated | __tests__/blogs.e2e.test.ts:82-98 | the test blog is created with exactly the fields sent |
| PostsRouter.Chains | src/routes/posts-router.ts:11-22 | the four chains name distinct fields, in route order |
| PostsRouter.BlogIds | src/routes/posts-router.ts:15 | the ids the custom check accepts are exactly the ids of stored blogs |
| PostsRouter.BlogIdVerdict | src/routes/posts-router.ts:14-22 | `required` for empty text, else `invalid` unless the value is a string naming a stored blog |
| PostsRouter.BlogIdReported | src/routes/posts-router.ts:14-22 | the single error the blog id chain contributes for a non-array value |
| PostsRouter.BlogIdFitsIff | src/routes/posts-router.ts:14-22 | the blog id chain reports nothing exactly for a non-empty string that names a stored blog |
| PostsRouter.FirstErrorsByField | src/routes/posts-router.ts:40-46 | the route's errors are title's, short description's, content's, then blog id's |
| PostsRouter.ValidIffAccepted | src/routes/posts-router.ts:11-22 | validation passes exactly for bodies with three fitting texts and the id of a stored blog |
| PostsRouter.AcceptedTexts | src/routes/posts-router.ts:11-13 | fitting texts leave their chains trimmed |
| PostsRouter.InputOfAccepted | src/routes/posts-router.ts:48 | the handler reads the three trimmed texts and the blog id |
| PostsRouter.InputOfValid | src/routes/posts-router.ts:47-51 | passing validation guarantees that `createPost`'s blog exists, so its non-null assertion holds |
| PostsRouter.GetPosts | src/routes/posts-router.ts:24-28 | 200 with every post in order |
| PostsRouter.GetPost | src/routes/posts-router.ts:30-38 | 404 exactly when no post has the id, else 200 with the first such post |
| PostsRouter.PostPost | src/routes/posts-router.ts:40-52 | 401 first; only a 201 changes the store, appending the returned post |
| PostsRouter.PostPostValidates | src/routes/posts-router.ts:40-52 | authorized: 400 with the first-failure errors, else 201 with the trimmed texts and the blog's current name |
| PostsRouter.PutPost | src/routes/posts-router.ts:54-70 | 401 first; then 400 on errors; then 204 exactly when a post has the id, 404 otherwise |
| PostsRouter.PutPostRunsHandler | src/routes/posts-router.ts:61-69 | a valid authorized PUT answers what `updatePost` returns, mapped to 204 or 404 |
| PostsRouter.PutPostUpdates | src/routes/posts-router.ts:54-70 | a valid PUT overwrites the post's texts and blog id but keeps its old `blogName`, and answers 204 |
| PostsRouter.DeletePost | src/routes/posts-router.ts:72-80 | 401 first; then 204 exactly when a post had the id (one fewer post, blogs and videos untouched), else 404 and no change |
| PostsRouter.DeletePostRemoves | src/routes/posts-router.ts:72-80 | an authorized DELETE on an existing id splices out the first post with that id, keeps the rest in order, and answers 204 |
| PostsScenarios.BlankFieldsRequired | __tests__/posts.e2e.test.ts:43-60 | four empty fields give the four `required` errors in order, whatever the store |
| PostsScenarios.LongFieldsTooLong | __tests__/posts.e2e.test.ts:62-82 | texts one past each bound give three `too long` errors; an existing blog id adds none |
| PostsScenarios.WrongTypesInvalid | __tests__/posts.e2e.test.ts:84-101 | numbers give four `invalid` errors, the blog id included |
| PostsScenarios.TestPostCreated | __tests__/posts.e2e.test.ts:103-119 | the test post is created with the fields sent and its blog's name |
| VideosRouter.Chains | src/routes/videos-router.ts:9-23 | the six chains name distinct fields, in route order |
| VideosRouter.TagsAreResolutionNames | src/routes/videos-router.ts:15 | the accepted tags are exactly the spellings of the resolutions |
| VideosRouter.CanBeDownloadedReported | src/routes/videos-router.ts:11 | missing or boolean passes; anything else is `can be downloaded is invalid` |
| VideosRouter.MinAgeRestrictionReported | src/routes/videos-router.ts:12 | missing, `null` or an integer number from 1 to 18 passes; anything else, strings included, gives the one message |
| VideosRouter.PublicationDateReported | src/routes/videos-router.ts:13 | missing, or a non-array whose text is ISO-8601, passes |
| VideosRouter.AvailableResolutionsReported | src/routes/videos-router.ts:14-23 | missing, `null` or a non-empty array of known tags passes |
| VideosRouter.FirstErrorsByField | src/routes/videos-router.ts:41-48 | the route's errors are the six chains' in order |
| VideosRouter.ReadAge | src/repositories/videos-repository.ts:52-54 | reads `null` as no age and an integer number as its value, and nothing else |
| VideosRouter.ParseTags | src/repositories/videos-repository.ts:60-62 | reads a tag list element by element, in order; it fails exactly when some element is not a known tag's spelling |
| VideosRouter.TagList | src/routes/videos-router.ts:15 | spells each resolution in place |
| VideosRouter.TagsRoundTrip | src/routes/videos-router.ts:14-23 | parsing the spelling of a resolution list gives the list back |
| VideosRouter.ReadResolutions | src/repositories/videos-repository.ts:60-62 | reads `null` as no list and an array of known tags as its resolutions |
| VideosRouter.ReadBool | src/repositories/videos-repository.ts:48-50 | reads exactly the booleans |
| VideosRouter.ReadAny | src/repositories/videos-repository.ts:56-58 | passes the date value on as sent |
| VideosRouter.ReadMember | src/repositories/videos-repository.ts:48-62 | a field is omitted (the inherited `hasOwnProperty` answers false) exactly when the body carries no value for it; a value that is present is read with the field's reader; a body that shadows `hasOwnProperty` is marked in `VideoInputOf` and handled by `UpdateVideo` |
| VideosRouter.ValidIffFieldsPass | src/routes/videos-router.ts:41-48 | the route reports nothing exactly when none of the six chains reports |
| VideosRouter.ValidIffAccepted | src/routes/videos-router.ts:9-23 | validation passes exactly for bodies whose six fields fit their chains |
| VideosRouter.AcceptedInput | src/routes/videos-router.ts:49-50 | an accepted body is read as the trimmed texts and each optional member as sent |
| VideosRouter.AcceptedTexts | src/routes/videos-router.ts:9-10 | fitting title and author leave their chains trimmed |
| VideosRouter.AcceptedAge | src/routes/videos-router.ts:12 | an accepted age reads as omitted, `null`, or a value from 1 to 18 |
| VideosRouter.AcceptedResolutions | src/routes/videos-router.ts:14-23 | an accepted resolution list reads as the non-empty list it spells |
| VideosRouter.VideoInputOfValid | src/routes/videos-router.ts:41-54 | after validation the handler's input has trimmed texts, an age from 1 to 18 and a non-empty resolution list when given, marks exactly the omitted fields, and marks the input as shadowing `hasOwnProperty` exactly when the body has that key |
| VideosRouter.ValidReadable | src/routes/videos-router.ts:41-54 | after validation the handler can always read the body |
| JsNumbers.ScaleUpIsProduct | src/routes/videos-router.ts:32 | scaling up by `e` tens multiplies by ten to the `e` |
| JsNumbers.ScaleDownIsQuotient | src/routes/videos-router.ts:32 | scaling down by `e` tens gives `k` exactly when the value is `k` times ten to the `e` |
| JsNumbers.AsInteger | src/routes/videos-router.ts:32 | only a finite number can equal an integer; a number without a fraction always equals one, and with exponent 0 that integer is its mantissa |
| JsNumbers.AsIntegerExact | src/routes/videos-router.ts:32 | a number equals the integer `k` under `===` exactly when it is finite and its exact value is `k` |
| JsNumbers.RadixTenIsDecimal | src/routes/videos-router.ts:32 | base-10 digit runs have their decimal value |
| JsNumbers.Radix | src/routes/videos-router.ts:32 | a prefix letter names base 2, 8 or 16, or none; no decimal digit names a base |
| JsNumbers.NonDecimal | src/routes/videos-router.ts:32 | a `0x`/`0o`/`0b` literal starts with `0` and a non-digit, and carries no sign |
| JsNumbers.Significand | src/routes/videos-router.ts:32 | a significand starts with a digit or `.`; a plain digit run is its own value with no fraction |
| JsNumbers.Exponent | src/routes/videos-router.ts:32 | an unsigned digit run is an exponent of its own value |
| JsNumbers.UnsignedDecimal | src/routes/videos-router.ts:32 | a decimal literal starts with a digit or `.`; a plain digit run is its own value at scale 0 |
| JsNumbers.Decimal | src/routes/videos-router.ts:32 | the result is infinite exactly for `Infinity` with or without a sign; digits read as their value |
| JsNumbers.StringToNumber | src/routes/videos-router.ts:32 | blank text is 0; the result is infinite exactly when the trimmed text is a signed or unsigned `Infinity` |
| JsNumbers.PaddingIgnored | src/routes/videos-router.ts:32 | whitespace around the text does not change its number |
| JsNumbers.DigitsRead | src/routes/videos-router.ts:32 | a digit run reads as its value |
| JsNumbers.SignedDigitsRead | src/routes/videos-router.ts:32 | `-` and a digit run reads as the negated value |
| JsNumbers.DigitsAppend | src/routes/videos-router.ts:32 | the value of digits after digits is the front shifted by the back's length plus the back |
| JsNumbers.UnsignedRead | src/routes/videos-router.ts:32 | unpadded text starting with a digit and naming no base reads as an unsigned decimal |
| JsNumbers.ExponentRead | src/routes/videos-router.ts:32 | digits, `e` and digits read as the first value times ten to the second |
| JsNumbers.FractionRead | src/routes/videos-router.ts:32 | digits, `.` and digits read as all the digits scaled down by the fraction's length |
| JsNumbers.ZeroFractionRead | src/routes/videos-router.ts:32 | digits and `.0` read as the digits' value |
| JsNumbers.RadixLetterIsNoDecimal | src/routes/videos-router.ts:32 | text whose second character names a base is no decimal literal |
| JsNumbers.SignedRadixIsNaN | src/routes/videos-router.ts:32 | a sign before a `0x`/`0o`/`0b` literal gives NaN |
| JsNumbers.HexRead | src/routes/videos-router.ts:32 | `0x` and hexadecimal digits read as their base-16 value |
| VideosRouter.CoerceId | src/routes/videos-router.ts:32 | a path matches an id only when its number is finite; `Infinity` with or without a sign matches no id |
| VideosRouter.BlankPathIsZero | src/routes/videos-router.ts:32 | a blank path reads as 0, so it matches the id 0 |
| VideosRouter.CoerceIdExact | src/routes/videos-router.ts:32 | a path matches the id `k` exactly when its text denotes `k` exactly |
| VideosRouter.LetterFirstIsNaN | src/routes/videos-router.ts:32 | a path starting with a letter coerces to no id, so it matches nothing |
| VideosRouter.IdText | src/routes/videos-router.ts:32 | the decimal text of an integer has no whitespace at either end |
| VideosRouter.IdTextReads | src/routes/videos-router.ts:32 | the decimal text of an id reads as exactly that id |
| VideosRouter.IdTextRoundTrip | src/routes/videos-router.ts:32 | the path of an id coerces back to that id |
| VideosRouter.ExponentPathRead | src/routes/videos-router.ts:32 | `n`, `e` and `k` name the id `n` times ten to the `k`, as `17e11` names 1700000000000 |
| VideosRouter.ZeroFractionPathRead | src/routes/videos-router.ts:32 | an id written with `.0` names that id |
| VideosRouter.HexPathRead | src/routes/videos-router.ts:32 | `0x` and hexadecimal digits name the id of their value |
| VideosRouter.FractionalPathIsNoId | src/routes/videos-router.ts:32 | digits with a fraction that is not whole name no id |
| VideosRouter.SignedRadixPathIsNaN | src/routes/videos-router.ts:32 | a sign before `0x`, `0o` or `0b` makes the path NaN, so it names no id |
| VideosRouter.FindByPath | src/routes/videos-router.ts:32 | a path that coerces to no id finds nothing; otherwise the first video with the id |
| VideosRouter.GetVideos | src/routes/videos-router.ts:25-29 | 200 with every video in order |
| VideosRouter.GetVideo | src/routes/videos-router.ts:31-39 | 404 exactly when the path names no video, else 200 with the first match |
| VideosRouter.PostVideo | src/routes/videos-router.ts:41-54 | no authorization step; 400 with the errors or 201; only a 201 changes the store, appending the returned video |
| VideosRouter.PostVideoDefaults | src/repositories/videos-repository.ts:19-36 | a valid POST stores trimmed texts with defaults for the fields left out: not downloadable, no age, no resolutions, dated one day later |
| VideosRouter.UpdateAnswer | src/routes/videos-router.ts:64-72 | 204 exactly for an updated video, 404 exactly for `null`, 500 exactly when `updateVideo` threw; none carries a record |
| VideosRouter.PutVideo | src/routes/videos-router.ts:56-73 | no authorization; validation comes before the id lookup; then 404 exactly when the path names no video; otherwise 500 exactly when the body has its own `hasOwnProperty` key, else 204; only a 204 or a 500 changes the store |
| VideosRouter.PutVideoRunsHandler | src/routes/videos-router.ts:64-72 | a valid PUT on a path that coerces to an id answers what `updateVideo` ends in for that id |
| VideosRouter.PutVideoPatches | src/routes/videos-router.ts:56-73 | a valid PUT on a path that coerces to an existing id patches the first video with that id in place and answers 204; with its own `hasOwnProperty` key the body gets 500 and the video keeps only the new title and author |
| VideosRouter.DeleteVideo | src/routes/videos-router.ts:75-83 | no authorization; 204 exactly when the path names a video (one fewer video), else 404 and no change |
| VideosScenarios.BlankTextsRequired | __tests__/videos.e2e.test.ts:17-31 | an empty title and author give the two `required` errors, for POST and PUT alike |
| VideosScenarios.TestVideoCreated | __tests__/videos.e2e.test.ts:33-43 | the test video is created with the defaults |
| VideosScenarios.CreatedWithDefaults | src/repositories/videos-repository.ts:19-36 | fitting texts with nothing else create a video with every default |
| VideosScenarios.HelloWorldIsNaN | __tests__/videos.e2e.test.ts:45-47 | `helloWorld` coerces to no id |
| VideosScenarios.FractionSpelling | src/routes/videos-router.ts:32 | `16.0` names the id 16 |
| VideosScenarios.HexSpelling | src/routes/videos-router.ts:32 | `0x10` names the id 16 |
| VideosScenarios.InfinityIsNoId | src/routes/videos-router.ts:32 | `Infinity` names no id |
| VideosScenarios.NonNumericPathNotFound | __tests__/videos.e2e.test.ts:45-47 | a non-numeric path answers 404 to GET, DELETE and a valid PUT, with no change |
| VideosScenarios.FoundById | __tests__/videos.e2e.test.ts:49-53 | the path of an id finds that video |
| VideosScenarios.MissingIdNotFound | __tests__/videos.e2e.test.ts:55-64 | a missing id answers 404 to GET, DELETE and a valid PUT, with no change |
| VideosScenarios.TextsAccepted | __tests__/videos.e2e.test.ts:55-64 | fitting title and author alone pass validation and leave every optional field omitted |
| VideosScenarios.TextsAndDateAccepted | __tests__/videos.e2e.test.ts:66-86 | fitting texts and an ISO-8601 date pass validation, and only the date is given |
| VideosScenarios.TestVideoUpdated | __tests__/videos.e2e.test.ts:66-86 | the test PUT changes exactly title, author and the normalised date, and answers 204 |
| VideosScenarios.ShadowedHasOwnPropertyFails | src/repositories/videos-repository.ts:45-48 | the test PUT texts with an extra `hasOwnProperty` key answer 500, and the video keeps only the new title and author |
| VideosScenarios.DeleteRemoves | __tests__/videos.e2e.test.ts:98-107 | DELETE on an id removes that video and answers 204, with or without credentials |

## Left out

- The authorization header becomes a boolean parameter. `authorizationMiddleware` (src/middlewares/authorization-middleware.ts) checks whether the header ends with the base64 of `admin:qwerty`, and that check is not modelled.
- validator.js `isURL` and `isISO8601` are parameters (`isUrl`, `isIso`). Their grammars are external code.
- `new Date(x).toISOString()` is the parameter `toIso`, a total function, so the model never throws a RangeError for an invalid date.
- VideosRepository.UpdateVideo: applies the whole patch and answers 204 for every date validation accepts. Non-strict `isISO8601` also accepts week dates (`2009-W01-1`), ordinal dates (`2009-123`) and the basic format (`20090101`), which `new Date` may not parse. `toISOString()` then throws at src/repositories/videos-repository.ts:57. Lines 45-54 have already written title, author, canBeDownloaded and minAgeRestriction into the stored video by then. Express answers 500 and keeps that half-applied change. The model promises neither the 500 nor the partial update.
- VideosRepository.CreateVideo: the same throw at src/repositories/videos-repository.ts:30 happens before the push. The service then answers 500 and stores nothing, where the model answers 201 with the `toIso` text.
- The clock becomes parameters: the new id of blogs and posts, and the video `Clock` record holding the stamp, the current time and the time one day later. Date arithmetic is out of scope.
- The Express bootstrap, `app.ts`, `index.ts`, `settings.ts` and the `/testing/all-data` route are not part of this model. The repositories' `DeleteAll` stands in for the testing route.
- Blog and post ids generated from the same millisecond can collide in the service. Here every new id is a parameter, and id distinctness is a precondition of the lemmas that need it.
- BlogsRouter.InputOfValid: the handler stores `websiteUrl` as the text of the value, not the raw JSON value. The two differ only for a non-string value that the URL predicate accepts.
- VideosRouter.CoerceId: the model keeps the exact value of the path's text and does not round it to the nearest double. A path that needs that rounding can match an id in the service and none in the model. One example is `1700000000000.0000000001`, which rounds to 1700000000000. Another is a value beyond 2^53. Ids are millisecond timestamps, far below 2^53.
- Http.Done: `Payload.Empty` stands for every answer without a record. In Express 4, `res.send(code)` sends the status text as the body, such as `Not Found` for 404 and `Unauthorized` for 401 (src/middlewares/authorization-middleware.ts:9). Only a 204 has no body. A 500 carries the default error handler's page. The model does not carry those texts.
- The second error the `availableResolutions` custom check can raise, a TypeError from `.some` on a non-array, is not modelled. That error would carry the TypeError's own message, since the custom check has no `withMessage`. It never reaches the answer: `isArray` has already failed for that field, and `onlyFirstError` keeps only that earlier error.
- JSON objects in a body are carried as values but not ordered by key. Nothing in the routes depends on key order.
- Express's JSON parser never yields `undefined` for a member, so a body key that is present is never `Undefined`. The model does not restrict the `Body` map this way; `ReadMember` treats `Undefined` as absent.
- Concurrency and request interleaving are not modelled: each route is one atomic step on the store.
