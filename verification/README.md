# Pixel Alchemy gallery front end — Dafny model of its logic core

Pixel Alchemy is the front end of an AI image-generation community site.
Almost all of it is UI or calls to a backend service. This project models the
pure logic buried in that code and proves properties of it:

- **Storage naming and upload decisions** (`src/utils/supabaseStorage.ts`).
  This covers the object key of an upload (folder + file name), the cleaned
  fetch URL (query string removed) and the content type and extension of a
  fetched blob. It also covers the sanitised file name
  (`[^a-zA-Z0-9-_]` → `-`), the `images` bucket check, the points where
  `uploadImageFromUrl` gives up with `null`, and what `seedSampleImages`
  collects from its five samples.
- **Gallery data shaping and the like toggle** (`src/pages/Gallery.tsx`).
  Only public, completed images are loaded. The `trending` and `newest` tabs
  sort newest first; other tabs keep store order. Each row is decorated with
  its like count, author and liked flag, and the rows are formatted for the
  grid. The like toggle works over the `likes` table, seen as a set of
  (image, user) pairs.
- **Testimonial carousel** (`src/components/TestimonialsSection.tsx`). The
  active index cycles over `[0, n)`. The arrows move it forward and back, and
  the dots set it directly.

Every answer of the backend service (storage listing, bucket creation,
upload, public URL, table select/insert/delete, profile lookups) and of
`fetch` is a parameter of the model: a plain value, or a total function
from the request to the answer. A call that throws is folded into the
failure answer that its `catch` block treats it like. `created_at` is an
integer timestamp. Each `char` of a string stands for one UTF-16 code unit
of the JavaScript string; characters outside the Basic Multilingual Plane
(two code units in JavaScript) and lone surrogates are not modelled.

Files: `wrappers.dfy` (`Option`, `Result`); `text.dfy` (JavaScript `split`/`join`
with a one-character separator); `storage_naming.dfy`; `storage_upload.dfy`;
`gallery.dfy`; `gallery_likes.dfy`; `testimonials.dfy`.

Tab ordering follows what the code does, not what its comments hope for:
- The `trending` tab sorts by `created_at` like `newest`. The comment at
  `src/pages/Gallery.tsx:113-114` says it would ideally count likes and uses
  recency "as a simple proxy"; the model sorts by recency.
- The `following` tab has no query of its own. It shows the listed rows in
  store order.

## Model

| member | source | states |
|---|---|---|
| Text.Split | src/utils/supabaseStorage.ts:90 | `split` with a one-character separator gives one more piece than the separator occurs, and no piece contains the separator |
| Text.JoinSplit | src/utils/supabaseStorage.ts:90 | joining the pieces of a split with the separator gives back the original string |
| Text.SplitJoin | src/utils/supabaseStorage.ts:119 | splitting a join of separator-free pieces gives back exactly those pieces |
| Text.SplitAround | src/utils/supabaseStorage.ts:12 | the pieces of `a + sep + b` are the pieces of `a` followed by the pieces of `b` |
| Text.FirstPiece | src/utils/supabaseStorage.ts:90 | the first piece of a split is a prefix of the string that is either all of it or followed by the separator |
| StorageNaming.UploadPath | src/utils/supabaseStorage.ts:12 | the key is the bare file name when the folder is absent or empty, otherwise folder, `/`, file name |
| StorageNaming.UploadPathSegments | src/utils/supabaseStorage.ts:12 | the key's `/`-segments are the folder's segments followed by the file name's |
| StorageNaming.CleanUrl | src/utils/supabaseStorage.ts:90 | the cleaned URL is the prefix of the URL before the first `?`: a prefix, free of `?`, and either the whole URL or followed by `?` |
| StorageNaming.CleanUrlIdempotent | src/utils/supabaseStorage.ts:90 | cleaning a cleaned URL changes nothing |
| StorageNaming.CleanUrlDropsQuery | src/utils/supabaseStorage.ts:89-90 | `base?query` cleans to `base` whatever the query holds |
| StorageNaming.ContentType | src/utils/supabaseStorage.ts:118 | the blob type when non-empty, otherwise `image/jpeg`; never empty |
| StorageNaming.FileExtension | src/utils/supabaseStorage.ts:119 | the extension is never empty and has no `/`; it is `jpg` when the second `/`-segment is missing or empty |
| StorageNaming.ExtensionIsSubtype | src/utils/supabaseStorage.ts:119 | for `kind/subtype[/more]` the extension is exactly the subtype |
| StorageNaming.ExtensionDefaults | src/utils/supabaseStorage.ts:119 | a type without `/`, or with an empty subtype, gets `jpg` |
| StorageNaming.UntypedBlobExtension | src/utils/supabaseStorage.ts:118-119 | a blob with no type is stored with extension `jpeg` (from the default type), not `jpg` |
| StorageNaming.Sanitize | src/utils/supabaseStorage.ts:122 | same length; safe characters kept, every other code unit replaced by `-` |
| StorageNaming.SanitizedIsSafe | src/utils/supabaseStorage.ts:122 | the sanitised name holds only ASCII letters, digits, `-` and `_` |
| StorageNaming.SanitizeFixedPoints | src/utils/supabaseStorage.ts:122 | sanitising leaves a name unchanged if and only if all its characters are safe |
| StorageNaming.SanitizeIdempotent | src/utils/supabaseStorage.ts:122 | sanitising twice equals sanitising once |
| StorageNaming.SafeFilename | src/utils/supabaseStorage.ts:121-122 | the stored name is the sanitised base name, then `.`, then the extension |
| StorageNaming.SafeFilenamePieces | src/utils/supabaseStorage.ts:122 | the first `.`-piece of the stored name is the sanitised base name; with a dot-free extension the pieces are exactly base and extension |
| StorageUpload.EnsureImagesBucketExists | src/utils/supabaseStorage.ts:44-73 | false on a listing error; true without creating when `images` is listed; otherwise creation is requested and the answer is whether it succeeded |
| StorageUpload.CreatedBucket | src/utils/supabaseStorage.ts:55-60 | a bucket is created exactly when the listing succeeded without `images` and creation succeeds; it is the public `images` bucket with a 10485760-byte file limit |
| StorageUpload.BucketCheckEstablishesBucket | src/utils/supabaseStorage.ts:53-68 | after a successful check an `images` bucket exists, and at most one bucket was added |
| StorageUpload.BucketCheckIdempotent | src/utils/supabaseStorage.ts:53-68 | after a successful check, a second check succeeds without creating anything |
| StorageUpload.UploadImage | src/utils/supabaseStorage.ts:7-31 | the object is uploaded under the folder/name key; the result is the public URL of the stored path, or null exactly when the upload fails |
| StorageUpload.FileFromBlob | src/utils/supabaseStorage.ts:117-125 | the file takes the defaulted content type and the blob's size; its name is a single `/`-free segment (so it is stored at the top of the bucket) whose first `.`-piece is the sanitised base name |
| StorageUpload.UploadImageFromUrl | src/utils/supabaseStorage.ts:78-136 | null when the bucket check fails, fetch throws, the response is not ok or the blob is empty; otherwise the cleaned URL is fetched and the result is non-null exactly when the upload under the safe name succeeds |
| StorageUpload.Collected | src/utils/supabaseStorage.ts:166-187 | a URL is kept if and only if it is a present, non-empty result: at most as many as the attempts, each from an attempt, and every such result is kept |
| StorageUpload.CollectedAppend | src/utils/supabaseStorage.ts:166-187 | collecting a run of results split in two gives the URLs of the first part followed by those of the second, so sample order is kept |
| StorageUpload.SeedSampleImages | src/utils/supabaseStorage.ts:141-188 | the result is the present, non-empty upload URLs in sample order; at most 5 of them, each the result for some sample |
| StorageUpload.CollectedAllPresent | src/utils/supabaseStorage.ts:166-187 | when every attempt gives a URL, all are returned, each at its sample's position |
| StorageUpload.CollectedNonePresent | src/utils/supabaseStorage.ts:166-187 | when every attempt fails, nothing is returned |
| StorageUpload.SampleNamesAreSafe | src/utils/supabaseStorage.ts:143-164 | the five sample base names are unchanged by sanitising |
| Gallery.SelectListed | src/pages/Gallery.tsx:99-100 | every loaded row is public and completed, and every public, completed row is loaded as often as it occurs |
| Gallery.InsertNewestFirst | src/pages/Gallery.tsx:115-117 | inserting into a newest-first sequence keeps it newest first and adds exactly the new row |
| Gallery.SortNewestFirst | src/pages/Gallery.tsx:115-121 | the sorted rows are newest first and a permutation of the input (none dropped or duplicated) |
| Gallery.OrderForTab | src/pages/Gallery.tsx:111-122 | a permutation that is newest first for `trending` and `newest` and the store order for any other tab |
| Gallery.DisplayName | src/pages/Gallery.tsx:136 | a present, non-empty username, otherwise `anonymous`; never empty |
| Gallery.Decorate | src/pages/Gallery.tsx:142-167 | the like count is the store count or 0 when null; the author is never empty; the flag is true only if the viewer likes the image, is false with no viewer or when the like lookup fails, and otherwise says whether the viewer likes it |
| Gallery.FetchPublicImages | src/pages/Gallery.tsx:82-176 | a failed query fails the load; otherwise the images are a permutation of the listed rows, in the tab's order, each decorated |
| Gallery.NothingListedLoadsEmpty | src/pages/Gallery.tsx:107-109 | a table with no public, completed row loads as an empty list |
| Gallery.FetchedFlagsAgree | src/pages/Gallery.tsx:150-166 | a loaded image is flagged liked only if the viewer likes it; when no like lookup fails the flags agree with the likes table exactly; all are false without a viewer |
| Gallery.FormatImage | src/pages/Gallery.tsx:246-253 | the entry keeps id, URL, prompt and likes; the user defaults to `anonymous`, the flag to false |
| Gallery.FormatImagesForGallery | src/pages/Gallery.tsx:243-254 | undefined input gives an empty list; otherwise same length and order with id, URL, prompt and likes kept |
| Gallery.GridAfterFetch | src/pages/Gallery.tsx:243-254 | after a load, each grid entry is liked only if the viewer likes it, and exactly then when its like lookup did not fail; it shows its author or `anonymous` and the store count or 0 |
| GalleryLikes.FindImage | src/pages/Gallery.tsx:197 | nothing is found exactly when no loaded image has the id; a found image is loaded and has the id |
| GalleryLikes.FindImageIsFirst | src/pages/Gallery.tsx:197 | the found image is the first with the id |
| GalleryLikes.ToggleLike | src/pages/Gallery.tsx:191-240 | no viewer: login toast, nothing changes; unknown id or no images: nothing changes; a store error or throw: nothing changes, no refetch; on success the pair is removed if flagged liked, else added, and a refetch follows |
| GalleryLikes.ToggleFlipsLike | src/pages/Gallery.tsx:201-235 | with flags that agree with the table, a successful toggle flips the viewer's like, changes the image's count by exactly one and no other pair |
| GalleryLikes.ToggleKeepsOtherCounts | src/pages/Gallery.tsx:201-232 | a toggle never changes another image's like count |
| GalleryLikes.StaleUnlikeChangesNothing | src/pages/Gallery.tsx:201-215 | an image shown as liked whose pair is already gone is "unliked" by a delete that matches nothing: the table is unchanged, yet the success toast and refetch follow |
| Testimonials.JsRemainder | src/components/TestimonialsSection.tsx:41-45 | JavaScript `%` equals the mathematical remainder for a non-negative dividend and is never positive for a negative one |
| Testimonials.InitialIndex | src/components/TestimonialsSection.tsx:38 | the carousel starts at index 0 |
| Testimonials.Next | src/components/TestimonialsSection.tsx:40-42 | forward steps to `i + 1`, wrapping from the last index to 0, and stays in `[0, n)` |
| Testimonials.Prev | src/components/TestimonialsSection.tsx:44-46 | back steps to `i - 1`, wrapping from 0 to the last index, and stays in `[0, n)` |
| Testimonials.PrevNeedsOffset | src/components/TestimonialsSection.tsx:45 | without the added `n`, going back from 0 would give -1 |
| Testimonials.PrevNextInverse | src/components/TestimonialsSection.tsx:40-46 | back after forward and forward after back both return the original index |
| Testimonials.NextTimesCompose | src/components/TestimonialsSection.tsx:41 | `a` presses followed by `b` presses equal `a + b` presses |
| Testimonials.NextTimesBeforeWrap | src/components/TestimonialsSection.tsx:41 | before the wrap, `k` presses advance the index by exactly `k` |
| Testimonials.NextCycles | src/components/TestimonialsSection.tsx:40-42 | `n` presses of next return to the starting index |
| Testimonials.ClickDot | src/components/TestimonialsSection.tsx:115 | clicking dot `k` makes `k` active, and dot `k` is highlighted |
| Testimonials.Dots | src/components/TestimonialsSection.tsx:109-114 | one dot per testimonial; a dot is highlighted exactly when it is the active index |
| Testimonials.LitAmongFirst | src/components/TestimonialsSection.tsx:109-114 | among the first `m` dots, one is highlighted when the active index is among them, otherwise none |
| Testimonials.ExactlyOneDotLit | src/components/TestimonialsSection.tsx:109-114 | exactly one dot is highlighted |
| Testimonials.Run | src/components/TestimonialsSection.tsx:38-46 | any sequence of arrow and dot clicks from the start keeps the index in `[0, n)` |

## Left out

- All calls to the backend service and `fetch` are left out. Their answers are parameters (see above). `getPublicUrl` is a parameter from stored path to URL.
- The bucket settings (`public: true`, a 10 MiB size limit) are recorded as constants. The storage service's enforcement of them is not modelled.
- `uploadImage` awaits its own bucket check but ignores the answer. That check is left out of `UploadImage`; only its effect on the bucket list matters, and `EnsureImagesBucketExists` covers that.
- The 500 ms delay between seed uploads, the `Promise.all` fan-out, the query cache and refetch timing are left out. They are asynchronous plumbing with no stated contract.
- Console logging and the toast UI are left out; only the toast message chosen by the like toggle is modelled.
- Parsing `created_at` into a `Date` is left out; timestamps are integers. An unparsable date (`NaN` in the comparator) is therefore not modelled.
- Unicode `trim` and surrogate-pair handling in the regular expression are left out. A `char` stands for one code unit and is checked against ASCII classes. A character outside the Basic Multilingual Plane is one `char` in the model but two code units in JavaScript, so it sanitises to one `-` here and to `--` there. Lone surrogates cannot be represented.
- The auth session listener and profile lookup are left out. The logged-in user is the `viewer` parameter. The tab change handler is also left out: it only sets the tab, which is a parameter of `FetchPublicImages`.
- Gallery.FetchPublicImages: a query that answers `null` data without an error is modelled as an empty table. Both give an empty list in the source.
- Gallery.Decorate: `.maybeSingle()` erring on several matching rows is not modelled separately, since a set holds each pair once. Any failed like lookup is the `likeLookupFails` parameter and reads as not liked.
- Gallery.Decorate: the like count is the store's answer for the image. It is not derived from the `likes` set. `GalleryLikes.LikeCount` counts the set for the toggle properties.
- Gallery.SortNewestFirst: the contract does not state that rows with equal timestamps keep store order. The definition is a stable insertion sort, matching the stable `Array.prototype.sort`, but stability is not proved.
- The `likes` table is a set of (image, user) pairs. Its rows' own ids are not modelled, and neither is a second row for the same pair. A successful insert for a pair that is already present is therefore a no-op in the model; in the store it would add a duplicate row, or fail under a uniqueness constraint.
- GalleryLikes.ToggleLike: a throw is modelled as leaving the table unchanged. A write that lands before the throw is not modelled. A duplicate insert rejected by a uniqueness constraint is seen as a store error; on the set it would be a no-op.
- The "load more" button and the tab UI in `src/components/ImageGallery.tsx`, and the prompt form with its float guidance slider, are left out. So are the generation page, the landing page, the seed button and the header, footer, hero, pricing and features sections. They are presentational UI with local flags. The generated type declarations in `src/integrations/supabase/types.ts` are mirrored only by the row datatypes.
- Testimonials.NextCycles: the cycle is stated as `n` presses returning to the start, not as the closed form `(i + k) % n` for `k` presses.
