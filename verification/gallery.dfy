/** The data shaping of the gallery page (src/pages/Gallery.tsx): which rows
    of the `images` table are shown, in which order for each tab, how each
    is decorated with its like count, author and liked flag, and how the
    result is formatted for the grid.  The per-row store lookups are
    parameters; `created_at` is an integer timestamp. */
module Gallery {
  import opened Wrappers

  /** Moderation status of an image that may be shown. */
  const CompletedStatus := "completed"

  /** Author name shown when the profile or its username is missing. */
  const AnonymousUser := "anonymous"

  /** The columns of an `images` row the gallery selects. */
  datatype ImageRow = ImageRow(
    id: string,
    userId: string,
    prompt: string,
    model: string,
    imageUrl: string,
    isPublic: bool,
    status: string,
    createdAt: int)

  /** A row of the `likes` table: user `userId` likes image `imageId`. */
  datatype LikePair = LikePair(imageId: string, userId: string)

  /** A gallery image: a row decorated with its like count, its author's
      username and whether the viewer likes it.  The author and the flag
      are optional, as in the page's `Image` interface. */
  datatype Image = Image(row: ImageRow, likes: nat, user: Option<string>, isLiked: Option<bool>)

  /** Answer of the `images` query: an error, or the table's rows in store
      order. */
  datatype TableRead = ReadFailed | Rows(rows: seq<ImageRow>)

  /** Why loading the gallery failed. */
  datatype FetchError = QueryFailed

  /** The per-image store lookups the page makes while decorating rows. */
  datatype Lookups = Lookups(
    usernameOf: string -> Option<string>,   // profile username for a user id
    likeCountOf: string -> Option<nat>,     // `count` of likes for an image id
    viewer: Option<string>,                 // id of the logged-in user
    likeLookupFails: string -> bool,        // the viewer's like lookup for an image id errs
    likes: set<LikePair>)                   // the `likes` table

  /** A row the gallery may show: public and completed. */
  predicate IsListed(row: ImageRow) {
    row.isPublic && row.status == CompletedStatus
  }

  /** `.eq('is_public', true).eq('status', 'completed')`: the listed rows, in
      store order, each as often as it occurs. */
  function SelectListed(rows: seq<ImageRow>): (listed: seq<ImageRow>)
    ensures |listed| <= |rows|
    ensures forall i :: 0 <= i < |listed| ==> IsListed(listed[i])
    ensures forall row :: multiset(listed)[row] == if IsListed(row) then multiset(rows)[row] else 0
  {
    if |rows| == 0 then []
    else
      var front := SelectListed(rows[..|rows| - 1]);
      var last := rows[|rows| - 1];
      assert rows == rows[..|rows| - 1] + [last];
      if IsListed(last) then front + [last] else front
  }

  /** Rows ordered by `created_at`, newest first. */
  predicate NewestFirst(rows: seq<ImageRow>) {
    forall i, j :: 0 <= i < j < |rows| ==> rows[i].createdAt >= rows[j].createdAt
  }

  /** Puts `row` into a newest-first sequence ahead of every row that is not
      newer, so that rows with equal timestamps keep their relative order. */
  function InsertNewestFirst(row: ImageRow, sorted: seq<ImageRow>): (r: seq<ImageRow>)
    requires NewestFirst(sorted)
    ensures NewestFirst(r)
    ensures multiset(r) == multiset(sorted) + multiset{row}
    ensures |r| == |sorted| + 1
  {
    if |sorted| == 0 || sorted[0].createdAt <= row.createdAt then [row] + sorted
    else
      var rest := InsertNewestFirst(row, sorted[1..]);
      assert sorted == [sorted[0]] + sorted[1..];
      forall i | 0 <= i < |rest| ensures sorted[0].createdAt >= rest[i].createdAt {
        assert rest[i] in multiset(rest);
        if rest[i] != row {
          assert rest[i] in multiset(sorted[1..]);
        }
      }
      [sorted[0]] + rest
  }

  /** The comparator sort `(a, b) => b.created_at - a.created_at`: a stable
      insertion sort, newest first. */
  function SortNewestFirst(rows: seq<ImageRow>): (sorted: seq<ImageRow>)
    ensures NewestFirst(sorted)
    ensures multiset(sorted) == multiset(rows)
    ensures |sorted| == |rows|
  {
    if |rows| == 0 then []
    else
      assert rows == [rows[0]] + rows[1..];
      InsertNewestFirst(rows[0], SortNewestFirst(rows[1..]))
  }

  /** Tabs whose rows are sorted by recency. */
  predicate SortsByRecency(tab: string) {
    tab == "trending" || tab == "newest"
  }

  /** The order of the tab: newest first for `trending` and `newest`, store
      order for every other tab. */
  function OrderForTab(tab: string, rows: seq<ImageRow>): (ordered: seq<ImageRow>)
    ensures multiset(ordered) == multiset(rows)
    ensures |ordered| == |rows|
    ensures SortsByRecency(tab) ==> NewestFirst(ordered)
    ensures !SortsByRecency(tab) ==> ordered == rows
  {
    if SortsByRecency(tab) then SortNewestFirst(rows) else rows
  }

  /** `userData?.username || 'anonymous'`: a present, non-empty username, or
      `anonymous`. */
  function DisplayName(username: Option<string>): (name: string)
    ensures name != ""
    ensures username.Some? && username.value != "" ==> name == username.value
    ensures username.None? || username.value == "" ==> name == AnonymousUser
  {
    if username.Some? && username.value != "" then username.value else AnonymousUser
  }

  /** Whether the viewer likes the image `imageId`; never without a viewer. */
  predicate ViewerLikes(viewer: Option<string>, likes: set<LikePair>, imageId: string) {
    viewer.Some? && LikePair(imageId, viewer.value) in likes
  }

  /** `isLiked` after the viewer's like lookup (`!!likeData`): only with a
      viewer, and false when the lookup fails, since its error is ignored
      and `likeData` is then null. */
  predicate LikedFlag(lookups: Lookups, imageId: string) {
    && lookups.viewer.Some?
    && !lookups.likeLookupFails(imageId)
    && ViewerLikes(lookups.viewer, lookups.likes, imageId)
  }

  /** No like lookup of the viewer fails. */
  ghost predicate LookupsSucceed(lookups: Lookups) {
    forall imageId :: !lookups.likeLookupFails(imageId)
  }

  /** One row decorated with its author, like count and liked flag. */
  function Decorate(row: ImageRow, lookups: Lookups): (image: Image)
    ensures image.row == row
    ensures image.user.Some? && image.user.value != ""
    ensures image.likes == lookups.likeCountOf(row.id).GetOr(0)
    ensures lookups.viewer.None? ==> image.isLiked == Some(false)
    ensures image.isLiked.Some?
    ensures image.isLiked == Some(true) ==> ViewerLikes(lookups.viewer, lookups.likes, row.id)
    ensures lookups.likeLookupFails(row.id) ==> image.isLiked == Some(false)
    ensures !lookups.likeLookupFails(row.id) ==>
      image.isLiked == Some(ViewerLikes(lookups.viewer, lookups.likes, row.id))
  {
    Image(row,
          lookups.likeCountOf(row.id).GetOr(0),
          Some(DisplayName(lookups.usernameOf(row.userId))),
          Some(LikedFlag(lookups, row.id)))
  }

  /** The rows under a sequence of images. */
  function RowsOf(images: seq<Image>): (rows: seq<ImageRow>)
    ensures |rows| == |images|
    ensures forall i :: 0 <= i < |images| ==> rows[i] == images[i].row
  {
    seq(|images|, i requires 0 <= i < |images| => images[i].row)
  }

  /** Every image's flag says whether the viewer likes it. */
  predicate FlagsAgree(images: seq<Image>, viewer: Option<string>, likes: set<LikePair>) {
    forall i :: 0 <= i < |images| ==>
      images[i].isLiked == Some(ViewerLikes(viewer, likes, images[i].row.id))
  }

  /** Each row decorated, in the same order. */
  function DecorateAll(rows: seq<ImageRow>, lookups: Lookups): (images: seq<Image>)
    ensures RowsOf(images) == rows
    ensures forall i :: 0 <= i < |images| ==> images[i] == Decorate(rows[i], lookups)
  {
    var images := seq(|rows|, i requires 0 <= i < |rows| => Decorate(rows[i], lookups));
    assert RowsOf(images) == rows;
    images
  }

  /** `fetchPublicImages` for a tab: the listed rows in the tab's order, each
      decorated; a failed query is rethrown. */
  function FetchPublicImages(tab: string, read: TableRead, lookups: Lookups): (result: Result<seq<Image>, FetchError>)
    ensures result.Err? <==> read.ReadFailed?
    ensures result.Ok? ==>
      var images := result.value;
      && multiset(RowsOf(images)) == multiset(SelectListed(read.rows))
      && (forall i :: 0 <= i < |images| ==> IsListed(images[i].row))
      && (SortsByRecency(tab) ==> NewestFirst(RowsOf(images)))
      && (!SortsByRecency(tab) ==> RowsOf(images) == SelectListed(read.rows))
      && (forall i :: 0 <= i < |images| ==> images[i] == Decorate(images[i].row, lookups))
  {
    match read
    case ReadFailed => Err(QueryFailed)
    case Rows(rows) =>
      var listed := SelectListed(rows);
      if |listed| == 0 then Ok([])
      else
        var ordered := OrderForTab(tab, listed);
        assert forall i :: 0 <= i < |ordered| ==> IsListed(ordered[i]) by {
          forall i | 0 <= i < |ordered| ensures IsListed(ordered[i]) {
            assert ordered[i] in multiset(ordered);
          }
        }
        Ok(DecorateAll(ordered, lookups))
  }

  /** A table without a listed row loads as an empty gallery, on every tab. */
  lemma NothingListedLoadsEmpty(tab: string, rows: seq<ImageRow>, lookups: Lookups)
    requires forall i :: 0 <= i < |rows| ==> !IsListed(rows[i])
    ensures FetchPublicImages(tab, Rows(rows), lookups) == Ok([])
  {
  }

  /** A loaded image is never flagged liked unless the viewer likes it; when
      no like lookup fails, the flags agree with the likes table exactly. */
  lemma FetchedFlagsAgree(tab: string, read: TableRead, lookups: Lookups)
    requires FetchPublicImages(tab, read, lookups).Ok?
    ensures forall image :: image in FetchPublicImages(tab, read, lookups).value ==>
      (image.isLiked == Some(true) ==> ViewerLikes(lookups.viewer, lookups.likes, image.row.id))
    ensures LookupsSucceed(lookups) ==>
      FlagsAgree(FetchPublicImages(tab, read, lookups).value, lookups.viewer, lookups.likes)
    ensures lookups.viewer.None? ==>
      forall image :: image in FetchPublicImages(tab, read, lookups).value ==> image.isLiked == Some(false)
  {
  }

  /** An entry of the grid. */
  datatype GalleryItem = GalleryItem(id: string, url: string, prompt: string, likes: nat, user: string, isLiked: bool)

  /** One image as a grid entry: missing authors become `anonymous` and a
      missing flag becomes false. */
  function FormatImage(image: Image): (item: GalleryItem)
    ensures item.id == image.row.id && item.url == image.row.imageUrl
    ensures item.prompt == image.row.prompt && item.likes == image.likes
    ensures item.user != ""
    ensures item.user == DisplayName(image.user)
    ensures item.isLiked <==> image.isLiked == Some(true)
  {
    GalleryItem(image.row.id, image.row.imageUrl, image.row.prompt, image.likes,
                DisplayName(image.user), image.isLiked.GetOr(false))
  }

  /** `formatImagesForGallery`: nothing while the images are undefined,
      otherwise one entry per image in the same order. */
  function FormatImagesForGallery(images: Option<seq<Image>>): (items: seq<GalleryItem>)
    ensures images.None? ==> items == []
    ensures images.Some? ==> |items| == |images.value|
    ensures images.Some? ==> forall i :: 0 <= i < |items| ==>
      && items[i].id == images.value[i].row.id
      && items[i].url == images.value[i].row.imageUrl
      && items[i].prompt == images.value[i].row.prompt
      && items[i].likes == images.value[i].likes
      && items[i].user != ""
      && (items[i].isLiked <==> images.value[i].isLiked == Some(true))
  {
    match images
    case None => []
    case Some(imgs) => seq(|imgs|, i requires 0 <= i < |imgs| => FormatImage(imgs[i]))
  }

  /** What the grid shows after a successful load: each entry is liked only
      if the viewer likes it, and exactly then when its like lookup did not
      fail; each shows its author's name or `anonymous` and the store count
      or 0. */
  lemma GridAfterFetch(tab: string, read: TableRead, lookups: Lookups)
    requires FetchPublicImages(tab, read, lookups).Ok?
    ensures
      var images := FetchPublicImages(tab, read, lookups).value;
      var items := FormatImagesForGallery(Some(images));
      && |items| == |images|
      && forall i :: 0 <= i < |items| ==>
        && (items[i].isLiked ==> ViewerLikes(lookups.viewer, lookups.likes, items[i].id))
        && (!lookups.likeLookupFails(items[i].id) ==>
              items[i].isLiked == ViewerLikes(lookups.viewer, lookups.likes, items[i].id))
        && items[i].user == DisplayName(lookups.usernameOf(images[i].row.userId))
        && items[i].likes == lookups.likeCountOf(items[i].id).GetOr(0)
  {
  }
}
