/** The like toggle of the gallery page (src/pages/Gallery.tsx), over the
    `likes` table as a set of (image, user) pairs.  The store's answer to
    the delete or insert is a parameter. */
module GalleryLikes {
  import opened Wrappers
  import opened Gallery

  /** Answer of the store to the delete or insert: success, an error
      object, or a throw. */
  datatype StoreReply = StoreOk | StoreError | StoreThrew

  /** The toast the page shows. */
  datatype Notice = NoNotice | ErrorToast(message: string) | SuccessToast(message: string)

  /** What a toggle did: the likes table afterwards, the toast, and whether
      the images are refetched. */
  datatype ToggleOutcome = ToggleOutcome(likes: set<LikePair>, notice: Notice, refetch: bool)

  const LoginRequired := "You must be logged in to like images"
  const UnlikeFailed := "Failed to unlike image"
  const LikeFailed := "Failed to like image"
  const Unliked := "Image unliked"
  const Liked := "Image liked"
  const SomethingWrong := "Something went wrong"

  /** `images.find(img => img.id === imageId)`: the first image with the id. */
  function FindImage(images: seq<Image>, imageId: string): (found: Option<Image>)
    ensures found.None? <==> forall i :: 0 <= i < |images| ==> images[i].row.id != imageId
    ensures found.Some? ==> found.value in images && found.value.row.id == imageId
  {
    if |images| == 0 then None
    else if images[0].row.id == imageId then Some(images[0])
    else
      assert forall i :: 1 <= i < |images| ==> images[i] == images[1..][i - 1];
      FindImage(images[1..], imageId)
  }

  /** The image found is the first one with the id: every image before it
      has another id. */
  lemma {:induction false} FindImageIsFirst(images: seq<Image>, imageId: string)
    requires FindImage(images, imageId).Some?
    ensures exists k :: (&& 0 <= k < |images|
                         && images[k] == FindImage(images, imageId).value
                         && forall i :: 0 <= i < k ==> images[i].row.id != imageId)
  {
    if images[0].row.id != imageId {
      FindImageIsFirst(images[1..], imageId);
      var k :| 0 <= k < |images[1..]| && images[1..][k] == FindImage(images, imageId).value
        && forall i :: 0 <= i < k ==> images[1..][i].row.id != imageId;
      assert images[k + 1] == images[1..][k];
      forall i | 0 <= i < k + 1 ensures images[i].row.id != imageId {
        if i > 0 { assert images[i] == images[1..][i - 1]; }
      }
    } else {
      assert images[0] == FindImage(images, imageId).value;
    }
  }

  /** `handleToggleLike(imageId)` for the logged-in `viewer` (if any), the
      images currently loaded (undefined while loading), the likes table
      and the store's answer to the write. */
  function ToggleLike(imageId: string, viewer: Option<string>, images: Option<seq<Image>>,
                      likes: set<LikePair>, reply: StoreReply): (outcome: ToggleOutcome)
    ensures viewer.None? ==> outcome == ToggleOutcome(likes, ErrorToast(LoginRequired), false)
    ensures viewer.Some? && (images.None? || FindImage(images.value, imageId).None?) ==>
      outcome == ToggleOutcome(likes, NoNotice, false)
    ensures reply != StoreOk ==> outcome.likes == likes && !outcome.refetch
    ensures reply == StoreThrew && viewer.Some? && images.Some? && FindImage(images.value, imageId).Some? ==>
      outcome.notice == ErrorToast(SomethingWrong)
    ensures outcome.refetch <==>
      viewer.Some? && images.Some? && FindImage(images.value, imageId).Some? && reply == StoreOk
    ensures outcome.refetch ==>
      var pair := LikePair(imageId, viewer.value);
      if FindImage(images.value, imageId).value.isLiked == Some(true)
      then outcome.likes == likes - {pair} && outcome.notice == SuccessToast(Unliked)
      else outcome.likes == likes + {pair} && outcome.notice == SuccessToast(Liked)
  {
    if viewer.None? then ToggleOutcome(likes, ErrorToast(LoginRequired), false)
    else if images.None? then ToggleOutcome(likes, NoNotice, false)
    else
      var found := FindImage(images.value, imageId);
      if found.None? then ToggleOutcome(likes, NoNotice, false)
      else
        var pair := LikePair(imageId, viewer.value);
        var liked := found.value.isLiked == Some(true);
        match reply
        case StoreThrew => ToggleOutcome(likes, ErrorToast(SomethingWrong), false)
        case StoreError =>
          ToggleOutcome(likes, ErrorToast(if liked then UnlikeFailed else LikeFailed), false)
        case StoreOk =>
          if liked then ToggleOutcome(likes - {pair}, SuccessToast(Unliked), true)
          else ToggleOutcome(likes + {pair}, SuccessToast(Liked), true)
  }

  /** Number of likes of the image `imageId`. */
  function LikeCount(likes: set<LikePair>, imageId: string): nat {
    |set p | p in likes && p.imageId == imageId|
  }

  /** When the loaded flags agree with the likes table, a successful toggle
      flips the viewer's like of the image, moves its count by exactly one,
      and leaves every other pair alone. */
  lemma ToggleFlipsLike(imageId: string, viewer: string, images: seq<Image>,
                        likes: set<LikePair>)
    requires FlagsAgree(images, Some(viewer), likes)
    requires FindImage(images, imageId).Some?
    ensures
      var after := ToggleLike(imageId, Some(viewer), Some(images), likes, StoreOk).likes;
      var pair := LikePair(imageId, viewer);
      && (pair in after <==> pair !in likes)
      && (forall p :: p != pair ==> (p in after <==> p in likes))
      && LikeCount(after, imageId) == if pair in likes then LikeCount(likes, imageId) - 1
                                      else LikeCount(likes, imageId) + 1
  {
    var pair := LikePair(imageId, viewer);
    var after := ToggleLike(imageId, Some(viewer), Some(images), likes, StoreOk).likes;
    var found := FindImage(images, imageId).value;
    assert found.isLiked == Some(pair in likes);
    var before := set p | p in likes && p.imageId == imageId;
    var now := set p | p in after && p.imageId == imageId;
    if pair in likes {
      assert after == likes - {pair};
      assert now == before - {pair};
    } else {
      assert after == likes + {pair};
      assert now == before + {pair};
    }
  }

  /** A toggle never changes the likes of any other image. */
  lemma ToggleKeepsOtherCounts(imageId: string, viewer: Option<string>, images: Option<seq<Image>>,
                               likes: set<LikePair>, reply: StoreReply, other: string)
    requires other != imageId
    ensures LikeCount(ToggleLike(imageId, viewer, images, likes, reply).likes, other) == LikeCount(likes, other)
  {
    var after := ToggleLike(imageId, viewer, images, likes, reply).likes;
    assert (set p | p in after && p.imageId == other) == (set p | p in likes && p.imageId == other);
  }

  /** A stale "liked" flag makes the unlike a no-op on the table: the image
      is shown as liked but the viewer's pair is already gone, so the delete
      matches nothing, yet the toast reports the image unliked. */
  lemma StaleUnlikeChangesNothing(imageId: string, viewer: string, images: seq<Image>,
                                  likes: set<LikePair>)
    requires FindImage(images, imageId).Some?
    requires FindImage(images, imageId).value.isLiked == Some(true)
    requires LikePair(imageId, viewer) !in likes
    ensures ToggleLike(imageId, Some(viewer), Some(images), likes, StoreOk)
      == ToggleOutcome(likes, SuccessToast(Unliked), true)
  {
    assert likes - {LikePair(imageId, viewer)} == likes;
  }
}
