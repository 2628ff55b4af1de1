/**
 * The state of the image gallery component (components/image-gallery.tsx)
 * and its handlers: loading a user's images, deleting one, selecting and
 * deselecting, and reacting to a `gallery:update` event.
 *
 * The storage backend is not modelled: what a fetch or a delete returns is a
 * parameter of the handler. Each handler runs as one step; `View` is the
 * component state between steps, and the functions on `View` say what each
 * step does to it. The class `ImageGallery` holds the state in fields and
 * updates them the way the component does.
 */
module Gallery {
  import opened Options
  import opened JsString

  /** One stored image, as the backend lists it. */
  datatype GalleryImage = GalleryImage(id: string, imageUrl: string, prompt: string, createdAt: string)

  /** What fetching a user's images gives: the list (which may be null), or an error. */
  datatype LoadResult = Loaded(data: Option<seq<GalleryImage>>) | LoadFailed

  /** What deleting an image gives. */
  datatype DeleteResult = Deleted | DeleteFailed

  /** Shown when a fetch fails ("an error occurred while loading images"). */
  const LoadError: string := "이미지를 불러오는 중 오류가 발생했습니다."
  /** Shown when a delete fails ("an error occurred while deleting the image"). */
  const DeleteError: string := "이미지를 삭제하는 중 오류가 발생했습니다."

  /** The component state between two handler steps. */
  datatype View = View(
    images: seq<GalleryImage>,
    loading: bool,
    error: string,
    selectedImage: Option<GalleryImage>,
    isDeleting: Option<string>)

  /** `!userId`: no user, or the empty id. */
  predicate NoUser(userId: Option<string>) {
    userId.None? || userId.value == []
  }

  // ---------------------------------------------------------------------------
  // Removing by id
  // ---------------------------------------------------------------------------

  /** `images.filter(img => img.id !== id)` */
  function WithoutId(images: seq<GalleryImage>, id: string): (r: seq<GalleryImage>)
    ensures |r| <= |images|
    decreases |images|
  {
    if images == [] then []
    else
      var last := images[|images| - 1];
      WithoutId(images[..|images| - 1], id) + (if last.id == id then [] else [last])
  }

  /** The filter keeps exactly the images with another id. */
  lemma {:induction false} WithoutIdMembers(images: seq<GalleryImage>, id: string)
    ensures forall x :: x in WithoutId(images, id) <==> x in images && x.id != id
    decreases |images|
  {
    if images != [] {
      var init, last := images[..|images| - 1], images[|images| - 1];
      WithoutIdMembers(init, id);
      assert images == init + [last];
    }
  }

  /** Filtering keeps order: the filter of a concatenation is the concatenation of the filters. */
  lemma {:induction false} WithoutIdAppend(a: seq<GalleryImage>, b: seq<GalleryImage>, id: string)
    ensures WithoutId(a + b, id) == WithoutId(a, id) + WithoutId(b, id)
    decreases |b|
  {
    if b == [] {
      assert a + b == a;
    } else {
      var init, last := b[..|b| - 1], b[|b| - 1];
      var t := if last.id == id then [] else [last];
      WithoutIdAppend(a, init, id);
      assert b == init + [last];
      Assoc(a, init, [last]);
      WithoutIdSnoc(a + init, last, id);
      WithoutIdSnoc(init, last, id);
      Assoc(WithoutId(a, id), WithoutId(init, id), t);
    }
  }

  /** A list with no image of that id is left as it is. */
  lemma {:induction false} WithoutIdAbsent(images: seq<GalleryImage>, id: string)
    requires forall k :: 0 <= k < |images| ==> images[k].id != id
    ensures WithoutId(images, id) == images
    decreases |images|
  {
    if images != [] {
      var init, last := images[..|images| - 1], images[|images| - 1];
      WithoutIdAbsent(init, id);
      WithoutIdSnoc(init, last, id);
      assert images == init + [last];
    }
  }

  /** One step of the filter, from the right. */
  lemma WithoutIdSnoc(init: seq<GalleryImage>, last: GalleryImage, id: string)
    ensures WithoutId(init + [last], id) == WithoutId(init, id) + if last.id == id then [] else [last]
  {
    assert (init + [last])[..|init|] == init;
  }

  /** Removing twice removes nothing more. */
  lemma WithoutIdIdempotent(images: seq<GalleryImage>, id: string)
    ensures WithoutId(WithoutId(images, id), id) == WithoutId(images, id)
  {
    var r := WithoutId(images, id);
    WithoutIdMembers(images, id);
    forall k | 0 <= k < |r|
      ensures r[k].id != id
    {
      assert r[k] in r;
    }
    WithoutIdAbsent(r, id);
  }

  // ---------------------------------------------------------------------------
  // The handlers, on values
  // ---------------------------------------------------------------------------

  /** The state before the first load. */
  const Initial: View := View([], true, [], None, None)

  /**
   * `loadImages`: with no user, only stops loading. Otherwise a fetched list
   * (or `[]` for null) replaces the images and a failure sets the error and
   * keeps them. Loading is over afterwards; the selection and the pending
   * delete are not touched.
   */
  function Load(v: View, userId: Option<string>, result: LoadResult): (r: View)
    ensures !r.loading
    ensures r.selectedImage == v.selectedImage && r.isDeleting == v.isDeleting
    ensures NoUser(userId) || result.Loaded? ==> r.error == v.error
  {
    if NoUser(userId) then v.(loading := false)
    else match result
      case Loaded(data) => v.(images := if data.None? then [] else data.value, loading := false)
      case LoadFailed => v.(error := LoadError, loading := false)
  }

  /**
   * `handleDelete(id)`: a successful delete drops every image with that id
   * and clears the selection only when it is that image; a failure sets the
   * error. No delete is pending afterwards.
   */
  function Delete(v: View, id: string, result: DeleteResult): (r: View)
    ensures r.isDeleting.None?
    ensures r.loading == v.loading
  {
    match result
    case Deleted =>
      var selection := if v.selectedImage.Some? && v.selectedImage.value.id == id then None else v.selectedImage;
      v.(images := WithoutId(v.images, id), selectedImage := selection, isDeleting := None)
    case DeleteFailed => v.(error := DeleteError, isDeleting := None)
  }

  /** Clicking an image: it becomes the selection, and nothing else changes. */
  function Select(v: View, image: GalleryImage): (r: View)
    ensures r.selectedImage == Some(image)
    ensures r.images == v.images && r.loading == v.loading && r.error == v.error && r.isDeleting == v.isDeleting
  {
    v.(selectedImage := Some(image))
  }

  /** Closing the detail panel: the selection is cleared, and nothing else changes. */
  function Deselect(v: View): (r: View)
    ensures r.selectedImage.None?
    ensures r.images == v.images && r.loading == v.loading && r.error == v.error && r.isDeleting == v.isDeleting
  {
    v.(selectedImage := None)
  }

  /** The `gallery:update` listener: reload only for an event about this component's user. */
  function Update(v: View, userId: Option<string>, eventUserId: Option<string>, result: LoadResult): (r: View)
    ensures eventUserId != userId ==> r == v
  {
    if eventUserId == userId then Load(v, userId, result) else v
  }

  // ---------------------------------------------------------------------------
  // Properties of the handlers
  // ---------------------------------------------------------------------------

  /** Without a user nothing is fetched: only `loading` changes. */
  lemma LoadWithoutUser(v: View, userId: Option<string>, result: LoadResult)
    requires NoUser(userId)
    ensures Load(v, userId, result) == v.(loading := false)
  {
  }

  /** A successful load shows exactly the fetched images, whatever was shown before. */
  lemma LoadReplaces(v: View, w: View, userId: Option<string>, data: Option<seq<GalleryImage>>)
    requires !NoUser(userId)
    ensures Load(v, userId, Loaded(data)).images == Load(w, userId, Loaded(data)).images
    ensures Load(v, userId, Loaded(data)).images == if data.Some? then data.value else []
  {
  }

  /** A failed load keeps the images that were shown and reports the error. */
  lemma LoadFailureKeepsImages(v: View, userId: Option<string>)
    requires !NoUser(userId)
    ensures Load(v, userId, LoadFailed).images == v.images
    ensures Load(v, userId, LoadFailed).error == LoadError
  {
  }

  /**
   * A successful delete removes exactly the images with that id (keeping the
   * order of the rest, by `WithoutIdAppend`). A selection of that image is
   * cleared; any other selection, or none, is left as it is.
   */
  lemma DeleteRemovesExactly(v: View, id: string)
    ensures var r := Delete(v, id, Deleted);
      && r.images == WithoutId(v.images, id)
      && (forall x :: x in r.images <==> x in v.images && x.id != id)
      && (r.selectedImage.Some? ==> r.selectedImage.value.id != id)
      && (v.selectedImage.Some? && v.selectedImage.value.id == id ==> r.selectedImage.None?)
      && (v.selectedImage.Some? && v.selectedImage.value.id != id ==> r.selectedImage == v.selectedImage)
      && (v.selectedImage.None? ==> r.selectedImage.None?)
      && r.error == v.error
  {
    WithoutIdMembers(v.images, id);
  }

  /** A failed delete changes neither the images nor the selection. */
  lemma DeleteFailureKeepsState(v: View, id: string)
    ensures var r := Delete(v, id, DeleteFailed);
      r.images == v.images && r.selectedImage == v.selectedImage && r.error == DeleteError
  {
  }

  /** Deleting the same id twice is the same as deleting it once. */
  lemma DeleteIdempotent(v: View, id: string)
    ensures Delete(Delete(v, id, Deleted), id, Deleted) == Delete(v, id, Deleted)
  {
    WithoutIdIdempotent(v.images, id);
  }

  /**
   * The state cells survive a change of user: when the new user's load fails,
   * or there is no new user, the previous user's images and selection stay.
   */
  lemma SwitchKeepsPreviousUser(v: View, newUserId: Option<string>, result: LoadResult)
    requires NoUser(newUserId) || result == LoadFailed
    ensures var r := Load(v, newUserId, result);
      r.images == v.images && r.selectedImage == v.selectedImage
    ensures NoUser(newUserId) ==> Load(v, newUserId, result).error == v.error
  {
  }

  /** Whatever reload the listener triggers is exactly a `loadImages` step. */
  lemma UpdateMatchesLoad(v: View, userId: Option<string>, result: LoadResult)
    ensures Update(v, userId, userId, result) == Load(v, userId, result)
  {
  }

  // ---------------------------------------------------------------------------
  // The component
  // ---------------------------------------------------------------------------

  /**
   * The gallery component, holding its state cells and the current `userId`
   * prop. The prop can change while the component stays mounted; the state
   * cells then keep their values.
   */
  class ImageGallery {
    var userId: Option<string>
    var images: seq<GalleryImage>
    var loading: bool
    var error: string
    var selectedImage: Option<GalleryImage>
    var isDeleting: Option<string>

    /** The current state as a value. */
    function State(): View
      reads this
    {
      View(images, loading, error, selectedImage, isDeleting)
    }

    /** Mounting: no images yet, loading, no error, nothing selected or being deleted. */
    constructor(userId: Option<string>)
      ensures this.userId == userId && State() == Initial
    {
      this.userId := userId;
      images := [];
      loading := true;
      error := [];
      selectedImage := None;
      isDeleting := None;
    }

    /**
     * `loadImages`. Returns the user id the images are fetched for, or
     * `None` when nothing is fetched.
     */
    method LoadImages(result: LoadResult) returns (fetchedFor: Option<string>)
      modifies this
      ensures userId == old(userId)
      ensures fetchedFor == if NoUser(userId) then None else userId
      ensures State() == Load(old(State()), userId, result)
    {
      if NoUser(userId) {
        loading := false;
        return None;
      }
      loading := true;
      fetchedFor := userId;
      match result {
        case LoadFailed =>
          error := LoadError;
        case Loaded(data) =>
          images := if data.None? then [] else data.value;
      }
      loading := false;
    }

    /** `handleDelete(id)`; `result` is what the backend answers. */
    method HandleDelete(id: string, result: DeleteResult)
      modifies this
      ensures userId == old(userId)
      ensures State() == Delete(old(State()), id, result)
    {
      isDeleting := Some(id);
      match result {
        case DeleteFailed =>
          error := DeleteError;
        case Deleted =>
          images := WithoutId(images, id);
          if selectedImage.Some? && selectedImage.value.id == id {
            selectedImage := None;
          }
      }
      isDeleting := None;
    }

    /** Clicking an image in the grid. */
    method SelectImage(image: GalleryImage)
      modifies this
      ensures userId == old(userId)
      ensures State() == Select(old(State()), image)
    {
      selectedImage := Some(image);
    }

    /** The close button of the detail panel. */
    method DeselectImage()
      modifies this
      ensures userId == old(userId)
      ensures State() == Deselect(old(State()))
    {
      selectedImage := None;
    }

    /**
     * The `gallery:update` listener, for an event naming `eventUserId`.
     * Returns whether it reloaded.
     */
    method HandleGalleryUpdate(eventUserId: Option<string>, result: LoadResult) returns (reloaded: bool)
      modifies this
      ensures userId == old(userId)
      ensures reloaded <==> eventUserId == userId
      ensures State() == Update(old(State()), userId, eventUserId, result)
    {
      reloaded := eventUserId == userId;
      if reloaded {
        var _ := LoadImages(result);
      }
    }

    /**
     * A new `userId` prop: the effects run again, so the images are loaded
     * for the new user (and the listener now answers to the new id). The
     * state cells are not reset, so when that load fails, or there is no new
     * user, the previous user's images and selection remain. A failed load
     * sets the load error message; with no new user the error remains too.
     */
    method ChangeUser(newUserId: Option<string>, result: LoadResult) returns (fetchedFor: Option<string>)
      modifies this
      ensures userId == newUserId
      ensures fetchedFor == if NoUser(newUserId) then None else newUserId
      ensures State() == Load(old(State()), newUserId, result)
    {
      userId := newUserId;
      fetchedFor := LoadImages(result);
    }

    /** The copy button: the stored prompt of the selected image, not the shown one. */
    method CopyPrompt() returns (copied: Option<string>)
      ensures selectedImage.None? ==> copied.None?
      ensures selectedImage.Some? ==> copied == Some(selectedImage.value.prompt)
    {
      copied := if selectedImage.Some? then Some(selectedImage.value.prompt) else None;
    }
  }
}
