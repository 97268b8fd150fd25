/** The product image gallery (src/components/ProductGallery.tsx): cyclic
    navigation over the image list and the two pieces of state the key and
    click handlers change, the active image and whether the preview is open. */
module Gallery {
  import opened Wrappers

  datatype Direction = Prev | Next

  // ---------------------------------------------------------------------------
  // Index arithmetic

  /** `images.indexOf(active)`: the first position holding the active image,
      or -1. An absent image (`undefined`) is found nowhere. */
  function IndexOf(images: seq<string>, active: Option<string>): (r: int)
    ensures -1 <= r < |images|
    ensures r >= 0 ==> active.Some? && images[r] == active.value
    ensures r >= 0 ==> forall j | 0 <= j < r :: images[j] != active.value
    ensures r == -1 <==> active.None? || active.value !in images
  {
    if active.None? then -1 else IndexFrom(images, active.value, 0)
  }

  /** The first position at or after `from` holding `x`, or -1. */
  function IndexFrom(images: seq<string>, x: string, from: nat): (r: int)
    requires from <= |images|
    ensures r == -1 || from <= r < |images|
    ensures r >= 0 ==> images[r] == x && forall j | from <= j < r :: images[j] != x
    ensures r == -1 <==> forall j | from <= j < |images| :: images[j] != x
    decreases |images| - from
  {
    if from == |images| then -1
    else if images[from] == x then from
    else IndexFrom(images, x, from + 1)
  }

  /** `newIndex` in `navigateImage`: one step back or forward from
      `current` over `count` images, wrapping at both ends. */
  function NewIndex(dir: Direction, current: int, count: int): int {
    match dir
    case Prev => if current > 0 then current - 1 else count - 1
    case Next => if current < count - 1 then current + 1 else 0
  }

  /** `images[i]`, which is `undefined` outside the list. */
  function ImageAt(images: seq<string>, i: int): (r: Option<string>)
    ensures r.Some? <==> 0 <= i < |images|
    ensures r.Some? ==> r.value == images[i]
  {
    if 0 <= i < |images| then Some(images[i]) else None
  }

  /** The image `navigateImage(dir)` makes active. */
  function Navigate(images: seq<string>, active: Option<string>, dir: Direction): Option<string> {
    ImageAt(images, NewIndex(dir, IndexOf(images, active), |images|))
  }

  /** `x % n` for `x` below twice the count: at most one wrap. */
  lemma WrapOnce(x: int, n: int)
    requires 0 <= x < 2 * n
    ensures x % n == if x < n then x else x - n
  {
  }

  /** On a position of the list a step is addition modulo the count. */
  lemma NewIndexIsModular(i: int, n: int)
    requires 0 <= i < n
    ensures NewIndex(Next, i, n) == (i + 1) % n
    ensures NewIndex(Prev, i, n) == (i - 1 + n) % n
  {
    WrapOnce(i + 1, n);
    WrapOnce(i - 1 + n, n);
  }

  /** From any index the list has, or from -1 for an image not in it, a step
      lands inside the list: from -1 forward goes to the first image and back
      to the last. */
  lemma NewIndexInRange(dir: Direction, i: int, n: int)
    requires n > 0 && -1 <= i < n
    ensures 0 <= NewIndex(dir, i, n) < n
    ensures i == -1 ==> NewIndex(Next, i, n) == 0 && NewIndex(Prev, i, n) == n - 1
  {
  }

  /** On a non-empty list navigation always yields one of its images, even
      when the active image is not in the list; an empty list gives none. */
  lemma NavigateStaysInList(images: seq<string>, active: Option<string>, dir: Direction)
    ensures |images| > 0 ==> Navigate(images, active, dir).Some? && Navigate(images, active, dir).value in images
    ensures |images| == 0 ==> Navigate(images, active, dir).None?
    ensures |images| > 0 && IndexOf(images, active) == -1 ==>
              Navigate(images, active, dir) == Some(if dir == Next then images[0] else images[|images| - 1])
  {
    if |images| > 0 {
      NewIndexInRange(dir, IndexOf(images, active), |images|);
    }
  }

  /** With one image both directions keep it. */
  lemma SingleImageStays(images: seq<string>, active: Option<string>, dir: Direction)
    requires |images| == 1
    ensures Navigate(images, active, dir) == Some(images[0])
  {
    NavigateStaysInList(images, active, dir);
  }

  predicate Distinct(images: seq<string>) {
    forall i, j | 0 <= i < j < |images| :: images[i] != images[j]
  }

  /** In a list without repeats an image is found where it stands. */
  lemma IndexOfDistinct(images: seq<string>, k: int)
    requires Distinct(images) && 0 <= k < |images|
    ensures IndexOf(images, Some(images[k])) == k
  {
  }

  /** Forward from position `k` of a list without repeats: the image at
      `(k + 1) % n`; back: the image at `(k - 1 + n) % n`. */
  lemma NavigateAt(images: seq<string>, k: int)
    requires Distinct(images) && 0 <= k < |images|
    ensures Navigate(images, Some(images[k]), Next) == Some(images[(k + 1) % |images|])
    ensures Navigate(images, Some(images[k]), Prev) == Some(images[(k - 1 + |images|) % |images|])
  {
    IndexOfDistinct(images, k);
    NewIndexIsModular(k, |images|);
  }

  /** Without repeats, back undoes forward and forward undoes back. */
  lemma NavigateInverse(images: seq<string>, k: int)
    requires Distinct(images) && 0 <= k < |images|
    ensures Navigate(images, Navigate(images, Some(images[k]), Next), Prev) == Some(images[k])
    ensures Navigate(images, Navigate(images, Some(images[k]), Prev), Next) == Some(images[k])
  {
    var n := |images|;
    NavigateAt(images, k);
    var after, before := (k + 1) % n, (k - 1 + n) % n;
    NavigateAt(images, after);
    NavigateAt(images, before);
    if k < n - 1 { assert after == k + 1; } else { assert after == 0; }
    if k > 0 { assert before == k - 1; } else { assert before == n - 1; }
  }

  /** The image reached by `steps` forward moves. */
  function ForwardTimes(images: seq<string>, active: Option<string>, steps: nat): Option<string>
    decreases steps
  {
    if steps == 0 then active else Navigate(images, ForwardTimes(images, active, steps - 1), Next)
  }

  /** Without repeats, `steps` forward moves from position `k`, up to a
      full round, reach position `(k + steps) % n`. */
  lemma ForwardTimesAt(images: seq<string>, k: int, steps: nat)
    requires Distinct(images) && 0 <= k < |images| && steps <= |images|
    ensures ForwardTimes(images, Some(images[k]), steps) == Some(images[(k + steps) % |images|])
  {
    ForwardTimesWrapped(images, k, steps);
    WrapOnce(k + steps, |images|);
  }

  /** `ForwardTimesAt` with the one possible wrap written out. */
  lemma {:induction false} ForwardTimesWrapped(images: seq<string>, k: int, steps: nat)
    requires Distinct(images) && 0 <= k < |images| && steps <= |images|
    ensures var p := k + steps;
            ForwardTimes(images, Some(images[k]), steps) == Some(images[if p < |images| then p else p - |images|])
    decreases steps
  {
    if steps > 0 {
      var n := |images|;
      ForwardTimesWrapped(images, k, steps - 1);
      var j := if k + steps - 1 < n then k + steps - 1 else k + steps - 1 - n;
      IndexOfDistinct(images, j);
      assert Navigate(images, Some(images[j]), Next) == Some(images[if j < n - 1 then j + 1 else 0]);
    }
  }

  /** Without repeats, as many forward moves as there are images return to the start. */
  lemma FullCycleReturns(images: seq<string>, k: int)
    requires Distinct(images) && 0 <= k < |images|
    ensures ForwardTimes(images, Some(images[k]), |images|) == Some(images[k])
  {
    ForwardTimesWrapped(images, k, |images|);
  }

  // ---------------------------------------------------------------------------
  // The component's state

  /** The state of one `ProductGallery`: its images (a prop, fixed here),
      the active image and whether the full-screen preview is open. */
  class GalleryView {
    const images: seq<string>
    var activeImage: Option<string>
    var isPreviewOpen: bool

    /** The active image is one of the list's whenever the list has any; the
        preview opens only from the rendered gallery, so never over an empty list. */
    ghost predicate Valid()
      reads this
    {
      && (|images| > 0 ==> activeImage.Some? && activeImage.value in images)
      && (isPreviewOpen ==> |images| > 0)
    }

    /** `useState(images[0])` and `useState(false)`. */
    constructor (images: seq<string>)
      ensures this.images == images
      ensures activeImage == ImageAt(images, 0) && !isPreviewOpen
      ensures Valid()
    {
      this.images := images;
      activeImage := ImageAt(images, 0);
      isPreviewOpen := false;
    }

    /** `currentIndex` and the preview's `{currentIndex + 1} / {images.length}`. */
    function Counter(): (c: (int, int))
      reads this
      requires Valid()
      ensures c.1 == |images|
      ensures |images| > 0 ==> 1 <= c.0 <= c.1 && images[c.0 - 1] == activeImage.value
    {
      (IndexOf(images, activeImage) + 1, |images|)
    }

    /** `navigateImage(dir)`, reached from the arrow buttons and the arrow keys. */
    method NavigateImage(dir: Direction)
      requires Valid()
      modifies this
      ensures Valid()
      ensures activeImage == Navigate(images, old(activeImage), dir)
      ensures isPreviewOpen == old(isPreviewOpen)
    {
      var currentIdx := IndexOf(images, activeImage);
      var newIndex;
      if dir == Prev {
        newIndex := if currentIdx > 0 then currentIdx - 1 else |images| - 1;
      } else {
        newIndex := if currentIdx < |images| - 1 then currentIdx + 1 else 0;
      }
      NavigateStaysInList(images, activeImage, dir);
      activeImage := ImageAt(images, newIndex);
    }

    /** `handleKeyDown`: with the preview closed every key is ignored; with
        it open Escape closes it and the arrows step through the images. */
    method HandleKeyDown(key: string)
      requires Valid()
      modifies this
      ensures Valid()
      ensures !old(isPreviewOpen) ==> activeImage == old(activeImage) && !isPreviewOpen
      ensures old(isPreviewOpen) && key == "Escape" ==> activeImage == old(activeImage) && !isPreviewOpen
      ensures old(isPreviewOpen) && key == "ArrowLeft" ==> activeImage == Navigate(images, old(activeImage), Prev) && isPreviewOpen
      ensures old(isPreviewOpen) && key == "ArrowRight" ==> activeImage == Navigate(images, old(activeImage), Next) && isPreviewOpen
      ensures key !in {"Escape", "ArrowLeft", "ArrowRight"} ==> activeImage == old(activeImage) && isPreviewOpen == old(isPreviewOpen)
    {
      if !isPreviewOpen {
        return;
      }
      if key == "Escape" {
        isPreviewOpen := false;
      } else if key == "ArrowLeft" {
        NavigateImage(Prev);
      } else if key == "ArrowRight" {
        NavigateImage(Next);
      }
    }

    /** A click on the main image opens the preview. */
    method OpenPreview()
      requires Valid() && |images| > 0
      modifies this
      ensures Valid()
      ensures isPreviewOpen && activeImage == old(activeImage)
    {
      isPreviewOpen := true;
    }

    /** The close button or a click on the backdrop closes the preview. */
    method ClosePreview()
      requires Valid()
      modifies this
      ensures Valid()
      ensures !isPreviewOpen && activeImage == old(activeImage)
    {
      isPreviewOpen := false;
    }

    /** A click on thumbnail `index` makes its image active. */
    method SelectThumbnail(index: nat)
      requires Valid() && index < |images|
      modifies this
      ensures Valid()
      ensures activeImage == Some(images[index]) && isPreviewOpen == old(isPreviewOpen)
    {
      activeImage := Some(images[index]);
    }
  }
}
