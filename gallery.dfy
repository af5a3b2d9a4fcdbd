/**
 * The photo gallery modal: a current image index that moves cyclically
 * over the gallery images with the arrow keys and with horizontal swipes
 * longer than 50 pixels.
 */
module Gallery {
  import Arithmetic

  /** The list initializeGallery assigns to galleryImages. */
  const Images: seq<string> := [
    "./assets/IMG_3094.JPG",
    "./assets/IMG_3096.JPG",
    "./assets/IMG_3207.JPG",
    "./assets/IMG_3212.JPG",
    "./assets/IMG_3217.JPG",
    "./assets/IMG_3222.JPG"
  ]

  /** A swipe moves the gallery only when it is longer than this many pixels. */
  const SwipeThreshold: int := 50

  /** nextImage's index arithmetic: (i + 1) % n. */
  function Next(i: int, n: int): (r: int)
    requires 0 <= i < n
    ensures 0 <= r < n
    ensures i < n - 1 ==> r == i + 1
    ensures i == n - 1 ==> r == 0
  {
    (i + 1) % n
  }

  /** prevImage's index arithmetic: (i - 1 + n) % n. */
  function Prev(i: int, n: int): (r: int)
    requires 0 <= i < n
    ensures 0 <= r < n
    ensures i > 0 ==> r == i - 1
    ensures i == 0 ==> r == n - 1
  {
    (i - 1 + n) % n
  }

  /** Stepping back undoes stepping forward, and the other way round. */
  lemma NextPrevInverse(i: int, n: int)
    requires 0 <= i < n
    ensures Prev(Next(i, n), n) == i
    ensures Next(Prev(i, n), n) == i
  {
  }

  /** The index after k successive nextImage calls starting from i. */
  function NextTimes(i: int, n: int, k: nat): (r: int)
    requires 0 <= i < n
    ensures 0 <= r < n
  {
    if k == 0 then i else Next(NextTimes(i, n, k - 1), n)
  }

  /** k steps forward land on (i + k) mod n. */
  lemma {:induction false} NextTimesIsModular(i: int, n: int, k: nat)
    requires 0 <= i < n
    ensures NextTimes(i, n, k) == (i + k) % n
  {
    if k > 0 {
      NextTimesIsModular(i, n, k - 1);
      ModStep(i + k - 1, n);
    }
  }

  lemma ModStep(a: int, n: int)
    requires a >= 0 && n > 0
    ensures Next(a % n, n) == (a + 1) % n
  {
    var q, r := a / n, a % n;
    assert a == q * n + r;
    if r + 1 < n {
      assert a + 1 == q * n + (r + 1);
      Arithmetic.DivModOf(a + 1, q, r + 1, n);
    } else {
      assert a + 1 == (q + 1) * n;
      Arithmetic.DivModOf(a + 1, q + 1, 0, n);
    }
  }

  /** n successive nextImage calls return to the starting image. */
  lemma FullCycle(i: int, n: int)
    requires 0 <= i < n
    ensures NextTimes(i, n, n) == i
  {
    NextTimesIsModular(i, n, n);
    Arithmetic.DivModOf(i + n, 1, i, n);
  }

  datatype Swipe = Stay | ToNext | ToPrev

  /** handleGallerySwipe's decision on diff = start - end. */
  function SwipeDecision(startX: int, endX: int): (s: Swipe)
    ensures s == Stay <==> -SwipeThreshold <= startX - endX <= SwipeThreshold
    ensures s == ToNext <==> startX - endX > SwipeThreshold
    ensures s == ToPrev <==> startX - endX < -SwipeThreshold
  {
    var diff := startX - endX;
    var magnitude := if diff < 0 then -diff else diff;
    if magnitude > SwipeThreshold then
      if diff > 0 then ToNext else ToPrev
    else Stay
  }

  /** The index a swipe leads to. */
  function AfterSwipe(s: Swipe, i: int, n: int): (r: int)
    requires 0 <= i < n
    ensures 0 <= r < n
  {
    match s
    case Stay => i
    case ToNext => Next(i, n)
    case ToPrev => Prev(i, n)
  }

  /** A swipe followed by the same swipe in the opposite direction shows the starting image again. */
  lemma SwipeBack(startX: int, endX: int, i: int, n: int)
    requires 0 <= i < n
    ensures AfterSwipe(SwipeDecision(endX, startX), AfterSwipe(SwipeDecision(startX, endX), i, n), n) == i
  {
    NextPrevInverse(i, n);
  }

  class Gallery {
    /** The global galleryImages. */
    var images: seq<string>
    /** The global currentImageIndex. */
    var currentImageIndex: int
    /** Whether the modal has class "active" (and its keydown listener is registered). */
    var modalOpen: bool
    /** The src attribute of the modal image. */
    var modalSrc: string

    /** The index points at an image, and an open modal shows that image. */
    ghost predicate Valid()
      reads this
    {
      |images| > 0 && 0 <= currentImageIndex < |images| &&
      (modalOpen ==> modalSrc == images[currentImageIndex])
    }

    /** The globals after initializeGallery has filled in the image list. */
    constructor ()
      ensures Valid()
      ensures images == Images && currentImageIndex == 0 && !modalOpen
    {
      images := Images;
      currentImageIndex := 0;
      modalOpen := false;
      modalSrc := "";
    }

    /** openGallery(index) */
    method OpenGallery(index: int)
      requires Valid() && 0 <= index < |images|
      modifies this
      ensures Valid() && images == old(images)
      ensures currentImageIndex == index && modalSrc == images[index] && modalOpen
    {
      currentImageIndex := index;
      modalSrc := images[currentImageIndex];
      modalOpen := true;
    }

    /** closeGallery */
    method CloseGallery()
      modifies this`modalOpen
      ensures !modalOpen
    {
      modalOpen := false;
    }

    /** prevImage, then updateModalImage. */
    method PrevImage()
      requires Valid()
      modifies this`currentImageIndex, this`modalSrc
      ensures Valid()
      ensures currentImageIndex == Prev(old(currentImageIndex), |images|)
      ensures modalSrc == images[currentImageIndex]
    {
      currentImageIndex := (currentImageIndex - 1 + |images|) % |images|;
      modalSrc := images[currentImageIndex];
    }

    /** nextImage, then updateModalImage. */
    method NextImage()
      requires Valid()
      modifies this`currentImageIndex, this`modalSrc
      ensures Valid()
      ensures currentImageIndex == Next(old(currentImageIndex), |images|)
      ensures modalSrc == images[currentImageIndex]
    {
      currentImageIndex := (currentImageIndex + 1) % |images|;
      modalSrc := images[currentImageIndex];
    }

    /** handleGallerySwipe for a touch that started at startX and ended at endX. */
    method HandleGallerySwipe(startX: int, endX: int)
      requires Valid()
      modifies this`currentImageIndex, this`modalSrc
      ensures Valid()
      ensures images == old(images) && modalOpen == old(modalOpen)
      ensures currentImageIndex ==
        AfterSwipe(SwipeDecision(startX, endX), old(currentImageIndex), |images|)
      ensures SwipeDecision(startX, endX) != Stay ==> modalSrc == images[currentImageIndex]
      ensures -SwipeThreshold <= startX - endX <= SwipeThreshold ==> unchanged(this)
    {
      var diff := startX - endX;
      if (if diff < 0 then -diff else diff) > SwipeThreshold {
        if diff > 0 {
          NextImage();
        } else {
          PrevImage();
        }
      }
    }

    /**
     * A keydown on the document: the gallery's own listener (registered while
     * the modal is open) handles the arrows and Escape; the page-wide listener
     * also closes the gallery on Escape.
     */
    method KeyDown(key: string)
      requires Valid()
      modifies this`currentImageIndex, this`modalSrc, this`modalOpen
      ensures Valid()
      ensures images == old(images)
      ensures key == "ArrowLeft" && old(modalOpen) ==>
        currentImageIndex == Prev(old(currentImageIndex), |images|) && modalOpen &&
        modalSrc == images[currentImageIndex]
      ensures key == "ArrowRight" && old(modalOpen) ==>
        currentImageIndex == Next(old(currentImageIndex), |images|) && modalOpen &&
        modalSrc == images[currentImageIndex]
      ensures key == "Escape" ==>
        !modalOpen && currentImageIndex == old(currentImageIndex) && modalSrc == old(modalSrc)
      ensures key != "Escape" && (!old(modalOpen) || (key != "ArrowLeft" && key != "ArrowRight")) ==>
        unchanged(this)
    {
      if modalOpen {
        if key == "ArrowLeft" {
          PrevImage();
        } else if key == "ArrowRight" {
          NextImage();
        } else if key == "Escape" {
          CloseGallery();
        }
      }
      if key == "Escape" {
        CloseGallery();
      }
    }
  }
}
