/** The index arithmetic of the image lightbox
    (`src/components/ImageLightbox.tsx`): which images it shows, where it
    opens, and how the arrow keys and buttons move through them. */
module Lightbox {
  import opened Tables
  import opened Text

  /** `images.filter(Boolean)`. */
  function SafeImages(images: seq<string>): (r: seq<string>)
    ensures forall x :: x in r ==> x != [] && x in images
    ensures forall x :: x in images && x != [] ==> x in r
  {
    Where(images, Truthy)
  }

  /** Nothing is drawn when closed or when no image survives the filter. */
  predicate Visible(open: bool, safe: seq<string>) {
    open && |safe| > 0
  }

  /** The arrow buttons are drawn only with two images or more. */
  predicate CanNavigate(safe: seq<string>) {
    |safe| > 1
  }

  /** `Math.max(0, Math.min(len - 1, initialIndex || 0))`. */
  function StartIndex(len: nat, initialIndex: int): (r: nat)
    ensures len > 0 ==> r < len
    ensures 0 <= initialIndex < len ==> r == initialIndex
    ensures len == 0 ==> r == 0
    ensures initialIndex < 0 ==> r == 0
    ensures len > 0 && initialIndex >= len ==> r == len - 1
  {
    var m := if len - 1 < initialIndex then len - 1 else initialIndex;
    if m < 0 then 0 else m
  }

  /** JavaScript's `%`, which truncates toward zero. */
  function JsRem(a: int, n: int): (r: int)
    requires n > 0
    ensures a >= 0 ==> r == a % n
    ensures -n < r < n
  {
    if a >= 0 then a % n else -((-a) % n)
  }

  function Max1(len: nat): (m: nat)
    ensures m >= 1 && (len >= 1 ==> m == len)
  {
    if len < 1 then 1 else len
  }

  /** ArrowLeft: `(v - 1 + len) % Math.max(1, len)`. */
  function KeyPrev(v: int, len: nat): int {
    JsRem(v - 1 + len, Max1(len))
  }

  /** ArrowRight: `(v + 1) % Math.max(1, len)`. */
  function KeyNext(v: int, len: nat): int {
    JsRem(v + 1, Max1(len))
  }

  lemma ModSmall(a: int, n: int)
    requires 0 <= a < n
    ensures a % n == a
  {
  }

  /** The keys keep a valid index valid, and move it by one step around
      the ring. */
  lemma KeysStayInRange(v: int, len: nat)
    requires 0 <= v < len
    ensures KeyNext(v, len) == if v == len - 1 then 0 else v + 1
    ensures KeyPrev(v, len) == if v == 0 then len - 1 else v - 1
  {
    NextStep(v, len);
    PrevStep(v, len);
  }

  lemma NextStep(v: int, len: nat)
    requires 0 <= v < len
    ensures KeyNext(v, len) == if v == len - 1 then 0 else v + 1
  {
    if v < len - 1 {
      ModSmall(v + 1, len);
    }
  }

  lemma PrevStep(v: int, len: nat)
    requires 0 <= v < len
    ensures KeyPrev(v, len) == if v == 0 then len - 1 else v - 1
  {
    if v > 0 {
      assert v - 1 + len == (v - 1) + 1 * len;
    } else {
      ModSmall(len - 1, len);
    }
  }

  /** With no image at all the keys leave the index at 0. */
  lemma KeysOnEmpty()
    ensures KeyPrev(0, 0) == 0 && KeyNext(0, 0) == 0
  {
  }

  /** The previous button: `(v - 1 + len) % len`, drawn only when
      navigation is possible. */
  function ButtonPrev(v: int, len: nat): int
    requires len > 1
  {
    JsRem(v - 1 + len, len)
  }

  /** The next button: `(v + 1) % len`. */
  function ButtonNext(v: int, len: nat): int
    requires len > 1
  {
    JsRem(v + 1, len)
  }

  /** Wherever the buttons are drawn they agree with the keys. */
  lemma ButtonsMatchKeys(v: int, len: nat)
    requires len > 1 && 0 <= v < len
    ensures ButtonPrev(v, len) == KeyPrev(v, len) && ButtonNext(v, len) == KeyNext(v, len)
  {
  }

  /** Previous then next, or next then previous, comes back to the same
      image. */
  lemma PrevNextInverse(v: int, len: nat)
    requires 0 <= v < len
    ensures KeyNext(KeyPrev(v, len), len) == v
    ensures KeyPrev(KeyNext(v, len), len) == v
  {
    KeysStayInRange(v, len);
    KeysStayInRange(KeyPrev(v, len), len);
    KeysStayInRange(KeyNext(v, len), len);
  }

  /** `k` presses of ArrowRight. */
  function NextTimes(v: int, len: nat, k: nat): int
    decreases k
  {
    if k == 0 then v else KeyNext(NextTimes(v, len, k - 1), len)
  }

  /** Before the last image the presses just count up. */
  lemma {:induction false} NextTimesCountsUp(v: int, len: nat, k: nat)
    requires 0 <= v && v + k < len
    ensures NextTimes(v, len, k) == v + k
    decreases k
  {
    if k > 0 {
      NextTimesCountsUp(v, len, k - 1);
      KeysStayInRange(v + k - 1, len);
    }
  }

  lemma {:induction false} NextTimesCompose(v: int, len: nat, a: nat, b: nat)
    ensures NextTimes(v, len, a + b) == NextTimes(NextTimes(v, len, a), len, b)
    decreases b
  {
    if b > 0 {
      NextTimesCompose(v, len, a, b - 1);
    }
  }

  /** Going once around the ring returns to the starting image. */
  lemma FullCircle(v: int, len: nat)
    requires 0 <= v < len
    ensures NextTimes(v, len, len) == v
  {
    NextTimesCountsUp(v, len, len - v - 1);
    KeysStayInRange(len - 1, len);
    assert NextTimes(v, len, len - v) == 0;
    NextTimesCompose(v, len, len - v, v);
    NextTimesCountsUp(0, len, v);
  }
}
