/**
 * The tag-input widget's rendering window: how many tags, counted from the
 * front of the list, are rendered. The three effects that move the count
 * and the "+N more" badge are pure functions of the count and the list
 * length; scroll geometry enters only through the two predicates below.
 */
module VisibleWindow {
  import opened Common

  /** The count the widget starts with. */
  const InitialCount: nat := 200
  /** Growth per scroll event that lands near the bottom. */
  const ScrollStep: nat := 200
  /** Growth per check that finds the content not filling the container. */
  const FillStep: nat := 100
  /** The count the window falls back to when the list shrinks below it. */
  const ResetCount: nat := 100
  /** Pixels of content left below the viewport that count as "near the bottom". */
  const NearBottomPixels: int := 100

  function Min(a: nat, b: nat): nat {
    if a <= b then a else b
  }

  /** The scroll handler's test on the container's geometry. */
  predicate NearBottom(scrollHeight: int, scrollTop: int, clientHeight: int) {
    scrollHeight - scrollTop - clientHeight < NearBottomPixels
  }

  /** The fill check's test: the content has no scrollbar to drag. */
  predicate ContentFits(scrollHeight: int, clientHeight: int) {
    scrollHeight <= clientHeight
  }

  /** A scroll event: near the bottom and with tags left to show, grow by one scroll step. */
  function OnScroll(v: nat, len: nat, nearBottom: bool): (r: nat)
    ensures r != v <==> nearBottom && v < len
    ensures v <= r
    ensures r != v ==> r <= len && (r == len || r == v + ScrollStep)
    ensures r - v <= ScrollStep
  {
    if nearBottom && v < len then Min(v + ScrollStep, len) else v
  }

  /** The fill check: when the content does not fill the container, grow by one fill step. */
  function OnFill(v: nat, len: nat, fits: bool): (r: nat)
    ensures r != v <==> fits && v < len
    ensures v <= r
    ensures r != v ==> r <= len && (r == len || r == v + FillStep)
    ensures r - v <= FillStep
  {
    if fits && v < len then Min(v + FillStep, len) else v
  }

  /** The reset effect run when the list length changes. */
  function OnLengthChange(v: nat, len: nat): (r: nat)
    ensures r < v <==> len < v
    ensures r <= v
    ensures len < v ==> r <= len && r <= ResetCount && (r == len || r == ResetCount)
  {
    if len < v then Min(ResetCount, len) else v
  }

  /** The "+N more" badge: shown exactly when tags lie beyond the window, with their number. */
  function Overflow(v: nat, len: nat): (r: Option<nat>)
    ensures r.Some? <==> v < len
    ensures r.Some? ==> r.value > 0 && v + r.value == len
  {
    if len > v then Some(len - v) else None
  }

  /** The number of tags `value.slice(0, v)` renders. */
  function RenderedCount(v: nat, len: nat): (r: nat)
    ensures r <= len && r <= v
    ensures r == len || r == v
  {
    Min(v, len)
  }

  /** A scroll event grows the window exactly when fewer than 100 pixels are left below the viewport and tags are hidden. */
  lemma ScrollGeometry(v: nat, len: nat, scrollHeight: int, scrollTop: int, clientHeight: int)
    ensures OnScroll(v, len, NearBottom(scrollHeight, scrollTop, clientHeight)) != v
      <==> scrollHeight - scrollTop - clientHeight < 100 && v < len
  {
  }

  /** The fill check grows the window exactly when the content is no taller than the container and tags are hidden. */
  lemma FillGeometry(v: nat, len: nat, scrollHeight: int, clientHeight: int)
    ensures OnFill(v, len, ContentFits(scrollHeight, clientHeight)) != v
      <==> scrollHeight <= clientHeight && v < len
  {
  }

  /** Once the window fits the list, every transition keeps it within the list. */
  lemma WindowStaysWithinList(v: nat, len: nat, nearBottom: bool, fits: bool)
    requires v <= len
    ensures OnScroll(v, len, nearBottom) <= len
    ensures OnFill(v, len, fits) <= len
    ensures OnLengthChange(v, len) == v
  {
  }

  /** `n` consecutive scroll events near the bottom. */
  function ScrollTimes(v: nat, len: nat, n: nat): nat
    decreases n
  {
    if n == 0 then v else ScrollTimes(OnScroll(v, len, true), len, n - 1)
  }

  /**
   * Scrolling is safe to repeat: `n` near-bottom events show
   * `min(v + n * ScrollStep, len)` tags, so enough of them show the whole list
   * and any further ones change nothing.
   */
  lemma {:induction false} ScrollTimesReaches(v: nat, len: nat, n: nat)
    requires v <= len
    ensures ScrollTimes(v, len, n) == Min(v + n * ScrollStep, len)
    decreases n
  {
    if n > 0 {
      var v' := OnScroll(v, len, true);
      ScrollTimesReaches(v', len, n - 1);
      if v' == len {
        assert Min(v' + (n - 1) * ScrollStep, len) == len;
      } else {
        assert v' == v + ScrollStep;
        assert v' + (n - 1) * ScrollStep == v + n * ScrollStep;
      }
    }
  }

  /** A list of 250 tags at the initial count: the badge shows 50, one scroll shows all. */
  lemma Scenario250()
    ensures OnLengthChange(InitialCount, 250) == 200
    ensures Overflow(InitialCount, 250) == Some(50)
    ensures OnScroll(InitialCount, 250, true) == 250
    ensures Overflow(OnScroll(InitialCount, 250, true), 250) == None
  {
  }
}
