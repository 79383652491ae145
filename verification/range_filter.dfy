/** `valid_lecture`: the inclusive chapter-by-lecture window a download is restricted to. */
module RangeFilter {
  import opened Basics

  /** The four optional bounds, as `main` hands them on; `None` leaves that side open. */
  datatype Bounds = Bounds(
    chapterStart: Option<int>,
    chapterEnd: Option<int>,
    lectureStart: Option<int>,
    lectureEnd: Option<int>)

  const Unbounded := Bounds(None, None, None, None)

  /** `(chapter, lecture)` is at or after the start coordinate in reading order; a missing
      lecture start stands for the beginning of the start chapter. */
  predicate AtOrAfterStart(chapter: int, lecture: int, b: Bounds) {
    match b.chapterStart
    case None => true
    case Some(cs) =>
      chapter > cs || (chapter == cs && (b.lectureStart.None? || lecture >= b.lectureStart.value))
  }

  /** `(chapter, lecture)` is at or before the end coordinate in reading order; a missing
      lecture end stands for the end of the end chapter. */
  predicate AtOrBeforeEnd(chapter: int, lecture: int, b: Bounds) {
    match b.chapterEnd
    case None => true
    case Some(ce) =>
      chapter < ce || (chapter == ce && (b.lectureEnd.None? || lecture <= b.lectureEnd.value))
  }

  /** The filter as written: reject below the start, then reject above the end, else accept.
      A lecture bound is consulted only when its chapter bound is set and equals `chapter`. */
  function ValidLecture(chapter: int, lecture: int, b: Bounds): (accepted: bool)
    ensures accepted <==> AtOrAfterStart(chapter, lecture, b) && AtOrBeforeEnd(chapter, lecture, b)
  {
    if b.chapterStart.Some? && (chapter < b.chapterStart.value ||
        (chapter == b.chapterStart.value && b.lectureStart.Some? && lecture < b.lectureStart.value)) then
      false
    else if b.chapterEnd.Some? && (chapter > b.chapterEnd.value ||
        (chapter == b.chapterEnd.value && b.lectureEnd.Some? && lecture > b.lectureEnd.value)) then
      false
    else
      true
  }

  /** The four ways to be rejected, and nothing else. */
  lemma RejectedExactly(chapter: int, lecture: int, b: Bounds)
    ensures !ValidLecture(chapter, lecture, b) <==>
      || (b.chapterStart.Some? && chapter < b.chapterStart.value)
      || (b.chapterStart.Some? && chapter == b.chapterStart.value && b.lectureStart.Some? && lecture < b.lectureStart.value)
      || (b.chapterEnd.Some? && chapter > b.chapterEnd.value)
      || (b.chapterEnd.Some? && chapter == b.chapterEnd.value && b.lectureEnd.Some? && lecture > b.lectureEnd.value)
  {
  }

  /** With no bounds at all every lecture is accepted. */
  lemma UnboundedAcceptsAll(chapter: int, lecture: int)
    ensures ValidLecture(chapter, lecture, Unbounded)
  {
  }

  /** A lecture bound without its chapter bound is ignored. */
  lemma LectureBoundNeedsChapterBound(chapter: int, lecture: int, b: Bounds)
    ensures b.chapterStart.None? ==>
      ValidLecture(chapter, lecture, b) == ValidLecture(chapter, lecture, b.(lectureStart := None))
    ensures b.chapterEnd.None? ==>
      ValidLecture(chapter, lecture, b) == ValidLecture(chapter, lecture, b.(lectureEnd := None))
  {
  }

  /** Lexicographic reading order on (chapter, lecture) coordinates. */
  predicate ReadingOrderLe(c1: int, l1: int, c2: int, l2: int) {
    c1 < c2 || (c1 == c2 && l1 <= l2)
  }

  /** The accepted coordinates form an interval of reading order: anything between two
      accepted coordinates is accepted too. */
  lemma AcceptedIsInterval(c1: int, l1: int, c: int, l: int, c2: int, l2: int, b: Bounds)
    requires ValidLecture(c1, l1, b) && ValidLecture(c2, l2, b)
    requires ReadingOrderLe(c1, l1, c, l) && ReadingOrderLe(c, l, c2, l2)
    ensures ValidLecture(c, l, b)
  {
  }

  /** Both ends are inclusive: start `(2, 3)` and end `(2, 5)` select lectures 3, 4 and 5 of
      chapter 2 and nothing else. */
  lemma SingleChapterWindow(chapter: int, lecture: int)
    ensures ValidLecture(chapter, lecture, Bounds(Some(2), Some(2), Some(3), Some(5))) <==>
      chapter == 2 && 3 <= lecture <= 5
  {
  }
}
