/** The curriculum of a course and the meaning of `get_video_links`, stated without counters:
    each video lecture's numbers are fixed by the items before it, then the range filter
    and the resolver thin the list out without renumbering it. */
module Curriculum {
  import opened Basics
  import opened RangeFilter
  import opened Sources
  import opened Subsequence

  type LectureId = int

  /** One element of the curriculum list, told apart by its `__class`; `Other` is any other
      class (quizzes, for one). A lecture's `id` is `None` when the key is missing. */
  datatype Item =
    | Chapter(title: string)
    | Lecture(title: string, id: Option<LectureId>, assetType: string)
    | Other

  /** Only lectures whose `assetType` is exactly "Video" take part in the walk. */
  predicate IsVideo(item: Item) {
    item.Lecture? && item.assetType == "Video"
  }

  /** An item that changes neither counter. */
  predicate IsInert(item: Item) {
    !item.Chapter? && !IsVideo(item)
  }

  /** A video lecture with the numbers the walk gives it. `chapter` is the title of the
      enclosing chapter, `None` before the first chapter item. */
  datatype NumberedLecture = NumberedLecture(
    chapter: Option<string>,
    chapterNumber: nat,
    lectureNumber: nat,
    title: string,
    id: Option<LectureId>)

  /** One entry of the returned `video_list`: a numbered lecture and its resolved URL. */
  datatype VideoRecord = VideoRecord(lecture: NumberedLecture, videoUrl: Option<string>)

  function LecturesOf(rs: seq<VideoRecord>): (ls: seq<NumberedLecture>)
    ensures |ls| == |rs| && forall k :: 0 <= k < |rs| ==> ls[k] == rs[k].lecture
  {
    seq(|rs|, k requires 0 <= k < |rs| => rs[k].lecture)
  }

  // Reference definitions over a prefix `p` of the curriculum, read from its last item back.

  /** Number of chapter items in `p`. */
  function ChapterCount(p: seq<Item>): nat {
    if |p| == 0 then 0
    else ChapterCount(p[..|p| - 1]) + (if p[|p| - 1].Chapter? then 1 else 0)
  }

  /** Number of video lectures in `p`. */
  function CountVideos(p: seq<Item>): nat {
    if |p| == 0 then 0
    else CountVideos(p[..|p| - 1]) + (if IsVideo(p[|p| - 1]) then 1 else 0)
  }

  /** Title of the last chapter item in `p`. */
  function ChapterTitle(p: seq<Item>): Option<string> {
    if |p| == 0 then None
    else if p[|p| - 1].Chapter? then Some(p[|p| - 1].title)
    else ChapterTitle(p[..|p| - 1])
  }

  /** Number of video lectures after the last chapter item of `p` (all of them if there is none). */
  function VideosSinceChapter(p: seq<Item>): nat {
    if |p| == 0 then 0
    else if p[|p| - 1].Chapter? then 0
    else VideosSinceChapter(p[..|p| - 1]) + (if IsVideo(p[|p| - 1]) then 1 else 0)
  }

  /** The number the next video lecture after `p` gets: one more than the videos since the
      last chapter item, or, before any chapter item, just the count of videos so far. */
  function LectureNumber(p: seq<Item>): nat {
    if ChapterCount(p) == 0 then VideosSinceChapter(p) else 1 + VideosSinceChapter(p)
  }

  /** Every video lecture of `items`, in order, numbered by the items before it. */
  function Numbered(items: seq<Item>): (r: seq<NumberedLecture>)
    ensures |r| == CountVideos(items)
  {
    if |items| == 0 then []
    else
      var p := items[..|items| - 1];
      var item := items[|items| - 1];
      if IsVideo(item) then
        Numbered(p) + [NumberedLecture(ChapterTitle(p), ChapterCount(p), LectureNumber(p), item.title, item.id)]
      else
        Numbered(p)
  }

  predicate Accepts(b: Bounds, l: NumberedLecture) {
    ValidLecture(l.chapterNumber, l.lectureNumber, b)
  }

  /** The lectures the range filter accepts, in order. */
  function Select(ls: seq<NumberedLecture>, b: Bounds): (r: seq<NumberedLecture>)
    ensures IsSubsequence(r, ls)
    ensures forall k :: 0 <= k < |r| ==> Accepts(b, r[k])
    ensures forall x :: x in ls && Accepts(b, x) ==> x in r
  {
    if |ls| == 0 then []
    else
      var rest := Select(ls[1..], b);
      if Accepts(b, ls[0]) then
        assert ([ls[0]] + rest)[1..] == rest;
        [ls[0]] + rest
      else
        assert ls == [ls[0]] + ls[1..];
        ConsKeepsSubsequence(rest, ls[1..], ls[0]);
        rest
  }

  /** What the `try` block makes of a selected lecture: a missing `id` raises `KeyError`
      before the resolver is called, otherwise the resolver decides. */
  function Outcome(l: NumberedLecture, resolve: LectureId -> Resolution): Resolution {
    match l.id
    case None => Raised
    case Some(id) => resolve(id)
  }

  /** A selected lecture without an `id` is dropped like one whose resolution raises. */
  lemma MissingIdDropped(a: seq<NumberedLecture>, x: NumberedLecture, c: seq<NumberedLecture>, resolve: LectureId -> Resolution)
    requires x.id.None?
    ensures Resolve(a + [x] + c, resolve) == Resolve(a, resolve) + Resolve(c, resolve)
  {
    ResolveOneLecture(a, x, c, resolve);
  }

  /** Each lecture paired with its resolved URL; a lecture whose `try` block raises is dropped. */
  function Resolve(ls: seq<NumberedLecture>, resolve: LectureId -> Resolution): (r: seq<VideoRecord>)
    ensures IsSubsequence(LecturesOf(r), ls)
    ensures forall k :: 0 <= k < |r| ==> Outcome(r[k].lecture, resolve) == Resolved(r[k].videoUrl)
    ensures forall x :: x in ls && Outcome(x, resolve).Resolved? ==> x in LecturesOf(r)
  {
    if |ls| == 0 then []
    else
      var rest := Resolve(ls[1..], resolve);
      match Outcome(ls[0], resolve)
      case Resolved(url) =>
        var r := [VideoRecord(ls[0], url)] + rest;
        assert LecturesOf(r) == [ls[0]] + LecturesOf(rest);
        assert LecturesOf(r)[1..] == LecturesOf(rest);
        r
      case Raised =>
        assert ls == [ls[0]] + ls[1..];
        ConsKeepsSubsequence(LecturesOf(rest), ls[1..], ls[0]);
        rest
  }

  /** What `get_video_links` returns: numbering first, then the range filter, then resolution. */
  function ExpectedVideoList(items: seq<Item>, b: Bounds, resolve: LectureId -> Resolution): seq<VideoRecord> {
    Resolve(Select(Numbered(items), b), resolve)
  }

  /** Filtering distributes over concatenation. */
  lemma {:induction false} SelectAppend(a: seq<NumberedLecture>, c: seq<NumberedLecture>, b: Bounds)
    ensures Select(a + c, b) == Select(a, b) + Select(c, b)
  {
    if |a| > 0 {
      assert (a + c)[1..] == a[1..] + c;
      SelectAppend(a[1..], c, b);
    } else {
      assert a + c == c;
    }
  }

  /** Resolution distributes over concatenation. */
  lemma {:induction false} ResolveAppend(a: seq<NumberedLecture>, c: seq<NumberedLecture>, resolve: LectureId -> Resolution)
    ensures Resolve(a + c, resolve) == Resolve(a, resolve) + Resolve(c, resolve)
  {
    if |a| > 0 {
      assert (a + c)[1..] == a[1..] + c;
      ResolveAppend(a[1..], c, resolve);
    } else {
      assert a + c == c;
    }
  }

  /** A lecture whose resolution raises disappears and nothing else changes; any other
      lecture stays in its place with its URL, `None` included. */
  lemma ResolveOneLecture(a: seq<NumberedLecture>, x: NumberedLecture, c: seq<NumberedLecture>, resolve: LectureId -> Resolution)
    ensures Outcome(x, resolve) == Raised ==>
      Resolve(a + [x] + c, resolve) == Resolve(a, resolve) + Resolve(c, resolve)
    ensures Outcome(x, resolve).Resolved? ==>
      Resolve(a + [x] + c, resolve) == Resolve(a, resolve) + [VideoRecord(x, Outcome(x, resolve).url)] + Resolve(c, resolve)
  {
    var left := Resolve(a + [x], resolve);
    ResolveAppend(a + [x], c, resolve);
    ResolveAppend(a, [x], resolve);
    ResolveSingle(x, resolve);
    if Outcome(x, resolve) == Raised {
      assert left == Resolve(a, resolve);
    } else {
      assert left == Resolve(a, resolve) + [VideoRecord(x, Outcome(x, resolve).url)];
    }
  }

  lemma ResolveSingle(x: NumberedLecture, resolve: LectureId -> Resolution)
    ensures Resolve([x], resolve) == if Outcome(x, resolve) == Raised then [] else [VideoRecord(x, Outcome(x, resolve).url)]
  {
    assert [x][1..] == [];
  }

  /** When nothing raises, every lecture comes back, in place, with its URL. */
  lemma {:induction false} ResolveWithoutFailures(ls: seq<NumberedLecture>, resolve: LectureId -> Resolution)
    requires forall k :: 0 <= k < |ls| ==> Outcome(ls[k], resolve).Resolved?
    ensures |Resolve(ls, resolve)| == |ls|
    ensures forall k :: 0 <= k < |ls| ==> Resolve(ls, resolve)[k] == VideoRecord(ls[k], Outcome(ls[k], resolve).url)
  {
    if |ls| > 0 {
      ResolveWithoutFailures(ls[1..], resolve);
    }
  }

  /** Without bounds the filter keeps everything. */
  lemma {:induction false} SelectUnbounded(ls: seq<NumberedLecture>)
    ensures Select(ls, Unbounded) == ls
  {
    if |ls| > 0 {
      SelectUnbounded(ls[1..]);
    }
  }

  /** The output is an order-preserving subsequence of the numbered video lectures, and each
      of its entries passes the filter with the numbers its position gave it. */
  lemma OutputIsSubsequence(items: seq<Item>, b: Bounds, resolve: LectureId -> Resolution)
    ensures IsSubsequence(LecturesOf(ExpectedVideoList(items, b, resolve)), Numbered(items))
    ensures forall r :: r in ExpectedVideoList(items, b, resolve) ==> Accepts(b, r.lecture)
  {
    var selected := Select(Numbered(items), b);
    var out := Resolve(selected, resolve);
    SubsequenceTransitive(LecturesOf(out), selected, Numbered(items));
    forall r | r in out
      ensures Accepts(b, r.lecture)
    {
      var k :| 0 <= k < |out| && out[k] == r;
      SubsequenceMembers(LecturesOf(out), selected, k);
    }
  }

  /** The numbered list of a prefix is a prefix of the numbered list. */
  lemma {:induction false} NumberedPrefix(items: seq<Item>, j: nat)
    requires j <= |items|
    ensures Numbered(items[..j]) <= Numbered(items)
    decreases |items| - j
  {
    if j < |items| {
      NumberedPrefix(items, j + 1);
      assert items[..j + 1][..j] == items[..j];
    } else {
      assert items[..j] == items;
    }
  }

  /** The video lecture at position `i` is entry number `CountVideos(items[..i])` of the
      numbered list and carries the chapter title, chapter number and lecture number that the
      items before it determine. */
  lemma NumberedAt(items: seq<Item>, i: nat)
    requires i < |items| && IsVideo(items[i])
    ensures CountVideos(items[..i]) < |Numbered(items)|
    ensures Numbered(items)[CountVideos(items[..i])] ==
      NumberedLecture(ChapterTitle(items[..i]), ChapterCount(items[..i]), LectureNumber(items[..i]),
        items[i].title, items[i].id)
  {
    NumberedPrefix(items, i + 1);
    assert items[..i + 1][..i] == items[..i];
  }

  /** Inside a chapter: right after chapter item `title`, with no chapter item since, the
      chapter number is one more than before it and the next video lecture is number
      1 + (video lectures since the chapter item). */
  lemma {:induction false} NumberingInsideChapter(a: seq<Item>, title: string, c: seq<Item>)
    requires forall k :: 0 <= k < |c| ==> !c[k].Chapter?
    ensures ChapterCount(a + [Chapter(title)] + c) == ChapterCount(a) + 1
    ensures ChapterTitle(a + [Chapter(title)] + c) == Some(title)
    ensures LectureNumber(a + [Chapter(title)] + c) == 1 + CountVideos(c)
    decreases |c|
  {
    var p := a + [Chapter(title)] + c;
    if |c| == 0 {
      assert p[..|p| - 1] == a;
    } else {
      assert p[..|p| - 1] == a + [Chapter(title)] + c[..|c| - 1];
      NumberingInsideChapter(a, title, c[..|c| - 1]);
    }
  }

  /** Before the first chapter item the chapter number is 0, there is no chapter title, and
      video lectures are numbered from 0. */
  lemma {:induction false} NumberingBeforeFirstChapter(c: seq<Item>)
    requires forall k :: 0 <= k < |c| ==> !c[k].Chapter?
    ensures ChapterCount(c) == 0 && ChapterTitle(c) == None
    ensures LectureNumber(c) == CountVideos(c)
    decreases |c|
  {
    if |c| > 0 {
      NumberingBeforeFirstChapter(c[..|c| - 1]);
    }
  }

  /** An item that is neither a chapter nor a video lecture can be removed without changing
      any counter. */
  lemma {:induction false} InertItemKeepsCounters(a: seq<Item>, x: Item, c: seq<Item>)
    requires IsInert(x)
    ensures ChapterCount(a + [x] + c) == ChapterCount(a + c)
    ensures ChapterTitle(a + [x] + c) == ChapterTitle(a + c)
    ensures VideosSinceChapter(a + [x] + c) == VideosSinceChapter(a + c)
    decreases |c|
  {
    var p := a + [x] + c;
    var q := a + c;
    if |c| == 0 {
      assert p[..|p| - 1] == a;
      assert q == a;
    } else {
      assert p[..|p| - 1] == a + [x] + c[..|c| - 1];
      assert q[..|q| - 1] == a + c[..|c| - 1];
      InertItemKeepsCounters(a, x, c[..|c| - 1]);
    }
  }

  /** Nor does removing it change any number or the numbered list. */
  lemma {:induction false} InertItemIgnored(a: seq<Item>, x: Item, c: seq<Item>)
    requires IsInert(x)
    ensures ChapterCount(a + [x] + c) == ChapterCount(a + c)
    ensures ChapterTitle(a + [x] + c) == ChapterTitle(a + c)
    ensures VideosSinceChapter(a + [x] + c) == VideosSinceChapter(a + c)
    ensures Numbered(a + [x] + c) == Numbered(a + c)
    decreases |c|
  {
    InertItemKeepsCounters(a, x, c);
    var p := a + [x] + c;
    var q := a + c;
    if |c| == 0 {
      assert p[..|p| - 1] == a;
      assert q == a;
    } else {
      var c' := c[..|c| - 1];
      assert p[..|p| - 1] == a + [x] + c';
      assert q[..|q| - 1] == a + c';
      assert p[|p| - 1] == q[|q| - 1];
      InertItemIgnored(a, x, c');
    }
  }

  /** Neither does such an item change what the walk returns, whatever the bounds and the
      resolver. */
  lemma InertItemChangesNoOutput(a: seq<Item>, x: Item, c: seq<Item>, b: Bounds, resolve: LectureId -> Resolution)
    requires IsInert(x)
    ensures ExpectedVideoList(a + [x] + c, b, resolve) == ExpectedVideoList(a + c, b, resolve)
  {
    InertItemIgnored(a, x, c);
  }

  /** How the numbers of the last numbered lecture relate to the counters after `p`: either
      it is in the current chapter and the next lecture number follows it, or a chapter item
      has come since and no video lecture after it. */
  lemma {:induction false} LastNumberedInvariant(p: seq<Item>)
    requires |Numbered(p)| > 0
    ensures var last := Numbered(p)[|Numbered(p)| - 1];
      || (last.chapterNumber == ChapterCount(p) && LectureNumber(p) == last.lectureNumber + 1)
      || (last.chapterNumber < ChapterCount(p) && VideosSinceChapter(p) == 0)
  {
    var q := p[..|p| - 1];
    var item := p[|p| - 1];
    if !IsVideo(item) {
      LastNumberedInvariant(q);
    } else if |Numbered(q)| > 0 {
      LastNumberedInvariant(q);
    }
  }

  /** Consecutive video lectures: the next one either stays in the chapter and takes the next
      lecture number, or sits in a later chapter and is lecture 1 there. The very first one is
      lecture 1 of its chapter, or lecture 0 of chapter 0 when no chapter item precedes it. */
  lemma NextLectureNumbering(p: seq<Item>, x: Item)
    requires IsVideo(x)
    ensures var next := Numbered(p + [x])[|Numbered(p + [x])| - 1];
      if |Numbered(p)| == 0 then
        (next.chapterNumber == 0 && next.lectureNumber == 0) ||
        (next.chapterNumber >= 1 && next.lectureNumber == 1)
      else
        var last := Numbered(p)[|Numbered(p)| - 1];
        (next.chapterNumber == last.chapterNumber && next.lectureNumber == last.lectureNumber + 1) ||
        (next.chapterNumber > last.chapterNumber && next.lectureNumber == 1)
  {
    assert (p + [x])[..|p + [x]| - 1] == p;
    if |Numbered(p)| == 0 {
      VideosSinceChapterAtMostCount(p);
    } else {
      LastNumberedInvariant(p);
    }
  }

  lemma {:induction false} VideosSinceChapterAtMostCount(p: seq<Item>)
    ensures VideosSinceChapter(p) <= CountVideos(p)
  {
    if |p| > 0 {
      VideosSinceChapterAtMostCount(p[..|p| - 1]);
    }
  }

  /** A worked curriculum: two chapters with one video each and a trailing non-video
      lecture give two entries, each lecture 1 of its chapter. */
  lemma TwoChapterExample()
    ensures Numbered([Chapter("Intro"), Lecture("Welcome", Some(1), "Video"), Chapter("Basics"),
                      Lecture("Setup", Some(2), "Video"), Lecture("Quiz 1", Some(3), "Quiz")]) ==
      [NumberedLecture(Some("Intro"), 1, 1, "Welcome", Some(1)), NumberedLecture(Some("Basics"), 2, 1, "Setup", Some(2))]
  {
    var items := [Chapter("Intro"), Lecture("Welcome", Some(1), "Video"), Chapter("Basics"),
                  Lecture("Setup", Some(2), "Video"), Lecture("Quiz 1", Some(3), "Quiz")];
    assert items[..5][..4] == items[..4];
    assert items[..4][..3] == items[..3];
    assert items[..3][..2] == items[..2];
    assert items[..2][..1] == items[..1];
    assert items[..1][..0] == [];
    assert Numbered(items[..1]) == [];
    assert ChapterCount(items[..1]) == 1 && LectureNumber(items[..1]) == 1;
    assert Numbered(items[..2]) == [NumberedLecture(Some("Intro"), 1, 1, "Welcome", Some(1))];
    assert ChapterCount(items[..3]) == 2 && LectureNumber(items[..3]) == 1;
    assert Numbered(items[..4]) == Numbered(items[..3]) + [NumberedLecture(Some("Basics"), 2, 1, "Setup", Some(2))];
    assert items[..5] == items;
  }
}
