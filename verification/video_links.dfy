/** `get_video_links`: the single pass over the curriculum with its two running counters. */
module VideoLinks {
  import opened Basics
  import opened RangeFilter
  import opened Sources
  import opened Curriculum

  /** The resolver `get_video_links` uses: fetch the embed page of a lecture (abstract:
      `None` when fetching or parsing the player configuration raises), then pick a source. */
  function Resolver(fetch: LectureId -> Option<PlayerConfig>, hd: bool): LectureId -> Resolution {
    id => ParseVideoUrl(fetch(id), hd)
  }

  /** The walk as the program runs it. The chapter counter and title change on chapter items;
      the lecture counter restarts at 1 on chapter items and advances after every video
      lecture, whether the filter takes it and whether its resolution raises. The result is
      the reference pipeline: numbering that depends on the items alone, then the filter, then
      resolution. */
  method GetVideoLinks(items: seq<Item>, bounds: Bounds, resolve: LectureId -> Resolution)
    returns (videoList: seq<VideoRecord>)
    ensures videoList == Resolve(Select(Numbered(items), bounds), resolve)
  {
    var chapter: Option<string> := None;
    videoList := [];
    var lectureNumber: nat := 0;
    var chapterNumber: nat := 0;
    for i := 0 to |items|
      invariant chapter == ChapterTitle(items[..i])
      invariant chapterNumber == ChapterCount(items[..i])
      invariant lectureNumber == LectureNumber(items[..i])
      invariant videoList == Resolve(Select(Numbered(items[..i]), bounds), resolve)
    {
      var item := items[i];
      assert items[..i + 1][..i] == items[..i];
      if item.Chapter? {
        chapter := Some(item.title);
        chapterNumber := chapterNumber + 1;
        lectureNumber := 1;
      } else if item.Lecture? && item.assetType == "Video" {
        var numbered := NumberedLecture(chapter, chapterNumber, lectureNumber, item.title, item.id);
        SelectAppend(Numbered(items[..i]), [numbered], bounds);
        ResolveAppend(Select(Numbered(items[..i]), bounds), Select([numbered], bounds), resolve);
        assert [numbered][1..] == [];
        if ValidLecture(chapterNumber, lectureNumber, bounds) {
          ResolveSingle(numbered, resolve);
          match Outcome(numbered, resolve)
          case Resolved(url) =>
            videoList := videoList + [VideoRecord(numbered, url)];
          case Raised =>
        }
        lectureNumber := lectureNumber + 1;
      }
    }
    assert items[..|items|] == items;
  }
}
