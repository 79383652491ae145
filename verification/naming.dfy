/** Where a lecture is saved: `sanitize_path` and the `'%02d %s'` / `'%03d %s.mp4'` names. */
module Naming {
  import opened Basics
  import opened Decimal
  import opened Text
  import opened Subsequence
  import opened Curriculum

  /** ASCII letters; `str.isalpha` is restricted to ASCII in this model. */
  predicate IsAsciiLetter(c: char) {
    'a' <= c <= 'z' || 'A' <= c <= 'Z'
  }

  /** The characters `sanitize_path` keeps: letters, digits and ` .-_,`. */
  predicate IsAllowed(c: char) {
    IsAsciiLetter(c) || IsDigit(c) || c == ' ' || c == '.' || c == '-' || c == '_' || c == ','
  }

  /** The character filter of `sanitize_path`, before the trailing strip. */
  function KeepAllowed(s: string): (r: string)
    ensures IsSubsequence(r, s)
    ensures forall i :: 0 <= i < |r| ==> IsAllowed(r[i])
  {
    if |s| == 0 then []
    else
      var rest := KeepAllowed(s[1..]);
      if IsAllowed(s[0]) then
        assert ([s[0]] + rest)[1..] == rest;
        [s[0]] + rest
      else
        assert s == [s[0]] + s[1..];
        ConsKeepsSubsequence(rest, s[1..], s[0]);
        rest
  }

  lemma {:induction false} KeepAllowedAppend(a: string, b: string)
    ensures KeepAllowed(a + b) == KeepAllowed(a) + KeepAllowed(b)
  {
    if |a| == 0 {
      assert a + b == b;
    } else {
      assert (a + b)[1..] == a[1..] + b;
      KeepAllowedAppend(a[1..], b);
    }
  }

  /** Each occurrence is decided on its own: the character at position `i` appears in the
      output exactly once, between the output of what precedes and of what follows it, when it
      is allowed, and not at all otherwise. */
  lemma KeepAllowedAt(s: string, i: nat)
    requires i < |s|
    ensures KeepAllowed(s) ==
      KeepAllowed(s[..i]) + (if IsAllowed(s[i]) then [s[i]] else []) + KeepAllowed(s[i + 1..])
  {
    var a, x, c := s[..i], s[i], s[i + 1..];
    SplitAt(s, i);
    KeepAllowedMiddle(a, x, c);
  }

  lemma SplitAt(s: string, i: nat)
    requires i < |s|
    ensures s == s[..i] + [s[i]] + s[i + 1..]
  {
  }

  lemma KeepAllowedMiddle(a: string, x: char, c: string)
    ensures KeepAllowed(a + [x] + c) == KeepAllowed(a) + (if IsAllowed(x) then [x] else []) + KeepAllowed(c)
  {
    KeepAllowedAppend(a + [x], c);
    KeepAllowedAppend(a, [x]);
    KeepAllowedSingle(x);
  }

  lemma KeepAllowedSingle(c: char)
    ensures KeepAllowed([c]) == if IsAllowed(c) then [c] else []
  {
    assert [c][1..] == [];
  }

  /** A string of kept characters passes the filter unchanged. */
  lemma {:induction false} KeepAllowedIdentity(s: string)
    requires forall i :: 0 <= i < |s| ==> IsAllowed(s[i])
    ensures KeepAllowed(s) == s
  {
    if |s| > 0 {
      KeepAllowedIdentity(s[1..]);
    }
  }

  /** `sanitize_path`: keep letters, digits and ` .-_,`, then strip trailing whitespace. The
      result is the kept characters with exactly their trailing spaces removed. */
  function Sanitize(s: string): (r: string)
    ensures IsSubsequence(r, s)
    ensures forall i :: 0 <= i < |r| ==> IsAllowed(r[i])
    ensures |r| == 0 || !IsSpace(r[|r| - 1])
    ensures r <= KeepAllowed(s)
    ensures forall i :: |r| <= i < |KeepAllowed(s)| ==> KeepAllowed(s)[i] == ' '
  {
    var kept := KeepAllowed(s);
    var r := RStrip(kept);
    PrefixIsSubsequence(kept, |r|);
    assert kept[..|r|] == r;
    SubsequenceTransitive(r, kept, s);
    r
  }

  /** Sanitising twice is sanitising once. */
  lemma SanitizeIdempotent(s: string)
    ensures Sanitize(Sanitize(s)) == Sanitize(s)
  {
    var r := Sanitize(s);
    KeepAllowedIdentity(r);
  }

  /** How a Python `None` chapter title is spelled by `%s`. */
  function ChapterText(chapter: Option<string>): string {
    match chapter
    case Some(t) => t
    case None => "None"
  }

  /** The filter leaves a digit prefix and the separating space alone. */
  lemma KeepAllowedAfterNumber(pad: string, title: string)
    requires AllDigits(pad)
    ensures KeepAllowed(pad + " " + title) == pad + " " + KeepAllowed(title)
  {
    KeepAllowedAppend(pad + " ", title);
    KeepAllowedAppend(pad, " ");
    KeepAllowedIdentity(pad);
    KeepAllowedIdentity(" ");
  }

  /** Sanitising "<digits> <title>": the digits, then a space and the sanitised title unless
      that is empty. */
  lemma SanitizeAfterNumber(pad: string, title: string)
    requires |pad| > 0 && AllDigits(pad)
    ensures Sanitize(pad + " " + title) ==
      pad + (if Sanitize(title) == [] then [] else [' '] + Sanitize(title))
  {
    KeepAllowedAfterNumber(pad, title);
    RStripAfterNumber(pad, KeepAllowed(title));
  }

  lemma RStripAfterNumber(pad: string, kept: string)
    requires |pad| > 0 && AllDigits(pad)
    ensures RStrip(pad + " " + kept) ==
      pad + (if RStrip(kept) == [] then [] else [' '] + RStrip(kept))
  {
    var tail := [' '] + kept;
    assert pad + " " + kept == pad + tail;
    assert RStrip(pad) == pad by {
      assert IsDigit(pad[|pad| - 1]);
      RStripKeepsLastNonSpace(pad);
    }
    RStripByAppend(pad, tail, IsSpace);
    RStripSpaceThen(kept);
  }

  lemma RStripSpaceThen(kept: string)
    ensures RStrip([' '] + kept) == if RStrip(kept) == [] then [] else [' '] + RStrip(kept)
  {
    RStripByAppend([' '], kept, IsSpace);
    assert RStrip([' ']) == [] by {
      assert [' '][..0] == [];
    }
  }

  /** The sanitised `'%02d %s' % (chapter_number, chapter)`: the padded number, then a space
      and the sanitised title unless that is empty. Below chapter 100 it starts with exactly two
      digits spelling the chapter number. */
  function ChapterDirectory(chapterNumber: nat, chapter: Option<string>): (r: string)
    ensures var t := Sanitize(ChapterText(chapter));
      r == ZeroPad(chapterNumber, 2) + (if t == [] then [] else [' '] + t)
    ensures chapterNumber < 100 ==> |r| >= 2 && AllDigits(r[..2]) && Value(r[..2]) == chapterNumber
  {
    var pad := ZeroPad(chapterNumber, 2);
    SanitizeAfterNumber(pad, ChapterText(chapter));
    var r := Sanitize(pad + " " + ChapterText(chapter));
    assert r[..|pad|] == pad;
    r
  }

  /** Sanitising "<digits> <title>.mp4" keeps the digits, the space and the suffix. */
  lemma SanitizeFileName(pad: string, title: string)
    requires AllDigits(pad)
    ensures Sanitize(pad + " " + title + ".mp4") == pad + " " + KeepAllowed(title) + ".mp4"
  {
    KeepAllowedFileName(pad, title);
    RStripKeepsLastNonSpace(pad + " " + KeepAllowed(title) + ".mp4");
  }

  lemma KeepAllowedFileName(pad: string, title: string)
    requires AllDigits(pad)
    ensures KeepAllowed(pad + " " + title + ".mp4") == pad + " " + KeepAllowed(title) + ".mp4"
  {
    KeepAllowedAppend(pad + " " + title, ".mp4");
    KeepAllowedAfterNumber(pad, title);
    KeepAllowedIdentity(".mp4");
  }

  /** The sanitised `'%03d %s.mp4' % (lecture_number, lecture)`: the padded number, a space,
      the kept characters of the title and `.mp4`, which the final strip never touches. Below
      lecture 1000 it starts with exactly three digits spelling the lecture number and a space. */
  function LectureFileName(lectureNumber: nat, title: string): (r: string)
    ensures r == ZeroPad(lectureNumber, 3) + " " + KeepAllowed(title) + ".mp4"
    ensures |r| >= 4 && r[|r| - 4..] == ".mp4"
    ensures lectureNumber < 1000 ==>
      |r| >= 4 && AllDigits(r[..3]) && Value(r[..3]) == lectureNumber && r[3] == ' '
  {
    var pad := ZeroPad(lectureNumber, 3);
    SanitizeFileName(pad, title);
    var r := Sanitize(pad + " " + title + ".mp4");
    assert r[..|pad|] == pad;
    r
  }

  /** `os.path.join(a, b)` for two components, as POSIX's `posixpath.join` does it. */
  function JoinPath(a: string, b: string): string {
    if |b| > 0 && b[0] == '/' then b
    else if |a| == 0 || a[|a| - 1] == '/' then a + b
    else a + "/" + b
  }

  /** The directory, file name and URL `udemy_dl` hands to the downloader for one entry. */
  datatype Target = Target(directory: string, filename: string, videoUrl: Option<string>)

  /** One iteration of the loop in `udemy_dl`, without the download: the chapter directory,
      placed under `destDir` when that is non-empty (with a separating slash unless `destDir`
      already ends in one), and the lecture file name. */
  function DownloadTarget(r: VideoRecord, destDir: string): (t: Target)
    ensures var dir := ChapterDirectory(r.lecture.chapterNumber, r.lecture.chapter);
      t.directory ==
        if destDir == "" then dir
        else if destDir[|destDir| - 1] == '/' then destDir + dir
        else destDir + "/" + dir
    ensures t.filename == LectureFileName(r.lecture.lectureNumber, r.lecture.title)
    ensures t.videoUrl == r.videoUrl
  {
    var dir := ChapterDirectory(r.lecture.chapterNumber, r.lecture.chapter);
    assert IsDigit(dir[0]);
    Target(if destDir != "" then JoinPath(destDir, dir) else dir,
           LectureFileName(r.lecture.lectureNumber, r.lecture.title),
           r.videoUrl)
  }
}
