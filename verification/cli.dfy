/** The range options of `main`: Python's `int()` on each, the ordered sequence of checks that
    either rejects with a message or yields the bounds, and the default output folder. */
module Cli {
  import opened Basics
  import opened Decimal
  import opened Text
  import opened RangeFilter
  import opened Naming

  // Python's int() on a string, restricted to ASCII digits.

  predicate IsDigitOrUnderscore(c: char) {
    IsDigit(c) || c == '_'
  }

  /** The digit part `int()` accepts in base 10: digits, each underscore standing alone
      between two digits; leading zeros are allowed. */
  predicate WellFormedDigits(d: string) {
    && |d| > 0
    && IsDigit(d[0])
    && IsDigit(d[|d| - 1])
    && (forall i :: 0 <= i < |d| ==> IsDigitOrUnderscore(d[i]))
    && (forall i :: 0 <= i < |d| - 1 && d[i] == '_' ==> d[i + 1] != '_')
  }

  function RemoveUnderscores(d: string): (r: string)
    requires forall i :: 0 <= i < |d| ==> IsDigitOrUnderscore(d[i])
    ensures AllDigits(r) && |r| <= |d|
  {
    if |d| == 0 then []
    else if d[0] == '_' then RemoveUnderscores(d[1..])
    else
      assert IsDigitOrUnderscore(d[0]);
      [d[0]] + RemoveUnderscores(d[1..])
  }

  lemma {:induction false} RemoveUnderscoresNone(d: string)
    requires AllDigits(d)
    ensures RemoveUnderscores(d) == d
  {
    if |d| > 0 {
      RemoveUnderscoresNone(d[1..]);
    }
  }

  function ParseUnsigned(d: string): Option<nat> {
    if WellFormedDigits(d) then Some(Value(RemoveUnderscores(d))) else None
  }

  /** The whitespace `int()` skips around the number: the C `isspace` set (tab, line feed,
      vertical tab, form feed, carriage return, space) and every non-ASCII character that
      `str.isspace` accepts, which CPython turns into a space before parsing. The ASCII
      separators U+001C to U+001F are whitespace to `str.isspace` but not to `int()`. */
  predicate IntSpace(c: char) {
    IsSpace(c) && !('\U{1C}' <= c <= '\U{1F}')
  }

  /** `int(s)`: surrounding whitespace is ignored, then one optional sign and the digits. */
  function ParseInt(s: string): Option<int> {
    ParseSigned(StripBy(s, IntSpace))
  }

  /** Whatever `int()` accepts, once trimmed, starts with a digit or a sign and ends with a
      digit, and a negative number is written with a minus sign. */
  lemma ParseIntShape(s: string)
    ensures ParseInt(s).Some? ==> var t := StripBy(s, IntSpace);
      && |t| > 0 && (IsDigit(t[0]) || t[0] == '+' || t[0] == '-') && IsDigit(t[|t| - 1])
      && (ParseInt(s).value < 0 ==> t[0] == '-')
  {
  }

  function ParseSigned(t: string): Option<int> {
    if |t| > 0 && (t[0] == '+' || t[0] == '-') then
      match ParseUnsigned(t[1..])
      case None => None
      case Some(n) => Some(if t[0] == '-' then -(n as int) else n as int)
    else
      match ParseUnsigned(t)
      case None => None
      case Some(n) => Some(n)
  }

  /** Text that starts and ends outside `int()`'s whitespace is parsed as it stands. */
  lemma ParseIntUntrimmed(t: string)
    requires |t| > 0 && !IntSpace(t[0]) && !IntSpace(t[|t| - 1])
    ensures ParseInt(t) == ParseSigned(t)
  {
    NothingToStrip(t, IntSpace);
  }

  /** Reading back the decimal spelling of a number, with or without a minus sign. */
  lemma ParseIntOfDigits(n: nat)
    ensures ParseInt(Digits(n)) == Some(n)
  {
    var d := Digits(n);
    ParseIntUntrimmed(d);
    assert ParseSigned(d) == Some(n) by {
      ParseUnsignedOfDigits(n);
    }
  }

  lemma ParseIntOfNegativeDigits(n: nat)
    ensures ParseInt("-" + Digits(n)) == Some(-(n as int))
  {
    var d := Digits(n);
    var t := "-" + d;
    assert t[|t| - 1] == d[|d| - 1];
    ParseIntUntrimmed(t);
    assert ParseSigned(t) == Some(-(n as int)) by {
      assert t[1..] == d;
      ParseUnsignedOfDigits(n);
    }
  }

  lemma ParseUnsignedOfDigits(n: nat)
    ensures ParseUnsigned(Digits(n)) == Some(n)
  {
    ValueOfDigits(n);
    RemoveUnderscoresNone(Digits(n));
  }

  /** `int()` ignores whitespace around the number. */
  lemma ParseIntIgnoresSurroundingSpace(pre: string, s: string, post: string)
    requires forall i :: 0 <= i < |pre| ==> IntSpace(pre[i])
    requires forall i :: 0 <= i < |post| ==> IntSpace(post[i])
    requires |s| > 0 && !IntSpace(s[0]) && !IntSpace(s[|s| - 1])
    ensures ParseInt(pre + s + post) == ParseInt(s)
  {
    StripBySurrounding(pre, s, post, IntSpace);
    NothingToStrip(s, IntSpace);
  }

  /** The file separator U+001C is whitespace to `str.isspace` yet `int()` refuses it in
      front of a number. */
  lemma ParseIntRefusesSeparator()
    ensures IsSpace('\U{1C}')
    ensures ParseInt("\U{1C}5") == None
  {
    var t := "\U{1C}5";
    ParseIntUntrimmed(t);
    assert ParseSigned(t) == None by {
      assert !IsDigit(t[0]);
    }
  }

  /** `int()` refuses a doubled underscore. */
  lemma ParseIntRefusesDoubleUnderscore()
    ensures ParseInt("1__0") == None
  {
    var t := "1__0";
    ParseIntUntrimmed(t);
    assert ParseSigned(t) == None by {
      assert t[1] == '_' && t[2] == '_';
    }
  }

  /** `is_integer(p) and int(p) > 0`: the option's value when it is a natural number. */
  function ParsePositive(s: string): Option<int> {
    match ParseInt(s)
    case Some(v) => if v > 0 then Some(v) else None
    case None => None
  }

  // The checks of main.

  /** The four range options as given on the command line, `None` when absent. */
  datatype RangeArgs = RangeArgs(
    chapterStart: Option<string>,
    chapterEnd: Option<string>,
    lectureStart: Option<string>,
    lectureEnd: Option<string>)

  /** Either the message `main` prints before it stops, or the validated bounds. */
  datatype Validation = Rejected(message: string) | Accepted(bounds: Bounds)

  function ParseOption(o: Option<string>): Option<int> {
    match o
    case None => None
    case Some(s) => ParsePositive(s)
  }

  /** The bounds a configuration is accepted with. */
  predicate Consistent(b: Bounds) {
    && (b.chapterStart.Some? ==> b.chapterStart.value >= 1)
    && (b.chapterEnd.Some? ==> b.chapterEnd.value >= 1)
    && (b.lectureStart.Some? ==> b.lectureStart.value >= 1)
    && (b.lectureEnd.Some? ==> b.lectureEnd.value >= 1)
    && (b.lectureStart.Some? ==> b.chapterStart.Some?)
    && (b.lectureEnd.Some? ==> b.chapterEnd.Some?)
    && (b.chapterStart.Some? && b.chapterEnd.Some? ==> b.chapterStart.value <= b.chapterEnd.value)
    && (b.lectureStart.Some? && b.lectureEnd.Some? && b.chapterStart == b.chapterEnd ==>
          b.lectureStart.value <= b.lectureEnd.value)
  }

  /** `v` is what `int()` makes of option `o`: absent stays absent, present reads as a number. */
  predicate ReadsAs(o: Option<string>, v: Option<int>) {
    match o
    case None => v.None?
    case Some(s) => v.Some? && ParseInt(s) == v
  }

  predicate ParsedAs(a: RangeArgs, b: Bounds) {
    && ReadsAs(a.chapterStart, b.chapterStart)
    && ReadsAs(a.chapterEnd, b.chapterEnd)
    && ReadsAs(a.lectureStart, b.lectureStart)
    && ReadsAs(a.lectureEnd, b.lectureEnd)
  }

  /** The validation of `main`, check by check in the program's order; the first failing
      check decides the message. Whatever it accepts is consistent and is exactly what `int()`
      reads from the options. */
  function Validate(a: RangeArgs): (v: Validation)
    ensures v.Accepted? ==> Consistent(v.bounds) && ParsedAs(a, v.bounds)
  {
    if a.chapterStart.Some? && ParsePositive(a.chapterStart.value).None? then
      Rejected("--chapter_start requires natural number argument")
    else if a.chapterEnd.Some? && ParsePositive(a.chapterEnd.value).None? then
      Rejected("--chapter_end requires natural number argument")
    else
      var cs := ParseOption(a.chapterStart);
      var ce := ParseOption(a.chapterEnd);
      if ce.Some? && cs.Some? && cs.value > ce.value then
        Rejected("--chapter-start cannot be after --chapter-end")
      else if a.lectureStart.Some? && cs.None? then
        Rejected("--lecture-start argument requires --chapter-start")
      else if a.lectureEnd.Some? && ce.None? then
        Rejected("--lecture-end argument requires --chapter-end")
      else if a.lectureStart.Some? && ParsePositive(a.lectureStart.value).None? then
        Rejected("--lecture_start requires natural number argument")
      else if a.lectureEnd.Some? && ParsePositive(a.lectureEnd.value).None? then
        Rejected("--lecture_end requires natural number argument")
      else
        var ls := ParseOption(a.lectureStart);
        var le := ParseOption(a.lectureEnd);
        if le.Some? && ls.Some? && cs == ce && ls.value > le.value then
          Rejected("--lecture-start cannot be after --lecture-end in same chapter")
        else
          Accepted(Bounds(cs, ce, ls, le))
  }

  /** Conversely, options that read as consistent bounds are accepted with those bounds, so
      `Validate` accepts exactly the consistent configurations. */
  lemma ValidateComplete(a: RangeArgs, b: Bounds)
    requires ParsedAs(a, b) && Consistent(b)
    ensures Validate(a) == Accepted(b)
  {
    assert ParseOption(a.chapterStart) == b.chapterStart;
    assert ParseOption(a.chapterEnd) == b.chapterEnd;
    assert ParseOption(a.lectureStart) == b.lectureStart;
    assert ParseOption(a.lectureEnd) == b.lectureEnd;
  }

  /** `--lecture-start` without `--chapter-start` is refused (once `--chapter-end`, if
      given, has passed its own check). */
  lemma LectureStartNeedsChapterStart(a: RangeArgs)
    requires a.chapterStart.None? && a.lectureStart.Some?
    requires a.chapterEnd.None? || ParsePositive(a.chapterEnd.value).Some?
    ensures Validate(a) == Rejected("--lecture-start argument requires --chapter-start")
  {
  }

  /** An option that is not a natural number is refused with that option's message, unless
      an earlier check already refused. */
  lemma NonPositiveChapterStartRejected(a: RangeArgs)
    ensures a.chapterStart.Some? && ParsePositive(a.chapterStart.value).None? ==>
      Validate(a) == Rejected("--chapter_start requires natural number argument")
  {
  }

  // The default output folder.

  predicate IsSlash(c: char) {
    c == '/'
  }

  /** `s.rsplit('/', 1)[-1]`: the text after the last slash, all of `s` if it has none. */
  function LastSegment(s: string): (seg: string)
    ensures |seg| <= |s| && seg == s[|s| - |seg|..]
    ensures '/' !in seg
    ensures |seg| < |s| ==> s[|s| - |seg| - 1] == '/'
  {
    if |s| == 0 then []
    else if s[|s| - 1] == '/' then []
    else
      var init := LastSegment(s[..|s| - 1]);
      assert s[..|s| - 1][|s| - 1 - |init|..] == s[|s| - 1 - |init|..|s| - 1];
      init + [s[|s| - 1]]
  }

  /** The folder used when no `-o` is given: `./` and the last path segment of the link once
      its trailing slashes are stripped. `None` when that link has no slash left, where
      `rsplit('/', 1)[1]` raises. */
  function DefaultOutputDir(link: string): (dir: Option<string>)
    ensures var l := RStripBy(link, IsSlash);
      && (dir.None? <==> '/' !in l)
      && (dir.Some? ==>
            && |dir.value| > 2 && dir.value[..2] == "./"
            && var seg := dir.value[2..];
            && '/' !in seg
            && |seg| < |l| && l == l[..|l| - |seg| - 1] + "/" + seg)
  {
    var l := RStripBy(link, IsSlash);
    if '/' in l then
      var seg := LastSegment(l);
      assert |seg| < |l|;
      assert |seg| > 0 by {
        assert l[|l| - 1] != '/';
      }
      assert l == l[..|l| - |seg| - 1] + "/" + seg;
      var dir := JoinPath(".", seg);
      assert dir == "./" + seg;
      assert dir[2..] == seg;
      Some(dir)
    else
      None
  }
}
