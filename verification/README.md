# udemy-dl: curriculum walk, range filter and naming

A Dafny model of the decision logic of `udemy_dl.py`, a command-line tool that
downloads the videos of a purchased Udemy course. The model covers the pure
part of the tool:

- **Range filter** (`valid_lecture`). It decides whether a `(chapter, lecture)`
  coordinate lies inside the inclusive window given by `--chapter-start`,
  `--chapter-end`, `--lecture-start` and `--lecture-end`.
- **Curriculum walk** (`get_video_links`). It makes one pass over the course's
  flat list of curriculum items. It keeps a chapter counter and a lecture
  counter, filters video lectures by range and resolves each one to a URL.
- **Source selection** (the tail of `parse_video_url`). It picks a video file
  from the player configuration, preferring a "720"/"HD" label when asked.
- **Naming** (`sanitize_path` and the `'%02d %s'` / `'%03d %s.mp4'` names in
  `udemy_dl`). These give the directory and file each lecture is saved to.
- **Option validation** (`main`). The ordered checks on the four range options
  either print a message and stop, or yield validated integer bounds. The
  default output folder is modelled too.

Modules: `Basics` (Option), `Subsequence`, `Decimal` (`%d`, `%0Nd`, digit
values), `Text` (Python's whitespace, `in` on strings, `strip`/`rstrip`),
`RangeFilter`, `Sources`, `Curriculum` (what the walk returns, stated without
counters), `VideoLinks` (the walk with the program's counters), `Naming` and
`Cli`.

The central result is `VideoLinks.GetVideoLinks`. It runs the loop with the
program's counters. Its contract says the result equals
`Resolve(Select(Numbered(items), bounds), resolve)`:

- `Numbered` takes only the items. Each video lecture's numbers come from
  counting the items before it.
- `Select` applies the range filter.
- `Resolve` drops the lectures whose resolution raises.

So numbering cannot depend on the bounds or on failures.

Assumptions:

- The network is abstract. The walk takes a resolver `LectureId -> Resolution`,
  which returns `Resolved(url)` (the URL may be Python's `None`) or `Raised`.
  `VideoLinks.Resolver` builds the program's resolver from an abstract page
  fetch (`None` when fetching the embed page, matching the player call or
  parsing its JSON raises) and `Sources.SelectSource`.
- `str.isalpha` and `str.isdigit` are restricted to ASCII letters and digits.
- Whitespace is the full set of characters Python's `str.isspace` accepts.
- `int()` follows CPython 3.6 to 3.10 on ASCII digits. It skips surrounding
  whitespace, accepts one optional sign, then digits with single underscores
  between them. Leading zeros are allowed. Its whitespace is the C `isspace`
  set plus the non-ASCII characters `str.isspace` accepts. The separators
  U+001C to U+001F count as whitespace for `strip()` but not for `int()`.
- Every chapter has a `title`, every lecture has an `assetType`, and every
  video lecture has a `title`. A lecture's `id` may be missing. A non-video
  lecture's `title` is never read (line 111 is reached only for videos).
- `os.path.join` (lines 182 and 259) is POSIX's `posixpath.join`, modelled
  by `Naming.JoinPath`. It adds a `/` unless the first part is empty or
  already ends in `/`, and an absolute second part replaces the first.

Behaviour that may surprise a reader:

- Video lectures before the first chapter item get chapter number 0 and
  lecture numbers counted from 0. `lecture_number` starts at 0, and only a
  chapter item sets it to 1. Numbers are otherwise 1-based. The directory of
  such a lecture is `00 None`.
- A lecture whose URL resolves to `None` is still returned. Only a raised
  exception drops a lecture.
- Every failed check in `main` calls bare `sys.exit()`, which exits with
  status 0. The model records the message, not an exit status.
- A selected video lecture with no `id` raises `KeyError` inside the `try`
  (line 114). The bare `except` drops only that lecture, the walk goes on,
  and the lecture counter still advances. The model drops it the same way,
  as `Curriculum.MissingIdDropped` states.
- Any other missing key (`__class`, a chapter's `title`, a lecture's
  `assetType` or a video lecture's `title`) raises outside the `try` and ends
  the whole walk.
  The model has no such items.
- An empty `playlist` or an empty `sources` list raises `IndexError`. Only a
  missing key gives `None`.

## Model

| member | source | states |
|---|---|---|
| RangeFilter.ValidLecture | src/udemy_dl/udemy_dl.py:126-131 | a coordinate is accepted exactly when it lies at or after the start coordinate and at or before the end coordinate in reading order; a missing lecture bound stands for the beginning or end of its chapter |
| RangeFilter.RejectedExactly | src/udemy_dl/udemy_dl.py:126-131 | the filter rejects exactly in four cases: chapter below the start chapter; at the start chapter with a lecture start and a lower lecture; above the end chapter; at the end chapter with a lecture end and a higher lecture |
| RangeFilter.UnboundedAcceptsAll | src/udemy_dl/udemy_dl.py:126-131 | with all four bounds absent every coordinate is accepted |
| RangeFilter.LectureBoundNeedsChapterBound | src/udemy_dl/udemy_dl.py:127-129 | a lecture bound whose chapter bound is absent has no effect |
| RangeFilter.AcceptedIsInterval | src/udemy_dl/udemy_dl.py:126-131 | any coordinate between two accepted coordinates in reading order is accepted |
| RangeFilter.SingleChapterWindow | src/udemy_dl/udemy_dl.py:126-131 | start (2,3) and end (2,5) accept exactly lectures 3, 4 and 5 of chapter 2 |
| Sources.FirstHd | src/udemy_dl/udemy_dl.py:83-85 | returns the index of the first source whose label contains "720" or "HD", and none exactly when no label does |
| Sources.ChosenSourceUnique | src/udemy_dl/udemy_dl.py:82-89 | the source the selection rule settles on is unique |
| Sources.SelectSource | src/udemy_dl/udemy_dl.py:81-92 | no playlist key or no sources key gives None; an empty playlist or empty source list raises; otherwise the file of the chosen source is returned: the first high-definition one when hd is set and one exists, else the first |
| Sources.StandardTakesFirst | src/udemy_dl/udemy_dl.py:87-89 | without hd the first source's file is returned |
| Sources.HdFallsBackToFirst | src/udemy_dl/udemy_dl.py:82-89 | with hd and no high-definition label the first source's file is returned |
| Sources.ParseVideoUrl | src/udemy_dl/udemy_dl.py:72-92 | it raises exactly when the page fetch or parse fails, the playlist is empty or the first entry's source list is empty; it returns None exactly when the `playlist` key or the first entry's `sources` key is missing; otherwise it returns the file of the chosen source |
| Curriculum.Numbered | src/udemy_dl/udemy_dl.py:102-123 | one numbered entry per video lecture of the curriculum, no more and no fewer |
| Curriculum.Select | src/udemy_dl/udemy_dl.py:112 | the kept lectures are an order-preserving subsequence, each accepted by the range filter, and no accepted lecture is lost |
| Curriculum.Resolve | src/udemy_dl/udemy_dl.py:113-122 | the kept lectures are an order-preserving subsequence, each entry's URL is its lecture's resolved value, and every lecture whose `try` block does not raise is kept |
| Curriculum.MissingIdDropped | src/udemy_dl/udemy_dl.py:113-122 | a selected lecture without an `id` is removed and nothing else changes |
| Curriculum.ResolveOneLecture | src/udemy_dl/udemy_dl.py:113-122 | a lecture whose resolution raises is removed and nothing else changes; any other lecture stays in place with its URL, None included |
| Curriculum.ResolveWithoutFailures | src/udemy_dl/udemy_dl.py:113-120 | when nothing raises every lecture is returned in place with its URL |
| Curriculum.SelectUnbounded | src/udemy_dl/udemy_dl.py:112 | without bounds the filter keeps every lecture |
| Curriculum.OutputIsSubsequence | src/udemy_dl/udemy_dl.py:105-124 | the returned lectures are an order-preserving subsequence of all numbered video lectures, each accepted by the filter with its positional numbers |
| Curriculum.NumberedAt | src/udemy_dl/udemy_dl.py:105-123 | the video lecture at position i is entry number (videos before i) and carries the chapter title, chapter count and lecture number fixed by the items before it |
| Curriculum.NumberingInsideChapter | src/udemy_dl/udemy_dl.py:106-123 | after a chapter item with no later chapter item, the chapter number is one more than before it, the title is that chapter's, and the next lecture number is 1 + the video lectures since the chapter item |
| Curriculum.NumberingBeforeFirstChapter | src/udemy_dl/udemy_dl.py:99-103 | before any chapter item the chapter number is 0, the title is None and lecture numbers count from 0 |
| Curriculum.InertItemIgnored | src/udemy_dl/udemy_dl.py:105-110 | removing an item that is neither a chapter nor a video lecture changes no counter and no numbered entry |
| Curriculum.InertItemChangesNoOutput | src/udemy_dl/udemy_dl.py:105-110 | removing an item that is neither a chapter nor a video lecture leaves the returned list unchanged, for every range and resolver |
| Curriculum.NextLectureNumbering | src/udemy_dl/udemy_dl.py:106-123 | each video lecture either follows the previous one in the same chapter with the next number or starts a later chapter as lecture 1; the first one is lecture 1, or lecture 0 of chapter 0 |
| Curriculum.TwoChapterExample | src/udemy_dl/udemy_dl.py:105-123 | two chapters with one video each and a trailing non-video lecture give two entries, each lecture 1 of its chapter |
| VideoLinks.GetVideoLinks | src/udemy_dl/udemy_dl.py:95-124 | the counter-based walk returns the positional numbering, filtered by range, with raised resolutions dropped; numbering takes neither the bounds nor the resolver |
| Decimal.Digits | src/udemy_dl/udemy_dl.py:178 | `%d` spelling: non-empty, digits only, no leading zero |
| Decimal.ValueOfDigits | src/udemy_dl/udemy_dl.py:178 | reading back the spelling of n gives n |
| Decimal.ZeroPad | src/udemy_dl/udemy_dl.py:184 | `%0Nd` spelling: digits that read back as n; the length is N, or the length of n's plain spelling when that is longer; a result longer than N is exactly that plain spelling, so it has no leading zero |
| Text.RStripBy | src/udemy_dl/udemy_dl.py:135 | `rstrip`: the result is a prefix, everything removed satisfies the predicate, and the result does not end in such a character |
| Text.LStripBy | src/udemy_dl/udemy_dl.py:194 | the leading trim `int()` does: the result is a suffix, everything removed satisfies the predicate, and the result does not start with such a character |
| Text.StripBySurrounding | src/udemy_dl/udemy_dl.py:194 | trimming both ends removes exactly the dropped characters around a string whose two ends are kept |
| Naming.KeepAllowed | src/udemy_dl/udemy_dl.py:135 | the character filter yields a subsequence of the input made only of letters, digits and ` .-_,` |
| Naming.KeepAllowedAt | src/udemy_dl/udemy_dl.py:135 | each occurrence is decided on its own: the character at position i appears once, between the output of what precedes and of what follows it, if it is allowed, and not at all otherwise |
| Naming.Sanitize | src/udemy_dl/udemy_dl.py:134-135 | the result is a subsequence of the input of allowed characters with no trailing whitespace, and equals the filtered input minus exactly its trailing spaces |
| Naming.SanitizeIdempotent | src/udemy_dl/udemy_dl.py:134-135 | sanitising twice equals sanitising once |
| Naming.ChapterDirectory | src/udemy_dl/udemy_dl.py:178-179 | the directory is the 2-digit padded chapter number, then a space and the sanitised title unless that is empty; below 100 its first two characters spell the chapter number |
| Naming.LectureFileName | src/udemy_dl/udemy_dl.py:184-185 | the file name is the 3-digit padded number, a space, the filtered title and `.mp4`; it always ends in `.mp4`; below 1000 it starts with three digits spelling the number and a space |
| Naming.DownloadTarget | src/udemy_dl/udemy_dl.py:177-187 | the directory is the chapter directory when the destination folder is empty; otherwise, joined as `posixpath.join` does, it is that folder, then a `/` unless the folder already ends in one, then the chapter directory; the file name and URL are the entry's |
| Cli.ParseIntOfDigits | src/udemy_dl/udemy_dl.py:192-197 | `int()` reads back the decimal spelling of every natural number |
| Cli.ParseIntOfNegativeDigits | src/udemy_dl/udemy_dl.py:192-197 | `int()` reads `-` followed by a spelling as the negated number |
| Cli.ParseIntShape | src/udemy_dl/udemy_dl.py:194 | whatever `int()` accepts, once trimmed, starts with a digit or a sign and ends with a digit, and a negative result is written with a minus sign |
| Cli.ParseIntIgnoresSurroundingSpace | src/udemy_dl/udemy_dl.py:192-197 | `int()`'s own whitespace (the C `isspace` set and non-ASCII spaces) around the text does not change what it reads |
| Cli.ParseIntRefusesSeparator | src/udemy_dl/udemy_dl.py:192-197 | U+001C is whitespace to `str.isspace`, yet `int()` refuses it in front of a number |
| Cli.ParseIntRefusesDoubleUnderscore | src/udemy_dl/udemy_dl.py:192-197 | `1__0` is not an integer |
| Cli.Validate | src/udemy_dl/udemy_dl.py:220-252 | every accepted configuration has all set bounds at least 1, a lecture start only with a chapter start, a lecture end only with a chapter end, chapter start no later than chapter end, and in a single-chapter range lecture start no later than lecture end; each accepted bound is exactly what `int()` reads from its option |
| Cli.ValidateComplete | src/udemy_dl/udemy_dl.py:220-252 | conversely, options that read as such consistent bounds are accepted with exactly those bounds |
| Cli.LectureStartNeedsChapterStart | src/udemy_dl/udemy_dl.py:234-236 | `--lecture-start` without `--chapter-start` is refused with its message once `--chapter-end` has passed its own check |
| Cli.NonPositiveChapterStartRejected | src/udemy_dl/udemy_dl.py:220-223 | a `--chapter-start` that is not a natural number is refused first, with its message |
| Cli.LastSegment | src/udemy_dl/udemy_dl.py:259 | the text after the last slash: a slash-free suffix preceded by a slash unless it is the whole string |
| Cli.DefaultOutputDir | src/udemy_dl/udemy_dl.py:259 | after stripping trailing slashes from the link (line 214), the folder is `./` and the link's last segment, joined as `posixpath.join` does; none (the program raises) when no slash is left |

## Left out

- The `Session` class, login and the CSRF fetch (lines 20-64). These are HTTP and cookie handling.
- `get_course_id` (lines 66-69). It is regex scraping of a page.
- The fetch, the regex and the `json.loads` of the player configuration (lines 74-79). They are the abstract page fetch passed to `VideoLinks.Resolver`. JSON of unexpected shape (a non-list playlist, a source without `label` or `file`) is outside the datatypes.
- The messages printed on failure (lines 91, 122 and the `print` calls of `main`). Only the message text of `main` is kept.
- `dl_progress` (lines 143-147). It uses floating-point division and terminal control codes.
- `get_video`, `curl_dl`, `mkdir`, `urlretrieve` and the working-directory changes (lines 138-167). This is file-system and subprocess I/O, and the curl-to-urlretrieve fallback has no checkable result.
- The login, course-id and logout steps of `udemy_dl` (lines 170-175, 189). Only the naming part of its loop is modelled, as `Naming.DownloadTarget`.
- Argument parsing by `argparse`, the interactive prompts, `getpass`, `normpath`, `abspath` and the final call (lines 199-213, 215-218, 254-256, 261-272; line 214's `rstrip('/')` is part of `Cli.DefaultOutputDir`). Only the default-folder branch of the output directory is modelled.
- `Naming.IsAllowed`: `str.isalpha` and `str.isdigit` are restricted to ASCII, so non-ASCII letters and digits that Python keeps are dropped by the model.
- `Cli.ParseInt`: non-ASCII decimal digits, which Python's `int()` accepts, are refused.
- `Cli.ParseInt`: follows CPython 3.6 to 3.10. Python 2 refuses underscores between digits. CPython 3.11 and later refuse more than 4300 digits by default. The script imports `urlretrieve` for both Python 2 and Python 3 (lines 14-17), so it runs on all of these, and the model picks one.
- `Cli.ParseIntOfDigits`: claims every spelling reads back, including those over 4300 digits that CPython 3.11 and later refuse. This is because the model follows CPython 3.6 to 3.10.
- `Cli.ValidateComplete`: accepts options of any length. This is for the same reason: CPython 3.11 and later would refuse a bound written with more than 4300 digits.
- `Naming.DownloadTarget`: joins with POSIX `posixpath.join`. On Windows, `os.path.join` is `ntpath.join`, which separates with `\` and adds no separator after a folder ending in `\`, `/` or `:`. The program itself is not tied to one platform.
- `Cli.DefaultOutputDir`: for the same reason the folder is `./<segment>`. On Windows `ntpath.join('.', segment)` gives `.\<segment>`.
