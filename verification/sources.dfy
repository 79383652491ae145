/** The pure tail of `parse_video_url`: picking a video file from the parsed player configuration. */
module Sources {
  import opened Basics
  import opened Text

  /** One entry of a playlist item's `sources` list: its `label` and its `file`. */
  datatype Source = Source(qualityLabel: string, file: string)

  /** A playlist item; `sources` is `None` when the key is missing. */
  datatype PlaylistEntry = PlaylistEntry(sources: Option<seq<Source>>)

  /** The player's JSON configuration; `playlist` is `None` when the key is missing. */
  datatype PlayerConfig = PlayerConfig(playlist: Option<seq<PlaylistEntry>>)

  /** What resolving one lecture yields: a URL or Python's `None`, or an exception. */
  datatype Resolution = Resolved(url: Option<string>) | Raised

  /** The high-definition heuristic: the label mentions "720" or "HD". */
  predicate IsHd(s: Source) {
    Contains(s.qualityLabel, "720") || Contains(s.qualityLabel, "HD")
  }

  /** Index of the first high-definition source, if any. */
  function FirstHd(sources: seq<Source>): (k: Option<nat>)
    ensures k.Some? ==> k.value < |sources| && IsHd(sources[k.value])
    ensures k.Some? ==> forall j :: 0 <= j < k.value ==> !IsHd(sources[j])
    ensures k.None? <==> forall j :: 0 <= j < |sources| ==> !IsHd(sources[j])
  {
    if |sources| == 0 then None
    else if IsHd(sources[0]) then Some(0)
    else
      match FirstHd(sources[1..])
      case None => None
      case Some(k) => Some(k + 1)
  }

  /** `k` is the source the program settles on: with `hd` the first high-definition one if
      there is any, otherwise the first source. */
  ghost predicate ChosenSource(sources: seq<Source>, hd: bool, k: nat) {
    k < |sources| &&
    if hd && exists j :: 0 <= j < |sources| && IsHd(sources[j]) then
      IsHd(sources[k]) && forall j :: 0 <= j < k ==> !IsHd(sources[j])
    else
      k == 0
  }

  /** The choice is unique. */
  lemma ChosenSourceUnique(sources: seq<Source>, hd: bool, k1: nat, k2: nat)
    requires ChosenSource(sources, hd, k1) && ChosenSource(sources, hd, k2)
    ensures k1 == k2
  {
  }

  /** Source selection over an already-parsed configuration.  A missing `playlist` key or a
      missing `sources` key gives `None`; an empty playlist or an empty source list raises
      (`IndexError` on `[0]`). */
  function SelectSource(config: PlayerConfig, hd: bool): (r: Resolution)
    ensures config.playlist.None? ==> r == Resolved(None)
    ensures config.playlist == Some([]) ==> r == Raised
    ensures config.playlist.Some? && |config.playlist.value| > 0 ==>
      var entry := config.playlist.value[0];
      && (entry.sources.None? ==> r == Resolved(None))
      && (entry.sources == Some([]) ==> r == Raised)
      && (entry.sources.Some? && |entry.sources.value| > 0 ==>
            exists k: nat :: ChosenSource(entry.sources.value, hd, k) &&
              r == Resolved(Some(entry.sources.value[k].file)))
  {
    if config.playlist.Some? && |config.playlist.value| == 0 then Raised
    else if config.playlist.Some? && config.playlist.value[0].sources.Some? then
      var sources := config.playlist.value[0].sources.value;
      var hdPick := if hd then FirstHd(sources) else None;
      if hdPick.Some? then Resolved(Some(sources[hdPick.value].file))
      else if |sources| == 0 then Raised
      else Resolved(Some(sources[0].file))
    else
      Resolved(None)
  }

  /** Without `hd` the first source is always taken. */
  lemma StandardTakesFirst(config: PlayerConfig, sources: seq<Source>)
    requires config.playlist.Some? && |config.playlist.value| > 0
    requires config.playlist.value[0].sources == Some(sources) && |sources| > 0
    ensures SelectSource(config, false) == Resolved(Some(sources[0].file))
  {
    assert ChosenSource(sources, false, 0);
  }

  /** With `hd` and no high-definition label the first source is the fallback. */
  lemma HdFallsBackToFirst(config: PlayerConfig, sources: seq<Source>)
    requires config.playlist.Some? && |config.playlist.value| > 0
    requires config.playlist.value[0].sources == Some(sources) && |sources| > 0
    requires forall j :: 0 <= j < |sources| ==> !IsHd(sources[j])
    ensures SelectSource(config, true) == Resolved(Some(sources[0].file))
  {
  }

  /** `parse_video_url`: `page` is the embed page's player configuration, or `None` when the
      page could not be fetched, the player call was not found or its JSON did not parse
      (each raises in the program). It raises exactly then and on an empty playlist or an
      empty first source list; it yields `None` exactly when a key is missing; otherwise it
      yields the file of the chosen source. */
  function ParseVideoUrl(page: Option<PlayerConfig>, hd: bool): (r: Resolution)
    ensures r == Raised <==>
      || page.None?
      || page.value.playlist == Some([])
      || (page.value.playlist.Some? && |page.value.playlist.value| > 0 &&
          page.value.playlist.value[0].sources == Some([]))
    ensures r == Resolved(None) <==>
      && page.Some?
      && (|| page.value.playlist.None?
          || (|page.value.playlist.value| > 0 && page.value.playlist.value[0].sources.None?))
    ensures (&& page.Some? && page.value.playlist.Some? && |page.value.playlist.value| > 0
             && page.value.playlist.value[0].sources.Some?
             && |page.value.playlist.value[0].sources.value| > 0) ==>
        var sources := page.value.playlist.value[0].sources.value;
        exists k: nat :: ChosenSource(sources, hd, k) && r == Resolved(Some(sources[k].file))
  {
    match page
    case None => Raised
    case Some(config) => SelectSource(config, hd)
  }
}
