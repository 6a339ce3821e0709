/** The video selector's live/studio classification and its filters: `MVSelector` of
    src/views/mv_selector.rs. A video name is "live" when the part after its last `" - "`
    contains both parentheses; the `MVs` filter keeps only live videos and the `Live` filter
    drops them. */
module MvSelector {
  import opened Wrappers
  import opened Sequences
  import opened Paths
  import opened Menu
  import opened AvMod

  datatype FilterType = MVs | Live

  /** The `Display` text of each filter. */
  function FilterLabel(f: FilterType): string {
    match f
    case MVs => "MVs"
    case Live => "Live"
  }

  // ----- split(" - ").last() -----------------------------------------------------------------

  const Separator: string := " - "

  /** The separator occurs in `s` starting at `i`. */
  predicate SeparatorAt(s: string, i: int) {
    0 <= i && i + |Separator| <= |s| && s[i..i + |Separator|] == Separator
  }

  /** Dropping the first character moves every separator one place to the left. */
  lemma SeparatorAtShift(s: string, i: int)
    requires 1 <= i < |s|
    ensures SeparatorAt(s, i) <==> SeparatorAt(s[1..], i - 1)
  {
    if i + |Separator| <= |s| {
      var t := s[1..];
      assert s[i..i + |Separator|] == t[i - 1..i - 1 + |Separator|];
    }
  }

  /** The first position of the separator in `s`, or -1: where `str::split`'s searcher finds
      its next match. */
  function FindSeparator(s: string): (r: int)
    ensures -1 <= r
    ensures r >= 0 ==> SeparatorAt(s, r)
    ensures forall i :: 0 <= i < |s| && (r < 0 || i < r) ==> !SeparatorAt(s, i)
    decreases |s|
  {
    if |s| < |Separator| then -1
    else if s[..|Separator|] == Separator then 0
    else
      var rest := FindSeparator(s[1..]);
      assert forall i :: 1 <= i < |s| ==> (SeparatorAt(s, i) <==> SeparatorAt(s[1..], i - 1)) by {
        forall i | 1 <= i < |s| ensures SeparatorAt(s, i) <==> SeparatorAt(s[1..], i - 1) {
          SeparatorAtShift(s, i);
        }
      }
      if rest < 0 then -1 else rest + 1
  }

  /** `s.split(" - ")`: the pieces between the matches the searcher finds scanning left to
      right, each match resuming the search just after the previous one. */
  function Split(s: string): (r: seq<string>)
    ensures r != []
    decreases |s|
  {
    var i := FindSeparator(s);
    if i < 0 then [s] else [s[..i]] + Split(s[i + |Separator|..])
  }

  /** The pieces glued back together with the separator. */
  function JoinWith(pieces: seq<string>, sep: string): string
    requires pieces != []
  {
    if |pieces| == 1 then pieces[0] else pieces[0] + sep + JoinWith(pieces[1..], sep)
  }

  /** Splitting loses nothing: the pieces joined with the separator give back the name. */
  lemma {:induction false} SplitJoin(s: string)
    ensures JoinWith(Split(s), Separator) == s
    decreases |s|
  {
    var i := FindSeparator(s);
    if i >= 0 {
      var rest := s[i + |Separator|..];
      SplitJoin(rest);
      assert Split(s) == [s[..i]] + Split(rest);
      assert s == s[..i] + Separator + rest;
    }
  }

  /** What ends the text after a separator also ends the whole text, with the separator in
      front when it ends that text right after the separator or after a later one. */
  lemma AfterSeparator(s: string, i: int, r: string)
    requires SeparatorAt(s, i)
    requires EndsWith(s[i + |Separator|..], r)
    requires r == s[i + |Separator|..] || EndsWith(s[i + |Separator|..], Separator + r)
    ensures EndsWith(s, r) && EndsWith(s, Separator + r)
  {
    var rest := s[i + |Separator|..];
    assert s[i..] == Separator + rest;
    SuffixFrom(s, i);
    SuffixFrom(s, i + |Separator|);
    EndsWithTransitive(s, rest, r);
    if r != rest {
      EndsWithTransitive(s, rest, Separator + r);
    }
  }

  /** `split(" - ").last()`, which is never `None`: the text after the last separator the
      left-to-right search finds, or the whole name when it finds none. */
  function LastSegment(s: string): (r: string)
    ensures EndsWith(s, r)
    ensures FindSeparator(r) < 0
    ensures FindSeparator(s) >= 0 ==> EndsWith(s, Separator + r)
    ensures FindSeparator(s) < 0 ==> r == s
    decreases |s|
  {
    var i := FindSeparator(s);
    if i < 0 then s
    else
      var r := LastSegment(s[i + |Separator|..]);
      AfterSeparator(s, i, r);
      r
  }

  /** `LastSegment` is the last of the pieces `Split` yields. */
  lemma {:induction false} LastSegmentIsLastPiece(s: string)
    ensures LastSegment(s) == Split(s)[|Split(s)| - 1]
    decreases |s|
  {
    var i := FindSeparator(s);
    if i >= 0 {
      var rest := s[i + |Separator|..];
      LastSegmentIsLastPiece(rest);
      assert Split(s) == [s[..i]] + Split(rest);
    }
  }

  /** The live/studio classification: the last segment holds both `(` and `)`. A live
      name therefore holds both parentheses somewhere. */
  function IsLive(video: string): (live: bool)
    ensures live ==> '(' in video && ')' in video
  {
    var last := LastSegment(video);
    SuffixMembers(video, last);
    '(' in last && ')' in last
  }

  /** Every character of a suffix occurs in the whole string. */
  lemma SuffixMembers(s: string, r: string)
    requires EndsWith(s, r)
    ensures forall c :: c in r ==> c in s
  {
    forall c | c in r ensures c in s {
      var j :| 0 <= j < |r| && r[j] == c;
      assert s[|s| - |r| + j] == c;
    }
  }

  // ----- filter_video / filtered_list ----------------------------------------------------------

  /** `filter_video`: with `MVs` active a non-live video is rejected, with `Live` active a live
      one is; otherwise the video passes. So a video passes exactly when every active filter
      accepts it. */
  function Passes(video: string, filters: seq<FilterType>): (pass: bool)
    ensures pass <==> (MVs in filters ==> IsLive(video)) && (Live in filters ==> !IsLive(video))
  {
    if MVs in filters && !IsLive(video) then false
    else if Live in filters && IsLive(video) then false
    else true
  }

  /** With no filter every video passes; with both nothing does. */
  lemma PassesExtremes(video: string)
    ensures Passes(video, [])
    ensures !Passes(video, [MVs, Live]) && !Passes(video, [Live, MVs])
  {
    assert MVs in [MVs, Live] && Live in [MVs, Live];
    assert MVs in [Live, MVs] && Live in [Live, MVs];
  }

  /** The filtered catalog: the videos that pass, in their catalog order. */
  function FilterVideos(videos: seq<string>, filters: seq<FilterType>): (r: seq<string>)
    ensures forall v :: v in r <==> v in videos && Passes(v, filters)
  {
    Filter(videos, v => Passes(v, filters))
  }

  /** `filtered_list` keeps exactly the videos that pass, each as often as it occurs, in the
      catalog's relative order; nothing is kept under both filters. */
  lemma FilterVideosProperties(videos: seq<string>, filters: seq<FilterType>)
    ensures var r := FilterVideos(videos, filters);
      && Subsequence(r, videos)
      && (forall v :: v in r <==> v in videos && Passes(v, filters))
      && (forall v :: Passes(v, filters) ==> multiset(r)[v] == multiset(videos)[v])
      && (filters == [] ==> r == videos)
      && (MVs in filters && Live in filters ==> r == [])
  {
    var r := FilterVideos(videos, filters);
    if filters == [] {
      FilterAll(videos, v => Passes(v, filters));
    }
    if MVs in filters && Live in filters {
      NoElementsEmpty(r);
    }
  }

  /** Every separator holds a dash, in front of any later position. */
  lemma DashInSeparator(s: string, r: int, n: int)
    ensures SeparatorAt(s, r) && r + 1 < n <= |s| ==> '-' in s[..n]
  {
    if SeparatorAt(s, r) && r + 1 < n <= |s| {
      assert s[..n][r + 1] == s[r..r + |Separator|][1];
    }
  }

  /** A name without a dash holds no separator. */
  lemma NoDashNoSeparator(s: string)
    requires '-' !in s
    ensures FindSeparator(s) < 0
  {
    DashInSeparator(s, FindSeparator(s), |s|);
    assert s[..|s|] == s;
  }

  /** The search finds the separator at `i` when no dash comes before it. */
  lemma FirstSeparatorAt(s: string, i: nat)
    requires SeparatorAt(s, i) && '-' !in s[..i + 1]
    ensures FindSeparator(s) == i
  {
    DashInSeparator(s, FindSeparator(s), i + 1);
  }

  /** An `Artist - Title` name is classified on its title alone: whatever parentheses the
      artist part holds, the name is live exactly when the title has both. */
  lemma ArtistTitleClassified(artist: string, title: string)
    requires '-' !in artist && '-' !in title
    ensures LastSegment(artist + Separator + title) == title
    ensures IsLive(artist + Separator + title) <==> '(' in title && ')' in title
  {
    var s := artist + Separator + title;
    assert s[..|artist| + 1] == artist + " ";
    assert s[|artist|..|artist| + |Separator|] == Separator;
    FirstSeparatorAt(s, |artist|);
    NoDashNoSeparator(title);
    assert s[|artist| + |Separator|..] == title;
  }

  /** A name without a separator is classified on its whole text. */
  lemma NoSeparatorClassified(name: string)
    requires '-' !in name
    ensures IsLive(name) <==> '(' in name && ')' in name
  {
    NoDashNoSeparator(name);
  }

  // ----- toggle_filter ------------------------------------------------------------------------

  /** `filters.retain(|g| *g != f)`. */
  function Without(filters: seq<FilterType>, f: FilterType): (r: seq<FilterType>)
    ensures f !in r
    ensures forall g :: g != f ==> (g in r <==> g in filters)
    ensures NoDuplicates(filters) ==> NoDuplicates(r)
  {
    var r := Filter(filters, g => g != f);
    assert NoDuplicates(filters) ==> NoDuplicates(r) by {
      if NoDuplicates(filters) {
        forall g ensures multiset(r)[g] <= 1 {
          if g != f {
            NoDuplicatesCount(filters, g);
          }
        }
        CountAtMostOneNoDuplicates(r);
      }
    }
    r
  }

  /** The filter list after `toggle_filter(f)`: `f`'s membership flips, the other filter's
      stays, and a list free of duplicates stays so. */
  function Toggled(filters: seq<FilterType>, f: FilterType): (r: seq<FilterType>)
    ensures f in r <==> f !in filters
    ensures forall g :: g != f ==> (g in r <==> g in filters)
    ensures NoDuplicates(filters) ==> NoDuplicates(r)
  {
    if f in filters then Without(filters, f)
    else
      var r := filters + [f];
      assert r[|filters|] == f;
      assert forall g :: g in r <==> g in filters || g == f;
      r
  }

  /** Toggling the same filter twice restores which filters are active. */
  lemma ToggleTwice(filters: seq<FilterType>, f: FilterType)
    ensures forall g :: g in Toggled(Toggled(filters, f), f) <==> g in filters
  {
  }

  /** The filter that passes a video is the one whose toggle the selector's state records:
      after toggling `MVs` on an empty list only live videos pass, after toggling `Live` only
      studio ones. */
  lemma ToggleThenFilter(video: string)
    ensures Passes(video, Toggled([], MVs)) <==> IsLive(video)
    ensures Passes(video, Toggled([], Live)) <==> !IsLive(video)
  {
    assert Toggled([], MVs) == [MVs];
    assert Toggled([], Live) == [Live];
  }

  // ----- the selector -------------------------------------------------------------------------

  class MVSelector {
    const viewType: MenuOption
    const avd: AudioVideoData
    var header: string
    /** The active filters, in the order they were switched on. */
    var filters: seq<FilterType>

    /** `MVSelector::new`: no filter active. */
    constructor (avd: AudioVideoData)
      ensures this.avd == avd && viewType == MenuOption.MVSelector
      ensures header == "Search for an MV or search quit to exit"
      ensures filters == []
    {
      this.avd := avd;
      viewType := MenuOption.MVSelector;
      header := "Search for an MV or search quit to exit";
      filters := [];
    }

    /** `filter_video`, reading the current filters: the video passes exactly when every
        active filter accepts it. */
    function FilterVideo(video: string): (pass: bool)
      reads this
      ensures pass <==> (MVs in filters ==> IsLive(video)) && (Live in filters ==> !IsLive(video))
    {
      Passes(video, filters)
    }

    /** `filtered_list`: the catalog (computed and cached by `list_videos` when there is no
        cache yet) with the videos that fail the active filters removed; `None` where
        `list_videos` would panic. */
    method FilteredList(fs: FileSystem) returns (r: Option<seq<string>>)
      modifies avd`videoList
      ensures old(avd.videoList).Some? ==> avd.videoList == old(avd.videoList)
      ensures old(avd.videoList).None? ==>
        IsListing(avd.audioVideo.Keys, avd.videoDir, avd.sorting, fs, avd.videoList)
      ensures r.Some? <==> avd.videoList.Some?
      ensures r.Some? ==> r.value == FilterVideos(avd.videoList.value, filters)
    {
      var videos := avd.ListVideos(fs);
      if videos.None? {
        return None;
      }
      r := Some(FilterVideos(videos.value, filters));
    }

    /** `toggle_filter`: switches `f` off when it is on (removing it wherever it occurs) and
        on when it is off (appending it), then returns to the selector view. */
    method ToggleFilter(f: FilterType) returns (next: MenuOption)
      modifies this`filters
      ensures filters == Toggled(old(filters), f)
      ensures f in filters <==> f !in old(filters)
      ensures forall g :: g != f ==> (g in filters <==> g in old(filters))
      ensures NoDuplicates(old(filters)) ==> NoDuplicates(filters)
      ensures next == MenuOption.MVSelector
    {
      if f in filters {
        filters := Without(filters, f);
      } else {
        filters := filters + [f];
      }
      next := MenuOption.MVSelector;
    }
  }
}
