# mvscrobbler core, modelled in Dafny

mvscrobbler is a terminal music-video player. It keeps a JSON map that pairs each video
file with an audio track. It offers the paired videos in an fzf-style selector, which can be
sorted and filtered to live or studio recordings. It also has an update session that finds
videos that have no audio paired yet. This project models the logic behind all that and proves
what it does:

- **The pairing store and its catalog** (`AudioVideoData`, src/avmod.rs), in `avmod.dfy`.
  - `load_data` folds the data file into the in-memory map. It joins each stored path onto its
    root directory and keeps an entry only when both files exist. It writes the map back when
    it dropped something.
  - `save_data` writes the map out.
  - `list_videos` builds the cached, sorted list of video names.
  - `play_media` looks up the audio path for a chosen name.
- **The live/studio filter and its toggles** (`MVSelector`, src/views/mv_selector.rs), in
  `mv_selector.dfy`. This covers `split(" - ").last()`, the live test, `filter_video`,
  `filtered_list` and `toggle_filter`.
- **The menu encoding** (`MenuOptions`, src/views/menu.rs), in `menu.dfy`. Options are
  encoded as `[[Label]]` and decoded back.
- **The update-session scanner** (`MVList`, src/views/updater.rs), in `updater.dfy`. It covers
  the two directory scans with their extension allow-lists, their caches, and `start` up to
  its `todo!()`.

The shared modules are:

- `paths.dfy`: `Path::join`, `trim_start_matches`, `Path::extension` and `Path::file_name`, as
  they behave on Unix. It also holds the observable filesystem: existing paths, modification
  times and directory listings.
- `ordering.dfy`: the standard library's stable sort and the lexicographic string order.
- `sequences.dfy`: iterator `filter` and `map`, and facts about permutations.

The source's structure is kept:

- `AudioVideoData`, `MVSelector` and `MVList` are classes whose methods update their fields.
- The data file lives in a `Disk` object that `SaveData` and `LoadData` modify.
- The hash-map iteration order, which the source leaves unspecified, is an arbitrary choice
  (`:|`). Properties that hold for every order are proved for all of them.
- Each panic the model covers (`expect`, `unwrap`, `assert!`) is an explicit outcome that leaves
  the state unchanged:
  - `LoadOutcome.ReadFailed` and `ParseFailed`;
  - `None` from `ListVideos` and `PlayMedia`;
  - `Scan.Missing`, `Scan.Unreadable` and `StartOutcome.Panicked` in the updater.

Behaviour of the code worth knowing:

- **Re-saving.** `load_data` writes the pruned map back to the data file once, after the loop,
  when it has dropped at least one entry (src/avmod.rs:92-94).
- **Full paths.** `save_data` writes the map's full paths as they are (src/avmod.rs:98-101),
  and `load_data` joins each stored path onto its root again (src/avmod.rs:81-82).
  - `Path::join` keeps an absolute path unchanged. So a saved map of absolute paths loads
    back to itself (`SaveThenLoadRestores`).
  - With a relative root such as `mv`, the saved key `mv/a.mp4` is looked up at
    `mv/mv/a.mp4`. Unless that file exists, one save and load drops the pairing, and the
    data file is re-saved without it (`SaveThenLoadRelativeRootLoses`).
- **Names without a separator.** A name without `" - "` is classified on its whole text
  (`NoSeparatorClassified`). `split(..).last()` is never `None`, so the `is_none` branches at
  src/views/mv_selector.rs:66 and :84 cannot run.
- **What counts as live.** A name is live when its last segment contains both a `(` and a `)`,
  anywhere and in any order. "Last" means the last piece that `split` produces when it
  matches left to right without overlaps. So for `a - - b` it is `- b`.
- **Both filters.** Both filters can be active at once, and then nothing passes
  (`FilterVideosProperties`).
- **Audio scan depth.** `scan_audio` lists the entries of the audio directory itself with
  `read_dir` (src/views/updater.rs:118).
- **Stale cache.** The catalog cache is never invalidated. `load_data` and later map changes
  leave it as it is (`ListVideos`, `LoadData`).

## Model

| member | source | states |
|---|---|---|
| `AvMod.AudioVideoData.constructor` | src/avmod.rs:40-57 | The store keeps the given directories, data file and map. Nothing is cached yet (`videoList == None`) and the sorting is `Descending`. |
| `AvMod.AudioVideoData.SaveData` | src/avmod.rs:97-102 | Afterwards the data file holds exactly the current map, full paths as they are. No other file changes. |
| `AvMod.AudioVideoData.LoadData` | src/avmod.rs:75-95 | A missing data file gives `ReadFailed` and one that does not parse gives `ParseFailed`, both with nothing changed. Otherwise the file's entries are folded into the map as `InsertSurvivors` states. The map is written back exactly when some entry was dropped. |
| `AvMod.AudioVideoData.InsertSurvivors` | src/avmod.rs:80-91 | The new map is the old one with the entries folded in (`LoadedInto`): each entry whose joined video and audio paths both exist is present under the joined video path, mapped to the joined audio path. Old entries whose key no surviving entry overwrites are unchanged, and nothing else is added. The result says whether any entry was skipped. |
| `AvMod.LoadStepKept` | src/avmod.rs:80-90 | Inserting a surviving entry under its joined key keeps the loop's fold invariant. |
| `AvMod.LoadStepDropped` | src/avmod.rs:80-86 | Skipping an entry whose video or audio file is missing keeps the fold invariant and changes nothing. |
| `AvMod.ReloadIdentity` | src/avmod.rs:80-91 | Loading a document into an empty map gives back exactly that document when every entry survives and joining leaves keys and values unchanged. |
| `AvMod.SaveThenLoadRestores` | src/avmod.rs:212-219 | Consider a saved map of absolute paths whose files all exist. Clearing the map and loading gives back that same map, so all N entries are restored. |
| `AvMod.SaveThenLoadMissing` | src/avmod.rs:245-252 | If the saved paths are absolute (as in the test) and none of the saved videos exists, loading into an empty map restores nothing. |
| `AvMod.SaveThenLoadRelativeRootLoses` | src/avmod.rs:80-94 | Take a relative video root without a trailing `/` and a pairing saved under the full path `root/name`. Loading joins that path onto the root again, giving `root/root/name`. When that file does not exist, the entry is not kept, so the reload restores nothing and the data file is re-saved without it. |
| `AvMod.StripVideoDir` | src/avmod.rs:113-119 | A displayed name is a suffix of its key and never starts with `\`. |
| `AvMod.SortNames` | src/avmod.rs:121-136 | The sorted catalog is a permutation of the names. It is `None`, standing for the `metadata(..).unwrap()` panic, exactly when sorting is by mtime and some name's video file has no mtime. |
| `AvMod.Enumerate` | src/avmod.rs:108-112 | The keys are enumerated in some order, each exactly once. |
| `AvMod.EnumerationLength` | src/avmod.rs:108-120 | An enumeration of the keys has as many entries as the map. |
| `AvMod.EnumerationsSameNames` | src/avmod.rs:108-120 | Any two enumeration orders give the same names, counted with multiplicity. |
| `AvMod.NamesOfEnumeration` | src/avmod.rs:113-119 | A name is listed exactly when it is the stripped form of some key. |
| `AvMod.LexListingDeterministic` | src/avmod.rs:121-123 | The ascending and descending catalogs do not depend on the hash map's iteration order. |
| `AvMod.ListingContents` | src/avmod.rs:108-120 | The catalog has one name per key: each key with the directory prefix and leading `/` and `\` removed, counted with multiplicity. |
| `AvMod.ListingOrder` | src/avmod.rs:121-136 | `Ascending` is non-decreasing and `Descending` non-increasing. `Mtime` has non-increasing modification times, and names of equal age keep their enumeration order (stable sort). |
| `AvMod.SortNamesOrder` | src/avmod.rs:121-136 | The same ordering facts for the sort applied to any list of names: equal-age files keep the order the names came in. |
| `AvMod.NewestFirstOrder` | src/avmod.rs:125-135 | Sorting by descending modification time leaves the times non-increasing, and names of equal age keep the order they came in. |
| `AvMod.AudioVideoData.ListVideos` | src/avmod.rs:104-140 | A cached catalog is returned unchanged, whatever happened to the map since. Otherwise the result is a catalog of the current keys (`IsListing`) and becomes the cache. |
| `AvMod.AudioVideoData.PlayMedia` | src/avmod.rs:59-73 | The players get the video directory joined with the name, plus the audio path stored under that key. The result is `None` (the source's `unwrap` panic) exactly when that key is absent. |
| `AvMod.ListedNameResolves` | src/avmod.rs:59-62 | Take a key that is the video directory joined with a name that has no leading separator and does not repeat the directory. Joining its displayed name back gives the key again. |
| `AvMod.RepeatedDirectoryIsStrippedTwice` | src/avmod.rs:115 | `trim_start_matches` removes every repetition of the directory: a key holding the directory (ending in `/`) twice before a plain name, such as `mv/mv/a.mp4`, is shown as the bare name `a.mp4`, which joins back to a different key. |
| `Paths.Join` | src/avmod.rs:81-82 | `Path::join` returns an absolute argument unchanged. Otherwise the result is the directory followed by the argument, with one `/` between them exactly when the directory is non-empty and does not already end in `/`. |
| `Paths.TrimStartMatches` | src/avmod.rs:115 | The result is a suffix that no longer starts with the pattern. An empty pattern removes nothing. |
| `Paths.TrimStartMatchesRemovesCopies` | src/avmod.rs:115 | What is removed is a whole number of copies of the pattern. |
| `Paths.TrimStartChar` | src/avmod.rs:116-117 | Only leading copies of the character are removed, and the rest does not start with it. |
| `Paths.FileName` | src/views/updater.rs:92-95 | The file name is the suffix after the last `/`. |
| `Paths.Extension` | src/views/updater.rs:92-96 | There is an extension exactly when the file name has a dot after its first character and is not `..`. The extension is the dot-free text after the last dot. |
| `Ordering.SortBy` | src/avmod.rs:121-134 | The sort is a permutation of its input and sorted by the given total preorder. |
| `Ordering.SortByStable` | src/avmod.rs:134 | Elements that compare equal keep their relative order, as `sort_by` promises. |
| `Ordering.SortedUnique` | src/avmod.rs:122-123 | Under an antisymmetric total order, two sorted permutations of the same elements are equal. |
| `Ordering.LexOrders` | src/avmod.rs:122-123 | String comparison in both directions is a total, antisymmetric preorder. |
| `Ordering.NewerFirst` | src/avmod.rs:134 | Comparing by descending modification time is a total preorder. |
| `Sequences.Filter` | src/views/mv_selector.rs:60-80 | `filter(..).collect()` keeps exactly the elements that pass, each as often as it occurs, as a subsequence in input order. |
| `Sequences.MapSeq` | src/avmod.rs:113-120 | `map(..).collect()` applies the function to each element and keeps the order. |
| `Sequences.MapSeqPermutation` | src/avmod.rs:108-120 | Mapping permutations gives permutations. |
| `Sequences.SameElementsPermutation` | src/avmod.rs:108-112 | Two duplicate-free sequences with the same elements are permutations of each other. |
| `Menu.Label` | src/views/menu.rs:16-28 | The `Display` text of each option. It is a definition with no contract of its own; `LabelsDistinct` proves that no two options share it. |
| `Menu.Options` | src/views/menu.rs:31-42 | The iterator yields all seven options, each exactly once. |
| `Menu.LabelsDistinct` | src/views/menu.rs:16-28 | No two options share a `Display` label. |
| `Menu.WrappedLabelsDistinct` | src/views/menu.rs:16-28 | No two options share a wrapped label `[[Label]]`. |
| `Menu.Wrap` | src/views/menu.rs:45-51 | `format!("[[{}]]", ..)`: the result is the text with `[[` in front and `]]` behind, four characters longer, and the text is recovered from between them. |
| `Menu.WrapInjective` | src/views/menu.rs:45 | Wrapping in `[[`…`]]` is injective. |
| `Menu.Find` | src/views/menu.rs:45 | `find` returns the first option of the list whose wrapped label equals the input, or `None` when none does. |
| `Menu.GetSelection` | src/views/menu.rs:44-46 | A decoded option's wrapped label is the input. The result is `None` exactly when no option's wrapped label equals the input. |
| `Menu.SelectionRoundTrip` | src/views/menu.rs:44-46 | Decoding the encoding of any option gives that option back. |
| `Menu.MenuEntries` | src/views/menu.rs:48-53 | An entry is listed exactly when it is the wrapped label of an option that is not excluded. |
| `Menu.GenerateMenu` | src/views/menu.rs:48-53 | The menu holds exactly the wrapped labels of the options not excluded. |
| `Menu.GenerateMenuFull` | src/views/menu.rs:48-53 | With nothing excluded the menu has 7 entries. |
| `Menu.GenerateMenuInOrder` | src/views/menu.rs:31-53 | The menu keeps the options' declaration order: it is a subsequence of the full menu. |
| `Menu.GeneratedEntriesDecode` | src/views/menu.rs:44-53 | Every generated entry decodes to an option whose label was not excluded. |
| `MvSelector.FilterLabel` | src/views/mv_selector.rs:14-21 | The `Display` text of each filter, `MVs` and `Live`. It is a definition with no contract of its own. |
| `MvSelector.FindSeparator` | src/views/mv_selector.rs:65 | The search returns the first occurrence of `" - "`, or -1 when there is none. |
| `MvSelector.Split` | src/views/mv_selector.rs:65 | `split` always yields at least one piece, so `last()` is never `None`. |
| `MvSelector.SplitJoin` | src/views/mv_selector.rs:65 | Joining the pieces with `" - "` gives back the name. |
| `MvSelector.LastSegment` | src/views/mv_selector.rs:65 | The last segment is a suffix of the name with no separator in it. If the name has a separator, the name ends with `" - "` followed by the segment; otherwise the segment is the whole name. |
| `MvSelector.LastSegmentIsLastPiece` | src/views/mv_selector.rs:65 | The last segment is the last piece `split` yields. |
| `MvSelector.ArtistTitleClassified` | src/views/mv_selector.rs:83-87 | An `Artist - Title` name (no dash in either part) is live exactly when the title contains both `(` and `)`, whatever the artist part contains. |
| `MvSelector.NoSeparatorClassified` | src/views/mv_selector.rs:83-87 | A name without a dash is live exactly when it contains both `(` and `)`. |
| `MvSelector.IsLive` | src/views/mv_selector.rs:83-87 | The `is_live` test on the last segment. A live name contains both `(` and `)` somewhere. |
| `MvSelector.Passes` | src/views/mv_selector.rs:82-95 | `filter_video` on a filter list: a video passes exactly when `MVs` being active implies it is live and `Live` being active implies it is not. |
| `MvSelector.FilterVideos` | src/views/mv_selector.rs:60-80 | The pipeline of `filtered_list`: a video is in the result exactly when it is in the catalog and passes the filters. |
| `MvSelector.PassesExtremes` | src/views/mv_selector.rs:88-94 | With no filter every video passes; with both filters none does. |
| `MvSelector.FilterVideosProperties` | src/views/mv_selector.rs:60-80 | The filtered list is the subsequence of the catalog that passes `filter_video`, each video as often as it occurs. It is the whole catalog with no filter and empty with both. |
| `MvSelector.Without` | src/views/mv_selector.rs:99 | `retain` removes every copy of the filter, keeps the other filter's membership, and keeps the list duplicate-free. |
| `MvSelector.Toggled` | src/views/mv_selector.rs:97-102 | The filter list after `toggle_filter`: the toggled filter's membership flips, the other filter's membership stays, and a duplicate-free list stays duplicate-free. |
| `MvSelector.ToggleTwice` | src/views/mv_selector.rs:97-102 | Toggling the same filter twice restores which filters are active. |
| `MvSelector.ToggleThenFilter` | src/views/mv_selector.rs:88-102 | After toggling `MVs` on, only live videos pass; after toggling `Live` on, only studio videos pass. |
| `MvSelector.MVSelector.constructor` | src/views/mv_selector.rs:32-39 | The selector starts with no filters, the given store and the default header. |
| `MvSelector.MVSelector.FilterVideo` | src/views/mv_selector.rs:82-95 | `filter_video` reading the selector's current filters: a video passes exactly when every active filter accepts it. |
| `MvSelector.MVSelector.FilteredList` | src/views/mv_selector.rs:60-80 | The result is the catalog from `list_videos` (cached or freshly computed) filtered by the current filters. It is `None` exactly where `list_videos` panics. |
| `MvSelector.MVSelector.ToggleFilter` | src/views/mv_selector.rs:97-104 | The new filter list is the toggled one: the filter's membership is flipped, the other filter is unchanged and no duplicate appears. The method always returns `MVSelector`. |
| `Updater.ScanDir` | src/views/updater.rs:76-132 | A directory scan panics (`Missing`) exactly when the directory does not exist, and (`Unreadable`) exactly when it exists but `read_dir` fails. Otherwise it yields the listed entries that pass the test, in listing order, and no others. |
| `Updater.VideoScanProperties` | src/views/updater.rs:76-107 | The video scan fails exactly when the directory is missing or unreadable. Otherwise it yields exactly the listed entries with a video extension (exact, case-sensitive) that are not paired yet, in listing order. |
| `Updater.AudioScanProperties` | src/views/updater.rs:109-132 | The audio scan fails exactly when the directory is missing or unreadable. Otherwise it yields exactly the entries of that one listing with an audio extension, each as often as listed, in order, with nothing else excluded. |
| `Updater.Cached` | src/views/updater.rs:63-72 | The cached list when there is one, otherwise a fresh scan. It is a definition with no contract of its own; `StartReusesCaches` states what the caching achieves. |
| `Updater.StartSpec` | src/views/updater.rs:62-74 | What `start` does to the caches and how it ends, as a function of the old caches. It is a definition with no contract of its own; `StartReturnsWhenNothingToPair`, `StartReusesCaches` and `MVList.Start` state its properties. |
| `Updater.StartReturnsWhenNothingToPair` | src/views/updater.rs:62-74 | `start` returns `MVSelector` exactly when the video list (cached or scanned) is empty, and then it leaves the audio cache alone. Otherwise it reaches the `todo!()` with both lists cached, unless a scan panics. |
| `Updater.StartReusesCaches` | src/views/updater.rs:63-71 | After a `start` that did not panic, starting again on any filesystem scans nothing and ends the same way. |
| `Updater.MVList.constructor` | src/views/updater.rs:50-60 | The session keeps the given directories and map, and nothing is scanned yet. |
| `Updater.MVList.ScanMvs` | src/views/updater.rs:76-107 | The method's result is the video scan. On success it becomes the `mvs_found` cache; on failure the cache is unchanged. |
| `Updater.MVList.ScanAudio` | src/views/updater.rs:109-132 | The method's result is the audio scan. On success it becomes the `audio_found` cache; on failure the cache is unchanged. |
| `Updater.MVList.Start` | src/views/updater.rs:62-74 | The outcome and the new caches are those of `StartSpec` applied to the old caches: scan only what is not cached, and stop early when no video is left to pair. |

## Left out

- `MediaPlayer` (src/media_player.rs) is not modelled: it spawns and kills player processes and uses async tasks and channels. `PlayMedia` models only the key lookup before that call.
- The fzf front end (src/views/fzf_selector.rs, src/views.rs, src/views/search_filter.rs), terminal clearing, and the interactive loops `MVSelector::start` and `MainMenu::start` are left out. They are I/O driven by an external process.
- The configuration loader (src/config.rs) and the entry points src/lib.rs and src/main.rs are not part of this model. They are I/O glue.
- `MVList::start` stops at its `todo!()`, which is modelled as the outcome `ReachedTodo`.
- JSON text is not modelled. The data file is either a string-to-string map or unparsable, so pretty-printing and serde's handling of duplicate keys are left out.
- `SaveData`: the failure of `File::create` or `write_all`, which panics in the source, is not modelled. Saving always succeeds.
- Paths are modelled as Unix `Path::join` on strings. Windows separators and prefixes are left out, as is `to_str().unwrap()` on paths that are not UTF-8; every string here is valid text.
- The filesystem is a snapshot: which paths exist, each readable path's modification time, and each readable directory's entry list. Entries whose `read_dir` item is an error are absent from the list, and a change to the disk during a run is not modelled.
- Modification times are integers: `SystemTime` ordering is modelled by integer comparison.
- The `Arc<RefCell<..>>` sharing of the pairing map is modelled as a map owned by the store; aliasing through other holders is not modelled.
- Rust's `sort` and `sort_by` work in place on a vector. Here they are a stable insertion sort on sequences, `Ordering.SortBy`, with the properties the standard library promises.
- `AvMod.AudioVideoData.InsertSurvivors`: the order in which entries are inserted is chosen arbitrarily. So when two stored keys join to the same full path, the contract says only that one of them wins, not which.
