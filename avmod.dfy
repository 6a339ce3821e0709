/** The pairing store and the catalog view of it: `AudioVideoData` of src/avmod.rs.
    The store maps the full path of each video to the full path of its audio track, loads
    that map from a JSON data file (dropping entries whose files are gone), writes it back,
    and lists the video names for the selector, sorted and cached. */
module AvMod {
  import opened Wrappers
  import opened Sequences
  import opened Paths
  import opened Ordering

  datatype Sorting = Ascending | Descending | Mtime

  /** The data file's text as `serde_json` reads it: a JSON object of strings, or anything
      else (which makes parsing fail). */
  datatype FileContents = PairingJson(pairs: map<string, string>) | Unparsable

  /** The files the store reads and writes, by path. */
  class Disk {
    var files: map<string, FileContents>
  }

  /** How `load_data` ends: the data file cannot be read (`read_to_string(..).expect`), it
      does not parse (`from_str(..).expect`), or the entries were loaded, with `resaved`
      telling whether the pruned map was written back. */
  datatype LoadOutcome = ReadFailed | ParseFailed | Loaded(resaved: bool)

  // ----- load_data -------------------------------------------------------------------------

  /** `Path::new(dir).join(..)` as a function value. */
  function JoinOnto(dir: string): (f: string -> string)
    ensures forall p :: f(p) == Join(dir, p)
  {
    p => Join(dir, p)
  }

  /** A stored entry `v` survives loading when the file its key names and the file its value
      names both exist, once each is resolved by `key` and `value` respectively. */
  predicate Kept<T>(doc: map<T, T>, v: T, existing: set<T>, key: T -> T, value: T -> T)
    requires v in doc
  {
    key(v) in existing && value(doc[v]) in existing
  }

  /** The resolved keys of the surviving entries among `done`. */
  function KeptKeys<T>(doc: map<T, T>, done: set<T>, existing: set<T>, key: T -> T, value: T -> T)
    : set<T>
  {
    set v | v in done && v in doc && Kept(doc, v, existing, key, value) :: key(v)
  }

  /** `after` is `before` with the entries `done` of the document folded in: each surviving
      entry is inserted under its resolved key, with its resolved value (when two entries
      resolve to the same key, one of them wins); everything else in `before` is untouched;
      nothing else is added. */
  ghost predicate LoadedInto<T(!new)>(before: map<T, T>, doc: map<T, T>, done: set<T>, existing: set<T>,
                                     key: T -> T, value: T -> T, after: map<T, T>)
  {
    var added := KeptKeys(doc, done, existing, key, value);
    && after.Keys == before.Keys + added
    && (forall k :: k in before && k !in added ==> after[k] == before[k])
    && (forall k :: k in added ==>
          exists v :: v in done && v in doc && Kept(doc, v, existing, key, value)
                      && key(v) == k && after[k] == value(doc[v]))
  }

  /** Folding in one more surviving entry keeps `LoadedInto`. */
  lemma LoadStepKept<T(!new)>(before: map<T, T>, doc: map<T, T>, done: set<T>, v: T, existing: set<T>,
                             key: T -> T, value: T -> T, after: map<T, T>)
    requires v in doc && v !in done && Kept(doc, v, existing, key, value)
    requires LoadedInto(before, doc, done, existing, key, value, after)
    ensures LoadedInto(before, doc, done + {v}, existing, key, value, after[key(v) := value(doc[v])])
  {
    var added := KeptKeys(doc, done, existing, key, value);
    var added' := KeptKeys(doc, done + {v}, existing, key, value);
    assert added' == added + {key(v)};
    var after' := after[key(v) := value(doc[v])];
    forall k | k in added'
      ensures exists w :: w in done + {v} && w in doc && Kept(doc, w, existing, key, value)
                          && key(w) == k && after'[k] == value(doc[w])
    {
      if k != key(v) {
        var w :| w in done && w in doc && Kept(doc, w, existing, key, value)
                 && key(w) == k && after[k] == value(doc[w]);
        assert w in done + {v};
      } else {
        assert v in done + {v};
      }
    }
  }

  /** Skipping an entry that does not survive keeps `LoadedInto`. */
  lemma LoadStepDropped<T(!new)>(before: map<T, T>, doc: map<T, T>, done: set<T>, v: T, existing: set<T>,
                                key: T -> T, value: T -> T, after: map<T, T>)
    requires v in doc && v !in done && !Kept(doc, v, existing, key, value)
    requires LoadedInto(before, doc, done, existing, key, value, after)
    ensures LoadedInto(before, doc, done + {v}, existing, key, value, after)
  {
    var added := KeptKeys(doc, done, existing, key, value);
    assert KeptKeys(doc, done + {v}, existing, key, value) == added;
    forall k | k in added
      ensures exists w :: w in done + {v} && w in doc && Kept(doc, w, existing, key, value)
                          && key(w) == k && after[k] == value(doc[w])
    {
      var w :| w in done && w in doc && Kept(doc, w, existing, key, value)
               && key(w) == k && after[k] == value(doc[w]);
      assert w in done + {v};
    }
  }

  /** Loading a document into an empty store gives back exactly that document when every
      entry survives and resolving leaves its key and value unchanged. */
  lemma ReloadIdentity<T(!new)>(saved: map<T, T>, existing: set<T>, key: T -> T, value: T -> T,
                               after: map<T, T>)
    requires forall k :: k in saved ==> key(k) == k && value(saved[k]) == saved[k]
    requires forall k :: k in saved ==> k in existing && saved[k] in existing
    requires LoadedInto(map[], saved, saved.Keys, existing, key, value, after)
    ensures after == saved
  {
    assert KeptKeys(saved, saved.Keys, existing, key, value) == saved.Keys by {
      forall k | k in saved ensures k in KeptKeys(saved, saved.Keys, existing, key, value) {
        assert key(k) == k;
      }
    }
    forall k | k in saved ensures after[k] == saved[k] {
      var v :| v in saved.Keys && v in saved && Kept(saved, v, existing, key, value)
               && key(v) == k && after[k] == value(saved[v]);
      assert v == k;
    }
  }

  /** The document written by `save_data` holds full paths, which `Path::join` leaves
      unchanged. So saving a map of absolute paths whose files all exist and loading it into
      an empty store gives back exactly that map. */
  lemma SaveThenLoadRestores(saved: map<string, string>, fs: FileSystem, videoDir: string,
                             audioDir: string, after: map<string, string>)
    requires forall k :: k in saved ==> StartsWith(k, "/") && StartsWith(saved[k], "/")
    requires forall k :: k in saved ==> k in fs.existing && saved[k] in fs.existing
    requires LoadedInto(map[], saved, saved.Keys, fs.existing, JoinOnto(videoDir), JoinOnto(audioDir), after)
    ensures after == saved
  {
    ReloadIdentity(saved, fs.existing, JoinOnto(videoDir), JoinOnto(audioDir), after);
  }

  /** Loading a saved map of absolute paths none of whose video files exist adds nothing. */
  lemma SaveThenLoadMissing(saved: map<string, string>, fs: FileSystem, videoDir: string,
                            audioDir: string, after: map<string, string>)
    requires forall k :: k in saved ==> StartsWith(k, "/") && k !in fs.existing
    requires LoadedInto(map[], saved, saved.Keys, fs.existing, JoinOnto(videoDir), JoinOnto(audioDir), after)
    ensures after == map[]
  {
    var key := JoinOnto(videoDir);
    assert KeptKeys(saved, saved.Keys, fs.existing, key, JoinOnto(audioDir)) == {} by {
      forall v | v in saved ensures key(v) !in fs.existing {
        assert key(v) == v;
      }
    }
  }

  /** With a relative video root the full path `save_data` writes is joined onto the root a
      second time when the file is loaded back: a pairing saved under `mv/a.mp4` with the root
      `mv` is looked up at `mv/mv/a.mp4`. Unless that file exists the entry is dropped, so the
      reload restores nothing and `load_data` re-saves the data file without it. */
  lemma SaveThenLoadRelativeRootLoses(videoDir: string, audioDir: string, name: string, audio: string,
                                      fs: FileSystem, after: map<string, string>)
    requires videoDir != [] && videoDir[0] != '/' && videoDir[|videoDir| - 1] != '/'
    requires name == [] || name[0] != '/'
    requires videoDir + "/" + videoDir + "/" + name !in fs.existing
    requires var saved := map[Join(videoDir, name) := audio];
      LoadedInto(map[], saved, saved.Keys, fs.existing, JoinOnto(videoDir), JoinOnto(audioDir), after)
    ensures Join(videoDir, name) == videoDir + "/" + name
    ensures Join(videoDir, Join(videoDir, name)) == videoDir + "/" + videoDir + "/" + name
    ensures !Kept(map[Join(videoDir, name) := audio], Join(videoDir, name), fs.existing,
                  JoinOnto(videoDir), JoinOnto(audioDir))
    ensures after == map[]
  {
    var key := Join(videoDir, name);
    assert !StartsWith(name, "/");
    assert key == videoDir + "/" + name;
    assert !StartsWith(key, "/") by {
      assert key[0] == videoDir[0];
    }
    assert Join(videoDir, key) == videoDir + "/" + videoDir + "/" + name;
    var saved := map[key := audio];
    assert KeptKeys(saved, saved.Keys, fs.existing, JoinOnto(videoDir), JoinOnto(audioDir)) == {} by {
      forall v | v in saved ensures !Kept(saved, v, fs.existing, JoinOnto(videoDir), JoinOnto(audioDir)) {
        assert v == key && JoinOnto(videoDir)(v) == Join(videoDir, key);
      }
    }
  }

  // ----- list_videos -----------------------------------------------------------------------

  /** The name shown for a stored video path: `trim_start_matches(video_dir)`, then every
      leading `/`, then every leading `\`. */
  function StripVideoDir(key: string, videoDir: string): (r: string)
    ensures EndsWith(key, r)
    ensures r == [] || r[0] != '\\'
  {
    TrimStartChar(TrimStartChar(TrimStartMatches(key, videoDir), '/'), '\\')
  }

  /** `StripVideoDir` as a function value, the closure `list_videos` maps over the keys. */
  function Stripper(videoDir: string): (f: string -> string)
    ensures forall k :: f(k) == StripVideoDir(k, videoDir)
  {
    k => StripVideoDir(k, videoDir)
  }

  /** The names of `keys`, in the same order. */
  function Names(keys: seq<string>, videoDir: string): seq<string> {
    MapSeq(keys, Stripper(videoDir))
  }

  /** `order` lists every key of the map once: one of the orders `HashMap::keys` may yield. */
  ghost predicate IsEnumeration(order: seq<string>, keys: set<string>) {
    NoDuplicates(order) && forall k :: k in order <==> k in keys
  }

  /** Whether `fs::metadata(..).unwrap()` and `modified().unwrap()` succeed for a name. */
  predicate HasMtime(videoDir: string, fs: FileSystem, name: string) {
    Join(videoDir, name) in fs.mtimes
  }

  /** The modification time of the video file a name stands for (0 when there is none,
      a case `Listing` never sorts). */
  function MtimeOf(videoDir: string, fs: FileSystem): string -> int {
    name => if HasMtime(videoDir, fs, name) then fs.mtimes[Join(videoDir, name)] else 0
  }

  /** The catalog computed from the names `names`: sorted ascending, descending, or newest
      file first (stable); `None` when `metadata(..).unwrap()` would panic because some
      name's video file has no readable modification time. */
  function SortNames(names: seq<string>, videoDir: string, sorting: Sorting, fs: FileSystem)
    : (r: Option<seq<string>>)
    ensures r.Some? ==> multiset(r.value) == multiset(names)
    ensures r.None? <==> sorting == Mtime && exists i :: 0 <= i < |names| && !HasMtime(videoDir, fs, names[i])
  {
    match sorting
    case Ascending =>
      LexOrders();
      Some(SortBy(names, LexLe))
    case Descending =>
      LexOrders();
      Some(SortBy(names, LexGe))
    case Mtime =>
      if forall i :: 0 <= i < |names| ==> HasMtime(videoDir, fs, names[i])
      then Some(SortBy(names, NewerFirst(MtimeOf(videoDir, fs))))
      else None
  }

  /** The catalog computed from the keys in the order `order`. */
  function Listing(order: seq<string>, videoDir: string, sorting: Sorting, fs: FileSystem)
    : Option<seq<string>>
  {
    SortNames(Names(order, videoDir), videoDir, sorting, fs)
  }

  /** The catalog `list_videos` may compute for the keys `keys`. */
  ghost predicate IsListing(keys: set<string>, videoDir: string, sorting: Sorting, fs: FileSystem,
                            r: Option<seq<string>>)
  {
    exists order :: IsEnumeration(order, keys) && r == Listing(order, videoDir, sorting, fs)
  }

  /** The order in which `HashMap::keys` yields `keys`, chosen arbitrarily. */
  method Enumerate(keys: set<string>) returns (order: seq<string>)
    ensures NoDuplicates(order)
    ensures forall k :: k in order <==> k in keys
  {
    order := [];
    var rest := keys;
    while rest != {}
      invariant rest <= keys
      invariant forall k :: k in order <==> k in keys && k !in rest
      invariant NoDuplicates(order)
      decreases rest
    {
      var k :| k in rest;
      order := order + [k];
      rest := rest - {k};
    }
  }

  /** An enumeration of the keys has as many entries as the map. */
  lemma EnumerationLength(order: seq<string>, keys: set<string>)
    requires IsEnumeration(order, keys)
    ensures |order| == |keys|
  {
    NoDuplicatesCardinality(order);
    assert (set k | k in order) == keys;
  }

  /** Any two enumerations of the same keys have the same names, counted with multiplicity. */
  lemma EnumerationsSameNames(o1: seq<string>, o2: seq<string>, keys: set<string>, videoDir: string)
    requires IsEnumeration(o1, keys) && IsEnumeration(o2, keys)
    ensures multiset(Names(o1, videoDir)) == multiset(Names(o2, videoDir))
  {
    SameElementsPermutation(o1, o2);
    MapSeqPermutation(o1, o2, Stripper(videoDir));
  }

  /** The ascending and descending catalogs depend on the map's keys only, not on the order
      the map happens to yield them in. */
  lemma LexListingDeterministic(o1: seq<string>, o2: seq<string>, keys: set<string>,
                                videoDir: string, sorting: Sorting, fs: FileSystem)
    requires sorting != Mtime
    requires IsEnumeration(o1, keys) && IsEnumeration(o2, keys)
    ensures Listing(o1, videoDir, sorting, fs) == Listing(o2, videoDir, sorting, fs)
  {
    EnumerationsSameNames(o1, o2, keys, videoDir);
    LexOrders();
    var n1, n2 := Names(o1, videoDir), Names(o2, videoDir);
    if sorting == Ascending {
      SortedUnique(SortBy(n1, LexLe), SortBy(n2, LexLe), LexLe);
    } else {
      SortedUnique(SortBy(n1, LexGe), SortBy(n2, LexGe), LexGe);
    }
  }

  /** Every name of an enumeration stands for some key, and every key has its name there. */
  lemma NamesOfEnumeration(order: seq<string>, keys: set<string>, videoDir: string, n: string)
    requires IsEnumeration(order, keys)
    ensures n in Names(order, videoDir) <==> exists k :: k in keys && n == StripVideoDir(k, videoDir)
  {
    var names := Names(order, videoDir);
    if n in names {
      var i :| 0 <= i < |names| && names[i] == n;
      assert order[i] in keys;
    }
    if exists k :: k in keys && n == StripVideoDir(k, videoDir) {
      var k :| k in keys && n == StripVideoDir(k, videoDir);
      var i :| 0 <= i < |order| && order[i] == k;
      assert names[i] == n;
    }
  }

  /** What a computed catalog holds: the map's names, one per key, each with the video
      directory prefix and the leading separators removed. */
  lemma ListingContents(order: seq<string>, keys: set<string>, videoDir: string,
                        sorting: Sorting, fs: FileSystem)
    requires IsEnumeration(order, keys)
    requires Listing(order, videoDir, sorting, fs).Some?
    ensures var r := Listing(order, videoDir, sorting, fs).value;
      && |r| == |keys|
      && multiset(r) == multiset(Names(order, videoDir))
      && (forall n :: n in r <==> exists k :: k in keys && n == StripVideoDir(k, videoDir))
  {
    var r := Listing(order, videoDir, sorting, fs).value;
    var names := Names(order, videoDir);
    EnumerationLength(order, keys);
    assert |r| == |names| by {
      assert |multiset(r)| == |multiset(names)|;
    }
    forall n ensures n in r <==> exists k :: k in keys && n == StripVideoDir(k, videoDir) {
      assert n in r <==> n in multiset(names);
      NamesOfEnumeration(order, keys, videoDir, n);
    }
  }

  /** The order of a computed catalog is the one the sorting asks for: non-decreasing,
      non-increasing, or newest file first with files of equal age kept in the order the
      names came in. */
  lemma SortNamesOrder(names: seq<string>, videoDir: string, sorting: Sorting, fs: FileSystem)
    requires SortNames(names, videoDir, sorting, fs).Some?
    ensures var r := SortNames(names, videoDir, sorting, fs).value;
      && (sorting == Ascending ==> forall i, j :: 0 <= i < j < |r| ==> LexLe(r[i], r[j]))
      && (sorting == Descending ==> forall i, j :: 0 <= i < j < |r| ==> LexLe(r[j], r[i]))
      && (sorting == Mtime ==>
            (forall i, j :: 0 <= i < j < |r| ==> MtimeOf(videoDir, fs)(r[i]) >= MtimeOf(videoDir, fs)(r[j]))
            && forall y :: EquivalentTo(r, y, NewerFirst(MtimeOf(videoDir, fs)))
                        == EquivalentTo(names, y, NewerFirst(MtimeOf(videoDir, fs))))
  {
    var r := SortNames(names, videoDir, sorting, fs).value;
    match sorting
    case Ascending =>
      LexOrders();
      assert r == SortBy(names, LexLe);
    case Descending =>
      LexOrders();
      assert r == SortBy(names, LexGe);
    case Mtime =>
      assert r == SortBy(names, NewerFirst(MtimeOf(videoDir, fs)));
      NewestFirstOrder(names, MtimeOf(videoDir, fs));
  }

  /** Sorting newest first leaves the times non-increasing and keeps names of equal age in
      the order they came in. */
  lemma NewestFirstOrder(names: seq<string>, mtime: string -> int)
    ensures var r := SortBy(names, NewerFirst(mtime));
      && (forall i, j :: 0 <= i < j < |r| ==> mtime(r[i]) >= mtime(r[j]))
      && forall y :: EquivalentTo(r, y, NewerFirst(mtime)) == EquivalentTo(names, y, NewerFirst(mtime))
  {
    var le := NewerFirst(mtime);
    forall y ensures EquivalentTo(SortBy(names, le), y, le) == EquivalentTo(names, y, le) {
      SortByStable(names, y, le);
    }
  }

  /** The same for the catalog computed from an enumeration of the keys: equal-age files
      keep the order the keys were enumerated in. */
  lemma ListingOrder(order: seq<string>, videoDir: string, sorting: Sorting, fs: FileSystem)
    requires Listing(order, videoDir, sorting, fs).Some?
    ensures var r := Listing(order, videoDir, sorting, fs).value;
      && (sorting == Ascending ==> forall i, j :: 0 <= i < j < |r| ==> LexLe(r[i], r[j]))
      && (sorting == Descending ==> forall i, j :: 0 <= i < j < |r| ==> LexLe(r[j], r[i]))
      && (sorting == Mtime ==>
            (forall i, j :: 0 <= i < j < |r| ==> MtimeOf(videoDir, fs)(r[i]) >= MtimeOf(videoDir, fs)(r[j]))
            && forall y :: EquivalentTo(r, y, NewerFirst(MtimeOf(videoDir, fs)))
                        == EquivalentTo(Names(order, videoDir), y, NewerFirst(MtimeOf(videoDir, fs))))
  {
    SortNamesOrder(Names(order, videoDir), videoDir, sorting, fs);
  }

  // ----- the store -------------------------------------------------------------------------

  class AudioVideoData {
    const dataFile: string
    const videoDir: string
    const audioDir: string
    const disk: Disk
    /** The pairing map: full video path to full audio path. */
    var audioVideo: map<string, string>
    /** The cached catalog; `None` until `list_videos` first computes it. */
    var videoList: Option<seq<string>>
    var sorting: Sorting

    /** `AudioVideoData::new`: nothing cached yet, sorted by name, descending. */
    constructor (dataFile: string, videoDir: string, audioDir: string,
                 audioVideo: map<string, string>, disk: Disk)
      ensures this.dataFile == dataFile && this.videoDir == videoDir && this.audioDir == audioDir
      ensures this.audioVideo == audioVideo && this.disk == disk
      ensures videoList == None && sorting == Descending
    {
      this.dataFile := dataFile;
      this.videoDir := videoDir;
      this.audioDir := audioDir;
      this.audioVideo := audioVideo;
      this.disk := disk;
      videoList := None;
      sorting := Descending;
    }

    /** `save_data`: writes the current map, full paths as they are, to the data file. */
    method SaveData()
      modifies disk`files
      ensures disk.files == old(disk.files)[dataFile := PairingJson(audioVideo)]
    {
      disk.files := disk.files[dataFile := PairingJson(audioVideo)];
    }

    /** `load_data`: inserts every entry of the data file whose video and audio files both
        exist, under their joined paths, leaving other entries of the map alone and the
        cached catalog untouched; writes the map back when, and only when, some entry was
        dropped. */
    method LoadData(fs: FileSystem) returns (outcome: LoadOutcome)
      modifies this`audioVideo, disk`files
      ensures old(dataFile !in disk.files) ==>
        outcome == ReadFailed && audioVideo == old(audioVideo) && disk.files == old(disk.files)
      ensures old(dataFile in disk.files && disk.files[dataFile].Unparsable?) ==>
        outcome == ParseFailed && audioVideo == old(audioVideo) && disk.files == old(disk.files)
      ensures old(dataFile in disk.files && disk.files[dataFile].PairingJson?) ==>
        var doc := old(disk.files[dataFile].pairs);
        && LoadedInto(old(audioVideo), doc, doc.Keys, fs.existing, JoinOnto(videoDir), JoinOnto(audioDir),
                      audioVideo)
        && outcome == Loaded(exists v :: v in doc
                               && !Kept(doc, v, fs.existing, JoinOnto(videoDir), JoinOnto(audioDir)))
        && disk.files == if outcome.resaved then old(disk.files)[dataFile := PairingJson(audioVideo)]
                         else old(disk.files)
    {
      if dataFile !in disk.files {
        return ReadFailed;
      }
      if disk.files[dataFile].Unparsable? {
        return ParseFailed;
      }
      var doc := disk.files[dataFile].pairs;
      var updateSave := InsertSurvivors(doc, fs);
      if updateSave {
        SaveData();
      }
      outcome := Loaded(updateSave);
    }

    /** The loop of `load_data`: inserts each entry of `doc` whose joined video and audio
        paths both exist into the map, in the map's iteration order, and reports whether it
        skipped any. */
    method InsertSurvivors(doc: map<string, string>, fs: FileSystem) returns (dropped: bool)
      modifies this`audioVideo
      ensures LoadedInto(old(audioVideo), doc, doc.Keys, fs.existing, JoinOnto(videoDir), JoinOnto(audioDir),
                         audioVideo)
      ensures dropped <==> exists v :: v in doc && !Kept(doc, v, fs.existing, JoinOnto(videoDir), JoinOnto(audioDir))
    {
      var todo := doc.Keys;
      ghost var done: set<string> := {};
      dropped := false;
      var key, value := JoinOnto(videoDir), JoinOnto(audioDir);
      while todo != {}
        invariant todo !! done && todo + done == doc.Keys
        invariant LoadedInto(old(audioVideo), doc, done, fs.existing, key, value, audioVideo)
        invariant dropped <==> exists v :: v in done && !Kept(doc, v, fs.existing, key, value)
        decreases todo
      {
        var v :| v in todo;
        var fullVideo := Join(videoDir, v);
        var fullAudio := Join(audioDir, doc[v]);
        if fullVideo !in fs.existing || fullAudio !in fs.existing {
          LoadStepDropped(old(audioVideo), doc, done, v, fs.existing, key, value, audioVideo);
          dropped := true;
        } else {
          LoadStepKept(old(audioVideo), doc, done, v, fs.existing, key, value, audioVideo);
          audioVideo := audioVideo[fullVideo := fullAudio];
        }
        todo, done := todo - {v}, done + {v};
      }
      assert done == doc.Keys;
    }

    /** `list_videos`: the cached catalog when there is one (even if the map has changed
        since); otherwise the catalog of the current keys, which becomes the cache. `None`
        stands for the panic of a missing modification time, after which nothing is cached. */
    method ListVideos(fs: FileSystem) returns (r: Option<seq<string>>)
      modifies this`videoList
      ensures old(videoList).Some? ==> r == old(videoList) && videoList == old(videoList)
      ensures old(videoList).None? ==>
        videoList == r && IsListing(audioVideo.Keys, videoDir, sorting, fs, r)
    {
      if videoList.Some? {
        return videoList;
      }
      var order := Enumerate(audioVideo.Keys);
      r := Listing(order, videoDir, sorting, fs);
      videoList := r;
    }

    /** The lookup `play_media` does before starting the players: the stored audio path of
        the video named `videoName` and the video's full path, or `None` where the source's
        `unwrap` would panic on a name that is not a key. */
    method PlayMedia(videoName: string) returns (target: Option<(string, string)>)
      ensures target.Some? <==> Join(videoDir, videoName) in audioVideo
      ensures target.Some? ==>
        target.value.1 == Join(videoDir, videoName) && target.value.0 == audioVideo[target.value.1]
    {
      var videoPath := Join(videoDir, videoName);
      if videoPath in audioVideo {
        target := Some((audioVideo[videoPath], videoPath));
      } else {
        target := None;
      }
    }
  }

  /** A name shown in the catalog leads back to its key when the key is `videoDir` joined
      with a relative name that starts with no separator and, after the directory is
      stripped once, does not start with the directory again. */
  lemma ListedNameResolves(videoDir: string, name: string)
    requires videoDir != []
    requires !StartsWith(name, "/") && !StartsWith(name, "\\")
    requires !StartsWith(Join(videoDir, name)[|videoDir|..], videoDir)
    ensures Join(videoDir, StripVideoDir(Join(videoDir, name), videoDir)) == Join(videoDir, name)
  {
    var key := Join(videoDir, name);
    TrimStartMatchesOnce(key, videoDir);
    var once := key[|videoDir|..];
    TrimStartCharNone(name, '/');
    TrimStartCharNone(name, '\\');
    if videoDir[|videoDir| - 1] == '/' {
      assert once == name;
    } else {
      assert once == "/" + name;
      assert TrimStartChar(once, '/') == TrimStartChar(name, '/');
    }
  }

  /** `trim_start_matches` strips every repetition of the directory: a key holding the
      directory twice (`mv/mv/a.mp4` with `videoDir` `mv/`) is listed under the bare name
      (`a.mp4`), which joins back to a different key (`mv/a.mp4`). */
  lemma RepeatedDirectoryIsStrippedTwice(videoDir: string, name: string)
    requires videoDir != [] && videoDir[|videoDir| - 1] == '/'
    requires !StartsWith(name, "/") && !StartsWith(name, "\\") && !StartsWith(name, videoDir)
    ensures StripVideoDir(videoDir + videoDir + name, videoDir) == name
    ensures Join(videoDir, name) != videoDir + videoDir + name
  {
    var key := videoDir + videoDir + name;
    assert key[|videoDir|..] == videoDir + name;
    assert (videoDir + name)[|videoDir|..] == name;
    TrimStartMatchesOnce(videoDir + name, videoDir);
    assert TrimStartMatches(key, videoDir) == name;
    TrimStartCharNone(name, '/');
    TrimStartCharNone(name, '\\');
    assert |Join(videoDir, name)| < |key|;
  }
}
