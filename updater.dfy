/** The update session's scanner: `MVList` of src/views/updater.rs. It lists the video files
    of the video directory that have no audio track paired yet and the audio files of the
    audio directory, each scan done once and cached, and stops early when no video is left
    to pair. */
module Updater {
  import opened Wrappers
  import opened Sequences
  import opened Paths
  import opened Menu

  /** The extensions `scan_mvs` accepts, compared exactly. */
  const VideoExts: seq<string> := ["mp4", "mkv", "avi", "webm", "ts", "flv", "wmv", "mov", "mpg", "mpeg"]

  /** The extensions `scan_audio` accepts, compared exactly. */
  const AudioExts: seq<string> := ["mp3", "wav", "ogg", "flac", "m4a", "aac"]

  /** The test `scan_mvs` applies to each directory entry: a video extension, and no pairing
      stored under the entry's path yet. */
  function VideoKeep(paired: map<string, string>): (keep: string -> bool)
    ensures forall e :: keep(e) <==> HasExtensionIn(e, VideoExts) && e !in paired
  {
    e => HasExtensionIn(e, VideoExts) && e !in paired
  }

  /** The test `scan_audio` applies to each directory entry: an audio extension. */
  function AudioKeep(): (keep: string -> bool)
    ensures forall e :: keep(e) <==> HasExtensionIn(e, AudioExts)
  {
    e => HasExtensionIn(e, AudioExts)
  }

  /** How a directory scan ends: the kept entry paths in listing order, or the panic of the
      `assert!(exists)` on a missing directory, or of `read_dir().unwrap()` on one that
      cannot be read. */
  datatype Scan = Found(paths: seq<string>) | Missing(dir: string) | Unreadable(dir: string)

  /** The scan of `dir`, keeping the entries that pass `keep`. */
  function ScanDir(fs: FileSystem, dir: string, keep: string -> bool): (r: Scan)
    ensures r.Missing? <==> dir !in fs.existing
    ensures r.Unreadable? <==> dir in fs.existing && dir !in fs.listings
    ensures r.Found? ==> Subsequence(r.paths, fs.listings[dir])
    ensures r.Found? ==> forall e :: e in r.paths <==> e in fs.listings[dir] && keep(e)
  {
    if dir !in fs.existing then Missing(dir)
    else if dir !in fs.listings then Unreadable(dir)
    else Found(Filter(fs.listings[dir], keep))
  }

  /** A video scan yields exactly the listed entries with a video extension that are not
      paired yet, in listing order, and each is a path whose file name ends in `.` and one of
      the video extensions; it fails exactly when the directory is missing or unreadable. */
  lemma VideoScanProperties(fs: FileSystem, dir: string, paired: map<string, string>)
    ensures ScanDir(fs, dir, VideoKeep(paired)).Missing? <==> dir !in fs.existing
    ensures ScanDir(fs, dir, VideoKeep(paired)).Unreadable? <==> dir in fs.existing && dir !in fs.listings
    ensures ScanDir(fs, dir, VideoKeep(paired)).Found? ==>
      var found := ScanDir(fs, dir, VideoKeep(paired)).paths;
      && Subsequence(found, fs.listings[dir])
      && (forall e :: e in found <==> e in fs.listings[dir] && HasExtensionIn(e, VideoExts) && e !in paired)
      && (forall e :: e in found ==>
            exists x :: x in VideoExts && EndsWith(FileName(e), "." + x))
  {
    var scan := ScanDir(fs, dir, VideoKeep(paired));
    if scan.Found? {
      forall e | e in scan.paths
        ensures exists x :: x in VideoExts && EndsWith(FileName(e), "." + x)
      {
        var x := Extension(e).value;
        assert x in VideoExts && EndsWith(FileName(e), "." + x);
      }
    }
  }

  /** An audio scan yields exactly the listed entries with an audio extension, in listing
      order, excluding nothing else; it fails exactly when the directory is missing or
      unreadable. */
  lemma AudioScanProperties(fs: FileSystem, dir: string)
    ensures ScanDir(fs, dir, AudioKeep()).Missing? <==> dir !in fs.existing
    ensures ScanDir(fs, dir, AudioKeep()).Unreadable? <==> dir in fs.existing && dir !in fs.listings
    ensures ScanDir(fs, dir, AudioKeep()).Found? ==>
      var found := ScanDir(fs, dir, AudioKeep()).paths;
      && Subsequence(found, fs.listings[dir])
      && (forall e :: e in found <==> e in fs.listings[dir] && HasExtensionIn(e, AudioExts))
      && (forall e :: HasExtensionIn(e, AudioExts) ==> multiset(found)[e] == multiset(fs.listings[dir])[e])
  {
  }

  // ----- start -------------------------------------------------------------------------------

  /** The cached scan results, `mvs_found` and `audio_found`. */
  datatype Caches = Caches(mvsFound: Option<seq<string>>, audioFound: Option<seq<string>>)

  /** How `start` ends: it returns to a view, a scan panics, or it reaches the `todo!()` that
      stands for the rest of the session. */
  datatype StartOutcome = Returned(next: MenuOption) | Panicked(scan: Scan) | ReachedTodo

  /** The cached scan when there is one, otherwise a fresh scan. */
  function Cached(cache: Option<seq<string>>, fs: FileSystem, dir: string, keep: string -> bool): Scan {
    if cache.Some? then Found(cache.value) else ScanDir(fs, dir, keep)
  }

  /** What `start` does to the caches, and how it ends. */
  function StartSpec(c: Caches, fs: FileSystem, mvDir: string, audioDir: string,
                     paired: map<string, string>): (StartOutcome, Caches)
  {
    var videos := Cached(c.mvsFound, fs, mvDir, VideoKeep(paired));
    if !videos.Found? then (Panicked(videos), c)
    else
      var c1 := c.(mvsFound := Some(videos.paths));
      if videos.paths == [] then (Returned(MenuOption.MVSelector), c1)
      else
        var audio := Cached(c.audioFound, fs, audioDir, AudioKeep());
        if !audio.Found? then (Panicked(audio), c1)
        else (ReachedTodo, c1.(audioFound := Some(audio.paths)))
  }

  /** `start` returns to the selector exactly when no unpaired video is left, and then it
      scans no audio; otherwise, unless a scan panics, both lists end up cached. */
  lemma StartReturnsWhenNothingToPair(c: Caches, fs: FileSystem, mvDir: string, audioDir: string,
                                      paired: map<string, string>)
    ensures var (outcome, c') := StartSpec(c, fs, mvDir, audioDir, paired);
      var videos := Cached(c.mvsFound, fs, mvDir, VideoKeep(paired));
      && (outcome == Returned(MenuOption.MVSelector) <==> videos == Found([]))
      && (outcome.Returned? ==> c'.audioFound == c.audioFound)
      && (outcome == ReachedTodo <==>
            videos.Found? && videos.paths != [] && Cached(c.audioFound, fs, audioDir, AudioKeep()).Found?)
      && (!outcome.Panicked? ==> c'.mvsFound == Some(videos.paths))
      && (outcome == ReachedTodo ==> c'.audioFound.Some?)
  {
  }

  /** The caches make `start` repeatable: once a start has not panicked, starting again, on
      whatever filesystem, scans nothing and ends the same way with the same caches. */
  lemma StartReusesCaches(c: Caches, fs1: FileSystem, fs2: FileSystem, mvDir: string, audioDir: string,
                          paired: map<string, string>)
    requires !StartSpec(c, fs1, mvDir, audioDir, paired).0.Panicked?
    ensures var first := StartSpec(c, fs1, mvDir, audioDir, paired);
      StartSpec(first.1, fs2, mvDir, audioDir, paired) == first
  {
  }

  // ----- the session -------------------------------------------------------------------------

  class MVList {
    const mvDir: string
    const audioDir: string
    /** The pairings stored so far: full video path to full audio path. */
    const audioVideo: map<string, string>
    var mvsFound: Option<seq<string>>
    var audioFound: Option<seq<string>>

    /** `MVList::new`: the given map, nothing scanned yet. */
    constructor (mvDir: string, audioDir: string, audioVideo: map<string, string>)
      ensures this.mvDir == mvDir && this.audioDir == audioDir && this.audioVideo == audioVideo
      ensures mvsFound == None && audioFound == None
    {
      this.mvDir := mvDir;
      this.audioDir := audioDir;
      this.audioVideo := audioVideo;
      mvsFound := None;
      audioFound := None;
    }

    /** `scan_mvs`: caches the unpaired video entries of the video directory; a failed scan
        (a panic in the source) leaves the cache alone. */
    method ScanMvs(fs: FileSystem) returns (scan: Scan)
      modifies this`mvsFound
      ensures scan == ScanDir(fs, mvDir, VideoKeep(audioVideo))
      ensures scan.Found? ==> mvsFound == Some(scan.paths)
      ensures !scan.Found? ==> mvsFound == old(mvsFound)
    {
      if mvDir !in fs.existing {
        return Missing(mvDir);
      }
      if mvDir !in fs.listings {
        return Unreadable(mvDir);
      }
      var found := Filter(fs.listings[mvDir], VideoKeep(audioVideo));
      mvsFound := Some(found);
      scan := Found(found);
    }

    /** `scan_audio`: caches the audio entries of the audio directory (not its
        subdirectories); a failed scan leaves the cache alone. */
    method ScanAudio(fs: FileSystem) returns (scan: Scan)
      modifies this`audioFound
      ensures scan == ScanDir(fs, audioDir, AudioKeep())
      ensures scan.Found? ==> audioFound == Some(scan.paths)
      ensures !scan.Found? ==> audioFound == old(audioFound)
    {
      if audioDir !in fs.existing {
        return Missing(audioDir);
      }
      if audioDir !in fs.listings {
        return Unreadable(audioDir);
      }
      var found := Filter(fs.listings[audioDir], AudioKeep());
      audioFound := Some(found);
      scan := Found(found);
    }

    /** `start`, up to its `todo!()`: scans the videos unless they are cached, returns to the
        selector when none is left to pair, and otherwise scans the audio unless it is
        cached. */
    method Start(fs: FileSystem) returns (outcome: StartOutcome)
      modifies this`mvsFound, this`audioFound
      ensures (outcome, Caches(mvsFound, audioFound))
           == StartSpec(old(Caches(mvsFound, audioFound)), fs, mvDir, audioDir, audioVideo)
    {
      if mvsFound.None? {
        var scan := ScanMvs(fs);
        if !scan.Found? {
          return Panicked(scan);
        }
      }
      if mvsFound.value == [] {
        return Returned(MenuOption.MVSelector);
      }
      if audioFound.None? {
        var scan := ScanAudio(fs);
        if !scan.Found? {
          return Panicked(scan);
        }
      }
      outcome := ReachedTodo;
    }
  }
}
