/** The pieces of Rust's `std::path` and `str` that the core relies on, as they behave on a
    Unix host, and the filesystem the core observes, reduced to the questions it asks. */
module Paths {
  import opened Wrappers

  predicate StartsWith(s: string, prefix: string) {
    |prefix| <= |s| && s[..|prefix|] == prefix
  }

  predicate EndsWith(s: string, suffix: string) {
    |suffix| <= |s| && s[|s| - |suffix|..] == suffix
  }

  /** Every tail of a string is a suffix of it. */
  lemma SuffixFrom(s: string, i: nat)
    requires i <= |s|
    ensures EndsWith(s, s[i..])
  {
  }

  lemma EndsWithTransitive(a: string, b: string, c: string)
    requires EndsWith(a, b) && EndsWith(b, c)
    ensures EndsWith(a, c)
  {
    assert a[|a| - |c|..] == a[|a| - |b|..][|b| - |c|..];
  }

  /** What the core can learn about the disk: which paths exist (`Path::exists`), the
      modification time of each path whose metadata can be read (`metadata().modified()`),
      and, for each directory `read_dir` can open, the entry paths it yields in its order
      (each is the directory joined with a plain file name; unreadable entries are absent). */
  datatype FileSystem = FileSystem(
    existing: set<string>,
    mtimes: map<string, int>,
    listings: map<string, seq<string>>)

  /** `Path::new(dir).join(p)`: an absolute `p` replaces `dir`; otherwise one `/` separates
      them unless `dir` is empty or already ends in `/`. */
  function Join(dir: string, p: string): (r: string)
    ensures EndsWith(r, p)
    ensures StartsWith(p, "/") ==> r == p
    ensures !StartsWith(p, "/") && (dir == [] || dir[|dir| - 1] == '/') ==> r == dir + p
    ensures !StartsWith(p, "/") && dir != [] && dir[|dir| - 1] != '/' ==> r == dir + "/" + p
  {
    if StartsWith(p, "/") then p
    else if dir == [] || dir[|dir| - 1] == '/' then dir + p
    else dir + "/" + p
  }

  /** `prefix` written `n` times. */
  function Repeat(prefix: string, n: nat): string {
    if n == 0 then [] else prefix + Repeat(prefix, n - 1)
  }

  /** `s.trim_start_matches(prefix)`: strips `prefix` from the front for as long as `s`
      starts with it, so repeated copies all go; an empty pattern strips nothing. */
  function TrimStartMatches(s: string, prefix: string): (r: string)
    ensures EndsWith(s, r)
    ensures prefix == [] ==> r == s
    ensures prefix != [] ==> !StartsWith(r, prefix)
    decreases |s|
  {
    if prefix != [] && StartsWith(s, prefix) then TrimStartMatches(s[|prefix|..], prefix) else s
  }

  /** How many copies of `prefix` `TrimStartMatches` strips from `s`. */
  function TrimmedCopies(s: string, prefix: string): nat
    decreases |s|
  {
    if prefix != [] && StartsWith(s, prefix) then 1 + TrimmedCopies(s[|prefix|..], prefix) else 0
  }

  /** One more copy in front of `n` copies makes `n + 1`. */
  lemma RepeatCons(prefix: string, n: nat, r: string)
    ensures prefix + (Repeat(prefix, n) + r) == Repeat(prefix, n + 1) + r
  {
  }

  /** What `TrimStartMatches` removes is a whole number of copies of the pattern. */
  lemma {:induction false} TrimStartMatchesRemovesCopies(s: string, prefix: string)
    ensures s == Repeat(prefix, TrimmedCopies(s, prefix)) + TrimStartMatches(s, prefix)
    decreases |s|
  {
    if prefix != [] && StartsWith(s, prefix) {
      var rest := s[|prefix|..];
      TrimStartMatchesRemovesCopies(rest, prefix);
      assert s == prefix + rest;
      RepeatCons(prefix, TrimmedCopies(rest, prefix), TrimStartMatches(rest, prefix));
    }
  }

  /** A string holding exactly one leading copy of `prefix` loses just that copy. */
  lemma TrimStartMatchesOnce(s: string, prefix: string)
    requires prefix != [] && StartsWith(s, prefix) && !StartsWith(s[|prefix|..], prefix)
    ensures TrimStartMatches(s, prefix) == s[|prefix|..]
  {
  }

  /** `s.trim_start_matches(c)` for a single character: drops every leading `c`. */
  function TrimStartChar(s: string, c: char): (r: string)
    ensures EndsWith(s, r)
    ensures r == [] || r[0] != c
    ensures forall i :: 0 <= i < |s| - |r| ==> s[i] == c
  {
    if s != [] && s[0] == c then TrimStartChar(s[1..], c) else s
  }

  /** A string that does not start with `c` is left alone by `TrimStartChar`. */
  lemma TrimStartCharNone(s: string, c: char)
    requires s == [] || s[0] != c
    ensures TrimStartChar(s, c) == s
  {
  }

  /** Index of the last `c` in `s`, or -1 when there is none. */
  function LastIndexOf(s: string, c: char): (r: int)
    ensures -1 <= r < |s|
    ensures r >= 0 ==> s[r] == c
    ensures forall i :: r < i < |s| ==> s[i] != c
  {
    if s == [] then -1
    else if s[|s| - 1] == c then |s| - 1
    else LastIndexOf(s[..|s| - 1], c)
  }

  /** `Path::file_name` of a directory entry: the text after the last `/`. */
  function FileName(path: string): (r: string)
    ensures EndsWith(path, r) && '/' !in r
    ensures |r| < |path| ==> path[|path| - |r| - 1] == '/'
  {
    path[LastIndexOf(path, '/') + 1..]
  }

  /** `Path::extension`: the text after the last `.` of the file name, provided that dot is
      not the name's first character; `..` has none. */
  function Extension(path: string): (r: Option<string>)
    ensures r.Some? <==>
      FileName(path) != ".." && exists i :: 0 < i < |FileName(path)| && FileName(path)[i] == '.'
    ensures r.Some? ==> EndsWith(FileName(path), "." + r.value) && '.' !in r.value
  {
    var name := FileName(path);
    var dot := LastIndexOf(name, '.');
    if name == ".." || dot <= 0 then None else Some(name[dot + 1..])
  }

  /** The path has an extension and it is one of `exts`, compared exactly (case-sensitive). */
  predicate HasExtensionIn(path: string, exts: seq<string>) {
    Extension(path).Some? && Extension(path).value in exts
  }
}
