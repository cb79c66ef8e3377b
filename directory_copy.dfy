/** VpmUtils.CopyDirectory: copy a directory tree, keeping the entries whose
    name matches some `match` pattern and no `ignore` pattern, copying the
    files of a directory before recursing into its subdirectories and
    reporting each entry to `progress` before handling it.

    The file system is an input tree and the effects are an output trace of
    actions; paths are sequences of components. WildcardPattern.IsMatch is
    the uninterpreted parameter `isMatch`.
    Line numbers in the comments refer to vpm/src/vpm/utils.cs. */
module DirectoryCopy {
  import opened Wrappers

  type Path = seq<string>

  /** A source directory: its own name, its file names, its subdirectories,
      in the order the listing returns them. */
  datatype Node = Node(name: string, files: seq<string>, subdirs: seq<Node>)

  /** What `progress` receives: a FileInfo or a DirectoryInfo. */
  datatype Entry = FileEntry(path: Path) | DirectoryEntry(path: Path)

  datatype Action =
    | CreateDirectory(path: Path)       // Directory.CreateDirectory
    | Progress(entry: Entry)            // progress?.Invoke(entry)
    | CopyFile(from: Path, to: Path)    // FileInfo.CopyTo(to, overwrite: true)

  datatype Options = Options(
    ignorePatterns: Option<seq<string>>,  // `ignore`, None for null
    matchPatterns: Option<seq<string>>,   // `match`, None for null
    isMatch: (string, string) -> bool,    // new WildcardPattern(pattern).IsMatch(name)
    reportProgress: bool)                 // progress != null

  datatype CopyError = DirectoryNotFound(path: Path)

  // ---------------------------------------------------------------------
  // Filtering

  /** `patterns.Any(p => new WildcardPattern(p).IsMatch(name))`: the
      patterns are tried in order until one matches. */
  predicate AnyMatches(patterns: seq<string>, isMatch: (string, string) -> bool, name: string) {
    patterns != [] && (isMatch(patterns[0], name) || AnyMatches(patterns[1..], isMatch, name))
  }

  /** Any is true exactly when some pattern matches. */
  lemma {:induction false} AnyMatchesSome(patterns: seq<string>, isMatch: (string, string) -> bool, name: string)
    ensures AnyMatches(patterns, isMatch, name) <==> exists p :: p in patterns && isMatch(p, name)
  {
    if patterns != [] {
      AnyMatchesSome(patterns[1..], isMatch, name);
      if exists p :: p in patterns && isMatch(p, name) {
        var p :| p in patterns && isMatch(p, name);
        if p != patterns[0] {
          assert p in patterns[1..];
        }
      }
    }
  }

  /** An entry is kept when it matches some `match` pattern (if `match` is
      given) and no `ignore` pattern (if `ignore` is given). */
  predicate Kept(name: string, opts: Options) {
    && (opts.matchPatterns.Some? ==> AnyMatches(opts.matchPatterns.value, opts.isMatch, name))
    && (opts.ignorePatterns.Some? ==> !AnyMatches(opts.ignorePatterns.value, opts.isMatch, name))
  }

  /** Lines 146-160 and 168-183, as one pass: the listing is filtered by
      `match` (when given) and the result again by `ignore` (when given),
      each pass an eager Where(...).ToArray(). Since IsMatch has no effects,
      this keeps exactly the Kept entries, in listing order; the two-pass
      form is DirectoryCopyProperties.TwoPasses, proved equal to this one. */
  function Filter<T>(entries: seq<T>, nameOf: T -> string, opts: Options): (r: seq<T>)
    ensures |r| <= |entries|
  {
    if entries == [] then []
    else
      (if Kept(nameOf(entries[0]), opts) then [entries[0]] else [])
      + Filter(entries[1..], nameOf, opts)
  }

  /** Every entry the filters let through is Kept. */
  lemma {:induction false} FilterSound<T>(entries: seq<T>, nameOf: T -> string, opts: Options)
    ensures forall i :: 0 <= i < |Filter(entries, nameOf, opts)| ==> Kept(nameOf(Filter(entries, nameOf, opts)[i]), opts)
  {
    if entries != [] {
      FilterSound(entries[1..], nameOf, opts);
      var rest := Filter(entries[1..], nameOf, opts);
      if Kept(nameOf(entries[0]), opts) {
        var r := [entries[0]] + rest;
        assert Filter(entries, nameOf, opts) == r;
        forall i | 0 <= i < |r| ensures Kept(nameOf(r[i]), opts) {
          if i > 0 {
            assert r[i] == rest[i - 1];
          }
        }
      } else {
        assert Filter(entries, nameOf, opts) == rest;
      }
    }
  }

  /** Every Kept entry gets through the filters. */
  lemma {:induction false} FilterComplete<T>(entries: seq<T>, nameOf: T -> string, opts: Options, k: nat)
    requires k < |entries| && Kept(nameOf(entries[k]), opts)
    ensures entries[k] in Filter(entries, nameOf, opts)
  {
    if k > 0 {
      FilterComplete(entries[1..], nameOf, opts, k - 1);
      assert entries[1..][k - 1] == entries[k];
    }
  }

  /** `idx` picks out `r` from `s` at strictly increasing positions. */
  ghost predicate Embedding<T>(idx: seq<int>, r: seq<T>, s: seq<T>) {
    && |idx| == |r|
    && (forall i :: 0 <= i < |idx| ==> 0 <= idx[i] < |s| && s[idx[i]] == r[i])
    && (forall i, j :: 0 <= i < j < |idx| ==> idx[i] < idx[j])
  }

  /** An embedding into the tail of `s`, shifted by one, is an embedding
      into `s` that avoids position 0. */
  lemma Shift<T>(tail: seq<int>, r: seq<T>, s: seq<T>) returns (shifted: seq<int>)
    requires s != [] && Embedding(tail, r, s[1..])
    ensures Embedding(shifted, r, s)
    ensures forall i :: 0 <= i < |shifted| ==> 0 < shifted[i]
  {
    shifted := seq(|tail|, i requires 0 <= i < |tail| => tail[i] + 1);
    forall i | 0 <= i < |shifted| ensures 0 < shifted[i] < |s| && s[shifted[i]] == r[i] {
      assert s[1..][tail[i]] == s[tail[i] + 1];
    }
  }

  /** The filters keep the entries in their listing order: the result is a
      subsequence of the listing. */
  lemma {:induction false} FilterKeepsOrder<T>(entries: seq<T>, nameOf: T -> string, opts: Options)
    returns (idx: seq<int>)
    ensures Embedding(idx, Filter(entries, nameOf, opts), entries)
  {
    if entries == [] {
      idx := [];
    } else {
      var rest := Filter(entries[1..], nameOf, opts);
      var tail := FilterKeepsOrder(entries[1..], nameOf, opts);
      var shifted := Shift(tail, rest, entries);
      if Kept(nameOf(entries[0]), opts) {
        var r := [entries[0]] + rest;
        assert Filter(entries, nameOf, opts) == r;
        idx := [0] + shifted;
        forall i | 0 <= i < |idx| ensures 0 <= idx[i] < |entries| && entries[idx[i]] == r[i] {
          if i > 0 {
            assert idx[i] == shifted[i - 1] && r[i] == rest[i - 1];
          }
        }
        forall i, j | 0 <= i < j < |idx| ensures idx[i] < idx[j] {
          assert idx[j] == shifted[j - 1];
          if i > 0 {
            assert idx[i] == shifted[i - 1];
          }
        }
      } else {
        assert Filter(entries, nameOf, opts) == rest;
        idx := shifted;
      }
    }
  }

  /** Every entry the filters let through is one of the listed entries. */
  lemma FilterMember<T>(entries: seq<T>, nameOf: T -> string, opts: Options, i: nat)
    requires i < |Filter(entries, nameOf, opts)|
    ensures Filter(entries, nameOf, opts)[i] in entries
  {
    var idx := FilterKeepsOrder(entries, nameOf, opts);
    assert entries[idx[i]] == Filter(entries, nameOf, opts)[i];
  }

  function NodeName(d: Node): string { d.name }

  function FileName(f: string): string { f }

  // ---------------------------------------------------------------------
  // The copy, as a trace

  /** `progress?.Invoke(entry)`: one Progress action when a callback is
      given, none otherwise. */
  function Announce(report: bool, entry: Entry): seq<Action> {
    if report then [Progress(entry)] else []
  }

  /** Lines 185-190: each kept file, announced and then copied. */
  function CopyFiles(files: seq<string>, src: Path, dst: Path, report: bool): seq<Action> {
    if files == [] then []
    else
      var f := files[|files| - 1];
      CopyFiles(files[..|files| - 1], src, dst, report)
      + Announce(report, FileEntry(src + [f]))
      + [CopyFile(src + [f], dst + [f])]
  }

  /** The subdirectories of `n` that survive the filters, in listing order. */
  function KeptSubdirs(n: Node, opts: Options): seq<Node> {
    Filter(n.subdirs, NodeName, opts)
  }

  /** Lines 136-198 for a source directory that exists. `existing` holds
      the destination directories that exist before the copy starts. */
  function CopyTree(n: Node, src: Path, dst: Path, opts: Options, existing: set<Path>): seq<Action>
    decreases n, 1
  {
    var create := if dst in existing then [] else [CreateDirectory(dst)];
    var files := Filter(n.files, FileName, opts);
    create + CopyFiles(files, src, dst, opts.reportProgress)
    + CopySubdirs(n, |KeptSubdirs(n, opts)|, src, dst, opts, existing)
  }

  /** Lines 193-198 for the first `count` kept subdirectories of `parent`:
      each one announced and then copied recursively into the destination
      directory of the same name. */
  function CopySubdirs(parent: Node, count: nat, src: Path, dst: Path, opts: Options, existing: set<Path>): seq<Action>
    requires count <= |KeptSubdirs(parent, opts)|
    decreases parent, 0, count
  {
    if count == 0 then []
    else
      var d := KeptSubdirs(parent, opts)[count - 1];
      FilterMember(parent.subdirs, NodeName, opts, count - 1);
      assert exists k :: 0 <= k < |parent.subdirs| && parent.subdirs[k] == d;
      CopySubdirs(parent, count - 1, src, dst, opts, existing)
      + Announce(opts.reportProgress, DirectoryEntry(src + [d.name]))
      + CopyTree(d, src + [d.name], dst + [d.name], opts, existing)
  }

  /** Lines 185-190: the loop over the kept files. */
  method CopyKeptFiles(files: seq<string>, src: Path, dst: Path, report: bool) returns (actions: seq<Action>)
    ensures actions == CopyFiles(files, src, dst, report)
  {
    actions := [];
    for i := 0 to |files|
      invariant actions == CopyFiles(files[..i], src, dst, report)
    {
      assert files[..i + 1][..i] == files[..i];
      var file := files[i];
      actions := actions + Announce(report, FileEntry(src + [file]));
      actions := actions + [CopyFile(src + [file], dst + [file])];
    }
    assert files[..|files|] == files;
  }

  /** Lines 136-198 on a source that exists: create the destination if it
      is missing, copy the kept files, then the kept subdirectories. */
  method CopyContents(n: Node, src: Path, dst: Path, opts: Options, existing: set<Path>)
    returns (actions: seq<Action>)
    ensures actions == CopyTree(n, src, dst, opts, existing)
    decreases n, 1
  {
    actions := [];
    if dst !in existing {
      actions := [CreateDirectory(dst)];
    }
    var files := Filter(n.files, FileName, opts);
    var copies := CopyKeptFiles(files, src, dst, opts.reportProgress);
    actions := actions + copies;
    var recursions := CopyKeptSubdirs(n, src, dst, opts, existing);
    actions := actions + recursions;
  }

  /** Lines 193-198: the loop over the kept subdirectories. */
  method CopyKeptSubdirs(n: Node, src: Path, dst: Path, opts: Options, existing: set<Path>)
    returns (actions: seq<Action>)
    ensures actions == CopySubdirs(n, |KeptSubdirs(n, opts)|, src, dst, opts, existing)
    decreases n, 0
  {
    var dirs := KeptSubdirs(n, opts);
    actions := [];
    for j := 0 to |dirs|
      invariant actions == CopySubdirs(n, j, src, dst, opts, existing)
    {
      var subdir := dirs[j];
      FilterMember(n.subdirs, NodeName, opts, j);
      assert exists k :: 0 <= k < |n.subdirs| && n.subdirs[k] == subdir;
      actions := actions + Announce(opts.reportProgress, DirectoryEntry(src + [subdir.name]));
      var sub := CopyContents(subdir, src + [subdir.name], dst + [subdir.name], opts, existing);
      actions := actions + sub;
    }
  }

  /** Lines 128-199: a missing source fails before anything is done;
      otherwise the tree is copied. */
  method CopyDirectory(source: Option<Node>, src: Path, dst: Path, opts: Options, existing: set<Path>)
    returns (r: Result<seq<Action>, CopyError>)
    ensures source.None? ==> r == Failure(DirectoryNotFound(src))
    ensures source.Some? ==> r == Success(CopyTree(source.value, src, dst, opts, existing))
  {
    if source.None? {
      return Failure(DirectoryNotFound(src));
    }
    var actions := CopyContents(source.value, src, dst, opts, existing);
    r := Success(actions);
  }
}
