/** What the trace of VpmUtils.CopyDirectory promises: the two Where passes
    amount to one Kept test per entry, every action stays inside the source
    and destination trees along kept names, the files of a directory are
    copied before anything happens in its subdirectories, exactly the kept
    files of the top directory are copied to the same name, and with a
    progress callback every copy is announced just before it happens; every
    file at every depth is copied exactly when all the names on its path are
    kept, and each kept subdirectory's copy appears whole in its parent's.
    Line numbers in the comments refer to vpm/src/vpm/utils.cs. */
module DirectoryCopyProperties {
  import opened Wrappers
  import opened DirectoryCopy

  // ---------------------------------------------------------------------
  // The filters as written: two eager Where passes

  /** One `Where(...).ToArray()` pass: the entries for which "some pattern
      matches the name" equals `wanted`, in listing order. */
  function Where<T>(entries: seq<T>, nameOf: T -> string, patterns: seq<string>,
                    isMatch: (string, string) -> bool, wanted: bool): (r: seq<T>)
    ensures |r| <= |entries|
  {
    if entries == [] then []
    else
      (if AnyMatches(patterns, isMatch, nameOf(entries[0])) == wanted then [entries[0]] else [])
      + Where(entries[1..], nameOf, patterns, isMatch, wanted)
  }

  /** Lines 146-160 / 168-183 as written: the `match` pass when `match` is
      given, then the `ignore` pass over its result when `ignore` is given. */
  function TwoPasses<T>(entries: seq<T>, nameOf: T -> string, opts: Options): seq<T> {
    var matched :=
      if opts.matchPatterns.Some?
      then Where(entries, nameOf, opts.matchPatterns.value, opts.isMatch, true)
      else entries;
    if opts.ignorePatterns.Some?
    then Where(matched, nameOf, opts.ignorePatterns.value, opts.isMatch, false)
    else matched
  }

  /** A Where pass over a concatenation is the concatenation of the passes. */
  lemma {:induction false} WhereAppend<T>(a: seq<T>, b: seq<T>, nameOf: T -> string, patterns: seq<string>,
                                          isMatch: (string, string) -> bool, wanted: bool)
    ensures Where(a + b, nameOf, patterns, isMatch, wanted)
         == Where(a, nameOf, patterns, isMatch, wanted) + Where(b, nameOf, patterns, isMatch, wanted)
  {
    if a == [] {
      assert a + b == b;
    } else {
      assert (a + b)[1..] == a[1..] + b;
      WhereAppend(a[1..], b, nameOf, patterns, isMatch, wanted);
    }
  }

  /** The two passes keep exactly what one pass testing Kept keeps, in the
      same order: WildcardPattern.IsMatch has no effects, so splitting the
      test in two passes changes nothing. */
  lemma {:induction false} FilterIsTwoPasses<T>(entries: seq<T>, nameOf: T -> string, opts: Options)
    ensures Filter(entries, nameOf, opts) == TwoPasses(entries, nameOf, opts)
  {
    if entries != [] {
      FilterIsTwoPasses(entries[1..], nameOf, opts);
      var x := entries[0];
      var head := [x];
      assert entries == head + entries[1..];
      if opts.matchPatterns.Some? {
        WhereAppend(head, entries[1..], nameOf, opts.matchPatterns.value, opts.isMatch, true);
      }
      var m1 := if opts.matchPatterns.Some? then Where(head, nameOf, opts.matchPatterns.value, opts.isMatch, true) else head;
      var m2 := if opts.matchPatterns.Some? then Where(entries[1..], nameOf, opts.matchPatterns.value, opts.isMatch, true) else entries[1..];
      assert (if opts.matchPatterns.Some? then Where(entries, nameOf, opts.matchPatterns.value, opts.isMatch, true) else entries) == m1 + m2;
      if opts.ignorePatterns.Some? {
        WhereAppend(m1, m2, nameOf, opts.ignorePatterns.value, opts.isMatch, false);
        if m1 != [] {
          assert m1 == head;
          assert Where(m1, nameOf, opts.ignorePatterns.value, opts.isMatch, false)
              == (if Kept(nameOf(x), opts) then [x] else []) + [];
        }
      }
    }
  }

  // ---------------------------------------------------------------------
  // Where each action happens

  /** `p` lies strictly inside the directory `root`. */
  ghost predicate Under(p: Path, root: Path) {
    |root| < |p| && p[..|root|] == root
  }

  /** Every component of `p` below `root` is a name the filters keep. */
  ghost predicate KeptBelow(p: Path, root: Path, opts: Options) {
    forall k :: |root| <= k < |p| ==> Kept(p[k], opts)
  }

  /** A directory is created only if it did not exist, at or below `dst`
      along kept names; progress is reported only to a callback, for an
      entry below `src` along kept names; a file below `src` along kept
      names is copied to the same relative path below `dst`. */
  ghost predicate WellPlaced(a: Action, src: Path, dst: Path, opts: Options, existing: set<Path>) {
    match a
    case CreateDirectory(p) =>
      |dst| <= |p| && p[..|dst|] == dst && p !in existing && KeptBelow(p, dst, opts)
    case Progress(e) =>
      opts.reportProgress && Under(e.path, src) && KeptBelow(e.path, src, opts)
    case CopyFile(from, to) =>
      Under(from, src) && KeptBelow(from, src, opts) && to == dst + from[|src|..]
  }

  ghost predicate AllWellPlaced(t: seq<Action>, src: Path, dst: Path, opts: Options, existing: set<Path>) {
    forall i :: 0 <= i < |t| ==> WellPlaced(t[i], src, dst, opts, existing)
  }

  lemma AllWellPlacedAppend(a: seq<Action>, b: seq<Action>, src: Path, dst: Path, opts: Options, existing: set<Path>)
    requires AllWellPlaced(a, src, dst, opts, existing) && AllWellPlaced(b, src, dst, opts, existing)
    ensures AllWellPlaced(a + b, src, dst, opts, existing)
  {
    forall i | 0 <= i < |a + b| ensures WellPlaced((a + b)[i], src, dst, opts, existing) {
      if i >= |a| {
        assert (a + b)[i] == b[i - |a|];
      }
    }
  }

  /** An action placed inside the subdirectory `name` of `src`, copied to
      the subdirectory `name` of `dst`, is placed inside `src` and `dst`
      when `name` is kept. */
  lemma Widen(a: Action, src: Path, dst: Path, name: string, opts: Options, existing: set<Path>)
    requires Kept(name, opts)
    requires WellPlaced(a, src + [name], dst + [name], opts, existing)
    ensures WellPlaced(a, src, dst, opts, existing)
  {
    match a
    case CreateDirectory(p) =>
      assert p[..|dst|] == p[..|dst| + 1][..|dst|];
      assert p[|dst|] == p[..|dst| + 1][|dst|];
    case Progress(e) =>
      assert e.path[..|src|] == e.path[..|src| + 1][..|src|];
      assert e.path[|src|] == e.path[..|src| + 1][|src|];
    case CopyFile(from, to) =>
      assert from[..|src|] == from[..|src| + 1][..|src|];
      assert from[|src|] == from[..|src| + 1][|src|];
      assert from[|src|..] == [name] + from[|src| + 1..];
      assert to == (dst + [name]) + from[|src| + 1..];
  }

  /** The file loop places every action. */
  lemma {:induction false} FilesWellPlaced(files: seq<string>, src: Path, dst: Path, opts: Options, existing: set<Path>)
    requires forall i :: 0 <= i < |files| ==> Kept(files[i], opts)
    ensures AllWellPlaced(CopyFiles(files, src, dst, opts.reportProgress), src, dst, opts, existing)
  {
    if files != [] {
      var f := files[|files| - 1];
      var front := files[..|files| - 1];
      FilesWellPlaced(front, src, dst, opts, existing);
      var p := src + [f];
      assert p[..|src|] == src && p[|src|..] == [f] && p[|src|] == f;
      var step := Announce(opts.reportProgress, FileEntry(p)) + [CopyFile(p, dst + [f])];
      assert AllWellPlaced(step, src, dst, opts, existing);
      AllWellPlacedAppend(CopyFiles(front, src, dst, opts.reportProgress), step, src, dst, opts, existing);
    }
  }

  /** Lines 136-198: every action of the copy of a tree is placed inside
      the source and destination trees, along kept names only, with
      directories created only where none existed and progress reported
      only to a callback. */
  lemma {:induction false} TreeWellPlaced(n: Node, src: Path, dst: Path, opts: Options, existing: set<Path>)
    ensures AllWellPlaced(CopyTree(n, src, dst, opts, existing), src, dst, opts, existing)
    decreases n, 1
  {
    var create: seq<Action> := if dst in existing then [] else [CreateDirectory(dst)];
    assert dst[..|dst|] == dst;
    assert AllWellPlaced(create, src, dst, opts, existing);
    var files := Filter(n.files, FileName, opts);
    FilterSound(n.files, FileName, opts);
    FilesWellPlaced(files, src, dst, opts, existing);
    var copies := CopyFiles(files, src, dst, opts.reportProgress);
    AllWellPlacedAppend(create, copies, src, dst, opts, existing);
    SubdirsWellPlaced(n, |KeptSubdirs(n, opts)|, src, dst, opts, existing);
    AllWellPlacedAppend(create + copies, CopySubdirs(n, |KeptSubdirs(n, opts)|, src, dst, opts, existing),
                        src, dst, opts, existing);
  }

  lemma {:induction false} SubdirsWellPlaced(n: Node, count: nat, src: Path, dst: Path, opts: Options, existing: set<Path>)
    requires count <= |KeptSubdirs(n, opts)|
    ensures AllWellPlaced(CopySubdirs(n, count, src, dst, opts, existing), src, dst, opts, existing)
    decreases n, 0, count
  {
    if count > 0 {
      SubdirsWellPlaced(n, count - 1, src, dst, opts, existing);
      var d := KeptSubdirs(n, opts)[count - 1];
      FilterMember(n.subdirs, NodeName, opts, count - 1);
      assert exists k :: 0 <= k < |n.subdirs| && n.subdirs[k] == d;
      FilterSound(n.subdirs, NodeName, opts);
      assert Kept(d.name, opts);
      var p := src + [d.name];
      assert p[..|src|] == src && p[|src|] == d.name;
      var announce := Announce(opts.reportProgress, DirectoryEntry(p));
      assert AllWellPlaced(announce, src, dst, opts, existing);
      var sub := CopyTree(d, p, dst + [d.name], opts, existing);
      TreeWellPlaced(d, p, dst + [d.name], opts, existing);
      forall i | 0 <= i < |sub| ensures WellPlaced(sub[i], src, dst, opts, existing) {
        Widen(sub[i], src, dst, d.name, opts, existing);
      }
      var before := CopySubdirs(n, count - 1, src, dst, opts, existing);
      AllWellPlacedAppend(before, announce, src, dst, opts, existing);
      AllWellPlacedAppend(before + announce, sub, src, dst, opts, existing);
    }
  }

  /** Without a progress callback the trace holds no Progress action. */
  lemma NoProgressWithoutCallback(n: Node, src: Path, dst: Path, opts: Options, existing: set<Path>)
    requires !opts.reportProgress
    ensures forall a :: a in CopyTree(n, src, dst, opts, existing) ==> !a.Progress?
  {
    TreeWellPlaced(n, src, dst, opts, existing);
  }

  // ---------------------------------------------------------------------
  // Files before subdirectories

  /** An action about a file directly inside `src`. */
  ghost predicate DirectFile(a: Action, src: Path) {
    || (a.CopyFile? && |a.from| == |src| + 1)
    || (a.Progress? && a.entry.FileEntry? && |a.entry.path| == |src| + 1)
  }

  /** An action about a subdirectory of `src` or something inside one. */
  ghost predicate InSubdirectory(a: Action, src: Path, dst: Path) {
    match a
    case CreateDirectory(p) => |p| > |dst|
    case Progress(e) => e.DirectoryEntry? || |e.path| > |src| + 1
    case CopyFile(from, _) => |from| > |src| + 1
  }

  ghost predicate AllDirect(t: seq<Action>, src: Path, dst: Path) {
    forall i :: 0 <= i < |t| ==> DirectFile(t[i], src) && !InSubdirectory(t[i], src, dst)
  }

  ghost predicate AllInSubdirectory(t: seq<Action>, src: Path, dst: Path) {
    forall i :: 0 <= i < |t| ==> InSubdirectory(t[i], src, dst)
  }

  /** No action about a direct file comes after one in a subdirectory. */
  ghost predicate FilesFirst(t: seq<Action>, src: Path, dst: Path) {
    forall i, j :: 0 <= i < j < |t| && InSubdirectory(t[i], src, dst) ==> !DirectFile(t[j], src)
  }

  lemma {:induction false} FilesAreDirect(files: seq<string>, src: Path, dst: Path, report: bool)
    ensures AllDirect(CopyFiles(files, src, dst, report), src, dst)
  {
    if files != [] {
      FilesAreDirect(files[..|files| - 1], src, dst, report);
      var f := files[|files| - 1];
      var before := CopyFiles(files[..|files| - 1], src, dst, report);
      var step := Announce(report, FileEntry(src + [f])) + [CopyFile(src + [f], dst + [f])];
      var t := before + step;
      forall i | 0 <= i < |t| ensures DirectFile(t[i], src) && !InSubdirectory(t[i], src, dst) {
        if i >= |before| {
          assert t[i] == step[i - |before|];
        }
      }
    }
  }

  lemma {:induction false} SubdirsAreDeeper(n: Node, count: nat, src: Path, dst: Path, opts: Options, existing: set<Path>)
    requires count <= |KeptSubdirs(n, opts)|
    ensures AllInSubdirectory(CopySubdirs(n, count, src, dst, opts, existing), src, dst)
    decreases count
  {
    if count > 0 {
      SubdirsAreDeeper(n, count - 1, src, dst, opts, existing);
      var d := KeptSubdirs(n, opts)[count - 1];
      var p := src + [d.name];
      var q := dst + [d.name];
      var before := CopySubdirs(n, count - 1, src, dst, opts, existing);
      var announce := Announce(opts.reportProgress, DirectoryEntry(p));
      var sub := CopyTree(d, p, q, opts, existing);
      TreeWellPlaced(d, p, q, opts, existing);
      var t := before + announce + sub;
      forall i | 0 <= i < |t| ensures InSubdirectory(t[i], src, dst) {
        if |before| + |announce| <= i {
          var k := i - |before| - |announce|;
          assert t[i] == sub[k];
          assert WellPlaced(sub[k], p, q, opts, existing);
        } else if |before| <= i {
          assert t[i] == announce[i - |before|];
        }
      }
    }
  }

  /** Lines 185-198: in the copy of a directory, no file directly inside
      it is announced or copied after anything has happened in one of its
      subdirectories. */
  lemma FilesBeforeSubdirectories(n: Node, src: Path, dst: Path, opts: Options, existing: set<Path>)
    ensures FilesFirst(CopyTree(n, src, dst, opts, existing), src, dst)
  {
    var create: seq<Action> := if dst in existing then [] else [CreateDirectory(dst)];
    var copies := CopyFiles(Filter(n.files, FileName, opts), src, dst, opts.reportProgress);
    var subdirs := CopySubdirs(n, |KeptSubdirs(n, opts)|, src, dst, opts, existing);
    FilesAreDirect(Filter(n.files, FileName, opts), src, dst, opts.reportProgress);
    SubdirsAreDeeper(n, |KeptSubdirs(n, opts)|, src, dst, opts, existing);
    var t := create + copies + subdirs;
    forall i, j | 0 <= i < j < |t| ensures InSubdirectory(t[i], src, dst) ==> !DirectFile(t[j], src) {
      if j >= |create| + |copies| {
        assert t[j] == subdirs[j - |create| - |copies|];
      } else if i < |create| {
        assert t[i] == CreateDirectory(dst);
      } else {
        assert t[i] == copies[i - |create|];
      }
    }
  }

  // ---------------------------------------------------------------------
  // Which files of the top directory are copied

  lemma {:induction false} CopyFilesCopies(files: seq<string>, src: Path, dst: Path, report: bool, x: string)
    ensures CopyFile(src + [x], dst + [x]) in CopyFiles(files, src, dst, report) <==> x in files
  {
    if files != [] {
      var front := files[..|files| - 1];
      var f := files[|files| - 1];
      CopyFilesCopies(front, src, dst, report, x);
      assert files == front + [f];
      var step := Announce(report, FileEntry(src + [f])) + [CopyFile(src + [f], dst + [f])];
      if CopyFile(src + [x], dst + [x]) in step {
        assert (src + [x])[|src|] == x && (src + [f])[|src|] == f;
      }
    }
  }

  /** Lines 168-190: a file `x` directly inside the source is copied to the
      same name directly inside the destination exactly when it is listed
      and its name is kept. */
  lemma DirectCopies(n: Node, src: Path, dst: Path, opts: Options, existing: set<Path>, x: string)
    ensures CopyFile(src + [x], dst + [x]) in CopyTree(n, src, dst, opts, existing)
        <==> x in n.files && Kept(x, opts)
  {
    var files := Filter(n.files, FileName, opts);
    var create: seq<Action> := if dst in existing then [] else [CreateDirectory(dst)];
    var copies := CopyFiles(files, src, dst, opts.reportProgress);
    var subdirs := CopySubdirs(n, |KeptSubdirs(n, opts)|, src, dst, opts, existing);
    var a := CopyFile(src + [x], dst + [x]);
    CopyFilesCopies(files, src, dst, opts.reportProgress, x);
    SubdirsAreDeeper(n, |KeptSubdirs(n, opts)|, src, dst, opts, existing);
    forall i | 0 <= i < |subdirs| ensures subdirs[i] != a {
      assert InSubdirectory(subdirs[i], src, dst);
    }
    assert a !in create;
    assert CopyTree(n, src, dst, opts, existing) == create + copies + subdirs;
    if x in files {
      var i :| 0 <= i < |files| && files[i] == x;
      FilterMember(n.files, FileName, opts, i);
      FilterSound(n.files, FileName, opts);
    }
    if x in n.files && Kept(x, opts) {
      var k :| 0 <= k < |n.files| && n.files[k] == x;
      FilterComplete(n.files, FileName, opts, k);
    }
  }

  // ---------------------------------------------------------------------
  // Announcements

  /** Every copy is immediately preceded by the progress report of its file. */
  ghost predicate Announced(t: seq<Action>) {
    forall i :: 0 <= i < |t| && t[i].CopyFile? ==> 0 < i && t[i - 1] == Progress(FileEntry(t[i].from))
  }

  lemma AnnouncedAppend(a: seq<Action>, b: seq<Action>)
    requires Announced(a) && Announced(b)
    ensures Announced(a + b)
  {
    forall i | 0 <= i < |a + b| && (a + b)[i].CopyFile?
      ensures 0 < i && (a + b)[i - 1] == Progress(FileEntry((a + b)[i].from))
    {
      if i >= |a| {
        assert (a + b)[i] == b[i - |a|] && (a + b)[i - 1] == b[i - 1 - |a|];
      }
    }
  }

  lemma {:induction false} FilesAnnounced(files: seq<string>, src: Path, dst: Path)
    ensures Announced(CopyFiles(files, src, dst, true))
  {
    if files != [] {
      FilesAnnounced(files[..|files| - 1], src, dst);
      var f := files[|files| - 1];
      var step := [Progress(FileEntry(src + [f]))] + [CopyFile(src + [f], dst + [f])];
      assert Announced(step);
      AnnouncedAppend(CopyFiles(files[..|files| - 1], src, dst, true), step);
    }
  }

  /** Lines 185-190 with a progress callback: each file, at every depth, is
      reported to the callback right before it is copied. */
  lemma {:induction false} TreeAnnounced(n: Node, src: Path, dst: Path, opts: Options, existing: set<Path>)
    requires opts.reportProgress
    ensures Announced(CopyTree(n, src, dst, opts, existing))
    decreases n, 1
  {
    var create: seq<Action> := if dst in existing then [] else [CreateDirectory(dst)];
    assert Announced(create);
    var copies := CopyFiles(Filter(n.files, FileName, opts), src, dst, true);
    FilesAnnounced(Filter(n.files, FileName, opts), src, dst);
    AnnouncedAppend(create, copies);
    SubdirsAnnounced(n, |KeptSubdirs(n, opts)|, src, dst, opts, existing);
    AnnouncedAppend(create + copies, CopySubdirs(n, |KeptSubdirs(n, opts)|, src, dst, opts, existing));
  }

  lemma {:induction false} SubdirsAnnounced(n: Node, count: nat, src: Path, dst: Path, opts: Options, existing: set<Path>)
    requires opts.reportProgress && count <= |KeptSubdirs(n, opts)|
    ensures Announced(CopySubdirs(n, count, src, dst, opts, existing))
    decreases n, 0, count
  {
    if count > 0 {
      SubdirsAnnounced(n, count - 1, src, dst, opts, existing);
      var d := KeptSubdirs(n, opts)[count - 1];
      FilterMember(n.subdirs, NodeName, opts, count - 1);
      assert exists k :: 0 <= k < |n.subdirs| && n.subdirs[k] == d;
      var announce := Announce(true, DirectoryEntry(src + [d.name]));
      assert Announced(announce);
      TreeAnnounced(d, src + [d.name], dst + [d.name], opts, existing);
      var before := CopySubdirs(n, count - 1, src, dst, opts, existing);
      AnnouncedAppend(before, announce);
      AnnouncedAppend(before + announce, CopyTree(d, src + [d.name], dst + [d.name], opts, existing));
    }
  }

  /** An action inside the subdirectory `x` of `src`, or inside its copy
      below `dst`, creating that copy included. */
  ghost predicate Inside(a: Action, src: Path, dst: Path, x: string) {
    match a
    case CreateDirectory(p) => |dst| < |p| && p[..|dst| + 1] == dst + [x]
    case Progress(e) => |src| + 1 < |e.path| && e.path[..|src| + 1] == src + [x]
    case CopyFile(from, _) => |src| + 1 < |from| && from[..|src| + 1] == src + [x]
  }

  /** Nothing happens inside a subdirectory before it is reported. */
  ghost predicate ReportedBeforeEntered(t: seq<Action>, src: Path, dst: Path) {
    forall i, x :: 0 <= i < |t| && Inside(t[i], src, dst, x) ==>
      exists j :: 0 <= j < i && t[j] == Progress(DirectoryEntry(src + [x]))
  }

  /** An action of the copy of subdirectory `y` is inside `y` only. */
  lemma InsideOnly(a: Action, src: Path, dst: Path, opts: Options, existing: set<Path>, x: string, y: string)
    requires WellPlaced(a, src + [y], dst + [y], opts, existing)
    requires Inside(a, src, dst, x)
    ensures x == y
  {
    match a
    case CreateDirectory(p) =>
      assert p[..|dst| + 1][|dst|] == x && (dst + [y])[|dst|] == y;
    case Progress(e) =>
      assert e.path[..|src| + 1][|src|] == x && (src + [y])[|src|] == y;
    case CopyFile(from, _) =>
      assert from[..|src| + 1][|src|] == x && (src + [y])[|src|] == y;
  }

  lemma {:induction false} SubdirsReportedBeforeEntered(n: Node, count: nat, src: Path, dst: Path, opts: Options, existing: set<Path>)
    requires opts.reportProgress && count <= |KeptSubdirs(n, opts)|
    ensures ReportedBeforeEntered(CopySubdirs(n, count, src, dst, opts, existing), src, dst)
    decreases count
  {
    if count > 0 {
      SubdirsReportedBeforeEntered(n, count - 1, src, dst, opts, existing);
      var d := KeptSubdirs(n, opts)[count - 1];
      var p := src + [d.name];
      var q := dst + [d.name];
      var before := CopySubdirs(n, count - 1, src, dst, opts, existing);
      var announce := Announce(true, DirectoryEntry(p));
      var sub := CopyTree(d, p, q, opts, existing);
      TreeWellPlaced(d, p, q, opts, existing);
      var t := before + announce + sub;
      assert t == CopySubdirs(n, count, src, dst, opts, existing);
      forall i, x | 0 <= i < |t|
        ensures Inside(t[i], src, dst, x) ==> exists j :: 0 <= j < i && t[j] == Progress(DirectoryEntry(src + [x]))
      {
        if i < |before| {
          assert t[i] == before[i];
          if Inside(before[i], src, dst, x) {
            var j :| 0 <= j < i && before[j] == Progress(DirectoryEntry(src + [x]));
            assert t[j] == before[j];
          }
        } else if i == |before| {
          assert t[i] == Progress(DirectoryEntry(p));
        } else if Inside(t[i], src, dst, x) {
          assert t[i] == sub[i - |before| - 1];
          InsideOnly(sub[i - |before| - 1], src, dst, opts, existing, x, d.name);
          assert t[|before|] == Progress(DirectoryEntry(src + [x]));
        }
      }
    }
  }

  /** Lines 193-198 with a progress callback: each kept subdirectory is
      reported before anything is created or copied inside it. */
  lemma DirectoriesReportedBeforeEntered(n: Node, src: Path, dst: Path, opts: Options, existing: set<Path>)
    requires opts.reportProgress
    ensures ReportedBeforeEntered(CopyTree(n, src, dst, opts, existing), src, dst)
  {
    var create: seq<Action> := if dst in existing then [] else [CreateDirectory(dst)];
    var copies := CopyFiles(Filter(n.files, FileName, opts), src, dst, true);
    var subdirs := CopySubdirs(n, |KeptSubdirs(n, opts)|, src, dst, opts, existing);
    FilesAreDirect(Filter(n.files, FileName, opts), src, dst, true);
    SubdirsReportedBeforeEntered(n, |KeptSubdirs(n, opts)|, src, dst, opts, existing);
    var t := create + copies + subdirs;
    var skip := |create| + |copies|;
    forall i, x | 0 <= i < |t|
      ensures Inside(t[i], src, dst, x) ==> exists j :: 0 <= j < i && t[j] == Progress(DirectoryEntry(src + [x]))
    {
      if i < |create| {
        assert t[i] == CreateDirectory(dst);
      } else if i < skip {
        assert t[i] == copies[i - |create|];
        assert DirectFile(copies[i - |create|], src);
      } else if Inside(t[i], src, dst, x) {
        assert t[i] == subdirs[i - skip];
        var j :| 0 <= j < i - skip && subdirs[j] == Progress(DirectoryEntry(src + [x]));
        assert t[j + skip] == subdirs[j];
      }
    }
  }

  // ---------------------------------------------------------------------
  // The recursion: every kept subdirectory is copied, at every depth

  /** The trace of the first `m` kept subdirectories begins the trace of the
      first `count`. */
  lemma {:induction false} SubdirsPrefix(n: Node, m: nat, count: nat, src: Path, dst: Path, opts: Options, existing: set<Path>)
    requires m <= count <= |KeptSubdirs(n, opts)|
    ensures |CopySubdirs(n, m, src, dst, opts, existing)| <= |CopySubdirs(n, count, src, dst, opts, existing)|
    ensures CopySubdirs(n, count, src, dst, opts, existing)[..|CopySubdirs(n, m, src, dst, opts, existing)|]
         == CopySubdirs(n, m, src, dst, opts, existing)
    decreases count
  {
    if m < count {
      SubdirsPrefix(n, m, count - 1, src, dst, opts, existing);
      var before := CopySubdirs(n, count - 1, src, dst, opts, existing);
      var t := CopySubdirs(n, count, src, dst, opts, existing);
      var b := CopySubdirs(n, m, src, dst, opts, existing);
      assert t[..|before|] == before;
      assert t[..|b|] == before[..|b|];
    }
  }

  /** `part` occurs in `t` as one contiguous block starting at `i`. */
  ghost predicate OccursAt(part: seq<Action>, t: seq<Action>, i: int) {
    0 <= i && i + |part| <= |t| && t[i..i + |part|] == part
  }

  /** A block of `t` is a block of `pre + t`, shifted by `|pre|`. */
  lemma OccursAfter(part: seq<Action>, t: seq<Action>, i: int, pre: seq<Action>)
    requires OccursAt(part, t, i)
    ensures OccursAt(part, pre + t, |pre| + i)
  {
    assert (pre + t)[|pre| + i..|pre| + i + |part|] == t[i..i + |part|];
  }

  /** In the loop over the first `count` kept subdirectories, the copy of the
      one at position `j` is a block, right after its report. */
  lemma {:induction false} SubdirBlock(n: Node, j: nat, count: nat, src: Path, dst: Path, opts: Options, existing: set<Path>)
    returns (i: nat)
    requires j < count <= |KeptSubdirs(n, opts)|
    ensures OccursAt(CopyTree(KeptSubdirs(n, opts)[j], src + [KeptSubdirs(n, opts)[j].name],
                              dst + [KeptSubdirs(n, opts)[j].name], opts, existing),
                     CopySubdirs(n, count, src, dst, opts, existing), i)
    ensures opts.reportProgress ==>
      0 < i && CopySubdirs(n, count, src, dst, opts, existing)[i - 1]
               == Progress(DirectoryEntry(src + [KeptSubdirs(n, opts)[j].name]))
  {
    var d := KeptSubdirs(n, opts)[j];
    var before := CopySubdirs(n, j, src, dst, opts, existing);
    var announce := Announce(opts.reportProgress, DirectoryEntry(src + [d.name]));
    var sub := CopyTree(d, src + [d.name], dst + [d.name], opts, existing);
    var upto := CopySubdirs(n, j + 1, src, dst, opts, existing);
    var all := CopySubdirs(n, count, src, dst, opts, existing);
    assert upto == before + announce + sub;
    SubdirsPrefix(n, j + 1, count, src, dst, opts, existing);
    i := |before| + |announce|;
    assert all[i..i + |sub|] == upto[i..] == sub;
    if opts.reportProgress {
      assert all[i - 1] == upto[|before|];
    }
  }

  /** Lines 193-198: every kept subdirectory of the source is copied, as one
      uninterrupted block of the parent's trace, into the destination
      subdirectory of the same name, right after its report when there is a
      callback. */
  lemma SubdirCopied(n: Node, src: Path, dst: Path, opts: Options, existing: set<Path>, k: nat)
    requires k < |n.subdirs| && Kept(n.subdirs[k].name, opts)
    ensures exists i ::
      && OccursAt(CopyTree(n.subdirs[k], src + [n.subdirs[k].name], dst + [n.subdirs[k].name], opts, existing),
                  CopyTree(n, src, dst, opts, existing), i)
      && (opts.reportProgress ==>
            0 < i && CopyTree(n, src, dst, opts, existing)[i - 1] == Progress(DirectoryEntry(src + [n.subdirs[k].name])))
  {
    var d := n.subdirs[k];
    var kept := KeptSubdirs(n, opts);
    FilterComplete(n.subdirs, NodeName, opts, k);
    var j :| 0 <= j < |kept| && kept[j] == d;
    var i := SubdirBlock(n, j, |kept|, src, dst, opts, existing);
    var create: seq<Action> := if dst in existing then [] else [CreateDirectory(dst)];
    var pre := create + CopyFiles(Filter(n.files, FileName, opts), src, dst, opts.reportProgress);
    var all := CopySubdirs(n, |kept|, src, dst, opts, existing);
    assert CopyTree(n, src, dst, opts, existing) == pre + all;
    OccursAfter(CopyTree(d, src + [d.name], dst + [d.name], opts, existing), all, i, pre);
    if opts.reportProgress {
      assert (pre + all)[|pre| + i - 1] == all[i - 1];
    }
  }

  /** `rel` names a file of the tree `n` that the filters keep: every
      directory on the way and the file itself are listed and kept. */
  ghost predicate KeptFileAt(n: Node, rel: Path, opts: Options)
    decreases |rel|
  {
    if |rel| == 1 then rel[0] in n.files && Kept(rel[0], opts)
    else
      && |rel| > 1
      && Kept(rel[0], opts)
      && exists k :: 0 <= k < |n.subdirs| && n.subdirs[k].name == rel[0] && KeptFileAt(n.subdirs[k], rel[1..], opts)
  }

  /** A copy made by the subdirectory loop belongs to the copy of one of the
      kept subdirectories. */
  lemma {:induction false} SubdirOf(n: Node, count: nat, src: Path, dst: Path, opts: Options, existing: set<Path>, a: Action)
    returns (j: nat)
    requires count <= |KeptSubdirs(n, opts)|
    requires a.CopyFile? && a in CopySubdirs(n, count, src, dst, opts, existing)
    ensures j < count
    ensures a in CopyTree(KeptSubdirs(n, opts)[j], src + [KeptSubdirs(n, opts)[j].name],
                          dst + [KeptSubdirs(n, opts)[j].name], opts, existing)
    decreases count
  {
    assert count > 0;
    var d := KeptSubdirs(n, opts)[count - 1];
    var before := CopySubdirs(n, count - 1, src, dst, opts, existing);
    var announce := Announce(opts.reportProgress, DirectoryEntry(src + [d.name]));
    assert CopySubdirs(n, count, src, dst, opts, existing)
        == before + announce + CopyTree(d, src + [d.name], dst + [d.name], opts, existing);
    if a in before {
      j := SubdirOf(n, count - 1, src, dst, opts, existing, a);
    } else {
      assert a !in announce;
      j := count - 1;
    }
  }

  lemma {:induction false} CopiedIfKept(n: Node, src: Path, dst: Path, opts: Options, existing: set<Path>, rel: Path)
    requires KeptFileAt(n, rel, opts)
    ensures CopyFile(src + rel, dst + rel) in CopyTree(n, src, dst, opts, existing)
    decreases |rel|
  {
    if |rel| == 1 {
      assert rel == [rel[0]];
      DirectCopies(n, src, dst, opts, existing, rel[0]);
    } else {
      var k :| 0 <= k < |n.subdirs| && n.subdirs[k].name == rel[0] && KeptFileAt(n.subdirs[k], rel[1..], opts);
      var d := n.subdirs[k];
      var p := src + [d.name];
      var q := dst + [d.name];
      CopiedIfKept(d, p, q, opts, existing, rel[1..]);
      assert rel == [rel[0]] + rel[1..];
      assert p + rel[1..] == src + rel && q + rel[1..] == dst + rel;
      var a := CopyFile(src + rel, dst + rel);
      var t := CopyTree(n, src, dst, opts, existing);
      var sub := CopyTree(d, p, q, opts, existing);
      SubdirCopied(n, src, dst, opts, existing, k);
      var i :| OccursAt(sub, t, i);
      var m :| 0 <= m < |sub| && sub[m] == a;
      assert t[i + m] == t[i..i + |sub|][m];
    }
  }

  /** A copy made while copying the subdirectory `d` of `src` lies below it:
      its path relative to `src` starts with `d`'s name. */
  lemma IntoSubdir(d: Node, src: Path, dst: Path, opts: Options, existing: set<Path>, rel: Path)
    requires CopyFile(src + rel, dst + rel) in CopyTree(d, src + [d.name], dst + [d.name], opts, existing)
    ensures |rel| > 1 && rel[0] == d.name
    ensures CopyFile((src + [d.name]) + rel[1..], (dst + [d.name]) + rel[1..])
         in CopyTree(d, src + [d.name], dst + [d.name], opts, existing)
  {
    var p := src + [d.name];
    var sub := CopyTree(d, p, dst + [d.name], opts, existing);
    TreeWellPlaced(d, p, dst + [d.name], opts, existing);
    var m :| 0 <= m < |sub| && sub[m] == CopyFile(src + rel, dst + rel);
    assert WellPlaced(sub[m], p, dst + [d.name], opts, existing);
    assert (src + rel)[..|p|][|src|] == rel[0];
    assert rel == [rel[0]] + rel[1..];
    assert p + rel[1..] == src + rel;
    assert (dst + [d.name]) + rel[1..] == dst + rel;
  }

  /** A copy of the top-level file loop copies a file listed and kept. */
  lemma TopLevelCopy(n: Node, src: Path, dst: Path, opts: Options, existing: set<Path>, rel: Path)
    requires CopyFile(src + rel, dst + rel) in CopyFiles(Filter(n.files, FileName, opts), src, dst, opts.reportProgress)
    requires CopyFile(src + rel, dst + rel) in CopyTree(n, src, dst, opts, existing)
    ensures |rel| == 1 && rel[0] in n.files && Kept(rel[0], opts)
  {
    var copies := CopyFiles(Filter(n.files, FileName, opts), src, dst, opts.reportProgress);
    FilesAreDirect(Filter(n.files, FileName, opts), src, dst, opts.reportProgress);
    var i :| 0 <= i < |copies| && copies[i] == CopyFile(src + rel, dst + rel);
    assert DirectFile(copies[i], src);
    assert rel == [rel[0]];
    DirectCopies(n, src, dst, opts, existing, rel[0]);
  }

  lemma {:induction false} KeptIfCopied(n: Node, src: Path, dst: Path, opts: Options, existing: set<Path>, rel: Path)
    requires CopyFile(src + rel, dst + rel) in CopyTree(n, src, dst, opts, existing)
    ensures KeptFileAt(n, rel, opts)
    decreases |rel|
  {
    var a := CopyFile(src + rel, dst + rel);
    var kept := KeptSubdirs(n, opts);
    var create: seq<Action> := if dst in existing then [] else [CreateDirectory(dst)];
    var copies := CopyFiles(Filter(n.files, FileName, opts), src, dst, opts.reportProgress);
    var subdirs := CopySubdirs(n, |kept|, src, dst, opts, existing);
    assert CopyTree(n, src, dst, opts, existing) == create + copies + subdirs;
    assert a !in create;
    if a in copies {
      TopLevelCopy(n, src, dst, opts, existing, rel);
    } else {
      var j := SubdirOf(n, |kept|, src, dst, opts, existing, a);
      var d := kept[j];
      FilterMember(n.subdirs, NodeName, opts, j);
      FilterSound(n.subdirs, NodeName, opts);
      var k :| 0 <= k < |n.subdirs| && n.subdirs[k] == d;
      IntoSubdir(d, src, dst, opts, existing, rel);
      KeptIfCopied(d, src + [d.name], dst + [d.name], opts, existing, rel[1..]);
      assert n.subdirs[k].name == rel[0] && KeptFileAt(n.subdirs[k], rel[1..], opts);
    }
  }

  /** Lines 185-198 at every depth: a file at the relative path `rel` is
      copied from below the source to the same relative path below the
      destination exactly when it exists in the source tree and every name
      on its path is kept. */
  lemma FileCopied(n: Node, src: Path, dst: Path, opts: Options, existing: set<Path>, rel: Path)
    ensures CopyFile(src + rel, dst + rel) in CopyTree(n, src, dst, opts, existing) <==> KeptFileAt(n, rel, opts)
  {
    if KeptFileAt(n, rel, opts) {
      CopiedIfKept(n, src, dst, opts, existing, rel);
    }
    if CopyFile(src + rel, dst + rel) in CopyTree(n, src, dst, opts, existing) {
      KeptIfCopied(n, src, dst, opts, existing, rel);
    }
  }
}
