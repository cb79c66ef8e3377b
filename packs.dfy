/** VpmUtils.IsAliasExisting and IsPackExisting: is there a directory under
    the packs folder whose last path component equals a name, compared
    case-insensitively; the pack name is tried first, then its aliases in
    order. The directory listing is an input of full paths.
    Line numbers in the comments refer to vpm/src/vpm/utils.cs. */
module Packs {

  /** Path.DirectorySeparatorChar on Windows, where vpm runs. */
  const Separator: char := '\\'

  // ---------------------------------------------------------------------
  // String helpers: TrimEnd, Split, Last

  /** string.TrimEnd(c): drop every trailing `c`. */
  function TrimEnd(s: string, c: char): (r: string)
    ensures |r| <= |s| && r == s[..|r|]
    ensures r == [] || r[|r| - 1] != c
    ensures forall i :: |r| <= i < |s| ==> s[i] == c
  {
    if s == [] || s[|s| - 1] != c then s else TrimEnd(s[..|s| - 1], c)
  }

  /** string.Split(c): the pieces between the occurrences of `c`; there is
      always at least one piece, and none contains `c`. */
  function Split(s: string, c: char): (parts: seq<string>)
    ensures |parts| >= 1
    ensures forall k :: 0 <= k < |parts| ==> c !in parts[k]
  {
    if s == [] then [[]]
    else
      var rest := Split(s[1..], c);
      if s[0] == c then [[]] + rest else [[s[0]] + rest[0]] + rest[1..]
  }

  /** string.Join(c, parts), the inverse of Split. */
  function Join(parts: seq<string>, c: char): string
    requires |parts| >= 1
  {
    if |parts| == 1 then parts[0] else parts[0] + [c] + Join(parts[1..], c)
  }

  /** Splitting loses nothing: joining the pieces gives the string back. */
  lemma {:induction false} JoinSplit(s: string, c: char)
    ensures Join(Split(s, c), c) == s
  {
    if s != [] {
      JoinSplit(s[1..], c);
      var rest := Split(s[1..], c);
      if s[0] == c {
        assert Split(s, c)[1..] == rest;
      } else {
        var parts := Split(s, c);
        if |rest| == 1 {
        } else {
          assert parts[1..] == rest[1..];
          assert Join(rest, c) == rest[0] + [c] + Join(rest[1..], c);
        }
      }
    }
  }

  /** The last piece of Split is the part of `s` after its last `c`: a suffix
      of `s` without `c`, preceded by `c` unless it is all of `s`. */
  lemma {:induction false} LastPieceIsSuffix(s: string, c: char)
    ensures var parts := Split(s, c); var last := parts[|parts| - 1];
      && |last| <= |s| && last == s[|s| - |last|..]
      && c !in last
      && (|last| < |s| ==> s[|s| - |last| - 1] == c)
      && (|parts| == 1 ==> last == s)
      && (|parts| > 1 ==> |last| < |s|)
  {
    if s != [] {
      LastPieceIsSuffix(s[1..], c);
      var tail := s[1..];
      var rest := Split(tail, c);
      var parts := Split(s, c);
      var last := parts[|parts| - 1];
      if |rest| > 1 {
        assert last == rest[|rest| - 1];
        assert s[|s| - |last| - 1] == tail[|tail| - |last| - 1];
      } else if s[0] == c {
        assert last == rest[0] == tail;
      } else {
        assert last == [s[0]] + tail == s;
      }
    }
  }

  /** The last component of a directory path, as IsAliasExisting computes
      it: trim trailing separators, split, take the last piece. */
  function LastComponent(path: string): string {
    var parts := Split(TrimEnd(path, Separator), Separator);
    parts[|parts| - 1]
  }

  /** The last component is the text after the last separator of the path
      once trailing separators are dropped; it holds no separator. */
  lemma {:induction false} LastComponentIsFinalName(path: string)
    ensures var name := LastComponent(path); var trimmed := TrimEnd(path, Separator);
      && Separator !in name
      && |name| <= |trimmed| && name == trimmed[|trimmed| - |name|..]
      && (|name| < |trimmed| ==> trimmed[|trimmed| - |name| - 1] == Separator)
      && (Separator !in trimmed ==> name == trimmed)
  {
    LastPieceIsSuffix(TrimEnd(path, Separator), Separator);
  }

  // ---------------------------------------------------------------------
  // Case-insensitive comparison

  /** Upper-casing of ASCII letters; every other character is left alone. */
  function FoldCase(ch: char): char {
    if 'a' <= ch <= 'z' then (ch as int - 32) as char else ch
  }

  /** string.Equals(a, b, InvariantCultureIgnoreCase), restricted to ASCII
      case folding. */
  predicate EqualsIgnoreCase(a: string, b: string) {
    |a| == |b| && forall i :: 0 <= i < |a| ==> FoldCase(a[i]) == FoldCase(b[i])
  }

  /** The comparison is an equivalence: reflexive, symmetric, transitive. */
  lemma EqualsIgnoreCaseIsEquivalence(a: string, b: string, c: string)
    ensures EqualsIgnoreCase(a, a)
    ensures EqualsIgnoreCase(a, b) ==> EqualsIgnoreCase(b, a)
    ensures EqualsIgnoreCase(a, b) && EqualsIgnoreCase(b, c) ==> EqualsIgnoreCase(a, c)
  {
  }

  // ---------------------------------------------------------------------
  // The lookups

  /** Some directory of the listing is named `name`, ignoring case. */
  ghost predicate PackExists(name: string, packDirs: seq<string>) {
    exists i :: 0 <= i < |packDirs| && EqualsIgnoreCase(LastComponent(packDirs[i]), name)
  }

  /** Lines 75-90: scan the listing, stop at the first directory whose last
      component matches. */
  method IsAliasExisting(name: string, packDirs: seq<string>) returns (found: bool)
    ensures found <==> PackExists(name, packDirs)
  {
    var i := 0;
    while i < |packDirs|
      invariant 0 <= i <= |packDirs|
      invariant forall j :: 0 <= j < i ==> !EqualsIgnoreCase(LastComponent(packDirs[j]), name)
    {
      var cname := LastComponent(packDirs[i]);
      if EqualsIgnoreCase(cname, name) {
        return true;
      }
      i := i + 1;
    }
    return false;
  }

  /** Lines 92-106: the name wins if it exists, whatever the aliases;
      otherwise the first existing alias in order; otherwise "" and false. */
  method IsPackExisting(name: string, aliases: seq<string>, packDirs: seq<string>)
    returns (found: bool, matched: string)
    ensures PackExists(name, packDirs) ==> found && matched == name
    ensures !PackExists(name, packDirs) ==>
      (found <==> exists k :: 0 <= k < |aliases| && PackExists(aliases[k], packDirs))
    ensures !PackExists(name, packDirs) && found ==>
      exists k :: 0 <= k < |aliases| && matched == aliases[k] && PackExists(aliases[k], packDirs)
               && forall j :: 0 <= j < k ==> !PackExists(aliases[j], packDirs)
    ensures !found ==> matched == ""
  {
    var nameExists := IsAliasExisting(name, packDirs);
    if nameExists {
      return true, name;
    }
    var i := 0;
    while i < |aliases|
      invariant 0 <= i <= |aliases|
      invariant forall j :: 0 <= j < i ==> !PackExists(aliases[j], packDirs)
    {
      var aliasExists := IsAliasExisting(aliases[i], packDirs);
      if aliasExists {
        return true, aliases[i];
      }
      i := i + 1;
    }
    return false, "";
  }
}
