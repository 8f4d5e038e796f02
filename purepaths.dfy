/** POSIX `pathlib` as lists of components: parsing a string, the `/` operator, `resolve()`
    without symlinks, `is_relative_to`, `name`, `suffix` and `str()`. */
module PurePaths {
  import opened Strings

  /** An absolute path: its components below `/`. */
  type Path = seq<string>

  /** A component `resolve()` leaves in place. */
  predicate Normal(seg: string)
  {
    seg != "" && seg != "." && seg != ".." && '/' !in seg
  }

  predicate AllNormal(p: seq<string>)
  {
    forall i :: 0 <= i < |p| ==> Normal(p[i])
  }

  /** `s.split('/')`: the pieces between slashes, empty pieces included. */
  function Split(s: string): (parts: seq<string>)
    ensures |parts| >= 1
    ensures forall i :: 0 <= i < |parts| ==> '/' !in parts[i]
    decreases |s|
  {
    if s == [] then [""]
    else if s[0] == '/' then [""] + Split(s[1..])
    else
      var rest := Split(s[1..]);
      [[s[0]] + rest[0]] + rest[1..]
  }

  /** `'/'.join(parts)` */
  function JoinSlash(parts: seq<string>): string
    decreases |parts|
  {
    if parts == [] then ""
    else if |parts| == 1 then parts[0]
    else parts[0] + "/" + JoinSlash(parts[1..])
  }

  lemma {:induction false} SplitPiece(a: string, rest: string)
    requires '/' !in a
    ensures Split(a) == [a]
    ensures Split(a + "/" + rest) == [a] + Split(rest)
    decreases |a|
  {
    if a != [] {
      SplitPiece(a[1..], rest);
      assert (a + "/" + rest)[1..] == a[1..] + "/" + rest;
      assert [a[0]] + a[1..] == a;
    } else {
      assert a + "/" + rest == "/" + rest;
      assert ("/" + rest)[1..] == rest;
    }
  }

  /** Splitting what was joined gives back the pieces. */
  lemma {:induction false} SplitJoinSlash(parts: seq<string>)
    requires |parts| >= 1
    requires forall i :: 0 <= i < |parts| ==> '/' !in parts[i]
    ensures Split(JoinSlash(parts)) == parts
    decreases |parts|
  {
    if |parts| == 1 {
      SplitPiece(parts[0], "");
    } else {
      SplitJoinSlash(parts[1..]);
      SplitPiece(parts[0], JoinSlash(parts[1..]));
      assert parts == [parts[0]] + parts[1..];
    }
  }

  /** The components `PurePath` keeps when it parses a string: empty pieces (from repeated or
      trailing slashes) and `.` are dropped. */
  function Parts(s: string): (p: seq<string>)
  {
    Keep(Split(s))
  }

  function Keep(pieces: seq<string>): (p: seq<string>)
    ensures forall i :: 0 <= i < |p| ==> p[i] != "" && p[i] != "."
    ensures (forall i :: 0 <= i < |pieces| ==> '/' !in pieces[i]) ==>
              forall i :: 0 <= i < |p| ==> '/' !in p[i]
    ensures (forall i :: 0 <= i < |pieces| ==> pieces[i] != "..") ==>
              forall i :: 0 <= i < |p| ==> p[i] != ".."
    decreases |pieces|
  {
    if pieces == [] then []
    else if pieces[0] == "" || pieces[0] == "." then Keep(pieces[1..])
    else [pieces[0]] + Keep(pieces[1..])
  }

  lemma {:induction false} KeepNormal(pieces: seq<string>)
    requires AllNormal(pieces)
    ensures Keep(pieces) == pieces
    decreases |pieces|
  {
    if pieces != [] {
      KeepNormal(pieces[1..]);
      assert pieces == [pieces[0]] + pieces[1..];
    }
  }

  predicate IsAbsolute(s: string)
  {
    |s| > 0 && s[0] == '/'
  }

  /** `base / name`: an absolute `name` replaces the base. */
  function Join(base: Path, name: string): (p: seq<string>)
    ensures AllNormal(base) ==> forall i :: 0 <= i < |p| ==> p[i] != "" && p[i] != "." && '/' !in p[i]
  {
    if IsAbsolute(name) then Parts(name) else base + Parts(name)
  }

  /** The lexical part of `resolve()`: each `..` removes the component before it, and
      `..` at the root stays at the root. */
  function Fold(acc: Path, rest: seq<string>): Path
    decreases |rest|
  {
    if rest == [] then acc
    else if rest[0] == ".." then Fold(if acc == [] then [] else acc[..|acc| - 1], rest[1..])
    else Fold(acc + [rest[0]], rest[1..])
  }

  function Resolve(p: seq<string>): Path
  {
    Fold([], p)
  }

  lemma {:induction false} FoldNormal(acc: Path, rest: seq<string>)
    requires AllNormal(rest)
    ensures Fold(acc, rest) == acc + rest
    decreases |rest|
  {
    if rest != [] {
      FoldNormal(acc + [rest[0]], rest[1..]);
      assert acc + [rest[0]] + rest[1..] == acc + rest;
    }
  }

  lemma {:induction false} FoldAppend(acc: Path, xs: seq<string>, ys: seq<string>)
    ensures Fold(acc, xs + ys) == Fold(Fold(acc, xs), ys)
    decreases |xs|
  {
    if xs == [] {
      assert xs + ys == ys;
    } else {
      assert (xs + ys)[0] == xs[0] && (xs + ys)[1..] == xs[1..] + ys;
      if xs[0] == ".." {
        FoldAppend(if acc == [] then [] else acc[..|acc| - 1], xs[1..], ys);
      } else {
        FoldAppend(acc + [xs[0]], xs[1..], ys);
      }
    }
  }

  /** Resolving components free of `""`, `.` and `/` yields only normal components. */
  lemma {:induction false} FoldKeepsNormal(acc: Path, rest: seq<string>)
    requires AllNormal(acc)
    requires forall i :: 0 <= i < |rest| ==> rest[i] != "" && rest[i] != "." && '/' !in rest[i]
    ensures AllNormal(Fold(acc, rest))
    decreases |rest|
  {
    if rest != [] {
      if rest[0] == ".." {
        FoldKeepsNormal(if acc == [] then [] else acc[..|acc| - 1], rest[1..]);
      } else {
        FoldKeepsNormal(acc + [rest[0]], rest[1..]);
      }
    }
  }

  /** Resolving twice is resolving once. */
  lemma ResolveIdempotent(p: seq<string>)
    requires forall i :: 0 <= i < |p| ==> p[i] != "" && p[i] != "." && '/' !in p[i]
    ensures AllNormal(Resolve(p)) && Resolve(Resolve(p)) == Resolve(p)
  {
    FoldKeepsNormal([], p);
    FoldNormal([], Resolve(p));
  }

  /** `p.is_relative_to(base)`: `base` is `p` itself or one of its parents. */
  predicate IsRelativeTo(p: Path, base: Path)
  {
    |base| <= |p| && p[..|base|] == base
  }

  /** `p.name`: the last component, `""` for the root. */
  function Name(p: Path): string
  {
    if p == [] then "" else p[|p| - 1]
  }

  /** The index of the last `.` in `s`, or -1. */
  function RFindDot(s: string): (i: int)
    ensures -1 <= i < |s|
    ensures i >= 0 ==> s[i] == '.'
    ensures forall j :: i < j < |s| ==> s[j] != '.'
    decreases |s|
  {
    if s == [] then -1 else if s[|s| - 1] == '.' then |s| - 1 else RFindDot(s[..|s| - 1])
  }

  /** `PurePath.suffix` of a name: from its last dot on, unless that dot is the first or the
      last character. */
  function Suffix(name: string): string
  {
    var i := RFindDot(name);
    if 0 < i < |name| - 1 then name[i..] else ""
  }

  /** A name has suffix `.jpg` exactly when it ends in `.jpg` and has something before it:
      the name `.jpg` alone is a hidden file without a suffix. */
  lemma SuffixJpg(name: string)
    ensures Suffix(name) == ".jpg" <==> |name| > 4 && EndsWith(name, ".jpg")
  {
    var i := RFindDot(name);
    if |name| > 4 && EndsWith(name, ".jpg") {
      assert name[|name| - 4] == '.';
      assert forall j :: |name| - 4 < j < |name| ==> name[j] == ".jpg"[j - (|name| - 4)];
      assert i == |name| - 4;
    }
    if Suffix(name) == ".jpg" {
      assert |name[i..]| == 4;
    }
  }

  /** A name without a dot has no suffix. */
  lemma NoDotNoSuffix(name: string)
    requires '.' !in name
    ensures Suffix(name) == ""
  {
  }

  /** `str(p)` */
  function PathString(p: Path): string
  {
    "/" + JoinSlash(p)
  }

  /** Parsing `str(p)` gives back `p`. */
  lemma PathStringRoundTrip(p: Path)
    requires AllNormal(p)
    ensures IsAbsolute(PathString(p)) && Parts(PathString(p)) == p
  {
    assert PathString(p)[1..] == JoinSlash(p);
    if p == [] {
      assert PathString(p) == "/";
      assert Split("/") == [""] + Split("") == ["", ""];
      assert ["", ""][1..] == [""] && [""][1..] == [];
      assert Keep(["", ""]) == Keep([""]) == Keep([]) == [];
    } else {
      SplitJoinSlash(p);
      assert Split(PathString(p)) == [""] + p;
      KeepNormal(p);
    }
  }
}
