/**
 * Path normalisation (Path.php): the process-wide root path and `Path::clean`,
 * which trims a path, substitutes the root path for an empty one, and collapses
 * every run of slashes and backslashes into one separator.
 */
module Paths {
  import opened Runs

  /** The two characters `clean` treats as separators, whatever separator it writes. */
  predicate IsSep(c: char) {
    c == '/' || c == '\\'
  }

  /** The characters PHP's `trim` strips when given no character list. */
  predicate IsBlank(c: char) {
    c == ' ' || c == '\t' || c == '\n' || c == '\r' || c == '\0' || c == '\U{000B}'
  }

  /** `s` with its leading blanks removed. */
  function TrimStart(s: string): (r: string)
    ensures |r| <= |s| && r == s[|s| - |r|..]
    ensures r == [] || !IsBlank(r[0])
    ensures forall i | 0 <= i < |s| - |r| :: IsBlank(s[i])
  {
    if s != [] && IsBlank(s[0]) then TrimStart(s[1..]) else s
  }

  /** `s` with its trailing blanks removed. */
  function TrimEnd(s: string): (r: string)
    ensures |r| <= |s| && r == s[..|r|]
    ensures r == [] || !IsBlank(r[|r| - 1])
    ensures forall i | |r| <= i < |s| :: IsBlank(s[i])
  {
    if s != [] && IsBlank(s[|s| - 1]) then TrimEnd(s[..|s| - 1]) else s
  }

  predicate AllBlank(s: string) {
    forall i | 0 <= i < |s| :: IsBlank(s[i])
  }

  /** PHP's `trim`: the result neither starts nor ends with a blank, and a string that does neither is unchanged. */
  function Trim(s: string): (r: string)
    ensures r == [] || (!IsBlank(r[0]) && !IsBlank(r[|r| - 1]))
    ensures (s == [] || (!IsBlank(s[0]) && !IsBlank(s[|s| - 1]))) ==> r == s
  {
    TrimEnd(TrimStart(s))
  }

  /** What `trim` removes: the trimmed string sits between a blank prefix and a blank suffix of `s`. */
  lemma {:induction false} TrimStripsBlanks(s: string)
    ensures exists pre, post :: s == pre + (Trim(s) + post) && AllBlank(pre) && AllBlank(post)
  {
    var t := TrimStart(s);
    var r := TrimEnd(t);
    var pre := TrimStartSplit(s);
    var post := TrimEndSplit(t);
    assert Trim(s) == r;
    assert s == pre + (r + post);
  }

  lemma TrimStartSplit(s: string) returns (pre: string)
    ensures s == pre + TrimStart(s) && AllBlank(pre)
  {
    pre := s[..|s| - |TrimStart(s)|];
  }

  lemma TrimEndSplit(t: string) returns (post: string)
    ensures t == TrimEnd(t) + post && AllBlank(post)
  {
    post := t[|TrimEnd(t)|..];
    assert forall i | 0 <= i < |post| :: post[i] == t[|TrimEnd(t)| + i];
  }

  /** PHP's `empty()` on a string: the empty string and "0". */
  predicate PhpEmpty(s: string) {
    s == "" || s == "0"
  }

  /** The UNC test of `clean`: a backslash separator and a trimmed path opening with two backslashes. */
  predicate IsUnc(p: string, ds: char) {
    ds == '\\' && |p| >= 2 && p[0] == '\\' && p[1] == '\\'
  }

  /** The regular-expression replacement of `[/\\]+` by `ds`. */
  function Collapse(p: string, ds: char): string {
    Squeeze(p, IsSep, ds)
  }

  /**
   * `Path::clean` on a string argument, with `root` the stored root path.
   * An empty trimmed path yields the root path verbatim, not normalised.
   */
  function Clean(path: string, ds: char, root: string): (r: string)
    ensures PhpEmpty(Trim(path)) ==> r == root
    ensures !PhpEmpty(Trim(path)) ==> r != []
  {
    var p := Trim(path);
    if PhpEmpty(p) then root
    else if IsUnc(p, ds) then "\\" + Collapse(p, ds)
    else (SqueezeEnds(p, IsSep, ds); Collapse(p, ds))
  }

  /** An argument of `clean`: a string, or some other scalar (null, a boolean, a number), empty or not. */
  datatype PathArg = Text(s: string) | Scalar(isEmpty: bool)

  /**
   * `Path::clean` on any argument. A non-empty non-string returns "" (the exception after
   * that `return` is never thrown); an empty non-string trims to "" or "0" and so gives the root path.
   */
  function CleanArg(arg: PathArg, ds: char, root: string): (r: string)
    ensures arg.Scalar? ==> r == (if arg.isEmpty then root else "")
    ensures arg.Text? ==> r == Clean(arg.s, ds, root)
  {
    match arg
    case Scalar(isEmpty) => if isEmpty then Clean("", ds, root) else ""
    case Text(s) => Clean(s, ds, root)
  }

  /** The process-wide root path of the `Path` class. */
  class Path {
    var rootPath: string

    /** Before any `setRootPath`, the root path is the empty string. */
    constructor ()
      ensures rootPath == ""
    {
      rootPath := "";
    }

    method SetRootPath(path: string)
      modifies this
      ensures rootPath == path
    {
      rootPath := path;
    }
  }

  /** `clean("")` gives "" before the root path is set and the new root path after. */
  method RootPathDefault(newRoot: string, ds: char) returns (before: string, after: string)
    ensures before == "" && after == newRoot
  {
    var paths := new Path();
    before := Clean("", ds, paths.rootPath);
    paths.SetRootPath(newRoot);
    after := Clean("", ds, paths.rootPath);
  }

  /** For a non-empty path, cleaning keeps every character other than a separator, in order. */
  lemma CleanKeepsOtherCharacters(path: string, ds: char, root: string)
    requires IsSep(ds) && !PhpEmpty(Trim(path))
    ensures Others(Clean(path, ds, root), IsSep) == Others(Trim(path), IsSep)
  {
    var p := Trim(path);
    SqueezeKeepsOthers(p, IsSep, ds, false);
    if IsUnc(p, ds) {
      OthersAppend("\\", Collapse(p, ds), IsSep);
    }
  }

  /**
   * For a non-empty path the result has no two adjacent separators and writes only `ds`,
   * except that a UNC path keeps a leading pair of backslashes (and exactly two).
   */
  lemma CleanSeparatorShape(path: string, ds: char, root: string)
    requires IsSep(ds) && !PhpEmpty(Trim(path))
    ensures var r := Clean(path, ds, root);
      if IsUnc(Trim(path), ds) then
        |r| >= 2 && r[0] == '\\' && r[1] == '\\' && (|r| > 2 ==> !IsSep(r[2])) && Squeezed(r[1..], IsSep, ds)
      else
        Squeezed(r, IsSep, ds) && !IsUnc(r, ds)
  {
    var p := Trim(path);
    var x := Collapse(p, ds);
    SqueezeShape(p, IsSep, ds, false);
    SqueezeEnds(p, IsSep, ds);
    if IsUnc(p, ds) {
      var r := "\\" + x;
      assert r[1..] == x;
      if |r| > 2 {
        assert !(IsSep(x[0]) && IsSep(x[1]));
      }
    } else if |x| >= 2 {
      assert !(IsSep(x[0]) && IsSep(x[1]));
    }
  }

  /** A collapsed non-empty path that is not "0" stays non-empty under PHP's `empty()`. */
  lemma CollapseNotZero(p: string, ds: char)
    requires IsSep(ds) && !PhpEmpty(p)
    ensures !PhpEmpty(Collapse(p, ds))
  {
    SqueezeEnds(p, IsSep, ds);
    if Collapse(p, ds) == "0" {
      SqueezeContains(p, IsSep, ds);
      assert !Contains(Collapse(p, ds), IsSep);
      assert Squeezed(p, IsSep, ds);
      SqueezeUnchangedIff(p, IsSep, ds);
      assert false;
    }
  }

  /** A UNC result is cleaned back to itself: the leading pair survives and the rest is already collapsed. */
  lemma CleanUncFixpoint(p: string, ds: char)
    requires IsSep(ds) && IsUnc(p, ds)
    ensures var r := "\\" + Collapse(p, ds); IsUnc(r, ds) && Collapse(r, ds) == Collapse(p, ds)
  {
    var x := Collapse(p, ds);
    SqueezeShape(p, IsSep, ds, false);
    SqueezeEnds(p, IsSep, ds);
    var y := x[1..];
    assert x == [ds] + y;
    assert Squeezed(y, IsSep, ds);
    if y != [] {
      assert !(IsSep(x[0]) && IsSep(x[1]));
    }
    SqueezeFixpoint(y, IsSep, ds, true);
    assert SqueezeFrom(x, IsSep, ds, true) == y;
    var r := "\\" + x;
    assert r[1..] == x;
    assert Collapse(r, ds) == [ds] + SqueezeFrom(x, IsSep, ds, true);
  }

  /** A trimmed, non-empty path is cleaned by the separator collapse alone. */
  lemma CleanTrimmed(r: string, ds: char, root: string)
    requires r != [] && !IsBlank(r[0]) && !IsBlank(r[|r| - 1]) && !PhpEmpty(r)
    ensures Clean(r, ds, root) == if IsUnc(r, ds) then "\\" + Collapse(r, ds) else Collapse(r, ds)
  {
    assert Trim(r) == r;
  }

  /** A collapsed path that is not a UNC path is cleaned back to itself. */
  lemma CleanPlainFixpoint(p: string, ds: char, root: string)
    requires IsSep(ds) && p == Trim(p) && !PhpEmpty(p) && !IsUnc(p, ds)
    ensures Clean(Collapse(p, ds), ds, root) == Collapse(p, ds)
  {
    var x := Collapse(p, ds);
    SqueezeEnds(p, IsSep, ds);
    assert Clean(p, ds, root) == x;
    CleanSeparatorShape(p, ds, root);
    CollapseNotZero(p, ds);
    CleanTrimmed(x, ds, root);
    SqueezeShape(p, IsSep, ds, false);
    SqueezeFixpoint(x, IsSep, ds, false);
  }

  /** Cleaning a cleaned non-empty path changes nothing. */
  lemma CleanIdempotent(path: string, ds: char, root: string)
    requires IsSep(ds) && !PhpEmpty(Trim(path))
    ensures Clean(Clean(path, ds, root), ds, root) == Clean(path, ds, root)
  {
    var p := Trim(path);
    if IsUnc(p, ds) {
      var r := "\\" + Collapse(p, ds);
      assert Clean(path, ds, root) == r;
      CleanUncFixpoint(p, ds);
      SqueezeEnds(p, IsSep, ds);
      CleanTrimmed(r, ds, root);
    } else {
      assert Clean(path, ds, root) == Collapse(p, ds);
      CleanPlainFixpoint(p, ds, root);
    }
  }
}
