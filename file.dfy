/**
 * File-name helpers of the `File` class (src/File.php) and the checks `File::move`
 * makes before it asks the filesystem to rename.
 */
module Files {
  import opened Wrappers
  import opened Runs
  import Paths

  /** PHP's `strrpos` for one character: the last index of `c`, or None where PHP returns false. */
  function LastIndexOf(s: string, c: char): (r: Option<nat>)
    ensures r.None? <==> c !in s
    ensures r.Some? ==> r.value < |s| && s[r.value] == c && c !in s[r.value + 1..]
  {
    if s == [] then None
    else if s[|s| - 1] == c then Some(|s| - 1)
    else
      var init := s[..|s| - 1];
      var r := LastIndexOf(init, c);
      assert s == init + [s[|s| - 1]];
      if r.None? then r
      else
        assert s[r.value + 1..] == init[r.value + 1..] + [s[|s| - 1]];
        r
  }

  /** PHP's `substr($s, $start)` for a start that is not negative: "" past the end. */
  function Substr(s: string, start: nat): string
  {
    if start <= |s| then s[start..] else ""
  }

  /**
   * `File::getExt`: the text after the last dot. With no dot, `strrpos` gives false and
   * `false + 1` is 1, so the name comes back without its first character.
   */
  function GetExt(file: string): (r: string)
    ensures '.' in file ==> '.' !in r && |r| < |file| && r == file[|file| - |r|..] && file[|file| - |r| - 1] == '.'
    ensures '.' !in file ==> r == (if file == [] then [] else file[1..])
  {
    var dot := match LastIndexOf(file, '.') case Some(i) => i + 1 case None => 1;
    Substr(file, dot)
  }

  /** `File::stripExt`: the pattern `\.[^.]*$` removes the last dot and everything after it. */
  function StripExt(file: string): (r: string)
    ensures '.' !in file ==> r == file
    ensures '.' in file ==> |r| < |file| && r == file[..|r|] && file[|r|] == '.' && '.' !in file[|r| + 1..]
  {
    match LastIndexOf(file, '.')
    case Some(i) => file[..i]
    case None => file
  }

  /** For a name with a dot, the stripped name, a dot and the extension give the name back. */
  lemma ExtRoundTrip(file: string)
    requires '.' in file
    ensures StripExt(file) + "." + GetExt(file) == file
  {
    var i := LastIndexOf(file, '.').value;
    assert StripExt(file) == file[..i];
    assert GetExt(file) == file[i + 1..];
    assert file == file[..i] + [file[i]] + file[i + 1..];
  }

  /** On a name without a dot, `getExt` returns the name minus its first character. */
  lemma GetExtWithoutDot()
    ensures GetExt("README") == "EADME"
  {
    assert '.' !in "README";
  }

  /** The extension as evidently intended: the text after the last dot, and "" when there is no dot. */
  function Extension(file: string): (r: string)
    ensures '.' !in file ==> r == ""
    ensures '.' in file ==> '.' !in r && StripExt(file) + "." + r == file
  {
    if '.' in file then ExtRoundTrip(file); GetExt(file) else ""
  }

  function BackslashToSlash(c: char): char {
    if c == '\\' then '/' else c
  }

  /**
   * `File::getName`: the name without any path, that is the longest suffix with neither
   * a slash nor a backslash; a name with neither comes back unchanged.
   */
  function GetName(file: string): (r: string)
    ensures '/' !in r && '\\' !in r
    ensures |r| <= |file| && r == file[|file| - |r|..]
    ensures |r| < |file| ==> Paths.IsSep(file[|file| - |r| - 1])
    ensures '/' !in file && '\\' !in file ==> r == file
  {
    var f := MapChars(file, BackslashToSlash);
    match LastIndexOf(f, '/')
    case Some(i) =>
      NoSeparatorAfter(file, f, i + 1);
      file[i + 1..]
    case None =>
      NoSeparatorAfter(file, f, 0);
      assert file[0..] == file;
      file
  }

  /** Where the slash-converted name has no slash from `j` on, the name has no separator there. */
  lemma NoSeparatorAfter(file: string, f: string, j: nat)
    requires f == MapChars(file, BackslashToSlash) && j <= |file| && '/' !in f[j..]
    ensures '/' !in file[j..] && '\\' !in file[j..]
  {
    forall k | 0 <= k < |file| - j
      ensures !Paths.IsSep(file[j..][k])
    {
      assert f[j..][k] == f[j + k];
    }
  }

  /** PHP's `explode($sep, $s)` for a one-character separator: the pieces between separators. */
  function Explode(s: string, sep: char): (parts: seq<string>)
    ensures |parts| >= 1
    ensures forall i | 0 <= i < |parts| :: sep !in parts[i]
    decreases |s|
  {
    match LastIndexOf(s, sep)
    case None => [s]
    case Some(i) => Explode(s[..i], sep) + [s[i + 1..]]
  }

  /** PHP's `implode($sep, $parts)`: pieces free of the separator are joined by one separator each. */
  function Implode(parts: seq<string>, sep: char): (r: string)
    ensures parts != [] && (forall i | 0 <= i < |parts| :: sep !in parts[i]) ==> multiset(r)[sep] == |parts| - 1
  {
    if |parts| == 0 then ""
    else if |parts| == 1 then parts[0]
    else Implode(parts[..|parts| - 1], sep) + [sep] + parts[|parts| - 1]
  }

  /** Joining the pieces of `s` with the separator gives `s` back. */
  lemma {:induction false} ImplodeExplode(s: string, sep: char)
    ensures Implode(Explode(s, sep), sep) == s
    decreases |s|
  {
    match LastIndexOf(s, sep)
    case None =>
    case Some(i) =>
      var parts := Explode(s, sep);
      ImplodeExplode(s[..i], sep);
      assert parts[..|parts| - 1] == Explode(s[..i], sep);
      assert s == s[..i] + [sep] + s[i + 1..];
  }

  /** Splitting the join of separator-free pieces gives the pieces back. */
  lemma {:induction false} ExplodeImplode(parts: seq<string>, sep: char)
    requires parts != [] && forall i | 0 <= i < |parts| :: sep !in parts[i]
    ensures Explode(Implode(parts, sep), sep) == parts
    decreases |parts|
  {
    if |parts| == 1 {
      assert Implode(parts, sep) == parts[0];
    } else {
      var init, last := parts[..|parts| - 1], parts[|parts| - 1];
      assert parts == init + [last];
      ExplodeImplode(init, sep);
      ExplodeJoin(Implode(init, sep), last, sep);
    }
  }

  /** Exploding `a + sep + last`, with no separator in `last`, adds `last` as the final piece. */
  lemma ExplodeJoin(a: string, last: string, sep: char)
    requires sep !in last
    ensures Explode(a + [sep] + last, sep) == Explode(a, sep) + [last]
  {
    var s := a + [sep] + last;
    LastSeparator(a, last, sep);
    assert s[..|a|] == a;
    assert s[|a| + 1..] == last;
  }

  /** In `a + sep + last` with no separator in `last`, the last separator is the one added. */
  lemma {:induction false} LastSeparator(a: string, last: string, sep: char)
    requires sep !in last
    ensures LastIndexOf(a + [sep] + last, sep) == Some(|a|)
    decreases |last|
  {
    var s := a + [sep] + last;
    if last == [] {
      assert s[|s| - 1] == sep;
    } else {
      var init := last[..|last| - 1];
      assert last[|last| - 1] in last;
      assert s[..|s| - 1] == a + [sep] + init;
      assert sep !in init by {
        forall i | 0 <= i < |init| ensures init[i] != sep {
          assert init[i] == last[i];
        }
      }
      LastSeparator(a, init, sep);
    }
  }

  /** `File::getPath`: the pieces between slashes, without the last one, joined again. */
  function GetPath(file: string): (r: string)
    ensures '/' !in file ==> r == ""
    ensures '/' in file ==> |r| < |file| && r == file[..|r|] && file[|r|] == '/' && '/' !in file[|r| + 1..]
  {
    var parts := Explode(file, '/');
    var kept := parts[..|parts| - 1];
    match LastIndexOf(file, '/')
    case None => Implode(kept, '/')
    case Some(i) =>
      assert kept == Explode(file[..i], '/');
      ImplodeExplode(file[..i], '/');
      Implode(kept, '/')
  }

  /** A character missing from the tail `s[j..]` is at no position from `j` on. */
  lemma CharNotFrom(s: string, j: nat, c: char)
    requires j <= |s| && c !in s[j..]
    ensures forall m | j <= m < |s| :: s[m] != c
  {
    forall m | j <= m < |s|
      ensures s[m] != c
    {
      assert s[j..][m - j] == s[m];
    }
  }

  /** With forward slashes only, the directory part, a slash and the name give the path back. */
  lemma PathNameRoundTrip(file: string)
    requires '/' in file && '\\' !in file
    ensures GetPath(file) + "/" + GetName(file) == file
  {
    var p, n := GetPath(file), GetName(file);
    JoinAtLastSlash(file, p, n);
  }

  /**
   * A prefix that stops at a slash with no slash after it, and a slash-free suffix that
   * follows a slash, meet at that one slash.
   */
  lemma JoinAtLastSlash(file: string, p: string, n: string)
    requires |p| < |file| && p == file[..|p|] && file[|p|] == '/' && '/' !in file[|p| + 1..]
    requires |n| < |file| && n == file[|file| - |n|..] && file[|file| - |n| - 1] == '/' && '/' !in n
    ensures p + "/" + n == file
  {
    var i, k := |p|, |file| - |n|;
    CharNotFrom(file, i + 1, '/');
    CharNotFrom(file, k, '/');
    assert k == i + 1;
    assert file == file[..i] + [file[i]] + file[i + 1..];
  }

  /** `File::getStrippedName`: the name without path and without its last extension. */
  function GetStrippedName(file: string): (r: string)
    ensures '/' !in r && '\\' !in r
    ensures |r| <= |GetName(file)| && r == GetName(file)[..|r|]
    ensures '.' !in GetName(file) ==> r == GetName(file)
    ensures '.' in GetName(file) ==> r + "." + Extension(GetName(file)) == GetName(file)
  {
    var name := GetName(file);
    if '.' in name then ExtRoundTrip(name); StripExt(name) else StripExt(name)
  }

  predicate IsDot(c: char) {
    c == '.'
  }

  predicate IsDash(c: char) {
    c == '-'
  }

  /** What the second pattern of `makeSafe` lets through: letters, digits, '.', '_', '-' and space. */
  predicate IsKept(c: char) {
    'A' <= c <= 'Z' || 'a' <= c <= 'z' || '0' <= c <= '9' || c == '.' || c == '_' || c == '-' || c == ' '
  }

  /** What a sanitised name is made of. */
  predicate IsSafeChar(c: char) {
    'A' <= c <= 'Z' || 'a' <= c <= 'z' || '0' <= c <= '9' || c == '.' || c == '-'
  }

  /** The shape of every `makeSafe` result. */
  predicate SafeName(s: string) {
    && AllIn(s, IsSafeChar)
    && NoAdjacent(s, IsDash)
    && NoAdjacent(s, IsDot)
    && (s == [] || (s[0] != '.' && s[|s| - 1] != '.'))
  }

  /** PHP's `rtrim($s, '.')`. */
  function TrimTrailingDots(s: string): (r: string)
    ensures |r| <= |s| && r == s[..|r|]
    ensures r == [] || r[|r| - 1] != '.'
    ensures forall i | |r| <= i < |s| :: s[i] == '.'
  {
    if s != [] && s[|s| - 1] == '.' then TrimTrailingDots(s[..|s| - 1]) else s
  }

  /** How many dots `s` opens with. */
  function LeadingDots(s: string): (n: nat)
    ensures n <= |s| && (forall i | 0 <= i < n :: s[i] == '.') && (n < |s| ==> s[n] != '.')
  {
    if s != [] && s[0] == '.' then 1 + LeadingDots(s[1..]) else 0
  }

  /**
   * The pattern `(\.){2,}` replaced by a space: every run of two or more dots becomes one
   * space, a lone dot stays. No two dots are left side by side.
   */
  function DotRunsToSpace(s: string): (r: string)
    ensures NoAdjacent(r, IsDot)
    ensures s == [] <==> r == []
    ensures s != [] ==> (r[0] == '.' <==> (s[0] == '.' && LeadingDots(s) == 1))
    ensures s != [] && s[|s| - 1] != '.' ==> r[|r| - 1] != '.'
    decreases |s|
  {
    if s == [] then []
    else if s[0] == '.' then
      var n := LeadingDots(s);
      var rest := DotRunsToSpace(s[n..]);
      assert n < |s| ==> s[n..][0] != '.';
      assert n == |s| ==> s[|s| - 1] == '.';
      (if n >= 2 then " " else ".") + rest
    else
      var rest := DotRunsToSpace(s[1..]);
      assert |s| > 1 ==> s[1..][|s[1..]| - 1] == s[|s| - 1];
      [s[0]] + rest
  }

  predicate IsDotOrSpace(c: char) {
    c == '.' || c == ' '
  }

  /** The dot-run replacement only turns dots into spaces: every other character is kept, in order. */
  lemma {:induction false} DotRunsKeepOthers(s: string)
    ensures Others(DotRunsToSpace(s), IsDotOrSpace) == Others(s, IsDotOrSpace)
    decreases |s|
  {
    if s != [] {
      if s[0] == '.' {
        var n := LeadingDots(s);
        var head: string := if n >= 2 then " " else ".";
        DotRunsKeepOthers(s[n..]);
        assert s == s[..n] + s[n..];
        assert AllIn(s[..n], IsDotOrSpace);
        ReplaceRunKeepsOthers(s[..n], head, s[n..], DotRunsToSpace(s[n..]));
      } else {
        DotRunsKeepOthers(s[1..]);
        assert ([s[0]] + DotRunsToSpace(s[1..]))[1..] == DotRunsToSpace(s[1..]);
      }
    }
  }

  /** Putting dots and spaces in place of a run of dots and spaces changes nothing outside that class. */
  lemma ReplaceRunKeepsOthers(run: string, head: string, rest: string, rest': string)
    requires AllIn(run, IsDotOrSpace) && AllIn(head, IsDotOrSpace)
    requires Others(rest', IsDotOrSpace) == Others(rest, IsDotOrSpace)
    ensures Others(head + rest', IsDotOrSpace) == Others(run + rest, IsDotOrSpace)
  {
    OthersAppend(run, rest, IsDotOrSpace);
    OthersNone(run, IsDotOrSpace);
    OthersAppend(head, rest', IsDotOrSpace);
    OthersNone(head, IsDotOrSpace);
  }

  /** The dot count is fixed by where the first non-dot stands. */
  lemma LeadingDotsExactly(s: string, n: nat)
    requires n <= |s| && (forall i | 0 <= i < n :: s[i] == '.') && (n < |s| ==> s[n] != '.')
    ensures LeadingDots(s) == n
  {
  }

  /** Text that does not end in a dot cannot join a run with what follows, so it is replaced on its own. */
  lemma {:induction false} DotRunsAppend(a: string, b: string)
    requires a == [] || a[|a| - 1] != '.'
    ensures DotRunsToSpace(a + b) == DotRunsToSpace(a) + DotRunsToSpace(b)
    decreases |a|, 1
  {
    if a == [] {
      assert a + b == b;
    } else if a[0] == '.' {
      DotRunsAppendDots(a, b);
    } else {
      DotRunsAppendOther(a, b);
    }
  }

  /** The step of `DotRunsAppend` for text that opens with dots: the opening run stays inside `a`. */
  lemma {:induction false} DotRunsAppendDots(a: string, b: string)
    requires a != [] && a[0] == '.' && a[|a| - 1] != '.'
    ensures DotRunsToSpace(a + b) == DotRunsToSpace(a) + DotRunsToSpace(b)
    decreases |a|, 0
  {
    var s := a + b;
    var n := LeadingDots(a);
    var head: string := if n >= 2 then " " else ".";
    assert n < |a| by {
      assert a[|a| - 1] != '.';
    }
    LeadingDotsExactly(s, n);
    assert s[n..] == a[n..] + b;
    DotRunsAppend(a[n..], b);
    calc {
      DotRunsToSpace(s);
      head + DotRunsToSpace(a[n..] + b);
      head + (DotRunsToSpace(a[n..]) + DotRunsToSpace(b));
      { Regroup(head, DotRunsToSpace(a[n..]), DotRunsToSpace(b)); }
      (head + DotRunsToSpace(a[n..])) + DotRunsToSpace(b);
    }
  }

  /** The step of `DotRunsAppend` for text that opens with another character. */
  lemma {:induction false} DotRunsAppendOther(a: string, b: string)
    requires a != [] && a[0] != '.' && a[|a| - 1] != '.'
    ensures DotRunsToSpace(a + b) == DotRunsToSpace(a) + DotRunsToSpace(b)
    decreases |a|, 0
  {
    var s := a + b;
    assert s[1..] == a[1..] + b;
    DotRunsAppend(a[1..], b);
    calc {
      DotRunsToSpace(s);
      [a[0]] + DotRunsToSpace(a[1..] + b);
      [a[0]] + (DotRunsToSpace(a[1..]) + DotRunsToSpace(b));
      { Regroup([a[0]], DotRunsToSpace(a[1..]), DotRunsToSpace(b)); }
      ([a[0]] + DotRunsToSpace(a[1..])) + DotRunsToSpace(b);
    }
  }

  /**
   * A maximal run of dots: two or more become exactly one space, a lone dot stays, and the
   * text on either side is replaced on its own.
   */
  lemma DotRunToSpace(a: string, run: string, b: string)
    requires run != [] && forall i | 0 <= i < |run| :: run[i] == '.'
    requires a == [] || a[|a| - 1] != '.'
    requires b == [] || b[0] != '.'
    ensures DotRunsToSpace(a + run + b) == DotRunsToSpace(a) + (if |run| >= 2 then " " else ".") + DotRunsToSpace(b)
  {
    var tail := run + b;
    var head: string := if |run| >= 2 then " " else ".";
    Regroup(a, run, b);
    DotRunsAppend(a, tail);
    LeadingDotsExactly(tail, |run|);
    assert tail[|run|..] == b;
    Regroup(DotRunsToSpace(a), head, DotRunsToSpace(b));
  }

  function UnsafeToSpace(c: char): char {
    if IsKept(c) then c else ' '
  }

  /** The pattern `^\.` replaced by a space. */
  function LeadingDotToSpace(s: string): (r: string)
    ensures |r| == |s| && (r != [] ==> r[0] != '.')
    ensures s != [] ==> r[0] == (if s[0] == '.' then ' ' else s[0])
    ensures forall i | 0 < i < |s| :: r[i] == s[i]
  {
    if s != [] && s[0] == '.' then " " + s[1..] else s
  }

  function BlankToDash(c: char): char {
    if c == ' ' || c == '_' then '-' else c
  }

  /**
   * `File::makeSafe`: strip trailing dots, turn runs of dots, unsafe characters and a leading dot
   * into spaces, spaces and underscores into dashes, then collapse runs of dashes.
   * The result is made of letters, digits, '.' and '-', has no "--" and no "..",
   * and neither starts nor ends with a dot.
   */
  function MakeSafe(file: string): (r: string)
    ensures SafeName(r)
  {
    var t1 := TrimTrailingDots(file);
    var t2 := DotRunsToSpace(t1);
    var t3 := MapChars(t2, UnsafeToSpace);
    var t4 := LeadingDotToSpace(t3);
    var t5 := MapChars(t4, BlankToDash);
    var r := Squeeze(t5, IsDash, '-');
    MakeSafeSteps(t2, t3, t4, t5);
    r
  }

  /** Neither an ASCII letter nor a digit. */
  predicate NotAlnum(c: char) {
    !('A' <= c <= 'Z' || 'a' <= c <= 'z' || '0' <= c <= '9')
  }

  /** `makeSafe` keeps every letter and digit of the name, in order, and adds none. */
  lemma MakeSafeKeepsAlnum(s: string)
    ensures Others(MakeSafe(s), NotAlnum) == Others(s, NotAlnum)
  {
    var t1 := TrimTrailingDots(s);
    var t2 := DotRunsToSpace(t1);
    var t3 := MapChars(t2, UnsafeToSpace);
    var t4 := LeadingDotToSpace(t3);
    var t5 := MapChars(t4, BlankToDash);
    assert MakeSafe(s) == Squeeze(t5, IsDash, '-');
    TrimKeepsAlnum(s);
    DotRunsKeepAlnum(t1);
    MapStepsKeepAlnum(t2, t3, t4, t5);
    SqueezeKeepsOthers(t5, IsDash, '-', false);
    OthersCoarser(t5, IsDash, NotAlnum);
    OthersCoarser(Squeeze(t5, IsDash, '-'), IsDash, NotAlnum);
  }

  /** The dot-run replacement keeps every letter and digit. */
  lemma DotRunsKeepAlnum(t1: string)
    ensures Others(DotRunsToSpace(t1), NotAlnum) == Others(t1, NotAlnum)
  {
    DotRunsKeepOthers(t1);
    OthersCoarser(t1, IsDotOrSpace, NotAlnum);
    OthersCoarser(DotRunsToSpace(t1), IsDotOrSpace, NotAlnum);
  }

  /** The character maps of `makeSafe` keep every letter and digit. */
  lemma MapStepsKeepAlnum(t2: string, t3: string, t4: string, t5: string)
    requires t3 == MapChars(t2, UnsafeToSpace) && t4 == LeadingDotToSpace(t3) && t5 == MapChars(t4, BlankToDash)
    ensures Others(t5, NotAlnum) == Others(t2, NotAlnum)
  {
    OthersMapChars(t2, UnsafeToSpace, NotAlnum);
    LeadingDotKeepsAlnum(t3);
    OthersMapChars(t4, BlankToDash, NotAlnum);
  }

  /** Stripping trailing dots removes no letter or digit. */
  lemma TrimKeepsAlnum(s: string)
    ensures Others(TrimTrailingDots(s), NotAlnum) == Others(s, NotAlnum)
  {
    var t := TrimTrailingDots(s);
    var dots := s[|t|..];
    assert s == t + dots;
    OthersAppend(t, dots, NotAlnum);
    OthersNone(dots, NotAlnum);
  }

  /** Replacing a leading dot by a space removes no letter or digit. */
  lemma LeadingDotKeepsAlnum(s: string)
    ensures Others(LeadingDotToSpace(s), NotAlnum) == Others(s, NotAlnum)
  {
    var r := LeadingDotToSpace(s);
    if s != [] {
      assert r[1..] == s[1..];
    }
  }

  /** The last four steps of `makeSafe` keep dots apart, keep the ends free of dots and leave only safe characters. */
  lemma MakeSafeSteps(t2: string, t3: string, t4: string, t5: string)
    requires NoAdjacent(t2, IsDot) && (t2 != [] ==> t2[|t2| - 1] != '.')
    requires t3 == MapChars(t2, UnsafeToSpace) && t4 == LeadingDotToSpace(t3) && t5 == MapChars(t4, BlankToDash)
    ensures SafeName(Squeeze(t5, IsDash, '-'))
  {
    MapStepsDots(t2, t3, t4, t5);
    DotsStayApart(t2, t5);
    SqueezeSafe(t5);
  }

  /** Dots that stand where the input had them, never at the front, stay apart and off the ends. */
  lemma DotsStayApart(t2: string, t5: string)
    requires NoAdjacent(t2, IsDot) && (t2 != [] ==> t2[|t2| - 1] != '.')
    requires |t5| == |t2| && forall i | 0 <= i < |t5| :: t5[i] == '.' <==> 0 < i && t2[i] == '.'
    ensures NoAdjacent(t5, IsDot) && (t5 != [] ==> t5[0] != '.' && t5[|t5| - 1] != '.')
  {
    forall i | 0 < i < |t5|
      ensures !(t5[i - 1] == '.' && t5[i] == '.')
    {
      assert !(t2[i - 1] == '.' && t2[i] == '.');
    }
  }

  /** After the character maps, a dot stands exactly where the input had one, except at the front. */
  lemma MapStepsDots(t2: string, t3: string, t4: string, t5: string)
    requires t3 == MapChars(t2, UnsafeToSpace) && t4 == LeadingDotToSpace(t3) && t5 == MapChars(t4, BlankToDash)
    ensures |t5| == |t2| && AllIn(t5, IsSafeChar)
    ensures forall i | 0 <= i < |t5| :: t5[i] == '.' <==> 0 < i && t2[i] == '.'
  {
    assert forall i | 0 <= i < |t3| :: t3[i] == '.' <==> t2[i] == '.';
    assert AllIn(t4, IsKept);
  }

  /** Collapsing dash runs in a string of safe characters with dots apart and off the ends gives a safe name. */
  lemma SqueezeSafe(t5: string)
    requires AllIn(t5, IsSafeChar) && NoAdjacent(t5, IsDot)
    requires t5 != [] ==> t5[0] != '.' && t5[|t5| - 1] != '.'
    ensures SafeName(Squeeze(t5, IsDash, '-'))
  {
    var r := Squeeze(t5, IsDash, '-');
    SqueezeShape(t5, IsDash, '-', false);
    SqueezeAllInKept(t5, IsDash, '-', false, IsSafeChar);
    SqueezeKeepsApart(t5, IsDash, '-', false, IsDot);
    if t5 != [] {
      SqueezeEnds(t5, IsDash, '-');
    } else {
      assert r == [];
    }
  }

  /** Dots that are never side by side are not touched by the dot-run replacement. */
  lemma {:induction false} DotRunsFixpoint(s: string)
    requires NoAdjacent(s, IsDot)
    ensures DotRunsToSpace(s) == s
    decreases |s|
  {
    if s != [] {
      assert NoAdjacent(s[1..], IsDot);
      DotRunsFixpoint(s[1..]);
      if s[0] == '.' {
        assert LeadingDots(s) == 1 by {
          if |s| > 1 { assert s[1] != '.'; }
        }
      }
    }
  }

  /** A string of the safe shape passes every step of `makeSafe` unchanged. */
  lemma MakeSafeFixpoint(s: string)
    requires SafeName(s)
    ensures MakeSafe(s) == s
  {
    var t1 := TrimTrailingDots(s);
    assert t1 == s;
    var t2 := DotRunsToSpace(t1);
    DotRunsFixpoint(s);
    var t3 := MapChars(t2, UnsafeToSpace);
    assert t3 == s by {
      assert forall i | 0 <= i < |s| :: IsKept(s[i]);
    }
    var t4 := LeadingDotToSpace(t3);
    assert t4 == s;
    var t5 := MapChars(t4, BlankToDash);
    assert t5 == s by {
      assert forall i | 0 <= i < |s| :: BlankToDash(s[i]) == s[i];
    }
    assert OnlyRep(s, IsDash, '-');
    SqueezeFixpoint(s, IsDash, '-', false);
  }

  /** `makeSafe` leaves a string unchanged exactly when it already has the safe shape. */
  lemma MakeSafeUnchangedIff(s: string)
    ensures MakeSafe(s) == s <==> SafeName(s)
  {
    if SafeName(s) {
      MakeSafeFixpoint(s);
    }
  }

  lemma MakeSafeIdempotent(s: string)
    ensures MakeSafe(MakeSafe(s)) == MakeSafe(s)
  {
    MakeSafeUnchangedIff(MakeSafe(s));
  }

  /** What a move that passed its checks asks the filesystem to do. */
  datatype Rename = Rename(src: string, dest: string, overwrite: bool)

  /** `File::exists` and `Folder::exists`: the cleaned path is one of the existing entries. */
  predicate Exists(path: string, existing: set<string>, ds: char, root: string) {
    Paths.Clean(path, ds, root) in existing
  }

  /**
   * `move` cleans its paths and `exists` cleans them again; for a path that does not trim to
   * "" or "0" the second cleaning changes nothing.
   */
  lemma ExistsCleaned(path: string, existing: set<string>, ds: char, root: string)
    requires Paths.IsSep(ds) && !Paths.PhpEmpty(Paths.Trim(path))
    ensures Exists(Paths.Clean(path, ds, root), existing, ds, root) <==> Exists(path, existing, ds, root)
  {
    Paths.CleanIdempotent(path, ds, root);
  }

  /**
   * The checks of `File::move`: a missing source fails with CANNOT_FIND_SOURCE, an existing
   * destination fails with ALREADY_EXISTS only when overwriting was not asked for.
   */
  function MoveFile(src: string, dest: string, overwrite: bool, existing: set<string>, ds: char, root: string): (r: Result<Rename, string>)
    ensures var s := Paths.Clean(src, ds, root);
      r == Failure("CANNOT_FIND_SOURCE") <==> !Exists(s, existing, ds, root)
    ensures var s, d := Paths.Clean(src, ds, root), Paths.Clean(dest, ds, root);
      r == Failure("ALREADY_EXISTS") <==> Exists(s, existing, ds, root) && Exists(d, existing, ds, root) && !overwrite
    ensures var s, d := Paths.Clean(src, ds, root), Paths.Clean(dest, ds, root);
      r.Success? <==> Exists(s, existing, ds, root) && !(Exists(d, existing, ds, root) && !overwrite)
    ensures r.Success? ==> r.value == Rename(Paths.Clean(src, ds, root), Paths.Clean(dest, ds, root), overwrite)
  {
    var s := Paths.Clean(src, ds, root);
    var d := Paths.Clean(dest, ds, root);
    if !Exists(s, existing, ds, root) then Failure("CANNOT_FIND_SOURCE")
    else if Exists(d, existing, ds, root) && !overwrite then Failure("ALREADY_EXISTS")
    else Success(Rename(s, d, overwrite))
  }

  /** Asking to overwrite, a file move goes ahead whenever its source exists. */
  lemma MoveFileOverwriteProceeds(src: string, dest: string, existing: set<string>, ds: char, root: string)
    ensures MoveFile(src, dest, true, existing, ds, root).Success?
        <==> Exists(Paths.Clean(src, ds, root), existing, ds, root)
  {
  }
}
