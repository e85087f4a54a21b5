/**
 * Runs of characters drawn from one class, and the operation that squeezes every
 * maximal run into a single representative character. Path normalisation squeezes
 * runs of slashes and backslashes; file-name sanitising squeezes runs of dashes.
 */
module Runs {

  /** No two neighbouring characters of `s` both belong to the class. */
  predicate NoAdjacent(s: string, inClass: char -> bool) {
    forall i | 0 < i < |s| :: !(inClass(s[i - 1]) && inClass(s[i]))
  }

  /** Every character of `s` that belongs to the class is `rep`. */
  predicate OnlyRep(s: string, inClass: char -> bool, rep: char) {
    forall i | 0 <= i < |s| :: inClass(s[i]) ==> s[i] == rep
  }

  /** The shape every squeezed string has. */
  predicate Squeezed(s: string, inClass: char -> bool, rep: char) {
    NoAdjacent(s, inClass) && OnlyRep(s, inClass, rep)
  }

  predicate Contains(s: string, inClass: char -> bool) {
    exists i | 0 <= i < |s| :: inClass(s[i])
  }

  predicate AllIn(s: string, inClass: char -> bool) {
    forall i | 0 <= i < |s| :: inClass(s[i])
  }

  /** The characters of `s` outside the class, in their order. */
  function Others(s: string, inClass: char -> bool): string {
    if s == [] then [] else (if inClass(s[0]) then [] else [s[0]]) + Others(s[1..], inClass)
  }

  /**
   * Replaces every maximal run of class characters by `rep`; `afterRun` says
   * whether the text before `s` ended inside such a run.
   */
  function SqueezeFrom(s: string, inClass: char -> bool, rep: char, afterRun: bool): string {
    if s == [] then []
    else if inClass(s[0]) then (if afterRun then [] else [rep]) + SqueezeFrom(s[1..], inClass, rep, true)
    else [s[0]] + SqueezeFrom(s[1..], inClass, rep, false)
  }

  function Squeeze(s: string, inClass: char -> bool, rep: char): string {
    SqueezeFrom(s, inClass, rep, false)
  }

  /** Whether squeezing is inside a run after reading `a`, having started in state `afterRun`. */
  function EndsInRun(a: string, inClass: char -> bool, afterRun: bool): bool {
    if a == [] then afterRun else inClass(a[|a| - 1])
  }

  /** What a single character turns into when it opens a run or stands alone. */
  function Canon(c: char, inClass: char -> bool, rep: char): char {
    if inClass(c) then rep else c
  }

  /** A squeezed string has the squeezed shape, and it does not open with a class character after a run. */
  lemma {:induction false} SqueezeShape(s: string, inClass: char -> bool, rep: char, afterRun: bool)
    requires inClass(rep)
    ensures Squeezed(SqueezeFrom(s, inClass, rep, afterRun), inClass, rep)
    ensures afterRun && SqueezeFrom(s, inClass, rep, afterRun) != [] ==> !inClass(SqueezeFrom(s, inClass, rep, afterRun)[0])
  {
    if s != [] {
      var after' := inClass(s[0]);
      SqueezeShape(s[1..], inClass, rep, after');
    }
  }

  /** Squeezing keeps every character outside the class, in order. */
  lemma {:induction false} SqueezeKeepsOthers(s: string, inClass: char -> bool, rep: char, afterRun: bool)
    requires inClass(rep)
    ensures Others(SqueezeFrom(s, inClass, rep, afterRun), inClass) == Others(s, inClass)
  {
    if s != [] {
      var head := if inClass(s[0]) then (if afterRun then [] else [rep]) else [s[0]];
      var tail := SqueezeFrom(s[1..], inClass, rep, inClass(s[0]));
      SqueezeKeepsOthers(s[1..], inClass, rep, inClass(s[0]));
      OthersAppend(head, tail, inClass);
    }
  }

  /** Concatenation regroups freely; stated over plain strings so that callers need not re-derive it. */
  lemma Regroup(x: string, y: string, z: string)
    ensures x + (y + z) == (x + y) + z
  {
  }

  lemma {:induction false} OthersAppend(a: string, b: string, inClass: char -> bool)
    ensures Others(a + b, inClass) == Others(a, inClass) + Others(b, inClass)
  {
    if a != [] {
      assert (a + b)[1..] == a[1..] + b;
      OthersAppend(a[1..], b, inClass);
    } else {
      assert a + b == b;
    }
  }

  /** A string that already has the squeezed shape is left as it is. */
  lemma {:induction false} SqueezeFixpoint(s: string, inClass: char -> bool, rep: char, afterRun: bool)
    requires Squeezed(s, inClass, rep)
    requires afterRun ==> s == [] || !inClass(s[0])
    ensures SqueezeFrom(s, inClass, rep, afterRun) == s
  {
    if s != [] {
      assert Squeezed(s[1..], inClass, rep);
      SqueezeFixpoint(s[1..], inClass, rep, inClass(s[0]));
    }
  }

  /** Squeezing changes nothing exactly when the string already has the squeezed shape. */
  lemma SqueezeUnchangedIff(s: string, inClass: char -> bool, rep: char)
    requires inClass(rep)
    ensures Squeeze(s, inClass, rep) == s <==> Squeezed(s, inClass, rep)
  {
    SqueezeShape(s, inClass, rep, false);
    if Squeezed(s, inClass, rep) {
      SqueezeFixpoint(s, inClass, rep, false);
    }
  }

  /** Squeezing distributes over concatenation, carrying the run state across. */
  lemma {:induction false} SqueezeAppend(a: string, b: string, inClass: char -> bool, rep: char, afterRun: bool)
    ensures SqueezeFrom(a + b, inClass, rep, afterRun)
         == SqueezeFrom(a, inClass, rep, afterRun) + SqueezeFrom(b, inClass, rep, EndsInRun(a, inClass, afterRun))
  {
    if a != [] {
      var g := inClass(a[0]);
      var head := if g then (if afterRun then [] else [rep]) else [a[0]];
      assert (a + b)[0] == a[0] && (a + b)[1..] == a[1..] + b;
      assert SqueezeFrom(a + b, inClass, rep, afterRun) == head + SqueezeFrom(a[1..] + b, inClass, rep, g);
      assert SqueezeFrom(a, inClass, rep, afterRun) == head + SqueezeFrom(a[1..], inClass, rep, g);
      SqueezeAppend(a[1..], b, inClass, rep, g);
      assert EndsInRun(a[1..], inClass, g) == EndsInRun(a, inClass, afterRun);
      Regroup(head, SqueezeFrom(a[1..], inClass, rep, g), SqueezeFrom(b, inClass, rep, EndsInRun(a, inClass, afterRun)));
    } else {
      assert a + b == b;
    }
  }

  lemma {:induction false} SqueezeAllIn(r: string, inClass: char -> bool, rep: char)
    requires AllIn(r, inClass)
    ensures SqueezeFrom(r, inClass, rep, true) == []
  {
    if r != [] {
      SqueezeAllIn(r[1..], inClass, rep);
    }
  }

  /**
   * Each maximal run becomes exactly one `rep`: a non-empty run between a prefix that
   * does not end in the class and a suffix that does not start with it.
   */
  lemma SqueezeRun(a: string, run: string, b: string, inClass: char -> bool, rep: char)
    requires run != [] && AllIn(run, inClass)
    requires a == [] || !inClass(a[|a| - 1])
    requires b == [] || !inClass(b[0])
    ensures Squeeze(a + run + b, inClass, rep) == Squeeze(a, inClass, rep) + [rep] + Squeeze(b, inClass, rep)
  {
    Regroup(a, run, b);
    SqueezeAppend(a, run + b, inClass, rep, false);
    assert !EndsInRun(a, inClass, false);
    SqueezeRunHead(run, b, inClass, rep);
    Regroup(Squeeze(a, inClass, rep), [rep], Squeeze(b, inClass, rep));
  }

  /** A run at the front, outside any earlier run, becomes one `rep` before the squeezed rest. */
  lemma SqueezeRunHead(run: string, b: string, inClass: char -> bool, rep: char)
    requires run != [] && AllIn(run, inClass)
    requires b == [] || !inClass(b[0])
    ensures SqueezeFrom(run + b, inClass, rep, false) == [rep] + SqueezeFrom(b, inClass, rep, false)
  {
    SqueezeAppend(run, b, inClass, rep, false);
    assert SqueezeFrom(run, inClass, rep, false) == [rep] by {
      assert AllIn(run[1..], inClass);
      SqueezeAllIn(run[1..], inClass, rep);
    }
    assert EndsInRun(run, inClass, false);
    if b != [] {
      assert SqueezeFrom(b, inClass, rep, true) == SqueezeFrom(b, inClass, rep, false);
    }
  }

  /** The squeezed string contains a class character exactly when the original does. */
  lemma {:induction false} SqueezeContains(s: string, inClass: char -> bool, rep: char)
    requires inClass(rep)
    ensures Contains(Squeeze(s, inClass, rep), inClass) <==> Contains(s, inClass)
  {
    var r := Squeeze(s, inClass, rep);
    if s != [] {
      if inClass(s[0]) {
        assert r[0] == rep;
      } else {
        SqueezeContains(s[1..], inClass, rep);
        assert r == [s[0]] + Squeeze(s[1..], inClass, rep);
        if Contains(s, inClass) {
          var i :| 0 <= i < |s| && inClass(s[i]);
          assert inClass(s[1..][i - 1]);
          var j :| 0 <= j < |r| - 1 && inClass(r[1..][j]);
          assert inClass(r[j + 1]);
        }
        if Contains(r, inClass) {
          var j :| 0 <= j < |r| && inClass(r[j]);
          assert inClass(r[1..][j - 1]);
          var i :| 0 <= i < |s| - 1 && inClass(s[1..][i]);
          assert inClass(s[i + 1]);
        }
      }
    }
  }

  /** A non-empty string squeezes to a non-empty string whose ends are the canonical forms of the original's ends. */
  lemma {:induction false} SqueezeEnds(s: string, inClass: char -> bool, rep: char)
    requires s != []
    ensures var r := Squeeze(s, inClass, rep);
      r != [] && r[0] == Canon(s[0], inClass, rep) && r[|r| - 1] == Canon(s[|s| - 1], inClass, rep)
  {
    var init, c := s[..|s| - 1], s[|s| - 1];
    assert s == init + [c];
    SqueezeAppend(init, [c], inClass, rep, false);
    var g := EndsInRun(init, inClass, false);
    if init != [] {
      SqueezeEnds(init, inClass, rep);
      SqueezeAppend([s[0]], init[1..], inClass, rep, false);
      assert init == [s[0]] + init[1..];
    }
  }

  /** A string made only of class characters has nothing outside the class. */
  lemma {:induction false} OthersNone(s: string, inClass: char -> bool)
    requires AllIn(s, inClass)
    ensures Others(s, inClass) == []
  {
    if s != [] {
      assert AllIn(s[1..], inClass);
      OthersNone(s[1..], inClass);
    }
  }

  /**
   * Dropping a smaller class first and then a larger one drops the same characters as the
   * larger class alone.
   */
  lemma {:induction false} OthersCoarser(s: string, fine: char -> bool, coarse: char -> bool)
    requires forall c :: fine(c) ==> coarse(c)
    ensures Others(Others(s, fine), coarse) == Others(s, coarse)
  {
    if s != [] {
      var head := if fine(s[0]) then [] else [s[0]];
      OthersCoarser(s[1..], fine, coarse);
      OthersAppend(head, Others(s[1..], fine), coarse);
      if head != [] {
        assert head[1..] == [];
      }
    }
  }

  /** Applies `f` to every character: the per-character regular-expression replacements. */
  function MapChars(s: string, f: char -> char): (r: string)
    ensures |r| == |s| && forall i | 0 <= i < |s| :: r[i] == f(s[i])
  {
    seq(|s|, i requires 0 <= i < |s| => f(s[i]))
  }

  /**
   * A character map that keeps every character outside the class and maps class characters
   * into the class leaves the characters outside the class as they were.
   */
  lemma {:induction false} OthersMapChars(s: string, f: char -> char, inClass: char -> bool)
    requires forall c :: inClass(f(c)) == inClass(c) && (!inClass(c) ==> f(c) == c)
    ensures Others(MapChars(s, f), inClass) == Others(s, inClass)
  {
    if s != [] {
      assert MapChars(s, f)[1..] == MapChars(s[1..], f);
      OthersMapChars(s[1..], f, inClass);
    }
  }

  /** Squeezing only ever writes `rep` or characters of the input, so a property shared by both survives. */
  lemma {:induction false} SqueezeAllInKept(s: string, inClass: char -> bool, rep: char, afterRun: bool, keep: char -> bool)
    requires AllIn(s, keep) && keep(rep)
    ensures AllIn(SqueezeFrom(s, inClass, rep, afterRun), keep)
  {
    if s != [] {
      assert AllIn(s[1..], keep);
      SqueezeAllInKept(s[1..], inClass, rep, inClass(s[0]), keep);
    }
  }

  /**
   * Squeezing one class never brings two characters of a second, disjoint class together:
   * a run is replaced by `rep`, never removed.
   */
  lemma {:induction false} SqueezeKeepsApart(s: string, inClass: char -> bool, rep: char, afterRun: bool, other: char -> bool)
    requires !other(rep) && forall c :: other(c) ==> !inClass(c)
    requires NoAdjacent(s, other)
    ensures var r := SqueezeFrom(s, inClass, rep, afterRun);
      NoAdjacent(r, other) && (r != [] && other(r[0]) && !afterRun ==> other(s[0]))
  {
    if s != [] {
      assert NoAdjacent(s[1..], other);
      SqueezeKeepsApart(s[1..], inClass, rep, inClass(s[0]), other);
    }
  }
}
