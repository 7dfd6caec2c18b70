/**
 Squeezing runs of a character class.

 A global JavaScript `replace` whose pattern is "one or more characters of a
 class" and whose replacement is a single character rewrites every maximal run
 of that class to the one character. The slug pipeline does this twice: runs of
 characters outside `[a-z0-9]` become `-`, and runs of two or more `/` become
 one `/` (a lone `/` rewritten to itself is the same thing). This module defines
 the operation once, over an arbitrary class `sep` and replacement `rep`.
 */
module Runs {

  /** The characters of `s` outside the class `sep`, in their original order. */
  function Keep(s: seq<char>, sep: char -> bool): (r: seq<char>)
    ensures |r| <= |s|
    ensures forall i :: 0 <= i < |r| ==> !sep(r[i])
  {
    if s == [] then []
    else (if sep(s[0]) then [] else [s[0]]) + Keep(s[1..], sep)
  }

  /** `Keep` distributes over concatenation. */
  lemma {:induction false} KeepAppend(a: seq<char>, b: seq<char>, sep: char -> bool)
    ensures Keep(a + b, sep) == Keep(a, sep) + Keep(b, sep)
  {
    if a == [] {
      assert a + b == b;
    } else {
      assert (a + b)[1..] == a[1..] + b;
      KeepAppend(a[1..], b, sep);
    }
  }

  /** Nothing is kept exactly when every character belongs to the class. */
  lemma {:induction false} KeepEmptyIff(s: seq<char>, sep: char -> bool)
    ensures Keep(s, sep) == [] <==> forall i :: 0 <= i < |s| ==> sep(s[i])
  {
    if s != [] {
      KeepEmptyIff(s[1..], sep);
      assert forall i :: 1 <= i < |s| ==> s[i] == s[1..][i - 1];
    }
  }

  /**
   The normal form `Squeeze` produces: the only member of the class that
   occurs is `rep`, and no two members of the class are adjacent.
   */
  predicate Squeezed(s: seq<char>, sep: char -> bool, rep: char)
  {
    && (forall i :: 0 <= i < |s| && sep(s[i]) ==> s[i] == rep)
    && (forall i :: 0 <= i < |s| - 1 ==> !(sep(s[i]) && sep(s[i + 1])))
  }

  /**
   Replace every maximal run of class members in `s` by the single character
   `rep`. A class member is emitted only when it ends its run, so each run
   contributes exactly one `rep`. The replacement must itself be a member of
   the class, as both uses in the slug pipeline are.
   */
  function Squeeze(s: seq<char>, sep: char -> bool, rep: char): (r: seq<char>)
    requires sep(rep)
    ensures |r| <= |s|
    ensures |r| == 0 <==> |s| == 0
    ensures |s| > 0 ==> (sep(r[0]) <==> sep(s[0]))
    ensures |s| > 0 ==> (sep(r[|r| - 1]) <==> sep(s[|s| - 1]))
    ensures Squeezed(r, sep, rep)
  {
    if s == [] then []
    else if sep(s[0]) && |s| > 1 && sep(s[1]) then Squeeze(s[1..], sep, rep)
    else (if sep(s[0]) then [rep] else [s[0]]) + Squeeze(s[1..], sep, rep)
  }

  /** Squeezing never adds, drops or reorders characters outside the class. */
  lemma {:induction false} KeepSqueeze(s: seq<char>, sep: char -> bool, rep: char)
    requires sep(rep)
    ensures Keep(Squeeze(s, sep, rep), sep) == Keep(s, sep)
  {
    if s != [] {
      KeepSqueeze(s[1..], sep, rep);
      if !(sep(s[0]) && |s| > 1 && sep(s[1])) {
        var head := if sep(s[0]) then [rep] else [s[0]];
        KeepAppend(head, Squeeze(s[1..], sep, rep), sep);
      }
    }
  }

  /** A string is left unchanged by `Squeeze` exactly when it is already in normal form. */
  lemma {:induction false} SqueezeFixpoint(s: seq<char>, sep: char -> bool, rep: char)
    requires sep(rep)
    ensures Squeeze(s, sep, rep) == s <==> Squeezed(s, sep, rep)
  {
    if s != [] && Squeezed(s, sep, rep) {
      assert Squeezed(s[1..], sep, rep) by {
        forall i | 0 <= i < |s[1..]| - 1
          ensures !(sep(s[1..][i]) && sep(s[1..][i + 1]))
        {
          assert s[1..][i] == s[i + 1] && s[1..][i + 1] == s[i + 2];
        }
      }
      SqueezeFixpoint(s[1..], sep, rep);
      assert s == [s[0]] + s[1..];
    }
  }

  /** Squeezing twice is the same as squeezing once. */
  lemma {:induction false} SqueezeIdempotent(s: seq<char>, sep: char -> bool, rep: char)
    requires sep(rep)
    ensures Squeeze(Squeeze(s, sep, rep), sep, rep) == Squeeze(s, sep, rep)
  {
    SqueezeFixpoint(Squeeze(s, sep, rep), sep, rep);
  }

  /** `s` without its first character when that character is `c`. */
  function DropFirst(s: seq<char>, c: char): seq<char>
  {
    if |s| > 0 && s[0] == c then s[1..] else s
  }

  /** `s` without its last character when that character is `c`. */
  function DropLast(s: seq<char>, c: char): seq<char>
  {
    if |s| > 0 && s[|s| - 1] == c then s[..|s| - 1] else s
  }

  /** A class member in front of `y` merges with the run `y` starts with, if any. */
  lemma SqueezeSepFront(d: char, y: seq<char>, sep: char -> bool, rep: char)
    requires sep(rep) && sep(d)
    ensures Squeeze([d] + y, sep, rep) == [rep] + DropFirst(Squeeze(y, sep, rep), rep)
  {
    assert ([d] + y)[1..] == y;
    var sy := Squeeze(y, sep, rep);
    if y != [] && sep(y[0]) {
      assert sy == [rep] + sy[1..];
    }
  }

  /** Removing a last `c` commutes with putting a character in front, unless that empties the string. */
  lemma DropLastCons(h: seq<char>, z: seq<char>, c: char)
    requires z != [] || h == [] || h[|h| - 1] != c
    ensures DropLast(h + z, c) == h + DropLast(z, c)
  {
    if z != [] {
      assert (h + z)[|h + z| - 1] == z[|z| - 1];
      if z[|z| - 1] == c {
        assert (h + z)[..|h + z| - 1] == h + z[..|z| - 1];
      }
    } else {
      assert h + z == h;
    }
  }

  lemma ConcatAssoc(a: seq<char>, b: seq<char>, c: seq<char>)
    ensures a + (b + c) == (a + b) + c
  {
  }

  /** One step of `Squeeze`: the first character either merges into the run after it or is emitted. */
  lemma SqueezeCons(a: char, z: seq<char>, sep: char -> bool, rep: char)
    requires sep(rep)
    ensures sep(a) && z != [] && sep(z[0]) ==> Squeeze([a] + z, sep, rep) == Squeeze(z, sep, rep)
    ensures !(sep(a) && z != [] && sep(z[0])) ==>
      Squeeze([a] + z, sep, rep) == (if sep(a) then [rep] else [a]) + Squeeze(z, sep, rep)
  {
    assert ([a] + z)[1..] == z;
  }

  /** The right-hand side of `SqueezeAround`: both sides squeezed, one `rep` where they meet. */
  function Merged(sx: seq<char>, sy: seq<char>, rep: char): seq<char>
  {
    DropLast(sx, rep) + ([rep] + DropFirst(sy, rep))
  }

  /** Inductive step of `SqueezeAround` when the first character merges into the run after it. */
  lemma SqueezeAroundMerge(a: char, tail: seq<char>, d: char, y: seq<char>, sep: char -> bool, rep: char)
    requires sep(rep) && sep(d) && sep(a)
    requires tail == [] || sep(tail[0])
    requires Squeeze(tail + [d] + y, sep, rep)
          == Merged(Squeeze(tail, sep, rep), Squeeze(y, sep, rep), rep)
    ensures Squeeze([a] + tail + [d] + y, sep, rep)
         == Merged(Squeeze([a] + tail, sep, rep), Squeeze(y, sep, rep), rep)
  {
    var rest := tail + [d] + y;
    ConcatAssoc([a], tail + [d], y);
    ConcatAssoc([a], tail, [d]);
    assert rest[0] == if tail == [] then d else tail[0];
    var sy := Squeeze(y, sep, rep);
    SqueezeCons(a, rest, sep, rep);
    assert Squeeze([a] + rest, sep, rep) == Squeeze(rest, sep, rep);
    SqueezeCons(a, tail, sep, rep);
    if tail == [] {
      assert Squeeze([a] + tail, sep, rep) == [rep];
      assert Merged([rep], sy, rep) == Merged([], sy, rep);
    } else {
      assert Squeeze([a] + tail, sep, rep) == Squeeze(tail, sep, rep);
    }
  }

  /** Inductive step of `SqueezeAround` when the first character is emitted. */
  lemma SqueezeAroundEmit(a: char, tail: seq<char>, d: char, y: seq<char>, sep: char -> bool, rep: char)
    requires sep(rep) && sep(d)
    requires !(sep(a) && (tail == [] || sep(tail[0])))
    requires Squeeze(tail + [d] + y, sep, rep)
          == Merged(Squeeze(tail, sep, rep), Squeeze(y, sep, rep), rep)
    ensures Squeeze([a] + tail + [d] + y, sep, rep)
         == Merged(Squeeze([a] + tail, sep, rep), Squeeze(y, sep, rep), rep)
  {
    var rest := tail + [d] + y;
    ConcatAssoc([a], tail + [d], y);
    ConcatAssoc([a], tail, [d]);
    assert rest[0] == if tail == [] then d else tail[0];
    SqueezeCons(a, rest, sep, rep);
    SqueezeCons(a, tail, sep, rep);
    var h := if sep(a) then [rep] else [a];
    var st := Squeeze(tail, sep, rep);
    var right := [rep] + DropFirst(Squeeze(y, sep, rep), rep);
    assert st == [] ==> tail == [];
    assert st != [] || h[|h| - 1] != rep;
    DropLastCons(h, st, rep);
    ConcatAssoc(h, DropLast(st, rep), right);
  }

  /**
   At a class member `d`, the runs on both sides merge: squeezing `x + [d] + y`
   squeezes both sides and leaves one `rep` where the two runs meet.
   */
  lemma {:induction false} SqueezeAround(x: seq<char>, d: char, y: seq<char>, sep: char -> bool, rep: char)
    requires sep(rep) && sep(d)
    ensures Squeeze(x + [d] + y, sep, rep)
         == DropLast(Squeeze(x, sep, rep), rep) + ([rep] + DropFirst(Squeeze(y, sep, rep), rep))
  {
    if x == [] {
      assert x + [d] + y == [d] + y;
      SqueezeSepFront(d, y, sep, rep);
    } else {
      var a, tail := x[0], x[1..];
      assert x == [a] + tail;
      SqueezeAround(tail, d, y, sep, rep);
      if sep(a) && (tail == [] || sep(tail[0])) {
        SqueezeAroundMerge(a, tail, d, y, sep, rep);
      } else {
        SqueezeAroundEmit(a, tail, d, y, sep, rep);
      }
    }
  }

  /** The length of the maximal run of class members at the start of `s`. */
  function LeadingRun(s: seq<char>, sep: char -> bool): (n: nat)
    ensures n <= |s|
    ensures forall i :: 0 <= i < n ==> sep(s[i])
    ensures n < |s| ==> !sep(s[n])
  {
    if s == [] || !sep(s[0]) then 0 else 1 + LeadingRun(s[1..], sep)
  }

  /** A run of class members followed by a non-member (or nothing) is exactly the leading run. */
  lemma LeadingRunOf(p: seq<char>, t: seq<char>, sep: char -> bool)
    requires forall i :: 0 <= i < |p| ==> sep(p[i])
    requires t == [] || !sep(t[0])
    ensures LeadingRun(p + t, sep) == |p|
  {
    assert forall i :: 0 <= i < |p| ==> (p + t)[i] == p[i];
    assert t != [] ==> (p + t)[|p|] == t[0];
  }

  /**
   Reference reading of the global regular-expression replacement: scan left
   to right; an ordinary character is copied, and at a class member the
   greedy pattern consumes the whole maximal run and emits `rep` once.
   */
  function SqueezeByRuns(s: seq<char>, sep: char -> bool, rep: char): seq<char>
    decreases |s|
  {
    if s == [] then []
    else if !sep(s[0]) then [s[0]] + SqueezeByRuns(s[1..], sep, rep)
    else [rep] + SqueezeByRuns(s[LeadingRun(s, sep)..], sep, rep)
  }

  /** At the start of a run, `Squeeze` emits one `rep` and resumes after the run. */
  lemma {:induction false} SqueezeRun(s: seq<char>, sep: char -> bool, rep: char)
    requires sep(rep)
    requires |s| > 0 && sep(s[0])
    ensures Squeeze(s, sep, rep) == [rep] + Squeeze(s[LeadingRun(s, sep)..], sep, rep)
  {
    if |s| > 1 && sep(s[1]) {
      SqueezeRun(s[1..], sep, rep);
      assert s[1..][LeadingRun(s[1..], sep)..] == s[LeadingRun(s, sep)..];
    }
  }

  /** A run of class members followed by an ordinary character (or nothing) squeezes to one `rep`. */
  lemma SqueezeAfterRun(p: seq<char>, t: seq<char>, sep: char -> bool, rep: char)
    requires sep(rep)
    requires |p| > 0 && forall i :: 0 <= i < |p| ==> sep(p[i])
    requires t == [] || !sep(t[0])
    ensures Squeeze(p + t, sep, rep) == [rep] + Squeeze(t, sep, rep)
  {
    SqueezeRun(p + t, sep, rep);
    assert (p + t)[|p|..] == t;
  }

  /** The one-character-lookahead definition agrees with the run-by-run reading on every input. */
  lemma {:induction false} SqueezeMatchesRuns(s: seq<char>, sep: char -> bool, rep: char)
    requires sep(rep)
    ensures Squeeze(s, sep, rep) == SqueezeByRuns(s, sep, rep)
    decreases |s|
  {
    if s != [] {
      if !sep(s[0]) {
        SqueezeMatchesRuns(s[1..], sep, rep);
      } else {
        SqueezeRun(s, sep, rep);
        SqueezeMatchesRuns(s[LeadingRun(s, sep)..], sep, rep);
      }
    }
  }
}
