/**
 The `slugify` function of the events theme: an event's display name becomes a
 URL path in four steps — lower-case the name, rewrite every run of characters
 outside `[a-z0-9]` to one `-`, strip a leading and a trailing `-`, and join the
 result under the base path, collapsing repeated `/`.
 */
module Slug {
  import opened Runs

  /** The base path the theme places event pages under. */
  const BasePath: string := "/"

  predicate IsUpper(c: char) { 'A' <= c <= 'Z' }

  predicate IsLowerAlnum(c: char) { 'a' <= c <= 'z' || '0' <= c <= '9' }

  /** The class `[^a-z0-9]`: every character that separates words of a slug. */
  predicate IsSeparator(c: char) { !IsLowerAlnum(c) }

  predicate IsSlash(c: char) { c == '/' }

  /** A character that may appear in a slug path. */
  predicate IsPathChar(c: char) { IsLowerAlnum(c) || c == '-' || c == '/' }

  /** Lower-case letters and digits separated by single hyphens. */
  predicate HyphenSeparated(t: string)
  {
    && (forall i :: 0 <= i < |t| ==> IsLowerAlnum(t[i]) || t[i] == '-')
    && (forall i :: 0 <= i < |t| - 1 ==> !(t[i] == '-' && t[i + 1] == '-'))
  }

  /** The form of the text after the leading `/` of a slug path. */
  predicate NormalSlug(t: string)
  {
    && HyphenSeparated(t)
    && (|t| > 0 ==> t[0] != '-' && t[|t| - 1] != '-')
  }

  /** Lower-case one character: ASCII `A`-`Z` map to `a`-`z`, everything else is kept. */
  function LowerChar(c: char): (d: char)
    ensures IsUpper(c) ==> 'a' <= d <= 'z' && d as int - 'a' as int == c as int - 'A' as int
    ensures !IsUpper(c) ==> d == c
    ensures !IsUpper(d)
  {
    if IsUpper(c) then (c as int - 'A' as int + 'a' as int) as char else c
  }

  /** Step 1: lower-case a whole string, character by character. */
  function Lower(s: string): (r: string)
    ensures |r| == |s|
    ensures forall i :: 0 <= i < |s| ==> r[i] == LowerChar(s[i])
    ensures forall i :: 0 <= i < |r| ==> !IsUpper(r[i])
    ensures (forall i :: 0 <= i < |s| ==> !IsUpper(s[i])) ==> r == s
  {
    seq(|s|, i requires 0 <= i < |s| => LowerChar(s[i]))
  }

  /** Lower-casing is idempotent. */
  lemma LowerIdempotent(s: string)
    ensures Lower(Lower(s)) == Lower(s)
  {
  }

  /** Lower-casing commutes with concatenation. */
  lemma LowerAppend(a: string, b: string)
    ensures Lower(a + b) == Lower(a) + Lower(b)
  {
  }

  /**
   Step 2: every maximal run of characters outside `[a-z0-9]` becomes one `-`.
   The result uses only `[a-z0-9-]`, has no doubled hyphen, starts (ends) with
   a hyphen exactly when the input starts (ends) with a separator, and keeps
   the input's letters and digits in order.
   */
  function Collapse(s: string): (r: string)
    ensures HyphenSeparated(r)
    ensures |r| == 0 <==> |s| == 0
    ensures |s| > 0 ==> (r[0] == '-' <==> IsSeparator(s[0]))
    ensures |s| > 0 ==> (r[|r| - 1] == '-' <==> IsSeparator(s[|s| - 1]))
    ensures Keep(r, IsSeparator) == Keep(s, IsSeparator)
    ensures r == SqueezeByRuns(s, IsSeparator, '-')
  {
    KeepSqueeze(s, IsSeparator, '-');
    SqueezeMatchesRuns(s, IsSeparator, '-');
    Squeeze(s, IsSeparator, '-')
  }

  /** A string is unchanged by `Collapse` exactly when it is already hyphen-separated. */
  lemma CollapseFixpoint(s: string)
    ensures Collapse(s) == s <==> HyphenSeparated(s)
  {
    SqueezeFixpoint(s, IsSeparator, '-');
  }

  /**
   Step 3: drop one leading `-` and then one trailing `-`. The result is a
   contiguous piece of the input and everything dropped is a hyphen; applied
   to hyphen-separated text it yields a normal slug.
   */
  function Trim(s: string): (r: string)
    ensures |r| <= |s| <= |r| + 2
    ensures var lead := if |s| > 0 && s[0] == '-' then 1 else 0;
      && lead + |r| <= |s|
      && r == s[lead..lead + |r|]
      && forall k :: 0 <= k < |s| && !(lead <= k < lead + |r|) ==> s[k] == '-'
    ensures (|s| == 0 || (s[0] != '-' && s[|s| - 1] != '-')) ==> r == s
    ensures HyphenSeparated(s) ==> NormalSlug(r)
    ensures var lead := if |s| > 0 && s[0] == '-' then 1 else 0;
      var trail := if |s| > lead && s[|s| - 1] == '-' then 1 else 0;
      r == s[lead..|s| - trail]
  {
    var a := DropFirst(s, '-');
    assert |a| > 1 ==> a[|a| - 2] == s[|s| - 2];
    DropLast(a, '-')
  }

  /** Trimming removes only hyphens, so the letters and digits are kept. */
  lemma {:induction false} TrimKeeps(s: string)
    ensures Keep(Trim(s), IsSeparator) == Keep(s, IsSeparator)
  {
    var a := DropFirst(s, '-');
    assert Keep(a, IsSeparator) == Keep(s, IsSeparator);
    if |a| > 0 && a[|a| - 1] == '-' {
      var body := a[..|a| - 1];
      assert a == body + "-";
      KeepAppend(body, "-", IsSeparator);
    }
  }

  /**
   Step 4: the template `/${basePath}/${slug}` with every run of `/` collapsed
   to one. The result starts with `/` and never holds `//`.
   */
  function Path(basePath: string, slug: string): (r: string)
    ensures |r| > 0 && r[0] == '/'
    ensures forall i :: 0 <= i < |r| - 1 ==> !(r[i] == '/' && r[i + 1] == '/')
  {
    Squeeze("/" + basePath + "/" + slug, IsSlash, '/')
  }

  /** The path keeps every non-slash character of the base path and then of the slug, in order. */
  lemma PathKeeps(basePath: string, slug: string)
    ensures Keep(Path(basePath, slug), IsSlash) == Keep(basePath, IsSlash) + Keep(slug, IsSlash)
  {
    var joined := "/" + basePath + "/" + slug;
    KeepSqueeze(joined, IsSlash, '/');
    KeepAppend("/" + basePath + "/", slug, IsSlash);
    KeepAppend("/" + basePath, "/", IsSlash);
    KeepAppend("/", basePath, IsSlash);
  }

  /** Under the theme's base path `/`, a slug without slashes is simply prefixed by one `/`. */
  lemma PathUnderRoot(slug: string)
    requires forall i :: 0 <= i < |slug| ==> slug[i] != '/'
    ensures Path(BasePath, slug) == "/" + slug
  {
    assert "/" + BasePath + "/" + slug == "///" + slug;
    SqueezeAfterRun("///", slug, IsSlash, '/');
    SqueezeFixpoint(slug, IsSlash, '/');
  }

  /** Under a base path without slashes, the path is `/base/slug` with nothing collapsed. */
  lemma PathUnderNamedBase(basePath: string, slug: string)
    requires |basePath| > 0
    requires forall i :: 0 <= i < |basePath| ==> basePath[i] != '/'
    requires forall i :: 0 <= i < |slug| ==> slug[i] != '/'
    ensures Path(basePath, slug) == "/" + basePath + "/" + slug
  {
    var joined := "/" + basePath + "/" + slug;
    assert Squeezed(joined, IsSlash, '/') by {
      forall i | 0 <= i < |joined| - 1
        ensures !(IsSlash(joined[i]) && IsSlash(joined[i + 1]))
      {
        if i == 0 {
          assert joined[1] == basePath[0];
        } else if i <= |basePath| {
          assert joined[i] == basePath[i - 1];
        } else {
          assert joined[i + 1] == slug[i - |basePath| - 1];
        }
      }
    }
    SqueezeFixpoint(joined, IsSlash, '/');
  }

  /** Join two pieces of a slug with one hyphen; an empty piece contributes nothing. */
  function HyphenJoin(a: string, b: string): string
  {
    if a == [] then b else if b == [] then a else a + "-" + b
  }

  /**
   Reference reading of steps 2-3 on lower-cased text: its words (the maximal
   runs of `[a-z0-9]`) joined by single hyphens, empty words dropped.
   */
  function JoinedWords(l: string): string
    decreases |l|
  {
    var k := LeadingRun(l, IsLowerAlnum);
    if k == |l| then l else HyphenJoin(l[..k], JoinedWords(l[k + 1..]))
  }

  /** The two halves of step 3 commute. */
  lemma DropHyphensCommute(s: string)
    ensures DropLast(DropFirst(s, '-'), '-') == DropFirst(DropLast(s, '-'), '-')
  {
    if |s| >= 2 && s[0] == '-' && s[|s| - 1] == '-' {
      assert s[1..][..|s| - 2] == s[..|s| - 1][1..];
    }
  }

  /** Step 3 is exactly: drop a leading hyphen, then a trailing one. */
  lemma TrimDrops(s: string)
    ensures Trim(s) == DropLast(DropFirst(s, '-'), '-')
    ensures Trim(s) == DropFirst(DropLast(s, '-'), '-')
  {
    DropHyphensCommute(s);
  }

  /** Hyphen-separated text loses at most one hyphen at its end. */
  lemma DropLastHyphenSeparated(a: string)
    requires HyphenSeparated(a)
    ensures HyphenSeparated(DropLast(a, '-'))
    ensures DropLast(a, '-') == [] || DropLast(a, '-')[|DropLast(a, '-')| - 1] != '-'
  {
    if |a| > 1 && a[|a| - 1] == '-' {
      assert DropLast(a, '-')[|a| - 2] == a[|a| - 2];
    }
  }

  /** Hyphen-separated text loses at most one hyphen at its start. */
  lemma DropFirstHyphenSeparated(b: string)
    requires HyphenSeparated(b)
    ensures DropFirst(b, '-') == [] || DropFirst(b, '-')[0] != '-'
  {
    if |b| > 1 && b[0] == '-' {
      assert DropFirst(b, '-')[0] == b[1];
    }
  }

  /** Dropping a leading hyphen from a concatenation only touches its non-empty first part. */
  lemma DropFirstCons(h: string, z: string)
    requires h != []
    ensures DropFirst(h + z, '-') == DropFirst(h, '-') + z
  {
    if h[0] == '-' {
      assert (h + z)[1..] == h[1..] + z;
    }
  }

  /** Trimming `p-q` where `p` has no hyphen at its end and `q` none at its start. */
  lemma TrimAroundHyphen(p: string, q: string)
    requires p == [] || p[|p| - 1] != '-'
    requires q == [] || q[0] != '-'
    ensures Trim(p + ("-" + q)) == HyphenJoin(DropFirst(p, '-'), DropLast(q, '-'))
  {
    TrimDrops(p + ("-" + q));
    if p == [] {
      assert p + ("-" + q) == "-" + q;
      assert ("-" + q)[1..] == q;
    } else {
      DropFirstCons(p, "-" + q);
      var lp := DropFirst(p, '-');
      assert lp != [] && lp[|lp| - 1] != '-';
      ConcatAssoc(lp, "-", q);
      if q == [] {
        assert (lp + "-")[..|lp| ] == lp;
      } else {
        DropLastCons(lp + "-", q, '-');
        assert DropLast(q, '-') != [];
      }
    }
  }

  /** Trimming two hyphen-separated texts merged at one hyphen joins their trimmed forms. */
  lemma TrimMerged(a: string, b: string)
    requires HyphenSeparated(a) && HyphenSeparated(b)
    ensures Trim(Merged(a, b, '-')) == HyphenJoin(Trim(a), Trim(b))
  {
    DropLastHyphenSeparated(a);
    DropFirstHyphenSeparated(b);
    TrimAroundHyphen(DropLast(a, '-'), DropFirst(b, '-'));
    TrimDrops(a);
    TrimDrops(b);
  }

  /**
   Word boundary: steps 2-3 of a text with a separator in it are the steps
   2-3 of the two sides, joined by one hyphen when both are non-empty.
   */
  lemma TrimCollapseJoin(x: string, d: char, y: string)
    requires IsSeparator(d)
    ensures Trim(Collapse(x + [d] + y)) == HyphenJoin(Trim(Collapse(x)), Trim(Collapse(y)))
  {
    SqueezeAround(x, d, y, IsSeparator, '-');
    TrimMerged(Collapse(x), Collapse(y));
  }

  /** A single word passes steps 2-3 unchanged. */
  lemma TrimCollapseWord(w: string)
    requires forall i :: 0 <= i < |w| ==> IsLowerAlnum(w[i])
    ensures Trim(Collapse(w)) == w
  {
    CollapseFixpoint(w);
  }

  /** A string splits around any of its positions. */
  lemma SplitAt(l: string, k: nat)
    requires k < |l|
    ensures l == l[..k] + [l[k]] + l[k + 1..]
  {
  }

  /** One step of the word-by-word reading: a first word, a separator, and the rest. */
  lemma TrimCollapseFirstWord(w: string, d: char, rest: string, joined: string)
    requires forall i :: 0 <= i < |w| ==> IsLowerAlnum(w[i])
    requires IsSeparator(d)
    requires Trim(Collapse(rest)) == joined
    ensures Trim(Collapse(w + [d] + rest)) == HyphenJoin(w, joined)
  {
    TrimCollapseJoin(w, d, rest);
    TrimCollapseWord(w);
  }

  /** On every lower-cased text, steps 2-3 agree with the word-by-word reading. */
  lemma {:induction false} TrimCollapseMatchesWords(l: string)
    ensures Trim(Collapse(l)) == JoinedWords(l)
    decreases |l|
  {
    var k := LeadingRun(l, IsLowerAlnum);
    if k == |l| {
      TrimCollapseWord(l);
    } else {
      var w, rest := l[..k], l[k + 1..];
      TrimCollapseMatchesWords(rest);
      TrimCollapseFirstWord(w, l[k], rest, JoinedWords(rest));
      SplitAt(l, k);
    }
  }

  /**
   Steps 1-3: the text that follows the leading `/`. It is the lower-cased
   name's words joined by single hyphens, which makes it a normal slug with
   the name's letters and digits in order.
   */
  function SlugText(name: string): (t: string)
    ensures NormalSlug(t)
    ensures Keep(t, IsSeparator) == Keep(Lower(name), IsSeparator)
  {
    TrimKeeps(Collapse(Lower(name)));
    Trim(Collapse(Lower(name)))
  }

  /** Steps 1-3 are the lower-cased name's words joined by single hyphens. */
  lemma SlugTextMatchesWords(name: string)
    ensures SlugText(name) == JoinedWords(Lower(name))
  {
    TrimCollapseMatchesWords(Lower(name));
  }

  /** Word boundary on names: a separator splits the slug text into the slug texts of both sides. */
  lemma SlugTextJoin(u: string, c: char, v: string)
    requires IsSeparator(LowerChar(c))
    ensures SlugText(u + [c] + v) == HyphenJoin(SlugText(u), SlugText(v))
  {
    LowerAppend(u + [c], v);
    LowerAppend(u, [c]);
    assert Lower([c]) == [LowerChar(c)];
    TrimCollapseJoin(Lower(u), LowerChar(c), Lower(v));
  }

  /**
   The whole resolver: a `/`, then lower-case letters and digits separated by
   single hyphens, with no hyphen at either end, holding exactly the letters
   and digits of the lower-cased name in their original order.
   */
  function Slugify(name: string): (r: string)
    ensures |r| > 0 && r[0] == '/'
    ensures NormalSlug(r[1..])
    ensures Keep(r[1..], IsSeparator) == Keep(Lower(name), IsSeparator)
  {
    PathUnderRoot(SlugText(name));
    assert ("/" + SlugText(name))[1..] == SlugText(name);
    Path(BasePath, SlugText(name))
  }

  /** The resolved path is the slug text behind a single `/`. */
  lemma SlugifyRooted(name: string)
    ensures Slugify(name) == "/" + SlugText(name)
  {
    var t := SlugText(name);
    assert Slugify(name) == Path(BasePath, t);
    PathUnderRoot(t);
  }

  /** The resolved path is `/` followed by the lower-cased name's words joined by single hyphens. */
  lemma SlugifyMatchesWords(name: string)
    ensures Slugify(name) == "/" + JoinedWords(Lower(name))
  {
    SlugifyRooted(name);
    SlugTextMatchesWords(name);
  }

  /** A `/` followed by a normal slug uses only `[a-z0-9/-]`, and its only `/` is the first. */
  lemma RootedAlphabet(r: string)
    requires |r| > 0 && r[0] == '/' && NormalSlug(r[1..])
    ensures forall i :: 0 <= i < |r| ==> IsPathChar(r[i])
    ensures forall i :: 1 <= i < |r| ==> r[i] != '/'
  {
    assert forall i :: 1 <= i < |r| ==> r[i] == r[1..][i - 1];
  }

  /** Every character of a slug path is one of `[a-z0-9/-]`, and the only `/` is the first. */
  lemma SlugifyAlphabet(name: string)
    ensures forall i :: 0 <= i < |Slugify(name)| ==> IsPathChar(Slugify(name)[i])
    ensures forall i :: 1 <= i < |Slugify(name)| ==> Slugify(name)[i] != '/'
  {
    RootedAlphabet(Slugify(name));
  }

  /** The path is the bare `/` exactly when the lower-cased name has no letter or digit. */
  lemma SlugifyBareIff(name: string)
    ensures Slugify(name) == "/" <==> Keep(Lower(name), IsSeparator) == []
  {
  }

  /** Steps 1-3 leave a name that is already a normal slug unchanged. */
  lemma SlugTextOfSlug(t: string)
    requires NormalSlug(t)
    ensures SlugText(t) == t
  {
    assert forall i :: 0 <= i < |t| ==> !IsUpper(t[i]);
    assert Lower(t) == t;
    CollapseFixpoint(t);
  }

  /** A name already in slug form comes out unchanged below the root. */
  lemma SlugifyOfSlug(t: string)
    requires NormalSlug(t)
    ensures Slugify(t) == "/" + t
  {
    SlugifyRooted(t);
    SlugTextOfSlug(t);
  }

  /** A root-level slug path collapses to the slug behind one leading hyphen. */
  lemma CollapseRooted(t: string)
    requires NormalSlug(t)
    ensures Collapse("/" + t) == "-" + t
  {
    SqueezeAfterRun("/", t, IsSeparator, '-');
    CollapseFixpoint(t);
  }

  /** A normal slug behind one hyphen is trimmed back to itself. */
  lemma TrimHyphenFront(t: string)
    requires NormalSlug(t)
    ensures Trim("-" + t) == t
  {
    assert ("-" + t)[1..] == t;
  }

  /** Steps 1-3 turn a root-level slug path back into its slug. */
  lemma SlugTextRooted(t: string)
    requires NormalSlug(t)
    ensures SlugText("/" + t) == t
  {
    assert Lower("/" + t) == "/" + t by {
      LowerAppend("/", t);
    }
    CollapseRooted(t);
    TrimHyphenFront(t);
  }

  /** Re-slugifying a slug path gives the same path: the leading `/` turns into a trimmed hyphen. */
  lemma SlugifyIdempotent(name: string)
    ensures Slugify(Slugify(name)) == Slugify(name)
  {
    var t := SlugText(name);
    SlugifyRooted(name);
    SlugTextRooted(t);
    SlugifyRooted("/" + t);
  }

  /** A word, one separator and a word read as the two words joined by a hyphen. */
  lemma JoinedWordPair(u: string, c: char, v: string)
    requires u != [] && forall i :: 0 <= i < |u| ==> IsLowerAlnum(u[i])
    requires v != [] && forall i :: 0 <= i < |v| ==> IsLowerAlnum(v[i])
    requires IsSeparator(c)
    ensures JoinedWords(u + [c] + v) == u + "-" + v
  {
    var l := u + [c] + v;
    ConcatAssoc(u, [c], v);
    LeadingRunOf(u, [c] + v, IsLowerAlnum);
    assert l[..|u|] == u;
    assert l[|u| + 1..] == v;
    LeadingRunOf(v, [], IsLowerAlnum);
    assert v + [] == v;
  }

  /** Two words separated by a space: `"A B"` resolves to `"/a-b"`. */
  lemma SlugifyTwoWords(name: string)
    requires name == "A B"
    ensures Slugify(name) == "/a-b"
  {
    var l := Lower(name);
    assert l == l[..1] + [l[1]] + l[2..];
    JoinedWordPair(l[..1], l[1], l[2..]);
    SlugifyMatchesWords(name);
  }

  /** A name with no letter or digit, even after lower-casing, resolves to the bare `"/"`. */
  lemma SlugifyNoWords(name: string)
    requires forall i :: 0 <= i < |name| ==> IsSeparator(LowerChar(name[i]))
    ensures Slugify(name) == "/"
  {
    KeepEmptyIff(Lower(name), IsSeparator);
    SlugifyBareIff(name);
  }

  /** A name of punctuation only: `"!!!"` resolves to the bare `"/"`. */
  lemma SlugifyPunctuation(name: string)
    requires name == "!!!"
    ensures Slugify(name) == "/"
  {
    SlugifyNoWords(name);
  }
}
