/** String utilities with the semantics of Rust's `str::split(char)`,
    `[String]::join(&str)` and `str::replace(&str, &str)`. */
module Text {

  /** The pieces of `s` between occurrences of `sep`, in order, keeping empty
      pieces: "" splits into [""] and a trailing separator yields a trailing "". */
  function Split(s: string, sep: char): (parts: seq<string>)
    ensures |parts| >= 1
    ensures forall i :: 0 <= i < |parts| ==> sep !in parts[i]
    decreases |s|
  {
    if |s| == 0 then [""]
    else
      var rest := Split(s[1..], sep);
      if s[0] == sep then [""] + rest
      else [[s[0]] + rest[0]] + rest[1..]
  }

  /** The parts concatenated with `sep` between neighbours. */
  function Join(parts: seq<string>, sep: string): string
  {
    if |parts| == 0 then ""
    else if |parts| == 1 then parts[0]
    else parts[0] + sep + Join(parts[1..], sep)
  }

  /** True when `pat` occurs in `s` at position `i`. */
  predicate OccursAt(s: string, pat: string, i: nat)
  {
    i + |pat| <= |s| && s[i..i + |pat|] == pat
  }

  /** Every non-overlapping occurrence of `pat`, scanning left to right,
      replaced by `rep`. Every character of the result comes from `s` or `rep`. */
  function Replace(s: string, pat: string, rep: string): (r: string)
    requires |pat| > 0
    ensures forall c :: c in r ==> c in s || c in rep
    decreases |s|
  {
    if |s| < |pat| then s
    else if s[..|pat|] == pat then rep + Replace(s[|pat|..], pat, rep)
    else [s[0]] + Replace(s[1..], pat, rep)
  }

  /** Joining a first part in front of at least one more. */
  lemma JoinCons(x: string, rest: seq<string>, sep: string)
    requires |rest| >= 1
    ensures Join([x] + rest, sep) == x + sep + Join(rest, sep)
  {
    assert ([x] + rest)[1..] == rest;
  }

  /** A character in front of the first part is in front of the join. */
  lemma {:induction false} JoinConsHead(c: char, x: string, rest: seq<string>, sep: string)
    ensures Join([[c] + x] + rest, sep) == [c] + Join([x] + rest, sep)
  {
    if |rest| == 0 {
    } else {
      assert ([[c] + x] + rest)[1..] == rest;
      assert ([x] + rest)[1..] == rest;
    }
  }

  /** Joining the pieces of a split with the same separator gives back the text. */
  lemma {:induction false} JoinSplit(s: string, sep: char)
    ensures Join(Split(s, sep), [sep]) == s
    decreases |s|
  {
    if |s| > 0 {
      var rest := Split(s[1..], sep);
      JoinSplit(s[1..], sep);
      if s[0] == sep {
        assert ([""] + rest)[1..] == rest;
        assert s == [sep] + s[1..];
      } else {
        JoinConsHead(s[0], rest[0], rest[1..], [sep]);
        assert [rest[0]] + rest[1..] == rest;
        assert s == [s[0]] + s[1..];
      }
    }
  }

  /** A text without the separator splits into itself alone. */
  lemma {:induction false} SplitNoSep(p: string, sep: char)
    requires sep !in p
    ensures Split(p, sep) == [p]
    decreases |p|
  {
    if |p| > 0 {
      SplitNoSep(p[1..], sep);
      assert [p[0]] + p[1..] == p;
    }
  }

  /** Splitting at the first separator. */
  lemma {:induction false} SplitAtSep(p: string, sep: char, t: string)
    requires sep !in p
    ensures Split(p + [sep] + t, sep) == [p] + Split(t, sep)
    decreases |p|
  {
    var s := p + [sep] + t;
    if |p| == 0 {
      assert s[1..] == t;
    } else {
      assert s[1..] == p[1..] + [sep] + t;
      SplitAtSep(p[1..], sep, t);
      assert [p[0]] + p[1..] == p;
    }
  }

  /** Splitting a join recovers the parts, provided no part holds the separator. */
  lemma {:induction false} SplitJoin(parts: seq<string>, sep: char)
    requires |parts| >= 1
    requires forall i :: 0 <= i < |parts| ==> sep !in parts[i]
    ensures Split(Join(parts, [sep]), sep) == parts
    decreases |parts|
  {
    if |parts| == 1 {
      SplitNoSep(parts[0], sep);
    } else {
      SplitJoin(parts[1..], sep);
      SplitAtSep(parts[0], sep, Join(parts[1..], [sep]));
      assert [parts[0]] + parts[1..] == parts;
    }
  }

  /** A text in which `pat` never occurs is left unchanged by `Replace`. */
  lemma {:induction false} ReplaceAbsent(s: string, pat: string, rep: string)
    requires |pat| > 0
    requires forall i :: 0 <= i <= |s| - |pat| ==> !OccursAt(s, pat, i)
    ensures Replace(s, pat, rep) == s
    decreases |s|
  {
    if |s| >= |pat| {
      assert !OccursAt(s, pat, 0);
      forall i | 0 <= i <= |s[1..]| - |pat|
        ensures !OccursAt(s[1..], pat, i)
      {
        assert !OccursAt(s, pat, i + 1);
        assert s[1..][i..i + |pat|] == s[i + 1..i + 1 + |pat|];
      }
      ReplaceAbsent(s[1..], pat, rep);
      assert [s[0]] + s[1..] == s;
    }
  }

  /** No occurrence of `pat` can straddle the end of a `rep` or start inside
      `pat` and run into a `rep`: a suffix of `rep` and `pat` always differ
      within the shorter of the two, and so do `rep` and every suffix of
      `pat`. */
  predicate NoOverlap(pat: string, rep: string)
  {
    && (forall i :: 0 <= i < |rep| ==> !(rep[i..] <= pat) && !(pat <= rep[i..]))
    && (forall m :: 0 <= m < |pat| ==> !(pat[m..] <= rep) && !(rep <= pat[m..]))
  }

  /** A prefix of `x + y` is a prefix of `x` or has `x` as a prefix. */
  lemma {:induction false} PrefixOfConcat(q: string, x: string, y: string)
    ensures q <= x + y ==> q <= x || x <= q
  {
    if q <= x + y {
      if |q| <= |x| {
        assert q == (x + y)[..|q|] == x[..|q|];
      } else {
        assert x == (x + y)[..|x|] == q[..|x|];
      }
    }
  }

  /** An occurrence past the end of `x` is an occurrence in `y`. */
  lemma {:induction false} OccursAfter(x: string, y: string, pat: string, i: nat)
    requires i >= |x|
    ensures OccursAt(x + y, pat, i) <==> OccursAt(y, pat, i - |x|)
  {
    if i + |pat| <= |x + y| {
      assert (x + y)[i..i + |pat|] == y[i - |x|..i - |x| + |pat|];
    }
  }

  /** An occurrence starting inside `x` agrees with the rest of `x`. */
  lemma {:induction false} OccursInside(x: string, y: string, pat: string, i: nat)
    requires i < |x|
    ensures OccursAt(x + y, pat, i) ==> x[i..] <= pat || pat <= x[i..]
  {
    if OccursAt(x + y, pat, i) {
      PrefixOfConcat(pat, x[i..], y);
      assert (x + y)[i..] == x[i..] + y;
    }
  }

  /** A prefix of the result that no `rep` can start inside was copied from
      the text unchanged. */
  lemma {:induction false} ReplacePrefixCopied(t: string, pat: string, rep: string, q: string)
    requires |pat| > 0 && q <= Replace(t, pat, rep)
    requires forall m :: 0 <= m < |q| ==> !(q[m..] <= rep) && !(rep <= q[m..])
    ensures q <= t
    decreases |t|
  {
    if |t| >= |pat| && |q| > 0 {
      if t[..|pat|] == pat {
        assert q[0..] == q;
        PrefixOfConcat(q, rep, Replace(t[|pat|..], pat, rep));
      } else {
        var rest := Replace(t[1..], pat, rep);
        assert Replace(t, pat, rep) == [t[0]] + rest;
        assert q[1..] <= rest;
        forall m | 0 <= m < |q[1..]|
          ensures !(q[1..][m..] <= rep) && !(rep <= q[1..][m..])
        {
          assert q[1..][m..] == q[m + 1..];
        }
        ReplacePrefixCopied(t[1..], pat, rep, q[1..]);
        assert q == [q[0]] + q[1..];
      }
    }
  }

  /** After `Replace`, `pat` occurs nowhere in the result, provided no
      occurrence can straddle a replacement. */
  lemma {:induction false} ReplaceLeavesNone(s: string, pat: string, rep: string, i: nat)
    requires |pat| > 0 && NoOverlap(pat, rep)
    ensures !OccursAt(Replace(s, pat, rep), pat, i)
    decreases |s|
  {
    var r := Replace(s, pat, rep);
    if |s| >= |pat| {
      if s[..|pat|] == pat {
        var rest := Replace(s[|pat|..], pat, rep);
        assert r == rep + rest;
        if i >= |rep| {
          ReplaceLeavesNone(s[|pat|..], pat, rep, i - |rep|);
          OccursAfter(rep, rest, pat, i);
        } else {
          OccursInside(rep, rest, pat, i);
        }
      } else {
        var rest := Replace(s[1..], pat, rep);
        assert r == [s[0]] + rest;
        if i >= 1 {
          ReplaceLeavesNone(s[1..], pat, rep, i - 1);
          OccursAfter([s[0]], rest, pat, i);
        } else if OccursAt(r, pat, 0) {
          assert pat[0..] == pat;
          ReplacePrefixCopied(s, pat, rep, pat);
        }
      }
    }
  }
}
