/** Both text rewrites of the merge only touch what follows a `}` on a line.
    `Mask` erases exactly that part of every line and keeps the line breaks,
    so a rewrite that leaves `Mask` alone keeps the number of lines and every
    line's stem, and with the stem every line's crate key. */
module BraceTails {
  import opened Text
  import opened CrateKey

  /** `s` with every line cut at its first `}`; `inTail` says that the
      current line already went past one. */
  function Mask(s: string, inTail: bool): string
    decreases |s|
  {
    if |s| == 0 then ""
    else if s[0] == '\n' then "\n" + Mask(s[1..], false)
    else if inTail || s[0] == '}' then Mask(s[1..], true)
    else [s[0]] + Mask(s[1..], false)
  }

  /** Whether the masking is inside a tail after reading `s`. */
  function TailAfter(s: string, inTail: bool): bool
    decreases |s|
  {
    if |s| == 0 then inTail
    else TailAfter(s[1..], s[0] != '\n' && (inTail || s[0] == '}'))
  }

  lemma {:induction false} MaskAppend(x: string, z: string, b: bool)
    ensures Mask(x + z, b) == Mask(x, b) + Mask(z, TailAfter(x, b))
    decreases |x|
  {
    if |x| == 0 {
      assert x + z == z;
    } else {
      assert (x + z)[1..] == x[1..] + z;
      MaskAppend(x[1..], z, x[0] != '\n' && (b || x[0] == '}'));
    }
  }

  /** The stems of a sequence of lines. */
  function Stems(lines: seq<string>): (r: seq<string>)
    ensures |r| == |lines|
    ensures forall i :: 0 <= i < |lines| ==> r[i] == Stem(lines[i])
    decreases |lines|
  {
    if |lines| == 0 then [] else [Stem(lines[0])] + Stems(lines[1..])
  }

  /** The text of the stems of `s`'s lines, the first one left out when the
      masking starts inside a tail. */
  function StemText(s: string, inTail: bool): string
  {
    Join([if inTail then "" else Stem(Split(s, '\n')[0])] + Stems(Split(s, '\n')[1..]), "\n")
  }

  /** `Mask` is the text of the lines' stems; inside a tail the first line
      contributes nothing. */
  lemma {:induction false} MaskIsStems(s: string, b: bool)
    ensures Mask(s, b) == StemText(s, b)
    decreases |s|
  {
    if |s| > 0 {
      MaskIsStems(s[1..], s[0] != '\n' && (b || s[0] == '}'));
      if s[0] == '\n' {
        MaskAfterBreak(s, b);
      } else if b || s[0] == '}' {
        MaskInTail(s, b);
      } else {
        MaskInStem(s);
      }
    }
  }

  /** `MaskIsStems` when `s` starts with a line break. */
  lemma {:induction false} MaskAfterBreak(s: string, b: bool)
    requires |s| > 0 && s[0] == '\n'
    requires Mask(s[1..], false) == StemText(s[1..], false)
    ensures Mask(s, b) == StemText(s, b)
  {
    var rest := Split(s[1..], '\n');
    var stems := Stems(rest);
    calc {
      StemText(s, b);
      { assert Split(s, '\n') == [""] + rest;
        assert ([""] + rest)[1..] == rest; }
      Join([if b then "" else Stem("")] + stems, "\n");
      { JoinCons("", stems, "\n"); }
      "\n" + Join(stems, "\n");
      { assert stems == [Stem(rest[0])] + Stems(rest[1..]); }
      "\n" + StemText(s[1..], false);
    }
  }

  /** `MaskIsStems` when the first character of `s` is in a tail. */
  lemma {:induction false} MaskInTail(s: string, b: bool)
    requires |s| > 0 && s[0] != '\n' && (b || s[0] == '}')
    requires Mask(s[1..], true) == StemText(s[1..], true)
    ensures Mask(s, b) == StemText(s, b)
  {
    var rest := Split(s[1..], '\n');
    assert Split(s, '\n') == [[s[0]] + rest[0]] + rest[1..];
  }

  /** `MaskIsStems` when the first character of `s` belongs to the stem. */
  lemma {:induction false} MaskInStem(s: string)
    requires |s| > 0 && s[0] != '\n' && s[0] != '}'
    requires Mask(s[1..], false) == StemText(s[1..], false)
    ensures Mask(s, false) == StemText(s, false)
  {
    var rest := Split(s[1..], '\n');
    assert Split(s, '\n') == [[s[0]] + rest[0]] + rest[1..];
    JoinConsHead(s[0], Stem(rest[0]), Stems(rest[1..]), "\n");
  }

  /** `rep` may stand in for `pat`: both mask to the same text and leave the
      masking in the same state, whatever state it starts in. */
  predicate TailEquivalent(pat: string, rep: string)
  {
    && Mask(pat, false) == Mask(rep, false) && Mask(pat, true) == Mask(rep, true)
    && TailAfter(pat, false) == TailAfter(rep, false) && TailAfter(pat, true) == TailAfter(rep, true)
  }

  lemma {:induction false} ReplaceKeepsMask(s: string, pat: string, rep: string, b: bool)
    requires |pat| > 0 && TailEquivalent(pat, rep)
    ensures Mask(Replace(s, pat, rep), b) == Mask(s, b)
    decreases |s|
  {
    if |s| >= |pat| {
      if s[..|pat|] == pat {
        var s' := s[|pat|..];
        assert s == pat + s';
        MaskAppend(pat, s', b);
        MaskAppend(rep, Replace(s', pat, rep), b);
        ReplaceKeepsMask(s', pat, rep, TailAfter(pat, b));
      } else {
        ReplaceKeepsMask(s[1..], pat, rep, s[0] != '\n' && (b || s[0] == '}'));
        assert ([s[0]] + Replace(s[1..], pat, rep))[1..] == Replace(s[1..], pat, rep);
      }
    }
  }

  /** A rewrite by a tail-equivalent pair keeps the text's lines in number and
      keeps every line's stem. */
  lemma {:induction false} ReplaceKeepsStems(s: string, pat: string, rep: string)
    requires |pat| > 0 && TailEquivalent(pat, rep)
    ensures Stems(Split(Replace(s, pat, rep), '\n')) == Stems(Split(s, '\n'))
  {
    var a := Split(Replace(s, pat, rep), '\n');
    var b := Split(s, '\n');
    ReplaceKeepsMask(s, pat, rep, false);
    MaskIsStems(s, false);
    MaskIsStems(Replace(s, pat, rep), false);
    assert [Stem(a[0])] + Stems(a[1..]) == Stems(a);
    assert [Stem(b[0])] + Stems(b[1..]) == Stems(b);
    SplitJoin(Stems(a), '\n');
    SplitJoin(Stems(b), '\n');
  }

  /** The stem of a text is the stem of its first line. */
  lemma {:induction false} StemOfFirstLine(s: string)
    ensures Stem(Split(s, '\n')[0]) == Stem(s)
    decreases |s|
  {
    if |s| > 0 && s[0] != '\n' {
      StemOfFirstLine(s[1..]);
      var rest := Split(s[1..], '\n');
      assert ([s[0]] + rest[0])[1..] == rest[0];
    }
  }

  /** A tail-equivalent rewrite of a single line keeps its crate key. */
  lemma {:induction false} ReplaceKeepsKey(line: string, pat: string, rep: string)
    requires |pat| > 0 && TailEquivalent(pat, rep)
    ensures Key(Replace(line, pat, rep)) == Key(line)
  {
    var r := Replace(line, pat, rep);
    ReplaceKeepsStems(line, pat, rep);
    StemOfFirstLine(line);
    StemOfFirstLine(r);
    KeyOfStem(line);
    KeyOfStem(r);
  }

  /** A tail-equivalent rewrite of joined lines gives back, when split, as many
      lines as were joined, each with the key of the line it came from. */
  lemma {:induction false} ReplaceKeepsLineKeys(lines: seq<string>, pat: string, rep: string)
    requires |pat| > 0 && TailEquivalent(pat, rep)
    requires |lines| >= 1 && forall i :: 0 <= i < |lines| ==> '\n' !in lines[i]
    ensures var out := Split(Replace(Join(lines, "\n"), pat, rep), '\n');
      |out| == |lines| && forall i :: 0 <= i < |lines| ==> Key(out[i]) == Key(lines[i])
  {
    var out := Split(Replace(Join(lines, "\n"), pat, rep), '\n');
    ReplaceKeepsStems(Join(lines, "\n"), pat, rep);
    SplitJoin(lines, '\n');
    forall i | 0 <= i < |lines|
      ensures Key(out[i]) == Key(lines[i])
    {
      KeyOfStem(out[i]);
      KeyOfStem(lines[i]);
    }
  }
}
