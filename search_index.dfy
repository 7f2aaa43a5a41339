/** The line-level merge of a crate's `search-index.js` into the shared one
    (the body of the `for js in ["search-index.js"]` loop of
    `DocMerge::execute`). Each crate occupies one line `"name":{...},\`; the
    last crate line of a file ends `}\` and is followed by `}');`. */
module SearchIndex {
  import opened Text
  import opened KeyOrder
  import opened CrateKey
  import opened BraceTails

  /** `}\`, the end of the last crate line of a file. */
  const RecordEnd: string := "}\\"
  /** `},\`, the end of every other crate line. */
  const RecordSep: string := "},\\"
  /** `},\` followed by the closing `}');` line: a comma that must not stay. */
  const DanglingSep: string := "},\\\n}');"
  /** `}\` followed by the closing `}');` line. */
  const ClosedEnd: string := "}\\\n}');"

  /** Both rewrites only change what follows a `}`. */
  lemma RewritesTouchOnlyTails()
    ensures TailEquivalent(RecordEnd, RecordSep)
    ensures TailEquivalent(DanglingSep, ClosedEnd)
  {
    assert RecordEnd[1..] == "\\";
    assert RecordSep[1..] == ",\\" && RecordSep[2..] == "\\";
    assert DanglingSep[1..] == ",\\\n}');" && DanglingSep[2..] == "\\\n}');";
    assert DanglingSep[3..] == "\n}');" && DanglingSep[4..] == "}');";
    assert DanglingSep[5..] == "');" && DanglingSep[6..] == ");" && DanglingSep[7..] == ";";
    assert ClosedEnd[1..] == "\\\n}');" && ClosedEnd[2..] == "\n}');" && ClosedEnd[3..] == "}');";
    assert ClosedEnd[4..] == "');" && ClosedEnd[5..] == ");" && ClosedEnd[6..] == ";";
  }

  /** A source crate line made ready to stand anywhere but last: `}\` becomes `},\`. */
  function RewriteSourceLine(line: string): (r: string)
    ensures Key(r) == Key(line)
    ensures '\n' in r ==> '\n' in line
  {
    RewritesTouchOnlyTails();
    ReplaceKeepsKey(line, RecordEnd, RecordSep);
    Replace(line, RecordEnd, RecordSep)
  }

  /** Line `i` is the last line of `lines` keyed `k`. */
  predicate LastKeyed(lines: seq<string>, i: int, k: string)
  {
    0 <= i < |lines| && Key(lines[i]) == Some(k)
    && forall j :: i < j < |lines| ==> Key(lines[j]) != Some(k)
  }

  /** One step of collecting keyed lines into the map: a keyed line is
      stored, rewritten, under its key, overwriting what was there. */
  function Collect(m: map<string, string>, line: string): map<string, string>
  {
    match Key(line)
    case Some(k) => m[k := RewriteSourceLine(line)]
    case None => m
  }

  /** The source map `src_js`: each keyed source line, rewritten, under its key;
      when several lines share a key, the last one is kept. */
  function SourceMap(lines: seq<string>): (m: map<string, string>)
    ensures m.Keys == KeySet(lines)
    ensures forall k :: k in m ==> Key(m[k]) == Some(k)
    ensures forall k :: k in m ==> exists i :: LastKeyed(lines, i, k) && m[k] == RewriteSourceLine(lines[i])
    decreases |lines|
  {
    if |lines| == 0 then map[]
    else
      var init := SourceMap(lines[..|lines| - 1]);
      CollectStep(lines, init);
      Collect(init, lines[|lines| - 1])
  }

  /** Collecting the last line keeps the three facts `SourceMap` promises. */
  lemma {:induction false} CollectStep(lines: seq<string>, init: map<string, string>)
    requires |lines| > 0
    requires init.Keys == KeySet(lines[..|lines| - 1])
    requires forall k :: k in init ==> Key(init[k]) == Some(k)
    requires forall k :: k in init ==>
      exists i :: LastKeyed(lines[..|lines| - 1], i, k) && init[k] == RewriteSourceLine(lines[i])
    ensures var m := Collect(init, lines[|lines| - 1]);
      && m.Keys == KeySet(lines)
      && (forall k :: k in m ==> Key(m[k]) == Some(k))
      && (forall k :: k in m ==> exists i :: LastKeyed(lines, i, k) && m[k] == RewriteSourceLine(lines[i]))
  {
    var m := Collect(init, lines[|lines| - 1]);
    CollectStepKeys(lines, init);
    forall k | k in m
      ensures exists i :: LastKeyed(lines, i, k) && m[k] == RewriteSourceLine(lines[i])
    {
      CollectStepAt(lines, init, k);
    }
  }

  /** The key part of `CollectStep`. */
  lemma {:induction false} CollectStepKeys(lines: seq<string>, init: map<string, string>)
    requires |lines| > 0
    requires init.Keys == KeySet(lines[..|lines| - 1])
    requires forall k :: k in init ==> Key(init[k]) == Some(k)
    ensures var m := Collect(init, lines[|lines| - 1]);
      && m.Keys == KeySet(lines)
      && (forall k :: k in m ==> Key(m[k]) == Some(k))
  {
    assert lines[..|lines| - 1 + 1] == lines;
  }

  /** The last-occurrence part of `CollectStep`, for one key. */
  lemma {:induction false} CollectStepAt(lines: seq<string>, init: map<string, string>, k: string)
    requires |lines| > 0
    requires forall k :: k in init ==>
      exists i :: LastKeyed(lines[..|lines| - 1], i, k) && init[k] == RewriteSourceLine(lines[i])
    requires k in Collect(init, lines[|lines| - 1])
    ensures exists i :: LastKeyed(lines, i, k) && Collect(init, lines[|lines| - 1])[k] == RewriteSourceLine(lines[i])
  {
    var last := |lines| - 1;
    if Key(lines[last]) == Some(k) {
      assert LastKeyed(lines, last, k);
    } else {
      var i :| LastKeyed(lines[..last], i, k) && init[k] == RewriteSourceLine(lines[i]);
      forall j | i < j < |lines|
        ensures Key(lines[j]) != Some(k)
      {
        if j < last {
          assert Key(lines[..last][j]) != Some(k);
          assert lines[..last][j] == lines[j];
        } else {
          assert j == last;
        }
      }
      assert LastKeyed(lines, i, k);
    }
  }

  /** Destination line `i` takes its key's source entry: it is keyed, the key
      is in the source map, and no earlier destination line has that key (an
      earlier one would have removed the entry already). */
  predicate TakesEntry(dest: seq<string>, source: map<string, string>, i: nat)
    requires i < |dest|
  {
    match Key(dest[i])
    case Some(k) => k in source && k !in KeySet(dest[..i])
    case None => false
  }

  /** A destination line takes a source entry exactly when it is keyed, its
      key is in the source map, and it is the first line with that key. */
  lemma {:induction false} TakesEntryIffFirst(dest: seq<string>, source: map<string, string>, i: nat)
    requires i < |dest|
    ensures TakesEntry(dest, source, i) <==>
      && Key(dest[i]).Some? && Key(dest[i]).value in source
      && forall j :: 0 <= j < i ==> Key(dest[j]) != Key(dest[i])
  {
    if Key(dest[i]).Some? {
      var k := Key(dest[i]).value;
      KeySetMembers(dest[..i]);
      if k in KeySet(dest[..i]) {
        var j :| 0 <= j < i && Key(dest[..i][j]) == Some(k);
        assert dest[..i][j] == dest[j];
      } else {
        forall j | 0 <= j < i
          ensures Key(dest[j]) != Key(dest[i])
        {
          assert dest[..i][j] == dest[j];
        }
      }
    }
  }

  /** What destination line `i` becomes. */
  function RewrittenLine(dest: seq<string>, source: map<string, string>, i: nat): string
    requires i < |dest|
  {
    if TakesEntry(dest, source, i) then source[Key(dest[i]).value] else dest[i]
  }

  /** All destination lines, rewritten. */
  function RewrittenLines(dest: seq<string>, source: map<string, string>): seq<string>
  {
    seq(|dest|, i => if 0 <= i < |dest| then RewrittenLine(dest, source, i) else "")
  }

  /** Walks the destination lines, replacing the first line of each source key
      by the source line and removing that entry from the map. Returns the new
      lines and the entries no destination line took. */
  method RewriteDestination(dest: seq<string>, source: map<string, string>)
    returns (lines: seq<string>, unused: map<string, string>)
    ensures lines == RewrittenLines(dest, source)
    ensures unused == source - KeySet(dest)
  {
    lines := [];
    unused := source;
    for i := 0 to |dest|
      invariant |lines| == i
      invariant forall j :: 0 <= j < i ==> lines[j] == RewrittenLine(dest, source, j)
      invariant unused == source - KeySet(dest[..i])
    {
      ghost var seen := KeySet(dest[..i]);
      assert dest[..i + 1][..i] == dest[..i];
      var line := dest[i];
      match Key(dest[i]) {
        case Some(k) =>
          assert KeySet(dest[..i + 1]) == seen + {k};
          if k in unused {
            line := unused[k];
            unused := unused - {k};
          }
        case None =>
          assert KeySet(dest[..i + 1]) == seen;
      }
      assert line == RewrittenLine(dest, source, i);
      lines := lines + [line];
    }
    assert dest[..|dest|] == dest;
    assert lines == RewrittenLines(dest, source);
  }

  /** Every entry of a source map is stored under its own key. */
  predicate WellKeyed(source: map<string, string>)
  {
    forall k :: k in source ==> Key(source[k]) == Some(k)
  }

  /** Rewriting never changes a destination line's key. */
  lemma {:induction false} RewrittenKeepsKey(dest: seq<string>, source: map<string, string>, i: nat)
    requires i < |dest| && WellKeyed(source)
    ensures Key(RewrittenLine(dest, source, i)) == Key(dest[i])
  {
    if TakesEntry(dest, source, i) {
      var k := Key(dest[i]).value;
      assert Key(source[k]) == Some(k);
    }
  }

  /** A source entry is taken by at most one destination line. */
  lemma {:induction false} TakesEntryOnce(dest: seq<string>, source: map<string, string>, i: nat, j: nat)
    requires i < j < |dest|
    requires TakesEntry(dest, source, i) && TakesEntry(dest, source, j)
    ensures Key(dest[i]) != Key(dest[j])
  {
    TakesEntryIffFirst(dest, source, j);
  }

  /** A source entry is taken by some destination line exactly when some
      destination line has its key. */
  lemma {:induction false} TakenIffKeyed(dest: seq<string>, source: map<string, string>, k: string)
    requires k in source
    ensures k in KeySet(dest) <==> exists i :: 0 <= i < |dest| && TakesEntry(dest, source, i) && Key(dest[i]) == Some(k)
    decreases |dest|
  {
    KeySetMembers(dest);
    if k in KeySet(dest) {
      var last := |dest| - 1;
      if k in KeySet(dest[..last]) {
        TakenIffKeyed(dest[..last], source, k);
        var i :| 0 <= i < last && TakesEntry(dest[..last], source, i) && Key(dest[..last][i]) == Some(k);
        assert dest[..last][..i] == dest[..i];
        assert TakesEntry(dest, source, i);
      } else {
        assert Key(dest[last]) == Some(k);
        assert TakesEntry(dest, source, last);
      }
    }
  }

  /** The map's values as `BTreeMap::into_values` yields them: in ascending
      key order. */
  function ValuesInKeyOrder(m: map<string, string>): (vs: seq<string>)
    ensures |vs| == |m.Keys|
    ensures forall p :: 0 <= p < |vs| ==> vs[p] == m[SortedKeys(m.Keys)[p]]
  {
    var keys := SortedKeys(m.Keys);
    seq(|keys|, p requires 0 <= p < |keys| => m[keys[p]])
  }

  /** `s` back to front. */
  function Reversed<T>(s: seq<T>): (r: seq<T>)
    ensures |r| == |s|
  {
    if |s| == 0 then [] else Reversed(s[1..]) + [s[0]]
  }

  /** Position `i` of the reversal holds the `i`-th element from the end. */
  lemma {:induction false} ReversedAt<T>(s: seq<T>, i: int)
    requires 0 <= i < |s|
    ensures Reversed(s)[i] == s[|s| - 1 - i]
    decreases |s|
  {
    if i < |s| - 1 {
      ReversedAt(s[1..], i);
    }
  }

  /** Reversing after appending an element puts that element first. */
  lemma {:induction false} ReversedSnoc<T>(s: seq<T>, x: T)
    ensures Reversed(s + [x]) == [x] + Reversed(s)
    decreases |s|
  {
    if |s| == 0 {
      assert s + [x] == [x];
    } else {
      assert (s + [x])[1..] == s[1..] + [x];
      ReversedSnoc(s[1..], x);
    }
  }

  /** Inserts the values one by one at index 1, in the order given, so that
      they end up after the first line in reverse order. */
  method InsertAtOne<T>(lines: seq<T>, values: seq<T>) returns (out: seq<T>)
    requires |lines| >= 1
    ensures out == [lines[0]] + Reversed(values) + lines[1..]
  {
    out := lines;
    for i := 0 to |values|
      invariant out == [lines[0]] + Reversed(values[..i]) + lines[1..]
    {
      assert values[..i + 1] == values[..i] + [values[i]];
      ReversedSnoc(values[..i], values[i]);
      out := out[..1] + [values[i]] + out[1..];
    }
    assert values[..|values|] == values;
  }

  /** The joined text with the comma after the last crate removed: every
      `},\` directly followed by a `}');` line becomes `}\`. */
  function Repair(text: string): (r: string)
  {
    Replace(text, DanglingSep, ClosedEnd)
  }

  /** Repair keeps the lines in number and each line's crate key. */
  lemma {:induction false} RepairKeepsKeys(lines: seq<string>)
    requires |lines| >= 1 && forall i :: 0 <= i < |lines| ==> '\n' !in lines[i]
    ensures var out := Split(Repair(Join(lines, "\n")), '\n');
      |out| == |lines| && forall i :: 0 <= i < |lines| ==> Key(out[i]) == Key(lines[i])
  {
    RewritesTouchOnlyTails();
    ReplaceKeepsLineKeys(lines, DanglingSep, ClosedEnd);
  }

  /** The repair cannot make a new dangling comma: `}\` ⏎ `}');` and
      `},\` ⏎ `}');` cannot overlap across a replacement. */
  lemma RepairPairNoOverlap()
    ensures NoOverlap(DanglingSep, ClosedEnd)
  {
    forall i | 0 <= i < |ClosedEnd|
      ensures !(ClosedEnd[i..] <= DanglingSep) && !(DanglingSep <= ClosedEnd[i..])
    {
      assert |ClosedEnd[i..]| < |DanglingSep|;
      assert ClosedEnd[i..][0] == ClosedEnd[i];
      if i == 0 {
        assert ClosedEnd[i..][1] != DanglingSep[1];
      } else if i == 3 {
        assert ClosedEnd[i..][1] != DanglingSep[1];
      } else {
        assert ClosedEnd[i] != DanglingSep[0];
      }
    }
    forall m | 0 <= m < |DanglingSep|
      ensures !(DanglingSep[m..] <= ClosedEnd) && !(ClosedEnd <= DanglingSep[m..])
    {
      assert DanglingSep[m..][0] == DanglingSep[m];
      if m == 0 {
        assert DanglingSep[m..][1] != ClosedEnd[1];
      } else if m == 4 {
        assert |DanglingSep[m..]| < |ClosedEnd|;
        assert DanglingSep[m..][1] != ClosedEnd[1];
      } else {
        assert DanglingSep[m] != ClosedEnd[0];
      }
    }
  }

  /** After the repair no `},\` is followed by a `}');` line: every dangling
      comma is gone. */
  lemma {:induction false} RepairRemovesDanglingSep(text: string)
    ensures forall i: nat :: !OccursAt(Repair(text), DanglingSep, i)
  {
    RepairPairNoOverlap();
    forall i: nat
      ensures !OccursAt(Repair(text), DanglingSep, i)
    {
      ReplaceLeavesNone(text, DanglingSep, ClosedEnd, i);
    }
  }

  /** Repair changes nothing in a text that has no dangling comma. */
  lemma {:induction false} RepairWithoutDanglingSep(text: string)
    requires forall i :: 0 <= i <= |text| - |DanglingSep| ==> !OccursAt(text, DanglingSep, i)
    ensures Repair(text) == text
  {
    ReplaceAbsent(text, DanglingSep, ClosedEnd);
  }


  /** The source entries that no destination line has, in descending key
      order. */
  function Leftovers(dest: seq<string>, source: map<string, string>): seq<string>
  {
    Reversed(ValuesInKeyOrder(source - KeySet(dest)))
  }

  /** The merged lines: the destination's first line rewritten, then the
      entries no destination line took in descending key order, then the rest
      of the destination's lines rewritten. */
  function Merge(dest: seq<string>, source: map<string, string>): seq<string>
    requires |dest| >= 1
  {
    var lines := RewrittenLines(dest, source);
    [lines[0]] + Leftovers(dest, source) + lines[1..]
  }

  /** The line-level merge: rewrite the destination lines against the source
      map, then insert the remaining values one by one after the first line. */
  method MergeLines(dest: seq<string>, source: map<string, string>) returns (merged: seq<string>)
    requires |dest| >= 1
    ensures merged == Merge(dest, source)
  {
    var lines, unused := RewriteDestination(dest, source);
    merged := InsertAtOne(lines, ValuesInKeyOrder(unused));
  }

  /** Position by position: after the first line comes the block, and the
      other lines come after it. */
  lemma {:induction false} InsertedShape<T>(lines: seq<T>, block: seq<T>)
    requires |lines| >= 1
    ensures var merged := [lines[0]] + block + lines[1..];
      var n := |block|;
      && |merged| == |lines| + n
      && merged[0] == lines[0]
      && (forall j :: 1 <= j <= n ==> merged[j] == block[j - 1])
      && (forall j :: n < j < |merged| ==> merged[j] == lines[j - n])
  {
    var n := |block|;
    var merged := [lines[0]] + block + lines[1..];
    forall j | n < j < |merged|
      ensures merged[j] == lines[j - n]
    {
      assert merged[j] == lines[1..][j - n - 1];
    }
  }

  /** Position `j` of the map's values back to front holds the entry of the
      `j`-th largest key. */
  lemma {:induction false} ReversedValueAt(m: map<string, string>, j: int)
    requires 0 <= j < |m.Keys|
    ensures var keys := SortedKeys(m.Keys);
      && keys[|keys| - 1 - j] in m
      && Reversed(ValuesInKeyOrder(m))[j] == m[keys[|keys| - 1 - j]]
  {
    var keys := SortedKeys(m.Keys);
    ReversedAt(ValuesInKeyOrder(m), j);
    assert keys[|keys| - 1 - j] in keys;
  }

  /** In a well-keyed map, position `j` of the values back to front is the
      entry of the `j`-th largest key, and that entry carries its key. */
  lemma {:induction false} ReversedKeyAt(m: map<string, string>, j: int)
    requires WellKeyed(m) && 0 <= j < |m.Keys|
    ensures var keys := SortedKeys(m.Keys);
      var k := keys[|keys| - 1 - j];
      var line := Reversed(ValuesInKeyOrder(m))[j];
      k in m && line == m[k] && Key(line) == Some(k)
  {
    var keys := SortedKeys(m.Keys);
    var k := keys[|keys| - 1 - j];
    ReversedValueAt(m, j);
    assert Key(m[k]) == Some(k);
  }

  /** Every entry of the map is among the reversed values. */
  lemma {:induction false} ReversedValuesComplete(m: map<string, string>)
    requires WellKeyed(m)
    ensures forall k :: k in m ==> HasKeyed(Reversed(ValuesInKeyOrder(m)), k)
  {
    forall k | k in m
      ensures HasKeyed(Reversed(ValuesInKeyOrder(m)), k)
    {
      ReversedHasKey(m, k);
    }
  }

  /** The entry of a key of a well-keyed map is among its values back to front. */
  lemma {:induction false} ReversedHasKey(m: map<string, string>, k: string)
    requires WellKeyed(m) && k in m
    ensures HasKeyed(Reversed(ValuesInKeyOrder(m)), k)
  {
    var p := SortedKeysPosition(m.Keys, k);
    var j := |m.Keys| - 1 - p;
    ReversedKeyAt(m, j);
    assert Key(Reversed(ValuesInKeyOrder(m))[j]) == Some(k);
  }

  /** `line` is a source entry whose key no destination line has. */
  predicate IsLeftover(line: string, source: map<string, string>, dest: seq<string>)
  {
    && Key(line).Some?
    && Key(line).value in source
    && Key(line).value !in KeySet(dest)
    && line == source[Key(line).value]
  }

  /** The leftover block holds exactly the source entries that no destination
      line has, each once: position `j` holds the entry of the `j`-th largest
      such key. */
  lemma {:induction false} LeftoverBlock(dest: seq<string>, source: map<string, string>)
    requires WellKeyed(source)
    ensures var block := Leftovers(dest, source);
      var keys := SortedKeys((source - KeySet(dest)).Keys);
      && |block| == |keys|
      && (forall j :: 0 <= j < |block| ==> IsLeftover(block[j], source, dest) && Key(block[j]) == Some(keys[|keys| - 1 - j]))
      && (forall k :: k in source && k !in KeySet(dest) ==> HasKeyed(block, k))
  {
    var block := Leftovers(dest, source);
    forall j | 0 <= j < |block|
      ensures var keys := SortedKeys((source - KeySet(dest)).Keys);
        IsLeftover(block[j], source, dest) && Key(block[j]) == Some(keys[|keys| - 1 - j])
    {
      LeftoverAt(dest, source, j);
    }
    ReversedValuesComplete(source - KeySet(dest));
  }

  /** Position `j` of the leftover block: the entry of the `j`-th largest key
      that the destination lacks. */
  lemma {:induction false} LeftoverAt(dest: seq<string>, source: map<string, string>, j: int)
    requires WellKeyed(source) && 0 <= j < |Leftovers(dest, source)|
    ensures var keys := SortedKeys((source - KeySet(dest)).Keys);
      var line := Leftovers(dest, source)[j];
      IsLeftover(line, source, dest) && Key(line) == Some(keys[|keys| - 1 - j])
  {
    var unused := source - KeySet(dest);
    var keys := SortedKeys(unused.Keys);
    var k := keys[|keys| - 1 - j];
    ReversedKeyAt(unused, j);
    assert k in source && k !in KeySet(dest);
    assert unused[k] == source[k];
  }

  /** The key of position `j` of the values back to front. */
  lemma {:induction false} ReversedKeyOf(m: map<string, string>, j: int) returns (k: string)
    requires WellKeyed(m) && 0 <= j < |m.Keys|
    ensures k == SortedKeys(m.Keys)[|m.Keys| - 1 - j]
    ensures Key(Reversed(ValuesInKeyOrder(m))[j]) == Some(k)
  {
    ReversedKeyAt(m, j);
    k := SortedKeys(m.Keys)[|m.Keys| - 1 - j];
  }

  /** Back to front, the values of a well-keyed map have strictly
      descending keys. */
  lemma {:induction false} ReversedDescending(m: map<string, string>, i: int, j: int) returns (ki: string, kj: string)
    requires WellKeyed(m) && 0 <= i < j < |m.Keys|
    ensures Key(Reversed(ValuesInKeyOrder(m))[i]) == Some(ki) && Key(Reversed(ValuesInKeyOrder(m))[j]) == Some(kj)
    ensures Less(kj, ki)
  {
    var _, _ := SortedKeysFromEnd(m.Keys, i, j);
    ki := ReversedKeyOf(m, i);
    kj := ReversedKeyOf(m, j);
  }

  /** The leftover block is in strictly descending key order: of two of its
      entries, the later one has the smaller key. */
  lemma {:induction false} LeftoversDescending(dest: seq<string>, source: map<string, string>, i: int, j: int)
    requires WellKeyed(source) && 0 <= i < j < |Leftovers(dest, source)|
    ensures Key(Leftovers(dest, source)[i]).Some? && Key(Leftovers(dest, source)[j]).Some?
    ensures Less(Key(Leftovers(dest, source)[j]).value, Key(Leftovers(dest, source)[i]).value)
  {
    var unused := source - KeySet(dest);
    assert WellKeyed(unused);
    var _, _ := ReversedDescending(unused, i, j);
  }

  /** The merged lines begin with the first destination line rewritten and
      then the leftover block. */
  lemma {:induction false} MergeHead(dest: seq<string>, source: map<string, string>)
    requires |dest| >= 1
    ensures var merged := Merge(dest, source);
      var block := Leftovers(dest, source);
      && |merged| == |dest| + |block|
      && merged[0] == RewrittenLine(dest, source, 0)
      && (forall j :: 1 <= j <= |block| ==> merged[j] == block[j - 1])
  {
    InsertedShape(RewrittenLines(dest, source), Leftovers(dest, source));
  }

  /** After the leftover block come the other destination lines rewritten,
      in their order. */
  lemma {:induction false} MergeTail(dest: seq<string>, source: map<string, string>)
    requires |dest| >= 1
    ensures forall i :: 1 <= i < |dest| ==>
      Merge(dest, source)[|Leftovers(dest, source)| + i] == RewrittenLine(dest, source, i)
  {
    forall i | 1 <= i < |dest|
      ensures Merge(dest, source)[|Leftovers(dest, source)| + i] == RewrittenLine(dest, source, i)
    {
      MergeAt(dest, source, i);
    }
  }

  /** Destination line `i > 0`, rewritten, sits `|block|` places later in the
      merged lines. */
  lemma {:induction false} MergeAt(dest: seq<string>, source: map<string, string>, i: int)
    requires 1 <= i < |dest|
    ensures Merge(dest, source)[|Leftovers(dest, source)| + i] == RewrittenLine(dest, source, i)
  {
    var lines := RewrittenLines(dest, source);
    var block := Leftovers(dest, source);
    InsertedAt(lines, block, i);
  }

  /** Where destination line `i` ends up and what it becomes: the source
      entry of its key when it is the first line with a key the source has,
      the line itself otherwise. Line 0 stays first; the others move down
      past the leftover block. */
  lemma {:induction false} MergedLine(dest: seq<string>, source: map<string, string>, i: int)
    requires 0 <= i < |dest|
    ensures var pos := if i == 0 then 0 else |Leftovers(dest, source)| + i;
      && pos < |Merge(dest, source)|
      && Merge(dest, source)[pos] ==
        if Key(dest[i]).Some? && Key(dest[i]).value in source && (forall j :: 0 <= j < i ==> Key(dest[j]) != Key(dest[i]))
        then source[Key(dest[i]).value]
        else dest[i]
  {
    TakesEntryIffFirst(dest, source, i);
    MergeHead(dest, source);
    if i > 0 {
      MergeAt(dest, source, i);
    }
  }

  /** The line at position `i > 0` of the lines comes `|block|` places later
      once the block is inserted after the first line. */
  lemma {:induction false} InsertedAt<T>(lines: seq<T>, block: seq<T>, i: int)
    requires 1 <= i < |lines|
    ensures ([lines[0]] + block + lines[1..])[|block| + i] == lines[i]
  {
    assert ([lines[0]] + block + lines[1..])[|block| + i] == lines[1..][i - 1];
  }

  /** The merged lines position by position: the first destination line
      rewritten, the `n` leftover entries, then the other destination lines
      rewritten. */
  lemma {:induction false} MergeShape(dest: seq<string>, source: map<string, string>)
    requires |dest| >= 1
    ensures var merged := Merge(dest, source);
      var block := Leftovers(dest, source);
      var n := |block|;
      && |merged| == |dest| + n
      && merged[0] == RewrittenLine(dest, source, 0)
      && (forall i :: 1 <= i < |dest| ==> merged[n + i] == RewrittenLine(dest, source, i))
      && (forall j :: 1 <= j <= n ==> merged[j] == block[j - 1])
  {
    MergeHead(dest, source);
    MergeTail(dest, source);
  }

  /** Two merged lines have different keys, if the first has one, when the
      destination's keyed lines do. */
  lemma {:induction false} MergedKeysDiffer(dest: seq<string>, source: map<string, string>, p: int, q: int)
    requires |dest| >= 1 && WellKeyed(source) && UniqueKeys(dest)
    requires 0 <= p < q < |Merge(dest, source)| && Key(Merge(dest, source)[p]).Some?
    ensures Key(Merge(dest, source)[p]) != Key(Merge(dest, source)[q])
  {
    var n := |Leftovers(dest, source)|;
    if 1 <= p <= n && 1 <= q <= n {
      BlockKeysDiffer(dest, source, p, q);
    } else if 1 <= p <= n {
      BlockKeyNotInDest(dest, source, p, q);
    } else if 1 <= q <= n {
      BlockKeyNotInDest(dest, source, q, p);
    } else {
      var i := DestPositionKey(dest, source, p);
      var j := DestPositionKey(dest, source, q);
    }
  }

  /** Position 0 and the positions after the block carry the key of the
      destination line they came from, whose index is returned. */
  lemma {:induction false} DestPositionKey(dest: seq<string>, source: map<string, string>, p: int)
    returns (i: int)
    requires |dest| >= 1 && WellKeyed(source)
    requires p == 0 || |Leftovers(dest, source)| < p < |Merge(dest, source)|
    ensures i == (if p == 0 then 0 else p - |Leftovers(dest, source)|)
    ensures 0 <= i < |dest| && Key(Merge(dest, source)[p]) == Key(dest[i])
  {
    if p == 0 {
      i := 0;
      MergeHead(dest, source);
    } else {
      i := p - |Leftovers(dest, source)|;
      MergeAt(dest, source, i);
    }
    RewrittenKeepsKey(dest, source, i);
  }

  /** A block position carries a source key that no destination line has. */
  lemma {:induction false} BlockKeyOutsideDest(dest: seq<string>, source: map<string, string>, b: int)
    requires |dest| >= 1 && WellKeyed(source) && 1 <= b <= |Leftovers(dest, source)|
    ensures b < |Merge(dest, source)|
    ensures Key(Merge(dest, source)[b]).Some? && Key(Merge(dest, source)[b]).value !in KeySet(dest)
  {
    MergeBlockAt(dest, source, b);
    LeftoverAt(dest, source, b - 1);
  }

  /** Two block positions carry different keys. */
  lemma {:induction false} BlockKeysDiffer(dest: seq<string>, source: map<string, string>, p: int, q: int)
    requires |dest| >= 1 && WellKeyed(source)
    requires 1 <= p < q <= |Leftovers(dest, source)|
    ensures Key(Merge(dest, source)[p]) != Key(Merge(dest, source)[q])
  {
    var kp, kq := LeftoverKeysDiffer(dest, source, p - 1, q - 1);
    MergeBlockKey(dest, source, p, kp);
    MergeBlockKey(dest, source, q, kq);
  }

  /** Two different entries of the leftover block carry different keys. */
  lemma {:induction false} LeftoverKeysDiffer(dest: seq<string>, source: map<string, string>, i: int, j: int)
    returns (ki: string, kj: string)
    requires WellKeyed(source) && 0 <= i < j < |Leftovers(dest, source)|
    ensures Key(Leftovers(dest, source)[i]) == Some(ki) && Key(Leftovers(dest, source)[j]) == Some(kj)
    ensures ki != kj
  {
    var unused := source - KeySet(dest);
    assert WellKeyed(unused);
    ki, kj := ReversedDescending(unused, i, j);
    LessDiffer(kj, ki);
  }

  /** A block position carries the key of its block entry. */
  lemma {:induction false} MergeBlockKey(dest: seq<string>, source: map<string, string>, j: int, k: string)
    requires |dest| >= 1 && 1 <= j <= |Leftovers(dest, source)|
    requires Key(Leftovers(dest, source)[j - 1]) == Some(k)
    ensures j < |Merge(dest, source)| && Key(Merge(dest, source)[j]) == Some(k)
  {
    MergeBlockAt(dest, source, j);
  }

  /** Merged position `j` in `1..n` holds entry `j - 1` of the block. */
  lemma {:induction false} MergeBlockAt(dest: seq<string>, source: map<string, string>, j: int)
    requires |dest| >= 1 && 1 <= j <= |Leftovers(dest, source)|
    ensures j < |Merge(dest, source)| && Merge(dest, source)[j] == Leftovers(dest, source)[j - 1]
  {
    InsertedBlockAt(RewrittenLines(dest, source), Leftovers(dest, source), j);
  }

  /** After inserting a block after the first line, position `j` in `1..n`
      holds entry `j - 1` of the block. */
  lemma {:induction false} InsertedBlockAt<T>(lines: seq<T>, block: seq<T>, j: int)
    requires |lines| >= 1 && 1 <= j <= |block|
    ensures j < |[lines[0]] + block + lines[1..]| && ([lines[0]] + block + lines[1..])[j] == block[j - 1]
  {
  }

  /** A block position and a position that came from a destination line
      carry different keys. */
  lemma {:induction false} BlockKeyNotInDest(dest: seq<string>, source: map<string, string>, b: int, d: int)
    requires |dest| >= 1 && WellKeyed(source)
    requires 1 <= b <= |Leftovers(dest, source)|
    requires d == 0 || |Leftovers(dest, source)| < d < |Merge(dest, source)|
    ensures Key(Merge(dest, source)[b]) != Key(Merge(dest, source)[d])
  {
    BlockKeyOutsideDest(dest, source, b);
    var i := DestPositionKey(dest, source, d);
    KeyInKeySet(dest, i);
  }

  /** When the destination's keyed lines have distinct keys, so do the merged
      lines. */
  lemma {:induction false} MergedUniqueKeys(dest: seq<string>, source: map<string, string>)
    requires |dest| >= 1 && WellKeyed(source) && UniqueKeys(dest)
    ensures UniqueKeys(Merge(dest, source))
  {
    var merged := Merge(dest, source);
    forall p, q | 0 <= p < q < |merged| && Key(merged[p]).Some?
      ensures Key(merged[p]) != Key(merged[q])
    {
      MergedKeysDiffer(dest, source, p, q);
    }
  }

  /** Merged position `p` holds a source entry: the first line or a later
      destination line that took one, or a position of the leftover block.
      Every other position holds its destination line unchanged. */
  predicate Supplied(dest: seq<string>, source: map<string, string>, p: int)
    requires |dest| >= 1
  {
    var n := |Leftovers(dest, source)|;
    || (p == 0 && TakesEntry(dest, source, 0))
    || 1 <= p <= n
    || (n < p < n + |dest| && TakesEntry(dest, source, p - n))
  }

  /** Every source entry lands in the merged lines exactly once: one supplied
      position holds it, and no other supplied position carries its key. */
  lemma {:induction false} SuppliedExactlyOnce(dest: seq<string>, source: map<string, string>, k: string)
    returns (p: int)
    requires |dest| >= 1 && WellKeyed(source) && k in source
    ensures 0 <= p < |Merge(dest, source)| && Supplied(dest, source, p)
    ensures Merge(dest, source)[p] == source[k] && Key(Merge(dest, source)[p]) == Some(k)
    ensures forall q :: 0 <= q < |Merge(dest, source)| && q != p && Supplied(dest, source, q) ==>
      Key(Merge(dest, source)[q]) != Some(k)
  {
    p := SuppliedPosition(dest, source, k);
    var merged := Merge(dest, source);
    forall q | 0 <= q < |merged| && q != p && Supplied(dest, source, q)
      ensures Key(merged[q]) != Some(k)
    {
      if q < p {
        SuppliedKeysDiffer(dest, source, q, p);
      } else {
        SuppliedKeysDiffer(dest, source, p, q);
      }
    }
  }

  /** The supplied position that holds the entry of source key `k`. */
  lemma {:induction false} SuppliedPosition(dest: seq<string>, source: map<string, string>, k: string)
    returns (p: int)
    requires |dest| >= 1 && WellKeyed(source) && k in source
    ensures 0 <= p < |Merge(dest, source)| && Supplied(dest, source, p)
    ensures Merge(dest, source)[p] == source[k] && Key(Merge(dest, source)[p]) == Some(k)
  {
    TakenIffKeyed(dest, source, k);
    if k in KeySet(dest) {
      var i :| 0 <= i < |dest| && TakesEntry(dest, source, i) && Key(dest[i]) == Some(k);
      p := TakerPosition(dest, source, i);
    } else {
      var j := LeftoverPosition(dest, source, k);
      p := j + 1;
      MergeBlockAt(dest, source, p);
    }
  }

  /** Destination line `i` that takes a source entry puts it at merged
      position 0 or `n + i`. */
  lemma {:induction false} TakerPosition(dest: seq<string>, source: map<string, string>, i: int)
    returns (p: int)
    requires WellKeyed(source) && 0 <= i < |dest| && TakesEntry(dest, source, i)
    ensures 0 <= p < |Merge(dest, source)| && Supplied(dest, source, p)
    ensures Merge(dest, source)[p] == source[Key(dest[i]).value]
    ensures Key(Merge(dest, source)[p]) == Key(dest[i])
  {
    if i == 0 {
      p := 0;
      MergeHead(dest, source);
    } else {
      p := |Leftovers(dest, source)| + i;
      MergeAt(dest, source, i);
    }
    RewrittenKeepsKey(dest, source, i);
  }

  /** A source key that no destination line has sits in the leftover block. */
  lemma {:induction false} LeftoverPosition(dest: seq<string>, source: map<string, string>, k: string)
    returns (j: int)
    requires WellKeyed(source) && k in source && k !in KeySet(dest)
    ensures 0 <= j < |Leftovers(dest, source)| && Leftovers(dest, source)[j] == source[k]
  {
    var unused := source - KeySet(dest);
    assert WellKeyed(unused);
    ReversedHasKey(unused, k);
    j :| 0 <= j < |Leftovers(dest, source)| && Key(Leftovers(dest, source)[j]) == Some(k);
    LeftoverAt(dest, source, j);
  }

  /** Two supplied positions carry different keys. */
  lemma {:induction false} SuppliedKeysDiffer(dest: seq<string>, source: map<string, string>, p: int, q: int)
    requires |dest| >= 1 && WellKeyed(source) && 0 <= p < q < |Merge(dest, source)|
    requires Supplied(dest, source, p) && Supplied(dest, source, q)
    ensures Key(Merge(dest, source)[p]) != Key(Merge(dest, source)[q])
  {
    var n := |Leftovers(dest, source)|;
    MergeHead(dest, source);
    if 1 <= p <= n && 1 <= q <= n {
      BlockKeysDiffer(dest, source, p, q);
    } else if 1 <= p <= n {
      BlockKeyNotInDest(dest, source, p, q);
    } else if 1 <= q <= n {
      BlockKeyNotInDest(dest, source, q, p);
    } else {
      var i := DestPositionKey(dest, source, p);
      var j := DestPositionKey(dest, source, q);
      TakesEntryOnce(dest, source, i, j);
    }
  }

  /** Rewriting keeps every destination line's key. */
  lemma {:induction false} RewrittenLinesKeys(dest: seq<string>, source: map<string, string>)
    requires WellKeyed(source)
    ensures KeySet(RewrittenLines(dest, source)) == KeySet(dest)
  {
    var lines := RewrittenLines(dest, source);
    forall i | 0 <= i < |dest|
      ensures Key(lines[i]) == Key(dest[i])
    {
      RewrittenKeepsKey(dest, source, i);
    }
    KeySetPointwise(lines, dest);
  }

  /** The leftover block carries the source keys that the destination lacks. */
  lemma {:induction false} LeftoverKeySet(dest: seq<string>, source: map<string, string>)
    requires WellKeyed(source)
    ensures KeySet(Leftovers(dest, source)) == source.Keys - KeySet(dest)
  {
    var block := Leftovers(dest, source);
    KeySetMembers(block);
    forall k | k in KeySet(block)
      ensures k in source.Keys - KeySet(dest)
    {
      var j :| 0 <= j < |block| && Key(block[j]) == Some(k);
      LeftoverAt(dest, source, j);
    }
    forall k | k in source.Keys - KeySet(dest)
      ensures k in KeySet(block)
    {
      ReversedHasKey(source - KeySet(dest), k);
    }
  }

  /** The merged lines carry the destination's keys and the source's keys,
      and no other. */
  lemma {:induction false} MergedKeys(dest: seq<string>, source: map<string, string>)
    requires |dest| >= 1 && WellKeyed(source)
    ensures KeySet(Merge(dest, source)) == KeySet(dest) + source.Keys
  {
    var lines := RewrittenLines(dest, source);
    var block := Leftovers(dest, source);
    var first, rest := KeySet([lines[0]]), KeySet(lines[1..]);
    assert first + rest == KeySet(dest) by {
      assert lines == [lines[0]] + lines[1..];
      KeySetAppend([lines[0]], lines[1..]);
      RewrittenLinesKeys(dest, source);
    }
    assert KeySet(Merge(dest, source)) == first + KeySet(block) + rest by {
      KeySetAppend([lines[0]], block);
      KeySetAppend([lines[0]] + block, lines[1..]);
    }
    assert KeySet(block) == source.Keys - KeySet(dest) by {
      LeftoverKeySet(dest, source);
    }
    RegroupUnion(KeySet(Merge(dest, source)), first, KeySet(block), rest, KeySet(dest), source.Keys);
  }

  /** The set algebra behind `MergedKeys`, on plain sets. */
  lemma RegroupUnion<T>(all: set<T>, first: set<T>, block: set<T>, rest: set<T>, dest: set<T>, source: set<T>)
    requires all == first + block + rest && first + rest == dest && block == source - dest
    ensures all == dest + source
  {
  }

  /** An element absent from every line is absent from every line after the
      block is inserted. */
  lemma {:induction false} AbsentAfterInsert<T>(x: T, lines: seq<seq<T>>, block: seq<seq<T>>)
    requires |lines| >= 1
    requires forall i :: 0 <= i < |lines| ==> x !in lines[i]
    requires forall j :: 0 <= j < |block| ==> x !in block[j]
    ensures var merged := [lines[0]] + block + lines[1..];
      forall i :: 0 <= i < |merged| ==> x !in merged[i]
  {
    var merged := [lines[0]] + block + lines[1..];
    forall i | 0 <= i < |merged|
      ensures x !in merged[i]
    {
      if i == 0 {
      } else if i <= |block| {
        assert merged[i] == block[i - 1];
      } else {
        assert merged[i] == lines[1..][i - 1 - |block|];
      }
    }
  }

  /** Merging lines without line breaks gives lines without line breaks. */
  lemma {:induction false} MergedHasNoBreaks(dest: seq<string>, source: map<string, string>)
    requires |dest| >= 1
    requires forall i :: 0 <= i < |dest| ==> '\n' !in dest[i]
    requires forall k :: k in source ==> '\n' !in source[k]
    ensures forall i :: 0 <= i < |Merge(dest, source)| ==> '\n' !in Merge(dest, source)[i]
  {
    RewrittenHaveNoBreaks(dest, source);
    LeftoversHaveNoBreaks(dest, source);
    AbsentAfterInsert('\n', RewrittenLines(dest, source), Leftovers(dest, source));
  }

  /** Rewritten lines hold no line break when neither input does. */
  lemma {:induction false} RewrittenHaveNoBreaks(dest: seq<string>, source: map<string, string>)
    requires forall i :: 0 <= i < |dest| ==> '\n' !in dest[i]
    requires forall k :: k in source ==> '\n' !in source[k]
    ensures forall i :: 0 <= i < |RewrittenLines(dest, source)| ==> '\n' !in RewrittenLines(dest, source)[i]
  {
    forall i | 0 <= i < |RewrittenLines(dest, source)|
      ensures '\n' !in RewrittenLines(dest, source)[i]
    {
      assert RewrittenLines(dest, source)[i] == RewrittenLine(dest, source, i);
    }
  }

  /** Leftover entries hold no line break when no source entry does. */
  lemma {:induction false} LeftoversHaveNoBreaks(dest: seq<string>, source: map<string, string>)
    requires forall k :: k in source ==> '\n' !in source[k]
    ensures forall j :: 0 <= j < |Leftovers(dest, source)| ==> '\n' !in Leftovers(dest, source)[j]
  {
    forall j | 0 <= j < |Leftovers(dest, source)|
      ensures '\n' !in Leftovers(dest, source)[j]
    {
      ReversedValueAt(source - KeySet(dest), j);
    }
  }

  /** Source entries made from lines without a line break hold none. */
  lemma {:induction false} SourceMapHasNoBreaks(lines: seq<string>)
    requires forall i :: 0 <= i < |lines| ==> '\n' !in lines[i]
    ensures forall k :: k in SourceMap(lines) ==> '\n' !in SourceMap(lines)[k]
  {
    var m := SourceMap(lines);
    forall k | k in m
      ensures '\n' !in m[k]
    {
      var w :| LastKeyed(lines, w, k) && m[k] == RewriteSourceLine(lines[w]);
    }
  }

  /** The written text, split again, has one line per merged line and the
      keys of both inputs. */
  lemma {:induction false} WrittenLines(dest: seq<string>, source: map<string, string>)
    requires |dest| >= 1 && WellKeyed(source)
    requires forall i :: 0 <= i < |dest| ==> '\n' !in dest[i]
    requires forall k :: k in source ==> '\n' !in source[k]
    ensures var written := Split(Repair(Join(Merge(dest, source), "\n")), '\n');
      && |written| == |dest| + |source.Keys - KeySet(dest)|
      && KeySet(written) == KeySet(dest) + source.Keys
  {
    var merged := Merge(dest, source);
    var written := Split(Repair(Join(merged, "\n")), '\n');
    assert |written| == |merged| && KeySet(written) == KeySet(merged) by {
      MergedHasNoBreaks(dest, source);
      RepairKeepsKeys(merged);
      KeySetPointwise(written, merged);
    }
    assert |merged| == |dest| + |source.Keys - KeySet(dest)| by {
      MergeShape(dest, source);
      LeftoverBlock(dest, source);
    }
    MergedKeys(dest, source);
  }

  /** The written text keeps the destination's keys unique: when no two
      keyed destination lines share a key, no two written lines do. */
  lemma {:induction false} WrittenUniqueKeys(dest: seq<string>, source: map<string, string>)
    requires |dest| >= 1 && WellKeyed(source) && UniqueKeys(dest)
    requires forall i :: 0 <= i < |dest| ==> '\n' !in dest[i]
    requires forall k :: k in source ==> '\n' !in source[k]
    ensures UniqueKeys(Split(Repair(Join(Merge(dest, source), "\n")), '\n'))
  {
    var merged := Merge(dest, source);
    MergedUniqueKeys(dest, source);
    MergedHasNoBreaks(dest, source);
    RepairKeepsKeys(merged);
    UniqueKeysPointwise(merged, Split(Repair(Join(merged, "\n")), '\n'));
  }

  /** The text that the merge writes back. */
  function MergedText(srcText: string, destText: string): string
  {
    Repair(Join(Merge(Split(destText, '\n'), SourceMap(Split(srcText, '\n'))), "\n"))
  }

  /** The written text has one line per destination line plus one per source
      key the destination lacks, and carries the keys of both texts. */
  lemma {:induction false} MergedTextLines(srcText: string, destText: string)
    ensures var dest := Split(destText, '\n');
      var srcKeys := KeySet(Split(srcText, '\n'));
      var written := Split(MergedText(srcText, destText), '\n');
      && |written| == |dest| + |srcKeys - KeySet(dest)|
      && KeySet(written) == KeySet(dest) + srcKeys
  {
    var srcLines := Split(srcText, '\n');
    SourceMapHasNoBreaks(srcLines);
    WrittenLines(Split(destText, '\n'), SourceMap(srcLines));
  }

  /** Merging never gives two written lines the same key when the
      destination had no such pair. */
  lemma {:induction false} MergedTextUniqueKeys(srcText: string, destText: string)
    requires UniqueKeys(Split(destText, '\n'))
    ensures UniqueKeys(Split(MergedText(srcText, destText), '\n'))
  {
    var srcLines := Split(srcText, '\n');
    SourceMapHasNoBreaks(srcLines);
    WrittenUniqueKeys(Split(destText, '\n'), SourceMap(srcLines));
  }

  /** The merge of a crate's `search-index.js` into the destination's: the
      text that is written back. */
  method MergeSearchIndex(srcText: string, destText: string) returns (written: string)
    ensures written == MergedText(srcText, destText)
  {
    var srcLines := Split(srcText, '\n');
    var dest := Split(destText, '\n');
    var source := SourceMap(srcLines);
    var merged := MergeLines(dest, source);
    written := Repair(Join(merged, "\n"));
  }
}
