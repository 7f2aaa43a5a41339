/** The `crates.js` file: the list of every crate in the merged search index,
    written as `window.ALL_CRATES = ["a","b"];`. */
module CratesJs {
  import opened Text
  import opened KeyOrder
  import opened CrateKey

  const Prefix: string := "window.ALL_CRATES = ["
  const Suffix: string := "];"

  /** The crate names of a search index: the keys of its keyed lines, each
      once, in the ascending order of the `BTreeMap` they are collected in. */
  function CrateNames(index: string): seq<string>
  {
    SortedKeys(KeySet(Split(index, '\n')))
  }

  /** A name between double quotes. */
  function Quote(name: string): string
  {
    "\"" + name + "\""
  }

  function QuoteAll(names: seq<string>): (quoted: seq<string>)
    ensures |quoted| == |names|
    ensures forall i :: 0 <= i < |names| ==> quoted[i] == Quote(names[i])
  {
    if |names| == 0 then [] else [Quote(names[0])] + QuoteAll(names[1..])
  }

  /** The text of `crates.js`. */
  function Render(names: seq<string>): string
  {
    Prefix + Join(QuoteAll(names), ",") + Suffix
  }

  /** The name inside a quoted piece, if the piece is one. */
  function Unquote(piece: string): Option<string>
  {
    if |piece| >= 2 && piece[0] == '"' && piece[|piece| - 1] == '"' && '"' !in piece[1..|piece| - 1]
    then Some(piece[1..|piece| - 1])
    else None
  }

  function UnquoteAll(pieces: seq<string>): Option<seq<string>>
  {
    if |pieces| == 0 then Some([])
    else match (Unquote(pieces[0]), UnquoteAll(pieces[1..]))
      case (Some(name), Some(rest)) => Some([name] + rest)
      case _ => None
  }

  /** Reads a `crates.js` text back: the names of the list, or nothing when
      the text is not of that form. */
  function Parse(js: string): Option<seq<string>>
  {
    if |js| >= |Prefix| + |Suffix| && js[..|Prefix|] == Prefix && js[|js| - |Suffix|..] == Suffix then
      var inside := js[|Prefix|..|js| - |Suffix|];
      if inside == "" then Some([]) else UnquoteAll(Split(inside, ','))
    else None
  }

  /** A name without quotes or commas, such as a crate key. */
  predicate Plain(name: string)
  {
    '"' !in name && ',' !in name
  }

  lemma {:induction false} UnquoteQuoteAll(names: seq<string>)
    requires forall i :: 0 <= i < |names| ==> Plain(names[i])
    ensures UnquoteAll(QuoteAll(names)) == Some(names)
    decreases |names|
  {
    if |names| > 0 {
      var q := Quote(names[0]);
      assert q[1..|q| - 1] == names[0];
      UnquoteQuoteAll(names[1..]);
      assert QuoteAll(names)[1..] == QuoteAll(names[1..]);
      assert [names[0]] + names[1..] == names;
    }
  }

  /** Reading back a rendered list gives the list, for names without quotes
      or commas. */
  lemma {:induction false} ParseRender(names: seq<string>)
    requires forall i :: 0 <= i < |names| ==> Plain(names[i])
    ensures Parse(Render(names)) == Some(names)
  {
    var quoted := QuoteAll(names);
    var body := Join(quoted, ",");
    var js := Render(names);
    assert js[..|Prefix|] == Prefix;
    assert js[|js| - |Suffix|..] == Suffix;
    assert js[|Prefix|..|js| - |Suffix|] == body;
    if |names| == 0 {
    } else {
      assert |quoted[0]| >= 2;
      assert body != "" by {
        if |quoted| > 1 {
          assert |body| >= |quoted[0]|;
        }
      }
      forall i | 0 <= i < |quoted|
        ensures ',' !in quoted[i]
      {
        assert quoted[i] == "\"" + names[i] + "\"";
      }
      SplitJoin(quoted, ',');
      UnquoteQuoteAll(names);
    }
  }

  /** Crate keys are plain names. */
  lemma {:induction false} KeyNameIsPlain(k: string)
    requires IsKeyName(k)
    ensures Plain(k)
  {
    assert forall i :: 0 <= i < |k| ==> k[i] != '"' && k[i] != ',';
  }

  /** The crate names of an index are exactly the keys of its lines. */
  lemma {:induction false} CrateNamesMembers(index: string)
    ensures forall k :: k in CrateNames(index) <==> HasKeyed(Split(index, '\n'), k)
  {
    var lines := Split(index, '\n');
    KeySetMembers(lines);
    forall k
      ensures k in CrateNames(index) <==> k in KeySet(lines)
    {
    }
  }

  /** The crate names of an index are exactly the keys of its lines, each a
      key name, strictly ascending and so without repeats. */
  lemma {:induction false} CrateNamesOfIndex(index: string)
    ensures forall k :: k in CrateNames(index) <==> HasKeyed(Split(index, '\n'), k)
    ensures forall i :: 0 <= i < |CrateNames(index)| ==> IsKeyName(CrateNames(index)[i])
    ensures Ascending(CrateNames(index))
  {
    var lines := Split(index, '\n');
    CrateNamesMembers(index);
    SortedKeysAscending(KeySet(lines));
    forall i | 0 <= i < |CrateNames(index)|
      ensures IsKeyName(CrateNames(index)[i])
    {
      assert CrateNames(index)[i] in CrateNames(index);
      var j :| 0 <= j < |lines| && Key(lines[j]) == Some(CrateNames(index)[i]);
      KeyIsName(lines[j]);
    }
  }

  /** The `crates.js` of an index reads back as its crate names. */
  lemma {:induction false} ParseCratesJs(index: string)
    ensures Parse(Render(CrateNames(index))) == Some(CrateNames(index))
  {
    var names := CrateNames(index);
    CrateNamesOfIndex(index);
    forall i | 0 <= i < |names|
      ensures Plain(names[i])
    {
      KeyNameIsPlain(names[i]);
    }
    ParseRender(names);
  }
}
