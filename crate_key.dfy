/** The crate key of a search-index line: the capture of the pattern
    `^"([a-z0-9_]+)":`, written out as a function instead of a regex engine. */
module CrateKey {

  datatype Option<T> = None | Some(value: T)

  /** A character of the class `[a-z0-9_]`. */
  predicate IsKeyChar(c: char)
  {
    ('a' <= c <= 'z') || ('0' <= c <= '9') || c == '_'
  }

  /** Length of the longest prefix of `s` made of key characters. */
  function KeyRun(s: string): (n: nat)
    ensures n <= |s|
    decreases |s|
  {
    if |s| > 0 && IsKeyChar(s[0]) then 1 + KeyRun(s[1..]) else 0
  }

  /** The run is made of key characters and stops at the first other one. */
  lemma {:induction false} KeyRunIsMaximal(s: string)
    ensures forall i :: 0 <= i < KeyRun(s) ==> IsKeyChar(s[i])
    ensures KeyRun(s) < |s| ==> !IsKeyChar(s[KeyRun(s)])
    decreases |s|
  {
    if |s| > 0 && IsKeyChar(s[0]) {
      KeyRunIsMaximal(s[1..]);
    }
  }

  /** The key a line starts with, if it has one. The run of key characters is
      greedy and cannot give back characters, because a key character is never
      the `"` that has to follow it. */
  function Key(line: string): Option<string>
  {
    if |line| > 0 && line[0] == '"' then
      var n := KeyRun(line[1..]);
      if n > 0 && n + 3 <= |line| && line[n + 1] == '"' && line[n + 2] == ':'
      then Some(line[1..n + 1])
      else None
    else None
  }

  /** The text `"k":` that a line keyed `k` starts with. */
  function KeyPrefix(k: string): string
  {
    "\"" + k + "\":"
  }

  predicate IsKeyName(k: string)
  {
    |k| > 0 && forall i :: 0 <= i < |k| ==> IsKeyChar(k[i])
  }

  /** The pattern, read declaratively: `line` starts with `"`, a non-empty
      run of `[a-z0-9_]` that is `k`, and `":`. */
  predicate IsKeyOf(line: string, k: string)
  {
    IsKeyName(k) && KeyPrefix(k) <= line
  }

  lemma {:induction false} KeyRunOver(k: string, t: string)
    requires forall i :: 0 <= i < |k| ==> IsKeyChar(k[i])
    requires |t| > 0 && !IsKeyChar(t[0])
    ensures KeyRun(k + t) == |k|
    decreases |k|
  {
    if |k| > 0 {
      assert (k + t)[1..] == k[1..] + t;
      KeyRunOver(k[1..], t);
    } else {
      assert k + t == t;
    }
  }

  /** `Key` returns exactly the key the pattern describes, and nothing for a
      line the pattern does not match. */
  lemma {:induction false} KeyIff(line: string, k: string)
    ensures Key(line) == Some(k) <==> IsKeyOf(line, k)
  {
    if IsKeyOf(line, k) {
      var t := line[|k| + 1..];
      assert line == "\"" + k + t by {
        assert line[..|k| + 3] == KeyPrefix(k);
      }
      assert line[1..] == k + t;
      assert t[0] == '"';
      KeyRunOver(k, t);
      assert line[1..|k| + 1] == k;
    }
    if Key(line) == Some(k) {
      var n := KeyRun(line[1..]);
      KeyRunIsMaximal(line[1..]);
      assert line[..n + 3] == KeyPrefix(k);
    }
  }

  /** Some line is keyed `k`. */
  predicate HasKeyed(lines: seq<string>, k: string)
  {
    exists i :: 0 <= i < |lines| && Key(lines[i]) == Some(k)
  }

  /** The keys of all keyed lines. */
  function KeySet(lines: seq<string>): set<string>
    decreases |lines|
  {
    if |lines| == 0 then {}
    else
      var init := KeySet(lines[..|lines| - 1]);
      match Key(lines[|lines| - 1])
      case Some(k) => init + {k}
      case None => init
  }

  /** A key is in the set exactly when some line has it. */
  lemma {:induction false} KeySetMembers(lines: seq<string>)
    ensures forall k :: k in KeySet(lines) <==> HasKeyed(lines, k)
    decreases |lines|
  {
    if |lines| > 0 {
      var init := lines[..|lines| - 1];
      KeySetMembers(init);
      assert forall i :: 0 <= i < |init| ==> init[i] == lines[i];
    }
  }

  /** The key of any line is in the key set. */
  lemma {:induction false} KeyInKeySet(lines: seq<string>, i: int)
    requires 0 <= i < |lines|
    ensures Key(lines[i]).Some? ==> Key(lines[i]).value in KeySet(lines)
  {
    KeySetMembers(lines);
  }

  /** Two line sequences whose lines have the same keys, position by position,
      have the same key set. */
  lemma {:induction false} KeySetPointwise(a: seq<string>, b: seq<string>)
    requires |a| == |b|
    requires forall i :: 0 <= i < |a| ==> Key(a[i]) == Key(b[i])
    ensures KeySet(a) == KeySet(b)
  {
    KeySetMembers(a);
    KeySetMembers(b);
    forall k | k in KeySet(a) ensures k in KeySet(b) {
      var i :| 0 <= i < |a| && Key(a[i]) == Some(k);
      assert Key(b[i]) == Some(k);
    }
    forall k | k in KeySet(b) ensures k in KeySet(a) {
      var i :| 0 <= i < |b| && Key(b[i]) == Some(k);
      assert Key(a[i]) == Some(k);
    }
  }

  /** No two keyed lines share a key. */
  predicate UniqueKeys(lines: seq<string>)
  {
    forall i, j :: 0 <= i < j < |lines| && Key(lines[i]).Some? ==> Key(lines[i]) != Key(lines[j])
  }

  /** Lines whose keys agree position by position with lines of unique keys
      have unique keys too. */
  lemma {:induction false} UniqueKeysPointwise(a: seq<string>, b: seq<string>)
    requires |a| == |b| && UniqueKeys(a)
    requires forall i :: 0 <= i < |a| ==> Key(a[i]) == Key(b[i])
    ensures UniqueKeys(b)
  {
    forall i, j | 0 <= i < j < |b| && Key(b[i]).Some?
      ensures Key(b[i]) != Key(b[j])
    {
      assert Key(a[i]) != Key(a[j]);
    }
  }

  /** The keys of two runs of lines, one after the other. */
  lemma {:induction false} KeySetAppend(a: seq<string>, b: seq<string>)
    ensures KeySet(a + b) == KeySet(a) + KeySet(b)
  {
    KeySetMembers(a);
    KeySetMembers(b);
    KeySetMembers(a + b);
    forall k | k in KeySet(a + b)
      ensures k in KeySet(a) + KeySet(b)
    {
      var i :| 0 <= i < |a + b| && Key((a + b)[i]) == Some(k);
      if i < |a| {
        assert (a + b)[i] == a[i];
      } else {
        assert (a + b)[i] == b[i - |a|];
      }
    }
    forall k | k in KeySet(a)
      ensures k in KeySet(a + b)
    {
      var i :| 0 <= i < |a| && Key(a[i]) == Some(k);
      assert (a + b)[i] == a[i];
    }
    forall k | k in KeySet(b)
      ensures k in KeySet(a + b)
    {
      var i :| 0 <= i < |b| && Key(b[i]) == Some(k);
      assert (a + b)[|a| + i] == b[i];
    }
  }

  /** Every key is a non-empty run of key characters. */
  lemma {:induction false} KeyIsName(line: string)
    requires Key(line).Some?
    ensures IsKeyName(Key(line).value)
  {
    KeyIff(line, Key(line).value);
  }

  /** The part of a line before its first `}` or line break. */
  function Stem(line: string): (r: string)
    ensures r <= line
    ensures '}' !in r && '\n' !in r
    decreases |line|
  {
    if |line| == 0 || line[0] == '}' || line[0] == '\n' then ""
    else [line[0]] + Stem(line[1..])
  }

  lemma {:induction false} PrefixOfStem(q: string, line: string)
    requires '}' !in q && '\n' !in q
    ensures q <= line <==> q <= Stem(line)
    decreases |line|
  {
    if |q| > 0 && |line| > 0 && line[0] != '}' && line[0] != '\n' {
      PrefixOfStem(q[1..], line[1..]);
      assert q == [q[0]] + q[1..];
    }
  }

  /** A line's key is decided by its stem alone: whatever follows the first
      `}` cannot change it. */
  lemma {:induction false} KeyOfStem(line: string)
    ensures Key(line) == Key(Stem(line))
  {
    var s := Stem(line);
    if Key(line).Some? {
      var k := Key(line).value;
      KeyIff(line, k);
      PrefixOfStem(KeyPrefix(k), line);
      KeyIff(s, k);
    }
    if Key(s).Some? {
      var k := Key(s).value;
      KeyIff(s, k);
      PrefixOfStem(KeyPrefix(k), line);
      KeyIff(line, k);
    }
  }
}
