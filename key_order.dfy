/** The order in which a `BTreeMap<String, _>` keeps its keys: Rust's `Ord`
    on `String`, lexicographic over the UTF-8 bytes, which orders characters by
    code point, with a proper prefix before every extension of it. */
module KeyOrder {

  /** `a` sorts strictly before `b`. */
  predicate Less(a: string, b: string)
    decreases |a|
  {
    if |a| == 0 then |b| > 0
    else |b| > 0 && (a[0] < b[0] || (a[0] == b[0] && Less(a[1..], b[1..])))
  }

  lemma {:induction false} LessIrreflexive(a: string)
    ensures !Less(a, a)
    decreases |a|
  {
    if |a| > 0 {
      LessIrreflexive(a[1..]);
    }
  }

  /** Keys in order are different keys. */
  lemma {:induction false} LessDiffer(a: string, b: string)
    requires Less(a, b)
    ensures a != b
  {
    if a == b {
      LessIrreflexive(a);
    }
  }

  lemma {:induction false} LessTransitive(a: string, b: string, c: string)
    requires Less(a, b) && Less(b, c)
    ensures Less(a, c)
    decreases |a|
  {
    if |a| > 0 && a[0] == b[0] && b[0] == c[0] {
      LessTransitive(a[1..], b[1..], c[1..]);
    }
  }

  /** Any two different strings are ordered one way, and never both ways. */
  lemma {:induction false} LessTotal(a: string, b: string)
    ensures a != b <==> (Less(a, b) || Less(b, a))
    ensures !(Less(a, b) && Less(b, a))
    decreases |a|
  {
    if |a| == 0 || |b| == 0 {
    } else if a[0] == b[0] {
      LessTotal(a[1..], b[1..]);
      assert a == [a[0]] + a[1..] && b == [b[0]] + b[1..];
    }
  }

  /** `k` is the smallest key of `keys`. */
  predicate IsLeast(k: string, keys: set<string>)
  {
    k in keys && forall j :: j in keys ==> j == k || Less(k, j)
  }

  lemma {:induction false} LeastExists(keys: set<string>)
    requires keys != {}
    ensures exists k :: IsLeast(k, keys)
    decreases |keys|
  {
    var x :| x in keys;
    if keys != {x} {
      var rest := keys - {x};
      LeastExists(rest);
      var m :| IsLeast(m, rest);
      LessTotal(x, m);
      if Less(x, m) {
        forall j | j in keys
          ensures j == x || Less(x, j)
        {
          if j != x && j != m {
            LessTransitive(x, m, j);
          }
        }
        assert IsLeast(x, keys);
      } else {
        assert IsLeast(m, keys);
      }
    } else {
      assert IsLeast(x, keys);
    }
  }

  lemma {:induction false} LeastUnique(keys: set<string>)
    ensures forall a, b :: IsLeast(a, keys) && IsLeast(b, keys) ==> a == b
  {
    forall a, b | IsLeast(a, keys) && IsLeast(b, keys)
      ensures a == b
    {
      LessTotal(a, b);
    }
  }

  /** Strictly ascending: sorted and without repeats. */
  predicate Ascending(s: seq<string>)
  {
    forall i, j :: 0 <= i < j < |s| ==> Less(s[i], s[j])
  }

  /** Where a key sits in the sorted sequence. */
  lemma {:induction false} SortedKeysPosition(keys: set<string>, k: string) returns (p: nat)
    requires k in keys
    ensures p < |SortedKeys(keys)| && SortedKeys(keys)[p] == k
  {
    assert k in SortedKeys(keys);
    p :| p < |SortedKeys(keys)| && SortedKeys(keys)[p] == k;
  }

  /** The keys of a BTreeMap as it iterates them: the least key first, then
      the others the same way. */
  function SortedKeys(keys: set<string>): (r: seq<string>)
    ensures |r| == |keys|
    ensures forall k :: k in r <==> k in keys
    decreases |keys|
  {
    if keys == {} then []
    else
      LeastExists(keys);
      LeastUnique(keys);
      var k :| IsLeast(k, keys);
      [k] + SortedKeys(keys - {k})
  }

  /** The iteration order is strictly ascending, so no key comes twice. */
  lemma {:induction false} SortedKeysAscending(keys: set<string>)
    ensures Ascending(SortedKeys(keys))
    decreases |keys|
  {
    if keys != {} {
      LeastExists(keys);
      LeastUnique(keys);
      var k :| IsLeast(k, keys);
      var rest := SortedKeys(keys - {k});
      SortedKeysAscending(keys - {k});
      assert SortedKeys(keys) == [k] + rest;
      forall i, j | 0 <= i < j < |rest| + 1
        ensures Less(([k] + rest)[i], ([k] + rest)[j])
      {
        if i == 0 {
          assert rest[j - 1] in keys - {k};
        } else {
          assert ([k] + rest)[i] == rest[i - 1];
        }
      }
    }
  }

  /** Two positions of the iteration order, compared. */
  lemma {:induction false} SortedKeysLess(keys: set<string>, i: int, j: int)
    requires 0 <= i < j < |keys|
    ensures Less(SortedKeys(keys)[i], SortedKeys(keys)[j])
  {
    SortedKeysAscending(keys);
  }

  /** Counted from the end of the iteration order, an earlier position holds
      the greater key. */
  lemma {:induction false} SortedKeysFromEnd(keys: set<string>, i: int, j: int) returns (ki: string, kj: string)
    requires 0 <= i < j < |keys|
    ensures ki == SortedKeys(keys)[|keys| - 1 - i] && kj == SortedKeys(keys)[|keys| - 1 - j]
    ensures Less(kj, ki)
  {
    SortedKeysLess(keys, |keys| - 1 - j, |keys| - 1 - i);
    ki := SortedKeys(keys)[|keys| - 1 - i];
    kj := SortedKeys(keys)[|keys| - 1 - j];
  }
}
