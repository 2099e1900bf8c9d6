/**
 * The key order of `std::map<std::string, _>`.
 *
 * `std::string` compares lexicographically, character by character, and a
 * proper prefix sorts first.  Both cores iterate their maps in this order,
 * and that order decides which writer wins, the order of end nodes and which
 * first-fit candidate is taken, so the model makes it explicit: a map is a
 * Dafny `map` and its iteration order is `SortedKeys(m.Keys)`.
 */
module KeyOrder {

  /** `a` sorts strictly before `b`, as `std::string::operator<`. */
  predicate Less(a: string, b: string)
    decreases |a|
  {
    if |a| == 0 then |b| > 0
    else |b| > 0 && (a[0] < b[0] || (a[0] == b[0] && Less(a[1..], b[1..])))
  }

  lemma {:induction false} LessIrreflexive(a: string)
    ensures !Less(a, a)
    decreases |a|
  {
    if |a| > 0 {
      LessIrreflexive(a[1..]);
    }
  }

  lemma {:induction false} LessAsymmetric(a: string, b: string)
    requires Less(a, b)
    ensures !Less(b, a)
    decreases |a|
  {
    if |a| > 0 && a[0] == b[0] {
      LessAsymmetric(a[1..], b[1..]);
    }
  }

  lemma {:induction false} LessTransitive(a: string, b: string, c: string)
    requires Less(a, b) && Less(b, c)
    ensures Less(a, c)
    decreases |a|
  {
    if |a| > 0 && a[0] == b[0] && b[0] == c[0] {
      LessTransitive(a[1..], b[1..], c[1..]);
    }
  }

  lemma {:induction false} LessTotal(a: string, b: string)
    ensures a == b || Less(a, b) || Less(b, a)
    decreases |a|
  {
    if |a| > 0 && |b| > 0 && a[0] == b[0] {
      LessTotal(a[1..], b[1..]);
      if a[1..] == b[1..] {
        assert a == [a[0]] + a[1..] && b == [b[0]] + b[1..];
      }
    }
  }

  /** Every pair of distinct strings is ordered one way and not the other. */
  lemma LessStrictTotal()
    ensures forall a, b :: Less(a, b) ==> !Less(b, a)
    ensures forall a, b :: a != b ==> Less(a, b) || Less(b, a)
  {
    forall a, b | Less(a, b) ensures !Less(b, a) { LessAsymmetric(a, b); }
    forall a, b | a != b ensures Less(a, b) || Less(b, a) { LessTotal(a, b); }
  }

  predicate IsLeast(k: string, keys: set<string>)
  {
    k in keys && forall j :: j in keys && j != k ==> Less(k, j)
  }

  lemma {:induction false} LeastExists(keys: set<string>)
    requires keys != {}
    ensures exists k :: IsLeast(k, keys)
    decreases |keys|
  {
    var x :| x in keys;
    if keys != {x} {
      var rest := keys - {x};
      LeastExists(rest);
      var m :| IsLeast(m, rest);
      LessTotal(x, m);
      if Less(x, m) {
        forall j | j in keys && j != x ensures Less(x, j) {
          if j != m { LessTransitive(x, m, j); }
        }
        assert IsLeast(x, keys);
      } else {
        assert IsLeast(m, keys);
      }
    } else {
      assert IsLeast(x, keys);
    }
  }

  /** The keys strictly increase along `s`. */
  predicate StrictlySorted(s: seq<string>)
  {
    forall i, j :: 0 <= i < j < |s| ==> Less(s[i], s[j])
  }

  /** Smallest key of a non-empty key set: where `std::map::begin()` points. */
  function Least(keys: set<string>): string
    requires keys != {}
  {
    LeastExists(keys);
    LessStrictTotal();
    var k :| IsLeast(k, keys);
    k
  }

  lemma LeastSpec(keys: set<string>)
    requires keys != {}
    ensures IsLeast(Least(keys), keys)
  {
  }

  /**
   * The keys of a map in the order its iterators visit them.  Its
   * properties are stated by `SortedKeysSpec`, so that a proof about a map
   * loop only pays for them where it needs them.
   */
  function SortedKeys(keys: set<string>): seq<string>
    decreases |keys|
  {
    if keys == {} then []
    else [Least(keys)] + SortedKeys(keys - {Least(keys)})
  }

  /** `SortedKeys` lists each key once, in strictly increasing order. */
  lemma {:induction false} SortedKeysSpec(keys: set<string>)
    ensures StrictlySorted(SortedKeys(keys))
    ensures |SortedKeys(keys)| == |keys|
    ensures forall k :: k in SortedKeys(keys) <==> k in keys
    decreases |keys|
  {
    if keys != {} {
      var k := Least(keys);
      LeastSpec(keys);
      var rest := SortedKeys(keys - {k});
      SortedKeysSpec(keys - {k});
      assert SortedKeys(keys) == [k] + rest;
      forall i, j | 0 <= i < j < |[k] + rest| ensures Less(([k] + rest)[i], ([k] + rest)[j]) {
        if i == 0 {
          assert rest[j - 1] in keys - {k};
        }
      }
    }
  }

  /** The keys `SortedKeys` lists, for loops whose result does not depend on their order. */
  lemma SortedKeysMembers(keys: set<string>)
    ensures forall k :: k in SortedKeys(keys) <==> k in keys
  {
    SortedKeysSpec(keys);
  }

  /** A strictly increasing sequence has no repeated key. */
  lemma {:induction false} SortedDistinct(s: seq<string>, i: int, j: int)
    requires StrictlySorted(s) && 0 <= i < |s| && 0 <= j < |s| && i != j
    ensures s[i] != s[j]
  {
    if i < j {
      LessIrreflexive(s[i]);
      assert Less(s[i], s[j]);
    } else {
      LessIrreflexive(s[j]);
      assert Less(s[j], s[i]);
    }
  }

  /**
   * The iteration order is determined by the key set: any strictly sorted
   * listing of exactly those keys is `SortedKeys`.
   */
  lemma {:induction false} SortedKeysUnique(s: seq<string>, keys: set<string>)
    requires StrictlySorted(s)
    requires forall k :: k in s <==> k in keys
    ensures SortedKeys(keys) == s
    decreases |s|
  {
    if s == [] {
      assert keys == {};
    } else {
      assert s[0] in keys;
      var k := Least(keys);
      LeastSpec(keys);
      assert s[0] == k by {
        if s[0] != k {
          var i :| 0 <= i < |s| && s[i] == k;
          assert Less(k, s[0]);
          assert i != 0;
          assert Less(s[0], s[i]);
          LessAsymmetric(k, s[0]);
        }
      }
      forall x ensures x in s[1..] <==> x in keys - {k} {
        if x in s[1..] {
          var i :| 1 <= i < |s| && s[i] == x;
          SortedDistinct(s, 0, i);
        }
        if x in keys - {k} {
          assert x in s;
          var i :| 0 <= i < |s| && s[i] == x;
          assert i != 0;
          assert s[1..][i - 1] == x;
        }
      }
      SortedKeysUnique(s[1..], keys - {k});
      assert s == [s[0]] + s[1..];
    }
  }

  /** Appending the next key of a sorted key listing to a sorted selection of the earlier keys. */
  lemma SortedAppend(s: seq<string>, ks: seq<string>, i: int)
    requires StrictlySorted(s) && StrictlySorted(ks) && 0 <= i < |ks|
    requires forall x | x in s :: x in ks[..i]
    ensures StrictlySorted(s + [ks[i]])
  {
    forall e | e in s ensures Less(e, ks[i]) {
      var j :| 0 <= j < i && ks[j] == e;
    }
  }
}
