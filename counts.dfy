/**
 * Reference counts kept in a `std::map<std::string, int32_t>`, as both
 * allocators do: `counts[n]++` creates a missing count at zero, and
 * `counts.at(n)--` throws on a missing key.
 */
module UseCounts {
  import opened Errors

  type Counts = map<string, int>

  /** The number of occurrences of `x` in `s`. */
  function Count(s: seq<string>, x: string): nat
  {
    if s == [] then 0
    else Count(s[..|s| - 1], x) + (if s[|s| - 1] == x then 1 else 0)
  }

  lemma {:induction false} CountConcat(a: seq<string>, b: seq<string>, x: string)
    ensures Count(a + b, x) == Count(a, x) + Count(b, x)
    decreases |b|
  {
    if b != [] {
      assert (a + b)[..|a + b| - 1] == a + b[..|b| - 1];
      CountConcat(a, b[..|b| - 1], x);
    } else {
      assert a + b == a;
    }
  }

  lemma {:induction false} CountPositive(s: seq<string>, x: string)
    ensures Count(s, x) > 0 <==> x in s
  {
    if s != [] {
      CountPositive(s[..|s| - 1], x);
      assert s == s[..|s| - 1] + [s[|s| - 1]];
    }
  }

  /** A count, or 0 for a key `operator[]` would create. */
  function Get(c: Counts, k: string): int
  {
    if k in c then c[k] else 0
  }

  /** `c[n]++` for each `n` of `names` in turn. */
  function Bump(c: Counts, names: seq<string>): Counts
  {
    if names == [] then c
    else
      var b := Bump(c, names[..|names| - 1]);
      var n := names[|names| - 1];
      b[n := Get(b, n) + 1]
  }

  /** Incrementing creates exactly the missing keys and adds each name's occurrences. */
  lemma {:induction false} BumpSpec(c: Counts, names: seq<string>)
    ensures forall n :: n in Bump(c, names) <==> n in c || n in names
    ensures forall x :: Get(Bump(c, names), x) == Get(c, x) + Count(names, x)
  {
    if names != [] {
      var n := names[|names| - 1];
      assert names == names[..|names| - 1] + [n];
      BumpSpec(c, names[..|names| - 1]);
    }
  }

  /** `c.at(n)--` for each `n` of `names` in turn; the first missing key throws. */
  function Drop(c: Counts, names: seq<string>): Result<Counts>
  {
    if names == [] then Ok(c)
    else
      var n := names[|names| - 1];
      match Drop(c, names[..|names| - 1])
      case Err(e) => Err(e)
      case Ok(d) => if n in d then Ok(d[n := d[n] - 1]) else Err(OutOfRange(n))
  }

  /**
   * Decrementing succeeds exactly when every name is a key, keeps the keys and
   * subtracts each name's occurrences; otherwise it throws on a name that is
   * not a key.
   */
  lemma {:induction false} DropSpec(c: Counts, names: seq<string>)
    ensures Drop(c, names).Ok? <==> forall n | n in names :: n in c
    ensures Drop(c, names).Ok? ==> Drop(c, names).value.Keys == c.Keys
    ensures Drop(c, names).Ok? ==> forall x | x in c :: Drop(c, names).value[x] == c[x] - Count(names, x)
    ensures Drop(c, names).Err? ==>
      Drop(c, names).error.OutOfRange? && Drop(c, names).error.key in names && Drop(c, names).error.key !in c
  {
    if names != [] {
      var n := names[|names| - 1];
      assert names == names[..|names| - 1] + [n];
      DropSpec(c, names[..|names| - 1]);
    }
  }

  /** Once a decrement has thrown, the rest of the loop does not run. */
  lemma {:induction false} DropStops(c: Counts, names: seq<string>, i: int)
    requires 0 <= i <= |names| && Drop(c, names[..i]).Err?
    ensures Drop(c, names) == Drop(c, names[..i])
  {
    if i < |names| {
      assert names[..|names| - 1][..i] == names[..i];
      DropStops(c, names[..|names| - 1], i);
    } else {
      assert names[..i] == names;
    }
  }

  /** One more increment of the loop `Bump` models. */
  lemma BumpStep(c: Counts, names: seq<string>, j: int)
    requires 0 <= j < |names|
    ensures Bump(c, names[..j + 1]) == Bump(c, names[..j])[names[j] := Get(Bump(c, names[..j]), names[j]) + 1]
  {
    assert names[..j + 1][..j] == names[..j];
  }

  /** One more decrement of the loop `Drop` models. */
  lemma DropStep(c: Counts, names: seq<string>, j: int)
    requires 0 <= j < |names| && Drop(c, names[..j]).Ok?
    ensures var d := Drop(c, names[..j]).value;
      Drop(c, names[..j + 1]) == if names[j] in d then Ok(d[names[j] := d[names[j]] - 1]) else Err(OutOfRange(names[j]))
  {
    assert names[..j + 1][..j] == names[..j];
  }

  /**
   * The counts during the allocation loop, with `rest` the uses of the
   * passes not yet retired: every such use has a count, and each count is
   * its remaining uses, or 1 for a target whose image was handed on
   * (it has no remaining use, and its count is never decremented again).
   */
  ghost predicate CountsMatch(counts: Counts, rest: seq<string>)
  {
    (forall n | n in rest :: n in counts)
    && forall t | t in counts ::
         counts[t] == Count(rest, t) || (counts[t] == 1 && Count(rest, t) == 0)
  }

  /** Retiring uses that match the counts cannot throw, and what remains still matches. */
  lemma DropMatches(c: Counts, names: seq<string>, rest: seq<string>)
    requires CountsMatch(c, names + rest)
    ensures Drop(c, names).Ok? && CountsMatch(Drop(c, names).value, rest)
  {
    forall n | n in names ensures n in c {
      assert n in names + rest;
    }
    DropSpec(c, names);
    var d := Drop(c, names).value;
    forall t | t in d ensures d[t] == Count(rest, t) || (d[t] == 1 && Count(rest, t) == 0) {
      CountConcat(names, rest, t);
    }
    forall n | n in rest ensures n in d {
      assert n in names + rest;
    }
  }

  /** A target with count 0 has no remaining use, so handing its image on keeps the counts matching. */
  lemma DonorMatches(c: Counts, rest: seq<string>, d: string)
    requires CountsMatch(c, rest) && d in c && c[d] == 0
    ensures Count(rest, d) == 0 && CountsMatch(c[d := 1], rest)
  {
  }
}
