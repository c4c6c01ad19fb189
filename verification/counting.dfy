/**
 `collections.Counter` over a sequence, as an association list in insertion
 order (the order a Python dict keeps), and the set-of-names bound the
 officials report prints.
 */
module Counting {
  import Records

  type Tally<T> = seq<(T, nat)>

  /** The keys of an association list, in order. */
  function Keys<K, V>(c: seq<(K, V)>): (r: seq<K>)
    ensures |r| == |c|
    ensures forall i :: 0 <= i < |c| ==> r[i] == c[i].0
  {
    seq(|c|, i requires 0 <= i < |c| => c[i].0)
  }

  /** The keys of a list with one pair in front. */
  lemma KeysCons<K, V>(x: (K, V), c: seq<(K, V)>)
    ensures Keys([x] + c) == [x.0] + Keys(c)
  {
  }

  predicate Distinct<T(==)>(s: seq<T>) {
    forall i, j :: 0 <= i < j < |s| ==> s[i] != s[j]
  }

  /** `counter[x]`: the count stored for `x`, or 0 when `x` is not a key. */
  function CountOf<T(==)>(c: Tally<T>, x: T): nat {
    match Records.Lookup(c, x)
    case None => 0
    case Some(n) => n
  }

  /** `d[k] = v`: a key already present keeps its place and takes the new
      value, a new key goes last. */
  function Store<K(==), V>(c: seq<(K, V)>, k: K, v: V): (r: seq<(K, V)>)
    ensures Keys(r) == if k in Keys(c) then Keys(c) else Keys(c) + [k]
  {
    if |c| == 0 then [(k, v)]
    else if c[0].0 == k then
      assert c == [c[0]] + c[1..];
      KeysCons(c[0], c[1..]);
      KeysCons((k, v), c[1..]);
      assert Keys(c)[0] == k;
      [(k, v)] + c[1..]
    else
      var rest := Store(c[1..], k, v);
      assert c == [c[0]] + c[1..];
      KeysCons(c[0], c[1..]);
      KeysCons(c[0], rest);
      [c[0]] + rest
  }

  /** After the assignment the key reads the new value and every other key
      reads what it read before. */
  lemma {:induction false} StoreLookup<K, V>(c: seq<(K, V)>, k: K, v: V, e: K)
    ensures Records.Lookup(Store(c, k, v), e) == if e == k then Records.Some(v) else Records.Lookup(c, e)
    decreases |c|
  {
    if |c| > 0 {
      if c[0].0 == k {
        assert Store(c, k, v)[1..] == c[1..];
      } else {
        StoreLookup(c[1..], k, v, e);
        assert Store(c, k, v)[1..] == Store(c[1..], k, v);
      }
    }
  }

  /** `counter[x] += 1`: a key already present keeps its place, a new key goes last. */
  function Bump<T(==)>(c: Tally<T>, x: T): (r: Tally<T>)
    ensures Keys(r) == if x in Keys(c) then Keys(c) else Keys(c) + [x]
  {
    Store<T, nat>(c, x, CountOf(c, x) + 1)
  }

  /** Sum of all counts. */
  function Total<T>(c: Tally<T>): nat {
    if |c| == 0 then 0 else c[0].1 + Total(c[1..])
  }

  lemma BumpCount<T>(c: Tally<T>, x: T, y: T)
    ensures CountOf(Bump(c, x), y) == CountOf(c, y) + (if x == y then 1 else 0)
  {
    StoreLookup<T, nat>(c, x, CountOf(c, x) + 1, y);
  }

  /** Storing `v` under `x` trades the old count of `x` for `v` in the sum. */
  lemma {:induction false} StoreTotal<T>(c: Tally<T>, x: T, v: nat)
    ensures Total(Store(c, x, v)) + CountOf(c, x) == Total(c) + v
    decreases |c|
  {
    if |c| > 0 {
      if c[0].0 == x {
        assert Store(c, x, v)[1..] == c[1..];
      } else {
        StoreTotal(c[1..], x, v);
        assert Store(c, x, v)[1..] == Store(c[1..], x, v);
      }
    }
  }

  lemma BumpTotal<T>(c: Tally<T>, x: T)
    ensures Total(Bump(c, x)) == Total(c) + 1
  {
    StoreTotal(c, x, CountOf(c, x) + 1);
  }

  lemma BumpKeepsDistinct<T>(c: Tally<T>, x: T)
    requires Distinct(Keys(c))
    ensures Distinct(Keys(Bump(c, x)))
  {
  }

  /** `Counter(xs)`: each distinct element once, in order of first occurrence,
      with its count. */
  function Count<T(==)>(xs: seq<T>): (c: Tally<T>)
    ensures Distinct(Keys(c))
  {
    if |xs| == 0 then []
    else
      var prev := Count(xs[..|xs| - 1]);
      BumpKeepsDistinct(prev, xs[|xs| - 1]);
      Bump(prev, xs[|xs| - 1])
  }

  /** The counter's keys are exactly the elements of the input. */
  lemma {:induction false} CountKeys<T>(xs: seq<T>, x: T)
    ensures x in Keys(Count(xs)) <==> x in xs
    decreases |xs|
  {
    if |xs| > 0 {
      var init := xs[..|xs| - 1];
      var last := xs[|xs| - 1];
      CountKeys(init, x);
      assert xs == init + [last];
      assert Keys(Count(xs)) == if last in Keys(Count(init)) then Keys(Count(init)) else Keys(Count(init)) + [last];
    }
  }

  /** The counter agrees with the multiset of the input: every element's count
      is its number of occurrences, and absent elements count zero. */
  lemma {:induction false} CountMatchesMultiset<T>(xs: seq<T>, x: T)
    ensures CountOf(Count(xs), x) == multiset(xs)[x]
    decreases |xs|
  {
    if |xs| > 0 {
      var init := xs[..|xs| - 1];
      var last := xs[|xs| - 1];
      assert xs == init + [last];
      CountMatchesMultiset(init, x);
      BumpCount(Count(init), last, x);
    }
  }

  /** The counts add up to the length of the input. */
  lemma {:induction false} CountTotal<T>(xs: seq<T>)
    ensures Total(Count(xs)) == |xs|
    decreases |xs|
  {
    if |xs| > 0 {
      var init := xs[..|xs| - 1];
      CountTotal(init);
      BumpTotal(Count(init), xs[|xs| - 1]);
    }
  }

  /** `{k: n for k, n in counter.items() if n > 1}`, keeping the counter's order. */
  function Repeated<T>(c: Tally<T>): (r: Tally<T>)
    ensures forall k :: 0 <= k < |r| ==> r[k].1 > 1 && r[k] in c
  {
    if |c| == 0 then []
    else (if c[0].1 > 1 then [c[0]] else []) + Repeated(c[1..])
  }

  lemma {:induction false} RepeatedKeys<T>(c: Tally<T>, x: T)
    requires Distinct(Keys(c))
    ensures x in Keys(Repeated(c)) <==> CountOf(c, x) > 1
    ensures x in Keys(Repeated(c)) ==> CountOf(Repeated(c), x) == CountOf(c, x)
    decreases |c|
  {
    if |c| > 0 {
      assert Keys(c[1..]) == Keys(c)[1..];
      RepeatedKeys(c[1..], x);
      var rest := Repeated(c[1..]);
      if c[0].1 > 1 {
        assert Repeated(c) == [c[0]] + rest;
        assert Keys(Repeated(c)) == [c[0].0] + Keys(rest);
      } else {
        assert Repeated(c) == rest;
      }
    }
  }

  /** `duplicate_officials` holds exactly the elements occurring more than once,
      each with its number of occurrences. */
  lemma RepeatedElements<T>(xs: seq<T>, x: T)
    ensures x in Keys(Repeated(Count(xs))) <==> multiset(xs)[x] > 1
    ensures x in Keys(Repeated(Count(xs))) ==> CountOf(Repeated(Count(xs)), x) == multiset(xs)[x]
  {
    CountMatchesMultiset(xs, x);
    RepeatedKeys(Count(xs), x);
  }

  /** `len(set(xs)) <= len(xs)`. */
  lemma {:induction false} DistinctAtMostLength<T>(xs: seq<T>)
    ensures |set x | x in xs| <= |xs|
    decreases |xs|
  {
    if |xs| > 0 {
      var init := xs[..|xs| - 1];
      DistinctAtMostLength(init);
      assert xs == init + [xs[|xs| - 1]];
      assert (set x | x in xs) == (set x | x in init) + {xs[|xs| - 1]};
    }
  }

  // ---------------------------------------------------------------------
  // Sequence helpers

  /** Concatenation associates. */
  lemma AppendAssoc<T>(a: seq<T>, b: seq<T>, c: seq<T>)
    ensures a + (b + c) == (a + b) + c
  {
  }

  /** Two duplicate-free sequences with no common element concatenate to a
      duplicate-free sequence. */
  lemma DistinctAppend<T>(a: seq<T>, b: seq<T>)
    requires Distinct(a) && Distinct(b)
    requires forall x :: x in a ==> x !in b
    ensures Distinct(a + b)
  {
    forall i, j | 0 <= i < j < |a + b|
      ensures (a + b)[i] != (a + b)[j]
    {
      if i < |a| && j >= |a| {
        assert (a + b)[i] in a;
        assert (a + b)[j] == b[j - |a|];
      }
    }
  }

  /** A sequence of copies of one value holds that value once per
      element and nothing else. */
  lemma {:induction false} CopiesCount<T>(r: seq<T>, x: T, y: T)
    requires forall k :: 0 <= k < |r| ==> r[k] == x
    ensures multiset(r)[y] == if y == x then |r| else 0
    decreases |r|
  {
    if |r| > 0 {
      assert r == [r[0]] + r[1..];
      CopiesCount(r[1..], x, y);
    }
  }

  /** The count of `y` in a non-empty sequence: its first element, then the rest. */
  lemma CountCons<T>(all: seq<T>, y: T)
    requires |all| > 0
    ensures multiset(all)[y] == (if all[0] == y then 1 else 0) + multiset(all[1..])[y]
  {
    assert all == [all[0]] + all[1..];
  }

  /** One more factor `m`, added when `b` holds. */
  lemma MulStep(n: nat, m: nat, b: bool)
    ensures (if b then m else 0) + n * m == ((if b then 1 else 0) + n) * m
  {
  }
}
