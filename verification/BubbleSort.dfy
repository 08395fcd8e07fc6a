/** The bubble sorts of the dictionary compiler: full passes over two parallel arrays, comparing
    keys with strcmp. */
module BubbleSort {
  import opened TokenOrder

  type Row<T> = (string, T)

  function Compared<T>(s: seq<Row<T>>, j: nat): (r: seq<Row<T>>)
    requires j + 1 < |s|
    ensures |r| == |s|
  {
    if Le(s[j].0, s[j + 1].0) then s else s[j := s[j + 1]][j + 1 := s[j]]
  }

  /** The first `j` comparisons of a pass. */
  function Pass<T>(s: seq<Row<T>>, j: nat): (r: seq<Row<T>>)
    requires j == 0 || j < |s|
    ensures |r| == |s|
  {
    if j == 0 then s else Compared(Pass(s, j - 1), j - 1)
  }

  function FullPass<T>(s: seq<Row<T>>): (r: seq<Row<T>>)
    ensures |r| == |s|
  {
    if |s| == 0 then s else Pass(s, |s| - 1)
  }

  function Passes<T>(s: seq<Row<T>>, i: nat): (r: seq<Row<T>>)
    ensures |r| == |s|
  {
    if i == 0 then s else FullPass(Passes(s, i - 1))
  }

  /** All the passes the compiler makes. */
  function BubbleSorted<T>(s: seq<Row<T>>): (r: seq<Row<T>>)
    ensures |r| == |s|
  {
    if |s| == 0 then s else Passes(s, |s| - 1)
  }

  ghost predicate Sorted<T>(s: seq<Row<T>>) {
    forall a, b :: 0 <= a < b < |s| ==> Le(s[a].0, s[b].0)
  }

  /** The last `i` rows stand where they belong. */
  ghost predicate Settled<T>(s: seq<Row<T>>, i: nat) {
    forall a, b :: 0 <= a < b < |s| && |s| - i <= b ==> Le(s[a].0, s[b].0)
  }

  /** Row j is not below any row before it. */
  ghost predicate MaxSoFar<T>(s: seq<Row<T>>, j: nat)
    requires j < |s|
  {
    forall a :: 0 <= a < j ==> Le(s[a].0, s[j].0)
  }

  /** One comparison carries the maximum on and leaves the settled rows alone. */
  lemma ComparedStep<T>(s: seq<Row<T>>, j: nat, i: nat)
    requires j + 1 < |s| && Settled(s, i) && MaxSoFar(s, j)
    ensures Settled(Compared(s, j), i) && MaxSoFar(Compared(s, j), j + 1)
    ensures |s| - i <= j + 1 ==> Compared(s, j) == s
  {
    hide Le;
    LeTotal(s[j].0, s[j + 1].0);
    if Le(s[j].0, s[j + 1].0) {
      forall a | 0 <= a < j ensures Le(s[a].0, s[j + 1].0) {
        LeTransitive(s[a].0, s[j].0, s[j + 1].0);
      }
    }
  }

  lemma {:induction false} PassSettles<T>(s: seq<Row<T>>, j: nat, i: nat)
    requires j < |s| && Settled(s, i)
    ensures Settled(Pass(s, j), i) && MaxSoFar(Pass(s, j), j)
    ensures |s| - i <= j ==> Pass(s, j) == Pass(s, if i < |s| then |s| - i - 1 else 0)
  {
    hide Le, Settled, MaxSoFar, Compared;
    if j == 0 {
      assert MaxSoFar(s, 0) by { NothingBefore(s); }
    } else {
      PassSettles(s, j - 1, i);
      ComparedStep(Pass(s, j - 1), j - 1, i);
    }
  }

  lemma NothingBefore<T>(s: seq<Row<T>>)
    requires |s| > 0
    ensures MaxSoFar(s, 0)
  {
  }

  /** A full pass settles one more row. */
  lemma FullPassSettles<T>(s: seq<Row<T>>, i: nat)
    requires i < |s| && Settled(s, i)
    ensures Settled(FullPass(s), i + 1)
  {
    hide Le, Pass;
    var n := |s|;
    PassSettles(s, n - 1, i);
    PassSettles(s, n - i - 1, i);
  }

  lemma {:induction false} PassesSettle<T>(s: seq<Row<T>>, i: nat)
    requires i <= |s|
    ensures Settled(Passes(s, i), i)
  {
    hide Le, FullPass, Settled;
    if i == 0 {
      NothingSettled(s);
    } else {
      PassesSettle(s, i - 1);
      FullPassSettles(Passes(s, i - 1), i - 1);
    }
  }

  lemma NothingSettled<T>(s: seq<Row<T>>)
    ensures Settled(s, 0)
  {
  }

  /** n - 1 full passes sort n rows. */
  lemma BubbleSorts<T>(s: seq<Row<T>>)
    ensures Sorted(BubbleSorted(s))
  {
    hide Le, Passes;
    if |s| > 0 {
      PassesSettle(s, |s| - 1);
    }
  }

  // ----- permutation and stability

  /** The rows with one key, in order. */
  function WithKey<T>(s: seq<Row<T>>, key: string): seq<Row<T>> {
    if s == [] then [] else (if s[0].0 == key then [s[0]] else []) + WithKey(s[1..], key)
  }

  lemma {:induction false} WithKeyAppends<T>(a: seq<Row<T>>, b: seq<Row<T>>, key: string)
    ensures WithKey(a + b, key) == WithKey(a, key) + WithKey(b, key)
  {
    if a == [] {
      assert a + b == b;
    } else {
      WithKeyFirst(a + b, key);
      WithKeyFirst(a, key);
      hide WithKey;
      assert (a + b)[1..] == a[1..] + b;
      WithKeyAppends(a[1..], b, key);
    }
  }

  lemma WithKeyFirst<T>(s: seq<Row<T>>, key: string)
    requires s != []
    ensures WithKey(s, key) == (if s[0].0 == key then [s[0]] else []) + WithKey(s[1..], key)
  {
  }

  lemma WithKeyOfPair<T>(x: Row<T>, y: Row<T>, key: string)
    ensures WithKey([x, y], key) == (if x.0 == key then [x] else []) + (if y.0 == key then [y] else [])
  {
    assert [x, y][1..] == [y] && [y][1..] == [];
    assert WithKey([y], key) == if y.0 == key then [y] else [];
  }

  lemma SwapInside<T>(a: seq<Row<T>>, x: Row<T>, y: Row<T>, b: seq<Row<T>>, key: string)
    requires x.0 != y.0
    ensures WithKey(a + ([y, x] + b), key) == WithKey(a + ([x, y] + b), key)
    ensures multiset(a + ([y, x] + b)) == multiset(a + ([x, y] + b))
  {
    hide WithKey;
    WithKeyAppends(a, [y, x] + b, key);
    WithKeyAppends(a, [x, y] + b, key);
    WithKeyAppends([y, x], b, key);
    WithKeyAppends([x, y], b, key);
    WithKeyOfPair(x, y, key);
    WithKeyOfPair(y, x, key);
  }

  /** A comparison swaps rows of different keys only. */
  lemma ComparedKeeps<T>(s: seq<Row<T>>, j: nat, key: string)
    requires j + 1 < |s|
    ensures WithKey(Compared(s, j), key) == WithKey(s, key)
    ensures multiset(Compared(s, j)) == multiset(s)
  {
    hide WithKey, Le;
    if !Le(s[j].0, s[j + 1].0) {
      LeReflexive(s[j].0);
      assert s == s[..j] + ([s[j], s[j + 1]] + s[j + 2..]);
      assert Compared(s, j) == s[..j] + ([s[j + 1], s[j]] + s[j + 2..]);
      SwapInside(s[..j], s[j], s[j + 1], s[j + 2..], key);
    }
  }

  lemma LeReflexive(a: string)
    ensures Le(a, a)
  {
    LeTotal(a, a);
  }

  lemma {:induction false} PassKeeps<T>(s: seq<Row<T>>, j: nat, key: string)
    requires j == 0 || j < |s|
    ensures WithKey(Pass(s, j), key) == WithKey(s, key) && multiset(Pass(s, j)) == multiset(s)
  {
    hide WithKey, Compared;
    if j > 0 {
      PassKeeps(s, j - 1, key);
      ComparedKeeps(Pass(s, j - 1), j - 1, key);
    }
  }

  lemma {:induction false} PassesKeep<T>(s: seq<Row<T>>, i: nat, key: string)
    ensures WithKey(Passes(s, i), key) == WithKey(s, key) && multiset(Passes(s, i)) == multiset(s)
  {
    hide WithKey, Pass;
    if i > 0 {
      PassesKeep(s, i - 1, key);
      if |s| > 0 {
        PassKeeps(Passes(s, i - 1), |s| - 1, key);
      }
    }
  }

  /** The sort is a stable permutation: the same rows, and rows with equal keys in their old order. */
  lemma BubbleSortIsStable<T>(s: seq<Row<T>>, key: string)
    ensures multiset(BubbleSorted(s)) == multiset(s)
    ensures WithKey(BubbleSorted(s), key) == WithKey(s, key)
  {
    hide WithKey, Passes;
    if |s| > 0 {
      PassesKeep(s, |s| - 1, key);
    }
  }

  // ----- the loops

  function Zip<T>(keys: seq<string>, values: seq<T>): (r: seq<Row<T>>)
    requires |keys| == |values|
    ensures |r| == |keys| && forall k :: 0 <= k < |r| ==> r[k] == (keys[k], values[k])
  {
    if keys == [] then [] else [(keys[0], values[0])] + Zip(keys[1..], values[1..])
  }

  method CompareAndSwap<T>(keys: array<string>, values: array<T>, n: nat, j: nat)
    requires n <= keys.Length && n <= values.Length && j + 1 < n
    modifies keys, values
    ensures Zip(keys[..n], values[..n]) == Compared(old(Zip(keys[..n], values[..n])), j)
    ensures keys[n..] == old(keys[n..]) && values[n..] == old(values[n..])
  {
    hide Zip;
    ghost var before := Zip(keys[..n], values[..n]);
    if !Le(keys[j], keys[j + 1]) {
      var key, value := keys[j], values[j];
      keys[j] := keys[j + 1];
      values[j] := values[j + 1];
      keys[j + 1] := key;
      values[j + 1] := value;
    }
    ghost var after := Zip(keys[..n], values[..n]);
    assert |after| == n == |before|;
    forall k | 0 <= k < n ensures after[k] == Compared(before, j)[k] {
    }
  }

  /** n - 1 rounds of n - 1 comparisons over the first n rows, in place. */
  method SortRows<T>(keys: array<string>, values: array<T>, n: nat)
    requires n <= keys.Length && n <= values.Length
    modifies keys, values
    ensures Zip(keys[..n], values[..n]) == BubbleSorted(old(Zip(keys[..n], values[..n])))
    ensures keys[n..] == old(keys[n..]) && values[n..] == old(values[n..])
  {
    hide Zip, Compared;
    if n == 0 {
      return;
    }
    ghost var s := Zip(keys[..n], values[..n]);
    for i := 0 to n - 1
      invariant Zip(keys[..n], values[..n]) == Passes(s, i)
      invariant keys[n..] == old(keys[n..]) && values[n..] == old(values[n..])
    {
      for j := 0 to n - 1
        invariant Zip(keys[..n], values[..n]) == Pass(Passes(s, i), j)
        invariant keys[n..] == old(keys[n..]) && values[n..] == old(values[n..])
      {
        CompareAndSwap(keys, values, n, j);
      }
    }
  }
}
