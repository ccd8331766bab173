/** The order of the table: `adapters.sort(key=total_bytes(RX, TX),
    reverse=True)`, a stable sort by falling total traffic in which adapters
    with equal totals keep the order in which `ip a` listed them. */
module Ordering {
  import opened ByteUnits
  import opened Addresses

  /** Keys never increase along the sequence. */
  predicate SortedDesc<T>(xs: seq<T>, key: T -> real) {
    forall i, j :: 0 <= i < j < |xs| ==> key(xs[i]) >= key(xs[j])
  }

  /** `x` placed before the first element whose key is not larger than its
      own, so that it follows every element with a larger key. */
  function Insert<T>(x: T, ys: seq<T>, key: T -> real): (r: seq<T>)
    ensures |r| == |ys| + 1
    ensures multiset(r) == multiset(ys) + multiset{x}
  {
    if ys == [] || key(x) >= key(ys[0]) then [x] + ys
    else
      assert ys == [ys[0]] + ys[1..];
      [ys[0]] + Insert(x, ys[1..], key)
  }

  /** A stable sort by falling key: what `list.sort(key=key, reverse=True)`
      leaves behind. */
  function SortDesc<T>(xs: seq<T>, key: T -> real): (r: seq<T>)
    ensures |r| == |xs|
    ensures multiset(r) == multiset(xs)
  {
    if xs == [] then []
    else
      assert xs == [xs[0]] + xs[1..];
      Insert(xs[0], SortDesc(xs[1..], key), key)
  }

  lemma {:induction false} InsertSorted<T>(x: T, ys: seq<T>, key: T -> real)
    requires SortedDesc(ys, key)
    ensures SortedDesc(Insert(x, ys, key), key)
    ensures Insert(x, ys, key)[0] == x || (ys != [] && Insert(x, ys, key)[0] == ys[0])
  {
    if ys != [] && key(x) < key(ys[0]) {
      var rest := ys[1..];
      assert SortedDesc(rest, key);
      InsertSorted(x, rest, key);
      var r := Insert(x, rest, key);
      assert Insert(x, ys, key) == [ys[0]] + r;
      assert key(ys[0]) >= key(r[0]);
    }
  }

  /** The result is sorted by falling key. */
  lemma {:induction false} SortDescSorted<T>(xs: seq<T>, key: T -> real)
    ensures SortedDesc(SortDesc(xs, key), key)
  {
    if xs != [] {
      SortDescSorted(xs[1..], key);
      InsertSorted(xs[0], SortDesc(xs[1..], key), key);
    }
  }

  /** The elements of `xs` whose key is `k`, in order. */
  function WithKey<T>(xs: seq<T>, key: T -> real, k: real): (r: seq<T>)
    ensures |r| <= |xs|
    ensures forall j :: 0 <= j < |r| ==> key(r[j]) == k
  {
    if xs == [] then []
    else (if key(xs[0]) == k then [xs[0]] else []) + WithKey(xs[1..], key, k)
  }

  lemma {:induction false} InsertWithKey<T>(x: T, ys: seq<T>, key: T -> real, k: real)
    requires SortedDesc(ys, key)
    ensures WithKey(Insert(x, ys, key), key, k) == (if key(x) == k then [x] else []) + WithKey(ys, key, k)
  {
    if ys != [] && key(x) < key(ys[0]) {
      var rest := ys[1..];
      assert SortedDesc(rest, key);
      InsertWithKey(x, rest, key, k);
      assert Insert(x, ys, key) == [ys[0]] + Insert(x, rest, key);
      assert key(ys[0]) > key(x);
    } else {
      assert Insert(x, ys, key) == [x] + ys;
    }
  }

  /** Stability: elements with equal keys stay in their original order. */
  lemma {:induction false} SortDescStable<T>(xs: seq<T>, key: T -> real, k: real)
    ensures WithKey(SortDesc(xs, key), key, k) == WithKey(xs, key, k)
  {
    if xs != [] {
      SortDescStable(xs[1..], key, k);
      SortDescSorted(xs[1..], key);
      InsertWithKey(xs[0], SortDesc(xs[1..], key), key, k);
    }
  }

  /** Elements that all share one key are left in their order. */
  lemma {:induction false} WithKeyAll<T>(xs: seq<T>, key: T -> real, k: real)
    requires forall j :: 0 <= j < |xs| ==> key(xs[j]) == k
    ensures WithKey(xs, key, k) == xs
  {
    if xs != [] {
      WithKeyAll(xs[1..], key, k);
    }
  }

  /** When every key is the same, the sort changes nothing. */
  lemma SortDescTied<T>(xs: seq<T>, key: T -> real, k: real)
    requires forall j :: 0 <= j < |xs| ==> key(xs[j]) == k
    ensures SortDesc(xs, key) == xs
  {
    var r := SortDesc(xs, key);
    forall j | 0 <= j < |r|
      ensures key(r[j]) == k
    {
      assert r[j] in multiset(xs);
    }
    SortDescStable(xs, key, k);
    WithKeyAll(xs, key, k);
    WithKeyAll(r, key, k);
  }

  /** The sort key of an adapter: `total_bytes(x['RX'], x['TX'])`. */
  function Key(a: Adapter): real {
    TotalBytes(a.rx, a.tx)
  }

  /** The order of the table's rows. */
  function SortByTraffic(adapters: seq<Adapter>): seq<Adapter> {
    SortDesc(adapters, Key)
  }

  /** Adapters without traffic figures ("N/A" in both columns) sort as 0, so
      they come last, after every adapter with a positive total. */
  lemma UnmeasuredSortsLast(a: Adapter)
    requires a.rx == "N/A" && a.tx == "N/A"
    ensures Key(a) == 0.0
  {
    ParseSizeZeroCases(a.rx);
    ParseSizeZeroCases(a.tx);
  }
}
