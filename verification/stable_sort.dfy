/** Python's `list.sort(key=k, reverse=True)` on the timestamps of file
    records: a stable sort into non-increasing key order. Python documents
    that `reverse=True` keeps the original order of elements with equal keys.
    The sort is modelled as insertion sort; `StableSortIsUnique` shows that
    every stable sort (including the library's) gives the same sequence. */
module StableSort {

  /** Non-increasing by `key`: every element's key is at least that of every
      later element. */
  predicate SortedDesc<T>(s: seq<T>, key: T -> int)
  {
    forall i, j :: 0 <= i < j < |s| ==> key(s[i]) >= key(s[j])
  }

  /** The elements of `s` whose key is `t`, in their order in `s`. */
  function WithKey<T>(s: seq<T>, key: T -> int, t: int): seq<T>
  {
    if |s| == 0 then []
    else (if key(s[0]) == t then [s[0]] else []) + WithKey(s[1..], key, t)
  }

  /** `a` and `b` list the elements of every key in the same order: the
      relation a stable sort keeps between its input and its output. */
  ghost predicate SameTies<T>(a: seq<T>, b: seq<T>, key: T -> int)
  {
    forall t :: WithKey(a, key, t) == WithKey(b, key, t)
  }

  /** Inserts `x` in front of the first element whose key is not greater
      than `x`'s. */
  function Insert<T>(x: T, s: seq<T>, key: T -> int): (r: seq<T>)
    requires SortedDesc(s, key)
    ensures SortedDesc(r, key)
    ensures multiset(r) == multiset(s) + multiset{x}
    ensures |r| == |s| + 1 && (r[0] == x || (|s| > 0 && r[0] == s[0]))
  {
    if |s| == 0 || key(s[0]) <= key(x) then
      [x] + s
    else
      var rest := Insert(x, s[1..], key);
      assert key(s[0]) >= key(rest[0]);
      assert s == [s[0]] + s[1..];
      [s[0]] + rest
  }

  /** The elements with key `t` of `[y] + rest`: `y` if it has key `t`,
      then those of `rest`. */
  lemma WithKeyCons<T>(y: T, rest: seq<T>, key: T -> int, t: int)
    ensures WithKey([y] + rest, key, t) == (if key(y) == t then [y] else []) + WithKey(rest, key, t)
  {
    assert ([y] + rest)[0] == y && ([y] + rest)[1..] == rest;
  }

  /** Two runs of which one is empty commute in front of a sequence. */
  lemma EmptyRunsCommute<T>(head: seq<T>, mine: seq<T>, tail: seq<T>)
    requires head == [] || mine == []
    ensures head + (mine + tail) == mine + (head + tail)
  {
  }

  /** Inserting `x` puts it in front of the elements with its key, and moves
      no other element relative to the elements of its key. */
  lemma {:induction false} InsertTies<T>(x: T, s: seq<T>, key: T -> int, t: int)
    requires SortedDesc(s, key)
    ensures WithKey(Insert(x, s, key), key, t) == (if key(x) == t then [x] else []) + WithKey(s, key, t)
  {
    if |s| == 0 || key(s[0]) <= key(x) {
      WithKeyCons(x, s, key, t);
    } else {
      var rest := Insert(x, s[1..], key);
      assert Insert(x, s, key) == [s[0]] + rest;
      InsertTies(x, s[1..], key, t);
      WithKeyCons(s[0], rest, key, t);
      WithKeyCons(s[0], s[1..], key, t);
      assert s == [s[0]] + s[1..];
      EmptyRunsCommute(if key(s[0]) == t then [s[0]] else [],
                       if key(x) == t then [x] else [],
                       WithKey(s[1..], key, t));
    }
  }

  /** Stable sort into non-increasing key order: the input's first element
      goes in front of every later element with an equal key. */
  function SortDesc<T>(s: seq<T>, key: T -> int): (r: seq<T>)
    ensures SortedDesc(r, key)
    ensures multiset(r) == multiset(s)
  {
    if |s| == 0 then []
    else
      assert s == [s[0]] + s[1..];
      Insert(s[0], SortDesc(s[1..], key), key)
  }

  /** The sort is stable: for every key, the elements with that key keep
      their input order. */
  lemma {:induction false} SortDescStable<T>(s: seq<T>, key: T -> int)
    ensures SameTies(SortDesc(s, key), s, key)
  {
    if |s| > 0 {
      SortDescStable(s[1..], key);
      forall t
        ensures WithKey(SortDesc(s, key), key, t) == WithKey(s, key, t)
      {
        InsertTies(s[0], SortDesc(s[1..], key), key, t);
      }
    }
  }

  /** The elements with key `t` are exactly the elements of `s` whose key
      is `t`. */
  lemma {:induction false} WithKeyMembers<T>(s: seq<T>, key: T -> int, t: int)
    ensures forall y :: y in WithKey(s, key, t) <==> y in s && key(y) == t
  {
    if |s| > 0 {
      WithKeyMembers(s[1..], key, t);
      assert s == [s[0]] + s[1..];
    }
  }

  /** Two sequences sorted by key that list every key's elements in the same
      order are equal. */
  lemma {:induction false} SortedTiesDetermine<T>(a: seq<T>, b: seq<T>, key: T -> int)
    requires SortedDesc(a, key) && SortedDesc(b, key)
    requires SameTies(a, b, key)
    ensures a == b
    decreases |a|
  {
    if |a| > 0 {
      assert WithKey(a, key, key(a[0]))[0] == a[0];
    }
    if |b| > 0 {
      assert WithKey(b, key, key(b[0]))[0] == b[0];
    }
    if |a| > 0 && |b| > 0 {
      var ka, kb := key(a[0]), key(b[0]);
      WithKeyMembers(a, key, kb);
      WithKeyMembers(b, key, ka);
      assert a[0] in WithKey(b, key, ka);
      assert b[0] in WithKey(a, key, kb);
      assert ka == kb;
      assert a[0] == b[0] by {
        assert WithKey(a, key, ka) == WithKey(b, key, ka);
      }
      forall t
        ensures WithKey(a[1..], key, t) == WithKey(b[1..], key, t)
      {
        var head: seq<T> := if ka == t then [a[0]] else [];
        assert WithKey(a, key, t) == head + WithKey(a[1..], key, t);
        assert WithKey(b, key, t) == head + WithKey(b[1..], key, t);
        assert WithKey(a, key, t) == WithKey(b, key, t);
        assert WithKey(a[1..], key, t) == WithKey(a, key, t)[|head|..];
        assert WithKey(b[1..], key, t) == WithKey(b, key, t)[|head|..];
      }
      SortedTiesDetermine(a[1..], b[1..], key);
      assert a == [a[0]] + a[1..];
      assert b == [b[0]] + b[1..];
    }
  }

  /** Any stable sort into non-increasing key order gives the same result
      as `SortDesc`; so the insertion sort stands for the library sort. */
  lemma StableSortIsUnique<T>(s: seq<T>, r: seq<T>, key: T -> int)
    requires SortedDesc(r, key) && SameTies(r, s, key)
    ensures r == SortDesc(s, key)
  {
    SortDescStable(s, key);
    SortedTiesDetermine(r, SortDesc(s, key), key);
  }
}
