/**
  The two stable sorts the canonical traversal order is built from:
  Python's `list.sort(key=...)` on a string key and on a length key.
  Both are written as insertion sorts. A stable sort's output is fully
  determined by its input and its key, so these give the same lists as
  Python's library sort.
*/
module StableSort {
  import opened Lex

  /** An item together with the string key Python's sort compares it by. */
  datatype Keyed<T> = Keyed(item: T, key: string)

  ghost predicate KeySorted<T>(s: seq<Keyed<T>>)
  {
    forall i, j :: 0 <= i < j < |s| ==> StrLe(s[i].key, s[j].key)
  }

  /** Sorted by the length of the item first and, for equal lengths, by the key. */
  ghost predicate LengthThenKeySorted<U>(s: seq<Keyed<seq<U>>>)
  {
    forall i, j :: 0 <= i < j < |s| ==>
      |s[i].item| < |s[j].item| || (|s[i].item| == |s[j].item| && StrLe(s[i].key, s[j].key))
  }

  /** The elements of `s` that `p` selects, in their order in `s`. */
  function Filter<X>(s: seq<X>, p: X -> bool): seq<X>
  {
    if |s| == 0 then [] else (if p(s[0]) then [s[0]] else []) + Filter(s[1..], p)
  }

  /** `p` selects elements of one key only: a class of elements a sort by key must not reorder. */
  ghost predicate OneKey<T(!new)>(p: Keyed<T> -> bool)
  {
    forall y, z :: p(y) && p(z) ==> y.key == z.key
  }

  /** `p` selects items of one length only. */
  ghost predicate OneLength<U(!new)>(p: Keyed<seq<U>> -> bool)
  {
    forall y, z :: p(y) && p(z) ==> |y.item| == |z.item|
  }

  /** The test that picks the items of length `n` and key `k`. */
  function LengthKeyTie<U>(n: nat, k: string): Keyed<seq<U>> -> bool
  {
    (x: Keyed<seq<U>>) => |x.item| == n && x.key == k
  }

  /** The test that picks the items of key `k`. */
  function KeyTie<T>(k: string): Keyed<T> -> bool
  {
    (x: Keyed<T>) => x.key == k
  }

  lemma KeyTieIsOneKey<T(!new)>(k: string)
    ensures OneKey(KeyTie<T>(k))
  {
  }

  lemma LengthKeyTieIsOneClass<U(!new)>(n: nat, k: string)
    ensures OneKey(LengthKeyTie<U>(n, k)) && OneLength(LengthKeyTie<U>(n, k))
  {
  }

  // ---------------------------------------------------------------- by key

  /** Inserts `x` in front of the first element whose key is not smaller. */
  function InsertByKey<T>(x: Keyed<T>, s: seq<Keyed<T>>): seq<Keyed<T>>
  {
    if |s| == 0 || StrLe(x.key, s[0].key) then [x] + s else [s[0]] + InsertByKey(x, s[1..])
  }

  lemma {:induction false} InsertByKeyPermutes<T>(x: Keyed<T>, s: seq<Keyed<T>>)
    ensures multiset(InsertByKey(x, s)) == multiset(s) + multiset{x}
  {
    if |s| > 0 && !StrLe(x.key, s[0].key) {
      InsertByKeyPermutes(x, s[1..]);
      assert s == [s[0]] + s[1..];
    }
  }

  lemma {:induction false} InsertByKeySorted<T>(x: Keyed<T>, s: seq<Keyed<T>>)
    requires KeySorted(s)
    ensures KeySorted(InsertByKey(x, s))
  {
    var r := InsertByKey(x, s);
    if |s| == 0 {
    } else if StrLe(x.key, s[0].key) {
      forall i, j | 0 <= i < j < |r| ensures StrLe(r[i].key, r[j].key) {
        if i == 0 && j > 1 {
          StrLeTransitive(x.key, s[0].key, s[j - 1].key);
        }
      }
    } else {
      StrLeTotal(x.key, s[0].key);
      var t := InsertByKey(x, s[1..]);
      InsertByKeySorted(x, s[1..]);
      assert forall k :: 0 <= k < |s[1..]| ==> s[1..][k] == s[k + 1];
      InsertByKeyAbove(x, s[1..], s[0].key);
      assert forall j :: 1 <= j < |r| ==> r[j] == t[j - 1];
    }
  }

  /** Inserting `x` into `s` gives keys no smaller than `lo` when `x`'s key and every key of `s` are. */
  lemma {:induction false} InsertByKeyAbove<T>(x: Keyed<T>, s: seq<Keyed<T>>, lo: string)
    requires StrLe(lo, x.key) && forall k :: 0 <= k < |s| ==> StrLe(lo, s[k].key)
    ensures forall j :: 0 <= j < |InsertByKey(x, s)| ==> StrLe(lo, InsertByKey(x, s)[j].key)
  {
    var r := InsertByKey(x, s);
    if |s| == 0 || StrLe(x.key, s[0].key) {
      assert forall j :: 1 <= j < |r| ==> r[j] == s[j - 1];
    } else {
      InsertByKeyAbove(x, s[1..], lo);
      assert forall j :: 1 <= j < |r| ==> r[j] == InsertByKey(x, s[1..])[j - 1];
    }
  }

  /** Inserting by key passes over elements of smaller key only, so it keeps the order within a key. */
  lemma InsertByKeyKeepsOrder<T(!new)>(x: Keyed<T>, s: seq<Keyed<T>>)
    ensures forall p: Keyed<T> -> bool :: OneKey(p) ==> Filter(InsertByKey(x, s), p) == (if p(x) then [x] else []) + Filter(s, p)
  {
    forall p: Keyed<T> -> bool | OneKey(p)
      ensures Filter(InsertByKey(x, s), p) == (if p(x) then [x] else []) + Filter(s, p)
    {
      InsertByKeyKeepsClass(x, s, p);
    }
  }

  lemma {:induction false} InsertByKeyKeepsClass<T(!new)>(x: Keyed<T>, s: seq<Keyed<T>>, p: Keyed<T> -> bool)
    requires OneKey(p)
    ensures Filter(InsertByKey(x, s), p) == (if p(x) then [x] else []) + Filter(s, p)
  {
    var r := InsertByKey(x, s);
    if |s| == 0 || StrLe(x.key, s[0].key) {
      assert r[0] == x && r[1..] == s;
    } else {
      var t := InsertByKey(x, s[1..]);
      InsertByKeyKeepsClass(x, s[1..], p);
      assert r[0] == s[0] && r[1..] == t;
      if p(x) {
        StrLeReflexive(x.key);
        assert !p(s[0]);
        assert Filter(r, p) == Filter(t, p) == [x] + Filter(s[1..], p);
        assert Filter(s, p) == Filter(s[1..], p);
      }
    }
  }

  /**
    `s.sort(key=lambda x: x.key)`. The sort is stable: the elements of any
    one key keep their relative order.
  */
  function SortByKey<T(!new)>(s: seq<Keyed<T>>): (r: seq<Keyed<T>>)
    ensures multiset(r) == multiset(s)
    ensures KeySorted(r)
    ensures forall p: Keyed<T> -> bool {:trigger Filter(r, p)} :: OneKey(p) ==> Filter(r, p) == Filter(s, p)
  {
    if |s| == 0 then [] else
      var rest := SortByKey(s[1..]);
      InsertByKeyPermutes(s[0], rest);
      InsertByKeySorted(s[0], rest);
      InsertByKeyKeepsOrder(s[0], rest);
      assert s == [s[0]] + s[1..];
      InsertByKey(s[0], rest)
  }

  // ------------------------------------------------------------- by length

  function InsertByLength<U>(x: Keyed<seq<U>>, s: seq<Keyed<seq<U>>>): seq<Keyed<seq<U>>>
  {
    if |s| == 0 || |x.item| <= |s[0].item| then [x] + s else [s[0]] + InsertByLength(x, s[1..])
  }

  lemma {:induction false} InsertByLengthPermutes<U>(x: Keyed<seq<U>>, s: seq<Keyed<seq<U>>>)
    ensures multiset(InsertByLength(x, s)) == multiset(s) + multiset{x}
  {
    if |s| > 0 && |x.item| > |s[0].item| {
      InsertByLengthPermutes(x, s[1..]);
      assert s == [s[0]] + s[1..];
    }
  }

  /**
    Inserting, by length, an element whose key is not above any key of a
    list already sorted by (length, key) keeps it sorted by (length, key):
    this is where stability matters.
  */
  lemma {:induction false} InsertByLengthSorted<U>(x: Keyed<seq<U>>, s: seq<Keyed<seq<U>>>)
    requires LengthThenKeySorted(s)
    requires forall k :: 0 <= k < |s| ==> StrLe(x.key, s[k].key)
    ensures LengthThenKeySorted(InsertByLength(x, s))
  {
    var r := InsertByLength(x, s);
    if |s| == 0 {
    } else if |x.item| <= |s[0].item| {
    } else {
      var t := InsertByLength(x, s[1..]);
      InsertByLengthSorted(x, s[1..]);
      assert forall k :: 0 <= k < |s[1..]| ==> s[1..][k] == s[k + 1];
      InsertByLengthAbove(x, s[1..], s[0]);
      assert forall j :: 1 <= j < |r| ==> r[j] == t[j - 1];
    }
  }

  /** `lo` sorts no later than `y` by (length, key). */
  ghost predicate LengthKeyLe<U>(lo: Keyed<seq<U>>, y: Keyed<seq<U>>)
  {
    |lo.item| < |y.item| || (|lo.item| == |y.item| && StrLe(lo.key, y.key))
  }

  /** Inserting `x` into `s` by length keeps every element at or after `lo` when `x` and all of `s` are. */
  lemma {:induction false} InsertByLengthAbove<U>(x: Keyed<seq<U>>, s: seq<Keyed<seq<U>>>, lo: Keyed<seq<U>>)
    requires LengthKeyLe(lo, x) && forall k :: 0 <= k < |s| ==> LengthKeyLe(lo, s[k])
    ensures forall j :: 0 <= j < |InsertByLength(x, s)| ==> LengthKeyLe(lo, InsertByLength(x, s)[j])
  {
    var r := InsertByLength(x, s);
    if |s| == 0 || |x.item| <= |s[0].item| {
      assert forall j :: 1 <= j < |r| ==> r[j] == s[j - 1];
    } else {
      InsertByLengthAbove(x, s[1..], lo);
      assert forall j :: 1 <= j < |r| ==> r[j] == InsertByLength(x, s[1..])[j - 1];
    }
  }

  /** Inserting by length passes over shorter items only, so it keeps the order within a length. */
  lemma InsertByLengthKeepsOrder<U(!new)>(x: Keyed<seq<U>>, s: seq<Keyed<seq<U>>>)
    ensures forall p: Keyed<seq<U>> -> bool :: OneLength(p) ==>
      Filter(InsertByLength(x, s), p) == (if p(x) then [x] else []) + Filter(s, p)
  {
    forall p: Keyed<seq<U>> -> bool | OneLength(p)
      ensures Filter(InsertByLength(x, s), p) == (if p(x) then [x] else []) + Filter(s, p)
    {
      InsertByLengthKeepsClass(x, s, p);
    }
  }

  lemma {:induction false} InsertByLengthKeepsClass<U(!new)>(x: Keyed<seq<U>>, s: seq<Keyed<seq<U>>>, p: Keyed<seq<U>> -> bool)
    requires OneLength(p)
    ensures Filter(InsertByLength(x, s), p) == (if p(x) then [x] else []) + Filter(s, p)
  {
    var r := InsertByLength(x, s);
    if |s| == 0 || |x.item| <= |s[0].item| {
      assert r[0] == x && r[1..] == s;
    } else {
      var t := InsertByLength(x, s[1..]);
      InsertByLengthKeepsClass(x, s[1..], p);
      assert r[0] == s[0] && r[1..] == t;
      if p(x) {
        assert !p(s[0]);
        assert Filter(r, p) == Filter(t, p) == [x] + Filter(s[1..], p);
        assert Filter(s, p) == Filter(s[1..], p);
      }
    }
  }

  /**
    `s.sort(key=len)` applied to the items. The sort is stable: the
    elements of any one length keep their relative order.
  */
  function SortByLength<U(!new)>(s: seq<Keyed<seq<U>>>): (r: seq<Keyed<seq<U>>>)
    ensures multiset(r) == multiset(s)
    ensures forall p: Keyed<seq<U>> -> bool {:trigger Filter(r, p)} :: OneLength(p) ==> Filter(r, p) == Filter(s, p)
  {
    if |s| == 0 then [] else
      var rest := SortByLength(s[1..]);
      InsertByLengthPermutes(s[0], rest);
      InsertByLengthKeepsOrder(s[0], rest);
      assert s == [s[0]] + s[1..];
      InsertByLength(s[0], rest)
  }

  /**
    Sorting by key and then, stably, by length sorts by (length, key):
    the ordering `get_sorted_root_based_paths` relies on.
  */
  lemma {:induction false} SortByLengthAfterKey<U(!new)>(s: seq<Keyed<seq<U>>>)
    requires KeySorted(s)
    ensures LengthThenKeySorted(SortByLength(s))
  {
    if |s| > 0 {
      var rest := SortByLength(s[1..]);
      SortByLengthAfterKey(s[1..]);
      forall k | 0 <= k < |rest| ensures StrLe(s[0].key, rest[k].key) {
        assert rest[k] in multiset(rest);
        assert rest[k] in multiset(s[1..]);
        var m :| 0 <= m < |s[1..]| && s[1..][m] == rest[k];
        assert s[m + 1] == rest[k];
      }
      InsertByLengthSorted(s[0], rest);
    }
  }

  // ------------------------------------------------------------- the items

  /** The items of a keyed list, in its order. */
  function Items<T>(s: seq<Keyed<T>>): seq<T>
  {
    seq(|s|, i requires 0 <= i < |s| => s[i].item)
  }

  lemma ItemsAppend<T>(s: seq<Keyed<T>>, t: seq<Keyed<T>>)
    ensures Items(s + t) == Items(s) + Items(t)
  {
    assert forall i :: 0 <= i < |s + t| ==> Items(s + t)[i] == (Items(s) + Items(t))[i];
  }

  /** Selecting from a keyed list by a test that only looks at the item selects the same items. */
  lemma {:induction false} ItemsFilter<T>(s: seq<Keyed<T>>, p: Keyed<T> -> bool, q: T -> bool)
    requires forall i :: 0 <= i < |s| ==> p(s[i]) == q(s[i].item)
    ensures Items(Filter(s, p)) == Filter(Items(s), q)
  {
    if |s| > 0 {
      ItemsFilter(s[1..], p, q);
      var head := if p(s[0]) then [s[0]] else [];
      ItemsAppend(head, Filter(s[1..], p));
      assert Items(s)[1..] == Items(s[1..]);
    }
  }

  /** Taking one element out of a list takes it out of the list's multiset. */
  lemma DropOne<X>(u: seq<X>, j: nat)
    requires j < |u|
    ensures multiset(u) == multiset(u[..j] + u[j + 1..]) + multiset{u[j]}
  {
    assert u == u[..j] + [u[j]] + u[j + 1..];
  }

  /** Multiset sums cancel. */
  lemma Cancel<X>(a: multiset<X>, b: multiset<X>, x: X)
    requires a + multiset{x} == b + multiset{x}
    ensures a == b
  {
    forall y ensures a[y] == b[y] {
      assert (a + multiset{x})[y] == (b + multiset{x})[y];
    }
  }

  /**
    Finds the first element of `s` in `t`, and what remains of the two
    orderings of one multiset once it is taken out of each.
  */
  lemma TakeFirst<X>(s: seq<X>, t: seq<X>) returns (j: nat)
    requires |s| > 0 && multiset(s) == multiset(t)
    ensures j < |t| && t[j] == s[0]
    ensures multiset(s[1..]) == multiset(t[..j] + t[j + 1..])
  {
    assert s[0] in multiset(t);
    j :| 0 <= j < |t| && t[j] == s[0];
    DropOne(s, 0);
    DropOne(t, j);
    assert s[..0] + s[1..] == s[1..];
    Cancel(multiset(s[1..]), multiset(t[..j] + t[j + 1..]), s[0]);
  }

  /** Dropping an element from a keyed list drops its item from the items. */
  lemma ItemsDropOne<T>(t: seq<Keyed<T>>, j: nat)
    requires j < |t|
    ensures Items(t[..j] + t[j + 1..]) == Items(t)[..j] + Items(t)[j + 1..]
  {
    var u := t[..j] + t[j + 1..];
    assert forall i :: 0 <= i < |u| ==> Items(u)[i] == (Items(t)[..j] + Items(t)[j + 1..])[i];
  }

  /** Dropping an element from a keyed list takes its item out of the items' multiset. */
  lemma ItemsDrop<T>(t: seq<Keyed<T>>, j: nat)
    requires j < |t|
    ensures multiset(Items(t)) == multiset(Items(t[..j] + t[j + 1..])) + multiset{t[j].item}
  {
    ItemsDropOne(t, j);
    DropOne(Items(t), j);
  }

  /** Equal item multisets stay equal once the same element is put back into each. */
  lemma ItemsPutBack<T>(s: seq<Keyed<T>>, t: seq<Keyed<T>>, j: nat)
    requires |s| > 0 && j < |t| && t[j] == s[0]
    requires multiset(Items(s[1..])) == multiset(Items(t[..j] + t[j + 1..]))
    ensures multiset(Items(s)) == multiset(Items(t))
  {
    ItemsAppend([s[0]], s[1..]);
    assert s == [s[0]] + s[1..];
    ItemsDrop(t, j);
  }

  /** Reordering a keyed list reorders its items the same way. */
  lemma {:induction false} ItemsPermute<T>(s: seq<Keyed<T>>, t: seq<Keyed<T>>)
    requires multiset(s) == multiset(t)
    ensures multiset(Items(s)) == multiset(Items(t))
    decreases |s|
  {
    if |s| > 0 {
      var j := TakeFirst(s, t);
      ItemsPermute(s[1..], t[..j] + t[j + 1..]);
      ItemsPutBack(s, t, j);
    }
  }
}
