/** `sorted(items, key=f, reverse=True)`: Python's sort is stable, and with
    `reverse=True` it still keeps items with equal keys in their input order.
    The keys are given here already computed, one per item. The model sorts by
    insertion; StableSortIsUnique shows that every stable descending sort, the
    library's own included, yields the same sequence. */
module StableSort {

  /** An item being sorted, with its key and its position in the input. */
  datatype Entry<T> = Entry(key: real, pos: int, item: T)

  /** `a` comes before `b` in the output: a larger key, or the same key and
      an earlier input position. */
  predicate Before<T>(a: Entry<T>, b: Entry<T>) {
    a.key > b.key || (a.key == b.key && a.pos < b.pos)
  }

  ghost predicate Ordered<T>(s: seq<Entry<T>>) {
    forall i, j :: 0 <= i < j < |s| ==> Before(s[i], s[j])
  }

  ghost predicate InInputOrder<T>(s: seq<Entry<T>>) {
    forall i, j :: 0 <= i < j < |s| ==> s[i].pos < s[j].pos
  }

  /** Pair every item with its key and input position. */
  function Decorate<T>(keys: seq<real>, items: seq<T>): (r: seq<Entry<T>>)
    requires |keys| == |items|
    ensures |r| == |items| && InInputOrder(r)
    ensures forall k :: 0 <= k < |r| ==> r[k].key == keys[k] && r[k].pos == k && r[k].item == items[k]
  {
    seq(|items|, k requires 0 <= k < |items| => Entry(keys[k], k, items[k]))
  }

  /** Put `x` in front of the first entry whose key is not larger than its own. */
  function Insert<T>(x: Entry<T>, s: seq<Entry<T>>): (r: seq<Entry<T>>)
    ensures multiset(r) == multiset(s) + multiset{x}
  {
    if s == [] || x.key >= s[0].key then [x] + s
    else
      assert s == [s[0]] + s[1..];
      [s[0]] + Insert(x, s[1..])
  }

  function InsertionSort<T>(s: seq<Entry<T>>): (r: seq<Entry<T>>)
    ensures multiset(r) == multiset(s)
  {
    if s == [] then []
    else
      assert s == [s[0]] + s[1..];
      Insert(s[0], InsertionSort(s[1..]))
  }

  lemma {:induction false} InsertOrdered<T>(x: Entry<T>, s: seq<Entry<T>>)
    requires Ordered(s)
    requires forall k :: 0 <= k < |s| ==> x.pos < s[k].pos
    ensures Ordered(Insert(x, s))
  {
    if s == [] || x.key >= s[0].key {
    } else {
      var t := s[1..];
      InsertOrdered(x, t);
      var u := Insert(x, t);
      forall e | e in u ensures Before(s[0], e) {
        assert e in multiset(u);
        if e != x {
          assert e in multiset(t);
          assert e in t;
        }
      }
      var r := [s[0]] + u;
      forall i, j | 0 <= i < j < |r| ensures Before(r[i], r[j]) {
        if i == 0 {
          assert r[j] == u[j - 1];
          assert r[j] in u;
        } else {
          assert r[i] == u[i - 1] && r[j] == u[j - 1];
        }
      }
    }
  }

  lemma {:induction false} InsertionSortOrdered<T>(s: seq<Entry<T>>)
    requires InInputOrder(s)
    ensures Ordered(InsertionSort(s))
  {
    if s != [] {
      var t := InsertionSort(s[1..]);
      InsertionSortOrdered(s[1..]);
      forall k | 0 <= k < |t| ensures s[0].pos < t[k].pos {
        assert t[k] in multiset(t);
        assert t[k] in multiset(s[1..]);
        var j :| 0 <= j < |s[1..]| && s[1..][j] == t[k];
        assert s[j + 1] == t[k];
      }
      InsertOrdered(s[0], t);
    }
  }

  /** The order `sorted(items, key=..., reverse=True)` returns, as entries. */
  function SortedEntries<T>(keys: seq<real>, items: seq<T>): (r: seq<Entry<T>>)
    requires |keys| == |items|
    ensures Ordered(r)
    ensures multiset(r) == multiset(Decorate(keys, items))
  {
    var s := Decorate(keys, items);
    InsertionSortOrdered(s);
    InsertionSort(s)
  }

  /** The items of `sorted(items, key=..., reverse=True)`. */
  function SortedReverse<T>(keys: seq<real>, items: seq<T>): (r: seq<T>)
    requires |keys| == |items|
    ensures |r| == |items|
    ensures forall k :: 0 <= k < |r| ==> r[k] == SortedEntries(keys, items)[k].item
  {
    var s := SortedEntries(keys, items);
    assert |s| == |multiset(s)| == |Decorate(keys, items)|;
    seq(|s|, k requires 0 <= k < |s| => s[k].item)
  }

  /** `k` is the first position holding a largest key. */
  ghost predicate IsFirstMax(keys: seq<real>, k: int) {
    && 0 <= k < |keys|
    && (forall j :: 0 <= j < |keys| ==> keys[j] <= keys[k])
    && (forall j :: 0 <= j < k ==> keys[j] < keys[k])
  }

  /** The head of the sorted output is the earliest item with the largest key:
      stability decides ties in favour of the smallest input position. */
  lemma {:induction false} SortedReverseHead<T>(keys: seq<real>, items: seq<T>)
    requires |keys| == |items| > 0
    ensures exists k :: IsFirstMax(keys, k) && SortedReverse(keys, items)[0] == items[k]
  {
    var d := Decorate(keys, items);
    var s := SortedEntries(keys, items);
    assert |s| == |multiset(s)| == |d|;
    assert s[0] in multiset(d);
    var k :| 0 <= k < |d| && d[k] == s[0];
    forall j | 0 <= j < |keys| ensures keys[j] <= keys[k] && (j < k ==> keys[j] < keys[k]) {
      assert d[j] in multiset(s);
      var i :| 0 <= i < |s| && s[i] == d[j];
      if i != 0 {
        assert Before(s[0], s[i]);
      }
    }
    assert IsFirstMax(keys, k);
  }

  /** The head of an ordered sequence comes before every other entry of it. */
  lemma HeadComesFirst<T>(s: seq<Entry<T>>, e: Entry<T>)
    requires Ordered(s) && e in s
    ensures e == s[0] || Before(s[0], e)
  {
    var i :| 0 <= i < |s| && s[i] == e;
    if i != 0 {
      assert Before(s[0], s[i]);
    }
  }

  /** Two ordered arrangements of the same entries are the same sequence:
      the output of a stable descending sort is determined by its input. */
  lemma {:induction false} StableSortIsUnique<T>(a: seq<Entry<T>>, b: seq<Entry<T>>)
    requires Ordered(a) && Ordered(b) && multiset(a) == multiset(b)
    ensures a == b
  {
    if a != [] {
      assert |a| == |multiset(a)| == |b|;
      assert a[0] in multiset(b);
      assert b[0] in multiset(a);
      HeadComesFirst(a, b[0]);
      HeadComesFirst(b, a[0]);
      var h := a[0];
      assert h == b[0];
      var a', b' := a[1..], b[1..];
      assert a == [h] + a' && b == [h] + b';
      assert multiset(a') == multiset(b') by {
        assert multiset(a) == multiset{h} + multiset(a');
        assert multiset(b) == multiset{h} + multiset(b');
        forall e ensures multiset(a')[e] == multiset(b')[e] {
          assert multiset(a)[e] == multiset{h}[e] + multiset(a')[e];
          assert multiset(b)[e] == multiset{h}[e] + multiset(b')[e];
        }
      }
      assert Ordered(a') && Ordered(b') by {
        forall i, j | 0 <= i < j < |a'| ensures Before(a'[i], a'[j]) {
          assert a'[i] == a[i + 1] && a'[j] == a[j + 1];
        }
        forall i, j | 0 <= i < j < |b'| ensures Before(b'[i], b'[j]) {
          assert b'[i] == b[i + 1] && b'[j] == b[j + 1];
        }
      }
      StableSortIsUnique(a', b');
    }
  }
}
