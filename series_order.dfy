// The edits of `Store.order`, the user's sequence of series ids:
// `Actions.handleDrop` (app.js:652-663) moves the dragged id with two
// `splice` calls, and `Actions.deleteSeries` (app.js:512-519) filters an id
// out.

module SeriesOrder {

  /** `s.indexOf(x)`: the first position of `x`, or -1. */
  function IndexOf<T(==)>(s: seq<T>, x: T): (i: int)
    ensures -1 <= i < |s|
    ensures i == -1 <==> x !in s
    ensures 0 <= i ==> s[i] == x && x !in s[..i]
    decreases |s|
  {
    if |s| == 0 then -1
    else if s[0] == x then 0
    else
      var j := IndexOf(s[1..], x);
      if j == -1 then -1
      else
        assert s[..j + 1] == [s[0]] + s[1..][..j];
        j + 1
  }

  predicate NoDup<T(==)>(s: seq<T>)
  {
    forall i, j :: 0 <= i < j < |s| ==> s[i] != s[j]
  }

  lemma IndexOfNoDup<T>(s: seq<T>, k: nat)
    requires NoDup(s) && k < |s|
    ensures IndexOf(s, s[k]) == k
  {
  }

  /** Where `splice(start, ...)` starts: a negative start counts back from
      the end, and the result is clamped to the length. */
  function SpliceStart(len: nat, start: int): (k: nat)
    ensures k <= len
  {
    if start < 0 then (if len + start < 0 then 0 else len + start)
    else if start > len then len
    else start
  }

  /** The start position case by case: an index within bounds is kept, one
      past the end becomes the length, a negative one counts back from the
      end, and one further back than the length becomes 0. */
  lemma SpliceStartValue(len: nat, start: int)
    ensures 0 <= start <= len ==> SpliceStart(len, start) == start
    ensures start > len ==> SpliceStart(len, start) == len
    ensures start < 0 && 0 <= len + start ==> SpliceStart(len, start) == len + start
    ensures len + start < 0 ==> SpliceStart(len, start) == 0
  {
  }

  /** `s.splice(start, 1)`: removes the element at the start position, if any. */
  function SpliceRemove<T>(s: seq<T>, start: int): seq<T>
  {
    var k := SpliceStart(|s|, start);
    if k < |s| then s[..k] + s[k + 1..] else s
  }

  /** `s.splice(start, 0, x)`: inserts `x` at the start position. */
  function SpliceInsert<T>(s: seq<T>, start: int, x: T): seq<T>
  {
    var k := SpliceStart(|s|, start);
    s[..k] + [x] + s[k..]
  }

  /** The new order after dropping `src` onto `target`: both positions are
      looked up in the old order, `src` is cut out, and it is put back at the
      target's old position. */
  function Reorder(order: seq<string>, src: string, target: string): seq<string>
  {
    var srcIdx := IndexOf(order, src);
    var targetIdx := IndexOf(order, target);
    SpliceInsert(SpliceRemove(order, srcIdx), targetIdx, src)
  }

  /** `s.filter(y => y !== x)`. */
  function Without<T(==)>(s: seq<T>, x: T): seq<T>
    decreases |s|
  {
    if |s| == 0 then []
    else if s[0] == x then Without(s[1..], x)
    else [s[0]] + Without(s[1..], x)
  }

  lemma {:induction false} WithoutMembers<T>(s: seq<T>, x: T, y: T)
    ensures y in Without(s, x) <==> y in s && y != x
    decreases |s|
  {
    if |s| > 0 {
      WithoutMembers(s[1..], x, y);
      assert s == [s[0]] + s[1..];
    }
  }

  lemma {:induction false} WithoutAppend<T>(a: seq<T>, b: seq<T>, x: T)
    ensures Without(a + b, x) == Without(a, x) + Without(b, x)
    decreases |a|
  {
    if |a| > 0 {
      WithoutAppend(a[1..], b, x);
      assert (a + b)[1..] == a[1..] + b;
    } else {
      assert a + b == b;
    }
  }

  lemma {:induction false} WithoutAbsent<T>(s: seq<T>, x: T)
    requires x !in s
    ensures Without(s, x) == s
    decreases |s|
  {
    if |s| > 0 {
      WithoutAbsent(s[1..], x);
      assert s == [s[0]] + s[1..];
    }
  }

  lemma {:induction false} WithoutKeepsNoDup<T>(s: seq<T>, x: T)
    requires NoDup(s)
    ensures NoDup(Without(s, x))
    decreases |s|
  {
    if |s| > 0 {
      assert NoDup(s[1..]) by {
        forall i, j | 0 <= i < j < |s[1..]| ensures s[1..][i] != s[1..][j] {
          assert s[1..][i] == s[i + 1] && s[1..][j] == s[j + 1];
        }
      }
      WithoutKeepsNoDup(s[1..], x);
      if s[0] != x {
        WithoutMembers(s[1..], x, s[0]);
        assert s[0] !in s[1..] by {
          forall j | 0 <= j < |s[1..]| ensures s[1..][j] != s[0] {
            assert s[1..][j] == s[j + 1];
          }
        }
        var w := Without(s[1..], x);
        forall i, j | 0 <= i < j < |[s[0]] + w| ensures ([s[0]] + w)[i] != ([s[0]] + w)[j] {
          if i == 0 {
            assert ([s[0]] + w)[j] == w[j - 1];
          } else {
            assert ([s[0]] + w)[i] == w[i - 1] && ([s[0]] + w)[j] == w[j - 1];
          }
        }
      }
    }
  }

  /** Deleting a series id: `order.filter(oid => oid !== id)` keeps every
      other id, in the same order, drops every copy of `id`, and keeps an
      order without repeats free of repeats. */
  lemma DeleteFromOrder(order: seq<string>, id: string)
    ensures id !in Without(order, id)
    ensures forall y :: y in Without(order, id) <==> y in order && y != id
    ensures NoDup(order) ==> NoDup(Without(order, id))
    ensures id !in order ==> Without(order, id) == order
  {
    forall y ensures y in Without(order, id) <==> y in order && y != id {
      WithoutMembers(order, id, y);
    }
    WithoutMembers(order, id, id);
    if NoDup(order) {
      WithoutKeepsNoDup(order, id);
    }
    if id !in order {
      WithoutAbsent(order, id);
    }
  }

  lemma NoDupCut<T>(s: seq<T>, i: nat)
    requires NoDup(s) && i < |s|
    ensures NoDup(s[..i] + s[i + 1..])
    ensures s[i] !in s[..i] + s[i + 1..]
  {
    var r := s[..i] + s[i + 1..];
    assert forall p :: 0 <= p < |r| ==> r[p] == if p < i then s[p] else s[p + 1];
  }

  lemma NoDupPut<T>(s: seq<T>, k: nat, x: T)
    requires NoDup(s) && k <= |s| && x !in s
    ensures NoDup(s[..k] + [x] + s[k..])
  {
    var r := s[..k] + [x] + s[k..];
    assert forall p :: 0 <= p < |r| ==> r[p] == if p < k then s[p] else if p == k then x else s[p - 1];
  }

  /** The explicit shape of a move: cut at the source's position, then put
      back at the target's. */
  lemma ReorderShape(order: seq<string>, src: string, target: string)
    requires src in order && target in order && src != target
    ensures var i, j := IndexOf(order, src), IndexOf(order, target);
            var removed := order[..i] + order[i + 1..];
            0 <= i < |order| && 0 <= j < |order| && order[i] == src
            && Reorder(order, src, target) == removed[..j] + [src] + removed[j..]
  {
    var i := IndexOf(order, src);
    var j := IndexOf(order, target);
    var removed := order[..i] + order[i + 1..];
    assert SpliceRemove(order, i) == removed;
    assert SpliceStart(|removed|, j) == j;
  }

  /** Dropping `src` onto another series id moves `src` alone: the result
      holds the same ids, `src` now stands where the target stood, the other
      ids keep their relative order, and an order without repeats stays so. */
  lemma ReorderMovesSource(order: seq<string>, src: string, target: string)
    requires src in order && target in order && src != target
    ensures |Reorder(order, src, target)| == |order|
    ensures multiset(Reorder(order, src, target)) == multiset(order)
    ensures Reorder(order, src, target)[IndexOf(order, target)] == src
    ensures Without(Reorder(order, src, target), src) == Without(order, src)
    ensures NoDup(order) ==> NoDup(Reorder(order, src, target))
  {
    ReorderPermutes(order, src, target);
    var r := Reorder(order, src, target);
    assert |r| == |multiset(r)| == |multiset(order)| == |order|;
    var i := IndexOf(order, src);
    var j := IndexOf(order, target);
    var removed := order[..i] + order[i + 1..];
    ReorderShape(order, src, target);
    assert r == removed[..j] + [src] + removed[j..];
    assert r[j] == src;
    ReorderKeepsOthers(order, i, removed, j, src);
  }

  lemma ReorderKeepsIds(order: seq<string>, i: nat, removed: seq<string>, j: nat, src: string)
    requires i < |order| && order[i] == src && removed == order[..i] + order[i + 1..] && j <= |removed|
    ensures multiset(removed[..j] + [src] + removed[j..]) == multiset(order)
  {
    assert order == order[..i] + [src] + order[i + 1..];
    assert removed == removed[..j] + removed[j..];
    calc {
      multiset(removed[..j] + [src] + removed[j..]);
      multiset(removed[..j]) + multiset{src} + multiset(removed[j..]);
      multiset(removed) + multiset{src};
      multiset(order[..i]) + multiset(order[i + 1..]) + multiset{src};
      multiset(order);
    }
  }

  lemma ReorderKeepsOthers(order: seq<string>, i: nat, removed: seq<string>, j: nat, src: string)
    requires i < |order| && order[i] == src && removed == order[..i] + order[i + 1..] && j <= |removed|
    ensures Without(removed[..j] + [src] + removed[j..], src) == Without(order, src)
  {
    WithoutAround(removed[..j], removed[j..], src);
    assert removed[..j] + removed[j..] == removed;
    WithoutAround(order[..i], order[i + 1..], src);
    assert order[..i] + [src] + order[i + 1..] == order;
  }

  /** Filtering `x` out of `a + [x] + b` is filtering it out of `a + b`. */
  lemma WithoutAround<T>(a: seq<T>, b: seq<T>, x: T)
    ensures Without(a + [x] + b, x) == Without(a + b, x)
  {
    assert Without([x], x) == [] by {
      assert [x][1..] == [];
    }
    WithoutAppend(a + [x], b, x);
    WithoutAppend(a, [x], x);
    WithoutAppend(a, b, x);
  }

  /** Any drop of an id that is in the order, whatever the target (also one
      not in the order, where `splice(-1, 0, src)` puts `src` before the
      last id), permutes the order: the same ids, as many times each, and no
      repeats where there were none. */
  lemma ReorderPermutes(order: seq<string>, src: string, target: string)
    requires src in order
    ensures multiset(Reorder(order, src, target)) == multiset(order)
    ensures forall y :: y in Reorder(order, src, target) <==> y in order
    ensures NoDup(order) ==> NoDup(Reorder(order, src, target))
  {
    var i := IndexOf(order, src);
    var removed := order[..i] + order[i + 1..];
    assert SpliceRemove(order, i) == removed;
    var k := SpliceStart(|removed|, IndexOf(order, target));
    var r := removed[..k] + [src] + removed[k..];
    assert Reorder(order, src, target) == r;
    ReorderKeepsIds(order, i, removed, k, src);
    forall y ensures y in r <==> y in order {
      assert y in r <==> y in multiset(r);
      assert y in order <==> y in multiset(order);
    }
    if NoDup(order) {
      NoDupCut(order, i);
      NoDupPut(removed, k, src);
    }
  }

  /** Putting a new id in front keeps an order free of repeats. */
  lemma NoDupPrepend<T>(s: seq<T>, x: T)
    requires NoDup(s) && x !in s
    ensures NoDup([x] + s)
  {
    NoDupPut(s, 0, x);
    assert s[..0] + [x] + s[0..] == [x] + s;
  }

  /** A drop whose source id is not in the order (a stale drag source):
      `indexOf` gives -1, `splice(-1, 1)` cuts the LAST id, and the stale id
      is inserted instead; with no repeats, the last series leaves the order. */
  lemma ReorderStaleSource(order: seq<string>, src: string, target: string)
    requires src !in order && |order| > 0
    ensures multiset(Reorder(order, src, target)) == multiset(order[..|order| - 1]) + multiset{src}
    ensures NoDup(order) ==> order[|order| - 1] !in Reorder(order, src, target)
  {
    var n := |order|;
    var removed := order[..n - 1];
    assert SpliceRemove(order, -1) == removed;
    var k := SpliceStart(|removed|, IndexOf(order, target));
    var r := removed[..k] + [src] + removed[k..];
    assert Reorder(order, src, target) == r;
    assert removed == removed[..k] + removed[k..];
    assert multiset(r) == multiset(removed[..k]) + multiset{src} + multiset(removed[k..]);
    if NoDup(order) {
      assert order[n - 1] !in removed by {
        forall p | 0 <= p < n - 1 ensures removed[p] != order[n - 1] {
          assert removed[p] == order[p];
        }
      }
      assert order[n - 1] != src;
      assert order[n - 1] !in r by {
        assert forall y :: y in r ==> y in removed || y == src;
      }
    }
  }
}
