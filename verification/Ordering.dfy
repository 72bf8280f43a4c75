/** Python's orders on text and on tuples, and what sorting by one determines. */
module Ordering {

  /** Lexicographic order by code point, as Python compares `str`. */
  predicate TextLess(a: string, b: string) {
    if a == [] then b != []
    else b != [] && (a[0] < b[0] || (a[0] == b[0] && TextLess(a[1..], b[1..])))
  }

  lemma {:induction false} TextLessTotal(a: string, b: string)
    ensures a == b || TextLess(a, b) || TextLess(b, a)
  {
    if a != [] && b != [] && a[0] == b[0] {
      TextLessTotal(a[1..], b[1..]);
      assert a == [a[0]] + a[1..] && b == [b[0]] + b[1..];
    }
  }

  lemma {:induction false} TextLessAsymmetric(a: string, b: string)
    requires TextLess(a, b)
    ensures a != b && !TextLess(b, a)
  {
    if a != [] && a[0] == b[0] {
      TextLessAsymmetric(a[1..], b[1..]);
    }
  }

  lemma {:induction false} TextLessTransitive(a: string, b: string, c: string)
    requires TextLess(a, b) && TextLess(b, c)
    ensures TextLess(a, c)
  {
    if a != [] && a[0] == b[0] && b[0] == c[0] {
      TextLessTransitive(a[1..], b[1..], c[1..]);
    }
  }

  /** The texts agree up to `k`, where one ends first or has the smaller character. */
  ghost predicate FirstDifference(a: string, b: string, k: nat) {
    && k <= |a| && k < |b| && a[..k] == b[..k]
    && (k == |a| || a[k] < b[k])
  }

  lemma {:induction false} TextLessExactly(a: string, b: string)
    ensures TextLess(a, b) <==> exists k: nat :: FirstDifference(a, b, k)
  {
    if a == [] {
      assert b != [] ==> FirstDifference(a, b, 0);
    } else if b != [] {
      TextLessExactly(a[1..], b[1..]);
      assert a == [a[0]] + a[1..] && b == [b[0]] + b[1..];
      if TextLess(a, b) {
        if a[0] < b[0] {
          assert FirstDifference(a, b, 0);
        } else {
          var k: nat :| FirstDifference(a[1..], b[1..], k);
          assert a[..k + 1] == [a[0]] + a[1..][..k] && b[..k + 1] == [b[0]] + b[1..][..k];
          assert FirstDifference(a, b, k + 1);
        }
      }
      if k: nat :| FirstDifference(a, b, k) && k > 0 {
        assert a[..k][0] == b[..k][0];
        assert a[1..][..k - 1] == a[..k][1..] && b[1..][..k - 1] == b[..k][1..];
        assert FirstDifference(a[1..], b[1..], k - 1);
      }
    }
  }

  // ---------- sorting ----------

  /** A strict order whose ties are interchangeable: what `sorted` needs of a key comparison. */
  ghost predicate StrictWeakOrder<T(!new)>(less: (T, T) -> bool) {
    && (forall a, b :: less(a, b) ==> !less(b, a))
    && (forall a, b, c :: !less(b, a) && !less(c, b) ==> !less(c, a))
  }

  ghost predicate Sorted<T>(s: seq<T>, less: (T, T) -> bool) {
    forall i, j :: 0 <= i < j < |s| ==> !less(s[j], s[i])
  }

  lemma TextLessIsStrictWeakOrder()
    ensures StrictWeakOrder(TextLess)
  {
    forall a, b | TextLess(a, b) ensures !TextLess(b, a) {
      TextLessAsymmetric(a, b);
    }
    forall a, b, c | !TextLess(b, a) && !TextLess(c, b) ensures !TextLess(c, a) {
      TextLessTotal(a, b);
      TextLessTotal(b, c);
      if TextLess(c, a) {
        if a == b || b == c {
        } else {
          TextLessTransitive(a, b, c);
          TextLessAsymmetric(a, c);
        }
      }
    }
  }

  function Insert<T>(x: T, s: seq<T>, less: (T, T) -> bool): (r: seq<T>)
    ensures multiset(r) == multiset([x]) + multiset(s)
  {
    if s == [] || !less(s[0], x) then [x] + s
    else
      assert s == [s[0]] + s[1..];
      [s[0]] + Insert(x, s[1..], less)
  }

  /** `sorted`: stable, so equal keys keep their order. */
  function Sort<T>(s: seq<T>, less: (T, T) -> bool): (r: seq<T>)
    ensures multiset(r) == multiset(s)
  {
    if s == [] then []
    else
      assert s == [s[0]] + s[1..];
      Insert(s[0], Sort(s[1..], less), less)
  }

  lemma {:induction false} InsertSorted<T(!new)>(x: T, s: seq<T>, less: (T, T) -> bool)
    requires StrictWeakOrder(less) && Sorted(s, less)
    ensures Sorted(Insert(x, s, less), less)
  {
    var r := Insert(x, s, less);
    if s == [] {
    } else if !less(s[0], x) {
      forall i, j | 0 <= i < j < |r| ensures !less(r[j], r[i]) {
        if i == 0 && j > 1 {
          assert !less(s[j - 1], s[0]);
        }
      }
    } else {
      var tail := Insert(x, s[1..], less);
      InsertSorted(x, s[1..], less);
      forall j | 0 <= j < |tail| ensures !less(tail[j], s[0]) {
        assert tail[j] in multiset(tail);
        assert tail[j] == x || tail[j] in s[1..];
      }
    }
  }

  lemma {:induction false} SortSorted<T(!new)>(s: seq<T>, less: (T, T) -> bool)
    requires StrictWeakOrder(less)
    ensures Sorted(Sort(s, less), less)
  {
    if s != [] {
      SortSorted(s[1..], less);
      InsertSorted(s[0], Sort(s[1..], less), less);
    }
  }

  lemma SortedHeadsAgree<T(!new)>(s: seq<T>, t: seq<T>, less: (T, T) -> bool)
    requires Sorted(s, less) && Sorted(t, less) && multiset(s) == multiset(t) && s != [] && t != []
    requires forall a, b :: a in s && b in s && a != b ==> less(a, b) || less(b, a)
    ensures s[0] == t[0]
  {
    assert s[0] in multiset(t) && t[0] in multiset(s);
    var i :| 0 <= i < |t| && t[i] == s[0];
    var j :| 0 <= j < |s| && s[j] == t[0];
    assert i == 0 || !less(t[i], t[0]);
    assert j == 0 || !less(s[j], s[0]);
  }

  lemma TailsSameElements<T>(s: seq<T>, t: seq<T>)
    requires s != [] && t != [] && s[0] == t[0] && multiset(s) == multiset(t)
    ensures multiset(s[1..]) == multiset(t[1..])
  {
    assert s == [s[0]] + s[1..] && t == [t[0]] + t[1..];
    assert multiset(s) - multiset([s[0]]) == multiset(s[1..]);
    assert multiset(t) - multiset([t[0]]) == multiset(t[1..]);
  }

  /** When no two elements tie, the sorted order of a collection does not depend on how it was listed. */
  lemma {:induction false} SortedIsUnique<T(!new)>(s: seq<T>, t: seq<T>, less: (T, T) -> bool)
    requires Sorted(s, less) && Sorted(t, less) && multiset(s) == multiset(t)
    requires forall a, b :: a in s && b in s && a != b ==> less(a, b) || less(b, a)
    ensures s == t
  {
    assert |s| == |multiset(s)| == |multiset(t)| == |t|;
    if s != [] {
      SortedHeadsAgree(s, t, less);
      TailsSameElements(s, t);
      SortedIsUnique(s[1..], t[1..], less);
      assert s == [s[0]] + s[1..] && t == [t[0]] + t[1..];
    }
  }

  /** Any permutation of distinguishable elements sorts to the same list. */
  lemma SortIgnoresOrder<T(!new)>(s: seq<T>, t: seq<T>, less: (T, T) -> bool)
    requires StrictWeakOrder(less) && multiset(s) == multiset(t)
    requires forall a, b :: a in s && b in s && a != b ==> less(a, b) || less(b, a)
    ensures Sort(s, less) == Sort(t, less)
  {
    SortSorted(s, less);
    SortSorted(t, less);
    var a, b := Sort(s, less), Sort(t, less);
    forall x | x in a ensures x in s {
      assert x in multiset(a);
    }
    SortedIsUnique(a, b, less);
  }
}
