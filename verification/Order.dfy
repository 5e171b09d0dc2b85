/**
 The comparison contract of the C library sorting functions and the stable sort it
 determines.  StableSort is the specification that the merge sort refines;
 StableSortUnique shows it is the only stable sorted rearrangement.
 */
module Order {

  /** What section 7.20.5.2 of ISO/IEC 9899:1999 asks of a comparison function. */
  ghost predicate Comparison<T(!new)>(cmp: (T, T) -> int) {
    && (forall x, y :: cmp(x, y) < 0 <==> 0 < cmp(y, x))
    && (forall x, y, z :: Chain(cmp, x, y, z))
  }

  /** Transitivity at one triple. */
  predicate Chain<T>(cmp: (T, T) -> int, x: T, y: T, z: T) {
    cmp(x, y) <= 0 && cmp(y, z) <= 0 ==> cmp(x, z) <= 0
  }

  lemma Flip<T(!new)>(cmp: (T, T) -> int, x: T, y: T)
    requires Comparison(cmp)
    ensures cmp(x, y) <= 0 <==> 0 <= cmp(y, x)
  {
  }

  ghost predicate Sorted<T>(cmp: (T, T) -> int, s: seq<T>) {
    forall i, j :: 0 <= i < j < |s| ==> cmp(s[i], s[j]) <= 0
  }

  /** The elements of s that compare equal to k, in their order in s. */
  ghost function Class<T>(cmp: (T, T) -> int, s: seq<T>, k: T): seq<T> {
    if s == [] then []
    else (if cmp(s[0], k) == 0 then [s[0]] else []) + Class(cmp, s[1..], k)
  }

  /** Stability: every class of equal elements appears in the same order in u and v. */
  ghost predicate SameClasses<T(!new)>(cmp: (T, T) -> int, u: seq<T>, v: seq<T>) {
    forall k :: Class(cmp, u, k) == Class(cmp, v, k)
  }

  /** Puts x in front of the first element that is not below it. */
  ghost function Insert<T>(cmp: (T, T) -> int, x: T, s: seq<T>): seq<T> {
    if s == [] || cmp(x, s[0]) <= 0 then [x] + s else [s[0]] + Insert(cmp, x, s[1..])
  }

  ghost function StableSort<T>(cmp: (T, T) -> int, s: seq<T>): seq<T> {
    if s == [] then [] else Insert(cmp, s[0], StableSort(cmp, s[1..]))
  }

  /** Merges two sequences, taking from the first one on a tie. */
  ghost function Merge<T>(cmp: (T, T) -> int, s: seq<T>, t: seq<T>): seq<T> {
    if s == [] then t
    else if t == [] then s
    else if cmp(s[0], t[0]) <= 0 then [s[0]] + Merge(cmp, s[1..], t)
    else [t[0]] + Merge(cmp, s, t[1..])
  }

  lemma {:induction false} InsertElements<T>(cmp: (T, T) -> int, x: T, s: seq<T>)
    ensures multiset(Insert(cmp, x, s)) == multiset{x} + multiset(s)
  {
    if s != [] && cmp(x, s[0]) > 0 {
      InsertElements(cmp, x, s[1..]);
      assert s == [s[0]] + s[1..];
    }
  }

  lemma {:induction false} InsertSorted<T(!new)>(cmp: (T, T) -> int, x: T, s: seq<T>)
    requires Comparison(cmp) && Sorted(cmp, s)
    ensures Sorted(cmp, Insert(cmp, x, s))
  {
    if s != [] && cmp(x, s[0]) > 0 {
      InsertSorted(cmp, x, s[1..]);
      InsertElements(cmp, x, s[1..]);
      Flip(cmp, x, s[0]);
      hide Comparison;
      var r := Insert(cmp, x, s[1..]);
      forall y | y in r ensures cmp(s[0], y) <= 0 {
        assert y in multiset(r);
        assert y == x || y in s[1..];
      }
      PrependSorted(cmp, s[0], r);
    } else if s != [] {
      forall y | y in s ensures cmp(x, y) <= 0 {
        assert Chain(cmp, x, s[0], y);
      }
      hide Comparison;
      PrependSorted(cmp, x, s);
    }
  }

  lemma PrependSorted<T>(cmp: (T, T) -> int, x: T, s: seq<T>)
    requires Sorted(cmp, s) && forall y :: y in s ==> cmp(x, y) <= 0
    ensures Sorted(cmp, [x] + s)
  {
  }

  lemma {:induction false} InsertClass<T(!new)>(cmp: (T, T) -> int, x: T, s: seq<T>, k: T)
    requires Comparison(cmp)
    ensures Class(cmp, Insert(cmp, x, s), k) == Class(cmp, [x] + s, k)
  {
    if s != [] && cmp(x, s[0]) > 0 {
      InsertClass(cmp, x, s[1..], k);
      var r := Insert(cmp, x, s[1..]);
      assert ([s[0]] + r)[1..] == r;
      assert ([x] + s)[1..] == s;
      assert ([x] + s[1..])[1..] == s[1..];
      assert cmp(x, k) != 0 || cmp(s[0], k) != 0 by {
        assert Chain(cmp, x, k, s[0]);
      }
    }
  }

  /** A stable sort: sorted, a rearrangement, and elements that compare equal keep their order. */
  lemma {:induction false} StableSortCorrect<T(!new)>(cmp: (T, T) -> int, s: seq<T>)
    requires Comparison(cmp)
    ensures Sorted(cmp, StableSort(cmp, s))
    ensures multiset(StableSort(cmp, s)) == multiset(s)
    ensures SameClasses(cmp, StableSort(cmp, s), s)
  {
    if s != [] {
      hide Comparison, Sorted, Class;
      StableSortCorrect(cmp, s[1..]);
      var r := StableSort(cmp, s[1..]);
      InsertSorted(cmp, s[0], r);
      InsertElements(cmp, s[0], r);
      assert s == [s[0]] + s[1..];
      forall k ensures Class(cmp, StableSort(cmp, s), k) == Class(cmp, s, k) {
        InsertClass(cmp, s[0], r, k);
        assert Class(cmp, r, k) == Class(cmp, s[1..], k);
        ClassCons(cmp, s[0], r, k);
        ClassCons(cmp, s[0], s[1..], k);
      }
    }
  }

  lemma ClassCons<T>(cmp: (T, T) -> int, x: T, s: seq<T>, k: T)
    ensures Class(cmp, [x] + s, k) == (if cmp(x, k) == 0 then [x] else []) + Class(cmp, s, k)
  {
    assert ([x] + s)[1..] == s;
  }

  lemma {:induction false} ClassHead<T(!new)>(cmp: (T, T) -> int, s: seq<T>, k: T)
    requires Comparison(cmp)
    requires Class(cmp, s, k) != []
    ensures Class(cmp, s, k)[0] in s && cmp(Class(cmp, s, k)[0], k) == 0
  {
    if cmp(s[0], k) != 0 {
      ClassHead(cmp, s[1..], k);
    }
  }

  /** In a sorted sequence whose head is equal to k, the class of k starts with that head. */
  lemma HeadsAgree<T(!new)>(cmp: (T, T) -> int, u: seq<T>, v: seq<T>)
    requires Comparison(cmp) && Sorted(cmp, u) && Sorted(cmp, v)
    requires u != [] && v != []
    requires SameClasses(cmp, u, v)
    ensures u[0] == v[0]
  {
    assert cmp(u[0], u[0]) == 0 && cmp(v[0], v[0]) == 0;
    assert Class(cmp, u, u[0])[0] == u[0] && Class(cmp, v, v[0])[0] == v[0];
    ClassHead(cmp, v, u[0]);
    ClassHead(cmp, u, v[0]);
    assert cmp(v[0], u[0]) <= 0 by {
      var y := Class(cmp, v, u[0])[0];
      assert cmp(v[0], y) <= 0;
      assert Chain(cmp, v[0], y, u[0]);
    }
    assert cmp(u[0], v[0]) <= 0 by {
      var y := Class(cmp, u, v[0])[0];
      assert cmp(u[0], y) <= 0;
      assert Chain(cmp, u[0], y, v[0]);
    }
    assert cmp(v[0], u[0]) == 0;
    assert Class(cmp, v, u[0])[0] == v[0];
  }

  lemma TailClass<T>(cmp: (T, T) -> int, u: seq<T>, v: seq<T>, k: T)
    requires u != [] && v != [] && u[0] == v[0] && Class(cmp, u, k) == Class(cmp, v, k)
    ensures Class(cmp, u[1..], k) == Class(cmp, v[1..], k)
  {
    var h := if cmp(u[0], k) == 0 then [u[0]] else [];
    assert Class(cmp, u, k) == h + Class(cmp, u[1..], k);
    assert Class(cmp, v, k) == h + Class(cmp, v[1..], k);
    assert Class(cmp, u[1..], k) == (h + Class(cmp, u[1..], k))[|h|..];
  }

  lemma SameEmpty<T(!new)>(cmp: (T, T) -> int, u: seq<T>, v: seq<T>)
    requires Comparison(cmp) && SameClasses(cmp, u, v)
    ensures u == [] <==> v == []
  {
    assert u != [] ==> Class(cmp, u, u[0]) != [] && Class(cmp, v, u[0]) == Class(cmp, u, u[0]);
    assert v != [] ==> Class(cmp, v, v[0]) != [] && Class(cmp, v, v[0]) == Class(cmp, u, v[0]);
  }

  lemma {:induction false} SortedSameClasses<T(!new)>(cmp: (T, T) -> int, u: seq<T>, v: seq<T>)
    requires Comparison(cmp) && Sorted(cmp, u) && Sorted(cmp, v)
    requires SameClasses(cmp, u, v)
    ensures u == v
  {
    SameEmpty(cmp, u, v);
    if u != [] {
      HeadsAgree(cmp, u, v);
      hide Comparison, Class;
      forall k ensures Class(cmp, u[1..], k) == Class(cmp, v[1..], k) {
        assert Class(cmp, u, k) == Class(cmp, v, k);
        TailClass(cmp, u, v, k);
      }
      SortedSameClasses(cmp, u[1..], v[1..]);
      assert u == [u[0]] + u[1..] && v == [v[0]] + v[1..];
    }
  }

  /** Sortedness and stability together leave no choice: they determine the result. */
  lemma StableSortUnique<T(!new)>(cmp: (T, T) -> int, s: seq<T>, t: seq<T>)
    requires Comparison(cmp)
    ensures Sorted(cmp, t) && SameClasses(cmp, t, s) <==> t == StableSort(cmp, s)
  {
    StableSortCorrect(cmp, s);
    if Sorted(cmp, t) && SameClasses(cmp, t, s) {
      SortedSameClasses(cmp, t, StableSort(cmp, s));
    }
  }

  lemma {:induction false} MergeInsert<T(!new)>(cmp: (T, T) -> int, x: T, s: seq<T>, t: seq<T>)
    requires Comparison(cmp)
    ensures Merge(cmp, Insert(cmp, x, s), t) == Insert(cmp, x, Merge(cmp, s, t))
    decreases |s| + |t|
  {
    var i := Insert(cmp, x, s);
    if t == [] {
    } else if s == [] || cmp(x, s[0]) <= 0 {
      assert i[1..] == s;
      if cmp(x, t[0]) > 0 {
        MergeInsert(cmp, x, s, t[1..]);
        if s != [] {
          assert Chain(cmp, x, s[0], t[0]);
          assert cmp(s[0], t[0]) > 0;
          var m := Merge(cmp, s, t);
          assert m[1..] == Merge(cmp, s, t[1..]);
        }
      }
    } else {
      assert i[0] == s[0] && i[1..] == Insert(cmp, x, s[1..]);
      var m := Merge(cmp, s, t);
      if cmp(s[0], t[0]) <= 0 {
        MergeInsert(cmp, x, s[1..], t);
        assert m[1..] == Merge(cmp, s[1..], t);
      } else {
        MergeInsert(cmp, x, s, t[1..]);
        assert m[1..] == Merge(cmp, s, t[1..]);
        assert Chain(cmp, x, t[0], s[0]);
      }
    }
  }

  /** Merging the stable sorts of two halves is the stable sort of the whole. */
  lemma {:induction false} MergeOfSorts<T(!new)>(cmp: (T, T) -> int, x: seq<T>, y: seq<T>)
    requires Comparison(cmp)
    ensures Merge(cmp, StableSort(cmp, x), StableSort(cmp, y)) == StableSort(cmp, x + y)
  {
    if x == [] {
      assert x + y == y;
    } else {
      MergeOfSorts(cmp, x[1..], y);
      MergeInsert(cmp, x[0], StableSort(cmp, x[1..]), StableSort(cmp, y));
      assert (x + y)[1..] == x[1..] + y;
    }
  }
}
