/** Small vocabulary shared by every part of the model: optional values,
    results, the unsigned 32-bit ids KSP uses for parts, order-preserving
    filters over sequences and the ascending enumeration of an id set. */
module Common {

  /** C# `uint` (part flightID, part persistentId). */
  type uint32 = x: int | 0 <= x < 0x1_0000_0000

  /** A reference that may be null. */
  datatype Option<+T> = None | Some(value: T)

  /** A value or the exception the source would throw. */
  datatype Result<+T, +E> = Success(value: T) | Failure(error: E)

  /** The ETA text a workshop shows: either "Stalled..." or
      "Time left: <seconds>" (the time formatting itself is not modelled). */
  datatype EtaDisplay = Stalled | TimeLeft(seconds: real)

  function MinReal(a: real, b: real): (m: real)
    ensures m <= a && m <= b
    ensures m == a || m == b
  {
    if a <= b then a else b
  }

  function MaxReal(a: real, b: real): (m: real)
    ensures a <= m && b <= m
    ensures m == a || m == b
  {
    if a >= b then a else b
  }

  function AbsReal(x: real): (a: real)
    ensures a >= 0.0
    ensures a == x || a == -x
  {
    if x < 0.0 then -x else x
  }

  /** `amount` scaled by the fraction `f`. */
  function Scale(amount: real, f: real): real {
    amount * f
  }

  /** The share `part` is of `whole`. */
  function Ratio(part: real, whole: real): real
    requires whole > 0.0
  {
    part / whole
  }

  /** A fraction in [0, 1] scales an amount down, never below zero. */
  lemma ScaleWithin(amount: real, f: real)
    requires 0.0 <= amount && 0.0 <= f <= 1.0
    ensures 0.0 <= Scale(amount, f) <= amount
  {
  }

  /** Dividing by a positive whole and scaling back gives the part again;
      a non-negative part gives a non-negative share. */
  lemma RatioInverse(part: real, whole: real)
    requires whole > 0.0
    ensures Scale(whole, Ratio(part, whole)) == part
    ensures part >= 0.0 ==> Ratio(part, whole) >= 0.0
  {
  }

  /** A part between nothing and the whole is a share in [0, 1] of it, and
      scaling the whole by that share gives the part back. */
  lemma RatioBounds(part: real, whole: real)
    requires 0.0 < whole && 0.0 <= part <= whole
    ensures 0.0 <= Ratio(part, whole) <= 1.0
    ensures Scale(whole, Ratio(part, whole)) == part
  {
  }

  /** A positive amount scaled by a positive fraction stays positive. */
  lemma ScalePositive(amount: real, f: real)
    requires amount > 0.0 && f > 0.0
    ensures Scale(amount, f) > 0.0
  {
  }

  /** A part of at most `x` wholes is at most `x` wholes' share. */
  lemma RatioAtMost(part: real, whole: real, x: real)
    requires whole > 0.0 && part <= Scale(x, whole)
    ensures Ratio(part, whole) <= x
  {
    assert Scale(x, whole) == x * whole;
    assert part / whole <= x;
  }

  /** A larger fraction scales a non-negative amount to at least as much. */
  lemma ScaleMonotonic(amount: real, f: real, g: real)
    requires 0.0 <= amount && f <= g
    ensures Scale(amount, f) <= Scale(amount, g)
  {
    assert Scale(amount, g) - Scale(amount, f) == amount * (g - f);
  }

  /** No element occurs twice. */
  ghost predicate NoDuplicates<T>(s: seq<T>) {
    forall i, j :: 0 <= i < j < |s| ==> s[i] != s[j]
  }

  /** The elements of `s` that lie in `keep`, in their original order. */
  function Keep<T>(s: seq<T>, keep: set<T>): (r: seq<T>)
    ensures forall i :: 0 <= i < |r| ==> r[i] in s && r[i] in keep
    ensures forall i :: 0 <= i < |s| && s[i] in keep ==> s[i] in r
    ensures |r| <= |s|
  {
    if |s| == 0 then []
    else Keep(s[..|s| - 1], keep) + (if s[|s| - 1] in keep then [s[|s| - 1]] else [])
  }

  /** The elements of `s` that lie outside `drop`, in their original order. */
  function Drop<T>(s: seq<T>, drop: set<T>): (r: seq<T>)
    ensures forall i :: 0 <= i < |r| ==> r[i] in s && r[i] !in drop
    ensures forall i :: 0 <= i < |s| && s[i] !in drop ==> s[i] in r
    ensures |r| <= |s|
  {
    if |s| == 0 then []
    else Drop(s[..|s| - 1], drop) + (if s[|s| - 1] in drop then [] else [s[|s| - 1]])
  }

  lemma {:induction false} KeepAppend<T>(a: seq<T>, b: seq<T>, keep: set<T>)
    ensures Keep(a + b, keep) == Keep(a, keep) + Keep(b, keep)
    decreases |b|
  {
    if |b| == 0 {
      assert a + b == a;
    } else {
      var b' := b[..|b| - 1];
      assert (a + b)[..|a + b| - 1] == a + b';
      KeepAppend(a, b', keep);
    }
  }

  lemma {:induction false} DropAppend<T>(a: seq<T>, b: seq<T>, drop: set<T>)
    ensures Drop(a + b, drop) == Drop(a, drop) + Drop(b, drop)
    decreases |b|
  {
    if |b| == 0 {
      assert a + b == a;
    } else {
      var b' := b[..|b| - 1];
      assert (a + b)[..|a + b| - 1] == a + b';
      DropAppend(a, b', drop);
    }
  }

  /** Keeping a superset of the elements changes nothing. */
  lemma {:induction false} KeepAll<T>(s: seq<T>, keep: set<T>)
    requires forall i :: 0 <= i < |s| ==> s[i] in keep
    ensures Keep(s, keep) == s
    decreases |s|
  {
    if |s| > 0 {
      KeepAll(s[..|s| - 1], keep);
      assert s[..|s| - 1] + [s[|s| - 1]] == s;
    }
  }

  /** Dropping elements that never occur changes nothing. */
  lemma {:induction false} DropNone<T>(s: seq<T>, drop: set<T>)
    requires forall i :: 0 <= i < |s| ==> s[i] !in drop
    ensures Drop(s, drop) == s
    decreases |s|
  {
    if |s| > 0 {
      DropNone(s[..|s| - 1], drop);
      assert s[..|s| - 1] + [s[|s| - 1]] == s;
    }
  }

  /** Dropping the last element keeps a sequence free of duplicates, and
      the last element does not occur before it. */
  lemma NoDuplicatesInit<T>(s: seq<T>)
    requires NoDuplicates(s) && |s| > 0
    ensures NoDuplicates(s[..|s| - 1])
    ensures s[|s| - 1] !in s[..|s| - 1]
  {
    var init := s[..|s| - 1];
    forall i, j | 0 <= i < j < |init| ensures init[i] != init[j] {
      assert init[i] == s[i] && init[j] == s[j];
    }
    forall i | 0 <= i < |init| ensures init[i] != s[|s| - 1] {
      assert init[i] == s[i];
    }
  }

  /** Order-preserving filters keep the absence of duplicates. */
  lemma {:induction false} KeepNoDuplicates<T>(s: seq<T>, keep: set<T>)
    requires NoDuplicates(s)
    ensures NoDuplicates(Keep(s, keep))
    decreases |s|
  {
    if |s| > 0 {
      var init := s[..|s| - 1];
      assert NoDuplicates(init) by {
        forall i, j | 0 <= i < j < |init| ensures init[i] != init[j] {
          assert init[i] == s[i] && init[j] == s[j];
        }
      }
      KeepNoDuplicates(init, keep);
      var last := s[|s| - 1];
      assert last !in init by {
        forall i | 0 <= i < |init| ensures init[i] != last {
          assert init[i] == s[i];
        }
      }
    }
  }

  lemma {:induction false} DropNoDuplicates<T>(s: seq<T>, drop: set<T>)
    requires NoDuplicates(s)
    ensures NoDuplicates(Drop(s, drop))
    decreases |s|
  {
    if |s| > 0 {
      NoDuplicatesInit(s);
      DropNoDuplicates(s[..|s| - 1], drop);
    }
  }

  /** Dropping one set and then another drops their union. */
  lemma {:induction false} DropTwice<T>(s: seq<T>, a: set<T>, b: set<T>)
    ensures Drop(Drop(s, a), b) == Drop(s, a + b)
    decreases |s|
  {
    if |s| > 0 {
      var init := s[..|s| - 1];
      var last := s[|s| - 1];
      DropTwice(init, a, b);
      DropAppend(Drop(init, a), if last in a then [] else [last], b);
      if last !in a {
        assert [last][..0] == [];
        assert Drop([last], b) == Drop([], b) + (if last in b then [] else [last]);
      }
    }
  }

  /** Dropping exactly the elements outside `keep` is keeping the rest. */
  lemma {:induction false} DropIsKeep<T>(s: seq<T>, drop: set<T>, keep: set<T>)
    requires forall i :: 0 <= i < |s| ==> (s[i] in drop <==> s[i] !in keep)
    ensures Drop(s, drop) == Keep(s, keep)
    decreases |s|
  {
    if |s| > 0 {
      DropIsKeep(s[..|s| - 1], drop, keep);
    }
  }

  /** C# List.Remove: deletes the first occurrence of `x`, if any. */
  function RemoveFirst<T(==)>(s: seq<T>, x: T): (r: seq<T>)
    ensures x in s ==> |r| == |s| - 1
    ensures x !in s ==> r == s
  {
    if |s| == 0 then []
    else if s[0] == x then s[1..]
    else [s[0]] + RemoveFirst(s[1..], x)
  }

  /** Removing an element just appended, and nowhere else, restores the sequence. */
  lemma {:induction false} RemoveFirstLast<T>(s: seq<T>, x: T)
    requires x !in s
    ensures RemoveFirst(s + [x], x) == s
    decreases |s|
  {
    if |s| > 0 {
      assert (s + [x])[1..] == s[1..] + [x];
      RemoveFirstLast(s[1..], x);
      assert s == [s[0]] + s[1..];
    }
  }

  /** Dropping from a sequence given by its head. */
  lemma DropCons<T>(a: T, t: seq<T>, drop: set<T>)
    ensures Drop([a] + t, drop) == (if a in drop then [] else [a]) + Drop(t, drop)
  {
    DropAppend([a], t, drop);
    assert Drop([a], drop) == (if a in drop then [] else [a]) by {
      assert [a][..|[a]| - 1] == [];
      assert Drop([a], drop) == Drop([], drop) + (if a in drop then [] else [a]);
    }
  }

  /** On a duplicate-free sequence, removing the first occurrence is the
      same as filtering the element out: the other elements keep their order. */
  lemma {:induction false} RemoveFirstIsDrop<T>(s: seq<T>, x: T)
    requires NoDuplicates(s)
    ensures RemoveFirst(s, x) == Drop(s, {x})
    decreases |s|
  {
    if |s| > 0 {
      var t := s[1..];
      assert s == [s[0]] + t;
      DropCons(s[0], t, {x});
      if s[0] == x {
        forall i | 0 <= i < |t| ensures t[i] !in {x} {
          assert t[i] == s[i + 1];
        }
        DropNone(t, {x});
        assert RemoveFirst(s, x) == t;
      } else {
        forall i, j | 0 <= i < j < |t| ensures t[i] != t[j] {
          assert t[i] == s[i + 1] && t[j] == s[j + 1];
        }
        RemoveFirstIsDrop(t, x);
        assert RemoveFirst(s, x) == [s[0]] + RemoveFirst(t, x);
      }
    }
  }

  /** A duplicate-free sequence has as many distinct elements as entries. */
  lemma {:induction false} DistinctCardinality<T>(s: seq<T>)
    requires NoDuplicates(s)
    ensures |set x | x in s| == |s|
    decreases |s|
  {
    if |s| > 0 {
      var init := s[..|s| - 1];
      var last := s[|s| - 1];
      assert NoDuplicates(init) by {
        forall i, j | 0 <= i < j < |init| ensures init[i] != init[j] {
          assert init[i] == s[i] && init[j] == s[j];
        }
      }
      DistinctCardinality(init);
      assert last !in init by {
        forall i | 0 <= i < |init| ensures init[i] != last {
          assert init[i] == s[i];
        }
      }
      assert (set x | x in s) == (set x | x in init) + {last} by {
        assert s == init + [last];
      }
    }
  }

  /** Any set holding exactly the elements of a duplicate-free sequence
      has as many elements as the sequence. */
  lemma DistinctCardinalityOf<T>(s: seq<T>, elems: set<T>)
    requires NoDuplicates(s)
    requires forall x :: x in elems <==> x in s
    ensures |elems| == |s|
  {
    DistinctCardinality(s);
    assert elems == set x | x in s;
  }

  /** The least element of a non-empty id set. */
  function MinId(s: set<uint32>): (m: uint32)
    requires s != {}
    ensures m in s
    ensures forall x :: x in s ==> m <= x
  {
    MinIdExists(s);
    var m :| m in s && forall x :: x in s ==> m <= x;
    m
  }

  lemma MinIdExists(s: set<uint32>)
    requires s != {}
    ensures exists m :: m in s && forall x :: x in s ==> m <= x
  {
    var m := LeastId(s);
  }

  /** The least element, found by removing an arbitrary element and recursing. */
  ghost function LeastId(s: set<uint32>): (m: uint32)
    requires s != {}
    ensures m in s
    ensures forall x :: x in s ==> m <= x
  {
    var x :| x in s;
    if s == {x} then x
    else
      var y := LeastId(s - {x});
      assert forall z :: z in s ==> z == x || z in s - {x};
      if x < y then x else y
  }

  /** The ids of `s` in ascending order (SortedDictionary enumeration,
      and the order List.Sort by id produces). */
  function SortedIds(s: set<uint32>): (r: seq<uint32>)
    ensures |r| == |s|
    ensures forall x :: x in r <==> x in s
    ensures forall i, j :: 0 <= i < j < |r| ==> r[i] < r[j]
    decreases |s|
  {
    if s == {} then []
    else
      var m := MinId(s);
      var rest := SortedIds(s - {m});
      PrependLeast(s, m, rest);
      [m] + rest
  }

  /** Putting the least element in front of the ascending enumeration of
      the others enumerates the whole set in ascending order. */
  lemma PrependLeast(s: set<uint32>, m: uint32, rest: seq<uint32>)
    requires m in s && forall x :: x in s ==> m <= x
    requires |rest| == |s - {m}|
    requires forall x :: x in rest <==> x in s - {m}
    requires forall i, j :: 0 <= i < j < |rest| ==> rest[i] < rest[j]
    ensures |[m] + rest| == |s|
    ensures forall x :: x in [m] + rest <==> x in s
    ensures forall i, j :: 0 <= i < j < |[m] + rest| ==> ([m] + rest)[i] < ([m] + rest)[j]
  {
    var r := [m] + rest;
    assert |s - {m}| == |s| - 1;
    forall i, j | 0 <= i < j < |r| ensures r[i] < r[j] {
      assert r[j] == rest[j - 1];
      if i == 0 {
        assert rest[j - 1] in s - {m};
      } else {
        assert r[i] == rest[i - 1];
      }
    }
  }

  lemma SortedIdsNoDuplicates(s: set<uint32>)
    ensures NoDuplicates(SortedIds(s))
  {
  }

  /** Two strictly increasing id sequences with the same elements are equal. */
  lemma {:induction false} SortedIdsUnique(a: seq<uint32>, b: seq<uint32>)
    requires |a| == |b|
    requires forall i, j :: 0 <= i < j < |a| ==> a[i] < a[j]
    requires forall i, j :: 0 <= i < j < |b| ==> b[i] < b[j]
    requires forall x :: x in a <==> x in b
    ensures a == b
    decreases |a|
  {
    if |a| > 0 {
      assert a[0] == b[0] by {
        assert a[0] in b && b[0] in a;
      }
      assert forall x :: x in a[1..] <==> x in b[1..] by {
        forall x ensures x in a[1..] <==> x in b[1..] {
          if x in a[1..] {
            assert x in b && x != b[0];
          }
          if x in b[1..] {
            assert x in a && x != a[0];
          }
        }
      }
      SortedIdsUnique(a[1..], b[1..]);
      assert a == [a[0]] + a[1..] && b == [b[0]] + b[1..];
    }
  }

  /** The ascending enumeration of a set is the one strictly increasing
      sequence holding exactly its elements. */
  lemma SortedIdsOf(s: set<uint32>, a: seq<uint32>)
    requires forall i, j :: 0 <= i < j < |a| ==> a[i] < a[j]
    requires forall x :: x in a <==> x in s
    ensures SortedIds(s) == a
  {
    assert NoDuplicates(a);
    DistinctCardinality(a);
    var elems: set<uint32> := set x | x in a;
    assert |elems| == |a|;
    assert elems == s;
    SortedIdsUnique(a, SortedIds(s));
  }
}
