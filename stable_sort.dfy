/**
 `Array.prototype.sort` with the table's comparator, as ECMA-262 requires it
 since ES2019 (section 23.1.3.30, "Array.prototype.sort", of ECMAScript 2023):
 a stable sort. It is modelled as a stable insertion sort over a sequence of
 elements, each compared through the cell value `key` extracts from it.
 */
module StableSort {
  import opened Cells
  import opened SortControl
  import opened Comparator

  /** Puts `x` in front of the first element of `t` it does not compare after. */
  function Insert<E(==)>(x: E, t: seq<E>, key: E -> Value, order: Direction): (r: seq<E>)
    ensures multiset(r) == multiset(t) + multiset{x}
    ensures |r| == |t| + 1
  {
    if t == [] then [x]
    else if Compare(key(x), key(t[0]), order) <= 0 then [x] + t
    else
      assert t == [t[0]] + t[1..];
      [t[0]] + Insert(x, t[1..], key, order)
  }

  /** The sequence `s` sorted by the comparator; an element that ties with a
      later one stays in front of it. The result is a permutation of `s`. */
  function SortBy<E(==)>(s: seq<E>, key: E -> Value, order: Direction): (r: seq<E>)
    ensures multiset(r) == multiset(s)
    ensures |r| == |s|
  {
    if s == [] then []
    else
      assert s == [s[0]] + s[1..];
      Insert(s[0], SortBy(s[1..], key, order), key, order)
  }

  /** Every element comes no later than every element after it. */
  predicate SortedBy<E>(s: seq<E>, key: E -> Value, order: Direction)
  {
    forall i, j :: 0 <= i < j < |s| ==> Compare(key(s[i]), key(s[j]), order) <= 0
  }

  /** No element with a present value comes after one whose value is null or undefined. */
  predicate NullsLast<E>(s: seq<E>, key: E -> Value)
  {
    forall i, j :: 0 <= i < j < |s| && key(s[i]).Null? ==> key(s[j]).Null?
  }

  /** No value of `s` is a string or other value. */
  predicate NumericOnly<E(==)>(s: seq<E>, key: E -> Value)
  {
    forall e :: e in s ==> !IsTextual(key(e))
  }

  /** No value of `s` is a number. */
  predicate TextualOnly<E(==)>(s: seq<E>, key: E -> Value)
  {
    forall e :: e in s ==> !key(e).Num?
  }

  /** The values of the elements do not mix numbers with strings or other values. */
  predicate Homogeneous<E(==)>(s: seq<E>, key: E -> Value)
  {
    NumericOnly(s, key) || TextualOnly(s, key)
  }

  /** Ties with `v` are an equivalence over `s`: `v` is null, or `s` and `v`
      together do not mix numbers with strings or other values. */
  predicate TieConsistent<E(==)>(s: seq<E>, key: E -> Value, v: Value)
  {
    v.Null? || (NumericOnly(s, key) && !IsTextual(v)) || (TextualOnly(s, key) && !v.Num?)
  }

  /** The elements of `s` whose value ties with `v`, in the order of `s`. */
  function Tied<E>(s: seq<E>, key: E -> Value, v: Value, order: Direction): (r: seq<E>)
    ensures |r| <= |s|
  {
    if s == [] then []
    else (if Compare(key(s[0]), v, order) == 0 then [s[0]] else []) + Tied(s[1..], key, v, order)
  }

  lemma HomogeneousCompatible<E>(s: seq<E>, key: E -> Value, a: E, b: E)
    requires Homogeneous(s, key) && a in s && b in s
    ensures Compatible(key(a), key(b))
  {
  }

  lemma TieConsistentCompatible<E>(s: seq<E>, key: E -> Value, v: Value, a: E, b: E)
    requires TieConsistent(s, key, v) && !v.Null? && a in s && b in s
    ensures Compatible(key(a), key(b)) && Compatible(key(a), v) && Compatible(v, key(b))
  {
  }

  /** A member of `Insert(x, t)` other than `x` sits at some index of `t`. */
  lemma MemberOfInsert<E>(x: E, t: seq<E>, key: E -> Value, order: Direction, e: E)
    requires e in Insert(x, t, key, order) && e != x
    ensures exists k :: 0 <= k < |t| && t[k] == e
  {
    var r := Insert(x, t, key, order);
    assert e in multiset(r);
    assert e in multiset(t);
    assert e in t;
  }

  lemma TailMembers<E>(y: E, t: seq<E>)
    requires t != []
    ensures forall e :: e in [y] + t[1..] ==> e in [y] + t
  {
    forall e | e in [y] + t[1..] ensures e in [y] + t {
      if e != y {
        var k :| 0 <= k < |t[1..]| && t[1..][k] == e;
        assert t[k + 1] == e;
      }
    }
  }

  /** The members of `[s[0]] + SortBy(s[1..])`, and of `s[1..]`, are members of `s`. */
  lemma SortedMembers<E>(s: seq<E>, key: E -> Value, order: Direction)
    requires s != []
    ensures forall e :: e in s[1..] ==> e in s
    ensures forall e :: e in [s[0]] + SortBy(s[1..], key, order) ==> e in s
  {
    var sorted := SortBy(s[1..], key, order);
    forall e | e in [s[0]] + sorted ensures e in s {
      if e != s[0] {
        assert e in multiset(sorted);
        assert e in multiset(s[1..]);
        assert e in s[1..];
      }
    }
  }

  lemma HomogeneousOfMembers<E>(u: seq<E>, s: seq<E>, key: E -> Value)
    requires forall e :: e in u ==> e in s
    requires Homogeneous(s, key)
    ensures Homogeneous(u, key)
  {
  }

  lemma TieConsistentOfMembers<E>(u: seq<E>, s: seq<E>, key: E -> Value, v: Value)
    requires forall e :: e in u ==> e in s
    requires TieConsistent(s, key, v)
    ensures TieConsistent(u, key, v)
  {
  }

  lemma SortedCons<E>(y: E, u: seq<E>, key: E -> Value, order: Direction)
    requires SortedBy(u, key, order)
    requires forall j :: 0 <= j < |u| ==> Compare(key(y), key(u[j]), order) <= 0
    ensures SortedBy([y] + u, key, order)
  {
    var r := [y] + u;
    forall i, j | 0 <= i < j < |r| ensures Compare(key(r[i]), key(r[j]), order) <= 0 {
      if i == 0 {
        assert r[j] == u[j - 1];
      } else {
        assert r[i] == u[i - 1] && r[j] == u[j - 1];
      }
    }
  }

  // ---------------------------------------------------------------- nulls last

  lemma {:induction false} InsertNullsLast<E>(x: E, t: seq<E>, key: E -> Value, order: Direction)
    requires NullsLast(t, key)
    ensures NullsLast(Insert(x, t, key, order), key)
  {
    var r := Insert(x, t, key, order);
    if t == [] {
    } else if Compare(key(x), key(t[0]), order) <= 0 {
      assert r == [x] + t;
      if key(x).Null? {
        assert key(t[0]).Null?;
        assert NullsLast(r, key) by {
          forall i, j | 0 <= i < j < |r| && key(r[i]).Null? ensures key(r[j]).Null? {
            assert r[j] == t[j - 1];
            if i > 0 {
              assert r[i] == t[i - 1];
            }
          }
        }
      }
    } else {
      var rest := Insert(x, t[1..], key, order);
      assert r == [t[0]] + rest;
      assert NullsLast(t[1..], key) by {
        forall i, j | 0 <= i < j < |t[1..]| && key(t[1..][i]).Null? ensures key(t[1..][j]).Null? {
          assert t[1..][i] == t[i + 1] && t[1..][j] == t[j + 1];
        }
      }
      InsertNullsLast(x, t[1..], key, order);
      assert !key(t[0]).Null?;
      assert NullsLast(r, key) by {
        forall i, j | 0 <= i < j < |r| && key(r[i]).Null? ensures key(r[j]).Null? {
          assert i > 0;
          assert r[i] == rest[i - 1] && r[j] == rest[j - 1];
        }
      }
    }
  }

  /** The sorted sequence puts every null or undefined value last, in both
      directions and whatever the values are. */
  lemma {:induction false} SortByNullsLast<E>(s: seq<E>, key: E -> Value, order: Direction)
    ensures NullsLast(SortBy(s, key, order), key)
  {
    if s != [] {
      SortByNullsLast(s[1..], key, order);
      InsertNullsLast(s[0], SortBy(s[1..], key, order), key, order);
    }
  }

  // ------------------------------------------------------------------- sorted

  lemma {:induction false} InsertSorted<E>(x: E, t: seq<E>, key: E -> Value, order: Direction)
    requires SortedBy(t, key, order)
    requires Homogeneous([x] + t, key)
    ensures SortedBy(Insert(x, t, key, order), key, order)
  {
    if t == [] {
      assert Insert(x, t, key, order) == [x];
    } else if Compare(key(x), key(t[0]), order) <= 0 {
      assert Insert(x, t, key, order) == [x] + t;
      forall j | 0 <= j < |t| ensures Compare(key(x), key(t[j]), order) <= 0 {
        if j > 0 {
          HomogeneousCompatible([x] + t, key, x, t[0]);
          HomogeneousCompatible([x] + t, key, t[0], t[j]);
          HomogeneousCompatible([x] + t, key, x, t[j]);
          CompareTransitive(key(x), key(t[0]), key(t[j]), order);
        }
      }
      SortedCons(x, t, key, order);
    } else {
      var rest := Insert(x, t[1..], key, order);
      assert Insert(x, t, key, order) == [t[0]] + rest;
      TailMembers(x, t);
      HomogeneousOfMembers([x] + t[1..], [x] + t, key);
      assert SortedBy(t[1..], key, order) by {
        forall i, j | 0 <= i < j < |t[1..]| ensures Compare(key(t[1..][i]), key(t[1..][j]), order) <= 0 {
          assert t[1..][i] == t[i + 1] && t[1..][j] == t[j + 1];
        }
      }
      InsertSorted(x, t[1..], key, order);
      CompareAntisymmetric(key(x), key(t[0]), order);
      forall j | 0 <= j < |rest| ensures Compare(key(t[0]), key(rest[j]), order) <= 0 {
        assert rest[j] in rest;
        if rest[j] != x {
          MemberOfInsert(x, t[1..], key, order, rest[j]);
          var k :| 0 <= k < |t[1..]| && t[1..][k] == rest[j];
          assert t[k + 1] == rest[j];
        }
      }
      SortedCons(t[0], rest, key, order);
    }
  }

  /** Over values that do not mix numbers with strings, the result is sorted:
      no element compares after one that follows it. */
  lemma {:induction false} SortBySorted<E>(s: seq<E>, key: E -> Value, order: Direction)
    requires Homogeneous(s, key)
    ensures SortedBy(SortBy(s, key, order), key, order)
  {
    if s != [] {
      var sorted := SortBy(s[1..], key, order);
      HomogeneousOfMembers(s[1..], s, key);
      SortBySorted(s[1..], key, order);
      SortedMembers(s, key, order);
      HomogeneousOfMembers([s[0]] + sorted, s, key);
      InsertSorted(s[0], sorted, key, order);
    }
  }

  // ------------------------------------------------------------------- stable

  lemma TiedCons<E>(y: E, u: seq<E>, key: E -> Value, v: Value, order: Direction)
    ensures Tied([y] + u, key, v, order) == (if Compare(key(y), v, order) == 0 then [y] else []) + Tied(u, key, v, order)
  {
    assert ([y] + u)[1..] == u;
  }

  lemma {:induction false} InsertTied<E>(x: E, t: seq<E>, key: E -> Value, v: Value, order: Direction)
    requires TieConsistent([x] + t, key, v)
    ensures Tied(Insert(x, t, key, order), key, v, order)
         == (if Compare(key(x), v, order) == 0 then [x] else []) + Tied(t, key, v, order)
  {
    if t == [] {
      assert Insert(x, t, key, order) == [x] + [];
      TiedCons(x, [], key, v, order);
    } else if Compare(key(x), key(t[0]), order) <= 0 {
      assert Insert(x, t, key, order) == [x] + t;
      TiedCons(x, t, key, v, order);
    } else {
      TailMembers(x, t);
      TieConsistentOfMembers([x] + t[1..], [x] + t, key, v);
      InsertTied(x, t[1..], key, v, order);
      InsertTiedPastHead(x, t, key, v, order);
    }
  }

  /** The step of `InsertTied` where `x` moves past `t[0]`. */
  lemma InsertTiedPastHead<E>(x: E, t: seq<E>, key: E -> Value, v: Value, order: Direction)
    requires t != [] && Compare(key(x), key(t[0]), order) > 0
    requires TieConsistent([x] + t, key, v)
    requires Tied(Insert(x, t[1..], key, order), key, v, order)
          == (if Compare(key(x), v, order) == 0 then [x] else []) + Tied(t[1..], key, v, order)
    ensures Tied(Insert(x, t, key, order), key, v, order)
         == (if Compare(key(x), v, order) == 0 then [x] else []) + Tied(t, key, v, order)
  {
    var tx := if Compare(key(x), v, order) == 0 then [x] else [];
    var t0 := if Compare(key(t[0]), v, order) == 0 then [t[0]] else [];
    var rest := Insert(x, t[1..], key, order);
    assert Insert(x, t, key, order) == [t[0]] + rest;
    TiedCons(t[0], rest, key, v, order);
    assert Tied(t, key, v, order) == t0 + Tied(t[1..], key, v, order) by {
      assert t == [t[0]] + t[1..];
      TiedCons(t[0], t[1..], key, v, order);
    }
    assert tx == [] || t0 == [] by {
      if Compare(key(x), v, order) == 0 && Compare(key(t[0]), v, order) == 0 {
        NoTwoTiesAcrossGap(x, t[0], [x] + t, key, v, order);
      }
    }
    var t1 := Tied(t[1..], key, v, order);
    SwapAroundEmpty(t0, tx, t1);
  }

  /** When one of two prefixes is empty, their order does not matter. */
  lemma SwapAroundEmpty<E>(a: seq<E>, b: seq<E>, c: seq<E>)
    requires a == [] || b == []
    ensures a + (b + c) == b + (a + c)
  {
    if a == [] {
      assert a + (b + c) == b + c;
      assert a + c == c;
    } else {
      assert b + (a + c) == a + c;
      assert b + c == c;
    }
  }

  /** Two elements that both tie with `v` tie with each other. */
  lemma NoTwoTiesAcrossGap<E>(a: E, b: E, s: seq<E>, key: E -> Value, v: Value, order: Direction)
    requires TieConsistent(s, key, v) && a in s && b in s
    requires Compare(key(a), v, order) == 0 && Compare(key(b), v, order) == 0
    ensures Compare(key(a), key(b), order) == 0
  {
    if !v.Null? {
      TieConsistentCompatible(s, key, v, a, b);
      CompareAntisymmetric(key(b), v, order);
      TieTransitive(key(a), v, key(b), order);
    }
  }

  /** Stability: the elements that tie with any one value keep their original
      relative order. For `v` null this holds of every sequence. */
  lemma {:induction false} SortByStable<E>(s: seq<E>, key: E -> Value, v: Value, order: Direction)
    requires TieConsistent(s, key, v)
    ensures Tied(SortBy(s, key, order), key, v, order) == Tied(s, key, v, order)
  {
    if s != [] {
      var sorted := SortBy(s[1..], key, order);
      TieConsistentOfMembers(s[1..], s, key, v);
      SortByStable(s[1..], key, v, order);
      SortedMembers(s, key, order);
      TieConsistentOfMembers([s[0]] + sorted, s, key, v);
      InsertTied(s[0], sorted, key, v, order);
    }
  }

  // ------------------------------------------------------------ projections

  /** `s.map(f)`. */
  function MapSeq<E, F>(s: seq<E>, f: E -> F): (r: seq<F>)
    ensures |r| == |s|
    ensures forall i :: 0 <= i < |s| ==> r[i] == f(s[i])
  {
    if s == [] then [] else [f(s[0])] + MapSeq(s[1..], f)
  }

  lemma {:induction false} InsertMap<E, F>(x: E, t: seq<E>, f: E -> F, keyE: E -> Value, keyF: F -> Value, order: Direction)
    requires forall e :: keyE(e) == keyF(f(e))
    ensures MapSeq(Insert(x, t, keyE, order), f) == Insert(f(x), MapSeq(t, f), keyF, order)
  {
    if t != [] {
      var ft := MapSeq(t, f);
      assert ft[0] == f(t[0]);
      assert ft[1..] == MapSeq(t[1..], f);
      if Compare(keyE(x), keyE(t[0]), order) > 0 {
        InsertMap(x, t[1..], f, keyE, keyF, order);
        assert MapSeq([t[0]] + Insert(x, t[1..], keyE, order), f)
            == [f(t[0])] + MapSeq(Insert(x, t[1..], keyE, order), f);
      } else {
        assert MapSeq([x] + t, f) == [f(x)] + ft;
      }
    }
  }

  /** Sorting commutes with a projection that keeps the compared value: sorting
      decorated elements and dropping the decoration gives the plain sort. */
  lemma {:induction false} SortByMap<E, F>(s: seq<E>, f: E -> F, keyE: E -> Value, keyF: F -> Value, order: Direction)
    requires forall e :: keyE(e) == keyF(f(e))
    ensures MapSeq(SortBy(s, keyE, order), f) == SortBy(MapSeq(s, f), keyF, order)
  {
    if s != [] {
      var fs := MapSeq(s, f);
      assert fs[0] == f(s[0]);
      assert fs[1..] == MapSeq(s[1..], f);
      SortByMap(s[1..], f, keyE, keyF, order);
      InsertMap(s[0], SortBy(s[1..], keyE, order), f, keyE, keyF, order);
    }
  }
}
