/** Sequence operations behind `Array.prototype.filter`, `includes` and
    `indexOf`, with the facts the builder's proofs use. */
module Seqs {

  /** `s.filter(keep)`. */
  function Keep<T>(s: seq<T>, keep: T -> bool): (r: seq<T>)
    ensures |r| <= |s|
  {
    if s == [] then [] else (if keep(s[0]) then [s[0]] else []) + Keep(s[1..], keep)
  }

  /** An element survives the filter exactly when it was there and passes. */
  lemma {:induction false} KeepMembership<T>(s: seq<T>, keep: T -> bool, x: T)
    ensures x in Keep(s, keep) <==> x in s && keep(x)
  {
    if s != [] {
      KeepMembership(s[1..], keep, x);
      assert s == [s[0]] + s[1..];
    }
  }

  /** `KeepMembership` for every element at once. */
  lemma KeepMembers<T>(s: seq<T>, keep: T -> bool)
    ensures forall x :: x in Keep(s, keep) <==> x in s && keep(x)
  {
    forall x {
      KeepMembership(s, keep, x);
    }
  }

  /** Filtering distributes over concatenation: together with
      `KeepSingleton` this says the survivors keep their relative order. */
  lemma {:induction false} KeepConcat<T>(s: seq<T>, t: seq<T>, keep: T -> bool)
    ensures Keep(s + t, keep) == Keep(s, keep) + Keep(t, keep)
  {
    if s == [] {
      assert s + t == t;
    } else {
      var head := if keep(s[0]) then [s[0]] else [];
      assert (s + t)[0] == s[0] && (s + t)[1..] == s[1..] + t;
      KeepConcat(s[1..], t, keep);
      calc {
        Keep(s + t, keep);
        head + Keep(s[1..] + t, keep);
        head + (Keep(s[1..], keep) + Keep(t, keep));
        (head + Keep(s[1..], keep)) + Keep(t, keep);
      }
    }
  }

  lemma KeepSingleton<T>(x: T, keep: T -> bool)
    ensures Keep([x], keep) == if keep(x) then [x] else []
  {
    assert [x][1..] == [];
  }

  /** Nothing is dropped when every element passes. */
  lemma {:induction false} KeepAll<T>(s: seq<T>, keep: T -> bool)
    requires forall i :: 0 <= i < |s| ==> keep(s[i])
    ensures Keep(s, keep) == s
  {
    if s != [] {
      KeepAll(s[1..], keep);
    }
  }

  /** A filter that rejects exactly one position removes exactly that
      element. */
  lemma {:induction false} KeepDropsOne<T>(s: seq<T>, keep: T -> bool, i: nat)
    requires i < |s| && !keep(s[i])
    requires forall j :: 0 <= j < |s| && j != i ==> keep(s[j])
    ensures Keep(s, keep) == s[..i] + s[i + 1..]
  {
    if i == 0 {
      KeepAll(s[1..], keep);
    } else {
      KeepDropsOne(s[1..], keep, i - 1);
      assert s[1..][..i - 1] + s[1..][i..] == s[1..i] + s[i + 1..];
      assert [s[0]] + s[1..i] == s[..i];
    }
  }

  /** A filter and its complement split a sequence without loss. */
  lemma {:induction false} KeepSplit<T>(s: seq<T>, keep: T -> bool, drop: T -> bool)
    requires forall x :: drop(x) == !keep(x)
    ensures multiset(Keep(s, keep)) + multiset(Keep(s, drop)) == multiset(s)
  {
    if s != [] {
      var h, t := s[0], s[1..];
      KeepSplit(t, keep, drop);
      assert s == [h] + t;
      assert multiset(s) == multiset{h} + multiset(t);
      if keep(h) {
        assert !drop(h);
        assert Keep(s, keep) == [h] + Keep(t, keep);
        assert Keep(s, drop) == Keep(t, drop);
        assert multiset(Keep(s, keep)) == multiset{h} + multiset(Keep(t, keep));
      } else {
        assert drop(h);
        assert Keep(s, keep) == Keep(t, keep);
        assert Keep(s, drop) == [h] + Keep(t, drop);
        assert multiset(Keep(s, drop)) == multiset{h} + multiset(Keep(t, drop));
      }
    }
  }

  /** Every element differs from every later one. */
  predicate Distinct<T(==)>(s: seq<T>) {
    forall i, j :: 0 <= i < j < |s| ==> s[i] != s[j]
  }

  /** A new element in front of a duplicate-free sequence. */
  lemma ConsDistinct<T>(x: T, s: seq<T>)
    requires Distinct(s) && x !in s
    ensures Distinct([x] + s)
  {
    forall i, j | 0 <= i < j < |[x] + s| ensures ([x] + s)[i] != ([x] + s)[j] {
      assert ([x] + s)[j] == s[j - 1];
      if i > 0 {
        assert ([x] + s)[i] == s[i - 1];
      }
    }
  }

  /** Two duplicate-free sequences with no element in common. */
  lemma DistinctConcat<T>(s: seq<T>, t: seq<T>)
    requires Distinct(s) && Distinct(t)
    requires forall x :: x in s ==> x !in t
    ensures Distinct(s + t)
  {
    forall i, j | 0 <= i < j < |s + t| ensures (s + t)[i] != (s + t)[j] {
      if j < |s| {
        assert (s + t)[i] == s[i] && (s + t)[j] == s[j];
      } else if i >= |s| {
        assert (s + t)[i] == t[i - |s|] && (s + t)[j] == t[j - |s|];
      } else {
        assert (s + t)[i] == s[i] && s[i] in s;
        assert (s + t)[j] == t[j - |s|];
      }
    }
  }

  /** A filter of a duplicate-free sequence is duplicate-free. */
  lemma {:induction false} KeepDistinct<T>(s: seq<T>, keep: T -> bool)
    requires Distinct(s)
    ensures Distinct(Keep(s, keep))
  {
    if s != [] {
      KeepDistinct(s[1..], keep);
      KeepMembership(s[1..], keep, s[0]);
      assert s[0] !in s[1..] by {
        forall i | 0 <= i < |s[1..]| ensures s[1..][i] != s[0] {
          assert s[1..][i] == s[i + 1];
        }
      }
    }
  }

  /** No two elements share a key. */
  predicate DistinctBy<T, K(==)>(s: seq<T>, key: T -> K) {
    forall i, j :: 0 <= i < j < |s| ==> key(s[i]) != key(s[j])
  }

  /** A filter keeps elements with distinct keys apart: the survivors are a
      subsequence. */
  lemma {:induction false} KeepDistinctBy<T, K>(s: seq<T>, keep: T -> bool, key: T -> K)
    requires DistinctBy(s, key)
    ensures DistinctBy(Keep(s, keep), key)
  {
    if s != [] {
      var rest := Keep(s[1..], keep);
      KeepDistinctBy(s[1..], keep, key);
      if keep(s[0]) {
        var r := [s[0]] + rest;
        assert Keep(s, keep) == r;
        forall i, j | 0 <= i < j < |r| ensures key(r[i]) != key(r[j]) {
          assert r[j] == rest[j - 1];
          if i == 0 {
            KeepMembership(s[1..], keep, rest[j - 1]);
            var k :| 0 <= k < |s[1..]| && s[1..][k] == rest[j - 1];
            assert s[k + 1] == rest[j - 1];
          } else {
            assert r[i] == rest[i - 1];
          }
        }
      } else {
        assert Keep(s, keep) == rest;
      }
    }
  }

  /** `s.indexOf(x)` for an `x` that occurs in `s`. */
  function IndexOf<T(==)>(s: seq<T>, x: T): (r: nat)
    requires x in s
    ensures r < |s| && s[r] == x
    ensures forall i :: 0 <= i < r ==> s[i] != x
  {
    if s[0] == x then 0 else 1 + IndexOf(s[1..], x)
  }

  /** The position of an element that is already present does not move when
      something is appended; a new element lands at the end. */
  lemma IndexOfAppend<T>(s: seq<T>, x: T, y: T)
    requires y in s + [x]
    ensures IndexOf(s + [x], y) == if y in s then IndexOf(s, y) else |s|
  {
    var i := IndexOf(s + [x], y);
    if y in s {
      var k := IndexOf(s, y);
      assert (s + [x])[k] == y;
    } else {
      assert forall j :: 0 <= j < |s| ==> (s + [x])[j] != y;
    }
  }
}
