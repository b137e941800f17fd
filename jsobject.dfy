/** The JSON value the builder hands to `JSON.stringify`, and the two
    behaviours of JavaScript objects that decide what comes out:

    - keyed assignment `obj[k] = v` creates a property at the end when `k` is
      new and replaces the value in place when `k` already exists;
    - enumeration (section 10.1.11.1 of ECMA-262, OrdinaryOwnPropertyKeys,
      used by JSON.stringify through section 25.5.2) lists the array-index
      keys first, in ascending numeric order, and every other string key
      after them, in the order the properties were created.

    An object is its members in creation order; `OwnKeyOrder` gives the order
    in which they are written out. */
module JsObject {
  import opened Wrappers
  import opened Text
  import opened Seqs

  datatype Json =
    | JString(str: string)
    | JArray(items: seq<Json>)
    | JObject(members: seq<Member>)

  datatype Member = Member(key: string, value: Json)

  function Keys(ms: seq<Member>): (ks: seq<string>)
    ensures |ks| == |ms|
    ensures forall i :: 0 <= i < |ms| ==> ks[i] == ms[i].key
  {
    seq(|ms|, i requires 0 <= i < |ms| => ms[i].key)
  }

  /** `obj[k]`: the value of the property named `k`, if there is one. */
  function Lookup(ms: seq<Member>, k: string): (r: Option<Json>)
    ensures r.None? <==> k !in Keys(ms)
  {
    if k in Keys(ms) then Some(ms[IndexOf(Keys(ms), k)].value) else None
  }

  /** `obj[k] = v`. */
  function Assign(ms: seq<Member>, k: string, v: Json): (r: seq<Member>)
    ensures k in Keys(r)
    ensures |r| == if k in Keys(ms) then |ms| else |ms| + 1
  {
    if k in Keys(ms) then
      var i := IndexOf(Keys(ms), k);
      assert Keys(ms[i := Member(k, v)])[i] == k;
      ms[i := Member(k, v)]
    else
      assert Keys(ms + [Member(k, v)])[|ms|] == k;
      ms + [Member(k, v)]
  }

  /** Assignment to an existing key keeps every key where it was; a new key
      is added at the end. */
  lemma AssignKeys(ms: seq<Member>, k: string, v: Json)
    ensures Keys(Assign(ms, k, v)) == if k in Keys(ms) then Keys(ms) else Keys(ms) + [k]
  {
  }

  /** After `obj[k] = v`, reading `k` gives `v` and every other key reads as
      before. */
  lemma AssignLookup(ms: seq<Member>, k: string, v: Json, k': string)
    ensures Lookup(Assign(ms, k, v), k') == if k' == k then Some(v) else Lookup(ms, k')
  {
    AssignKeys(ms, k, v);
    var r := Assign(ms, k, v);
    if k' in Keys(ms) {
      var i := IndexOf(Keys(ms), k');
      assert IndexOf(Keys(r), k') == i by {
        if k in Keys(ms) {
          assert Keys(r) == Keys(ms);
        } else {
          IndexOfAppend(Keys(ms), k, k');
        }
      }
    } else if k' == k {
      IndexOfAppend(Keys(ms), k, k');
    }
  }

  /** Assignment never creates a second property with the same key. */
  lemma AssignDistinct(ms: seq<Member>, k: string, v: Json)
    requires Distinct(Keys(ms))
    ensures Distinct(Keys(Assign(ms, k, v)))
  {
    AssignKeys(ms, k, v);
    if k !in Keys(ms) {
      DistinctConcat(Keys(ms), [k]);
    }
  }

  /** The loop `for each (k, v) of ps: obj[k] = v`, in order. */
  function AssignAll(ms: seq<Member>, ps: seq<Member>): (r: seq<Member>)
    ensures |ms| <= |r| <= |ms| + |ps|
    decreases |ps|
  {
    if ps == [] then ms
    else
      var last := ps[|ps| - 1];
      Assign(AssignAll(ms, ps[..|ps| - 1]), last.key, last.value)
  }

  /** One more step of the loop. */
  lemma AssignAllStep(ms: seq<Member>, ps: seq<Member>, i: nat)
    requires i < |ps|
    ensures AssignAll(ms, ps[..i + 1]) == Assign(AssignAll(ms, ps[..i]), ps[i].key, ps[i].value)
  {
    assert ps[..i + 1][..i] == ps[..i];
  }

  /** An object with a single property. */
  lemma Singleton(k: string, v: Json)
    ensures Keys([Member(k, v)]) == [k]
    ensures Lookup([Member(k, v)], k) == Some(v)
  {
    assert Keys([Member(k, v)])[0] == k;
  }

  /** A key is present after the loop exactly when it was present before
      or is assigned by it. */
  lemma {:induction false} AssignAllHas(ms: seq<Member>, ps: seq<Member>, k: string)
    ensures k in Keys(AssignAll(ms, ps)) <==> k in Keys(ms) || k in Keys(ps)
    decreases |ps|
  {
    if ps != [] {
      var init := ps[..|ps| - 1];
      var last := ps[|ps| - 1];
      var r := AssignAll(ms, init);
      AssignAllHas(ms, init, k);
      AssignKeys(r, last.key, last.value);
      assert AssignAll(ms, ps) == Assign(r, last.key, last.value);
      KeysSnoc(ps);
    }
  }

  /** The keys of a non-empty list: those of all but the last member, then
      the last member's. */
  lemma KeysSnoc(ps: seq<Member>)
    requires ps != []
    ensures Keys(ps) == Keys(ps[..|ps| - 1]) + [ps[|ps| - 1].key]
  {
  }

  /** The keys after the loop are the keys before it followed by the new
      keys, each once: the old keys stay in front, unmoved. */
  lemma AssignAllKeys(ms: seq<Member>, ps: seq<Member>, k: string)
    requires Distinct(Keys(ms))
    ensures Distinct(Keys(AssignAll(ms, ps)))
    ensures |AssignAll(ms, ps)| >= |ms| && Keys(AssignAll(ms, ps))[..|ms|] == Keys(ms)
    ensures k in Keys(AssignAll(ms, ps)) <==> k in Keys(ms) || k in Keys(ps)
  {
    AssignAllPrefix(ms, ps);
    AssignAllHas(ms, ps, k);
  }

  /** The old keys stay in front, unmoved, and no key appears twice. */
  lemma {:induction false} AssignAllPrefix(ms: seq<Member>, ps: seq<Member>)
    requires Distinct(Keys(ms))
    ensures Distinct(Keys(AssignAll(ms, ps)))
    ensures |AssignAll(ms, ps)| >= |ms| && Keys(AssignAll(ms, ps))[..|ms|] == Keys(ms)
    decreases |ps|
  {
    if ps != [] {
      var init := ps[..|ps| - 1];
      var last := ps[|ps| - 1];
      var r := AssignAll(ms, init);
      AssignAllPrefix(ms, init);
      assert AssignAll(ms, ps) == Assign(r, last.key, last.value);
      AssignKeys(r, last.key, last.value);
      AssignDistinct(r, last.key, last.value);
      if last.key !in Keys(r) {
        assert (Keys(r) + [last.key])[..|ms|] == Keys(r)[..|ms|];
      }
    }
  }

  /** A key assigned more than once carries the value of its last
      assignment. */
  lemma {:induction false} AssignAllLookupLast(ms: seq<Member>, ps: seq<Member>, i: nat)
    requires i < |ps|
    requires forall j :: i < j < |ps| ==> ps[j].key != ps[i].key
    ensures Lookup(AssignAll(ms, ps), ps[i].key) == Some(ps[i].value)
    decreases |ps|
  {
    var init := ps[..|ps| - 1];
    var last := ps[|ps| - 1];
    AssignLookup(AssignAll(ms, init), last.key, last.value, ps[i].key);
    if i < |ps| - 1 {
      assert init[i] == ps[i];
      AssignAllLookupLast(ms, init, i);
    }
  }

  /** A key that is never assigned keeps its old value (or stays absent). */
  lemma {:induction false} AssignAllLookupUnassigned(ms: seq<Member>, ps: seq<Member>, k: string)
    requires k !in Keys(ps)
    ensures Lookup(AssignAll(ms, ps), k) == Lookup(ms, k)
    decreases |ps|
  {
    if ps != [] {
      var init := ps[..|ps| - 1];
      var last := ps[|ps| - 1];
      assert Keys(ps) == Keys(init) + [last.key];
      AssignAllLookupUnassigned(ms, init, k);
      AssignLookup(AssignAll(ms, init), last.key, last.value, k);
    }
  }

  /** Keys come out of the loop in the order of their first assignment:
      for two keys of the result, one precedes the other exactly when its
      first occurrence in the old keys followed by the assigned keys comes
      first. */
  lemma {:induction false} AssignAllOrder(ms: seq<Member>, ps: seq<Member>, a: string, b: string)
    requires a in Keys(AssignAll(ms, ps)) && b in Keys(AssignAll(ms, ps))
    ensures a in Keys(ms) + Keys(ps) && b in Keys(ms) + Keys(ps)
    ensures IndexOf(Keys(AssignAll(ms, ps)), a) < IndexOf(Keys(AssignAll(ms, ps)), b)
        <==> IndexOf(Keys(ms) + Keys(ps), a) < IndexOf(Keys(ms) + Keys(ps), b)
    decreases |ps|
  {
    AssignAllHas(ms, ps, a);
    AssignAllHas(ms, ps, b);
    if ps != [] {
      var init := ps[..|ps| - 1];
      var last := ps[|ps| - 1];
      var r := AssignAll(ms, init);
      assert Keys(ms) + Keys(ps) == (Keys(ms) + Keys(init)) + [last.key] by {
        assert Keys(ps) == Keys(init) + [last.key];
      }
      AssignAllHas(ms, init, a);
      AssignAllHas(ms, init, b);
      AssignAllHas(ms, init, last.key);
      AssignKeys(r, last.key, last.value);
      if a in Keys(r) && b in Keys(r) {
        AssignAllOrder(ms, init, a, b);
      }
      AppendOrderStep(Keys(r), Keys(ms) + Keys(init), last.key, a, b);
    } else {
      assert Keys(ms) + Keys(ps) == Keys(ms);
    }
  }

  /** One step of `AssignAllOrder`: appending `k` to the creation list, and
      to the keys when it is new there, keeps the two orders in agreement. */
  lemma AppendOrderStep(ks: seq<string>, c: seq<string>, k: string, a: string, b: string)
    requires (a in ks <==> a in c) && (b in ks <==> b in c) && (k in ks <==> k in c)
    requires a in ks && b in ks ==> (IndexOf(ks, a) < IndexOf(ks, b) <==> IndexOf(c, a) < IndexOf(c, b))
    requires var ks' := if k in ks then ks else ks + [k]; a in ks' && b in ks'
    ensures var ks' := if k in ks then ks else ks + [k];
      IndexOf(ks', a) < IndexOf(ks', b) <==> IndexOf(c + [k], a) < IndexOf(c + [k], b)
  {
    IndexOfAppend(c, k, a);
    IndexOfAppend(c, k, b);
    if k !in ks {
      IndexOfAppend(ks, k, a);
      IndexOfAppend(ks, k, b);
    }
  }

  // ---------------------------------------------------------------------
  // Enumeration order (ECMA-262, section 10.1.11.1)

  /** 2^32 - 1: array indices are the integers below it. */
  const ArrayIndexBound: nat := 4294967295

  /** An array index: a canonical numeric string (the decimal form
      `toString` would give, so no leading zeros) of an integer below
      2^32 - 1. */
  predicate IsArrayIndex(k: string) {
    IsCanonicalDigits(k) && DigitsValue(k) < ArrayIndexBound
  }

  /** The numeric value of an array-index key (0 for any other key). */
  function IndexValue(k: string): nat {
    if IsArrayIndex(k) then DigitsValue(k) else 0
  }

  /** The definition above is the one of ECMA-262 section 6.1.7: exactly the
      strings that are `ToString(n)` for an integer `n` below 2^32 - 1. */
  lemma IsArrayIndexIff(k: string)
    ensures IsArrayIndex(k) <==> exists n: nat :: n < ArrayIndexBound && NatToString(n) == k
  {
    if IsArrayIndex(k) {
      CanonicalDigitsRoundTrip(k);
      assert NatToString(DigitsValue(k)) == k;
    }
    forall n: nat | n < ArrayIndexBound && NatToString(n) == k ensures IsArrayIndex(k) {
      NatToStringValue(n);
    }
  }

  predicate IsIndexMember(m: Member) {
    IsArrayIndex(m.key)
  }

  predicate IsOtherMember(m: Member) {
    !IsArrayIndex(m.key)
  }

  predicate SortedByIndex(ms: seq<Member>) {
    forall i, j :: 0 <= i < j < |ms| ==> IndexValue(ms[i].key) <= IndexValue(ms[j].key)
  }

  /** Insert one member into a list sorted by index value. */
  function InsertByIndex(m: Member, ms: seq<Member>): (r: seq<Member>)
    ensures multiset(r) == multiset(ms) + multiset{m}
  {
    if ms == [] || IndexValue(m.key) <= IndexValue(ms[0].key) then [m] + ms
    else
      assert ms == [ms[0]] + ms[1..];
      [ms[0]] + InsertByIndex(m, ms[1..])
  }

  /** Inserting above a lower bound of the list keeps that bound. */
  lemma {:induction false} InsertByIndexAbove(m: Member, ms: seq<Member>, v: nat)
    requires v <= IndexValue(m.key)
    requires forall i :: 0 <= i < |ms| ==> v <= IndexValue(ms[i].key)
    ensures forall i :: 0 <= i < |InsertByIndex(m, ms)| ==> v <= IndexValue(InsertByIndex(m, ms)[i].key)
  {
    if ms != [] && IndexValue(m.key) > IndexValue(ms[0].key) {
      InsertByIndexAbove(m, ms[1..], v);
    }
  }

  /** A list sorted by index value with a smallest member put in front. */
  lemma SortedCons(m: Member, ms: seq<Member>)
    requires SortedByIndex(ms)
    requires forall i :: 0 <= i < |ms| ==> IndexValue(m.key) <= IndexValue(ms[i].key)
    ensures SortedByIndex([m] + ms)
  {
    var r := [m] + ms;
    forall i, j | 0 <= i < j < |r| ensures IndexValue(r[i].key) <= IndexValue(r[j].key) {
      assert r[j] == ms[j - 1];
      if i > 0 {
        assert r[i] == ms[i - 1];
      }
    }
  }

  lemma {:induction false} InsertByIndexSorted(m: Member, ms: seq<Member>)
    requires SortedByIndex(ms)
    ensures SortedByIndex(InsertByIndex(m, ms))
  {
    if ms != [] && IndexValue(m.key) > IndexValue(ms[0].key) {
      var rest := InsertByIndex(m, ms[1..]);
      assert SortedByIndex(ms[1..]);
      InsertByIndexSorted(m, ms[1..]);
      assert forall i :: 0 <= i < |ms[1..]| ==> ms[1..][i] == ms[i + 1];
      InsertByIndexAbove(m, ms[1..], IndexValue(ms[0].key));
      SortedCons(ms[0], rest);
    } else {
      SortedCons(m, ms);
    }
  }

  /** Inserting adds the member's key to the keys and nothing else. */
  lemma {:induction false} InsertByIndexKeys(m: Member, ms: seq<Member>, k: string)
    ensures k in Keys(InsertByIndex(m, ms)) <==> k == m.key || k in Keys(ms)
  {
    if ms == [] || IndexValue(m.key) <= IndexValue(ms[0].key) {
      KeysConcat([m], ms);
    } else {
      InsertByIndexKeys(m, ms[1..], k);
      KeysConcat([ms[0]], InsertByIndex(m, ms[1..]));
      assert ms == [ms[0]] + ms[1..];
      KeysConcat([ms[0]], ms[1..]);
    }
  }

  /** Inserting a member whose key is new keeps the keys distinct. */
  lemma {:induction false} InsertByIndexDistinct(m: Member, ms: seq<Member>)
    requires Distinct(Keys(ms)) && m.key !in Keys(ms)
    ensures Distinct(Keys(InsertByIndex(m, ms)))
  {
    if ms != [] && IndexValue(m.key) > IndexValue(ms[0].key) {
      var rest := InsertByIndex(m, ms[1..]);
      assert Keys(ms[1..]) == Keys(ms)[1..];
      InsertByIndexDistinct(m, ms[1..]);
      InsertByIndexKeys(m, ms[1..], ms[0].key);
      assert ms[0].key == Keys(ms)[0];
      KeysConcat([ms[0]], rest);
      ConsDistinct(ms[0].key, Keys(rest));
    } else {
      KeysConcat([m], ms);
      ConsDistinct(m.key, Keys(ms));
    }
  }

  /** Ascending numeric order of the array-index members. */
  function SortByIndex(ms: seq<Member>): (r: seq<Member>)
    ensures multiset(r) == multiset(ms)
  {
    if ms == [] then []
    else
      assert ms == [ms[0]] + ms[1..];
      InsertByIndex(ms[0], SortByIndex(ms[1..]))
  }

  /** Sorting orders by index value. */
  lemma {:induction false} SortByIndexSorted(ms: seq<Member>)
    ensures SortedByIndex(SortByIndex(ms))
  {
    if ms != [] {
      SortByIndexSorted(ms[1..]);
      InsertByIndexSorted(ms[0], SortByIndex(ms[1..]));
    }
  }

  /** Sorting keeps distinct keys distinct. */
  lemma {:induction false} SortByIndexDistinct(ms: seq<Member>)
    requires Distinct(Keys(ms))
    ensures Distinct(Keys(SortByIndex(ms)))
  {
    if ms != [] {
      var rest := SortByIndex(ms[1..]);
      assert Keys(ms[1..]) == Keys(ms)[1..];
      SortByIndexDistinct(ms[1..]);
      assert ms[0].key !in Keys(rest) by {
        forall i | 0 <= i < |rest| ensures rest[i].key != ms[0].key {
          assert rest[i] in multiset(rest);
          var j :| 0 <= j < |ms[1..]| && ms[1..][j] == rest[i];
          assert Keys(ms)[j + 1] == rest[i].key;
        }
      }
      InsertByIndexDistinct(ms[0], rest);
    }
  }

  /** A filter keeps distinct keys distinct. */
  lemma {:induction false} KeepDistinctKeys(ms: seq<Member>, keep: Member -> bool)
    requires Distinct(Keys(ms))
    ensures Distinct(Keys(Keep(ms, keep)))
  {
    if ms != [] {
      var rest := Keep(ms[1..], keep);
      assert Keys(ms[1..]) == Keys(ms)[1..];
      KeepDistinctKeys(ms[1..], keep);
      forall i | 0 <= i < |rest| ensures rest[i].key != ms[0].key {
        KeepMembership(ms[1..], keep, rest[i]);
        var j :| 0 <= j < |ms[1..]| && ms[1..][j] == rest[i];
        assert Keys(ms)[j + 1] == rest[i].key;
      }
    }
  }

  /** The order in which JSON.stringify writes an object's members. */
  function OwnKeyOrder(ms: seq<Member>): (r: seq<Member>)
    ensures |r| == |ms|
  {
    var index, other := Keep(ms, IsIndexMember), Keep(ms, IsOtherMember);
    KeepSplit(ms, IsIndexMember, IsOtherMember);
    assert |multiset(ms)| == |multiset(index)| + |multiset(other)|;
    assert |SortByIndex(index)| == |multiset(SortByIndex(index))|;
    SortByIndex(index) + other
  }

  /** An object with at most one member is written as it is. */
  lemma OwnKeyOrderShort(ms: seq<Member>)
    requires |ms| <= 1
    ensures OwnKeyOrder(ms) == ms
  {
    if ms != [] {
      OwnKeyOrderPermutes(ms);
      assert ms == [ms[0]];
      assert OwnKeyOrder(ms)[0] in multiset(OwnKeyOrder(ms));
    }
  }

  /** Enumeration writes every member exactly once, and nothing else. */
  lemma OwnKeyOrderPermutes(ms: seq<Member>)
    ensures multiset(OwnKeyOrder(ms)) == multiset(ms)
  {
    KeepSplit(ms, IsIndexMember, IsOtherMember);
  }

  /** Array-index keys come first, in ascending numeric order; the other
      keys follow in creation order. */
  lemma OwnKeyOrderShape(ms: seq<Member>)
    ensures var r := OwnKeyOrder(ms);
      && (forall i, j :: 0 <= i < j < |r| && IsArrayIndex(r[j].key) ==> IsArrayIndex(r[i].key))
      && (forall i, j :: 0 <= i < j < |r| && IsArrayIndex(r[j].key) ==> IndexValue(r[i].key) <= IndexValue(r[j].key))
      && Keep(r, IsOtherMember) == Keep(ms, IsOtherMember)
  {
    var ix := SortByIndex(Keep(ms, IsIndexMember));
    var ot := Keep(ms, IsOtherMember);
    var r := ix + ot;
    SortByIndexSorted(Keep(ms, IsIndexMember));
    forall i | 0 <= i < |ix| ensures IsArrayIndex(ix[i].key) {
      assert ix[i] in multiset(ix);
      KeepMembership(ms, IsIndexMember, ix[i]);
    }
    forall i | 0 <= i < |ot| ensures !IsArrayIndex(ot[i].key) {
      KeepMembership(ms, IsOtherMember, ot[i]);
    }
    KeepConcat(ix, ot, IsOtherMember);
    KeepAll(ot, IsOtherMember);
    assert Keep(ix, IsOtherMember) == [] by {
      KeepNoneOfIndex(ix);
    }
  }

  lemma {:induction false} KeepNoneOfIndex(ix: seq<Member>)
    requires forall i :: 0 <= i < |ix| ==> IsArrayIndex(ix[i].key)
    ensures Keep(ix, IsOtherMember) == []
  {
    if ix != [] {
      KeepNoneOfIndex(ix[1..]);
    }
  }

  /** Every member of the sorted part has an array-index key, every member
      of the rest has another key. */
  lemma OwnKeyOrderParts(ms: seq<Member>)
    ensures forall m :: m in SortByIndex(Keep(ms, IsIndexMember)) ==> m in ms && IsArrayIndex(m.key)
    ensures forall m :: m in Keep(ms, IsOtherMember) ==> m in ms && !IsArrayIndex(m.key)
  {
    var ix := SortByIndex(Keep(ms, IsIndexMember));
    forall m | m in ix ensures m in ms && IsArrayIndex(m.key) {
      assert m in multiset(ix);
      KeepMembership(ms, IsIndexMember, m);
    }
    forall m | m in Keep(ms, IsOtherMember) ensures m in ms && !IsArrayIndex(m.key) {
      KeepMembership(ms, IsOtherMember, m);
    }
  }

  /** When the first member's key is not an array index, that member is
      written right after the array-index members, and a key is written
      before it exactly when it is an array index. */
  lemma OwnKeyOrderFirstOther(ms: seq<Member>)
    requires ms != [] && !IsArrayIndex(ms[0].key)
    ensures var r := OwnKeyOrder(ms);
      var n := |SortByIndex(Keep(ms, IsIndexMember))|;
      && n < |r| && r[n] == ms[0]
      && (forall i :: 0 <= i < |r| ==> (IsArrayIndex(r[i].key) <==> i < n))
  {
    var ix := SortByIndex(Keep(ms, IsIndexMember));
    var ot := Keep(ms, IsOtherMember);
    var r := ix + ot;
    var n := |ix|;
    OwnKeyOrderParts(ms);
    assert ms == [ms[0]] + ms[1..];
    assert ot == [ms[0]] + Keep(ms[1..], IsOtherMember);
    forall i | 0 <= i < |r| ensures IsArrayIndex(r[i].key) <==> i < n {
      if i < n {
        assert r[i] == ix[i] && r[i] in ix;
      } else {
        assert r[i] == ot[i - n] && r[i] in ot;
      }
    }
  }

  /** Enumeration of an object (whose keys are distinct) lists each key once. */
  lemma OwnKeyOrderDistinct(ms: seq<Member>)
    requires Distinct(Keys(ms))
    ensures Distinct(Keys(OwnKeyOrder(ms)))
  {
    var ix := SortByIndex(Keep(ms, IsIndexMember));
    var ot := Keep(ms, IsOtherMember);
    KeepDistinctKeys(ms, IsIndexMember);
    KeepDistinctKeys(ms, IsOtherMember);
    SortByIndexDistinct(Keep(ms, IsIndexMember));
    OwnKeyOrderParts(ms);
    forall k | k in Keys(ix) ensures k !in Keys(ot) {
      var i :| 0 <= i < |ix| && Keys(ix)[i] == k;
      assert ix[i] in ix;
      forall j | 0 <= j < |ot| ensures Keys(ot)[j] != k {
        assert ot[j] in ot;
      }
    }
    KeysConcat(ix, ot);
    DistinctConcat(Keys(ix), Keys(ot));
  }

  /** With distinct keys the array-index keys come out in strictly
      ascending numeric order. */
  lemma OwnKeyOrderStrict(ms: seq<Member>, i: nat, j: nat)
    requires Distinct(Keys(ms))
    requires i < j < |OwnKeyOrder(ms)| && IsArrayIndex(OwnKeyOrder(ms)[j].key)
    ensures IndexValue(OwnKeyOrder(ms)[i].key) < IndexValue(OwnKeyOrder(ms)[j].key)
  {
    var ix := SortByIndex(Keep(ms, IsIndexMember));
    var ot := Keep(ms, IsOtherMember);
    var r := ix + ot;
    KeepDistinctKeys(ms, IsIndexMember);
    SortByIndexSorted(Keep(ms, IsIndexMember));
    SortByIndexDistinct(Keep(ms, IsIndexMember));
    OwnKeyOrderParts(ms);
    assert r[j] !in ot;
    assert j < |ix|;
    assert r[i] == ix[i] && r[j] == ix[j] && r[i] in ix;
    assert Keys(ix)[i] != Keys(ix)[j];
    CanonicalDigitsInjective(r[i].key, r[j].key);
  }

  /** When the first member created has a key that is not an array index,
      the keys written before it are exactly the array-index keys, in
      strictly ascending order. */
  lemma OwnKeyOrderAroundFirst(ms: seq<Member>)
    requires Distinct(Keys(ms)) && ms != [] && !IsArrayIndex(ms[0].key)
    ensures var ks := Keys(OwnKeyOrder(ms));
      && ms[0].key in ks
      && (forall i :: 0 <= i < |ks| ==> (IsArrayIndex(ks[i]) <==> i < IndexOf(ks, ms[0].key)))
      && (forall i, j :: 0 <= i < j < IndexOf(ks, ms[0].key) ==> IndexValue(ks[i]) < IndexValue(ks[j]))
  {
    var ks := Keys(OwnKeyOrder(ms));
    var n := |SortByIndex(Keep(ms, IsIndexMember))|;
    OwnKeyOrderFirstOther(ms);
    assert ks[n] == ms[0].key;
    assert IndexOf(ks, ms[0].key) == n;
    forall i, j | 0 <= i < j < n ensures IndexValue(ks[i]) < IndexValue(ks[j]) {
      OwnKeyOrderStrict(ms, i, j);
    }
  }

  /** What JSON.stringify writes: the same tree with every object's members
      in enumeration order. */
  function Emit(j: Json): (r: Json)
    ensures j.JString? ==> r == j
    ensures j.JArray? ==> r.JArray? && |r.items| == |j.items|
    ensures j.JObject? ==> r.JObject? && |r.members| == |j.members|
    decreases j, 1
  {
    match j
    case JString(_) => j
    case JArray(items) => JArray(EmitItems(items))
    case JObject(ms) => JObject(OwnKeyOrder(EmitMembers(ms)))
  }

  function EmitItems(items: seq<Json>): (r: seq<Json>)
    ensures |r| == |items|
    decreases items, 0
  {
    if items == [] then [] else [Emit(items[0])] + EmitItems(items[1..])
  }

  function EmitMembers(ms: seq<Member>): (r: seq<Member>)
    ensures Keys(r) == Keys(ms)
    decreases ms, 0
  {
    if ms == [] then [] else [Member(ms[0].key, Emit(ms[0].value))] + EmitMembers(ms[1..])
  }

  // ---------------------------------------------------------------------
  // The enumeration order depends on the keys alone

  lemma KeysConcat(a: seq<Member>, b: seq<Member>)
    ensures Keys(a + b) == Keys(a) + Keys(b)
  {
  }

  lemma {:induction false} KeepIndexByKeys(ms: seq<Member>, ns: seq<Member>)
    requires Keys(ms) == Keys(ns)
    ensures Keys(Keep(ms, IsIndexMember)) == Keys(Keep(ns, IsIndexMember))
  {
    if ms != [] {
      assert ms[0].key == Keys(ms)[0] == Keys(ns)[0] == ns[0].key;
      assert Keys(ms[1..]) == Keys(ms)[1..] && Keys(ns[1..]) == Keys(ns)[1..];
      KeepIndexByKeys(ms[1..], ns[1..]);
      if IsIndexMember(ms[0]) {
        KeysConcat([ms[0]], Keep(ms[1..], IsIndexMember));
        KeysConcat([ns[0]], Keep(ns[1..], IsIndexMember));
      }
    }
  }

  lemma {:induction false} KeepOtherByKeys(ms: seq<Member>, ns: seq<Member>)
    requires Keys(ms) == Keys(ns)
    ensures Keys(Keep(ms, IsOtherMember)) == Keys(Keep(ns, IsOtherMember))
  {
    if ms != [] {
      assert ms[0].key == Keys(ms)[0] == Keys(ns)[0] == ns[0].key;
      assert Keys(ms[1..]) == Keys(ms)[1..] && Keys(ns[1..]) == Keys(ns)[1..];
      KeepOtherByKeys(ms[1..], ns[1..]);
      if IsOtherMember(ms[0]) {
        KeysConcat([ms[0]], Keep(ms[1..], IsOtherMember));
        KeysConcat([ns[0]], Keep(ns[1..], IsOtherMember));
      }
    }
  }

  lemma {:induction false} InsertByKeys(m: Member, ms: seq<Member>, n: Member, ns: seq<Member>)
    requires m.key == n.key && Keys(ms) == Keys(ns)
    ensures Keys(InsertByIndex(m, ms)) == Keys(InsertByIndex(n, ns))
  {
    if ms != [] {
      assert ms[0].key == Keys(ms)[0] == Keys(ns)[0] == ns[0].key;
      assert Keys(ms[1..]) == Keys(ms)[1..] && Keys(ns[1..]) == Keys(ns)[1..];
      if IndexValue(m.key) <= IndexValue(ms[0].key) {
        KeysConcat([m], ms);
        KeysConcat([n], ns);
      } else {
        InsertByKeys(m, ms[1..], n, ns[1..]);
        var a, b := InsertByIndex(m, ms[1..]), InsertByIndex(n, ns[1..]);
        KeysConcat([ms[0]], a);
        KeysConcat([ns[0]], b);
      }
    }
  }

  lemma {:induction false} SortByKeys(ms: seq<Member>, ns: seq<Member>)
    requires Keys(ms) == Keys(ns)
    ensures Keys(SortByIndex(ms)) == Keys(SortByIndex(ns))
  {
    if ms != [] {
      assert ms[0].key == Keys(ms)[0] == Keys(ns)[0] == ns[0].key;
      assert Keys(ms[1..]) == Keys(ms)[1..] && Keys(ns[1..]) == Keys(ns)[1..];
      SortByKeys(ms[1..], ns[1..]);
      InsertByKeys(ms[0], SortByIndex(ms[1..]), ns[0], SortByIndex(ns[1..]));
    }
  }

  /** Two objects with the same keys in the same creation order are written
      with their keys in the same order, whatever their values. */
  lemma OwnKeyOrderByKeys(ms: seq<Member>, ns: seq<Member>)
    requires Keys(ms) == Keys(ns)
    ensures Keys(OwnKeyOrder(ms)) == Keys(OwnKeyOrder(ns))
  {
    KeepIndexByKeys(ms, ns);
    KeepOtherByKeys(ms, ns);
    SortByKeys(Keep(ms, IsIndexMember), Keep(ns, IsIndexMember));
    var a, b := SortByIndex(Keep(ms, IsIndexMember)), Keep(ms, IsOtherMember);
    var c, d := SortByIndex(Keep(ns, IsIndexMember)), Keep(ns, IsOtherMember);
    KeysConcat(a, b);
    KeysConcat(c, d);
  }

  /** Writing an object lists its keys in enumeration order of its
      creation-order keys. */
  lemma EmitObjectKeys(ms: seq<Member>)
    ensures Emit(JObject(ms)).JObject?
    ensures Keys(Emit(JObject(ms)).members) == Keys(OwnKeyOrder(ms))
  {
    OwnKeyOrderByKeys(EmitMembers(ms), ms);
  }
}
