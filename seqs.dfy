/**
 * Sequence operations that the kanban handlers use on their arrays:
 * `splice` insertion and removal, dnd-kit's `arrayMove`, `findIndex`
 * and `filter` by id. Entities are compared by a key function
 * (a card's, column's or board's `id`).
 */
module Seqs {

  /** No two positions of `s` hold the same value. */
  ghost predicate Distinct<K>(s: seq<K>) {
    forall i, j :: 0 <= i < j < |s| ==> s[i] != s[j]
  }

  /** The keys of `s`, position by position (`s.map(key)`). */
  function Keys<T, K>(s: seq<T>, key: T -> K): (r: seq<K>)
    ensures |r| == |s|
    ensures forall i :: 0 <= i < |s| ==> r[i] == key(s[i])
  {
    seq(|s|, i requires 0 <= i < |s| => key(s[i]))
  }

  /** `s` with `x` placed at index `i` (JavaScript `splice(i, 0, x)`). */
  function InsertAt<T>(s: seq<T>, i: nat, x: T): (r: seq<T>)
    requires i <= |s|
    ensures |r| == |s| + 1 && r[i] == x
    ensures forall k :: 0 <= k < i ==> r[k] == s[k]
    ensures forall k :: i < k <= |s| ==> r[k] == s[k - 1]
    ensures multiset(r) == multiset(s) + multiset{x}
  {
    assert s == s[..i] + s[i..];
    s[..i] + [x] + s[i..]
  }

  /** `s` without the element at index `i` (JavaScript `splice(i, 1)`). */
  function RemoveAt<T>(s: seq<T>, i: nat): (r: seq<T>)
    requires i < |s|
    ensures |r| == |s| - 1
    ensures forall k :: 0 <= k < i ==> r[k] == s[k]
    ensures forall k :: i <= k < |r| ==> r[k] == s[k + 1]
    ensures multiset(r) + multiset{s[i]} == multiset(s)
  {
    assert s == s[..i] + [s[i]] + s[i + 1..];
    s[..i] + s[i + 1..]
  }

  /**
   * dnd-kit's `arrayMove(s, from, to)`: take the element at `from` out
   * and put it back so that it sits at index `to`.
   */
  function ArrayMove<T>(s: seq<T>, from: nat, to: nat): (r: seq<T>)
    requires from < |s| && to < |s|
  {
    InsertAt(RemoveAt(s, from), to, s[from])
  }

  /**
   * Where each element of `ArrayMove(s, from, to)` comes from, stated
   * independently of removal and insertion: the moved element lands at
   * `to` and every element between the two positions shifts by one.
   */
  function MovedFrom(from: nat, to: nat, k: nat): nat {
    if k == to then from
    else if from <= k < to then k + 1
    else if to < k <= from then k - 1
    else k
  }

  /** `arrayMove` is a permutation that moves one element and shifts the ones in between. */
  lemma ArrayMoveShifts<T>(s: seq<T>, from: nat, to: nat)
    requires from < |s| && to < |s|
    ensures |ArrayMove(s, from, to)| == |s|
    ensures forall k :: 0 <= k < |s| ==> MovedFrom(from, to, k) < |s| && ArrayMove(s, from, to)[k] == s[MovedFrom(from, to, k)]
    ensures multiset(ArrayMove(s, from, to)) == multiset(s)
    ensures ArrayMove(s, from, to)[to] == s[from]
    ensures RemoveAt(ArrayMove(s, from, to), to) == RemoveAt(s, from)
  {
    var t := RemoveAt(s, from);
    var r := ArrayMove(s, from, to);
    forall k | 0 <= k < |s|
      ensures MovedFrom(from, to, k) < |s| && r[k] == s[MovedFrom(from, to, k)]
    {
      if k < to {
        assert r[k] == t[k];
      } else if k > to {
        assert r[k] == t[k - 1];
      }
    }
    var u := RemoveAt(r, to);
    assert |u| == |t|;
    forall k | 0 <= k < |u| ensures u[k] == t[k] {
      if k >= to {
        assert u[k] == r[k + 1];
      }
    }
  }

  /** JavaScript `findIndex(x => key(x) === k)`: the first position whose key is `k`, or -1. */
  function FindIndex<T, K(==,!new)>(s: seq<T>, key: T -> K, k: K): (r: int)
    ensures -1 <= r < |s|
    ensures r == -1 <==> k !in Keys(s, key)
    ensures 0 <= r ==> key(s[r]) == k && k !in Keys(s[..r], key)
  {
    if |s| == 0 then -1
    else if key(s[0]) == k then 0
    else
      var j := FindIndex(s[1..], key, k);
      assert forall y :: y in Keys(s, key) <==> y == key(s[0]) || y in Keys(s[1..], key);
      if j < 0 then -1
      else
        assert Keys(s[..j + 1], key) == [key(s[0])] + Keys(s[1..][..j], key);
        j + 1
  }

  /** JavaScript `filter(x => key(x) !== k)`: drop every element whose key is `k`, keeping order. */
  function RemoveKey<T(!new), K(==,!new)>(s: seq<T>, key: T -> K, k: K): (r: seq<T>)
    ensures |r| <= |s|
    ensures forall y :: y in Keys(r, key) <==> y in Keys(s, key) && y != k
  {
    if |s| == 0 then []
    else
      var rest := RemoveKey(s[1..], key, k);
      assert forall y :: y in Keys(s, key) <==> y == key(s[0]) || y in Keys(s[1..], key);
      if key(s[0]) == k then rest
      else
        assert Keys([s[0]] + rest, key) == [key(s[0])] + Keys(rest, key);
        [s[0]] + rest
  }

  /** The filter keeps exactly the elements whose key differs from `k`. */
  lemma {:induction false} RemoveKeyMembers<T(!new), K(!new)>(s: seq<T>, key: T -> K, k: K)
    ensures forall x :: x in RemoveKey(s, key, k) <==> x in s && key(x) != k
  {
    if |s| > 0 {
      RemoveKeyMembers(s[1..], key, k);
      assert forall x :: x in s <==> x == s[0] || x in s[1..];
    }
  }

  /** Filtering by a key that no element has changes nothing. */
  lemma {:induction false} RemoveKeyAbsent<T(!new), K(!new)>(s: seq<T>, key: T -> K, k: K)
    requires k !in Keys(s, key)
    ensures RemoveKey(s, key, k) == s
  {
    if |s| > 0 {
      assert Keys(s[1..], key) == Keys(s, key)[1..];
      RemoveKeyAbsent(s[1..], key, k);
      assert s == [s[0]] + s[1..];
    }
  }

  /** Filtering distributes over concatenation. */
  lemma {:induction false} RemoveKeyConcat<T(!new), K(!new)>(a: seq<T>, b: seq<T>, key: T -> K, k: K)
    ensures RemoveKey(a + b, key, k) == RemoveKey(a, key, k) + RemoveKey(b, key, k)
  {
    if |a| == 0 {
      assert a + b == b;
    } else {
      assert (a + b)[1..] == a[1..] + b;
      RemoveKeyConcat(a[1..], b, key, k);
    }
  }

  /** When keys are distinct, filtering by the key at `i` removes exactly that one element. */
  lemma {:induction false} RemoveKeyUnique<T(!new), K(!new)>(s: seq<T>, key: T -> K, i: nat)
    requires i < |s| && Distinct(Keys(s, key))
    ensures RemoveKey(s, key, key(s[i])) == RemoveAt(s, i)
  {
    assert Keys(s[1..], key) == Keys(s, key)[1..];
    if i == 0 {
      RemoveKeyHead(s, key);
    } else {
      var ks := Keys(s, key);
      assert ks[0] != ks[i];
      DistinctTail(ks);
      RemoveKeyUnique(s[1..], key, i - 1);
      assert s[1..][i - 1] == s[i];
      RemoveAtCons(s, i);
    }
  }

  lemma DistinctTail<K>(ks: seq<K>)
    requires 0 < |ks| && Distinct(ks)
    ensures Distinct(ks[1..])
  {
    forall a, b | 0 <= a < b < |ks| - 1 ensures ks[1..][a] != ks[1..][b] {
      assert ks[a + 1] != ks[b + 1];
    }
  }

  lemma RemoveAtCons<T>(s: seq<T>, i: nat)
    requires 0 < i < |s|
    ensures RemoveAt(s, i) == [s[0]] + RemoveAt(s[1..], i - 1)
  {
    assert s[..i] == [s[0]] + s[1..][..i - 1];
    assert s[i + 1..] == s[1..][i..];
  }

  lemma RemoveKeyHead<T(!new), K(!new)>(s: seq<T>, key: T -> K)
    requires 0 < |s| && Distinct(Keys(s, key))
    ensures RemoveKey(s, key, key(s[0])) == s[1..]
  {
    var ks := Keys(s, key);
    assert Keys(s[1..], key) == ks[1..];
    assert key(s[0]) !in ks[1..] by {
      forall j | 0 < j < |s| ensures ks[j] != ks[0] {}
    }
    RemoveKeyAbsent(s[1..], key, key(s[0]));
  }

  /** Filtering keeps keys distinct. */
  lemma {:induction false} RemoveKeyDistinct<T(!new), K(!new)>(s: seq<T>, key: T -> K, k: K)
    requires Distinct(Keys(s, key))
    ensures Distinct(Keys(RemoveKey(s, key, k), key))
  {
    if |s| > 0 {
      assert Keys(s[1..], key) == Keys(s, key)[1..];
      RemoveKeyDistinct(s[1..], key, k);
      var rest := RemoveKey(s[1..], key, k);
      if key(s[0]) != k {
        assert key(s[0]) !in Keys(s[1..], key) by {
          forall j | 0 <= j < |s| - 1 ensures Keys(s[1..], key)[j] != key(s[0]) {
            assert Keys(s, key)[j + 1] != Keys(s, key)[0];
          }
        }
        var ks := Keys([s[0]] + rest, key);
        assert ks == [key(s[0])] + Keys(rest, key);
      }
    }
  }

  /** Inserting an element whose key is new keeps keys distinct, and adds exactly that key. */
  lemma InsertAtKeys<T, K>(s: seq<T>, i: nat, x: T, key: T -> K)
    requires i <= |s|
    ensures forall y :: y in Keys(InsertAt(s, i, x), key) <==> y in Keys(s, key) || y == key(x)
    ensures Distinct(Keys(s, key)) && key(x) !in Keys(s, key) ==> Distinct(Keys(InsertAt(s, i, x), key))
  {
    var r := InsertAt(s, i, x);
    assert Keys(r, key) == Keys(s, key)[..i] + [key(x)] + Keys(s, key)[i..];
    assert Keys(s, key) == Keys(s, key)[..i] + Keys(s, key)[i..];
  }

  /** Removing the element at `i` removes its key and keeps the others; distinct keys stay distinct. */
  lemma RemoveAtKeys<T, K>(s: seq<T>, i: nat, key: T -> K)
    requires i < |s|
    ensures forall y :: y in Keys(RemoveAt(s, i), key) ==> y in Keys(s, key)
    ensures Distinct(Keys(s, key)) ==> Distinct(Keys(RemoveAt(s, i), key)) && key(s[i]) !in Keys(RemoveAt(s, i), key)
  {
    var ks := Keys(s, key);
    var rs := Keys(RemoveAt(s, i), key);
    assert rs == ks[..i] + ks[i + 1..];
    if Distinct(ks) {
      forall a, b | 0 <= a < b < |rs| ensures rs[a] != rs[b] {
        var a' := if a < i then a else a + 1;
        var b' := if b < i then b else b + 1;
        assert rs[a] == ks[a'] && rs[b] == ks[b'];
      }
      forall a | 0 <= a < |rs| ensures rs[a] != key(s[i]) {
        var a' := if a < i then a else a + 1;
        assert rs[a] == ks[a'];
      }
    }
  }

  /** `arrayMove` keeps the set of keys, and keeps them distinct. */
  lemma ArrayMoveKeys<T, K>(s: seq<T>, from: nat, to: nat, key: T -> K)
    requires from < |s| && to < |s|
    ensures forall y :: y in Keys(ArrayMove(s, from, to), key) <==> y in Keys(s, key)
    ensures Distinct(Keys(s, key)) ==> Distinct(Keys(ArrayMove(s, from, to), key))
  {
    var t := RemoveAt(s, from);
    RemoveAtKeys(s, from, key);
    InsertAtKeys(t, to, s[from], key);
    forall y | y in Keys(s, key) ensures y in Keys(t, key) || y == key(s[from]) {
      var j :| 0 <= j < |s| && Keys(s, key)[j] == y;
      if j < from {
        assert Keys(t, key)[j] == y;
      } else if j > from {
        assert Keys(t, key)[j - 1] == y;
      }
    }
  }
}
