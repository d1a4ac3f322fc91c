/** Edits on the ordered id lists of the engine (a parent's children or the
    root order): find, insert after/before an existing element, erase, and the
    JavaScript `splice` forms they are built from. */
module Vectors {
  import opened Types

  /** No element occurs twice. */
  predicate NoDup(v: seq<Id>) {
    forall i, j :: 0 <= i < j < |v| ==> v[i] != v[j]
  }

  /** Position of the first occurrence of `x` (std::find / Array.prototype.indexOf). */
  function IndexOf(v: seq<Id>, x: Id): (i: nat)
    requires x in v
    ensures i < |v| && v[i] == x && x !in v[..i]
  {
    if v[0] == x then 0 else 1 + IndexOf(v[1..], x)
  }

  lemma IndexOfUnique(v: seq<Id>, k: nat)
    requires NoDup(v) && k < |v|
    ensures IndexOf(v, v[k]) == k
  {
    var i := IndexOf(v, v[k]);
    assert forall j :: 0 <= j < i ==> v[..i][j] == v[j];
  }

  /** `splice(k, 0, x)`: `x` inserted at position `k`. */
  function InsertAt(v: seq<Id>, k: nat, x: Id): (r: seq<Id>)
    requires k <= |v|
    ensures |r| == |v| + 1 && r[k] == x
    ensures r[..k] == v[..k] && r[k + 1..] == v[k..]
    ensures forall y :: y in r <==> y in v || y == x
    ensures NoDup(v) && x !in v ==> NoDup(r)
  {
    var r := v[..k] + [x] + v[k..];
    assert forall y :: y in r <==> y in v[..k] || y == x || y in v[k..];
    assert v == v[..k] + v[k..];
    if NoDup(v) && x !in v then
      InsertAtNoDup(v, k, x);
      r
    else
      r
  }

  /** `splice(k, 1)`: the element at position `k` removed. */
  function RemoveAt(v: seq<Id>, k: nat): (r: seq<Id>)
    requires k < |v|
    ensures |r| == |v| - 1
    ensures r[..k] == v[..k] && r[k..] == v[k + 1..]
    ensures forall y :: y in r ==> y in v
  {
    v[..k] + v[k + 1..]
  }

  /** `insert_after`: `n` placed immediately after the first occurrence of `e`. */
  function InsertAfter(v: seq<Id>, e: Id, n: Id): (r: seq<Id>)
    requires e in v
    ensures |r| == |v| + 1
    ensures r[IndexOf(v, e)] == e && r[IndexOf(v, e) + 1] == n
    ensures forall y :: y in r <==> y in v || y == n
    ensures NoDup(v) && n !in v ==> NoDup(r)
  {
    InsertAt(v, IndexOf(v, e) + 1, n)
  }

  /** `insert_before`: `n` placed immediately before the first occurrence of `e`. */
  function InsertBefore(v: seq<Id>, e: Id, n: Id): (r: seq<Id>)
    requires e in v
    ensures |r| == |v| + 1
    ensures r[IndexOf(v, e)] == n && r[IndexOf(v, e) + 1] == e
    ensures forall y :: y in r <==> y in v || y == n
    ensures NoDup(v) && n !in v ==> NoDup(r)
  {
    InsertAt(v, IndexOf(v, e), n)
  }

  /** `splice(k, 1)` undoes `splice(k, 0, x)`. */
  lemma RemoveInserted(v: seq<Id>, k: nat, x: Id)
    requires k <= |v|
    ensures RemoveAt(InsertAt(v, k, x), k) == v
  {
    var r := InsertAt(v, k, x);
    assert r[..k] + r[k + 1..] == v[..k] + v[k..];
    assert v == v[..k] + v[k..];
  }

  /** Removing what insert_after placed gives the list back. */
  lemma {:induction false} InsertAfterUndone(v: seq<Id>, e: Id, n: Id)
    requires e in v
    ensures RemoveAt(InsertAfter(v, e, n), IndexOf(v, e) + 1) == v
  {
    var k := IndexOf(v, e) + 1;
    assert InsertAfter(v, e, n) == InsertAt(v, k, n);
    RemoveInserted(v, k, n);
  }

  /** Removing what insert_before placed gives the list back. */
  lemma {:induction false} InsertBeforeUndone(v: seq<Id>, e: Id, n: Id)
    requires e in v
    ensures RemoveAt(InsertBefore(v, e, n), IndexOf(v, e)) == v
  {
    RemoveInserted(v, IndexOf(v, e), n);
  }

  /** `erase_from`: the first occurrence of `x` removed. */
  function EraseFrom(v: seq<Id>, x: Id): (r: seq<Id>)
    requires x in v
    ensures |r| == |v| - 1
    ensures NoDup(v) ==> NoDup(r) && forall y :: y in r <==> y in v && y != x
  {
    var i := IndexOf(v, x);
    RemoveAtNoDup(v, i);
    RemoveAt(v, i)
  }

  /** Putting the erased element back at its old position gives the list back. */
  lemma EraseFromUndone(v: seq<Id>, x: Id)
    requires x in v
    ensures EraseFrom(v, x) == RemoveAt(v, IndexOf(v, x))
    ensures InsertAt(EraseFrom(v, x), IndexOf(v, x), x) == v
  {
    var i := IndexOf(v, x);
    var r := RemoveAt(v, i);
    assert r[..i] + [x] + r[i..] == v;
  }

  lemma RemoveAtNoDup(v: seq<Id>, i: nat)
    requires i < |v|
    ensures NoDup(v) ==> NoDup(RemoveAt(v, i)) && forall y :: y in RemoveAt(v, i) <==> y in v && y != v[i]
  {
    var r := RemoveAt(v, i);
    if NoDup(v) {
      forall y | y in v && y != v[i] ensures y in r {
        var j :| 0 <= j < |v| && v[j] == y;
        if j < i { assert r[j] == y; } else { assert r[j - 1] == y; }
      }
      forall a, b | 0 <= a < b < |r| ensures r[a] != r[b] {
        var a' := if a < i then a else a + 1;
        var b' := if b < i then b else b + 1;
        assert r[a] == v[a'] && r[b] == v[b'];
      }
      forall y | y in r ensures y != v[i] {
        var j :| 0 <= j < |r| && r[j] == y;
        if j < i { assert r[j] == v[j]; } else { assert r[j] == v[j + 1]; }
      }
    }
  }

  lemma InsertAtNoDup(v: seq<Id>, k: nat, x: Id)
    requires k <= |v| && NoDup(v) && x !in v
    ensures NoDup(v[..k] + [x] + v[k..])
  {
    var r := v[..k] + [x] + v[k..];
    forall a, b | 0 <= a < b < |r| ensures r[a] != r[b] {
      if a != k && b != k {
        var a' := if a < k then a else a - 1;
        var b' := if b < k then b else b - 1;
        assert r[a] == v[a'] && r[b] == v[b'];
      } else if a == k {
        assert r[b] == v[b - 1];
      } else {
        assert r[a] == v[a];
      }
    }
  }

  /** Exchanging the elements at positions `i` and `j` (the source's std::swap and
      destructuring swap on sibling lists). */
  function Swap(v: seq<Id>, i: nat, j: nat): (r: seq<Id>)
    requires i < |v| && j < |v|
    ensures |r| == |v| && r[i] == v[j] && r[j] == v[i]
    ensures forall k :: 0 <= k < |v| && k != i && k != j ==> r[k] == v[k]
    ensures multiset(r) == multiset(v)
  {
    v[i := v[j]][j := v[i]]
  }

  lemma SwapNoDup(v: seq<Id>, i: nat, j: nat)
    requires i < |v| && j < |v| && NoDup(v)
    ensures NoDup(Swap(v, i, j))
    ensures forall y :: y in Swap(v, i, j) <==> y in v
  {
    var r := Swap(v, i, j);
    forall y ensures y in r <==> y in v {
      assert y in r <==> y in multiset(r);
      assert y in v <==> y in multiset(v);
    }
    forall a, b | 0 <= a < b < |r| ensures r[a] != r[b] {
      var a' := if a == i then j else if a == j then i else a;
      var b' := if b == i then j else if b == j then i else b;
      assert r[a] == v[a'] && r[b] == v[b'];
    }
  }

  /** Swapping the same two positions twice gives the list back. */
  lemma SwapTwice(v: seq<Id>, i: nat, j: nat)
    requires i < |v| && j < |v|
    ensures Swap(Swap(v, i, j), i, j) == v
  {
  }

  /** Two duplicate-free lists with no common element concatenate to a duplicate-free list. */
  lemma ConcatNoDup(a: seq<Id>, b: seq<Id>)
    requires NoDup(a) && NoDup(b) && forall y :: y in a ==> y !in b
    ensures NoDup(a + b)
  {
    var r := a + b;
    forall i, j | 0 <= i < j < |r| ensures r[i] != r[j] {
      if i < |a| && j >= |a| {
        assert r[i] in a && r[j] == b[j - |a|];
      } else if i >= |a| {
        assert r[i] == b[i - |a|] && r[j] == b[j - |a|];
      }
    }
  }
  /** An element whose earlier positions do not hold it is found at its own position. */
  lemma IndexOfAt(v: seq<Id>, k: nat)
    requires k < |v| && v[k] !in v[..k]
    ensures IndexOf(v, v[k]) == k
  {
  }

  /** erase_from undoes insert_after of an element not yet in the list. */
  lemma EraseInsertedAfter(v: seq<Id>, e: Id, n: Id)
    requires e in v && n !in v
    ensures EraseFrom(InsertAfter(v, e, n), n) == v
  {
    var r := InsertAfter(v, e, n);
    var k := IndexOf(v, e) + 1;
    assert r[..k] == v[..k];
    assert n !in r[..k];
    IndexOfAt(r, k);
  }

  /** Erasing the element at position `i` and inserting it back after its
      predecessor gives the list back. */
  lemma InsertAfterErased(v: seq<Id>, i: nat)
    requires NoDup(v) && 0 < i < |v|
    ensures v[i - 1] in EraseFrom(v, v[i])
    ensures InsertAfter(EraseFrom(v, v[i]), v[i - 1], v[i]) == v
  {
    IndexOfUnique(v, i);
    var r := EraseFrom(v, v[i]);
    assert r == v[..i] + v[i + 1..];
    assert r[i - 1] == v[i - 1];
    IndexOfUnique(r, i - 1);
    assert InsertAt(r, i, v[i]) == v;
  }

  /** Erasing the element just appended gives the list back. */
  lemma EraseAppended(c: seq<Id>, x: Id)
    requires x !in c
    ensures EraseFrom(c + [x], x) == c
  {
    var r := c + [x];
    assert r[..|c|] == c;
    IndexOfAt(r, |c|);
  }
}
