/**
 The list-position primitives the controller calls on columns, rows and cards
 (`insert_at`, `remove_from_list`, and the position a record reports). They
 belong to the acts_as_list plugin in the model classes, which are not part of
 this model: here each ordered list is a sequence of record ids, a record's
 position is its index plus one, and the primitives carry the contracts the
 controller relies on (insert at a clamped position, remove by identity).
 Keeping positions implicit in the sequence index makes them contiguous and
 unique by construction.
 */
module Ordering {

  /** Record ids as the database assigns them. */
  type Id = int

  /** No id occurs twice in the list. */
  predicate Distinct(s: seq<Id>) {
    forall i, j :: 0 <= i < j < |s| ==> s[i] != s[j]
  }

  /** A requested position clamped into `1 .. n + 1` for a list of `n` others. */
  function Clamp(p: int, n: nat): (q: int)
    ensures 1 <= q <= n + 1
    ensures 1 <= p <= n + 1 ==> q == p
    ensures p < 1 ==> q == 1
    ensures p > n + 1 ==> q == n + 1
  {
    if p < 1 then 1 else if p > n + 1 then n + 1 else p
  }

  /** `remove_from_list`: the list without `x`, the others in their order. */
  function Remove(s: seq<Id>, x: Id): (r: seq<Id>)
    ensures x !in r
    ensures forall y :: y in r <==> y in s && y != x
    ensures x !in s ==> r == s
    ensures |r| <= |s|
  {
    if s == [] then []
    else if s[0] == x then Remove(s[1..], x)
    else [s[0]] + Remove(s[1..], x)
  }


  /** `insert_at(p)`: `x` taken out of the list if it was there, then put
      back at position `p` clamped to the list's bounds. Whether or not `x`
      was listed, it is listed afterwards. */
  function InsertAt(s: seq<Id>, x: Id, p: int): (r: seq<Id>)
    ensures x in r
  {
    var t := Remove(s, x);
    var q := Clamp(p, |t|);
    t[..q - 1] + [x] + t[q - 1..]
  }

  /** The 1-based position of `x` in a list that holds it. */
  function PositionOf(s: seq<Id>, x: Id): (p: nat)
    requires x in s
    ensures 1 <= p <= |s| && s[p - 1] == x
    ensures forall i :: 0 <= i < p - 1 ==> s[i] != x
  {
    if s[0] == x then 1 else 1 + PositionOf(s[1..], x)
  }

  lemma {:induction false} RemoveConcat(a: seq<Id>, b: seq<Id>, x: Id)
    ensures Remove(a + b, x) == Remove(a, x) + Remove(b, x)
  {
    if a != [] {
      assert (a + b)[1..] == a[1..] + b;
      RemoveConcat(a[1..], b, x);
    } else {
      assert a + b == b;
    }
  }

  lemma {:induction false} RemoveDistinct(s: seq<Id>, x: Id)
    requires Distinct(s)
    ensures Distinct(Remove(s, x))
  {
    if s != [] {
      assert Distinct(s[1..]);
      RemoveDistinct(s[1..], x);
      assert s[0] !in s[1..];
      assert s[0] !in Remove(s[1..], x);
    }
  }

  /** Taking out an id that occurs once, between two stretches without it,
      joins the two stretches. */
  lemma RemoveSplice(a: seq<Id>, b: seq<Id>, x: Id)
    requires x !in a && x !in b
    ensures Remove(a + [x] + b, x) == a + b
  {
    assert [x][1..] == [];
    assert Remove([x], x) == [];
    RemoveConcat(a, [x], x);
    assert Remove(a + [x], x) == a;
    RemoveConcat(a + [x], b, x);
  }

  /** In a list without duplicates, removing the element at index `i` is
      exactly cutting it out. */
  lemma {:induction false} RemoveAt(s: seq<Id>, i: nat)
    requires Distinct(s) && i < |s|
    ensures Remove(s, s[i]) == s[..i] + s[i + 1..]
  {
    var x := s[i];
    assert s == s[..i] + [x] + s[i + 1..];
    assert x !in s[..i];
    assert x !in s[i + 1..];
    RemoveSplice(s[..i], s[i + 1..], x);
  }

  /** `remove_from_list` of a listed id shortens a list without duplicates by one. */
  lemma RemoveListedLength(s: seq<Id>, x: Id)
    requires Distinct(s) && x in s
    ensures |Remove(s, x)| == |s| - 1
  {
    RemoveAt(s, PositionOf(s, x) - 1);
  }

  /** `insert_at` of an unlisted id lengthens the list by one. */
  lemma InsertNewLength(s: seq<Id>, x: Id, p: int)
    requires x !in s
    ensures |InsertAt(s, x, p)| == |s| + 1
  {
    assert Remove(s, x) == s;
  }

  /** `insert_at` keeps every other id in its old order: taking `x` out again
      gives what taking it out of the old list gives. */
  lemma {:induction false} InsertAtKeepsOthers(s: seq<Id>, x: Id, p: int)
    ensures Remove(InsertAt(s, x, p), x) == Remove(s, x)
  {
    var t := Remove(s, x);
    var q := Clamp(p, |t|);
    assert t == t[..q - 1] + t[q - 1..];
    RemoveSplice(t[..q - 1], t[q - 1..], x);
  }

  /** After `insert_at(p)` the id reports the clamped position and the list
      holds exactly the old ids and `x`. */
  lemma {:induction false} InsertAtPosition(s: seq<Id>, x: Id, p: int)
    ensures |InsertAt(s, x, p)| == |Remove(s, x)| + 1
    ensures x in InsertAt(s, x, p)
    ensures PositionOf(InsertAt(s, x, p), x) == Clamp(p, |Remove(s, x)|)
    ensures forall y :: y in InsertAt(s, x, p) <==> y in s || y == x
  {
    var t := Remove(s, x);
    var q := Clamp(p, |t|);
    var r := InsertAt(s, x, p);
    assert r[q - 1] == x;
    assert forall i :: 0 <= i < q - 1 ==> r[i] == t[i];
    assert t == t[..q - 1] + t[q - 1..];
    forall y ensures y in r <==> y in t || y == x {
      assert y in r <==> y in t[..q - 1] || y == x || y in t[q - 1..];
    }
  }

  /** Membership after `insert_at`, for one id at a time. */
  lemma InsertAtMember(s: seq<Id>, x: Id, p: int, y: Id)
    ensures y in InsertAt(s, x, p) <==> y in s || y == x
  {
    InsertAtPosition(s, x, p);
  }

  /** The list after `insert_at(p)`, slot by slot: the others before the
      clamped position, then `x`, then the rest of the others. */
  lemma InsertAtIndex(s: seq<Id>, x: Id, p: int, i: nat)
    requires i <= |Remove(s, x)|
    ensures var t := Remove(s, x);
      var q := Clamp(p, |t|);
      && |InsertAt(s, x, p)| == |t| + 1
      && InsertAt(s, x, p)[i] == if i < q - 1 then t[i] else if i == q - 1 then x else t[i - 1]
  {
    var t := Remove(s, x);
    var q := Clamp(p, |t|);
    var r := t[..q - 1] + [x] + t[q - 1..];
    assert InsertAt(s, x, p) == r;
    if i < q - 1 {
      assert r[i] == t[..q - 1][i];
    } else if i == q - 1 {
      assert r[i] == x;
    } else {
      assert r[i] == t[q - 1..][i - q];
    }
  }

  /** `insert_at` never duplicates an id. */
  lemma {:induction false} InsertAtDistinct(s: seq<Id>, x: Id, p: int)
    requires Distinct(s)
    ensures Distinct(InsertAt(s, x, p))
  {
    var t := Remove(s, x);
    var r := InsertAt(s, x, p);
    RemoveDistinct(s, x);
    InsertAtIndex(s, x, p, 0);
    assert x !in t;
    forall i, j | 0 <= i < j < |r| ensures r[i] != r[j] {
      InsertAtIndex(s, x, p, i);
      InsertAtIndex(s, x, p, j);
    }
  }

  /** Moving a listed id to the position it already holds changes nothing. */
  lemma {:induction false} InsertAtCurrentPosition(s: seq<Id>, x: Id)
    requires Distinct(s) && x in s
    ensures InsertAt(s, x, PositionOf(s, x)) == s
  {
    var i := PositionOf(s, x) - 1;
    RemoveAt(s, i);
    var t := Remove(s, x);
    assert t == s[..i] + s[i + 1..];
    assert t[..i] == s[..i] && t[i..] == s[i + 1..];
    assert s == s[..i] + [x] + s[i + 1..];
  }

  /** `insert_at` followed by `remove_from_list` leaves the other ids as
      removing alone would: the inverse law of the two primitives. */
  lemma InsertThenRemove(s: seq<Id>, x: Id, p: int)
    requires x !in s
    ensures Remove(InsertAt(s, x, p), x) == s
  {
    InsertAtKeepsOthers(s, x, p);
  }

  /** `insert_at(1)` of a new id puts it in front of the others. */
  lemma InsertAtFront(s: seq<Id>, x: Id)
    requires x !in s
    ensures InsertAt(s, x, 1) == [x] + s
  {
    assert s[..0] == [] && s[0..] == s;
  }

  /** `insert_at(n + 1)` of a new id in a list of `n` appends it. */
  lemma InsertAtEnd(s: seq<Id>, x: Id)
    requires x !in s
    ensures InsertAt(s, x, |s| + 1) == s + [x]
  {
    assert s[..|s|] == s && s[|s|..] == [];
  }
}
