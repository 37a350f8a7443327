/**
 * Ordered collections of records that each carry an integer id: the lists of the
 * store and the todos of one list. Everything here is generic in how an element's
 * id is read (`idOf`), as the store's private `next_element_id` and its `find` and
 * `reject!` calls are.
 */
module Elements {
  import opened Wrappers

  /** Some element of `s` carries the id `id`. */
  predicate HasId<T>(s: seq<T>, idOf: T -> int, id: int) {
    exists i :: 0 <= i < |s| && idOf(s[i]) == id
  }

  /** No two elements of `s` carry the same id. */
  predicate UniqueIds<T>(s: seq<T>, idOf: T -> int) {
    forall i, j :: 0 <= i < j < |s| ==> idOf(s[i]) != idOf(s[j])
  }

  /** The largest id in a non-empty collection. */
  function MaxId<T>(s: seq<T>, idOf: T -> int): (m: int)
    requires |s| > 0
    ensures HasId(s, idOf, m)
    ensures forall i :: 0 <= i < |s| ==> idOf(s[i]) <= m
  {
    if |s| == 1 then idOf(s[0])
    else
      var rest := MaxId(s[1..], idOf);
      assert forall i :: 1 <= i < |s| ==> s[i] == s[1..][i - 1];
      if idOf(s[0]) >= rest then idOf(s[0]) else rest
  }

  /**
   * The id a new element receives: one more than the largest existing id, or 1
   * when the collection is empty. This id is fresh, but it is the id of an
   * element that has been removed whenever that element held the largest id.
   */
  function NextElementId<T>(s: seq<T>, idOf: T -> int): (r: int)
    ensures s == [] ==> r == 1
    ensures s != [] ==> HasId(s, idOf, r - 1)
    ensures forall i :: 0 <= i < |s| ==> idOf(s[i]) < r
    ensures !HasId(s, idOf, r)
  {
    if s == [] then 1 else MaxId(s, idOf) + 1
  }

  /** The position of the first element with id `id`, as Ruby's `find` scans. */
  function FindIndex<T>(s: seq<T>, idOf: T -> int, id: int): (r: Option<nat>)
    ensures r.None? <==> !HasId(s, idOf, id)
    ensures r.Some? ==> r.value < |s| && idOf(s[r.value]) == id
    ensures r.Some? ==> forall j :: 0 <= j < r.value ==> idOf(s[j]) != id
  {
    if s == [] then None
    else if idOf(s[0]) == id then Some(0)
    else
      assert forall i :: 1 <= i < |s| ==> s[i] == s[1..][i - 1];
      match FindIndex(s[1..], idOf, id)
      case None => None
      case Some(k) => Some(k + 1)
  }

  /** The position `FindIndex` reports for an id known to be present. */
  function IndexOf<T>(s: seq<T>, idOf: T -> int, id: int): nat
    requires HasId(s, idOf, id)
  {
    FindIndex(s, idOf, id).value
  }

  /** The first position of an id depends on the ids alone, not on the rest of each element. */
  lemma FindIndexSameIds<T>(s: seq<T>, t: seq<T>, idOf: T -> int, id: int)
    requires |s| == |t|
    requires forall k :: 0 <= k < |s| ==> idOf(s[k]) == idOf(t[k])
    ensures FindIndex(s, idOf, id) == FindIndex(t, idOf, id)
  {
    var a, b := FindIndex(s, idOf, id), FindIndex(t, idOf, id);
    if a.Some? {
      assert idOf(t[a.value]) == id;
      assert b.Some? && b.value <= a.value;
      assert idOf(s[b.value]) == id;
    }
  }

  /** `s` without every element whose id is `id` (Ruby's `reject!`). */
  function Reject<T(!new)>(s: seq<T>, idOf: T -> int, id: int): (r: seq<T>)
    ensures |r| <= |s|
    ensures forall x :: x in r <==> x in s && idOf(x) != id
    ensures !HasId(r, idOf, id)
  {
    if s == [] then []
    else if idOf(s[0]) == id then Reject(s[1..], idOf, id)
    else [s[0]] + Reject(s[1..], idOf, id)
  }

  /** Rejecting distributes over concatenation, so the survivors keep their relative order. */
  lemma {:induction false} RejectAppend<T(!new)>(a: seq<T>, b: seq<T>, idOf: T -> int, id: int)
    ensures Reject(a + b, idOf, id) == Reject(a, idOf, id) + Reject(b, idOf, id)
  {
    if a == [] {
      assert a + b == b;
    } else {
      assert (a + b)[0] == a[0];
      assert (a + b)[1..] == a[1..] + b;
      RejectAppend(a[1..], b, idOf, id);
    }
  }

  /** Rejecting an id that no element carries leaves the collection as it was. */
  lemma {:induction false} RejectAbsent<T(!new)>(s: seq<T>, idOf: T -> int, id: int)
    requires !HasId(s, idOf, id)
    ensures Reject(s, idOf, id) == s
  {
    if s != [] {
      assert idOf(s[0]) != id;
      assert !HasId(s[1..], idOf, id) by {
        forall i | 0 <= i < |s[1..]| ensures idOf(s[1..][i]) != id {
          assert s[1..][i] == s[i + 1];
        }
      }
      RejectAbsent(s[1..], idOf, id);
      assert s == [s[0]] + s[1..];
    }
  }

  /** Rejecting the same id twice is the same as rejecting it once. */
  lemma {:induction false} RejectIdempotent<T(!new)>(s: seq<T>, idOf: T -> int, id: int)
    ensures Reject(Reject(s, idOf, id), idOf, id) == Reject(s, idOf, id)
  {
    RejectAbsent(Reject(s, idOf, id), idOf, id);
  }

  /** Rejecting keeps ids pairwise distinct. */
  lemma {:induction false} RejectKeepsUnique<T(!new)>(s: seq<T>, idOf: T -> int, id: int)
    requires UniqueIds(s, idOf)
    ensures UniqueIds(Reject(s, idOf, id), idOf)
  {
    if s != [] {
      var rest := s[1..];
      assert UniqueIds(rest, idOf) by {
        forall i, j | 0 <= i < j < |rest| ensures idOf(rest[i]) != idOf(rest[j]) {
          assert rest[i] == s[i + 1] && rest[j] == s[j + 1];
        }
      }
      RejectKeepsUnique(rest, idOf, id);
      var t := Reject(rest, idOf, id);
      assert forall k :: 0 <= k < |rest| ==> idOf(s[0]) != idOf(rest[k]) by {
        forall k | 0 <= k < |rest| ensures idOf(s[0]) != idOf(rest[k]) {
          assert rest[k] == s[k + 1];
        }
      }
      assert forall k :: 0 <= k < |t| ==> idOf(s[0]) != idOf(t[k]) by {
        forall k | 0 <= k < |t| ensures idOf(s[0]) != idOf(t[k]) {
          assert t[k] in t;
          var m :| 0 <= m < |rest| && rest[m] == t[k];
        }
      }
    }
  }

  /**
   * When ids are distinct, rejecting a present id removes exactly the element at the
   * position `FindIndex` reports and nothing else.
   */
  lemma {:induction false} RejectUniqueRemovesOne<T(!new)>(s: seq<T>, idOf: T -> int, id: int)
    requires UniqueIds(s, idOf) && HasId(s, idOf, id)
    ensures var i := IndexOf(s, idOf, id); Reject(s, idOf, id) == s[..i] + s[i + 1..]
  {
    var i := IndexOf(s, idOf, id);
    assert s == s[..i] + ([s[i]] + s[i + 1..]);
    RejectAppend(s[..i], [s[i]] + s[i + 1..], idOf, id);
    RejectAppend([s[i]], s[i + 1..], idOf, id);
    assert !HasId(s[..i], idOf, id) by {
      forall k | 0 <= k < i ensures idOf(s[..i][k]) != id {
        assert s[..i][k] == s[k];
      }
    }
    RejectAbsent(s[..i], idOf, id);
    assert !HasId(s[i + 1..], idOf, id) by {
      var tail := s[i + 1..];
      forall k | 0 <= k < |tail| ensures idOf(tail[k]) != id {
        assert tail[k] == s[i + 1 + k];
      }
    }
    RejectAbsent(s[i + 1..], idOf, id);
    assert [s[i]][1..] == [];
  }

  /** Appending an element with a fresh id and then rejecting that id gives back the collection. */
  lemma {:induction false} AppendThenReject<T(!new)>(s: seq<T>, x: T, idOf: T -> int)
    requires !HasId(s, idOf, idOf(x))
    ensures Reject(s + [x], idOf, idOf(x)) == s
  {
    RejectAppend(s, [x], idOf, idOf(x));
    RejectAbsent(s, idOf, idOf(x));
    assert [x][1..] == [];
  }

  /**
   * Id reuse: add an element with the next id, remove it again, and the next id
   * handed out is the removed element's id once more.
   */
  lemma {:induction false} NextIdReused<T(!new)>(s: seq<T>, x: T, idOf: T -> int)
    requires idOf(x) == NextElementId(s, idOf)
    ensures NextElementId(Reject(s + [x], idOf, idOf(x)), idOf) == idOf(x)
  {
    AppendThenReject(s, x, idOf);
  }
}
