/** Account identifiers and the order in which the account listing returns them.

    An account ID is a 128-bit UUID. PostgreSQL orders values of its uuid type
    byte by byte, which is the order of the 16 bytes read as one big-endian
    unsigned number; the model therefore represents a UUID by that number, and
    "ORDER BY id ASC" becomes the ordinary order on naturals. */
module Uuids {

  /** 2^128: one more than the largest UUID. */
  const Bound: nat := 0x1_0000_0000_0000_0000_0000_0000_0000_0000

  type Uuid = n: nat | n < Bound

  /** uuid.Nil, the all-zero UUID. */
  const Nil: Uuid := 0

  /** Every element is smaller than every element after it (so there are no repeats). */
  predicate StrictlyAscending(s: seq<Uuid>) {
    forall i, j :: 0 <= i < j < |s| ==> s[i] < s[j]
  }

  /** `r` lists exactly the identifiers of `s`, in strictly ascending order. */
  ghost predicate Enumerates(r: seq<Uuid>, s: set<Uuid>) {
    StrictlyAscending(r) && forall k :: k in r <==> k in s
  }

  /** The smallest identifier of a non-empty finite set. */
  ghost function Least(s: set<Uuid>): (k: Uuid)
    requires s != {}
    ensures k in s
    ensures forall j :: j in s ==> k <= j
  {
    var x :| x in s;
    if s == {x} then
      x
    else
      var m := Least(s - {x});
      assert forall j :: j in s ==> j == x || j in s - {x};
      if x < m then x else m
  }

  /** Putting an identifier below all of them in front of an ascending
      sequence keeps it ascending. */
  lemma ConsAscending(k: Uuid, rest: seq<Uuid>)
    requires StrictlyAscending(rest)
    requires forall x :: x in rest ==> k < x
    ensures StrictlyAscending([k] + rest)
  {
    var r := [k] + rest;
    forall i, j | 0 <= i < j < |r| ensures r[i] < r[j] {
      assert r[j] == rest[j - 1] && rest[j - 1] in rest;
      if i > 0 {
        assert r[i] == rest[i - 1];
      }
    }
  }

  /** Every finite set of identifiers can be listed in ascending order: take
      the least one first, then list the others. */
  lemma {:induction false} EnumerationExists(s: set<Uuid>)
    ensures exists r :: Enumerates(r, s)
    decreases s
  {
    if s == {} {
      assert Enumerates([], s);
    } else {
      var k := Least(s);
      EnumerationExists(s - {k});
      var rest :| Enumerates(rest, s - {k});
      ConsAscending(k, rest);
      assert Enumerates([k] + rest, s);
    }
  }

  /** Removing the first element of an ascending listing of `s` leaves an
      ascending listing of `s` without that element. */
  lemma TailEnumerates(r: seq<Uuid>, s: set<Uuid>)
    requires r != [] && Enumerates(r, s)
    ensures Enumerates(r[1..], s - {r[0]})
  {
    forall x
      ensures x in r[1..] <==> x in s - {r[0]}
    {
      if x in s - {r[0]} {
        var j :| 0 <= j < |r| && r[j] == x;
        assert r[1..][j - 1] == x;
      }
    }
  }

  /** Two ascending listings of the same set are the same sequence, and as
      long as the set. */
  lemma {:induction false} EnumerationUnique(r1: seq<Uuid>, r2: seq<Uuid>, s: set<Uuid>)
    requires Enumerates(r1, s) && Enumerates(r2, s)
    ensures r1 == r2 && |r1| == |s|
    decreases |r1|
  {
    if r1 == [] {
      assert s == {};
    } else {
      assert r1[0] in s && r1[0] in r2;
      assert r2 != [] && r2[0] in r1;
      assert r1[0] == r2[0] by {
        var i :| 0 <= i < |r2| && r2[i] == r1[0];
        var j :| 0 <= j < |r1| && r1[j] == r2[0];
        assert r2[0] <= r2[i] && r1[0] <= r1[j];
      }
      var k := r1[0];
      TailEnumerates(r1, s);
      TailEnumerates(r2, s);
      EnumerationUnique(r1[1..], r2[1..], s - {k});
      assert r1 == [k] + r1[1..] && r2 == [k] + r2[1..];
    }
  }

  /** The identifiers of `s` in ascending order, each exactly once. */
  ghost function Ascending(s: set<Uuid>): (r: seq<Uuid>)
    ensures Enumerates(r, s) && |r| == |s|
  {
    EnumerationExists(s);
    var r :| Enumerates(r, s);
    EnumerationUnique(r, r, s);
    r
  }

  /** A strictly ascending sequence holding exactly the elements of `s` is
      `Ascending(s)`: the sorted order of a set of identifiers is unique. */
  lemma AscendingUnique(s: set<Uuid>, r: seq<Uuid>)
    requires StrictlyAscending(r)
    requires forall k :: k in r <==> k in s
    ensures r == Ascending(s)
  {
    EnumerationUnique(r, Ascending(s), s);
  }

  /** Where `x` goes in the ascending sequence `s`: the number of its
      elements below `x`. */
  function Position(s: seq<Uuid>, x: Uuid): (i: nat)
    requires StrictlyAscending(s)
    ensures i <= |s|
    ensures forall j :: 0 <= j < i ==> s[j] < x
    ensures forall j :: i <= j < |s| ==> x <= s[j]
  {
    if s == [] || x <= s[0] then 0
    else 1 + Position(s[1..], x)
  }

  /** The element at each index of `ids` with `x` put in at index `i`. */
  lemma InsertAt(ids: seq<Uuid>, i: nat, x: Uuid)
    requires i <= |ids|
    ensures |ids[..i] + [x] + ids[i..]| == |ids| + 1
    ensures forall j :: 0 <= j < |ids| + 1 ==>
      (ids[..i] + [x] + ids[i..])[j] == if j < i then ids[j] else if j == i then x else ids[j - 1]
  {
  }

  /** Putting `x` in at its position keeps an ascending sequence ascending. */
  lemma SpliceOrdered(ids: seq<Uuid>, x: Uuid)
    requires StrictlyAscending(ids) && x !in ids
    ensures var i := Position(ids, x); StrictlyAscending(ids[..i] + [x] + ids[i..])
  {
    var i := Position(ids, x);
    var ids' := ids[..i] + [x] + ids[i..];
    InsertAt(ids, i, x);
    forall p, q | 0 <= p < q < |ids'| ensures ids'[p] < ids'[q] {
      if q < i {
        assert ids'[p] == ids[p] && ids'[q] == ids[q];
      } else if p > i {
        assert ids'[p] == ids[p - 1] && ids'[q] == ids[q - 1];
      } else if p == i {
        assert ids[q - 1] in ids;
        assert ids'[q] == ids[q - 1] && x <= ids[q - 1];
      } else if q == i {
        assert ids'[p] == ids[p];
      } else {
        assert ids'[p] == ids[p] && ids'[q] == ids[q - 1];
      }
    }
  }

  /** Putting `x` into a sequence adds `x` to its elements and nothing else. */
  lemma SpliceElements(ids: seq<Uuid>, i: nat, x: Uuid)
    requires i <= |ids|
    ensures forall k :: k in ids[..i] + [x] + ids[i..] <==> k in ids || k == x
  {
    InsertAt(ids, i, x);
    var ids' := ids[..i] + [x] + ids[i..];
    forall k ensures k in ids' <==> k in ids || k == x {
      if k in ids {
        var j :| 0 <= j < |ids| && ids[j] == k;
        assert ids'[if j < i then j else j + 1] == k;
      }
      if k in ids' {
        var j :| 0 <= j < |ids'| && ids'[j] == k;
        if j != i {
          assert ids[if j < i then j else j - 1] == k;
        }
      }
    }
  }

  /** Adding a new identifier to a set inserts it into the ascending order
      at its position and moves nothing else. */
  lemma AscendingInsert(s: set<Uuid>, x: Uuid)
    requires x !in s
    ensures Position(Ascending(s), x) <= |Ascending(s)|
    ensures var ids, i := Ascending(s), Position(Ascending(s), x);
      Ascending(s + {x}) == ids[..i] + [x] + ids[i..]
  {
    var ids := Ascending(s);
    var i := Position(ids, x);
    SpliceOrdered(ids, x);
    SpliceElements(ids, i, x);
    AscendingUnique(s + {x}, ids[..i] + [x] + ids[i..]);
  }
}
