/** Offset/limit paging of an ordered listing, as the account listing query applies it. */
module Paging {

  /** models.OffsetLimit: the paging parameters of a listing request. */
  datatype OffsetLimit = OffsetLimit(offset: int, limit: int)

  /** The rows that "OFFSET offset LIMIT limit" keeps of the ordered rows `s`.
      The query builder writes an OFFSET or LIMIT clause only for a non-zero
      value, so an offset of 0 skips nothing and a limit of 0 puts no bound on
      the number of rows. */
  function Window<T>(s: seq<T>, offset: nat, limit: nat): (r: seq<T>)
    ensures |r| == 0 || offset + |r| <= |s|
    ensures forall i :: 0 <= i < |r| ==> r[i] == s[offset + i]
    ensures limit > 0 ==> |r| <= limit
    ensures (limit == 0 || |r| < limit) ==> offset + |r| >= |s|
  {
    if offset >= |s| then []
    else if limit == 0 || |s| - offset <= limit then s[offset..]
    else s[offset..offset + limit]
  }

  /** Two consecutive pages of the same rows make up the page that spans both:
      paging through an unchanged listing with positive limits neither skips
      nor repeats a row. */
  lemma WindowSplit<T>(s: seq<T>, offset: nat, first: nat, second: nat)
    requires first > 0 && second > 0
    ensures Window(s, offset, first) + Window(s, offset + first, second)
         == Window(s, offset, first + second)
  {
    var a := Window(s, offset, first);
    var b := Window(s, offset + first, second);
    var c := Window(s, offset, first + second);
    if |a| < first {
      assert offset + |a| >= |s|;
      assert b == [];
      assert |c| == |a|;
    } else {
      assert |c| == |a| + |b|;
    }
    assert a + b == c;
  }
}
