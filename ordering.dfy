/** The query shapes the repositories share: select the rows of one owner,
    order them (`ORDER BY ... desc/asc`), take the first (`First`) or the
    first `limit` (`LIMIT`). An order is a comparator `le`, where `le(a, b)`
    means "a may be listed before b". Ties are broken towards the row
    inserted later, the same way by the sort and by the search for the first
    row, so that both queries agree on which row comes first. */
module Ordering {
  import opened Base

  ghost predicate TotalPreorder<T(!new)>(le: (T, T) -> bool) {
    && (forall a, b :: le(a, b) || le(b, a))
    && (forall a, b, c :: le(a, b) && le(b, c) ==> le(a, c))
  }

  ghost predicate Sorted<T>(s: seq<T>, le: (T, T) -> bool) {
    forall i, j :: 0 <= i < j < |s| ==> le(s[i], s[j])
  }

  /** The rows whose owner column equals `id`, in table order (`WHERE owner = id`). */
  function Owned<T(==,!new)>(s: seq<T>, owner: T -> nat, id: nat): (r: seq<T>)
    ensures |r| <= |s|
    ensures forall x :: x in r <==> x in s && owner(x) == id
  {
    if s == [] then []
    else Owned(s[..|s| - 1], owner, id) + (if owner(s[|s| - 1]) == id then [s[|s| - 1]] else [])
  }

  lemma OwnedAppend<T(!new)>(s: seq<T>, x: T, owner: T -> nat, id: nat)
    ensures Owned(s + [x], owner, id) == Owned(s, owner, id) + (if owner(x) == id then [x] else [])
  {
    assert (s + [x])[..|s|] == s;
  }

  /** Insert x before the first element it may precede. */
  function Insert<T(==,!new)>(x: T, s: seq<T>, le: (T, T) -> bool): (r: seq<T>)
    ensures multiset(r) == multiset(s) + multiset{x}
    ensures |r| == |s| + 1
  {
    if s == [] then [x]
    else if le(x, s[0]) then [x] + s
    else
      assert s == [s[0]] + s[1..];
      [s[0]] + Insert(x, s[1..], le)
  }

  /** Rows that tie under the order are listed newest first: of two tied
      rows, the one inserted later comes first. */
  lemma TiesNewestFirst<T(!new)>(a: T, b: T, le: (T, T) -> bool)
    requires le(a, b) && le(b, a)
    ensures SortBy([a, b], le) == [b, a]
  {
  }

  /** Insertion sort, inserting the rows in table order. */
  function SortBy<T(==,!new)>(s: seq<T>, le: (T, T) -> bool): (r: seq<T>)
    ensures multiset(r) == multiset(s)
    ensures |r| == |s|
  {
    if s == [] then []
    else
      assert s == s[..|s| - 1] + [s[|s| - 1]];
      Insert(s[|s| - 1], SortBy(s[..|s| - 1], le), le)
  }

  lemma SortByAppend<T(!new)>(o: seq<T>, x: T, le: (T, T) -> bool)
    ensures SortBy(o + [x], le) == Insert(x, SortBy(o, le), le)
  {
    assert (o + [x])[..|o|] == o;
  }

  /** One more row in table order: the sorted listing grows by one insertion. */
  lemma SortedOwnedStep<T(!new)>(s: seq<T>, x: T, owner: T -> nat, id: nat, le: (T, T) -> bool)
    ensures SortBy(Owned(s + [x], owner, id), le)
         == if owner(x) == id then Insert(x, SortBy(Owned(s, owner, id), le), le)
            else SortBy(Owned(s, owner, id), le)
  {
    OwnedAppend(s, x, owner, id);
    if owner(x) == id {
      SortByAppend(Owned(s, owner, id), x, le);
    } else {
      assert Owned(s, owner, id) + [] == Owned(s, owner, id);
    }
  }

  lemma {:induction false} InsertSorted<T(!new)>(x: T, s: seq<T>, le: (T, T) -> bool)
    requires TotalPreorder(le) && Sorted(s, le)
    ensures Sorted(Insert(x, s, le), le)
  {
    if s != [] && !le(x, s[0]) {
      assert Sorted(s[1..], le);
      InsertSorted(x, s[1..], le);
      HeadBoundsInsert(x, s, le);
      ConsSorted(s[0], Insert(x, s[1..], le), le);
    }
  }

  /** When x goes after the head, the head may precede everything in the rest after insertion. */
  lemma HeadBoundsInsert<T(!new)>(x: T, s: seq<T>, le: (T, T) -> bool)
    requires TotalPreorder(le) && Sorted(s, le) && s != [] && !le(x, s[0])
    ensures forall y :: y in Insert(x, s[1..], le) ==> le(s[0], y)
  {
    var t := Insert(x, s[1..], le);
    forall y | y in t ensures le(s[0], y) {
      assert y in multiset(t);
      if y != x {
        assert y in multiset(s[1..]);
        var k :| 0 <= k < |s[1..]| && s[1..][k] == y;
        assert s[k + 1] == y;
      }
    }
  }

  lemma ConsSorted<T>(h: T, t: seq<T>, le: (T, T) -> bool)
    requires Sorted(t, le) && forall y :: y in t ==> le(h, y)
    ensures Sorted([h] + t, le)
  {
    var r := [h] + t;
    forall i, j | 0 <= i < j < |r| ensures le(r[i], r[j]) {
      if i == 0 {
        assert r[j] == t[j - 1] && r[j] in t;
      } else {
        assert r[i] == t[i - 1] && r[j] == t[j - 1];
      }
    }
  }

  lemma {:induction false} SortBySorted<T(!new)>(s: seq<T>, le: (T, T) -> bool)
    requires TotalPreorder(le)
    ensures Sorted(SortBy(s, le), le)
  {
    if s != [] {
      SortBySorted(s[..|s| - 1], le);
      InsertSorted(s[|s| - 1], SortBy(s[..|s| - 1], le), le);
    }
  }

  /** The row a `First` after the ORDER BY returns: among the owner's rows,
      one that may precede all others; a later row wins a tie. */
  function Latest<T(==,!new)>(s: seq<T>, owner: T -> nat, id: nat, le: (T, T) -> bool): Option<T>
  {
    if s == [] then None
    else
      var p := Latest(s[..|s| - 1], owner, id, le);
      var x := s[|s| - 1];
      if owner(x) == id && (p.None? || le(x, p.value)) then Some(x) else p
  }

  /** The first row is a row of that owner that may precede every other row
      of that owner; there is none exactly when the owner has no row. */
  lemma {:induction false} LatestIsFirst<T(!new)>(s: seq<T>, owner: T -> nat, id: nat, le: (T, T) -> bool)
    requires TotalPreorder(le)
    ensures Latest(s, owner, id, le).None? <==> Owned(s, owner, id) == []
    ensures Latest(s, owner, id, le).Some? ==>
              var m := Latest(s, owner, id, le).value;
              m in s && owner(m) == id && forall y :: y in s && owner(y) == id ==> le(m, y)
  {
    if s != [] {
      var init := s[..|s| - 1];
      LatestIsFirst(init, owner, id, le);
      assert s == init + [s[|s| - 1]];
      OwnedAppend(init, s[|s| - 1], owner, id);
    }
  }

  /** A row appended after the owner's rows, that may precede each of them, becomes the one `First` returns. */
  lemma LatestAfterAppend<T(!new)>(s: seq<T>, x: T, owner: T -> nat, id: nat, le: (T, T) -> bool)
    requires TotalPreorder(le) && owner(x) == id
    requires forall y :: y in s && owner(y) == id ==> le(x, y)
    ensures Latest(s + [x], owner, id, le) == Some(x)
  {
    assert (s + [x])[..|s|] == s;
    LatestIsFirst(s, owner, id, le);
  }

  /** The first element of a listing, if any (`First` on an ordered query). */
  function Head<T>(s: seq<T>): (r: Option<T>)
    ensures r.None? <==> s == []
  {
    if s == [] then None else Some(s[0])
  }

  lemma InsertHead<T(!new)>(x: T, s: seq<T>, le: (T, T) -> bool)
    ensures Head(Insert(x, s, le)) == if s == [] || le(x, s[0]) then Some(x) else Head(s)
  {
  }

  lemma HeadAfterStep<T(!new)>(x: T, listed: seq<T>, taken: bool, le: (T, T) -> bool)
    ensures Head(if taken then Insert(x, listed, le) else listed)
         == if taken && (Head(listed).None? || le(x, Head(listed).value)) then Some(x) else Head(listed)
  {
    if taken {
      InsertHead(x, listed, le);
    }
  }

  /** The head of the ordered listing is exactly the row `First` returns. */
  lemma {:induction false} HeadIsLatest<T(!new)>(s: seq<T>, owner: T -> nat, id: nat, le: (T, T) -> bool)
    ensures Head(SortBy(Owned(s, owner, id), le)) == Latest(s, owner, id, le)
  {
    if s != [] {
      var init, x := s[..|s| - 1], s[|s| - 1];
      var listed := SortBy(Owned(init, owner, id), le);
      var prev := Latest(init, owner, id, le);
      assert Head(listed) == prev by {
        HeadIsLatest(init, owner, id, le);
      }
      assert Latest(s, owner, id, le) == if owner(x) == id && (prev.None? || le(x, prev.value)) then Some(x) else prev;
      assert SortBy(Owned(s, owner, id), le) == if owner(x) == id then Insert(x, listed, le) else listed by {
        assert s == init + [x];
        SortedOwnedStep(init, x, owner, id, le);
      }
      HeadAfterStep(x, listed, owner(x) == id, le);
    }
  }

  /** `LIMIT limit` when limit > 0, no limit otherwise. */
  function Take<T>(s: seq<T>, limit: int): (r: seq<T>)
    ensures limit > 0 ==> |r| == if limit < |s| then limit else |s|
    ensures limit <= 0 ==> r == s
    ensures r == s[..|r|]
  {
    if 0 < limit < |s| then s[..limit] else s
  }

  lemma SameElements<T>(s: seq<T>, t: seq<T>)
    requires multiset(s) == multiset(t)
    ensures forall x :: x in s <==> x in t
  {
    forall x ensures x in s <==> x in t {
      assert x in s <==> x in multiset(s);
      assert x in t <==> x in multiset(t);
    }
  }

  /** A LIMIT keeps the order, the first row and only listed rows. */
  lemma TakeKeepsOrder<T>(s: seq<T>, limit: int, le: (T, T) -> bool)
    ensures Sorted(s, le) ==> Sorted(Take(s, limit), le)
    ensures Head(Take(s, limit)) == Head(s)
    ensures forall x :: x in Take(s, limit) ==> x in s
  {
  }

  /** The sorted listing holds exactly the owner's rows, each as often as stored, in order. */
  lemma SelectedRows<T(!new)>(rows: seq<T>, owner: T -> nat, id: nat, le: (T, T) -> bool)
    ensures multiset(SortBy(Owned(rows, owner, id), le)) == multiset(Owned(rows, owner, id))
    ensures forall x :: x in SortBy(Owned(rows, owner, id), le) <==> x in rows && owner(x) == id
    ensures TotalPreorder(le) ==> Sorted(SortBy(Owned(rows, owner, id), le), le)
  {
    SameElements(SortBy(Owned(rows, owner, id), le), Owned(rows, owner, id));
    if TotalPreorder(le) {
      SortBySorted(Owned(rows, owner, id), le);
    }
  }

  /** `WHERE owner = id ORDER BY ...`: the owner's rows, sorted. */
  method Select<T(==,!new)>(rows: seq<T>, owner: T -> nat, id: nat, le: (T, T) -> bool) returns (r: seq<T>)
    ensures r == SortBy(Owned(rows, owner, id), le)
    ensures multiset(r) == multiset(Owned(rows, owner, id))
    ensures forall x :: x in r <==> x in rows && owner(x) == id
    ensures TotalPreorder(le) ==> Sorted(r, le)
  {
    r := SelectLoop(rows, owner, id, le);
    SelectedRows(rows, owner, id, le);
  }

  /** The loop of Select: one insertion per row of the owner, in table order. */
  method SelectLoop<T(==,!new)>(rows: seq<T>, owner: T -> nat, id: nat, le: (T, T) -> bool) returns (r: seq<T>)
    ensures r == SortBy(Owned(rows, owner, id), le)
  {
    r := [];
    for i := 0 to |rows|
      invariant r == SortBy(Owned(rows[..i], owner, id), le)
    {
      var prefix, x := rows[..i], rows[i];
      assert rows[..i + 1] == prefix + [x];
      SortedOwnedStep(prefix, x, owner, id, le);
      if owner(x) == id {
        r := Insert(x, r, le);
      }
    }
    assert rows[..|rows|] == rows;
  }

  /** `WHERE owner = id ORDER BY ... LIMIT 1`: the row `Latest` names. */
  method FindFirst<T(==,!new)>(rows: seq<T>, owner: T -> nat, id: nat, le: (T, T) -> bool) returns (r: Option<T>)
    ensures r == Latest(rows, owner, id, le)
    ensures r.None? <==> forall x :: x in rows ==> owner(x) != id
    ensures r.Some? ==> r.value in rows && owner(r.value) == id
  {
    r := None;
    for i := 0 to |rows|
      invariant r == Latest(rows[..i], owner, id, le)
      invariant r.None? <==> forall x :: x in rows[..i] ==> owner(x) != id
      invariant r.Some? ==> r.value in rows[..i] && owner(r.value) == id
    {
      assert rows[..i + 1] == rows[..i] + [rows[i]];
      assert rows[..i + 1][..i] == rows[..i];
      if owner(rows[i]) == id && (r.None? || le(rows[i], r.value)) {
        r := Some(rows[i]);
      }
    }
    assert rows[..|rows|] == rows;
  }
}
