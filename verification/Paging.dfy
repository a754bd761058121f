/** Listing files page by page with a keyset query (`pkg/services/file_query_builder.go`). */
module Paging {
  import opened Arith
  import opened Bytes

  datatype Row = Row(id: int, key: int)

  /** The order parameter as it arrives; anything unknown sorts descending. */
  datatype OrderParam = AscParam | DescParam | OtherParam

  datatype Direction = Asc | Desc

  datatype Operator = AtLeast | AtMost | Above | Below

  function GetValidOrderDirection(order: OrderParam): Direction
  {
    if order.AscParam? then Asc else Desc
  }

  function GetOrderOperation(order: OrderParam, page: int): Operator
  {
    if page == 1 then (if order.AscParam? then AtLeast else AtMost)
    else (if order.AscParam? then Above else Below)
  }

  predicate Holds(op: Operator, key: int, pivot: int)
  {
    match op
    case AtLeast => key >= pivot
    case AtMost => key <= pivot
    case Above => key > pivot
    case Below => key < pivot
  }

  /** What `ORDER BY` with a direction leaves; equal keys come in any order. */
  predicate Sorted(rows: seq<Row>, dir: Direction)
  {
    forall i, j :: 0 <= i < j < |rows| ==> if dir.Asc? then rows[i].key <= rows[j].key else rows[i].key >= rows[j].key
  }

  /** The order the caller asked for: keys ascending for "asc", descending for "desc" and for anything else. */
  predicate AsAsked(rows: seq<Row>, order: OrderParam)
  {
    match order
    case AscParam => forall i, j :: 0 <= i < j < |rows| ==> rows[i].key <= rows[j].key
    case DescParam => forall i, j :: 0 <= i < j < |rows| ==> rows[i].key >= rows[j].key
    case OtherParam => forall i, j :: 0 <= i < j < |rows| ==> rows[i].key >= rows[j].key
  }

  /** The query sorts its rows as they were asked for. */
  lemma {:induction false} QuerySortsAsAsked(rows: seq<Row>, order: OrderParam)
    ensures Sorted(rows, GetValidOrderDirection(order)) <==> AsAsked(rows, order)
  {
    if Sorted(rows, GetValidOrderDirection(order)) {
      assert AsAsked(rows, order);
    }
  }

  function Select(rows: seq<Row>, op: Operator, pivot: int): seq<Row>
  {
    if rows == [] then []
    else (if Holds(op, rows[0].key, pivot) then [rows[0]] else []) + Select(rows[1..], op, pivot)
  }

  function Take(rows: seq<Row>, limit: nat): seq<Row> { rows[..Min(limit, |rows|)] }

  /** The rank of the row whose key is the pivot. */
  function PivotRank(page: int, limit: int): int { Max((page - 1) * limit, 1) }

  /** `buildFileQuery`: the rows beyond the key at the pivot's rank, up to the limit; without such a row the
      comparison is with NULL and selects nothing. */
  function KeysetPage(rows: seq<Row>, order: OrderParam, page: int, limit: nat): seq<Row>
  {
    var rank := PivotRank(page, limit);
    if rank > |rows| then []
    else Take(Select(rows, GetOrderOperation(order, page), rows[rank - 1].key), limit)
  }

  /** The simple form: skip the earlier pages, take one. */
  function OffsetPage(rows: seq<Row>, page: nat, limit: nat): seq<Row>
    requires page >= 1
  {
    var skip := (page - 1) * limit;
    if skip > |rows| then [] else Take(rows[skip..], limit)
  }

  /** The last row before the page and the first row of it have different keys (or there is no such pair). */
  predicate BoundaryClear(rows: seq<Row>, page: nat, limit: nat)
    requires page >= 1
  {
    var skip := (page - 1) * limit;
    0 < skip < |rows| ==> rows[skip - 1].key != rows[skip].key
  }

  lemma {:induction false} SelectSuffix(rows: seq<Row>, op: Operator, pivot: int, r: nat)
    requires r <= |rows|
    requires forall i :: 0 <= i < |rows| ==> (Holds(op, rows[i].key, pivot) <==> i >= r)
    ensures Select(rows, op, pivot) == rows[r..]
  {
    if rows == [] {
    } else {
      assert Holds(op, rows[0].key, pivot) <==> 0 >= r;
      if r == 0 {
        SelectSuffix(rows[1..], op, pivot, 0);
      } else {
        SelectSuffix(rows[1..], op, pivot, r - 1);
        assert rows[1..][r - 1..] == rows[r..];
      }
    }
  }

  lemma {:induction false} SelectHolds(rows: seq<Row>, op: Operator, pivot: int)
    ensures forall i :: 0 <= i < |Select(rows, op, pivot)| ==> Holds(op, Select(rows, op, pivot)[i].key, pivot)
  {
    if rows == [] {
    } else {
      SelectHolds(rows[1..], op, pivot);
    }
  }

  lemma {:induction false} FirstPage(rows: seq<Row>, order: OrderParam, limit: nat)
    requires limit >= 1 && AsAsked(rows, order)
    ensures KeysetPage(rows, order, 1, limit) == OffsetPage(rows, 1, limit)
  {
    if rows != [] {
      SelectSuffix(rows, GetOrderOperation(order, 1), rows[0].key, 0);
    }
    assert rows[0..] == rows;
  }

  /** In a sorted list a key that differs from its successor's splits the rows before it from those after it. */
  lemma {:induction false} PivotSplits(rows: seq<Row>, order: OrderParam, page: nat, skip: nat)
    requires page >= 2 && 1 <= skip <= |rows| && AsAsked(rows, order)
    requires skip < |rows| ==> rows[skip - 1].key != rows[skip].key
    ensures forall i :: 0 <= i < |rows| ==>
              (Holds(GetOrderOperation(order, page), rows[i].key, rows[skip - 1].key) <==> i >= skip)
  {
    forall i | 0 <= i < |rows|
      ensures Holds(GetOrderOperation(order, page), rows[i].key, rows[skip - 1].key) <==> i >= skip
    {
      if i < skip - 1 {
        assert if order.AscParam? then rows[i].key <= rows[skip - 1].key else rows[i].key >= rows[skip - 1].key;
      } else if i > skip {
        assert if order.AscParam? then rows[skip].key <= rows[i].key else rows[skip].key >= rows[i].key;
      }
    }
  }

  lemma {:induction false} PivotExcluded(order: OrderParam, page: nat, pivot: int)
    requires page >= 2
    ensures !Holds(GetOrderOperation(order, page), pivot, pivot)
  {
  }

  lemma {:induction false} LaterPage(rows: seq<Row>, order: OrderParam, page: nat, limit: nat, skip: nat)
    requires page >= 2 && limit >= 1 && skip == (page - 1) * limit && skip >= 1
    requires AsAsked(rows, order)
    ensures KeysetPage(rows, order, page, limit) == OffsetPage(rows, page, limit) <==> BoundaryClear(rows, page, limit)
  {
    hide AsAsked, Holds;
    if skip <= |rows| {
      var op, pivot := GetOrderOperation(order, page), rows[skip - 1].key;
      if BoundaryClear(rows, page, limit) {
        PivotSplits(rows, order, page, skip);
        SelectSuffix(rows, op, pivot, skip);
      } else {
        SelectHolds(rows, op, pivot);
        PivotExcluded(order, page, pivot);
        assert OffsetPage(rows, page, limit)[0] == rows[skip];
      }
    }
  }

  lemma {:induction false} SliceFrom(rows: seq<Row>, skip: nat, limit: nat)
    ensures skip <= |rows| ==> Take(rows[skip..], limit) == rows[skip..Min(skip + limit, |rows|)]
  {
    if skip <= |rows| {
      assert Take(rows[skip..], limit) == rows[skip..Min(skip + limit, |rows|)];
    }
  }

  /** The offset page is a slice of the listing. */
  lemma {:induction false} OffsetIsSlice(rows: seq<Row>, page: nat, limit: nat)
    requires page >= 1
    ensures 0 <= (page - 1) * limit <= page * limit
    ensures OffsetPage(rows, page, limit) == rows[Min((page - 1) * limit, |rows|)..Min(page * limit, |rows|)]
  {
    MulNext(page - 1, page, limit);
    MulLe(0, page - 1, limit);
    SliceFrom(rows, (page - 1) * limit, limit);
  }

  /** The keyset page is the offset page exactly when no run of equal keys crosses the page's first boundary. */
  lemma {:induction false} KeysetIsOffset(rows: seq<Row>, order: OrderParam, page: nat, limit: nat)
    requires page >= 1 && limit >= 1 && AsAsked(rows, order)
    ensures KeysetPage(rows, order, page, limit) == OffsetPage(rows, page, limit) <==> BoundaryClear(rows, page, limit)
    ensures 0 <= (page - 1) * limit <= page * limit
    ensures BoundaryClear(rows, page, limit) ==>
              KeysetPage(rows, order, page, limit) == rows[Min((page - 1) * limit, |rows|)..Min(page * limit, |rows|)]
  {
    OffsetIsSlice(rows, page, limit);
    if page == 1 {
      FirstPage(rows, order, limit);
    } else {
      MulLe(1, page - 1, limit);
      LaterPage(rows, order, page, limit, (page - 1) * limit);
    }
  }

  // ---- Going through all pages ----------------------------------------------------------------

  /** The number of pages reported with a page that has rows: the rows counted, divided by the limit, rounded up. */
  function TotalPages(count: nat, limit: nat): nat
    requires limit >= 1
  {
    (count + limit - 1) / limit
  }

  /** Pages 1 to `n`, one after another. */
  function PagesUpTo(rows: seq<Row>, order: OrderParam, n: nat, limit: nat): seq<Row>
  {
    if n == 0 then [] else PagesUpTo(rows, order, n - 1, limit) + KeysetPage(rows, order, n, limit)
  }

  lemma {:induction false} PrefixPlus(rows: seq<Row>, skip: nat, limit: nat)
    ensures skip <= |rows| ==> rows[..skip] + Take(rows[skip..], limit) == rows[..Min(skip + limit, |rows|)]
  {
    if skip <= |rows| {
      assert rows[..skip] + Take(rows[skip..], limit) == rows[..Min(skip + limit, |rows|)];
    }
  }

  lemma {:induction false} NextPrefix(rows: seq<Row>, n: nat, limit: nat)
    requires n >= 1
    ensures rows[..Max(0, Min((n - 1) * limit, |rows|))] + OffsetPage(rows, n, limit) == rows[..Min(n * limit, |rows|)]
    ensures (n - 1) * limit >= 0
    ensures (n - 1) * limit < |rows| && limit >= 1 ==> OffsetPage(rows, n, limit) != []
  {
    MulNext(n - 1, n, limit);
    MulLe(0, n - 1, limit);
    PrefixPlus(rows, (n - 1) * limit, limit);
  }

  lemma {:induction false} PagesArePrefix(rows: seq<Row>, order: OrderParam, n: nat, limit: nat)
    requires limit >= 1 && AsAsked(rows, order)
    requires forall page :: 1 <= page <= n ==> BoundaryClear(rows, page, limit)
    ensures PagesUpTo(rows, order, n, limit) == rows[..Min(n * limit, |rows|)]
  {
    hide KeysetPage, AsAsked, BoundaryClear;
    if n == 0 {
    } else {
      PagesArePrefix(rows, order, n - 1, limit);
      KeysetIsOffset(rows, order, n, limit);
      NextPrefix(rows, n, limit);
    }
  }

  lemma {:induction false} EnoughPages(count: nat, limit: nat)
    requires limit >= 1
    ensures TotalPages(count, limit) * limit >= count
    ensures count > 0 ==> (TotalPages(count, limit) - 1) * limit < count
    ensures count == 0 ==> TotalPages(count, limit) == 0
  {
    var n := TotalPages(count, limit);
    DivMod(count + limit - 1, limit);
    MulDiff(n, 1, limit);
    if count == 0 {
      DivModUnique(limit - 1, 0, limit - 1, limit);
    }
  }

  lemma {:induction false} ShortPage(rows: seq<Row>, order: OrderParam, page: nat, limit: nat)
    ensures |KeysetPage(rows, order, page, limit)| <= limit
  {
    hide Select;
  }

  lemma {:induction false} ShortPages(rows: seq<Row>, order: OrderParam, n: nat, limit: nat)
    ensures |PagesUpTo(rows, order, n, limit)| <= n * limit
  {
    hide KeysetPage;
    if n == 0 {
    } else {
      ShortPage(rows, order, n, limit);
      ShortPages(rows, order, n - 1, limit);
      MulDiff(n, 1, limit);
    }
  }

  /** Every row of page `q` lies strictly beyond the last row before any earlier page `p`. */
  lemma {:induction false} PageBeyond(rows: seq<Row>, order: OrderParam, p: nat, q: nat, limit: nat, skip: nat)
    requires 2 <= p <= q && limit >= 1 && AsAsked(rows, order)
    requires skip == (p - 1) * limit && 0 < skip <= |rows|
    ensures forall i :: 0 <= i < |KeysetPage(rows, order, q, limit)| ==>
              Holds(GetOrderOperation(order, p), KeysetPage(rows, order, q, limit)[i].key, rows[skip - 1].key)
  {
    MulLe(p - 1, q - 1, limit);
    var rank := PivotRank(q, limit);
    if rank <= |rows| {
      SelectHolds(rows, GetOrderOperation(order, q), rows[rank - 1].key);
      assert rank > skip ==>
          if order.AscParam? then rows[skip - 1].key <= rows[rank - 1].key else rows[skip - 1].key >= rows[rank - 1].key;
    }
  }

  /** Pages from `p` on add only rows strictly beyond the last row before page `p`. */
  lemma {:induction false} PagesBeyond(rows: seq<Row>, order: OrderParam, p: nat, n: nat, limit: nat, skip: nat)
    requires 2 <= p <= n + 1 && limit >= 1 && AsAsked(rows, order)
    requires skip == (p - 1) * limit && 0 < skip <= |rows|
    ensures forall i :: skip <= i < |PagesUpTo(rows, order, n, limit)| ==>
              Holds(GetOrderOperation(order, p), PagesUpTo(rows, order, n, limit)[i].key, rows[skip - 1].key)
  {
    hide KeysetPage, AsAsked, Holds;
    if n + 1 == p {
      ShortPages(rows, order, n, limit);
    } else {
      PagesBeyond(rows, order, p, n - 1, limit, skip);
      PageBeyond(rows, order, p, n, limit, skip);
    }
  }

  /** A tie across a boundary loses the row after it, or shows it in the wrong place. */
  lemma {:induction false} TieBreaksListing(rows: seq<Row>, order: OrderParam, page: nat, n: nat, limit: nat)
    requires 1 <= page <= n && limit >= 1 && AsAsked(rows, order)
    requires !BoundaryClear(rows, page, limit)
    ensures PagesUpTo(rows, order, n, limit) != rows
  {
    hide AsAsked, Holds, PagesUpTo;
    var skip := (page - 1) * limit;
    PagesBeyond(rows, order, page, n, limit, skip);
    PivotExcluded(order, page, rows[skip].key);
  }

  /** The pages 1 to TotalPages list every row once, in order, with no gap and no repeat, exactly when no run of equal
      keys crosses a page boundary; then every one of them has a row. */
  lemma {:induction false} PagesListEverything(rows: seq<Row>, order: OrderParam, limit: nat)
    requires limit >= 1 && AsAsked(rows, order)
    ensures PagesUpTo(rows, order, TotalPages(|rows|, limit), limit) == rows <==>
            forall page :: 1 <= page <= TotalPages(|rows|, limit) ==> BoundaryClear(rows, page, limit)
    ensures (forall page :: 1 <= page <= TotalPages(|rows|, limit) ==> BoundaryClear(rows, page, limit)) ==>
              forall page :: 1 <= page <= TotalPages(|rows|, limit) ==> KeysetPage(rows, order, page, limit) != []
  {
    hide KeysetPage, AsAsked, TotalPages, OffsetPage, BoundaryClear;
    var n := TotalPages(|rows|, limit);
    EnoughPages(|rows|, limit);
    if page :| 1 <= page <= n && !BoundaryClear(rows, page, limit) {
      TieBreaksListing(rows, order, page, n, limit);
    } else {
      PagesArePrefix(rows, order, n, limit);
      assert rows[..|rows|] == rows;
      forall page | 1 <= page <= n
        ensures KeysetPage(rows, order, page, limit) != []
      {
        KeysetIsOffset(rows, order, page, limit);
        NextPrefix(rows, page, limit);
        MulLe(page - 1, n - 1, limit);
      }
    }
  }

  /** With distinct keys, as for names in one folder, the pages list everything. */
  lemma {:induction false} DistinctKeysListEverything(rows: seq<Row>, order: OrderParam, limit: nat)
    requires limit >= 1 && AsAsked(rows, order)
    requires forall i, j :: 0 <= i < j < |rows| ==> rows[i].key != rows[j].key
    ensures PagesUpTo(rows, order, TotalPages(|rows|, limit), limit) == rows
  {
    hide PagesUpTo, AsAsked, TotalPages;
    PagesListEverything(rows, order, limit);
  }

  /** Two rows with equal keys on either side of a page boundary: the second is on no page. */
  lemma {:induction false} TiesAreLost()
    ensures var rows := [Row(1, 7), Row(2, 7)];
            && AsAsked(rows, AscParam)
            && PagesUpTo(rows, AscParam, TotalPages(2, 1), 1) == [Row(1, 7)]
  {
    var rows := [Row(1, 7), Row(2, 7)];
    assert Select(rows[1..], AtLeast, 7) == [Row(2, 7)];
    assert Select(rows[1..], Above, 7) == [];
    assert KeysetPage(rows, AscParam, 1, 1) == [Row(1, 7)];
    assert KeysetPage(rows, AscParam, 2, 1) == [];
    assert PagesUpTo(rows, AscParam, 1, 1) == [Row(1, 7)];
  }
}
