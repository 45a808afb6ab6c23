/**
 `getList`: pagination defaults and arithmetic, and the WHERE filter built
 from the keyword search and the caller's additional filter. The two
 database queries (count the matching rows, fetch one page) are the
 collaborator's; the model takes the count as a parameter and states what a
 `LIMIT offset, n` page then holds.
 */
module ListQuery {
  import opened PhpValue
  import opened Strings
  import opened Descriptor
  import opened Entity
  import opened Assoc

  /** The `page`, `recordsPerPage` and `orderBy` entries of the request (NULL when missing). */
  datatype Pagination = Pagination(page: Value, recordsPerPage: Value, orderBy: Value)

  const DefaultPage := 1
  const DefaultRecordsPerPage := 15

  /** The pagination after defaulting each falsy entry. */
  function WithDefaults(pk: string, p: Pagination): (r: Pagination)
    ensures Truthy(r.page) && Truthy(r.recordsPerPage) && Truthy(r.orderBy)
    ensures r.page == if Truthy(p.page) then p.page else Int(DefaultPage)
    ensures r.recordsPerPage == if Truthy(p.recordsPerPage) then p.recordsPerPage else Int(DefaultRecordsPerPage)
    ensures r.orderBy == if Truthy(p.orderBy) then p.orderBy else Str("p." + pk + " ASC")
  {
    Pagination(
      if !Truthy(p.page) then Int(DefaultPage) else p.page,
      if !Truthy(p.recordsPerPage) then Int(DefaultRecordsPerPage) else p.recordsPerPage,
      if !Truthy(p.orderBy) then Str("p." + pk + " ASC") else p.orderBy)
  }

  // ------------------------------------------------------------- arithmetic

  /** PHP `floor($a / $b)` on integers. */
  function FloorDiv(a: int, b: int): (q: int)
    requires b != 0
    ensures b > 0 ==> q * b <= a < q * b + b
    ensures b < 0 ==> q * b >= a > q * b + b
  {
    if b > 0 then a / b
    else
      var q := (-a) / (-b);
      assert q * (-b) == -(q * b);
      q
  }

  function Abs(b: int): nat {
    if b >= 0 then b else -b
  }

  /**
   PHP `$a % $b`: the remainder takes the sign of `a` and is smaller than `b`
   in magnitude; `TruncModIsRemainder` shows it differs from `a` by a multiple
   of `b`.
   */
  function TruncMod(a: int, b: int): (m: int)
    requires b != 0
    ensures a >= 0 ==> 0 <= m < Abs(b)
    ensures a < 0 ==> -m < Abs(b) && m <= 0
  {
    var n := Abs(b);
    if a >= 0 then a % n else -((-a) % n)
  }

  /**
   The remainder pins the value: `a - $a % $b` is a multiple of `b`, and for
   the non-negative operands of the page count it completes `floor`.
   */
  lemma TruncModIsRemainder(a: int, b: int)
    requires b != 0
    ensures (a - TruncMod(a, b)) % Abs(b) == 0
    ensures a >= 0 && b > 0 ==> a == FloorDiv(a, b) * b + TruncMod(a, b)
  {
    var n := Abs(b);
    if a >= 0 {
      RemainderDifference(a, n);
    } else {
      RemainderDifference(-a, n);
      assert a - -((-a) % n) == -(-a - (-a) % n);
    }
  }

  /** Taking away the remainder leaves a multiple of `n`. */
  lemma RemainderDifference(a: int, n: int)
    requires n > 0
    ensures (a - a % n) % n == 0
    ensures (-(a - a % n)) % n == 0
  {
    var q := a / n;
    assert a - a % n == q * n;
    assert -(q * n) == (-q) * n;
    MultipleMod(q, n);
    MultipleMod(-q, n);
  }

  /** A multiple of `n` leaves no remainder. */
  lemma MultipleMod(k: int, n: int)
    requires n > 0
    ensures (k * n) % n == 0
  {
    var x := k * n;
    var d := k - x / n;
    assert x % n == d * n;
    if d > 0 {
      MulMonotone(1, d, n);
    } else if d < 0 {
      MulMonotone(d, -1, n);
    }
  }

  /** `floor(records / rpp)`, plus one when the remainder is positive. */
  function PageCount(records: nat, rpp: int): int
    requires rpp != 0
  {
    FloorDiv(records, rpp) + (if TruncMod(records, rpp) > 0 then 1 else 0)
  }

  /** `pages` is the ceiling of records / rpp: the fewest pages of `rpp` rows that hold every record. */
  predicate CeilingPages(pages: int, records: nat, rpp: int) {
    pages >= 0 && ((pages - 1) * rpp < records <= pages * rpp || records == pages == 0)
  }

  /** The page count `getList` reports; for a positive page size, the ceiling of records / rpp. */
  function Pages(records: nat, rpp: int): (pages: int)
    requires rpp != 0
    ensures rpp > 0 ==> CeilingPages(pages, records, rpp)
  {
    if rpp > 0 then PageCountIsCeiling(records, rpp); PageCount(records, rpp)
    else PageCount(records, rpp)
  }

  /** With a positive page size the page count is the ceiling of records / rpp. */
  lemma PageCountIsCeiling(records: nat, rpp: int)
    requires rpp > 0
    ensures CeilingPages(PageCount(records, rpp), records, rpp)
  {
    var q := records / rpp;
    var m := records % rpp;
    assert records == q * rpp + m;
    if m > 0 {
      assert PageCount(records, rpp) == q + 1;
      assert (q + 1) * rpp == q * rpp + rpp;
    } else {
      assert PageCount(records, rpp) == q;
      if q > 0 {
        assert (q - 1) * rpp == q * rpp - rpp;
      }
    }
  }

  /** The rows `LIMIT offset, limit` keeps of a result of `records` rows. */
  function RowsOnPage(records: nat, offset: nat, limit: nat): (n: nat)
    ensures n <= limit
    ensures records <= offset ==> n == 0
    ensures records > offset ==> offset + n <= records && (n == limit || offset + n == records)
  {
    if records <= offset then 0
    else if records - offset < limit then records - offset
    else limit
  }

  /** The rows on pages 1..`pages` with `rpp` rows per page. */
  function RowsUpTo(records: nat, pages: nat, rpp: nat): nat {
    if pages == 0 then 0 else RowsUpTo(records, pages - 1, rpp) + RowsOnPage(records, (pages - 1) * rpp, rpp)
  }

  /** The first `p` pages together hold min(records, p * rpp) rows. */
  lemma {:induction false} RowsUpToIsPrefix(records: nat, p: nat, rpp: nat)
    ensures RowsUpTo(records, p, rpp) == if p * rpp <= records then p * rpp else records
  {
    if p > 0 {
      RowsUpToIsPrefix(records, p - 1, rpp);
      assert (p - 1) * rpp + rpp == p * rpp;
    }
  }

  /**
   Every page up to the page count is non-empty, every later page is empty,
   and the pages together hold each record exactly once.
   */
  lemma PagesPartitionRecords(records: nat, rpp: int, page: int)
    requires rpp > 0 && page >= 1
    ensures page <= PageCount(records, rpp) ==> RowsOnPage(records, (page - 1) * rpp, rpp) > 0
    ensures page > PageCount(records, rpp) ==> RowsOnPage(records, (page - 1) * rpp, rpp) == 0
    ensures RowsUpTo(records, PageCount(records, rpp), rpp) == records
  {
    PageCountIsCeiling(records, rpp);
    var pages := PageCount(records, rpp);
    RowsUpToIsPrefix(records, pages, rpp);
    if page <= pages {
      MulMonotone(page - 1, pages - 1, rpp);
    } else {
      MulMonotone(pages, page - 1, rpp);
    }
  }

  lemma MulMonotone(a: int, b: int, c: nat)
    requires a <= b
    ensures a * c <= b * c
  {
    assert b * c - a * c == (b - a) * c;
  }

  /** 37 records at 15 per page: 3 pages holding 15, 15 and 7 rows, and page 4 empty. */
  lemma ThirtySevenRecords()
    ensures PageCount(37, 15) == 3
    ensures RowsOnPage(37, 0, 15) == 15 && RowsOnPage(37, 30, 15) == 7 && RowsOnPage(37, 45, 15) == 0
  {
  }

  // ----------------------------------------------------------------- filter

  /**
   The columns the keywords are searched in: the declared search columns that
   exist in the descriptor, or every descriptor column when none is declared.
   */
  function KeywordColumns(et: EntityType): (r: seq<string>)
    ensures forall k :: 0 <= k < |r| ==> HasColumn(et.desc, r[k])
    ensures |et.searchColumns| > 0 ==> forall c :: c in r <==> c in et.searchColumns && HasColumn(et.desc, c)
    ensures |et.searchColumns| == 0 ==> r == ColumnNames(et.desc)
  {
    if |et.searchColumns| > 0 then KnownColumns(et.desc, et.searchColumns) else ColumnNames(et.desc)
  }

  /** The declared search columns keep their declared order. */
  lemma KeywordColumnsInOrder(et: EntityType)
    requires |et.searchColumns| > 0
    ensures Subsequence(KeywordColumns(et), et.searchColumns)
  {
    assert KeywordColumns(et) == KnownColumns(et.desc, et.searchColumns);
    KnownColumnsInOrder(et.desc, et.searchColumns);
  }

  function KnownColumns(d: TableDescriptor, names: seq<string>): (r: seq<string>)
    ensures forall c :: c in r <==> c in names && HasColumn(d, c)
    ensures forall k :: 0 <= k < |r| ==> HasColumn(d, r[k])
  {
    if |names| == 0 then []
    else if HasColumn(d, names[0]) then [names[0]] + KnownColumns(d, names[1..])
    else KnownColumns(d, names[1..])
  }

  /** The known columns keep the order of the names. */
  lemma {:induction false} KnownColumnsInOrder(d: TableDescriptor, names: seq<string>)
    ensures Subsequence(KnownColumns(d, names), names)
    decreases |names|
  {
    if |names| > 0 {
      KnownColumnsInOrder(d, names[1..]);
      var rest := KnownColumns(d, names[1..]);
      if HasColumn(d, names[0]) {
        assert ([names[0]] + rest)[1..] == rest;
      }
    }
  }

  /** `(col LIKE '%keywords%')`. */
  function LikeClause(col: string, keywords: string): string {
    "(" + col + " LIKE '%" + keywords + "%')"
  }

  function LikeClauses(cols: seq<string>, keywords: string): (r: seq<string>)
    ensures |r| == |cols|
    ensures forall k :: 0 <= k < |r| ==> r[k] == LikeClause(cols[k], keywords)
  {
    if |cols| == 0 then [] else [LikeClause(cols[0], keywords)] + LikeClauses(cols[1..], keywords)
  }

  /**
   The keyword part of the WHERE filter as the layer assembles it: `(1)`,
   then, with keywords and columns to search, the LIKE clauses each followed by
   ` OR ` with the last ` OR ` cut off.
   */
  function KeywordPart(et: EntityType, keywords: Value): string {
    var cols := KeywordColumns(et);
    if !IsBlank(keywords) && |cols| > 0 then
      "(1)" + " AND ( " + DropLast(Suffixed(LikeClauses(cols, Text(keywords)), " OR "), 4) + " )"
    else "(1)"
  }

  /** The additional filter part: ` AND (filter)` or nothing. */
  function AdditionalPart(additional: Value): string {
    if IsBlank(additional) then "" else " AND (" + Text(additional) + ")"
  }

  /** The WHERE filter of both `getList` queries. */
  function ListFilter(et: EntityType, keywords: Value, additional: Value): string {
    KeywordPart(et, keywords) + AdditionalPart(additional)
  }

  /**
   The filter is `(1)`, then, only when there are keywords and columns to
   search, the OR of one LIKE clause per column, then the additional filter.
   */
  lemma ListFilterShape(et: EntityType, keywords: Value, additional: Value)
    ensures var cols := KeywordColumns(et);
      ListFilter(et, keywords, additional) ==
        if !IsBlank(keywords) && |cols| > 0 then
          "(1)" + " AND ( " + Join(LikeClauses(cols, Text(keywords)), " OR ") + " )" + AdditionalPart(additional)
        else "(1)" + AdditionalPart(additional)
  {
    var cols := KeywordColumns(et);
    if !IsBlank(keywords) && |cols| > 0 {
      DropLastSuffixedIsJoin(LikeClauses(cols, Text(keywords)), " OR ");
    }
  }

  // ----------------------------------------------------------------- getList

  /** What `getList` computes besides the fetched rows. */
  datatype ListPlan = ListPlan(
    page: Value,
    recordsPerPage: Value,
    orderBy: Value,
    pages: int,
    records: nat,
    offset: int,
    filter: string)

  /** `getList` either plans the page or stops on a zero page size (PHP's modulo by zero). */
  datatype ListOutcome = Planned(plan: ListPlan) | DivisionByZero

  /**
   `getList` with `records` the number of rows the count query found:
   defaults, page count, offset and filter.
   */
  function GetList(et: EntityType, keywords: Value, p: Pagination, additional: Value, records: nat): (r: ListOutcome)
    ensures var e := WithDefaults(PkName(et), p);
      r.DivisionByZero? <==> AsNumber(e.recordsPerPage) == 0
    ensures r.Planned? ==>
      var e := WithDefaults(PkName(et), p);
      && r.plan.page == e.page && r.plan.recordsPerPage == e.recordsPerPage && r.plan.orderBy == e.orderBy
      && r.plan.records == records
      && r.plan.offset == (AsNumber(e.page) - 1) * AsNumber(e.recordsPerPage)
      && r.plan.filter == ListFilter(et, keywords, additional)
    ensures r.Planned? && AsNumber(r.plan.recordsPerPage) > 0 ==>
      CeilingPages(r.plan.pages, records, AsNumber(r.plan.recordsPerPage))
  {
    var e := WithDefaults(PkName(et), p);
    var rpp := AsNumber(e.recordsPerPage);
    if rpp == 0 then DivisionByZero
    else
      var pages := Pages(records, rpp);
      Planned(ListPlan(e.page, e.recordsPerPage, e.orderBy, pages, records,
        (AsNumber(e.page) - 1) * rpp, ListFilter(et, keywords, additional)))
  }
}
