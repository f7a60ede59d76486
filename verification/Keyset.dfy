/** Keyset paging over an ascending listing: what one page is, and that scanning page by page is the full read. */
module Keyset {
  import opened Wrappers
  import opened Order

  /** A stored text at its sort position. */
  datatype Entry = Entry(pos: seq<int>, text: string)

  function EntryPos(e: Entry): seq<int> { e.pos }

  datatype QueryLimits = QueryLimits(
    defaultPageSize: nat, maxPageSize: nat, maxRecordBytes: nat, maxPageBytes: nat, maxScanEntries: nat)

  datatype PageError =
    | InvalidQueryLimits(reason: string)
    | PageLimitExceeded(requested: nat, maximum: nat)
    | RecordTooLarge(actual: nat, maximum: nat)
    | PageTooLarge(actual: nat, maximum: nat)
    | PageScanTooLarge(actual: nat, maximum: nat)
    | Json

  /** A cursor is the position of the last entry a page returned. */
  datatype Page<+T> = Page(items: seq<T>, next: Option<seq<int>>, hasMore: bool)

  const USIZE_MAX: nat := 0xFFFF_FFFF_FFFF_FFFF

  function SaturatingAdd(a: nat, b: nat): nat {
    if a + b > USIZE_MAX then USIZE_MAX else a + b
  }

  function Utf8Length(s: string): nat {
    if s == [] then 0 else
      (if s[0] as int < 0x80 then 1 else if s[0] as int < 0x800 then 2 else if s[0] as int < 0x10000 then 3 else 4)
      + Utf8Length(s[1..])
  }

  /** Every limit is positive, and the default page is no larger than the largest. */
  function Validate(q: QueryLimits): (r: Option<PageError>)
    ensures r.None? <==>
              && 0 < q.defaultPageSize <= q.maxPageSize && q.maxRecordBytes > 0 && q.maxPageBytes > 0
              && q.maxScanEntries > 0
    ensures r.Some? ==> r.value.InvalidQueryLimits?
  {
    if q.defaultPageSize == 0 then Some(InvalidQueryLimits("default page size must be greater than zero"))
    else if q.maxPageSize == 0 then Some(InvalidQueryLimits("maximum page size must be greater than zero"))
    else if q.defaultPageSize > q.maxPageSize then
      Some(InvalidQueryLimits("default page size must not exceed maximum page size"))
    else if q.maxRecordBytes == 0 then Some(InvalidQueryLimits("maximum record bytes must be greater than zero"))
    else if q.maxPageBytes == 0 then Some(InvalidQueryLimits("maximum page bytes must be greater than zero"))
    else if q.maxScanEntries == 0 then Some(InvalidQueryLimits("maximum json scan entries must be greater than zero"))
    else None
  }

  /** A page always has room for at least one entry and never for more than the maximum. */
  function NormalizeLimit(q: QueryLimits, requested: Option<nat>): (r: Result<nat, PageError>)
    ensures r.Ok? ==> 1 <= r.value <= q.maxPageSize
    ensures r.Ok? ==>
              r.value == if requested.Some? && requested.value > 0 then requested.value else q.defaultPageSize
    ensures r.Err? && Validate(q).None? ==>
              requested.Some? && r.error == PageLimitExceeded(requested.value, q.maxPageSize)
    ensures r.Err? <==> Validate(q).Some? || (requested.Some? && requested.value > q.maxPageSize)
  {
    if Validate(q).Some? then Err(Validate(q).value)
    else
      var limit := if requested.Some? then requested.value else q.defaultPageSize;
      if limit == 0 then Ok(q.defaultPageSize)
      else if limit > q.maxPageSize then Err(PageLimitExceeded(limit, q.maxPageSize))
      else Ok(limit)
  }

  // ----- one page -----

  function Take<T>(s: seq<T>, n: nat): seq<T> {
    if |s| <= n then s else s[..n]
  }

  predicate IsBeyond(e: Entry, cursor: Option<seq<int>>) {
    cursor.None? || Less(cursor.value, e.pos)
  }

  function Beyond(s: seq<Entry>, cursor: Option<seq<int>>): (r: seq<Entry>)
    ensures forall e :: e in r <==> e in s && IsBeyond(e, cursor)
  {
    if s == [] then []
    else
      assert s == [s[0]] + s[1..];
      (if IsBeyond(s[0], cursor) then [s[0]] else []) + Beyond(s[1..], cursor)
  }

  lemma BeyondOfMore(e: Entry, s: seq<Entry>, cursor: Option<seq<int>>)
    ensures Beyond([e] + s, cursor) == (if IsBeyond(e, cursor) then [e] else []) + Beyond(s, cursor)
  {
    assert ([e] + s)[1..] == s;
  }

  /** One more row on a page of `total` bytes so far: the new total and the item, or why the row is refused. */
  function Admit<T>(total: nat, text: string, q: QueryLimits, decode: string -> Option<T>): Result<(nat, T), PageError> {
    var bytes := Utf8Length(text);
    var total' := SaturatingAdd(total, bytes);
    if bytes > q.maxRecordBytes then Err(RecordTooLarge(bytes, q.maxRecordBytes))
    else if total' > q.maxPageBytes then Err(PageTooLarge(total', q.maxPageBytes))
    else if decode(text).None? then Err(Json)
    else Ok((total', decode(text).value))
  }

  /** A row is refused for its own size first, then for the page's, then for not decoding, with the sizes compared. */
  lemma AdmitExactly<T>(total: nat, text: string, q: QueryLimits, decode: string -> Option<T>)
    ensures var r, bytes := Admit(total, text, q, decode), Utf8Length(text);
            && (bytes > q.maxRecordBytes <==> r == Err(RecordTooLarge(bytes, q.maxRecordBytes)))
            && (bytes <= q.maxRecordBytes && SaturatingAdd(total, bytes) > q.maxPageBytes
                <==> r == Err(PageTooLarge(SaturatingAdd(total, bytes), q.maxPageBytes)))
            && (bytes <= q.maxRecordBytes && SaturatingAdd(total, bytes) <= q.maxPageBytes && decode(text).None?
                <==> r == Err(Json))
            && (r.Ok? ==> r.value.0 == SaturatingAdd(total, bytes) && Some(r.value.1) == decode(text))
  {
  }

  /** The decoded rows, or the first refused row's error. */
  function Collect<T>(rows: seq<Entry>, total: nat, q: QueryLimits, decode: string -> Option<T>)
    : Result<seq<T>, PageError>
  {
    if rows == [] then Ok([])
    else
      var first := Admit(total, rows[0].text, q, decode);
      if first.Err? then Err(first.error)
      else
        var rest := Collect(rows[1..], first.value.0, q, decode);
        if rest.Err? then rest else Ok([first.value.1] + rest.value)
  }

  /** The same outcome with some items already collected before these rows. */
  ghost predicate Continues<T>(
    whole: Result<seq<T>, PageError>, items: seq<T>, rest: Result<seq<T>, PageError>)
  {
    whole == if rest.Err? then rest else Ok(items + rest.value)
  }

  lemma NothingYet<T>(whole: Result<seq<T>, PageError>)
    ensures Continues(whole, [], whole)
  {
    if whole.Ok? { assert [] + whole.value == whole.value; }
  }

  lemma OneMore<T>(whole: Result<seq<T>, PageError>, items: seq<T>, item: T, rest: Result<seq<T>, PageError>)
    requires Continues(whole, items, if rest.Err? then rest else Ok([item] + rest.value))
    ensures Continues(whole, items + [item], rest)
  {
    if rest.Ok? { assert items + ([item] + rest.value) == (items + [item]) + rest.value; }
  }

  function PageOf<T>(
    s: seq<Entry>, cursor: Option<seq<int>>, requested: Option<nat>, q: QueryLimits, decode: string -> Option<T>)
    : Result<Page<T>, PageError>
  {
    var limit := NormalizeLimit(q, requested);
    if limit.Err? then Err(limit.error)
    else
      var rows := Take(Beyond(s, cursor), limit.value);
      var items := Collect(rows, 0, q, decode);
      if items.Err? then Err(items.error)
      else
        var hasMore := |Beyond(s, cursor)| > limit.value;
        Ok(Page(items.value, if hasMore then Some(rows[|rows| - 1].pos) else None, hasMore))
  }

  function LastPos(rows: seq<Entry>): Option<seq<int>> {
    if rows == [] then None else Some(rows[|rows| - 1].pos)
  }

  /** A page put together from its rows, whether there are more, and the last row's position. */
  lemma PageFromRows<T>(
    s: seq<Entry>, cursor: Option<seq<int>>, requested: Option<nat>, q: QueryLimits, decode: string -> Option<T>,
    rows: seq<Entry>, more: bool)
    requires NormalizeLimit(q, requested).Ok?
    requires rows == Take(Beyond(s, cursor), NormalizeLimit(q, requested).value)
    requires more <==> |Beyond(s, cursor)| > NormalizeLimit(q, requested).value
    ensures PageOf(s, cursor, requested, q, decode) ==
              var items := Collect(rows, 0, q, decode);
              if items.Err? then Err(items.error) else Ok(Page(items.value, if more then LastPos(rows) else None, more))
  {
  }

  // ----- what a page that succeeds contains -----

  function DecodeAll<T>(s: seq<Entry>, decode: string -> Option<T>): Result<seq<T>, PageError> {
    if s == [] then Ok([])
    else if decode(s[0].text).None? then Err(Json)
    else
      var rest := DecodeAll(s[1..], decode);
      if rest.Err? then rest else Ok([decode(s[0].text).value] + rest.value)
  }

  /** Reading a listing succeeds exactly when every text decodes, and gives what they decode to, in order. */
  lemma {:induction false} DecodeExactly<T>(s: seq<Entry>, decode: string -> Option<T>)
    ensures DecodeAll(s, decode).Ok? <==> forall e :: e in s ==> decode(e.text).Some?
    ensures DecodeAll(s, decode).Ok? ==>
              && |DecodeAll(s, decode).value| == |s|
              && forall i :: 0 <= i < |s| ==> decode(s[i].text) == Some(DecodeAll(s, decode).value[i])
    ensures DecodeAll(s, decode).Err? ==> DecodeAll(s, decode) == Err(Json)
  {
    if s != [] {
      DecodeExactly(s[1..], decode);
      assert s == [s[0]] + s[1..];
    }
  }

  function Bytes(s: seq<Entry>): nat {
    if s == [] then 0 else Utf8Length(s[0].text) + Bytes(s[1..])
  }

  lemma {:induction false} CollectIsDecode<T>(
    rows: seq<Entry>, total: nat, q: QueryLimits, decode: string -> Option<T>)
    requires Collect(rows, total, q, decode).Ok? && total <= USIZE_MAX
    ensures Collect(rows, total, q, decode) == DecodeAll(rows, decode)
    ensures |Collect(rows, total, q, decode).value| == |rows|
    ensures forall e :: e in rows ==> Utf8Length(e.text) <= q.maxRecordBytes
    ensures rows != [] ==> total + Bytes(rows) <= q.maxPageBytes || q.maxPageBytes >= USIZE_MAX
  {
    if rows != [] {
      CollectIsDecode(rows[1..], SaturatingAdd(total, Utf8Length(rows[0].text)), q, decode);
      assert forall e :: e in rows ==> e == rows[0] || e in rows[1..];
    }
  }

  /** The rows fit a page that already holds `total` bytes. A saturated sum is never over the largest bound. */
  ghost predicate Fits<T>(rows: seq<Entry>, total: nat, q: QueryLimits, decode: string -> Option<T>) {
    && (forall e :: e in rows ==> Utf8Length(e.text) <= q.maxRecordBytes && decode(e.text).Some?)
    && (rows == [] || total + Bytes(rows) <= q.maxPageBytes || q.maxPageBytes >= USIZE_MAX)
  }

  lemma {:induction false} FitsInTwo<T>(rows: seq<Entry>, total: nat, q: QueryLimits, decode: string -> Option<T>)
    requires rows != [] && total <= USIZE_MAX
    ensures var total' := SaturatingAdd(total, Utf8Length(rows[0].text));
            Fits(rows, total, q, decode) <==>
              && Utf8Length(rows[0].text) <= q.maxRecordBytes && total' <= q.maxPageBytes && decode(rows[0].text).Some?
              && Fits(rows[1..], total', q, decode)
  {
    assert rows == [rows[0]] + rows[1..];
    assert Bytes(rows) == Utf8Length(rows[0].text) + Bytes(rows[1..]);
  }

  /** Collecting succeeds for exactly the rows that are each within the record bound, decode, and are together within
      the page bound: checking the running total row by row loses nothing and adds nothing. */
  lemma {:induction false} CollectExactly<T>(rows: seq<Entry>, total: nat, q: QueryLimits, decode: string -> Option<T>)
    requires total <= USIZE_MAX
    ensures Collect(rows, total, q, decode).Ok? <==> Fits(rows, total, q, decode)
  {
    if rows != [] {
      FitsInTwo(rows, total, q, decode);
      CollectExactly(rows[1..], SaturatingAdd(total, Utf8Length(rows[0].text)), q, decode);
    }
  }

  lemma {:induction false} DecodeInTwo<T>(a: seq<Entry>, b: seq<Entry>, decode: string -> Option<T>)
    ensures var x, y := DecodeAll(a, decode), DecodeAll(b, decode);
            x.Ok? && y.Ok? ==> DecodeAll(a + b, decode) == Ok(x.value + y.value)
  {
    if a == [] {
      assert a + b == b;
      assert DecodeAll(b, decode).Ok? ==> [] + DecodeAll(b, decode).value == DecodeAll(b, decode).value;
    } else {
      DecodeInTwo(a[1..], b, decode);
      assert (a + b)[1..] == a[1..] + b && (a + b)[0] == a[0];
      var x, y := DecodeAll(a, decode), DecodeAll(b, decode);
      if x.Ok? && y.Ok? {
        var tail := DecodeAll(a[1..], decode).value;
        assert [decode(a[0].text).value] + (tail + y.value) == ([decode(a[0].text).value] + tail) + y.value;
      }
    }
  }

  // ----- cursors cut an ascending listing in two -----

  lemma {:induction false} AllBeyond(s: seq<Entry>, cursor: Option<seq<int>>)
    requires forall e :: e in s ==> IsBeyond(e, cursor)
    ensures Beyond(s, cursor) == s
  {
    if s != [] {
      assert s[0] in s && forall e :: e in s[1..] ==> e in s;
      AllBeyond(s[1..], cursor);
    }
  }

  lemma {:induction false} BeyondAscends(s: seq<Entry>, cursor: Option<seq<int>>)
    requires Ascending(s, EntryPos)
    ensures Ascending(Beyond(s, cursor), EntryPos)
  {
    if s != [] {
      BeyondAscends(s[1..], cursor);
      var rest := Beyond(s[1..], cursor);
      forall j | 0 <= j < |rest| ensures Less(s[0].pos, rest[j].pos) {
        assert rest[j] in s[1..];
        var i :| 0 <= i < |s[1..]| && s[1..][i] == rest[j];
        assert Less(EntryPos(s[0]), EntryPos(s[i + 1]));
      }
    }
  }

  /** Past the last row of a page lies exactly what lay past the cursor and was not on the page. */
  lemma NextCursorContinues(s: seq<Entry>, cursor: Option<seq<int>>, n: nat)
    requires Ascending(s, EntryPos) && 1 <= n <= |Beyond(s, cursor)|
    ensures Beyond(s, Some(Beyond(s, cursor)[n - 1].pos)) == Beyond(s, cursor)[n..]
  {
    var here := Beyond(s, cursor);
    var next := Some(here[n - 1].pos);
    BeyondAscends(s, cursor);
    BeyondAscends(s, next);
    forall e ensures e in Beyond(s, next) <==> e in here[n..] {
      if e in here[n..] {
        var i :| 0 <= i < |here[n..]| && here[n..][i] == e;
        assert here[n + i] == e && e in here;
        assert Less(EntryPos(here[n - 1]), EntryPos(here[n + i]));
      }
      if e in Beyond(s, next) {
        BeyondLater(here, cursor, n, e);
      }
    }
    AscendingIsUnique(Beyond(s, next), here[n..], EntryPos);
  }

  lemma BeyondLater(here: seq<Entry>, cursor: Option<seq<int>>, n: nat, e: Entry)
    requires Ascending(here, EntryPos) && 1 <= n <= |here|
    requires IsBeyond(here[n - 1], cursor) && Less(here[n - 1].pos, e.pos)
    ensures IsBeyond(e, cursor)
    ensures e in here ==> e in here[n..]
  {
    if cursor.Some? { LessIsTransitive(cursor.value, here[n - 1].pos, e.pos); }
    if e in here {
      var i :| 0 <= i < |here| && here[i] == e;
      if i < n {
        if i < n - 1 { assert Less(EntryPos(here[i]), EntryPos(here[n - 1])); }
        LessIsAsymmetric(here[n - 1].pos, e.pos);
      }
      assert here[n..][i - n] == e;
    }
  }

  // ----- scanning a store that stands still -----

  /** Ask page after page, with whatever page size each request names, until a page says there is no more. */
  function Scan<T>(
    s: seq<Entry>, cursor: Option<seq<int>>, requests: nat -> Option<nat>, asked: nat, q: QueryLimits,
    decode: string -> Option<T>): Result<seq<T>, PageError>
    requires Ascending(s, EntryPos)
    decreases |Beyond(s, cursor)|
  {
    var page := PageOf(s, cursor, requests(asked), q, decode);
    if page.Err? then Err(page.error)
    else if !page.value.hasMore then Ok(page.value.items)
    else
      assert |Beyond(s, page.value.next)| < |Beyond(s, cursor)| by { PageShrinks(s, cursor, requests(asked), q, decode); }
      var rest := Scan(s, page.value.next, requests, asked + 1, q, decode);
      if rest.Err? then rest else Ok(page.value.items + rest.value)
  }

  lemma PageShrinks<T>(
    s: seq<Entry>, cursor: Option<seq<int>>, requested: Option<nat>, q: QueryLimits, decode: string -> Option<T>)
    requires Ascending(s, EntryPos) && PageOf(s, cursor, requested, q, decode).Ok?
    requires PageOf(s, cursor, requested, q, decode).value.hasMore
    ensures var n := NormalizeLimit(q, requested).value;
            && n < |Beyond(s, cursor)|
            && Beyond(s, PageOf(s, cursor, requested, q, decode).value.next) == Beyond(s, cursor)[n..]
  {
    hide Beyond, Collect, Less;
    NextCursorContinues(s, cursor, NormalizeLimit(q, requested).value);
  }

  /** A page holds at most the page size, no record over the record bound, and no more bytes in all than the page
      bound (unless that bound is the largest number the sum can reach). */
  lemma PageIsBounded<T>(
    s: seq<Entry>, cursor: Option<seq<int>>, requested: Option<nat>, q: QueryLimits, decode: string -> Option<T>)
    requires PageOf(s, cursor, requested, q, decode).Ok?
    ensures var page := PageOf(s, cursor, requested, q, decode).value;
            var rows := Take(Beyond(s, cursor), NormalizeLimit(q, requested).value);
            && Ok(page.items) == DecodeAll(rows, decode) && |page.items| == |rows| <= q.maxPageSize
            && (forall e :: e in rows ==> Utf8Length(e.text) <= q.maxRecordBytes)
            && (Bytes(rows) <= q.maxPageBytes || q.maxPageBytes >= USIZE_MAX)
            && (page.hasMore <==> |rows| < |Beyond(s, cursor)|)
            && (page.hasMore ==> |rows| >= 1)
  {
    CollectIsDecode(Take(Beyond(s, cursor), NormalizeLimit(q, requested).value), 0, q, decode);
  }

  /** The pages of a scan that meets no error, put together, are the full read from the cursor on: no gap, no
      repeat. */
  lemma {:induction false} ScanIsFullRead<T>(
    s: seq<Entry>, cursor: Option<seq<int>>, requests: nat -> Option<nat>, asked: nat, q: QueryLimits,
    decode: string -> Option<T>)
    requires Ascending(s, EntryPos) && Scan(s, cursor, requests, asked, q, decode).Ok?
    ensures Scan(s, cursor, requests, asked, q, decode) == DecodeAll(Beyond(s, cursor), decode)
    decreases |Beyond(s, cursor)|
  {
    var requested := requests(asked);
    var page := PageOf(s, cursor, requested, q, decode).value;
    PageIsBounded(s, cursor, requested, q, decode);
    if page.hasMore {
      PageShrinks(s, cursor, requested, q, decode);
      ScanIsFullRead(s, page.next, requests, asked + 1, q, decode);
      var here, n := Beyond(s, cursor), NormalizeLimit(q, requested).value;
      DecodeInTwo(here[..n], here[n..], decode);
      assert here == here[..n] + here[n..];
    }
  }

  /** From no cursor the scan is the whole listing. */
  lemma ScanFromStart<T>(s: seq<Entry>, requests: nat -> Option<nat>, q: QueryLimits, decode: string -> Option<T>)
    requires Ascending(s, EntryPos) && Scan(s, None, requests, 0, q, decode).Ok?
    ensures Scan(s, None, requests, 0, q, decode) == DecodeAll(s, decode)
  {
    ScanIsFullRead(s, None, requests, 0, q, decode);
    AllBeyond(s, None);
  }
}
