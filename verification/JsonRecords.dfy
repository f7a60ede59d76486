/** The json_records table with its keyset page query, which is shown to return the page of the namespace's ascending
    listing. */
module JsonRecords {
  import opened Wrappers
  import opened Order
  import opened Keyset

  datatype Record = Record(value: string, updatedAt: int)

  /** (namespace, record_key) is the primary key. */
  type Store = map<(string, string), Record>

  datatype NamespaceCursor = NamespaceCursor(updatedAt: int, key: string)

  datatype NamespacePage<+T> = NamespacePage(items: seq<T>, next: Option<NamespaceCursor>, hasMore: bool)

  datatype Row = Row(updatedAt: int, key: string, value: string)

  // ----- the table -----

  function PosOf(updatedAt: int, key: string): seq<int> { [updatedAt] + Codes(key) }

  function RowPos(r: Row): seq<int> { PosOf(r.updatedAt, r.key) }

  function CursorPos(c: Option<NamespaceCursor>): Option<seq<int>> {
    if c.None? then None else Some(PosOf(c.value.updatedAt, c.value.key))
  }

  function Upsert(s: Store, namespace: string, key: string, value: string, clock: int): Store {
    s[(namespace, key) := Record(value, clock)]
  }

  function Delete(s: Store, namespace: string, key: string): Store {
    s - {(namespace, key)}
  }

  /** WHERE updated_at > ? OR (updated_at = ? AND record_key > ?) */
  predicate After(r: Row, c: Option<NamespaceCursor>) {
    c.None? || r.updatedAt > c.value.updatedAt
    || (r.updatedAt == c.value.updatedAt && Less(Codes(c.value.key), Codes(r.key)))
  }

  lemma AfterIsBeyond(r: Row, c: Option<NamespaceCursor>)
    ensures After(r, c) <==> c.None? || Less(CursorPos(c).value, RowPos(r))
  {
    if c.Some? { LessAfterPrefix(c.value.updatedAt, Codes(c.value.key), r.updatedAt, Codes(r.key)); }
  }

  function RowsOf(s: Store, namespace: string): set<Row> {
    set p | p in s && p.0 == namespace :: Row(s[p].updatedAt, p.1, s[p].value)
  }

  predicate IsRow(s: Store, namespace: string, r: Row) {
    (namespace, r.key) in s && s[(namespace, r.key)] == Record(r.value, r.updatedAt)
  }

  lemma RowsSeparate(s: Store, namespace: string, rows: set<Row>)
    requires rows <= RowsOf(s, namespace)
    ensures Separates(RowPos, rows)
  {
    forall x, y | x in rows && y in rows && RowPos(x) == RowPos(y) ensures x == y {
      assert RowPos(x)[1..] == Codes(x.key) && RowPos(y)[1..] == Codes(y.key);
      CodesAreInjective(x.key, y.key);
    }
  }

  /** SELECT … WHERE namespace = ? [AND after the cursor] ORDER BY updated_at, record_key */
  function Query(s: Store, namespace: string, c: Option<NamespaceCursor>): (r: seq<Row>)
    ensures Ascending(r, RowPos)
    ensures forall x :: x in r <==> IsRow(s, namespace, x) && After(x, c)
  {
    var rows := set x | x in RowsOf(s, namespace) && After(x, c);
    RowsSeparate(s, namespace, rows);
    assert forall x :: x in RowsOf(s, namespace) <==> IsRow(s, namespace, x) by {
      forall x ensures x in RowsOf(s, namespace) <==> IsRow(s, namespace, x) {
        if IsRow(s, namespace, x) { assert (namespace, x.key) in s; }
      }
    }
    SortBy(rows, RowPos)
  }

  /** The rows of a query go by updated_at, then key. */
  lemma QueryOrder(s: Store, namespace: string, c: Option<NamespaceCursor>, i: nat, j: nat)
    requires i < j < |Query(s, namespace, c)|
    ensures var a, b := Query(s, namespace, c)[i], Query(s, namespace, c)[j];
            a.updatedAt < b.updatedAt || (a.updatedAt == b.updatedAt && Less(Codes(a.key), Codes(b.key)))
  {
    var a, b := Query(s, namespace, c)[i], Query(s, namespace, c)[j];
    assert Less(RowPos(a), RowPos(b));
    LessAfterPrefix(a.updatedAt, Codes(a.key), b.updatedAt, Codes(b.key));
  }

  // ----- what writers do to the listing -----

  /** The rows of the other keys, in their order. */
  function Others(rows: seq<Row>, key: string): (r: seq<Row>)
    ensures forall x :: x in r <==> x in rows && x.key != key
  {
    if rows == [] then []
    else
      assert rows == [rows[0]] + rows[1..];
      (if rows[0].key != key then [rows[0]] else []) + Others(rows[1..], key)
  }

  lemma {:induction false} OthersAscend(rows: seq<Row>, key: string)
    requires Ascending(rows, RowPos)
    ensures Ascending(Others(rows, key), RowPos)
  {
    if rows != [] {
      OthersAscend(rows[1..], key);
      var rest := Others(rows[1..], key);
      forall j | 0 <= j < |rest| ensures Less(RowPos(rows[0]), RowPos(rest[j])) {
        assert rest[j] in rows[1..];
        var i :| 0 <= i < |rows[1..]| && rows[1..][i] == rest[j];
        assert Less(RowPos(rows[0]), RowPos(rows[i + 1]));
      }
    }
  }

  lemma SameOthers(a: seq<Row>, b: seq<Row>, key: string)
    requires Ascending(a, RowPos) && Ascending(b, RowPos)
    requires forall x: Row :: x.key != key ==> (x in a <==> x in b)
    ensures Others(a, key) == Others(b, key)
  {
    OthersAscend(a, key);
    OthersAscend(b, key);
    AscendingIsUnique(Others(a, key), Others(b, key), RowPos);
  }

  /** An upsert puts its row in the place its clock reading and key give it, and no earlier than it was exactly when
      the clock is not behind the row. All other rows, past any cursor, stay and keep their order. */
  lemma UpsertMovesItsRowOnly(
    s: Store, namespace: string, key: string, value: string, clock: int, other: string, c: Option<NamespaceCursor>)
    ensures var s', row := Upsert(s, namespace, key, value, clock), Row(clock, key, value);
            && row in Query(s', namespace, None)
            && (forall x :: x in Query(s', namespace, c) && x.key == key ==> x == row)
            && (forall x :: IsRow(s, namespace, x) && x.key == key ==>
                  (AtMost(RowPos(x), RowPos(row)) <==> x.updatedAt <= clock))
            && Others(Query(s', namespace, c), key) == Others(Query(s, namespace, c), key)
            && (other != namespace ==> Query(s', other, c) == Query(s, other, c))
  {
    hide Query, Others, Less;
    var s' := Upsert(s, namespace, key, value, clock);
    assert IsRow(s', namespace, Row(clock, key, value));
    SameOthers(Query(s', namespace, c), Query(s, namespace, c), key);
    if other != namespace { AscendingIsUnique(Query(s', other, c), Query(s, other, c), RowPos); }
    forall x | IsRow(s, namespace, x) && x.key == key
      ensures AtMost(RowPos(x), RowPos(Row(clock, key, value))) <==> x.updatedAt <= clock
    {
      LessAfterPrefix(x.updatedAt, Codes(key), clock, Codes(key));
      if Less(Codes(key), Codes(key)) { LessIsAsymmetric(Codes(key), Codes(key)); }
      assert RowPos(x)[0] == x.updatedAt && RowPos(Row(clock, key, value))[0] == clock;
    }
  }

  /** A delete takes its row off the listing and leaves the others in their order. */
  lemma DeleteRemovesItsRowOnly(s: Store, namespace: string, key: string, other: string, c: Option<NamespaceCursor>)
    ensures Query(Delete(s, namespace, key), namespace, c) == Others(Query(s, namespace, c), key)
    ensures other != namespace ==> Query(Delete(s, namespace, key), other, c) == Query(s, other, c)
  {
    hide Query, Others, Less;
    var s' := Delete(s, namespace, key);
    OthersAscend(Query(s, namespace, c), key);
    AscendingIsUnique(Query(s', namespace, c), Others(Query(s, namespace, c), key), RowPos);
    if other != namespace { AscendingIsUnique(Query(s', other, c), Query(s, other, c), RowPos); }
  }

  function AsEntry(r: Row): Entry { Entry(RowPos(r), r.value) }

  function AsEntries(rows: seq<Row>): (r: seq<Entry>)
    ensures |r| == |rows| && forall i :: 0 <= i < |rows| ==> r[i] == AsEntry(rows[i])
  {
    seq(|rows|, i requires 0 <= i < |rows| => AsEntry(rows[i]))
  }

  /** The namespace as one ascending listing. */
  function Listing(s: Store, namespace: string): (r: seq<Entry>)
    ensures Ascending(r, EntryPos)
  {
    var r := AsEntries(Query(s, namespace, None));
    assert forall i :: 0 <= i < |r| ==> EntryPos(r[i]) == RowPos(Query(s, namespace, None)[i]);
    r
  }

  lemma EntriesAscend(rows: seq<Row>)
    requires Ascending(rows, RowPos)
    ensures Ascending(AsEntries(rows), EntryPos)
  {
    assert forall i :: 0 <= i < |rows| ==> EntryPos(AsEntries(rows)[i]) == RowPos(rows[i]);
  }

  lemma EntryOfRow(rows: seq<Row>, e: Entry)
    ensures e in AsEntries(rows) <==> exists r :: r in rows && AsEntry(r) == e
  {
    if e in AsEntries(rows) {
      var i :| 0 <= i < |rows| && AsEntries(rows)[i] == e;
      assert rows[i] in rows;
    }
    if exists r :: r in rows && AsEntry(r) == e {
      var r :| r in rows && AsEntry(r) == e;
      var i :| 0 <= i < |rows| && rows[i] == r;
      assert AsEntries(rows)[i] == e;
    }
  }

  /** Filtering in the WHERE clause and cutting the full listing at the cursor come to the same rows. */
  lemma QueryIsBeyond(s: Store, namespace: string, c: Option<NamespaceCursor>)
    ensures AsEntries(Query(s, namespace, c)) == Beyond(Listing(s, namespace), CursorPos(c))
  {
    var all, here := Query(s, namespace, None), Query(s, namespace, c);
    EntriesAscend(here);
    BeyondAscends(Listing(s, namespace), CursorPos(c));
    forall e ensures e in AsEntries(here) <==> e in Beyond(Listing(s, namespace), CursorPos(c)) {
      EntryOfRow(all, e);
      EntryOfRow(here, e);
      if e in AsEntries(here) {
        var r :| r in here && AsEntry(r) == e;
        AfterIsBeyond(r, c);
        assert r in all;
      }
      if e in Beyond(Listing(s, namespace), CursorPos(c)) {
        var r :| r in all && AsEntry(r) == e;
        AfterIsBeyond(r, c);
        assert r in here;
      }
    }
    AscendingIsUnique(AsEntries(here), Beyond(Listing(s, namespace), CursorPos(c)), EntryPos);
  }

  lemma LastOfRows(rows: seq<Row>)
    ensures LastPos(AsEntries(rows)) == CursorPos(NextOf(rows))
  {
  }

  /** What the EXISTS probe finds past the last of the rows taken. */
  lemma ProbeFindsMore(s: Store, namespace: string, c: Option<NamespaceCursor>, rows: seq<Row>, n: nat)
    requires rows <= Query(s, namespace, c) && 1 <= n == |rows|
    ensures |Query(s, namespace, NextOf(rows))| == |Query(s, namespace, c)| - n
  {
    hide Query, Beyond, Listing, After, IsRow, Less;
    QueryIsBeyond(s, namespace, c);
    QueryIsBeyond(s, namespace, NextOf(rows));
    LastOfRows(rows);
    assert AsEntries(rows)[n - 1] == AsEntries(Query(s, namespace, c))[n - 1];
    NextCursorContinues(Listing(s, namespace), CursorPos(c), n);
  }

  lemma MoreExactly(s: Store, namespace: string, c: Option<NamespaceCursor>, limit: nat, rows: seq<Row>)
    requires limit >= 1 && rows == Take(Query(s, namespace, c), limit)
    ensures NextOf(rows).Some? && Query(s, namespace, NextOf(rows)) != [] <==> |Query(s, namespace, c)| > limit
  {
    if rows != [] { ProbeFindsMore(s, namespace, c, rows, |rows|); }
  }

  /** The rows taken, and what the probe finds past them, are those of a page of the listing. */
  lemma QueryPage(s: Store, namespace: string, c: Option<NamespaceCursor>, limit: nat, rows: seq<Row>)
    requires limit >= 1 && rows == Take(Query(s, namespace, c), limit)
    ensures AsEntries(rows) == Take(Beyond(Listing(s, namespace), CursorPos(c)), limit)
    ensures NextOf(rows).Some? && Query(s, namespace, NextOf(rows)) != []
            <==> |Beyond(Listing(s, namespace), CursorPos(c))| > limit
    ensures LastPos(AsEntries(rows)) == CursorPos(NextOf(rows))
  {
    TakenEntries(Query(s, namespace, c), limit);
    QueryIsBeyond(s, namespace, c);
    assert |Query(s, namespace, c)| == |Beyond(Listing(s, namespace), CursorPos(c))|;
    MoreExactly(s, namespace, c, limit, rows);
    LastOfRows(rows);
  }

  lemma TakenEntries(rows: seq<Row>, limit: nat)
    ensures AsEntries(Take(rows, limit)) == Take(AsEntries(rows), limit)
    ensures |AsEntries(rows)| == |rows|
  {
  }

  function NextOf(rows: seq<Row>): Option<NamespaceCursor> {
    if rows == [] then None else Some(CursorAt(rows[|rows| - 1]))
  }

  function CursorAt(r: Row): NamespaceCursor { NamespaceCursor(r.updatedAt, r.key) }

  class RecordStore {
    var records: Store

    constructor ()
      ensures records == map[]
    {
      records := map[];
    }

    method UpsertJson(namespace: string, key: string, value: string, clock: int)
      modifies this
      ensures records == Upsert(old(records), namespace, key, value, clock)
    {
      records := records[(namespace, key) := Record(value, clock)];
    }

    method DeleteJson(namespace: string, key: string)
      modifies this
      ensures records == Delete(old(records), namespace, key)
    {
      records := records - {(namespace, key)};
    }

    method ReadNamespace<T>(namespace: string, decode: string -> Option<T>) returns (r: Result<seq<T>, PageError>)
      ensures r == DecodeAll(Listing(records, namespace), decode)
    {
      hide Query, Less;
      var rows := Query(records, namespace, None);
      ghost var entries := AsEntries(rows);
      var items: seq<T> := [];
      assert entries[0..] == entries;
      NothingYet(DecodeAll(entries, decode));
      for i := 0 to |rows|
        invariant Continues(DecodeAll(entries, decode), items, DecodeAll(entries[i..], decode))
      {
        var item := decode(rows[i].value);
        assert entries[i..][1..] == entries[i + 1..];
        if item.None? {
          return Err(Json);
        }
        OneMore(DecodeAll(entries, decode), items, item.value, DecodeAll(entries[i + 1..], decode));
        items := items + [item.value];
      }
      assert entries[|rows|..] == [] && items + [] == items;
      r := Ok(items);
    }

    /** The page query, its loop over the rows, and the EXISTS probe past the last of them. */
    method ReadNamespacePage<T>(
      namespace: string, cursor: Option<NamespaceCursor>, requested: Option<nat>, q: QueryLimits,
      decode: string -> Option<T>) returns (r: Result<NamespacePage<T>, PageError>)
      ensures var page := PageOf(Listing(records, namespace), CursorPos(cursor), requested, q, decode);
              if page.Err? then r == Err(page.error)
              else r.Ok? && r.value.items == page.value.items && r.value.hasMore == page.value.hasMore
                   && CursorPos(r.value.next) == page.value.next
    {
      var limit := NormalizeLimit(q, requested);
      if limit.Err? {
        return Err(limit.error);
      }
      var rows := Take(Query(records, namespace, cursor), limit.value);
      QueryPage(records, namespace, cursor, limit.value, rows);
      var collected := CollectRows(rows, q, decode);
      if collected.Err? {
        PageFromRows(Listing(records, namespace), CursorPos(cursor), requested, q, decode, AsEntries(rows),
                     |Beyond(Listing(records, namespace), CursorPos(cursor))| > limit.value);
        return Err(collected.error);
      }
      var hasMore := false;
      if collected.value.next.Some? {
        hasMore := Query(records, namespace, collected.value.next) != [];
      }
      PageFromRows(Listing(records, namespace), CursorPos(cursor), requested, q, decode, AsEntries(rows), hasMore);
      r := Ok(NamespacePage(collected.value.items, if hasMore then collected.value.next else None, hasMore));
    }
  }

  datatype Partial<+T> = Partial(items: seq<T>, totalBytes: nat, next: Option<NamespaceCursor>)

  /** The loop over the rows of a page query. */
  method CollectRows<T>(rows: seq<Row>, q: QueryLimits, decode: string -> Option<T>)
    returns (r: Result<Partial<T>, PageError>)
    ensures var items := Collect(AsEntries(rows), 0, q, decode);
            if items.Err? then r == Err(items.error)
            else r.Ok? && r.value.items == items.value && r.value.next == NextOf(rows)
  {
    ghost var entries := AsEntries(rows);
    var page := Partial([], 0, None);
    assert entries[0..] == entries;
    NothingYet(Collect(entries, 0, q, decode));
    for i := 0 to |rows|
      invariant page.next == NextOf(rows[..i])
      invariant Continues(Collect(entries, 0, q, decode), page.items, Collect(entries[i..], page.totalBytes, q, decode))
    {
      assert entries[i..][1..] == entries[i + 1..];
      ghost var before := page;
      var appended := AppendNamespaceItem(page.items, page.totalBytes, rows[i], q, decode);
      if appended.Err? {
        return Err(appended.error);
      }
      page := appended.value;
      ghost var item := Admit(before.totalBytes, rows[i].value, q, decode).value.1;
      OneMore(Collect(entries, 0, q, decode), before.items, item, Collect(entries[i + 1..], page.totalBytes, q, decode));
    }
    assert rows[..|rows|] == rows;
    r := Ok(page);
  }

  /** Appends one row to the page being built: items, total bytes, cursor. */
  method AppendNamespaceItem<T>(items: seq<T>, totalBytes: nat, row: Row, q: QueryLimits, decode: string -> Option<T>)
    returns (r: Result<Partial<T>, PageError>)
    ensures var admitted := Admit(totalBytes, row.value, q, decode);
            r == if admitted.Err? then Err(admitted.error)
                 else Ok(Partial(items + [admitted.value.1], admitted.value.0, Some(CursorAt(row))))
  {
    var bytes := Utf8Length(row.value);
    if bytes > q.maxRecordBytes {
      return Err(RecordTooLarge(bytes, q.maxRecordBytes));
    }
    var total := SaturatingAdd(totalBytes, bytes);
    if total > q.maxPageBytes {
      return Err(PageTooLarge(total, q.maxPageBytes));
    }
    var item := decode(row.value);
    if item.None? {
      return Err(Json);
    }
    r := Ok(Partial(items + [item.value], total, Some(CursorAt(row))));
  }
}
