/** A namespace scan while other writers upsert and delete: the page query, the EXISTS probe and the writers'
    statements interleave in any order. */
module PagingRuns {
  import opened Wrappers
  import opened Order
  import opened Keyset
  import opened JsonRecords

  /** Where the scanning client stands: about to ask for a page, between a page's query and its probe, or at the
      end. */
  datatype Phase =
    | Asking(cursor: Option<NamespaceCursor>)
    | Probing(last: NamespaceCursor)
    | Done
    | Failed

  datatype World = World(store: Store, phase: Phase, seen: seq<Row>)

  datatype Event =
    | Upserted(namespace: string, key: string, value: string, clock: int)
    | Deleted(namespace: string, key: string)
    | Fetched(requested: Option<nat>)
    | Probed

  /** What the scan is after, and how its payloads decode. */
  datatype Target<!T> = Target(namespace: string, q: QueryLimits, decode: string -> Option<T>)

  /** The rows of a page query become the page, end the scan, or fail it. */
  function TakePage<T>(scan: Target<T>, w: World, rows: seq<Row>): World {
    if Collect(AsEntries(rows), 0, scan.q, scan.decode).Err? then w.(phase := Failed)
    else if rows == [] then w.(phase := Done)
    else w.(phase := Probing(CursorAt(rows[|rows| - 1])), seen := w.seen + rows)
  }

  function Step<T>(scan: Target<T>, w: World, e: Event): World {
    match e
    case Upserted(namespace, key, value, clock) =>
      w.(store := Upsert(w.store, namespace, key, value, clock))
    case Deleted(namespace, key) => w.(store := Delete(w.store, namespace, key))
    case Fetched(requested) =>
      if !w.phase.Asking? then w
      else if NormalizeLimit(scan.q, requested).Err? then w.(phase := Failed)
      else
        TakePage(scan, w, Take(Query(w.store, scan.namespace, w.phase.cursor),
                               NormalizeLimit(scan.q, requested).value))
    case Probed =>
      if !w.phase.Probing? then w
      else if Query(w.store, scan.namespace, Some(w.phase.last)) == [] then w.(phase := Done)
      else w.(phase := Asking(Some(w.phase.last)))
  }

  function AfterRun<T>(scan: Target<T>, w: World, run: seq<Event>, n: nat): World
    requires n <= |run|
  {
    if n == 0 then w else Step(scan, AfterRun(scan, w, run, n - 1), run[n - 1])
  }

  predicate Touches(e: Event, namespace: string, k: string) {
    (e.Upserted? || e.Deleted?) && e.namespace == namespace && e.key == k
  }

  /** An upsert of k reads a clock that is not behind what the record was stored with. */
  predicate NotBehind(s: Store, e: Event, namespace: string, k: string) {
    e.Upserted? && Touches(e, namespace, k) && (namespace, k) in s ==> s[(namespace, k)].updatedAt <= e.clock
  }

  /** The upserts of this one record never move it back; other records may be written at any clock. */
  ghost predicate ClockAdvances<T>(scan: Target<T>, w: World, run: seq<Event>, k: string) {
    forall i :: 0 <= i < |run| ==> NotBehind(AfterRun(scan, w, run, i).store, run[i], scan.namespace, k)
  }

  ghost predicate NeverDeleted(run: seq<Event>, namespace: string, k: string) {
    forall i :: 0 <= i < |run| && run[i].Deleted? ==> !Touches(run[i], namespace, k)
  }

  ghost predicate NeverTouched(run: seq<Event>, namespace: string, k: string) {
    forall i :: 0 <= i < |run| ==> !Touches(run[i], namespace, k)
  }

  function RowOf(s: Store, namespace: string, k: string): Row
    requires (namespace, k) in s
  {
    Row(s[(namespace, k)].updatedAt, k, s[(namespace, k)].value)
  }

  // ----- nothing is lost -----

  predicate Seen(seen: seq<Row>, k: string) {
    exists i :: 0 <= i < |seen| && seen[i].key == k
  }

  /** The position the scan has reached. */
  function Reached(p: Phase): Option<NamespaceCursor>
    requires p.Asking? || p.Probing?
  {
    if p.Asking? then p.cursor else Some(p.last)
  }

  /** Already returned, or still ahead of the scan. */
  predicate Covered(w: World, namespace: string, k: string) {
    || Seen(w.seen, k)
    || ((w.phase.Asking? || w.phase.Probing?) && (namespace, k) in w.store
        && After(RowOf(w.store, namespace, k), Reached(w.phase)))
  }

  /** Rows before the last one taken lie on the page, rows after it lie past the new cursor. */
  lemma TakenOrAhead(s: Store, namespace: string, c: Option<NamespaceCursor>, limit: nat, r: Row)
    requires limit >= 1 && IsRow(s, namespace, r)
    ensures var rows := Take(Query(s, namespace, c), limit);
            && (After(r, c) ==> rows != [])
            && (rows != [] ==> (r in rows <==> After(r, c) && !After(r, Some(CursorAt(rows[|rows| - 1])))))
            && (rows != [] && !After(r, c) ==> !After(r, Some(CursorAt(rows[|rows| - 1]))))
  {
    var here := Query(s, namespace, c);
    var rows := Take(here, limit);
    if After(r, c) { assert r in here; }
    if rows != [] {
      var n := |rows| - 1;
      var last := rows[n];
      assert last in here && rows == here[..n + 1];
      AfterIsBeyond(r, Some(CursorAt(last)));
      AfterIsBeyond(r, c);
      AfterIsBeyond(last, c);
      if r in here {
        BeforeIsPrefix(here, n, r, RowPos);
        LessIsTotal(RowPos(r), RowPos(last));
        if Less(RowPos(r), RowPos(last)) { LessIsAsymmetric(RowPos(r), RowPos(last)); InLonger(here, n, r); }
        if r == last { NotLessItself(RowPos(r)); }
        if RowPos(r) == RowPos(last) { SamePlace(here, n, r); }
        if Less(RowPos(last), RowPos(r)) { LessIsAsymmetric(RowPos(last), RowPos(r)); NotInPrefix(here, n, r); }
      } else if c.Some? && Less(RowPos(last), RowPos(r)) {
        LessIsTransitive(CursorPos(c).value, RowPos(last), RowPos(r));
      }
    }
  }

  lemma InLonger(here: seq<Row>, n: nat, r: Row)
    requires n < |here| && r in here[..n]
    ensures r in here[..n + 1]
  {
    var i :| 0 <= i < n && here[..n][i] == r;
    assert here[..n + 1][i] == r;
  }

  lemma SamePlace(here: seq<Row>, n: nat, r: Row)
    requires Ascending(here, RowPos) && n < |here| && r in here && RowPos(r) == RowPos(here[n])
    ensures r == here[n] && r in here[..n + 1]
  {
    var i :| 0 <= i < |here| && here[i] == r;
    NotLessItself(RowPos(r));
    assert i == n;
    assert here[..n + 1][n] == r;
  }

  lemma NotInPrefix(here: seq<Row>, n: nat, r: Row)
    requires Ascending(here, RowPos) && n < |here| && Less(RowPos(here[n]), RowPos(r))
    ensures r !in here[..n + 1]
  {
    forall i | 0 <= i <= n ensures here[i] != r {
      if here[i] == r {
        LessIsAsymmetric(RowPos(here[n]), RowPos(r));
      }
    }
  }

  lemma SeenStays<T>(scan: Target<T>, w: World, e: Event, k: string)
    requires Seen(w.seen, k)
    ensures Seen(Step(scan, w, e).seen, k)
  {
    var i :| 0 <= i < |w.seen| && w.seen[i].key == k;
    assert Step(scan, w, e).seen[i].key == k;
  }

  lemma PageKeepsCovered<T>(scan: Target<T>, w: World, limit: nat, k: string)
    requires limit >= 1 && w.phase.Asking? && (scan.namespace, k) in w.store
    requires After(RowOf(w.store, scan.namespace, k), w.phase.cursor)
    ensures var w' := TakePage(scan, w, Take(Query(w.store, scan.namespace, w.phase.cursor), limit));
            w'.store == w.store && (w'.phase.Failed? || Covered(w', scan.namespace, k))
  {
    hide Query, Collect, AsEntries, Less;
    var r := RowOf(w.store, scan.namespace, k);
    var rows := Take(Query(w.store, scan.namespace, w.phase.cursor), limit);
    TakenOrAhead(w.store, scan.namespace, w.phase.cursor, limit, r);
    if r in rows {
      var i :| 0 <= i < |rows| && rows[i] == r;
      assert (w.seen + rows)[|w.seen| + i].key == k;
    }
  }

  lemma StepKeepsCovered<T>(scan: Target<T>, w: World, e: Event, k: string)
    requires (scan.namespace, k) in w.store && (w.phase.Failed? || Covered(w, scan.namespace, k))
    requires e.Deleted? ==> !Touches(e, scan.namespace, k)
    requires NotBehind(w.store, e, scan.namespace, k)
    ensures var w' := Step(scan, w, e);
            (scan.namespace, k) in w'.store && (w'.phase.Failed? || Covered(w', scan.namespace, k))
  {
    if Seen(w.seen, k) {
      SeenStays(scan, w, e, k);
    } else if e.Fetched? && w.phase.Asking? && NormalizeLimit(scan.q, e.requested).Ok? {
      PageKeepsCovered(scan, w, NormalizeLimit(scan.q, e.requested).value, k);
    } else if e.Probed? && w.phase.Probing? {
      assert RowOf(w.store, scan.namespace, k) in Query(w.store, scan.namespace, Some(w.phase.last));
    }
  }

  lemma CoveredAtStart(w: World, namespace: string, k: string)
    ensures w.phase == Asking(None) && (namespace, k) in w.store ==> Covered(w, namespace, k)
  {
  }

  lemma {:induction false} RunKeepsCovered<T>(scan: Target<T>, w: World, run: seq<Event>, k: string, n: nat)
    requires w.phase == Asking(None) && n <= |run|
    requires ClockAdvances(scan, w, run, k) && NeverDeleted(run, scan.namespace, k) && (scan.namespace, k) in w.store
    ensures var w' := AfterRun(scan, w, run, n);
            (scan.namespace, k) in w'.store && (w'.phase.Failed? || Covered(w', scan.namespace, k))
    decreases n
  {
    CoveredAtStart(w, scan.namespace, k);
    hide Step, Covered, NotBehind, Touches, Query;
    if n > 0 {
      RunKeepsCovered(scan, w, run, k, n - 1);
      StepKeepsCovered(scan, AfterRun(scan, w, run, n - 1), run[n - 1], k);
    }
  }

  /** Whatever else writers do meanwhile, a scan that ends without error has returned every record that was there at
      its start, was never deleted, and was never moved back by its own upserts. */
  lemma ScanMissesNothing<T>(scan: Target<T>, w: World, run: seq<Event>, k: string)
    requires w.phase == Asking(None) && ClockAdvances(scan, w, run, k)
    requires (scan.namespace, k) in w.store && NeverDeleted(run, scan.namespace, k)
    requires AfterRun(scan, w, run, |run|).phase.Done?
    ensures Seen(AfterRun(scan, w, run, |run|).seen, k)
  {
    RunKeepsCovered(scan, w, run, k, |run|);
  }

  // ----- an untouched record is returned once -----

  function Times(seen: seq<Row>, k: string): nat {
    if seen == [] then 0 else (if seen[0].key == k then 1 else 0) + Times(seen[1..], k)
  }

  lemma {:induction false} TimesInTwo(a: seq<Row>, b: seq<Row>, k: string)
    ensures Times(a + b, k) == Times(a, k) + Times(b, k)
  {
    if a == [] {
      assert a + b == b;
    } else {
      assert (a + b)[1..] == a[1..] + b;
      TimesInTwo(a[1..], b, k);
    }
  }

  lemma {:induction false} TimesOnPage(rows: seq<Row>, r: Row)
    requires Ascending(rows, RowPos) && forall x :: x in rows && x.key == r.key ==> x == r
    ensures Times(rows, r.key) == if r in rows then 1 else 0
  {
    if rows != [] {
      assert forall x :: x in rows[1..] ==> x in rows;
      TimesOnPage(rows[1..], r);
      if rows[0].key == r.key && r in rows[1..] {
        RestExcludesHead(rows, r, RowPos);
      }
      assert r in rows ==> r == rows[0] || r in rows[1..];
    }
  }

  /** The record r has been returned once if the scan has passed it, and not at all before. */
  ghost predicate OnceIfPassed(w: World, r: Row) {
    && (forall i :: 0 <= i < |w.seen| && w.seen[i].key == r.key ==> w.seen[i] == r)
    && (w.phase.Done? ==> Times(w.seen, r.key) == 1)
    && (w.phase.Asking? || w.phase.Probing? ==>
          Times(w.seen, r.key) == if After(r, Reached(w.phase)) then 0 else 1)
  }

  lemma FetchKeepsOnce<T>(scan: Target<T>, w: World, limit: nat, r: Row)
    requires w.phase.Asking? && limit >= 1 && IsRow(w.store, scan.namespace, r) && OnceIfPassed(w, r)
    ensures var w' := TakePage(scan, w, Take(Query(w.store, scan.namespace, w.phase.cursor), limit));
            w'.store == w.store && (w'.phase.Failed? || OnceIfPassed(w', r))
  {
    hide OnceIfPassed, Query, Collect, AsEntries, Times, Less, Codes, After;
    TakenOrAhead(w.store, scan.namespace, w.phase.cursor, limit, r);
    OnceOnPage(w.store, scan.namespace, w.phase.cursor, limit, r);
    PageKeepsOnce(scan, w, Take(Query(w.store, scan.namespace, w.phase.cursor), limit), r);
  }

  lemma PageKeepsOnce<T>(scan: Target<T>, w: World, rows: seq<Row>, r: Row)
    requires w.phase.Asking? && OnceIfPassed(w, r)
    requires forall x :: x in rows && x.key == r.key ==> x == r
    requires Times(rows, r.key) == if r in rows then 1 else 0
    requires After(r, w.phase.cursor) ==> rows != []
    requires rows != [] ==>
      (r in rows <==> After(r, w.phase.cursor) && !After(r, Some(CursorAt(rows[|rows| - 1]))))
    requires rows != [] && !After(r, w.phase.cursor) ==> !After(r, Some(CursorAt(rows[|rows| - 1])))
    ensures TakePage(scan, w, rows).phase.Failed? || OnceIfPassed(TakePage(scan, w, rows), r)
  {
    hide Collect, Less, Codes, AsEntries, Times, After, PosOf;
    OnceOnMore(w.seen, rows, r);
  }

  lemma OnceOnMore(seen: seq<Row>, rows: seq<Row>, r: Row)
    requires forall i :: 0 <= i < |seen| && seen[i].key == r.key ==> seen[i] == r
    requires forall x :: x in rows && x.key == r.key ==> x == r
    ensures Times(seen + rows, r.key) == Times(seen, r.key) + Times(rows, r.key)
    ensures forall i :: 0 <= i < |seen + rows| && (seen + rows)[i].key == r.key ==> (seen + rows)[i] == r
  {
    TimesInTwo(seen, rows, r.key);
    assert forall i :: |seen| <= i < |seen + rows| ==> (seen + rows)[i] in rows;
  }

  lemma OnceOnPage(s: Store, namespace: string, c: Option<NamespaceCursor>, limit: nat, r: Row)
    requires IsRow(s, namespace, r)
    ensures var rows := Take(Query(s, namespace, c), limit);
            && (forall x :: x in rows && x.key == r.key ==> x == r)
            && Times(rows, r.key) == if r in rows then 1 else 0
  {
    var rows := Take(Query(s, namespace, c), limit);
    forall x | x in rows && x.key == r.key ensures x == r {
      assert x in Query(s, namespace, c);
    }
    TimesOnPage(rows, r);
  }

  lemma StepKeepsOnce<T>(scan: Target<T>, w: World, e: Event, r: Row)
    requires IsRow(w.store, scan.namespace, r) && (w.phase.Failed? || OnceIfPassed(w, r))
    requires !Touches(e, scan.namespace, r.key)
    ensures var w' := Step(scan, w, e);
            IsRow(w'.store, scan.namespace, r) && (w'.phase.Failed? || OnceIfPassed(w', r))
  {
    hide Query, Collect, Less, AsEntries, Times;
    if e.Fetched? && w.phase.Asking? && NormalizeLimit(scan.q, e.requested).Ok? {
      FetchKeepsOnce(scan, w, NormalizeLimit(scan.q, e.requested).value, r);
    } else if e.Probed? && w.phase.Probing? && After(r, Some(w.phase.last)) {
      assert r in Query(w.store, scan.namespace, Some(w.phase.last));
    }
  }

  lemma {:induction false} RunKeepsOnce<T>(scan: Target<T>, w: World, run: seq<Event>, r: Row, n: nat)
    requires w.phase == Asking(None) && w.seen == [] && n <= |run|
    requires IsRow(w.store, scan.namespace, r) && NeverTouched(run, scan.namespace, r.key)
    ensures var w' := AfterRun(scan, w, run, n);
            IsRow(w'.store, scan.namespace, r) && (w'.phase.Failed? || OnceIfPassed(w', r))
    decreases n
  {
    if n > 0 {
      RunKeepsOnce(scan, w, run, r, n - 1);
      StepKeepsOnce(scan, AfterRun(scan, w, run, n - 1), run[n - 1], r);
    }
  }

  /** A record nobody touches during the scan is returned exactly once, as stored. */
  lemma UntouchedIsSeenOnce<T>(scan: Target<T>, w: World, run: seq<Event>, r: Row)
    requires w.phase == Asking(None) && w.seen == []
    requires IsRow(w.store, scan.namespace, r) && NeverTouched(run, scan.namespace, r.key)
    requires AfterRun(scan, w, run, |run|).phase.Done?
    ensures var seen := AfterRun(scan, w, run, |run|).seen;
            && Times(seen, r.key) == 1
            && forall i :: 0 <= i < |seen| && seen[i].key == r.key ==> seen[i] == r
  {
    RunKeepsOnce(scan, w, run, r, |run|);
  }

  // ----- why the clock must not go back -----

  predicate OneByOne(scan: Target<string>) {
    scan.namespace == "n" && scan.q == QueryLimits(1, 1, 1, 1, 1) && scan.decode("") == Some("")
  }

  function Reading(e: Event, namespace: string, k: string): seq<int> {
    if e.Upserted? && Touches(e, namespace, k) then [e.clock] else []
  }

  /** The clock readings of the upserts of k, in order. */
  function Clocks(run: seq<Event>, namespace: string, k: string): seq<int> {
    if run == [] then []
    else
      Clocks(run[..|run| - 1], namespace, k) + Reading(run[|run| - 1], namespace, k)
  }

  /** A finished scan has missed k, which was stored at u when it began, was never deleted, and was upserted meanwhile
      at the readings ts. */
  ghost predicate Misses(scan: Target<string>, w: World, run: seq<Event>, k: string, u: int, ts: seq<int>) {
    && w.phase == Asking(None) && w.seen == []
    && (scan.namespace, k) in w.store && w.store[(scan.namespace, k)].updatedAt == u
    && NeverDeleted(run, scan.namespace, k)
    && Clocks(run, scan.namespace, k) == ts
    && AfterRun(scan, w, run, |run|).phase.Done? && !Seen(AfterRun(scan, w, run, |run|).seen, k)
  }

  /** Some reading is behind the one before it, or the first behind the stored one. */
  ghost predicate StepsBack(u: int, ts: seq<int>) {
    exists i :: 0 <= i < |ts| && ts[i] < ([u] + ts)[i]
  }

  /** A scan can miss a record stored at u and upserted at ts, one reading after the other, if and only if some reading
      steps back. */
  lemma MissesExactly(u: int, ts: seq<int>)
    ensures (exists scan, w, run, k :: Misses(scan, w, run, k, u, ts)) <==> StepsBack(u, ts)
  {
    if StepsBack(u, ts) {
      var i :| 0 <= i < |ts| && ts[i] < ([u] + ts)[i];
      var scan, w, run := StepBackLosesARecord(u, ts, i);
    } else {
      forall scan, w, run, k ensures !Misses(scan, w, run, k, u, ts) {
        if Misses(scan, w, run, k, u, ts) {
          forall n | 0 <= n < |run| ensures NotBehind(AfterRun(scan, w, run, n).store, run[n], scan.namespace, k) {
            NeverBehind(scan, w, run, k, u, ts, n);
          }
          ScanMissesNothing(scan, w, run, k);
        }
      }
    }
  }

  /** With a single upsert: if and only if it reads less than the record was stored with. */
  lemma MissesOnceExactly(u: int, t: int)
    ensures (exists scan, w, run, k :: Misses(scan, w, run, k, u, [t])) <==> t < u
  {
    MissesExactly(u, [t]);
    if t < u { assert [t][0] < ([u] + [t])[0]; }
  }

  lemma {:induction false} ClocksOfMore(run: seq<Event>, namespace: string, k: string, n: nat)
    requires n <= |run|
    ensures Clocks(run[..n], namespace, k) <= Clocks(run, namespace, k)
    decreases |run|
  {
    if n == |run| {
      assert run[..n] == run;
    } else {
      assert run[..|run| - 1][..n] == run[..n];
      ClocksOfMore(run[..|run| - 1], namespace, k, n);
    }
  }

  lemma ClocksOneMore(run: seq<Event>, namespace: string, k: string, n: nat)
    requires n < |run|
    ensures Clocks(run[..n + 1], namespace, k) == Clocks(run[..n], namespace, k) + Reading(run[n], namespace, k)
  {
    assert run[..n + 1][..n] == run[..n];
  }

  lemma StampAfterStep<T>(scan: Target<T>, w: World, e: Event, k: string)
    requires (scan.namespace, k) in w.store && (e.Deleted? ==> !Touches(e, scan.namespace, k))
    ensures var s, r := Step(scan, w, e).store, Reading(e, scan.namespace, k);
            && (scan.namespace, k) in s
            && s[(scan.namespace, k)].updatedAt == if r == [] then w.store[(scan.namespace, k)].updatedAt else r[0]
    ensures |Reading(e, scan.namespace, k)| <= 1
  {
    hide Query, Collect;
  }

  /** The record under p carries the last of the readings, or u before any. */
  predicate StampIsLast(s: Store, p: (string, string), u: int, ts: seq<int>) {
    p in s && s[p].updatedAt == ([u] + ts)[|ts|]
  }

  lemma StampMovesOn<T>(scan: Target<T>, w: World, e: Event, k: string, u: int, ts: seq<int>)
    requires StampIsLast(w.store, (scan.namespace, k), u, ts)
    requires e.Deleted? ==> !Touches(e, scan.namespace, k)
    ensures StampIsLast(Step(scan, w, e).store, (scan.namespace, k), u, ts + Reading(e, scan.namespace, k))
  {
    StampAfterStep(scan, w, e, k);
    hide Step, Touches, Reading;
    if Reading(e, scan.namespace, k) == [] { assert ts + Reading(e, scan.namespace, k) == ts; }
  }

  /** The stored stamp is the last reading so far, or the first stamp. */
  lemma {:induction false} StoredIsLastReading<T>(scan: Target<T>, w: World, run: seq<Event>, k: string, n: nat)
    requires n <= |run| && NeverDeleted(run, scan.namespace, k) && (scan.namespace, k) in w.store
    ensures StampIsLast(AfterRun(scan, w, run, n).store, (scan.namespace, k), w.store[(scan.namespace, k)].updatedAt,
                        Clocks(run[..n], scan.namespace, k))
    decreases n
  {
    hide *;
    if n == 0 {
      BeforeTheRun(scan, w, run, k);
    } else {
      NotDeletedAt(run, scan.namespace, k, n - 1);
      StoredIsLastReading(scan, w, run, k, n - 1);
      AfterOneMore(scan, w, run, n);
      ClocksOneMore(run, scan.namespace, k, n - 1);
      StampMovesOn(scan, AfterRun(scan, w, run, n - 1), run[n - 1], k, w.store[(scan.namespace, k)].updatedAt,
                   Clocks(run[..n - 1], scan.namespace, k));
    }
  }

  lemma NotDeletedAt(run: seq<Event>, namespace: string, k: string, n: nat)
    requires NeverDeleted(run, namespace, k) && n < |run|
    ensures run[n].Deleted? ==> !Touches(run[n], namespace, k)
  {
  }

  lemma BeforeTheRun<T>(scan: Target<T>, w: World, run: seq<Event>, k: string)
    requires (scan.namespace, k) in w.store
    ensures StampIsLast(AfterRun(scan, w, run, 0).store, (scan.namespace, k), w.store[(scan.namespace, k)].updatedAt,
                        Clocks(run[..0], scan.namespace, k))
  {
  }

  lemma AfterOneMore<T>(scan: Target<T>, w: World, run: seq<Event>, n: nat)
    requires 0 < n <= |run|
    ensures AfterRun(scan, w, run, n) == Step(scan, AfterRun(scan, w, run, n - 1), run[n - 1])
  {
  }

  lemma NotBehindTheOneBefore(u: int, ts: seq<int>, before: seq<int>, t: int)
    requires !StepsBack(u, ts) && before + [t] <= ts
    ensures t >= ([u] + before)[|before|]
  {
    assert ts[|before|] == (before + [t])[|before|] == t;
    if before != [] { assert ts[|before| - 1] == (before + [t])[|before| - 1] == before[|before| - 1]; }
    assert ([u] + ts)[|before|] == ([u] + before)[|before|];
  }

  lemma NeverBehind<T>(scan: Target<T>, w: World, run: seq<Event>, k: string, u: int, ts: seq<int>, n: nat)
    requires n < |run| && NeverDeleted(run, scan.namespace, k)
    requires (scan.namespace, k) in w.store && w.store[(scan.namespace, k)].updatedAt == u
    requires Clocks(run, scan.namespace, k) == ts && !StepsBack(u, ts)
    ensures NotBehind(AfterRun(scan, w, run, n).store, run[n], scan.namespace, k)
  {
    hide AfterRun, Step, Clocks, StepsBack, NeverDeleted;
    StoredIsLastReading(scan, w, run, k, n);
    ClocksOneMore(run, scan.namespace, k, n);
    ClocksOfMore(run, scan.namespace, k, n + 1);
    if run[n].Upserted? && Touches(run[n], scan.namespace, k) {
      NotBehindTheOneBefore(u, ts, Clocks(run[..n], scan.namespace, k), run[n].clock);
    }
  }

  // ----- a run that loses the record -----

  /** Upserts of "b" at these readings. */
  function Upserts(ts: seq<int>): (r: seq<Event>)
    ensures |r| == |ts| && forall i :: 0 <= i < |ts| ==> r[i] == Upserted("n", "b", "", ts[i])
  {
    seq(|ts|, i requires 0 <= i < |ts| => Upserted("n", "b", "", ts[i]))
  }

  lemma {:induction false} ClocksOfUpserts(ts: seq<int>)
    ensures Clocks(Upserts(ts), "n", "b") == ts
  {
    if ts != [] {
      var front := ts[..|ts| - 1];
      ClocksOfUpserts(front);
      assert Upserts(ts)[..|ts| - 1] == Upserts(front);
      assert ts == front + [ts[|ts| - 1]];
    }
  }

  lemma {:induction false} ClocksInTwo(a: seq<Event>, b: seq<Event>, namespace: string, k: string)
    ensures Clocks(a + b, namespace, k) == Clocks(a, namespace, k) + Clocks(b, namespace, k)
    decreases |b|
  {
    if b == [] {
      assert a + b == a;
    } else {
      assert (a + b)[..|a + b| - 1] == a + b[..|b| - 1];
      ClocksInTwo(a, b[..|b| - 1], namespace, k);
    }
  }

  lemma {:induction false} RunInTwo<T>(scan: Target<T>, w: World, a: seq<Event>, b: seq<Event>, n: nat)
    requires n <= |b|
    ensures AfterRun(scan, w, a + b, |a| + n) == AfterRun(scan, AfterRun(scan, w, a, |a|), b, n)
    decreases n
  {
    if n == 0 {
      SamePrefix(scan, w, a + b, a, |a|);
    } else {
      RunInTwo(scan, w, a, b, n - 1);
      assert (a + b)[|a| + n - 1] == b[n - 1];
    }
  }

  lemma {:induction false} SamePrefix<T>(scan: Target<T>, w: World, a: seq<Event>, b: seq<Event>, n: nat)
    requires n <= |a| && n <= |b| && a[..n] == b[..n]
    ensures AfterRun(scan, w, a, n) == AfterRun(scan, w, b, n)
    decreases n
  {
    if n > 0 {
      assert a[n - 1] == a[..n][n - 1] && b[n - 1] == b[..n][n - 1];
      assert a[..n - 1] == a[..n][..n - 1] && b[..n - 1] == b[..n][..n - 1];
      SamePrefix(scan, w, a, b, n - 1);
    }
  }

  /** Upserts alone leave the scan where it is and "b" at the last reading. */
  lemma {:induction false} OnlyUpserts(scan: Target<string>, w: World, ts: seq<int>, n: nat)
    requires n <= |ts|
    ensures var w' := AfterRun(scan, w, Upserts(ts), n);
            && w'.phase == w.phase && w'.seen == w.seen
            && w'.store == if n == 0 then w.store else w.store[("n", "b") := Record("", ts[n - 1])]
    decreases n
  {
    hide Query, Collect;
    if n > 0 {
      OnlyUpserts(scan, w, ts, n - 1);
    }
  }

  /** The upserts up to the step back run before the first page; the one that steps back lands behind the cursor the
      page leaves; the rest come when the scan is over. */
  lemma StepBackLosesARecord(u: int, ts: seq<int>, i: nat) returns (scan: Target<string>, w: World, run: seq<Event>)
    requires i < |ts| && ts[i] < ([u] + ts)[i]
    ensures Misses(scan, w, run, "b", u, ts)
  {
    hide AfterRun, Clocks, Step, Seen, Upserts;
    var v := ([u] + ts)[i];
    scan := Target("n", QueryLimits(1, 1, 1, 1, 1), _ => Some(""));
    w := World(map[("n", "a") := Record("", v), ("n", "b") := Record("", u)], Asking(None), []);
    var lost := [Fetched(None), Upserted("n", "b", "", ts[i]), Probed];
    run := Upserts(ts[..i]) + (lost + Upserts(ts[i + 1..]));
    ReadingsOf(ts, i, lost);
    OnlyUpserts(scan, w, ts[..i], i);
    var w1 := AfterRun(scan, w, Upserts(ts[..i]), i);
    assert w1.store == map[("n", "a") := Record("", v), ("n", "b") := Record("", v)];
    LosesB(scan, w1, lost, v, ts[i]);
    OnlyUpserts(scan, AfterRun(scan, w1, lost, 3), ts[i + 1..], |ts| - i - 1);
    RunInTwo(scan, w1, lost, Upserts(ts[i + 1..]), |ts| - i - 1);
    RunInTwo(scan, w, Upserts(ts[..i]), lost + Upserts(ts[i + 1..]), 3 + (|ts| - i - 1));
  }

  lemma ReadingsOf(ts: seq<int>, i: nat, lost: seq<Event>)
    requires i < |ts| && lost == [Fetched(None), Upserted("n", "b", "", ts[i]), Probed]
    ensures Clocks(Upserts(ts[..i]) + (lost + Upserts(ts[i + 1..])), "n", "b") == ts
  {
    hide Clocks, Upserts;
    ClocksInTwo(Upserts(ts[..i]), lost + Upserts(ts[i + 1..]), "n", "b");
    ClocksInTwo(lost, Upserts(ts[i + 1..]), "n", "b");
    ClocksOfUpserts(ts[..i]);
    ClocksOfUpserts(ts[i + 1..]);
    OneReading(ts[i]);
    assert ts == ts[..i] + ([ts[i]] + ts[i + 1..]);
  }

  lemma OneReading(t: int)
    ensures Clocks([Fetched(None), Upserted("n", "b", "", t), Probed], "n", "b") == [t]
  {
    var run := [Fetched(None), Upserted("n", "b", "", t), Probed];
    assert run[..2] == [run[0], run[1]] && run[..2][..1] == [run[0]] && [run[0]][..0] == [];
    assert Clocks([run[0]], "n", "b") == [];
    assert Clocks(run[..2], "n", "b") == [t];
  }

  lemma LosesB(scan: Target<string>, w: World, run: seq<Event>, u: int, t: int)
    requires t < u && OneByOne(scan)
    requires w.store == map[("n", "a") := Record("", u), ("n", "b") := Record("", u)]
    requires w.phase == Asking(None) && w.seen == []
    requires |run| == 3 && run[0] == Fetched(None) && run[1] == Upserted("n", "b", "", t) && run[2] == Probed
    ensures AfterRun(scan, w, run, 3).phase.Done? && !Seen(AfterRun(scan, w, run, 3).seen, "b")
  {
    hide Query, Less, Codes;
    var a := Row(u, "a", "");
    FirstOfTwo(w.store, u);
    OneRowPage(scan, w, a);
    var w2 := World(Upsert(w.store, "n", "b", "", t), Probing(CursorAt(a)), [a]);
    assert Step(scan, Step(scan, w, run[0]), run[1]) == w2;
    EmptyProbe(scan, w2, u);
    ThreeSteps(scan, w, run);
  }

  lemma ThreeSteps<T>(scan: Target<T>, w: World, run: seq<Event>)
    requires |run| == 3
    ensures AfterRun(scan, w, run, 3) == Step(scan, Step(scan, Step(scan, w, run[0]), run[1]), run[2])
  {
    assert AfterRun(scan, w, run, 1) == Step(scan, w, run[0]);
    assert AfterRun(scan, w, run, 2) == Step(scan, AfterRun(scan, w, run, 1), run[1]);
  }

  lemma EmptyProbe(scan: Target<string>, w: World, u: int)
    requires OneByOne(scan)
    requires w.phase == Probing(NamespaceCursor(u, "a"))
    requires forall p :: p in w.store ==> p == ("n", "a") || (p == ("n", "b") && w.store[p].updatedAt < u)
    requires ("n", "a") in w.store ==> w.store[("n", "a")].updatedAt == u
    ensures Step(scan, w, Probed) == w.(phase := Done)
  {
    NothingAfter(w.store, u);
  }

  lemma OneRowPage(scan: Target<string>, w: World, a: Row)
    requires OneByOne(scan)
    requires w.phase == Asking(None) && w.seen == [] && a.value == ""
    requires Take(Query(w.store, "n", None), 1) == [a]
    ensures Step(scan, w, Fetched(None)) == w.(phase := Probing(CursorAt(a)), seen := [a])
  {
    assert NormalizeLimit(scan.q, None) == Ok(1);
    CollectsOne(scan, a);
    hide Collect, AsEntries, Query, Admit, OneByOne, NormalizeLimit;
    assert [] + [a] == [a];
  }

  lemma CollectsOne(scan: Target<string>, a: Row)
    requires OneByOne(scan) && a.value == ""
    ensures Collect(AsEntries([a]), 0, scan.q, scan.decode).Ok?
  {
    hide Codes, Less;
    assert Admit(0, "", scan.q, scan.decode) == Ok((0, ""));
    assert AsEntries([a])[1..] == [];
  }

  lemma FirstOfTwo(s: Store, u: int)
    requires s == map[("n", "a") := Record("", u), ("n", "b") := Record("", u)]
    ensures Take(Query(s, "n", None), 1) == [Row(u, "a", "")]
  {
    var here, a, b := Query(s, "n", None), Row(u, "a", ""), Row(u, "b", "");
    assert IsRow(s, "n", a) && a in here;
    LessAfterPrefix(u, Codes("a"), u, Codes("b"));
    assert Less(RowPos(a), RowPos(b));
    if here[0] != a {
      assert here[0] in here && IsRow(s, "n", here[0]);
      assert here[0] == b;
      var i :| 0 <= i < |here| && here[i] == a;
      LessIsAsymmetric(RowPos(a), RowPos(b));
    }
  }

  lemma NothingAfter(s: Store, u: int)
    requires forall p :: p in s ==> p == ("n", "a") || (p == ("n", "b") && s[p].updatedAt < u)
    requires ("n", "a") in s ==> s[("n", "a")].updatedAt == u
    ensures Query(s, "n", Some(NamespaceCursor(u, "a"))) == []
  {
    var here := Query(s, "n", Some(NamespaceCursor(u, "a")));
    if here != [] {
      var r := here[0];
      assert r in here && IsRow(s, "n", r) && After(r, Some(NamespaceCursor(u, "a")));
      NotLessItself(Codes("a"));
    }
  }
}
