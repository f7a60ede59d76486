/** Runs of the job queue in which the statements of many workers interleave: a lease call first selects, then
    updates one row at a time, and any other statement may run in between. The guard in the update has to carry
    exclusivity alone. */
module LeaseRuns {
  import opened Wrappers
  import opened Order
  import opened JobTable
  import JobStore

  /** A lease call in flight: the jobs its select returned, as they were then, and it has not updated yet. */
  datatype Call = Call(terms: Terms, pending: seq<Job>)

  datatype World = World(table: Table, calls: map<nat, Call>)

  datatype Event =
    | Enqueued(key: string, payload: string, next: int, clock: int)
    | SelectRan(call: nat, limit: int, terms: Terms)
    | UpdateRan(call: nat)
    | CallEnded(call: nat)
    | MarkedSucceeded(key: string, clock: int)
    | MarkedRetry(key: string, next: int, error: Option<string>, clock: int)

  /** What a worker is handed: the payload and attempts are those the select read. */
  datatype Grant = Grant(key: string, terms: Terms, payload: string, attempts: nat)

  function TableStep(w: World, e: Event): Table {
    match e
    case Enqueued(key, payload, next, clock) => Enqueue(w.table, key, payload, next, clock)
    case UpdateRan(call) =>
      if call in w.calls && w.calls[call].pending != []
      then GuardedUpdate(w.table, w.calls[call].pending[0].key, w.calls[call].terms) else w.table
    case MarkedSucceeded(key, clock) => MarkSucceeded(w.table, key, clock)
    case MarkedRetry(key, next, error, clock) => MarkRetry(w.table, key, next, error, clock)
    case _ => w.table
  }

  function CallsStep(w: World, e: Event): map<nat, Call> {
    match e
    case SelectRan(call, limit, terms) => w.calls[call := Call(terms, Selected(w.table, terms.now, limit))]
    case UpdateRan(call) =>
      if call in w.calls && w.calls[call].pending != []
      then w.calls[call := w.calls[call].(pending := w.calls[call].pending[1..])] else w.calls
    case CallEnded(call) => w.calls - {call}
    case _ => w.calls
  }

  function Step(w: World, e: Event): World {
    World(TableStep(w, e), CallsStep(w, e))
  }

  /** The job handed to a worker by this event, if any: an update whose guard still holds. */
  function GrantOf(w: World, e: Event): Option<Grant> {
    if e.UpdateRan? && e.call in w.calls && w.calls[e.call].pending != [] then
      var c := w.calls[e.call];
      var job := c.pending[0];
      if job.key in w.table && Eligible(w.table[job.key], c.terms.now)
      then Some(Grant(job.key, c.terms, job.row.payload, job.row.attempts)) else None
    else None
  }

  /** The world after the first n events. */
  function After(w: World, run: seq<Event>, n: nat): World
    requires n <= |run|
  {
    if n == 0 then w else Step(After(w, run, n - 1), run[n - 1])
  }

  function GrantAt(w: World, run: seq<Event>, i: nat): Option<Grant>
    requires i < |run|
  {
    GrantOf(After(w, run, i), run[i])
  }

  /** An enqueue or a mark of this key. */
  predicate Touches(e: Event, k: string) {
    (e.Enqueued? || e.MarkedSucceeded? || e.MarkedRetry?) && e.key == k
  }

  predicate Grants(w: World, run: seq<Event>, i: nat, k: string)
    requires i < |run|
  {
    GrantAt(w, run, i).Some? && GrantAt(w, run, i).value.key == k
  }

  ghost predicate Untouched(run: seq<Event>, k: string, lo: nat, hi: nat)
    requires hi <= |run|
  {
    forall m :: lo <= m < hi ==> !Touches(run[m], k)
  }

  // ----- one step -----

  lemma RowStep(w: World, e: Event, k: string)
    ensures w.table.Keys <= TableStep(w, e).Keys
    ensures var g := GrantOf(w, e);
            !Touches(e, k) ==>
              if g.Some? && g.value.key == k
              then k in w.table && Eligible(w.table[k], g.value.terms.now)
                   && TableStep(w, e)[k] == LeaseRow(w.table[k], g.value.terms)
              else (k in TableStep(w, e) <==> k in w.table)
                   && (k in w.table ==> TableStep(w, e)[k] == w.table[k])
  {
  }

  /** A row changes only by a touch or a grant of its own key, and never goes away. */
  lemma StepOnRow(w: World, e: Event, k: string)
    ensures w.table.Keys <= Step(w, e).table.Keys
    ensures var g := GrantOf(w, e);
            !Touches(e, k) ==>
              if g.Some? && g.value.key == k
              then k in w.table && Eligible(w.table[k], g.value.terms.now)
                   && Step(w, e).table[k] == LeaseRow(w.table[k], g.value.terms)
              else (k in Step(w, e).table <==> k in w.table)
                   && (k in w.table ==> Step(w, e).table[k] == w.table[k])
  {
    RowStep(w, e, k);
  }

  // ----- exclusivity -----

  predicate LeasedUntil(t: Table, k: string, least: int) {
    k in t && t[k].status.Leased? && t[k].expires.Some? && t[k].expires.value >= least
  }

  /** Every grant of k between two positions asked for a lease that does not end before it starts. */
  ghost predicate NoBackdatedGrant(w: World, run: seq<Event>, k: string, lo: nat, hi: nat)
    requires hi <= |run|
  {
    forall m :: lo <= m < hi && Grants(w, run, m, k) ==>
      GrantAt(w, run, m).value.terms.now <= GrantAt(w, run, m).value.terms.expires
  }

  lemma {:induction false} LeaseIsHeld(w: World, run: seq<Event>, i: nat, j: nat, k: string)
    requires i < j <= |run| && Grants(w, run, i, k)
    requires Untouched(run, k, i + 1, j) && NoBackdatedGrant(w, run, k, i + 1, j)
    ensures LeasedUntil(After(w, run, j).table, k, GrantAt(w, run, i).value.terms.expires)
    decreases j
  {
    StepOnRow(After(w, run, j - 1), run[j - 1], k);
    if j > i + 1 {
      LeaseIsHeld(w, run, i, j - 1, k);
      assert Grants(w, run, j - 1, k) ==> NoBackdatedGrant(w, run, k, i + 1, j);
    }
  }

  /** Two grants of one key with no enqueue and no mark of it in between: the later worker's clock had reached the
      end of the earlier lease. Grants of the key in between only have to be honest about their own lease. */
  lemma LeaseExclusivity(w: World, run: seq<Event>, i: nat, j: nat, k: string)
    requires i < j < |run| && Grants(w, run, i, k) && Grants(w, run, j, k)
    requires Untouched(run, k, i + 1, j) && NoBackdatedGrant(w, run, k, i + 1, j)
    ensures GrantAt(w, run, j).value.terms.now >= GrantAt(w, run, i).value.terms.expires
  {
    LeaseIsHeld(w, run, i, j, k);
    StepOnRow(After(w, run, j), run[j], k);
  }

  /** The workers that are granted k read clocks that do not go back, in the order of their grants. */
  ghost predicate GrantClocksInOrder(w: World, run: seq<Event>, k: string, lo: nat, hi: nat)
    requires hi <= |run|
  {
    forall m, n :: lo <= m < n < hi && Grants(w, run, m, k) && Grants(w, run, n, k) ==>
      GrantAt(w, run, m).value.terms.now <= GrantAt(w, run, n).value.terms.now
  }

  /** Where grant clocks do not go back, exclusivity needs no proviso: leases of one key never overlap, whatever
      expiry their calls ask for. */
  lemma {:induction false} ExclusivityInOrder(w: World, run: seq<Event>, i: nat, j: nat, k: string)
    requires i < j < |run| && Grants(w, run, i, k) && Grants(w, run, j, k)
    requires Untouched(run, k, i + 1, j) && GrantClocksInOrder(w, run, k, i + 1, j + 1)
    ensures GrantAt(w, run, j).value.terms.now >= GrantAt(w, run, i).value.terms.expires
    decreases j
  {
    if m: nat :| i < m < j && Grants(w, run, m, k) {
      ExclusivityInOrder(w, run, i, m, k);
    } else {
      LeaseExclusivity(w, run, i, j, k);
    }
  }

  /** Three grants of one key, the middle one under the given terms. */
  ghost predicate ThreeGrants(w: World, run: seq<Event>, a: nat, b: nat, c: nat, k: string, middle: Terms) {
    && a < b < c < |run| && Grants(w, run, a, k) && Grants(w, run, b, k) && Grants(w, run, c, k)
    && GrantAt(w, run, b).value.terms == middle
    && Untouched(run, k, a + 1, c)
    && (forall m :: a < m < c && Grants(w, run, m, k) ==> m == b)
  }

  /** No jobs, and no lease call in flight. */
  const START: World := World(map[], map[])

  /** The condition on the grants in between is exact: in a run from the empty queue, a lease call can stand between
      two overlapping leases if and only if the lease it asks for ends before its own clock reading. */
  lemma BackdatedExactly(middle: Terms)
    ensures middle.expires < middle.now <==>
              exists run, a, b, c, k :: ThreeGrants(START, run, a, b, c, k, middle)
                && GrantAt(START, run, c).value.terms.now < GrantAt(START, run, a).value.terms.expires
  {
    if middle.expires < middle.now {
      var run := BackdatedRun(middle);
      assert ThreeGrants(START, run, 4, 5, 6, "k", middle);
    } else {
      forall run, a, b, c, k | ThreeGrants(START, run, a, b, c, k, middle)
        ensures GrantAt(START, run, c).value.terms.now >= GrantAt(START, run, a).value.terms.expires
      {
        LeaseExclusivity(START, run, a, c, k);
      }
    }
  }

  lemma OnlyJobSelected(row: Row, now: int)
    requires row.status.Ready?
    ensures Selected(map["k" := row], now, 1) == [Job("k", row)]
  {
    var t, j := map["k" := row], Job("k", row);
    assert forall x :: IsReadyJob(t, now, x) <==> x in [j];
    AscendingIsUnique(ReadReady(t, now), [j], JobPos);
  }

  /** Three workers select the job while it is ready. */
  lemma AllSelect(row: Row, first: Terms, middle: Terms, last: Terms, run: seq<Event>)
    requires row == Row("job", Ready, 0, None, None, 0, None, 0, 0) && |run| >= 4
    requires run[..4] == [Enqueued("k", "job", 0, 0), SelectRan(0, 1, first), SelectRan(1, 1, middle), SelectRan(2, 1, last)]
    ensures After(START, run, 4)
            == World(map["k" := row], map[0 := Call(first, [Job("k", row)]), 1 := Call(middle, [Job("k", row)]), 2 := Call(last, [Job("k", row)])])
  {
    hide Selected;
    assert run[0] == run[..4][0] && run[1] == run[..4][1] && run[2] == run[..4][2] && run[3] == run[..4][3];
    OnlyJobSelected(row, first.now);
    OnlyJobSelected(row, middle.now);
    OnlyJobSelected(row, last.now);
    assert After(START, run, 1) == World(map["k" := row], map[]);
    assert After(START, run, 2) == World(map["k" := row], map[0 := Call(first, [Job("k", row)])]);
    assert After(START, run, 3) == World(map["k" := row], map[0 := Call(first, [Job("k", row)]), 1 := Call(middle, [Job("k", row)])]);
  }

  lemma NextWorld(w: World, run: seq<Event>, n: nat)
    requires n < |run|
    ensures After(w, run, n + 1) == Step(After(w, run, n), run[n])
  {
  }

  /** The guard of each update still holds, the last one because the middle lease is already over. */
  lemma AllGrant(w: World, row: Row, first: Terms, middle: Terms, last: Terms)
    requires row.status.Ready? && first.expires <= middle.now && middle.expires <= last.now
    requires w == World(map["k" := row], map[0 := Call(first, [Job("k", row)]), 1 := Call(middle, [Job("k", row)]), 2 := Call(last, [Job("k", row)])])
    ensures var w1 := Step(w, UpdateRan(0));
            var w2 := Step(w1, UpdateRan(1));
            && GrantOf(w, UpdateRan(0)) == Some(Grant("k", first, row.payload, row.attempts))
            && GrantOf(w1, UpdateRan(1)) == Some(Grant("k", middle, row.payload, row.attempts))
            && GrantOf(w2, UpdateRan(2)) == Some(Grant("k", last, row.payload, row.attempts))
  {
    var w1 := Step(w, UpdateRan(0));
    var w2 := Step(w1, UpdateRan(1));
    assert w1.table["k"] == LeaseRow(row, first) && 1 in w1.calls && w1.calls[1] == w.calls[1];
    assert w2.table["k"] == LeaseRow(LeaseRow(row, first), middle) && 2 in w2.calls && w2.calls[2] == w.calls[2];
  }

  lemma BackdatedRun(middle: Terms) returns (run: seq<Event>)
    requires middle.expires < middle.now
    ensures ThreeGrants(START, run, 4, 5, 6, "k", middle)
    ensures GrantAt(START, run, 6).value.terms.now < GrantAt(START, run, 4).value.terms.expires
  {
    hide After, Step, GrantOf, START;
    var first := Terms("first", middle.now, middle.now, 0);
    var last := Terms("last", middle.expires, middle.expires, 0);
    var row := Row("job", Ready, 0, None, None, 0, None, 0, 0);
    run := [Enqueued("k", "job", 0, 0), SelectRan(0, 1, first), SelectRan(1, 1, middle), SelectRan(2, 1, last),
            UpdateRan(0), UpdateRan(1), UpdateRan(2)];
    AllSelect(row, first, middle, last, run);
    AllGrant(After(START, run, 4), row, first, middle, last);
    NextWorld(START, run, 4);
    NextWorld(START, run, 5);
  }

  // ----- row invariants -----

  /** Leased exactly when owner and expiry are both set; otherwise neither is. */
  predicate RowOk(r: Row) {
    && (r.status.Leased? <==> r.owner.Some? && r.expires.Some?)
    && (!r.status.Leased? ==> r.owner.None? && r.expires.None?)
  }

  ghost predicate TableOk(t: Table) {
    forall k :: k in t ==> RowOk(t[k])
  }

  lemma {:induction false} RunKeepsRows(w: World, run: seq<Event>, n: nat)
    requires TableOk(w.table) && n <= |run|
    ensures TableOk(After(w, run, n).table)
    ensures w.table.Keys <= After(w, run, n).table.Keys
    decreases n
  {
    if n > 0 {
      RunKeepsRows(w, run, n - 1);
      StepOnRow(After(w, run, n - 1), run[n - 1], "");
    }
  }

  /** The retry marks of k among the first n events that found a row. */
  function RetriesApplied(w: World, run: seq<Event>, n: nat, k: string): nat
    requires n <= |run|
  {
    if n == 0 then 0 else
      RetriesApplied(w, run, n - 1, k)
      + (if run[n - 1].MarkedRetry? && run[n - 1].key == k && k in After(w, run, n - 1).table then 1 else 0)
  }

  /** Attempts count retry marks: not enqueues, leases, reclaims or successes. */
  lemma {:induction false} AttemptsCountRetries(w: World, run: seq<Event>, n: nat, k: string)
    requires n <= |run| && k in After(w, run, n).table
    ensures After(w, run, n).table[k].attempts
            == (if k in w.table then w.table[k].attempts else 0) + RetriesApplied(w, run, n, k)
    decreases n
  {
    if n > 0 {
      var before := After(w, run, n - 1);
      StepOnRow(before, run[n - 1], k);
      if k in before.table {
        AttemptsCountRetries(w, run, n - 1, k);
      } else {
        NoRowNoRetries(w, run, n - 1, k);
      }
    }
  }

  lemma {:induction false} NoRowNoRetries(w: World, run: seq<Event>, n: nat, k: string)
    requires n <= |run| && k !in After(w, run, n).table
    ensures k !in w.table && RetriesApplied(w, run, n, k) == 0
    decreases n
  {
    if n > 0 {
      StepOnRow(After(w, run, n - 1), run[n - 1], k);
      NoRowNoRetries(w, run, n - 1, k);
    }
  }

  ghost predicate Quiet(w: World, run: seq<Event>, k: string, lo: nat, hi: nat)
    requires hi <= |run|
  {
    forall m :: lo <= m < hi ==> !Touches(run[m], k) && !Grants(w, run, m, k)
  }

  lemma {:induction false} QuietRow(w: World, run: seq<Event>, k: string, lo: nat, hi: nat)
    requires lo <= hi <= |run| && Quiet(w, run, k, lo, hi) && k in After(w, run, lo).table
    ensures k in After(w, run, hi).table && After(w, run, hi).table[k] == After(w, run, lo).table[k]
    decreases hi
  {
    if lo < hi {
      QuietRow(w, run, k, lo, hi - 1);
      StepOnRow(After(w, run, hi - 1), run[hi - 1], k);
      assert !Grants(w, run, hi - 1, k);
    }
  }

  /** After a retry mark the next grant, if no enqueue or mark comes first, waits for next_attempt_at; after a
      success mark there is none. */
  lemma MarksHoldBackGrants(w: World, run: seq<Event>, i: nat, j: nat, k: string)
    requires i < j < |run| && Touches(run[i], k) && !run[i].Enqueued? && k in After(w, run, i).table
    requires Quiet(w, run, k, i + 1, j)
    ensures run[i].MarkedRetry? && Grants(w, run, j, k) ==> GrantAt(w, run, j).value.terms.now >= run[i].next
    ensures run[i].MarkedSucceeded? ==> !Grants(w, run, j, k)
  {
    var marked := After(w, run, i + 1).table;
    assert marked == Step(After(w, run, i), run[i]).table;
    QuietRow(w, run, k, i + 1, j);
    StepOnRow(After(w, run, j), run[j], k);
  }

  // ----- a row tells its history -----

  predicate Enqueues(e: Event, k: string) { e.Enqueued? && e.key == k }

  predicate Reschedules(e: Event, k: string) { (e.Enqueued? || e.MarkedRetry?) && e.key == k }

  function StatusAfter(e: Event): Status {
    if e.Enqueued? then Ready else if e.MarkedRetry? then RetryWait else Succeeded
  }

  /** What one event leaves of the row of k as it was. */
  lemma StepKeeps(w: World, e: Event, k: string)
    requires k in w.table
    ensures var r, r' := w.table[k], Step(w, e).table[k];
            && k in Step(w, e).table && r'.createdAt == r.createdAt
            && (!Enqueues(e, k) ==> r'.payload == r.payload)
            && (!Reschedules(e, k) ==> r'.nextAttempt == r.nextAttempt)
            && (!Touches(e, k) ==> r'.lastError == r.lastError && r'.attempts == r.attempts)
  {
  }

  /** Over a stretch of events: nothing changes the payload but an enqueue, the next attempt but an enqueue or a
      retry mark, the last error but an enqueue or a mark, and the creation time at all. */
  lemma {:induction false} RowKeeps(w: World, run: seq<Event>, lo: nat, hi: nat, k: string)
    requires lo <= hi <= |run| && k in After(w, run, lo).table
    ensures k in After(w, run, hi).table
    ensures var r, r' := After(w, run, lo).table[k], After(w, run, hi).table[k];
            && r'.createdAt == r.createdAt
            && ((forall m :: lo <= m < hi ==> !Enqueues(run[m], k)) ==> r'.payload == r.payload)
            && ((forall m :: lo <= m < hi ==> !Reschedules(run[m], k)) ==> r'.nextAttempt == r.nextAttempt)
            && (Untouched(run, k, lo, hi) ==> r'.lastError == r.lastError)
    decreases hi
  {
    if lo < hi {
      RowKeeps(w, run, lo, hi - 1, k);
      NextWorld(w, run, hi - 1);
      StepKeeps(After(w, run, hi - 1), run[hi - 1], k);
      hide After, Step;
    }
  }

  /** What an event that touches k, and finds or makes its row, writes there. */
  lemma TouchWrites(w: World, e: Event, k: string)
    requires Touches(e, k) && (k in w.table || e.Enqueued?)
    ensures k in Step(w, e).table
    ensures var r' := Step(w, e).table[k];
            && r'.status == StatusAfter(e) && r'.owner.None? && r'.expires.None? && r'.updatedAt == e.clock
            && r'.lastError == (if e.MarkedRetry? then e.error else None)
            && (Enqueues(e, k) ==> r'.payload == e.payload)
            && (Reschedules(e, k) ==> r'.nextAttempt == e.next)
            && (k !in w.table ==> r'.createdAt == e.clock && r'.attempts == 0)
  {
  }

  /** The last event of its kind up to n decides each field of the row: its payload is that of the last enqueue, its
      next attempt that of the last enqueue or retry mark, its last error that of the last touch, if that was a retry
      mark. */
  lemma LastEventDecides(w: World, run: seq<Event>, i: nat, n: nat, k: string)
    requires i < n <= |run| && Touches(run[i], k) && (k in After(w, run, i).table || run[i].Enqueued?)
    ensures k in After(w, run, n).table
    ensures var r := After(w, run, n).table[k];
            && (Enqueues(run[i], k) && (forall m :: i < m < n ==> !Enqueues(run[m], k)) ==> r.payload == run[i].payload)
            && (Reschedules(run[i], k) && (forall m :: i < m < n ==> !Reschedules(run[m], k)) ==>
                  r.nextAttempt == run[i].next)
            && (Untouched(run, k, i + 1, n) ==> r.lastError == if run[i].MarkedRetry? then run[i].error else None)
            && (k !in After(w, run, i).table ==> r.createdAt == run[i].clock)
  {
    NextWorld(w, run, i);
    TouchWrites(After(w, run, i), run[i], k);
    hide After, Step;
    RowKeeps(w, run, i + 1, n, k);
  }

  /** Until the next touch or grant of k: after a touch the row is as that left it, after a grant it is leased to that
      worker until that expiry. */
  lemma LastTouchOrGrantDecides(w: World, run: seq<Event>, i: nat, n: nat, k: string)
    requires i < n <= |run| && Quiet(w, run, k, i + 1, n)
    ensures Grants(w, run, i, k) ==>
              && k in After(w, run, n).table
              && var r, terms := After(w, run, n).table[k], GrantAt(w, run, i).value.terms;
                 r.status.Leased? && r.owner == Some(terms.worker) && r.expires == Some(terms.expires)
                 && r.updatedAt == terms.clock
    ensures Touches(run[i], k) && (k in After(w, run, i).table || run[i].Enqueued?) ==>
              && k in After(w, run, n).table
              && var r := After(w, run, n).table[k];
                 r.status == StatusAfter(run[i]) && r.owner.None? && r.expires.None? && r.updatedAt == run[i].clock
  {
    NextWorld(w, run, i);
    if Grants(w, run, i, k) {
      StepOnRow(After(w, run, i), run[i], k);
      QuietRow(w, run, k, i + 1, n);
    } else if Touches(run[i], k) && (k in After(w, run, i).table || run[i].Enqueued?) {
      TouchWrites(After(w, run, i), run[i], k);
      QuietRow(w, run, k, i + 1, n);
    }
  }

  // ----- what a grant hands out -----

  /** The call's own steps since its select. */
  predicate Restarts(e: Event, call: nat) {
    (e.SelectRan? || e.CallEnded?) && e.call == call
  }

  /** What a call has left to update are rows of its select, as they were then. */
  lemma {:induction false} PendingWasSelected(w: World, run: seq<Event>, s: nat, n: nat, call: nat)
    requires s < n <= |run| && run[s].SelectRan? && run[s].call == call
    requires forall m :: s < m < n ==> !Restarts(run[m], call)
    ensures call in After(w, run, n).calls && After(w, run, n).calls[call].terms == run[s].terms
    ensures forall j :: j in After(w, run, n).calls[call].pending ==>
              j in Selected(After(w, run, s).table, run[s].terms.now, run[s].limit)
    decreases n
  {
    NextWorld(w, run, n - 1);
    if n > s + 1 {
      PendingWasSelected(w, run, s, n - 1, call);
      PendingShrinks(After(w, run, n - 1), run[n - 1], call);
      hide After, Step, Selected;
    }
  }

  lemma PendingShrinks(w: World, e: Event, call: nat)
    requires call in w.calls && !Restarts(e, call)
    ensures call in Step(w, e).calls && Step(w, e).calls[call].terms == w.calls[call].terms
    ensures forall j :: j in Step(w, e).calls[call].pending ==> j in w.calls[call].pending
  {
  }

  lemma SelectedRows(t: Table, now: int, limit: int, j: Job)
    requires j in Selected(t, now, limit)
    ensures IsReadyJob(t, now, j)
  {
    SelectedIsPrefix(t, now, limit);
    assert j in ReadReady(t, now);
  }

  /** A grant hands out the payload and attempts the row had when the call selected it, on the terms of that call.
      Unless the key was enqueued again in between, that is the payload the row still has. */
  lemma GrantHandsOutSelected(w: World, run: seq<Event>, s: nat, j: nat, k: string)
    requires s < j < |run| && run[s].SelectRan? && run[j].UpdateRan? && run[j].call == run[s].call
    requires (forall m :: s < m < j ==> !Restarts(run[m], run[s].call)) && Grants(w, run, j, k)
    ensures k in After(w, run, s).table && k in After(w, run, j).table
    ensures var g, r := GrantAt(w, run, j).value, After(w, run, s).table[k];
            && g.payload == r.payload && g.attempts == r.attempts && g.terms == run[s].terms
            && Eligible(r, g.terms.now)
            && ((forall m :: s <= m < j ==> !Enqueues(run[m], k)) ==> g.payload == After(w, run, j).table[k].payload)
  {
    PendingWasSelected(w, run, s, j, run[s].call);
    var job := After(w, run, j).calls[run[s].call].pending[0];
    assert job in After(w, run, j).calls[run[s].call].pending;
    hide After, Selected;
    SelectedRows(After(w, run, s).table, run[s].terms.now, run[s].limit, job);
    RowKeeps(w, run, s, j, k);
  }

  /** So the payload handed out is that of the last enqueue before the select. */
  lemma GrantHandsOutLastEnqueued(w: World, run: seq<Event>, i: nat, s: nat, j: nat, k: string)
    requires i < s < j < |run| && run[s].SelectRan? && run[j].UpdateRan? && run[j].call == run[s].call
    requires (forall m :: s < m < j ==> !Restarts(run[m], run[s].call)) && Grants(w, run, j, k)
    requires Enqueues(run[i], k) && forall m :: i < m < s ==> !Enqueues(run[m], k)
    ensures GrantAt(w, run, j).value.payload == run[i].payload
  {
    hide After, GrantAt, Grants, Eligible;
    GrantHandsOutSelected(w, run, s, j, k);
    LastEventDecides(w, run, i, s, k);
  }

  // ----- the undisturbed call -----

  function UndisturbedCall(call: nat, limit: int, terms: Terms, n: nat): seq<Event> {
    [SelectRan(call, limit, terms)] + seq(n, _ => UpdateRan(call))
  }

  /** The call has updated the first n of its selected rows of t. */
  ghost predicate Midway(t: Table, sel: seq<Job>, call: nat, terms: Terms, n: nat, w: World)
    requires n <= |sel|
  {
    && w.table == LeaseKeys(t, Keys(sel[..n]), terms)
    && call in w.calls && w.calls[call] == Call(terms, sel[n..])
  }

  lemma UpdateGrantsNext(t: Table, sel: seq<Job>, call: nat, terms: Terms, n: nat, w: World)
    requires JobStore.Selection(t, terms.now, sel) && n < |sel| && Midway(t, sel, call, terms, n, w)
    ensures GrantOf(w, UpdateRan(call)) == Some(Grant(sel[n].key, terms, sel[n].row.payload, sel[n].row.attempts))
    ensures Midway(t, sel, call, terms, n + 1, Step(w, UpdateRan(call)))
  {
    JobStore.RecheckHolds(t, sel, terms, n);
    assert sel[n..][0] == sel[n] && sel[n..][1..] == sel[n + 1..];
  }

  /** With nothing in between, every update of a call grants its row, and together they give the table of the
      one-transaction form. */
  lemma {:induction false} UndisturbedCallIsAtomic(w: World, call: nat, limit: int, terms: Terms, n: nat, total: nat)
    requires n <= total == |Selected(w.table, terms.now, limit)|
    ensures var sel, run := Selected(w.table, terms.now, limit), UndisturbedCall(call, limit, terms, total);
            && Midway(w.table, sel, call, terms, n, After(w, run, n + 1))
            && (n < total ==> GrantAt(w, run, n + 1) == Some(Grant(sel[n].key, terms, sel[n].row.payload, sel[n].row.attempts)))
    decreases n
  {
    hide Selected, LeaseKeys, Keys, JobStore.Selection, TableStep, CallsStep;
    var sel, run := Selected(w.table, terms.now, limit), UndisturbedCall(call, limit, terms, total);
    JobStore.SelectedIsSelection(w.table, terms.now, limit);
    if n == 0 {
      SelectStarts(w, call, limit, terms);
      assert After(w, run, 1) == Step(After(w, run, 0), run[0]);
    } else {
      UndisturbedCallIsAtomic(w, call, limit, terms, n - 1, total);
      UpdateGrantsNext(w.table, sel, call, terms, n - 1, After(w, run, n));
    }
    if n < total {
      UpdateGrantsNext(w.table, sel, call, terms, n, After(w, run, n + 1));
    }
  }

  lemma SelectStarts(w: World, call: nat, limit: int, terms: Terms)
    ensures Midway(w.table, Selected(w.table, terms.now, limit), call, terms, 0, Step(w, SelectRan(call, limit, terms)))
  {
    var sel := Selected(w.table, terms.now, limit);
    assert sel[..0] == [] && sel[0..] == sel && Keys([]) == {};
    assert LeaseKeys(w.table, {}, terms) == w.table;
  }
}
