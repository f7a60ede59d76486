/** The leased-job table: its rows, the SQL statements that read and write it, and what leasing does to the
    order in which jobs are served. */
module JobTable {
  import opened Wrappers
  import opened Order

  datatype Status = Ready | Leased | Succeeded | RetryWait

  datatype Row = Row(
    payload: string, status: Status, attempts: nat, owner: Option<string>, expires: Option<int>,
    nextAttempt: int, lastError: Option<string>, createdAt: int, updatedAt: int)

  /** job_key is the primary key. */
  type Table = map<string, Row>

  datatype Job = Job(key: string, row: Row)

  /** What one lease call asks for: the worker, its clock reading `now`, and when its leases run out. */
  datatype Terms = Terms(worker: string, now: int, expires: int, clock: int)

  // ----- single-row statements -----

  /** The WHERE clause shared by select, guarded update and the ready listing. */
  predicate Eligible(r: Row, now: int) {
    || r.status.Ready?
    || (r.status.RetryWait? && r.nextAttempt <= now)
    || (r.status.Leased? && r.expires.Some? && r.expires.value <= now)
  }

  function LeaseRow(r: Row, terms: Terms): Row {
    r.(status := Leased, owner := Some(terms.worker), expires := Some(terms.expires), updatedAt := terms.clock)
  }

  function SucceedRow(r: Row, clock: int): Row {
    r.(status := Succeeded, owner := None, expires := None, lastError := None, updatedAt := clock)
  }

  function RetryRow(r: Row, next: int, error: Option<string>, clock: int): Row {
    r.(status := RetryWait, attempts := r.attempts + 1, owner := None, expires := None,
       nextAttempt := next, lastError := error, updatedAt := clock)
  }

  /** INSERT … ON CONFLICT DO UPDATE: a known key keeps its attempt count and creation time. */
  function Enqueue(t: Table, key: string, payload: string, next: int, clock: int): Table {
    if key in t then
      t[key := t[key].(payload := payload, status := Ready, owner := None, expires := None,
                       nextAttempt := next, lastError := None, updatedAt := clock)]
    else
      t[key := Row(payload, Ready, 0, None, None, next, None, clock, clock)]
  }

  function GuardedUpdate(t: Table, key: string, terms: Terms): Table {
    if key in t && Eligible(t[key], terms.now) then t[key := LeaseRow(t[key], terms)] else t
  }

  function MarkSucceeded(t: Table, key: string, clock: int): Table {
    if key in t then t[key := SucceedRow(t[key], clock)] else t
  }

  function MarkRetry(t: Table, key: string, next: int, error: Option<string>, clock: int): Table {
    if key in t then t[key := RetryRow(t[key], next, error, clock)] else t
  }

  // ----- set-based statements -----

  function LeaseKeys(t: Table, keys: set<string>, terms: Terms): Table {
    map k | k in t :: if k in keys then LeaseRow(t[k], terms) else t[k]
  }

  function SucceedKeys(t: Table, keys: seq<string>, clock: int): Table {
    map k | k in t :: if k in keys then SucceedRow(t[k], clock) else t[k]
  }

  // ----- reading in order -----

  /** ORDER BY next_attempt_at, created_at, job_key */
  function JobPos(j: Job): seq<int> {
    [j.row.nextAttempt] + ([j.row.createdAt] + Codes(j.key))
  }

  function ReadySet(t: Table, now: int): set<Job> {
    set k | k in t && Eligible(t[k], now) :: Job(k, t[k])
  }

  lemma JobPosTail(j: Job)
    ensures |JobPos(j)| >= 2 && JobPos(j)[2..] == Codes(j.key)
  {
    hide Codes;
    assert JobPos(j)[2..] == ([j.row.createdAt] + Codes(j.key))[1..];
  }

  lemma JobPosSeparates(t: Table, now: int)
    ensures Separates(JobPos, ReadySet(t, now))
  {
    forall x, y | x in ReadySet(t, now) && y in ReadySet(t, now) && JobPos(x) == JobPos(y) ensures x == y {
      JobPosTail(x);
      JobPosTail(y);
      CodesAreInjective(x.key, y.key);
    }
  }

  predicate IsReadyJob(t: Table, now: int, j: Job) {
    j.key in t && j.row == t[j.key] && Eligible(j.row, now)
  }

  /** read_ready_leased_jobs */
  function ReadReady(t: Table, now: int): (r: seq<Job>)
    ensures Ascending(r, JobPos)
    ensures forall x :: x in r <==> IsReadyJob(t, now, x)
  {
    JobPosSeparates(t, now);
    SortBy(ReadySet(t, now), JobPos)
  }

  /** The ready list goes by next attempt, then creation, then key. */
  lemma ReadyOrder(t: Table, now: int, i: nat, j: nat)
    requires i < j < |ReadReady(t, now)|
    ensures var a, b := ReadReady(t, now)[i], ReadReady(t, now)[j];
            || a.row.nextAttempt < b.row.nextAttempt
            || (a.row.nextAttempt == b.row.nextAttempt && a.row.createdAt < b.row.createdAt)
            || (a.row.nextAttempt == b.row.nextAttempt && a.row.createdAt == b.row.createdAt
                && Less(Codes(a.key), Codes(b.key)))
  {
    var a, b := ReadReady(t, now)[i], ReadReady(t, now)[j];
    assert Less(JobPos(a), JobPos(b));
    LessAfterPrefix(a.row.nextAttempt, [a.row.createdAt] + Codes(a.key), b.row.nextAttempt, [b.row.createdAt] + Codes(b.key));
    LessAfterPrefix(a.row.createdAt, Codes(a.key), b.row.createdAt, Codes(b.key));
  }

  /** LIMIT as SQLite reads it: a negative limit is no limit. */
  function Limit<T>(s: seq<T>, limit: int): seq<T> {
    if limit < 0 || |s| <= limit then s else s[..limit]
  }

  function Selected(t: Table, now: int, limit: int): seq<Job> {
    Limit(ReadReady(t, now), limit)
  }

  function Keys(jobs: seq<Job>): set<string> {
    set j | j in jobs :: j.key
  }

  // ----- what the single-row statements do to the ready list -----

  /** An enqueued job is ready at once, whatever state its key was in, at its own place and with the attempts it
      had. No other key's place on the list is touched, here or by the marks. */
  lemma EnqueuedIsReady(t: Table, key: string, payload: string, next: int, clock: int, now: int)
    ensures var ready, after := ReadReady(t, now), ReadReady(Enqueue(t, key, payload, next, clock), now);
            && (forall j: Job :: j.key != key ==> (j in after <==> j in ready))
            && exists j :: j in after && j.key == key && j.row.payload == payload && j.row.nextAttempt == next
                           && (if key in t then j.row.attempts == t[key].attempts && j.row.createdAt == t[key].createdAt
                               else j.row.attempts == 0 && j.row.createdAt == clock)
  {
    hide ReadReady, Less, JobPos;
    var t' := Enqueue(t, key, payload, next, clock);
    assert IsReadyJob(t', now, Job(key, t'[key]));
  }

  /** A succeeded job is on no ready list. */
  lemma SucceededIsNotReady(t: Table, key: string, clock: int, now: int)
    ensures var ready, after := ReadReady(t, now), ReadReady(MarkSucceeded(t, key, clock), now);
            forall j :: j in after <==> j in ready && j.key != key
  {
    hide ReadReady, Less, JobPos;
    assert forall j :: IsReadyJob(MarkSucceeded(t, key, clock), now, j) ==> IsReadyJob(t, now, j) && j.key != key;
  }

  /** A job marked for retry is ready from its next attempt time on. */
  lemma RetriedIsReadyLater(t: Table, key: string, next: int, error: Option<string>, clock: int, now: int)
    ensures var ready, after := ReadReady(t, now), ReadReady(MarkRetry(t, key, next, error, clock), now);
            && (forall j: Job :: j.key != key ==> (j in after <==> j in ready))
            && (key in t && next <= now <==> exists j :: j in after && j.key == key)
            && (forall j :: j in after && j.key == key ==> j.row.lastError == error)
  {
    hide ReadReady, Less, JobPos;
    if key in t && next <= now {
      assert IsReadyJob(MarkRetry(t, key, next, error, clock), now, Job(key, RetryRow(t[key], next, error, clock)));
    }
  }

  // ----- leasing drains the ready list in order -----

  lemma {:induction false} SelectedIsPrefix(t: Table, now: int, limit: int)
    ensures var ready, sel := ReadReady(t, now), Selected(t, now, limit);
            && ready == sel + ready[|sel|..]
            && |sel| == (if limit < 0 || |ready| <= limit then |ready| else limit)
            && Ascending(sel, JobPos) && Ascending(ready[|sel|..], JobPos)
  {
  }

  /** A ready job is selected exactly when its key is. */
  lemma SelectedByKey(t: Table, now: int, limit: int, x: Job)
    requires IsReadyJob(t, now, x)
    ensures var ready, sel := ReadReady(t, now), Selected(t, now, limit);
            (x.key in Keys(sel) <==> x in sel) && (x in ready[|sel|..] <==> x !in sel)
  {
    var ready, sel := ReadReady(t, now), Selected(t, now, limit);
    SelectedIsPrefix(t, now, limit);
    assert x in ready;
    forall y | y in sel && y.key == x.key ensures y == x {
      assert y in ready;
    }
    if x in ready[|sel|..] {
      var j :| |sel| <= j < |ready| && ready[j] == x;
      forall i | 0 <= i < |sel| ensures sel[i] != x { AscendingIsDistinct(ready, i, j, JobPos); }
    }
  }

  lemma StillReady(t: Table, limit: int, terms: Terms, x: Job)
    requires terms.now < terms.expires
    ensures var sel := Selected(t, terms.now, limit);
            IsReadyJob(LeaseKeys(t, Keys(sel), terms), terms.now, x) <==> x in ReadReady(t, terms.now)[|sel|..]
  {
    hide Less, JobPos, Codes;
    var now, ready, sel := terms.now, ReadReady(t, terms.now), Selected(t, terms.now, limit);
    SelectedIsPrefix(t, now, limit);
    if x in ready[|sel|..] {
      assert x in ready;
    }
    if IsReadyJob(t, now, x) {
      SelectedByKey(t, now, limit, x);
    }
  }

  lemma RestStaysReady(t: Table, limit: int, terms: Terms)
    requires terms.now < terms.expires
    ensures var sel := Selected(t, terms.now, limit);
            ReadReady(LeaseKeys(t, Keys(sel), terms), terms.now) == ReadReady(t, terms.now)[|sel|..]
  {
    var sel := Selected(t, terms.now, limit);
    SelectedIsPrefix(t, terms.now, limit);
    forall x: Job { StillReady(t, limit, terms, x); }
    AscendingIsUnique(ReadReady(LeaseKeys(t, Keys(sel), terms), terms.now), ReadReady(t, terms.now)[|sel|..], JobPos);
  }

  lemma StaleLeaseComesBack(t: Table, limit: int, terms: Terms)
    requires terms.expires <= terms.now && Selected(t, terms.now, limit) != []
    ensures var sel := Selected(t, terms.now, limit);
            ReadReady(LeaseKeys(t, Keys(sel), terms), terms.now) != ReadReady(t, terms.now)[|sel|..]
  {
    var now, ready, sel := terms.now, ReadReady(t, terms.now), Selected(t, terms.now, limit);
    SelectedIsPrefix(t, now, limit);
    assert sel[0] in sel && sel[0] in ready && sel[0].key in Keys(sel);
    var again := Job(sel[0].key, LeaseRow(sel[0].row, terms));
    assert IsReadyJob(LeaseKeys(t, Keys(sel), terms), now, again);
    assert again in ReadReady(LeaseKeys(t, Keys(sel), terms), now);
    if again in ready[|sel|..] {
      assert again in ready;
      SelectedByKey(t, now, limit, again);
    }
  }

  lemma NothingLeased(t: Table, limit: int, terms: Terms)
    requires Selected(t, terms.now, limit) == []
    ensures LeaseKeys(t, Keys(Selected(t, terms.now, limit)), terms) == t
  {
    assert Keys([]) == {};
  }

  // ----- one lease call -----

  /** One lease call on a table: its limit, its terms, and which payloads decode to the type it asks for. */
  datatype Round = Round(table: Table, limit: int, terms: Terms, decodes: string -> bool)

  /** The transaction commits when every selected payload decodes, and is rolled back otherwise. */
  predicate Commits(r: Round) {
    forall j :: j in Selected(r.table, r.terms.now, r.limit) ==> r.decodes(j.row.payload)
  }

  function AfterRound(r: Round): Table {
    if Commits(r) then LeaseKeys(r.table, Keys(Selected(r.table, r.terms.now, r.limit)), r.terms) else r.table
  }

  predicate Granted(r: Round, k: string) {
    Commits(r) && k in Keys(Selected(r.table, r.terms.now, r.limit))
  }

  /** A lease call selects the first min(limit, n) ready jobs. It leaves exactly the others ready, in their order,
      if and only if there was nothing to lease, or all it selected decodes and its leases outlive `now`. */
  lemma LeaseLeavesTheRest(r: Round)
    ensures var ready, sel := ReadReady(r.table, r.terms.now), Selected(r.table, r.terms.now, r.limit);
            && ready == sel + ready[|sel|..]
            && |sel| == (if r.limit < 0 || |ready| <= r.limit then |ready| else r.limit)
            && (ReadReady(AfterRound(r), r.terms.now) == ready[|sel|..]
                <==> sel == [] || (Commits(r) && r.terms.now < r.terms.expires))
  {
    SelectedIsPrefix(r.table, r.terms.now, r.limit);
    if Commits(r) {
      if r.terms.now < r.terms.expires {
        RestStaysReady(r.table, r.limit, r.terms);
      } else if Selected(r.table, r.terms.now, r.limit) != [] {
        StaleLeaseComesBack(r.table, r.limit, r.terms);
      } else {
        NothingLeased(r.table, r.limit, r.terms);
      }
    }
  }

  // ----- bounded waiting -----

  /** The ready jobs that sort before the job under k. */
  function Ahead(t: Table, now: int, k: string): set<Job>
    requires k in t
  {
    set j | j in ReadySet(t, now) && Less(JobPos(j), JobPos(Job(k, t[k])))
  }

  /** Between two lease calls other steps may run, but unless k was granted its row is left alone and no job
      sorting before it becomes ready. */
  ghost predicate NobodyOvertakes(r: Round, s: Round, k: string)
    requires k in r.table
  {
    !Granted(r, k) ==>
      && r.terms.now <= s.terms.now
      && k in s.table && s.table[k] == r.table[k]
      && Ahead(s.table, s.terms.now, k) <= Ahead(AfterRound(r), r.terms.now, k)
  }

  ghost predicate FairRounds(rounds: seq<Round>, least: int, k: string) {
    && (forall i :: 0 <= i < |rounds| ==>
          rounds[i].limit >= least && rounds[i].terms.now < rounds[i].terms.expires)
    && (forall i :: 0 <= i < |rounds| ==> (forall j :: 0 <= j < i ==> !Granted(rounds[j], k)) ==> k in rounds[i].table)
    && (forall i :: 0 <= i < |rounds| - 1 && k in rounds[i].table ==> NobodyOvertakes(rounds[i], rounds[i + 1], k))
  }

  lemma AheadIsPrefix(t: Table, now: int, k: string, n: nat)
    requires k in t && n < |ReadReady(t, now)| && ReadReady(t, now)[n] == Job(k, t[k])
    ensures Ahead(t, now, k) == set x | x in ReadReady(t, now)[..n]
  {
    var ready := ReadReady(t, now);
    forall x ensures x in Ahead(t, now, k) <==> x in ready[..n] {
      if x in Ahead(t, now, k) { assert IsReadyJob(t, now, x); }
      if x in ready { BeforeIsPrefix(ready, n, x, JobPos); }
    }
  }

  lemma FoundLater<T>(s: seq<T>, m: nat, x: T) returns (n: nat)
    requires m <= |s| && x in s[m..]
    ensures m <= n < |s| && s[n] == x
    ensures forall y :: y in s[..m] ==> y in s[..n]
  {
    var j :| 0 <= j < |s[m..]| && s[m..][j] == x;
    n := m + j;
    forall i | 0 <= i < m ensures s[..m][i] == s[..n][i] {}
  }

  lemma ServedWereAhead(t: Table, now: int, limit: int, k: string)
    requires k in t && Eligible(t[k], now) && k !in Keys(Selected(t, now, limit))
    ensures limit >= 0
    ensures var served := set x | x in Selected(t, now, limit);
            served <= Ahead(t, now, k) && |served| == limit
  {
    var ready, m, me := ReadReady(t, now), |Selected(t, now, limit)|, Job(k, t[k]);
    SelectedIsPrefix(t, now, limit);
    SelectedByKey(t, now, limit, me);
    var n := FoundLater(ready, m, me);
    AheadIsPrefix(t, now, k, n);
    AscendingSize(Selected(t, now, limit), JobPos);
    assert ready[..m] == Selected(t, now, limit);
  }

  /** When a call commits, a ready job either is among the granted, or a whole batch of the jobs ahead of it is. */
  lemma {:induction false} OneRoundServesThoseAhead(r: Round, k: string)
    requires Commits(r)
    requires k in r.table && Eligible(r.table[k], r.terms.now) && r.terms.now < r.terms.expires
    requires !Granted(r, k)
    ensures AfterRound(r)[k] == r.table[k]
    ensures r.limit >= 0
    ensures |Ahead(AfterRound(r), r.terms.now, k)| <= |Ahead(r.table, r.terms.now, k)| - r.limit
  {
    ServedWereAhead(r.table, r.terms.now, r.limit, k);
    AheadShrinks(r, k);
    var served := set x | x in Selected(r.table, r.terms.now, r.limit);
    SubsetSize(Ahead(AfterRound(r), r.terms.now, k) + served, Ahead(r.table, r.terms.now, k));
  }

  lemma AheadShrinks(r: Round, k: string)
    requires Commits(r) && k in r.table && r.terms.now < r.terms.expires && !Granted(r, k)
    ensures var after := Ahead(AfterRound(r), r.terms.now, k);
            && after <= Ahead(r.table, r.terms.now, k)
            && after !! set x | x in Selected(r.table, r.terms.now, r.limit)
  {
    var t, now := r.table, r.terms.now;
    var sel := Selected(t, now, r.limit);
    forall x | x in Ahead(AfterRound(r), now, k) ensures x in Ahead(t, now, k) && x !in sel {
      assert IsReadyJob(AfterRound(r), now, x);
      StillReady(t, r.limit, r.terms, x);
      SelectedIsPrefix(t, now, r.limit);
      assert x in ReadReady(t, now);
      SelectedByKey(t, now, r.limit, x);
    }
  }

  /** The calls that are not rolled back. */
  function CommitCount(rounds: seq<Round>): nat {
    if rounds == [] then 0 else (if Commits(rounds[0]) then 1 else 0) + CommitCount(rounds[1..])
  }

  lemma CountNone(rounds: seq<Round>)
    ensures CommitCount(rounds[..0]) == 0
  {
  }

  lemma {:induction false} CountOneMore(rounds: seq<Round>, least: nat, j: nat)
    requires rounds != [] && j < |rounds|
    ensures least * CommitCount(rounds) == (if Commits(rounds[0]) then least else 0) + least * CommitCount(rounds[1..])
    ensures least * CommitCount(rounds[..j + 1])
            == (if Commits(rounds[0]) then least else 0) + least * CommitCount(rounds[1..][..j])
    ensures |rounds| == 1 ==> CommitCount(rounds[1..]) == 0
  {
    hide Commits, Selected, Less;
    assert rounds[..j + 1][1..] == rounds[1..][..j] && rounds[..j + 1][0] == rounds[0];
    TimesOneMore(least, CommitCount(rounds[1..]));
    TimesOneMore(least, CommitCount(rounds[1..][..j]));
  }

  /** A job with r ready jobs ahead of it is granted by committing call number r / least + 1 at the latest: some call
      grants it, and least times the commits before that call is at most r. Calls that are rolled back, anywhere in
      between, cost it nothing but time. */
  lemma {:induction false} BoundedWaiting(rounds: seq<Round>, least: int, k: string) returns (i: nat)
    requires least >= 1 && FairRounds(rounds, least, k)
    requires rounds != [] && k in rounds[0].table && Eligible(rounds[0].table[k], rounds[0].terms.now)
    requires |Ahead(rounds[0].table, rounds[0].terms.now, k)| < least * CommitCount(rounds)
    ensures i < |rounds| && Granted(rounds[i], k)
    ensures least * CommitCount(rounds[..i]) <= |Ahead(rounds[0].table, rounds[0].terms.now, k)|
    decreases |rounds|
  {
    hide FairRounds, Ahead, Selected, Commits, Eligible, CommitCount, Granted;
    if Granted(rounds[0], k) {
      i := 0;
      CountNone(rounds);
    } else {
      RankDrops(rounds, least, k);
      RestIsFair(rounds, least, k);
      CountOneMore(rounds, least, 0);
      var j := BoundedWaiting(rounds[1..], least, k);
      CountOneMore(rounds, least, j);
      i := j + 1;
    }
  }

  lemma TimesOneMore(a: int, b: int)
    ensures a * (b + 1) == a * b + a
  {
  }

  lemma {:induction false} RankDrops(rounds: seq<Round>, least: int, k: string)
    requires least >= 1 && FairRounds(rounds, least, k)
    requires rounds != [] && k in rounds[0].table && Eligible(rounds[0].table[k], rounds[0].terms.now)
    requires |Ahead(rounds[0].table, rounds[0].terms.now, k)| < least * CommitCount(rounds)
    requires !Granted(rounds[0], k)
    ensures |rounds| > 1 && k in rounds[1].table && Eligible(rounds[1].table[k], rounds[1].terms.now)
    ensures |Ahead(rounds[1].table, rounds[1].terms.now, k)| + (if Commits(rounds[0]) then least else 0)
            <= |Ahead(rounds[0].table, rounds[0].terms.now, k)|
  {
    CountOneMore(rounds, least, 0);
    if Commits(rounds[0]) { OneRoundServesThoseAhead(rounds[0], k); }
    assert |rounds| > 1;
    assert NobodyOvertakes(rounds[0], rounds[1], k);
    SubsetSize(Ahead(rounds[1].table, rounds[1].terms.now, k), Ahead(AfterRound(rounds[0]), rounds[0].terms.now, k));
  }

  lemma {:induction false} RestIsFair(rounds: seq<Round>, least: int, k: string)
    requires FairRounds(rounds, least, k) && rounds != [] && !Granted(rounds[0], k)
    ensures FairRounds(rounds[1..], least, k)
  {
    hide NobodyOvertakes, Granted, Commits;
    var rest := rounds[1..];
    forall i | 0 <= i < |rest| && forall j :: 0 <= j < i ==> !Granted(rest[j], k) ensures k in rest[i].table {
      forall j | 0 <= j < i + 1 ensures !Granted(rounds[j], k) {
        if j > 0 { assert rounds[j] == rest[j - 1]; }
      }
    }
  }

  // ----- a payload that does not decode -----

  /** With fewer jobs ahead of it than the limit, a ready job is selected. */
  lemma {:induction false} SelectedWhenFewAhead(t: Table, now: int, limit: int, k: string)
    requires k in t && Eligible(t[k], now) && (limit < 0 || |Ahead(t, now, k)| < limit)
    ensures Job(k, t[k]) in Selected(t, now, limit)
  {
    SelectedByKey(t, now, limit, Job(k, t[k]));
    if k !in Keys(Selected(t, now, limit)) {
      ServedWereAhead(t, now, limit, k);
      var served := set x | x in Selected(t, now, limit);
      SubsetSize(served, Ahead(t, now, k));
    }
  }

  /** While a payload among the first `limit` ready jobs does not decode, a call with that limit grants nothing and
      leaves the table as it was. */
  lemma {:induction false} UndecodableBlocks(r: Round, b: string)
    requires b in r.table && Eligible(r.table[b], r.terms.now) && !r.decodes(r.table[b].payload)
    requires r.limit < 0 || |Ahead(r.table, r.terms.now, b)| < r.limit
    ensures AfterRound(r) == r.table && ReadReady(AfterRound(r), r.terms.now) == ReadReady(r.table, r.terms.now)
    ensures forall k :: !Granted(r, k)
  {
    SelectedWhenFewAhead(r.table, r.terms.now, r.limit, b);
  }

  /** Lease calls one after the other, with nothing else in between. */
  ghost predicate CallAfterCall(rounds: seq<Round>) {
    forall i :: 0 <= i < |rounds| - 1 ==> rounds[i + 1].table == AfterRound(rounds[i])
  }

  /** The job b is ready at every call, undecodable for every call, and fewer jobs than the limit are ahead of it. */
  ghost predicate Blocks(t: Table, r: Round, b: string) {
    && b in t && Eligible(t[b], r.terms.now) && !r.decodes(t[b].payload)
    && (r.limit < 0 || |Ahead(t, r.terms.now, b)| < r.limit)
  }

  /** However many such calls there are, none of them grants any job. */
  lemma {:induction false} NothingIsEverGranted(rounds: seq<Round>, b: string, i: nat)
    requires CallAfterCall(rounds) && i < |rounds|
    requires forall m :: 0 <= m < |rounds| ==> Blocks(rounds[0].table, rounds[m], b)
    ensures rounds[i].table == rounds[0].table && forall k :: !Granted(rounds[i], k)
  {
    if i > 0 {
      NothingIsEverGranted(rounds, b, i - 1);
      assert Blocks(rounds[0].table, rounds[i - 1], b);
      UndecodableBlocks(rounds[i - 1], b);
      assert rounds[i - 1 + 1].table == AfterRound(rounds[i - 1]);
    }
    assert Blocks(rounds[0].table, rounds[i], b);
    UndecodableBlocks(rounds[i], b);
  }
}
