/** The store's calls on the job table, each one transaction that updates the rows in place, and the batch marks
    against the single-job marks. */
module JobStore {
  import opened Wrappers
  import opened Order
  import opened JobTable

  datatype LeasedJob<+T> = LeasedJob(key: string, payload: T, attempts: nat)

  datatype StorageError = Json

  datatype Failure = Failure(key: string, error: string)

  const CHUNK: nat := 500

  // ----- the batch marks, one job at a time -----

  function SucceedEach(t: Table, keys: seq<string>, clock: int): Table {
    if keys == [] then t else SucceedEach(MarkSucceeded(t, keys[0], clock), keys[1..], clock)
  }

  function RetryEach(t: Table, jobs: seq<Failure>, next: int, clock: int): Table {
    if jobs == [] then t
    else RetryEach(MarkRetry(t, jobs[0].key, next, Some(jobs[0].error), clock), jobs[1..], next, clock)
  }

  /** The rows an UPDATE … WHERE job_key IN (keys) touches. */
  function Present(t: Table, keys: seq<string>): set<string> {
    set k | k in keys && k in t
  }

  function KeysOf(jobs: seq<Failure>): (r: seq<string>)
    ensures |r| == |jobs| && forall i :: 0 <= i < |jobs| ==> r[i] == jobs[i].key
  {
    seq(|jobs|, i requires 0 <= i < |jobs| => jobs[i].key)
  }

  /** One UPDATE over a key list gives the state reached by marking the keys one by one, repeated keys included. */
  lemma {:induction false} SucceedEachIsOneUpdate(t: Table, keys: seq<string>, clock: int)
    ensures SucceedEach(t, keys, clock) == SucceedKeys(t, keys, clock)
  {
    if keys == [] {
    } else {
      var t1 := MarkSucceeded(t, keys[0], clock);
      SucceedEachIsOneUpdate(t1, keys[1..], clock);
      assert forall k :: k in keys <==> k == keys[0] || k in keys[1..];
    }
  }

  lemma SucceedInTwo(t: Table, a: seq<string>, b: seq<string>, clock: int)
    ensures SucceedKeys(SucceedKeys(t, a, clock), b, clock)
            == SucceedKeys(t, a + b, clock)
  {
  }

  lemma PresentInTwo(t: Table, a: seq<string>, b: seq<string>)
    requires NoDuplicates(a + b)
    ensures |Present(t, a + b)| == |Present(t, a)| + |Present(t, b)|
  {
    forall i, j | 0 <= i < |a| && 0 <= j < |b| ensures a[i] != b[j] {
      assert (a + b)[i] != (a + b)[|a| + j];
    }
    assert Present(t, a + b) == Present(t, a) + Present(t, b);
  }

  lemma {:induction false} RetryInTwo(t: Table, a: seq<Failure>, b: seq<Failure>, next: int, clock: int)
    ensures RetryEach(RetryEach(t, a, next, clock), b, next, clock) == RetryEach(t, a + b, next, clock)
  {
    if a == [] {
      assert a + b == b;
    } else {
      assert (a + b)[1..] == a[1..] + b && (a + b)[0] == a[0];
      RetryInTwo(MarkRetry(t, a[0].key, next, Some(a[0].error), clock), a[1..], b, next, clock);
    }
  }

  /** The listed jobs that have a row, counted once each time they are listed. */
  function Hits(t: Table, jobs: seq<Failure>): nat {
    if jobs == [] then 0 else (if jobs[0].key in t then 1 else 0) + Hits(t, jobs[1..])
  }

  lemma {:induction false} HitsInTwo(t: Table, a: seq<Failure>, b: seq<Failure>)
    ensures Hits(t, a + b) == Hits(t, a) + Hits(t, b)
  {
    if a == [] {
      assert a + b == b;
    } else {
      assert (a + b)[1..] == a[1..] + b;
      HitsInTwo(t, a[1..], b);
    }
  }

  /** Without repeats the hits are the keys present. */
  lemma {:induction false} HitsArePresent(t: Table, jobs: seq<Failure>)
    requires NoDuplicates(KeysOf(jobs))
    ensures Hits(t, jobs) == |Present(t, KeysOf(jobs))|
  {
    if jobs == [] {
      assert Present(t, KeysOf(jobs)) == {};
    } else {
      var k, rest := jobs[0].key, jobs[1..];
      assert KeysOf(jobs) == [k] + KeysOf(rest);
      forall i, j | 0 <= i < j < |rest| ensures KeysOf(rest)[i] != KeysOf(rest)[j] {
        assert KeysOf(jobs)[i + 1] != KeysOf(jobs)[j + 1];
      }
      HitsArePresent(t, rest);
      PresentInTwo(t, [k], KeysOf(rest));
      assert Present(t, [k]) == if k in t then {k} else {};
    }
  }

  // ----- the joined UPDATE of the set-based retry -----

  /** UPDATE … FROM a list of (key, error): a row with a match is updated once, with the error of some match. */
  ghost predicate IsRetryJoin(t: Table, t': Table, jobs: seq<Failure>, next: int, clock: int) {
    && t'.Keys == t.Keys
    && forall k :: k in t ==>
         if exists i :: 0 <= i < |jobs| && jobs[i].key == k
         then exists i :: 0 <= i < |jobs| && jobs[i].key == k && t'[k] == RetryRow(t[k], next, Some(jobs[i].error), clock)
         else t'[k] == t[k]
  }

  ghost predicate NoPresentRepeat(t: Table, jobs: seq<Failure>) {
    forall i, j :: 0 <= i < j < |jobs| && jobs[i].key == jobs[j].key ==> jobs[i].key !in t
  }

  function Occurrences(jobs: seq<Failure>, k: string): nat {
    if jobs == [] then 0 else (if jobs[0].key == k then 1 else 0) + Occurrences(jobs[1..], k)
  }

  lemma {:induction false} RetryEachCounts(t: Table, jobs: seq<Failure>, next: int, clock: int, k: string)
    ensures RetryEach(t, jobs, next, clock).Keys == t.Keys
    ensures k in t ==>
              && RetryEach(t, jobs, next, clock)[k].attempts == t[k].attempts + Occurrences(jobs, k)
              && (Occurrences(jobs, k) == 0 ==> RetryEach(t, jobs, next, clock)[k] == t[k])
  {
    if jobs != [] {
      RetryEachCounts(MarkRetry(t, jobs[0].key, next, Some(jobs[0].error), clock), jobs[1..], next, clock, k);
    }
  }

  lemma {:induction false} RetryEachOnce(t: Table, jobs: seq<Failure>, next: int, clock: int, i: nat)
    requires i < |jobs| && jobs[i].key in t && Occurrences(jobs, jobs[i].key) == 1
    ensures RetryEach(t, jobs, next, clock).Keys == t.Keys
    ensures RetryEach(t, jobs, next, clock)[jobs[i].key] == RetryRow(t[jobs[i].key], next, Some(jobs[i].error), clock)
  {
    var k := jobs[i].key;
    var t1 := MarkRetry(t, jobs[0].key, next, Some(jobs[0].error), clock);
    if i == 0 {
      RetryEachCounts(t1, jobs[1..], next, clock, k);
    } else {
      OccursAt(jobs[1..], i - 1);
      RetryEachOnce(t1, jobs[1..], next, clock, i - 1);
    }
  }

  lemma {:induction false} OccursAt(jobs: seq<Failure>, i: nat)
    requires i < |jobs|
    ensures Occurrences(jobs, jobs[i].key) >= 1
    ensures forall j :: i < j < |jobs| && jobs[j].key == jobs[i].key ==> Occurrences(jobs, jobs[i].key) >= 2
  {
    if i == 0 {
      forall j | 0 < j < |jobs| && jobs[j].key == jobs[0].key ensures Occurrences(jobs[1..], jobs[0].key) >= 1 {
        OccursAt(jobs[1..], j - 1);
      }
    } else {
      OccursAt(jobs[1..], i - 1);
      forall j | i < j < |jobs| && jobs[j].key == jobs[i].key ensures Occurrences(jobs, jobs[i].key) >= 2 {
        assert jobs[1..][j - 1].key == jobs[1..][i - 1].key;
      }
    }
  }

  lemma {:induction false} OccursBy(jobs: seq<Failure>, k: string)
    ensures Occurrences(jobs, k) == 0 <==> forall i :: 0 <= i < |jobs| ==> jobs[i].key != k
    ensures Occurrences(jobs, k) >= 2 ==> exists i, j :: 0 <= i < j < |jobs| && jobs[i].key == k && jobs[j].key == k
  {
    if jobs != [] {
      OccursBy(jobs[1..], k);
      assert forall i :: 0 <= i < |jobs[1..]| ==> jobs[1..][i] == jobs[i + 1];
      if Occurrences(jobs[1..], k) >= 2 {
        var i, j :| 0 <= i < j < |jobs[1..]| && jobs[1..][i].key == k && jobs[1..][j].key == k;
        assert jobs[i + 1].key == k && jobs[j + 1].key == k;
      } else if Occurrences(jobs, k) >= 2 {
        var j :| 0 <= j < |jobs[1..]| && jobs[1..][j].key == k;
        assert jobs[0].key == k && jobs[j + 1].key == k;
      }
    }
  }

  /** Whichever match the database picks, the joined UPDATE equals the single marks if and only if no key that has a
      row is listed twice. */
  lemma JoinIsEachExactly(t: Table, t': Table, jobs: seq<Failure>, next: int, clock: int)
    requires IsRetryJoin(t, t', jobs, next, clock)
    ensures t' == RetryEach(t, jobs, next, clock) <==> NoPresentRepeat(t, jobs)
  {
    var each := RetryEach(t, jobs, next, clock);
    RetryEachCounts(t, jobs, next, clock, "");
    if NoPresentRepeat(t, jobs) {
      forall k | k in t ensures t'[k] == each[k] { JoinAgreesAt(t, t', jobs, next, clock, k); }
    } else {
      var i, j :| 0 <= i < j < |jobs| && jobs[i].key == jobs[j].key && jobs[i].key in t;
      OccursAt(jobs, i);
      RetryEachCounts(t, jobs, next, clock, jobs[i].key);
      assert each[jobs[i].key].attempts >= t[jobs[i].key].attempts + 2;
    }
  }

  lemma JoinAgreesAt(t: Table, t': Table, jobs: seq<Failure>, next: int, clock: int, k: string)
    requires IsRetryJoin(t, t', jobs, next, clock) && NoPresentRepeat(t, jobs) && k in t
    ensures k in RetryEach(t, jobs, next, clock) && t'[k] == RetryEach(t, jobs, next, clock)[k]
  {
    RetryEachCounts(t, jobs, next, clock, k);
    OccursBy(jobs, k);
    if exists i :: 0 <= i < |jobs| && jobs[i].key == k {
      var i :| 0 <= i < |jobs| && jobs[i].key == k && t'[k] == RetryRow(t[k], next, Some(jobs[i].error), clock);
      OccursAt(jobs, i);
      RetryEachOnce(t, jobs, next, clock, i);
    }
  }

  /** The error of the last match for k. */
  function MatchFor(jobs: seq<Failure>, k: string): (r: Option<string>)
    ensures r.None? <==> forall i :: 0 <= i < |jobs| ==> jobs[i].key != k
    ensures r.Some? ==> exists i :: 0 <= i < |jobs| && jobs[i].key == k && jobs[i].error == r.value
  {
    if jobs == [] then None
    else if jobs[|jobs| - 1].key == k then Some(jobs[|jobs| - 1].error)
    else
      assert jobs == jobs[..|jobs| - 1] + [jobs[|jobs| - 1]];
      MatchFor(jobs[..|jobs| - 1], k)
  }

  function RetryJoin(t: Table, jobs: seq<Failure>, next: int, clock: int): (t': Table)
    ensures IsRetryJoin(t, t', jobs, next, clock)
  {
    map k | k in t ::
      var m := MatchFor(jobs, k);
      if m.Some? then RetryRow(t[k], next, m, clock) else t[k]
  }

  // ----- lists cut into chunks -----

  /** Where the first chunk of a list ends. */
  function ChunkEnd<T>(s: seq<T>): (n: nat)
    ensures n <= |s| && (s != [] ==> n > 0)
  {
    if |s| <= CHUNK then |s| else CHUNK
  }

  /** The chunk loops cut the list where ChunkEnd does. */
  lemma ChunkOf<T>(s: seq<T>, done: nat, end: nat)
    requires done < |s| && end == if |s| - done <= CHUNK then |s| else done + CHUNK
    ensures end == done + ChunkEnd(s[done..]) && s[..end] == s[..done] + s[done..end]
    ensures s[done..][..ChunkEnd(s[done..])] == s[done..end] && s[done..][ChunkEnd(s[done..])..] == s[end..]
  {
  }

  /** The rows that one UPDATE per chunk of keys reports, in all. */
  function ChunkHits(t: Table, keys: seq<string>): nat
    decreases |keys|
  {
    if keys == [] then 0 else |Present(t, keys[..ChunkEnd(keys)])| + ChunkHits(t, keys[ChunkEnd(keys)..])
  }

  /** One joined UPDATE per chunk, each picking whichever match it likes. */
  ghost predicate IsChunkedRetry(t: Table, t': Table, jobs: seq<Failure>, next: int, clock: int)
    decreases |jobs|
  {
    if jobs == [] then t' == t
    else exists t1 ::
      && IsRetryJoin(t, t1, jobs[..ChunkEnd(jobs)], next, clock)
      && IsChunkedRetry(t1, t', jobs[ChunkEnd(jobs)..], next, clock)
  }

  /** No key that has a row is listed twice within one chunk of 500. */
  ghost predicate NoRepeatInChunk(t: Table, jobs: seq<Failure>) {
    forall i, j :: 0 <= i < j < |jobs| && i / CHUNK == j / CHUNK && jobs[i].key == jobs[j].key ==> jobs[i].key !in t
  }

  lemma FirstChunkAndRest(t: Table, jobs: seq<Failure>)
    requires jobs != []
    ensures NoRepeatInChunk(t, jobs) <==>
              NoPresentRepeat(t, jobs[..ChunkEnd(jobs)]) && NoRepeatInChunk(t, jobs[ChunkEnd(jobs)..])
  {
    var n := ChunkEnd(jobs);
    var first, rest := jobs[..n], jobs[n..];
    if NoRepeatInChunk(t, jobs) {
      forall i, j | 0 <= i < j < |first| && first[i].key == first[j].key ensures first[i].key !in t {
        assert jobs[i].key == jobs[j].key && i / CHUNK == 0 == j / CHUNK;
      }
      forall i, j | 0 <= i < j < |rest| && i / CHUNK == j / CHUNK && rest[i].key == rest[j].key
        ensures rest[i].key !in t
      {
        assert jobs[n + i].key == jobs[n + j].key && (n + i) / CHUNK == (n + j) / CHUNK;
      }
    }
    if NoPresentRepeat(t, first) && NoRepeatInChunk(t, rest) {
      forall i, j | 0 <= i < j < |jobs| && i / CHUNK == j / CHUNK && jobs[i].key == jobs[j].key
        ensures jobs[i].key !in t
      {
        if i < n {
          assert first[i].key == first[j].key;
        } else {
          assert rest[i - n].key == rest[j - n].key && (i - n) / CHUNK == (j - n) / CHUNK;
        }
      }
    }
  }

  lemma {:induction false} OccursInTwo(a: seq<Failure>, b: seq<Failure>, k: string)
    ensures Occurrences(a + b, k) == Occurrences(a, k) + Occurrences(b, k)
  {
    if a == [] {
      assert a + b == b;
    } else {
      assert (a + b)[1..] == a[1..] + b;
      OccursInTwo(a[1..], b, k);
    }
  }

  /** A joined UPDATE counts at most one attempt for each row. */
  lemma JoinAttempts(t: Table, t': Table, jobs: seq<Failure>, next: int, clock: int, k: string)
    requires IsRetryJoin(t, t', jobs, next, clock) && k in t
    ensures t'[k].attempts <= t[k].attempts + 1
    ensures t'[k].attempts <= t[k].attempts + Occurrences(jobs, k)
  {
    OccursBy(jobs, k);
  }

  lemma JoinKeepsKeys(t: Table, t': Table, jobs: seq<Failure>, next: int, clock: int)
    requires IsRetryJoin(t, t', jobs, next, clock)
    ensures t'.Keys == t.Keys
  {
  }

  lemma {:induction false} ChunkedAttempts(t: Table, t': Table, jobs: seq<Failure>, next: int, clock: int, k: string)
    requires IsChunkedRetry(t, t', jobs, next, clock)
    ensures t'.Keys == t.Keys
    ensures k in t ==> t'[k].attempts <= t[k].attempts + Occurrences(jobs, k)
    decreases |jobs|
  {
    hide IsRetryJoin, Occurrences;
    if jobs != [] {
      var n := ChunkEnd(jobs);
      var t1 :| IsRetryJoin(t, t1, jobs[..n], next, clock) && IsChunkedRetry(t1, t', jobs[n..], next, clock);
      JoinKeepsKeys(t, t1, jobs[..n], next, clock);
      ChunkedAttempts(t1, t', jobs[n..], next, clock, k);
      if k in t { JoinAttempts(t, t1, jobs[..n], next, clock, k); }
      assert jobs == jobs[..n] + jobs[n..];
      OccursInTwo(jobs[..n], jobs[n..], k);
    }
  }

  /** A key repeated within the first chunk has lost an attempt for good. */
  lemma RepeatLosesAnAttempt(t: Table, t1: Table, t': Table, jobs: seq<Failure>, next: int, clock: int, n: nat)
    requires n <= |jobs| && !NoPresentRepeat(t, jobs[..n])
    requires IsRetryJoin(t, t1, jobs[..n], next, clock) && IsChunkedRetry(t1, t', jobs[n..], next, clock)
    ensures t' != RetryEach(t, jobs, next, clock)
  {
    hide RetryEach, IsRetryJoin, IsChunkedRetry, Occurrences;
    var first, rest := jobs[..n], jobs[n..];
    var i, j :| 0 <= i < j < |first| && first[i].key == first[j].key && first[i].key in t;
    var k := first[i].key;
    OccursAt(first, i);
    JoinAttempts(t, t1, first, next, clock, k);
    ChunkedAttempts(t1, t', rest, next, clock, k);
    assert jobs == first + rest;
    OccursInTwo(first, rest, k);
    RetryEachCounts(t, jobs, next, clock, k);
  }

  /** The whole set-based retry, whichever matches the database picks: it equals the single marks if and only if no
      key that has a row is listed twice within one chunk. A key may come back in a later chunk. */
  lemma {:induction false} ChunkedRetryExactly(t: Table, t': Table, jobs: seq<Failure>, next: int, clock: int)
    requires IsChunkedRetry(t, t', jobs, next, clock)
    ensures t' == RetryEach(t, jobs, next, clock) <==> NoRepeatInChunk(t, jobs)
    decreases |jobs|
  {
    hide IsRetryJoin, NoPresentRepeat;
    if jobs != [] {
      var n := ChunkEnd(jobs);
      var first, rest := jobs[..n], jobs[n..];
      var t1 :| IsRetryJoin(t, t1, first, next, clock) && IsChunkedRetry(t1, t', rest, next, clock);
      FirstChunkAndRest(t, jobs);
      if NoPresentRepeat(t, first) {
        JoinIsEachExactly(t, t1, first, next, clock);
        ChunkedRetryExactly(t1, t', rest, next, clock);
        JoinKeepsKeys(t, t1, first, next, clock);
        assert NoRepeatInChunk(t1, rest) <==> NoRepeatInChunk(t, rest);
        assert jobs == first + rest;
        RetryInTwo(t, first, rest, next, clock);
      } else {
        RepeatLosesAnAttempt(t, t1, t', jobs, next, clock, n);
      }
    }
  }

  function ChunkedRetry(t: Table, jobs: seq<Failure>, next: int, clock: int): (t': Table)
    ensures IsChunkedRetry(t, t', jobs, next, clock)
    decreases |jobs|
  {
    if jobs == [] then t
    else
      var t1 := RetryJoin(t, jobs[..ChunkEnd(jobs)], next, clock);
      assert IsRetryJoin(t, t1, jobs[..ChunkEnd(jobs)], next, clock);
      ChunkedRetry(t1, jobs[ChunkEnd(jobs)..], next, clock)
  }

  /** Without repeated keys the chunks report the keys present. */
  lemma {:induction false} ChunkHitsArePresent(t: Table, keys: seq<string>)
    requires NoDuplicates(keys)
    ensures ChunkHits(t, keys) == |Present(t, keys)|
    decreases |keys|
  {
    if keys == [] {
      assert Present(t, keys) == {};
    } else {
      var n := ChunkEnd(keys);
      assert keys == keys[..n] + keys[n..];
      PresentInTwo(t, keys[..n], keys[n..]);
      ChunkHitsArePresent(t, keys[n..]);
    }
  }

  lemma PresentOneMore(t: Table, k: string, keys: seq<string>)
    ensures |Present(t, [k] + keys)| == |Present(t, keys)| + if k in t && k !in Present(t, keys) then 1 else 0
  {
    assert Present(t, [k] + keys) == Present(t, keys) + if k in t then {k} else {};
  }

  /** A joined UPDATE reports each row once; it reports every hit exactly when no key with a row is repeated. */
  lemma {:induction false} PresentAgainstHits(t: Table, jobs: seq<Failure>)
    ensures |Present(t, KeysOf(jobs))| <= Hits(t, jobs)
    ensures |Present(t, KeysOf(jobs))| == Hits(t, jobs) <==> NoPresentRepeat(t, jobs)
  {
    if jobs == [] {
      assert Present(t, KeysOf(jobs)) == {};
    } else {
      var k, rest := jobs[0].key, jobs[1..];
      PresentAgainstHits(t, rest);
      assert KeysOf(jobs) == [k] + KeysOf(rest);
      PresentOneMore(t, k, KeysOf(rest));
      HeadRepeats(t, jobs);
      hide KeysOf, Present, NoPresentRepeat;
    }
  }

  lemma HeadRepeats(t: Table, jobs: seq<Failure>)
    requires jobs != []
    ensures NoPresentRepeat(t, jobs) <==>
              NoPresentRepeat(t, jobs[1..]) && (jobs[0].key in t ==> jobs[0].key !in Present(t, KeysOf(jobs[1..])))
  {
    var k, rest := jobs[0].key, jobs[1..];
    if k in Present(t, KeysOf(rest)) {
      var j :| 0 <= j < |rest| && KeysOf(rest)[j] == k;
      assert jobs[j + 1].key == jobs[0].key;
    } else if k in t {
      forall j | 0 < j < |jobs| ensures jobs[j].key != k { assert KeysOf(rest)[j - 1] in KeysOf(rest); }
    }
    if !NoPresentRepeat(t, rest) {
      var i, j :| 0 <= i < j < |rest| && rest[i].key == rest[j].key && rest[i].key in t;
      assert jobs[i + 1].key == jobs[j + 1].key;
    }
    if NoPresentRepeat(t, rest) && (k in t ==> k !in Present(t, KeysOf(rest))) {
      forall i, j | 0 <= i < j < |jobs| && jobs[i].key == jobs[j].key ensures jobs[i].key !in t {
        if i > 0 { assert rest[i - 1].key == rest[j - 1].key; }
      }
    }
  }

  /** So does the chunked one: its count is that of the single marks exactly when its state is. */
  lemma {:induction false} ChunkHitsExactly(t: Table, jobs: seq<Failure>)
    ensures ChunkHits(t, KeysOf(jobs)) <= Hits(t, jobs)
    ensures ChunkHits(t, KeysOf(jobs)) == Hits(t, jobs) <==> NoRepeatInChunk(t, jobs)
    decreases |jobs|
  {
    if jobs != [] {
      var n := ChunkEnd(jobs);
      assert KeysOf(jobs)[..n] == KeysOf(jobs[..n]) && KeysOf(jobs)[n..] == KeysOf(jobs[n..]);
      assert jobs == jobs[..n] + jobs[n..];
      HitsInTwo(t, jobs[..n], jobs[n..]);
      PresentAgainstHits(t, jobs[..n]);
      ChunkHitsExactly(t, jobs[n..]);
      FirstChunkAndRest(t, jobs);
    }
  }

  // ----- the store -----

  function LeasedJobs<T>(jobs: seq<Job>, decode: string -> Option<T>): (r: seq<LeasedJob<T>>)
    requires forall j :: j in jobs ==> decode(j.row.payload).Some?
    ensures |r| == |jobs|
    ensures forall i :: 0 <= i < |jobs| ==>
              && r[i].key == jobs[i].key && Some(r[i].payload) == decode(jobs[i].row.payload)
              && r[i].attempts == jobs[i].row.attempts
  {
    seq(|jobs|, i requires 0 <= i < |jobs| =>
      LeasedJob(jobs[i].key, decode(jobs[i].row.payload).value, jobs[i].row.attempts))
  }

  /** What a select hands to the update loop: eligible rows of the table, each key once. */
  ghost predicate Selection(t: Table, now: int, sel: seq<Job>) {
    && (forall i :: 0 <= i < |sel| ==> IsReadyJob(t, now, sel[i]))
    && (forall i, j :: 0 <= i < j < |sel| ==> sel[i].key != sel[j].key)
  }

  lemma SelectedIsSelection(t: Table, now: int, limit: int)
    ensures Selection(t, now, Selected(t, now, limit))
  {
    var sel := Selected(t, now, limit);
    SelectedIsPrefix(t, now, limit);
    forall i | 0 <= i < |sel| ensures IsReadyJob(t, now, sel[i]) {
      assert sel[i] in ReadReady(t, now);
    }
    forall i, j | 0 <= i < j < |sel| ensures sel[i].key != sel[j].key {
      AscendingIsDistinct(sel, i, j, JobPos);
    }
  }

  lemma KeysInTwo(a: seq<Job>, j: Job)
    ensures Keys(a + [j]) == Keys(a) + {j.key}
  {
    assert forall x :: x in a + [j] <==> x in a || x == j;
    forall k | k in Keys(a) + {j.key} ensures k in Keys(a + [j]) {
      if k == j.key { assert j in a + [j]; }
    }
  }

  /** The re-check in the guarded update never fails inside the transaction: only the updates of the jobs before it
      have changed the table. */
  lemma RecheckHolds(t: Table, sel: seq<Job>, terms: Terms, i: nat)
    requires Selection(t, terms.now, sel) && i < |sel|
    ensures var tx := LeaseKeys(t, Keys(sel[..i]), terms);
            && sel[i].key in tx && Eligible(tx[sel[i].key], terms.now)
            && LeaseKeys(t, Keys(sel[..i + 1]), terms) == GuardedUpdate(tx, sel[i].key, terms)
  {
    assert sel[..i + 1] == sel[..i] + [sel[i]];
    KeysInTwo(sel[..i], sel[i]);
    assert IsReadyJob(t, terms.now, sel[i]);
    assert sel[i].key !in Keys(sel[..i]);
  }

  ghost predicate LeasedFrom<T>(leased: seq<LeasedJob<T>>, sel: seq<Job>, decode: string -> Option<T>) {
    && |leased| == |sel|
    && forall j :: 0 <= j < |sel| ==>
         && decode(sel[j].row.payload).Some?
         && leased[j] == LeasedJob(sel[j].key, decode(sel[j].row.payload).value, sel[j].row.attempts)
  }

  lemma OneMoreLeased<T>(leased: seq<LeasedJob<T>>, sel: seq<Job>, j: Job, decode: string -> Option<T>)
    requires LeasedFrom(leased, sel, decode) && decode(j.row.payload).Some?
    ensures LeasedFrom(leased + [LeasedJob(j.key, decode(j.row.payload).value, j.row.attempts)], sel + [j], decode)
  {
  }

  lemma AllLeased<T>(leased: seq<LeasedJob<T>>, sel: seq<Job>, decode: string -> Option<T>)
    requires LeasedFrom(leased, sel, decode)
    ensures (forall j :: j in sel ==> decode(j.row.payload).Some?) && leased == LeasedJobs(sel, decode)
  {
  }

  /** The select's rows, updated and collected one by one; a payload that does not decode fails the call. */
  method LeaseAll<T>(decode: string -> Option<T>, t: Table, sel: seq<Job>, terms: Terms)
    returns (tx: Table, r: Result<seq<LeasedJob<T>>, StorageError>)
    requires Selection(t, terms.now, sel)
    ensures if forall j :: j in sel ==> decode(j.row.payload).Some?
            then r == Ok(LeasedJobs(sel, decode)) && tx == LeaseKeys(t, Keys(sel), terms)
            else r == Err(Json)
  {
    tx := t;
    var leased: seq<LeasedJob<T>> := [];
    assert tx == LeaseKeys(t, Keys(sel[..0]), terms) && LeasedFrom(leased, sel[..0], decode);
    hide LeaseKeys, Keys, GuardedUpdate, Eligible, Selection, LeasedFrom, LeasedJobs;
    for i := 0 to |sel|
      invariant tx == LeaseKeys(t, Keys(sel[..i]), terms)
      invariant LeasedFrom(leased, sel[..i], decode)
    {
      RecheckHolds(t, sel, terms, i);
      var affected := if sel[i].key in tx && Eligible(tx[sel[i].key], terms.now) then 1 else 0;
      tx := GuardedUpdate(tx, sel[i].key, terms);
      if affected == 0 {
        continue;
      }
      var payload := decode(sel[i].row.payload);
      if payload.None? {
        assert sel[i] in sel;
        return tx, Err(Json);
      }
      assert sel[..i + 1] == sel[..i] + [sel[i]];
      OneMoreLeased(leased, sel[..i], sel[i], decode);
      leased := leased + [LeasedJob(sel[i].key, payload.value, sel[i].row.attempts)];
    }
    assert sel[..|sel|] == sel;
    AllLeased(leased, sel, decode);
    r := Ok(leased);
  }

  class JobStore {
    var rows: Table

    constructor ()
      ensures rows == map[]
    {
      rows := map[];
    }

    method EnqueueLeasedJob(key: string, payload: string, next: int, clock: int)
      modifies this
      ensures rows == Enqueue(old(rows), key, payload, next, clock)
    {
      if key in rows {
        rows := rows[key := rows[key].(payload := payload, status := Ready, owner := None, expires := None,
                                       nextAttempt := next, lastError := None, updatedAt := clock)];
      } else {
        rows := rows[key := Row(payload, Ready, 0, None, None, next, None, clock, clock)];
      }
    }

    /** One transaction: the re-check in the updates never fails, so the selected jobs are all leased; a payload
        that does not decode rolls everything back. */
    method LeaseReadyJobs<T>(decode: string -> Option<T>, limit: int, terms: Terms)
      returns (r: Result<seq<LeasedJob<T>>, StorageError>)
      modifies this
      ensures var sel := Selected(old(rows), terms.now, limit);
              if forall j :: j in sel ==> decode(j.row.payload).Some?
              then r == Ok(LeasedJobs(sel, decode)) && rows == LeaseKeys(old(rows), Keys(sel), terms)
              else r == Err(Json) && rows == old(rows)
      ensures rows == AfterRound(Round(old(rows), limit, terms, payload => decode(payload).Some?))
    {
      hide Selected, LeaseKeys, LeasedJobs, Selection;
      SelectedIsSelection(rows, terms.now, limit);
      var tx;
      tx, r := LeaseAll(decode, rows, Selected(rows, terms.now, limit), terms);
      if r.Ok? {
        rows := tx;
      }
    }

    method MarkLeasedJobSucceeded(key: string, clock: int)
      modifies this
      ensures rows == MarkSucceeded(old(rows), key, clock)
    {
      if key in rows {
        rows := rows[key := SucceedRow(rows[key], clock)];
      }
    }

    method MarkLeasedJobRetry(key: string, next: int, error: Option<string>, clock: int)
      modifies this
      ensures rows == MarkRetry(old(rows), key, next, error, clock)
    {
      if key in rows {
        rows := rows[key := RetryRow(rows[key], next, error, clock)];
      }
    }

    /** Chunks of 500 keys in one transaction. */
    method MarkLeasedJobsSucceeded(keys: seq<string>, clock: int) returns (affected: nat)
      modifies this
      ensures rows == SucceedEach(old(rows), keys, clock)
      ensures affected == ChunkHits(old(rows), keys)
      ensures NoDuplicates(keys) ==> affected == |Present(old(rows), keys)|
    {
      affected := 0;
      SucceedEachIsOneUpdate(rows, keys, clock);
      if NoDuplicates(keys) { ChunkHitsArePresent(rows, keys); }
      var tx := rows;
      var done := 0;
      while done < |keys|
        invariant 0 <= done <= |keys| && rows == old(rows)
        invariant tx == SucceedKeys(rows, keys[..done], clock)
        invariant affected + ChunkHits(rows, keys[done..]) == ChunkHits(rows, keys)
      {
        var end := if |keys| - done <= CHUNK then |keys| else done + CHUNK;
        var chunk := keys[done..end];
        ChunkOf(keys, done, end);
        SucceedInTwo(rows, keys[..done], chunk, clock);
        assert Present(tx, chunk) == Present(rows, chunk);
        affected := affected + |Present(tx, chunk)|;
        tx := SucceedKeys(tx, chunk, clock);
        done := end;
      }
      assert keys[..done] == keys;
      rows := tx;
    }

    /** One UPDATE per listed job in one transaction. */
    method MarkLeasedJobsRetry(jobs: seq<Failure>, next: int, clock: int) returns (affected: nat)
      modifies this
      ensures rows == RetryEach(old(rows), jobs, next, clock)
      ensures affected == Hits(old(rows), jobs)
      ensures NoDuplicates(KeysOf(jobs)) ==> affected == |Present(old(rows), KeysOf(jobs))|
    {
      affected := 0;
      var tx := rows;
      for i := 0 to |jobs|
        invariant rows == old(rows)
        invariant tx == RetryEach(rows, jobs[..i], next, clock)
        invariant affected == Hits(rows, jobs[..i])
      {
        assert jobs[..i + 1] == jobs[..i] + [jobs[i]];
        RetryInTwo(rows, jobs[..i], [jobs[i]], next, clock);
        RetryEachCounts(rows, jobs[..i], next, clock, jobs[i].key);
        HitsInTwo(rows, jobs[..i], [jobs[i]]);
        affected := affected + if jobs[i].key in tx then 1 else 0;
        tx := MarkRetry(tx, jobs[i].key, next, Some(jobs[i].error), clock);
      }
      assert jobs[..|jobs|] == jobs;
      if NoDuplicates(KeysOf(jobs)) { HitsArePresent(rows, jobs); }
      rows := tx;
    }

    /** The set-based form: one joined UPDATE per chunk of 500, each a transaction of its own. */
    method MarkLeasedJobsRetrySetBased(jobs: seq<Failure>, next: int, clock: int) returns (affected: nat)
      modifies this
      ensures rows == RetryEach(old(rows), jobs, next, clock) <==> NoRepeatInChunk(old(rows), jobs)
      ensures affected == Hits(old(rows), jobs) <==> NoRepeatInChunk(old(rows), jobs)
      ensures IsChunkedRetry(old(rows), rows, jobs, next, clock)
      ensures affected == ChunkHits(old(rows), KeysOf(jobs))
      ensures NoDuplicates(KeysOf(jobs)) ==> affected == |Present(old(rows), KeysOf(jobs))|
    {
      hide RetryEach, NoRepeatInChunk, IsChunkedRetry, NoDuplicates, Hits;
      affected := 0;
      ghost var keys := KeysOf(jobs);
      var done := 0;
      while done < |jobs|
        invariant 0 <= done <= |jobs| && rows.Keys == old(rows).Keys
        invariant ChunkedRetry(rows, jobs[done..], next, clock) == ChunkedRetry(old(rows), jobs, next, clock)
        invariant affected + ChunkHits(old(rows), keys[done..]) == ChunkHits(old(rows), keys)
      {
        var end := if |jobs| - done <= CHUNK then |jobs| else done + CHUNK;
        var chunk := jobs[done..end];
        ChunkOf(jobs, done, end);
        ChunkOf(keys, done, end);
        assert KeysOf(chunk) == keys[done..end];
        assert Present(rows, KeysOf(chunk)) == Present(old(rows), KeysOf(chunk));
        affected := affected + |Present(rows, KeysOf(chunk))|;
        rows := RetryJoin(rows, chunk, next, clock);
        done := end;
      }
      ChunkedRetryExactly(old(rows), rows, jobs, next, clock);
      ChunkHitsExactly(old(rows), jobs);
      if NoDuplicates(keys) { ChunkHitsArePresent(old(rows), keys); }
    }
  }
}
