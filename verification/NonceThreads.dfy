/** Many request threads on one nonce file: arriving, locking, reading, deciding, releasing, in any interleaving. */
module NonceThreads {
  import opened Wrappers
  import opened NonceStore

  /** A request past its freshness check: waiting for the lock, holding it, holding it with the file read, or
      holding it with its verdict. */
  datatype Thread =
    | Waiting(access: Access)
    | Holding(access: Access)
    | Loaded(access: Access, nonces: Nonces)
    | Leaving(access: Access)

  datatype Decision = Decision(access: Access, ok: bool)

  datatype World = World(file: File, holder: Option<nat>, threads: map<nat, Thread>, log: seq<Decision>)

  datatype Policy = Policy(skew: int, ttl: int)

  datatype Event =
    | Arrived(thread: nat, access: Access)
    | Locked(thread: nat)
    | ReadFile(thread: nat)
    | Decided(thread: nat)
    | Released(thread: nat)

  function Step(p: Policy, w: World, e: Event): World {
    match e
    case Arrived(t, a) =>
      if t !in w.threads && Fresh(a.timestamp, a.now, p.skew) then w.(threads := w.threads[t := Waiting(a)]) else w
    case Locked(t) =>
      if t in w.threads && w.threads[t].Waiting? && w.holder.None?
      then w.(holder := Some(t), threads := w.threads[t := Holding(w.threads[t].access)]) else w
    case ReadFile(t) =>
      if t in w.threads && w.threads[t].Holding? then
        var a := w.threads[t].access;
        w.(threads := w.threads[t := if w.file.Corrupt? then Leaving(a) else Loaded(a, Content(w.file))])
      else w
    case Decided(t) =>
      if t in w.threads && w.threads[t].Loaded? then
        var a, nonces := w.threads[t].access, w.threads[t].nonces;
        var ok := Accepts(nonces, a, p.ttl);
        World(if ok then Stored(Written(nonces, a, p.ttl)) else w.file, w.holder,
              w.threads[t := Leaving(a)], w.log + [Decision(a, ok)])
      else w
    case Released(t) =>
      if t in w.threads && w.threads[t].Leaving? then w.(holder := None, threads := w.threads - {t}) else w
  }

  function AfterRun(p: Policy, w: World, run: seq<Event>): World {
    if run == [] then w else Step(p, AfterRun(p, w, run[..|run| - 1]), run[|run| - 1])
  }

  function Start(f: File): World { World(f, None, map[], []) }

  function Accesses(log: seq<Decision>): (h: seq<Access>)
    ensures |h| == |log| && forall i :: 0 <= i < |log| ==> h[i] == log[i].access
  {
    seq(|log|, i requires 0 <= i < |log| => log[i].access)
  }

  // ----- what every interleaving keeps -----

  /** Only the holder of the lock is past waiting, and what it has read is still what the file holds. */
  ghost predicate Guarded(w: World) {
    forall t :: t in w.threads && !w.threads[t].Waiting? ==>
      && w.holder == Some(t)
      && (w.threads[t].Loaded? ==> !w.file.Corrupt? && w.threads[t].nonces == Content(w.file))
  }

  ghost predicate AllFresh(p: Policy, w: World) {
    && (forall t :: t in w.threads ==> Fresh(w.threads[t].access.timestamp, w.threads[t].access.now, p.skew))
    && (forall i :: 0 <= i < |w.log| ==> FreshAt(Accesses(w.log), p.skew, i))
  }

  /** The file and the verdicts are those of the logged accesses run one after the other. */
  ghost predicate Serial(p: Policy, f: File, w: World) {
    && w.file == FileAfterAll(f, Accesses(w.log), p.ttl)
    && (forall i :: 0 <= i < |w.log| ==> w.log[i].ok == AcceptedAt(f, Accesses(w.log), p.ttl, i))
  }

  lemma StepKeepsGuard(p: Policy, w: World, e: Event)
    requires Guarded(w)
    ensures Guarded(Step(p, w, e))
  {
  }

  lemma StepKeepsFresh(p: Policy, w: World, e: Event)
    requires AllFresh(p, w)
    ensures AllFresh(p, Step(p, w, e))
  {
    var w' := Step(p, w, e);
    forall i | 0 <= i < |w'.log| ensures FreshAt(Accesses(w'.log), p.skew, i) {
      if i < |w.log| { assert FreshAt(Accesses(w.log), p.skew, i); }
    }
  }

  lemma LogGrows(f: File, log: seq<Decision>, d: Decision, ttl: int, i: nat)
    requires i <= |log|
    ensures Accesses(log + [d])[..|log|] == Accesses(log)
    ensures i < |log| ==> AcceptedAt(f, Accesses(log + [d]), ttl, i) == AcceptedAt(f, Accesses(log), ttl, i)
  {
    assert Accesses(log + [d])[..i] == Accesses(log)[..i];
  }

  lemma StepStaysSerial(p: Policy, f: File, w: World, e: Event)
    requires Guarded(w) && Serial(p, f, w)
    ensures Serial(p, f, Step(p, w, e))
  {
    if e.Decided? && e.thread in w.threads && w.threads[e.thread].Loaded? {
      var a := w.threads[e.thread].access;
      assert w.threads[e.thread].nonces == Content(w.file) && !w.file.Corrupt?;
      DecisionStaysSerial(p, f, w.file, w.log, a);
    }
  }

  lemma DecisionStaysSerial(p: Policy, f: File, file: File, log: seq<Decision>, a: Access)
    requires file == FileAfterAll(f, Accesses(log), p.ttl) && !file.Corrupt?
    requires forall i :: 0 <= i < |log| ==> log[i].ok == AcceptedAt(f, Accesses(log), p.ttl, i)
    ensures var log' := log + [Decision(a, Accepts(Content(file), a, p.ttl))];
            && FileAfterAll(f, Accesses(log'), p.ttl) == FileAfter(file, a, p.ttl)
            && forall i :: 0 <= i < |log'| ==> log'[i].ok == AcceptedAt(f, Accesses(log'), p.ttl, i)
  {
    var d := Decision(a, Accepts(Content(file), a, p.ttl));
    LogGrows(f, log, d, p.ttl, |log|);
    forall i | 0 <= i < |log + [d]| ensures (log + [d])[i].ok == AcceptedAt(f, Accesses(log + [d]), p.ttl, i) {
      if i < |log| { LogGrows(f, log, d, p.ttl, i); }
    }
  }

  lemma {:induction false} RunInvariant(p: Policy, f: File, run: seq<Event>)
    ensures var w := AfterRun(p, Start(f), run);
            Guarded(w) && AllFresh(p, w) && Serial(p, f, w)
  {
    if run != [] {
      var before, last := AfterRun(p, Start(f), run[..|run| - 1]), run[|run| - 1];
      RunInvariant(p, f, run[..|run| - 1]);
      StepKeepsGuard(p, before, last);
      StepKeepsFresh(p, before, last);
      StepStaysSerial(p, f, before, last);
    }
  }

  /** No logged access evicts an accepted request that is still live, and the clock readings are out of order by at
      most `lag` in the order the lock was held. */
  ghost predicate Orderly(p: Policy, f: File, log: seq<Decision>, lag: int) {
    && (forall i, m :: 0 <= i <= m < |log| ==> Unevicted(f, Accesses(log), p.ttl, i, m))
    && (forall i, j :: 0 <= i < j < |log| ==> log[i].access.now <= log[j].access.now + lag)
  }

  /** However the threads interleave, no request passes twice. */
  lemma NoInterleavingReplays(p: Policy, f: File, run: seq<Event>, lag: int, i: nat, j: nat)
    requires lag >= 0 && (p.skew + 1) * SECOND + lag - 1 <= p.ttl * SECOND
    requires Orderly(p, f, AfterRun(p, Start(f), run).log, lag)
    requires i < j < |AfterRun(p, Start(f), run).log|
    requires var log := AfterRun(p, Start(f), run).log;
             SameRequest(log[i].access, log[j].access) && log[i].ok
    ensures !AfterRun(p, Start(f), run).log[j].ok
  {
    var w := AfterRun(p, Start(f), run);
    RunInvariant(p, f, run);
    NoReplay(f, Accesses(w.log), p.skew, p.ttl, lag, i, j);
  }

  // ----- the lock registry -----

  class Lock {
    constructor () {}
  }

  /** One lock per path, handed out for the life of the process. */
  class LockRegistry {
    var locks: map<string, Lock>

    ghost predicate Valid()
      reads this
    {
      forall p, q :: p in locks && q in locks && locks[p] == locks[q] ==> p == q
    }

    constructor ()
      ensures Valid() && locks == map[]
    {
      locks := map[];
    }

    /** nonce_store_lock: the same lock for the same path always, and a lock of its own for a new path. */
    method NonceStoreLock(path: string) returns (lock: Lock)
      requires Valid()
      modifies this
      ensures Valid() && path in locks && lock == locks[path]
      ensures locks.Keys == old(locks).Keys + {path}
      ensures forall p :: p in old(locks) ==> locks[p] == old(locks)[p]
    {
      if path !in locks {
        var created := new Lock();
        assert forall p :: p in locks ==> locks[p] != created;
        locks := locks[path := created];
      }
      lock := locks[path];
    }
  }
}
