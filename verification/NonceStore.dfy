/** The replay guard: a freshness check in whole seconds, and a file of seen nonces with expiry and a cap. */
module NonceStore {
  import opened Wrappers
  import opened Order

  /** Instants are nanoseconds. */
  const SECOND: int := 1_000_000_000

  const DEFAULT_MAX_NONCE_ENTRIES: nat := 10_000

  type Nonces = map<string, int>

  datatype File = Missing | Corrupt | Stored(nonces: Nonces)

  datatype SecurityError = TimestampStale | InvalidNonceStore | NonceReplayed

  // ----- freshness -----

  /** Duration::num_seconds truncates toward zero. */
  function NumSeconds(d: int): int {
    if d >= 0 then d / SECOND else -((-d) / SECOND)
  }

  predicate Fresh(timestamp: int, now: int, maxSkew: int) {
    var skew := NumSeconds(now - timestamp);
    (if skew < 0 then -skew else skew) <= maxSkew
  }

  /** Truncation admits everything less than one second past the bound, on either side. */
  lemma FreshExactly(timestamp: int, now: int, maxSkew: int)
    ensures Fresh(timestamp, now, maxSkew) <==>
              maxSkew >= 0 && -((maxSkew + 1) * SECOND) < now - timestamp < (maxSkew + 1) * SECOND
  {
  }

  // ----- expiry and eviction -----

  function Cutoff(now: int, ttl: int): int { now - ttl * SECOND }

  /** nonces.retain(|_, value| *value >= cutoff) */
  function Retain(n: Nonces, cutoff: int): Nonces {
    map k | k in n && n[k] >= cutoff :: n[k]
  }

  datatype Seen = Seen(nonce: string, at: int)

  function SeenPos(s: Seen): seq<int> { [s.at] + Codes(s.nonce) }

  /** The entries in the order the stable sort leaves them: by time, and in map order within one instant. */
  function OldestFirst(n: Nonces): (r: seq<Seen>)
    ensures Ascending(r, SeenPos)
    ensures forall s :: s in r <==> s.nonce in n && s.at == n[s.nonce]
    ensures |r| == |n|
  {
    var entries := set k | k in n :: Seen(k, n[k]);
    assert Separates(SeenPos, entries) by {
      forall x, y | x in entries && y in entries && SeenPos(x) == SeenPos(y) ensures x == y {
        assert SeenPos(x)[1..] == Codes(x.nonce) && SeenPos(y)[1..] == Codes(y.nonce);
        CodesAreInjective(x.nonce, y.nonce);
      }
    }
    EntryCount(n, n.Keys);
    assert entries == set k | k in n.Keys :: Seen(k, n[k]);
    SortBy(entries, SeenPos)
  }

  /** Entries go by the instant they were seen at, and within one instant by name. */
  lemma OldestOrder(n: Nonces, i: nat, j: nat)
    requires i < j < |OldestFirst(n)|
    ensures var a, b := OldestFirst(n)[i], OldestFirst(n)[j];
            a.at < b.at || (a.at == b.at && Less(Codes(a.nonce), Codes(b.nonce)))
  {
    var a, b := OldestFirst(n)[i], OldestFirst(n)[j];
    assert Less(SeenPos(a), SeenPos(b));
    LessAfterPrefix(a.at, Codes(a.nonce), b.at, Codes(b.nonce));
  }

  lemma {:induction false} EntryCount(n: Nonces, keys: set<string>)
    requires keys <= n.Keys
    ensures |set k | k in keys :: Seen(k, n[k])| == |keys|
    decreases |keys|
  {
    if keys != {} {
      var k :| k in keys;
      EntryCount(n, keys - {k});
      assert (set j | j in keys :: Seen(j, n[j])) == (set j | j in keys - {k} :: Seen(j, n[j])) + {Seen(k, n[k])};
    }
  }

  function Overflow(n: Nonces, max: nat): nat {
    if |n| <= max then 0 else |n| - max
  }

  function Names(s: seq<Seen>): set<string> {
    set x | x in s :: x.nonce
  }

  function Prune(n: Nonces, now: int, ttl: int, max: nat): Nonces {
    var live := Retain(n, Cutoff(now, ttl));
    live - Names(OldestFirst(live)[..Overflow(live, max)])
  }

  lemma NamesCount(s: seq<Seen>)
    requires Ascending(s, SeenPos) && forall x, y :: x in s && y in s && x.nonce == y.nonce ==> x == y
    ensures |Names(s)| == |s|
  {
    AscendingSize(s, SeenPos);
    var members := set y | y in s;
    OneNameEach(members);
    assert Names(s) == set x | x in members :: x.nonce;
  }

  lemma {:induction false} OneNameEach(s: set<Seen>)
    requires forall x, y :: x in s && y in s && x.nonce == y.nonce ==> x == y
    ensures |set x | x in s :: x.nonce| == |s|
    decreases |s|
  {
    if s != {} {
      var m :| m in s;
      OneNameEach(s - {m});
      assert (set x | x in s :: x.nonce) == (set x | x in s - {m} :: x.nonce) + {m.nonce};
    }
  }

  lemma EvictedCount(live: Nonces, overflow: nat)
    requires overflow <= |live|
    ensures Names(OldestFirst(live)[..overflow]) <= live.Keys
    ensures |live - Names(OldestFirst(live)[..overflow])| == |live| - overflow
  {
    var gone := OldestFirst(live)[..overflow];
    assert forall x :: x in gone ==> x in OldestFirst(live);
    NamesCount(gone);
    RemovedCount(live, Names(gone));
  }

  lemma RemovedCount(live: Nonces, gone: set<string>)
    requires gone <= live.Keys
    ensures |live - gone| == |live| - |gone|
  {
    var rest := live - gone;
    assert rest.Keys + gone == live.Keys && rest.Keys !! gone;
    assert |rest.Keys| == |live.Keys| - |gone|;
  }

  /** After pruning the store is within the cap and unexpired, values are unchanged, only the overflow has been
      evicted, and no evicted entry is newer than a kept one. */
  lemma PruneKeepsNewest(n: Nonces, now: int, ttl: int, max: nat)
    ensures var live, kept := Retain(n, Cutoff(now, ttl)), Prune(n, now, ttl, max);
            && |kept| == |live| - Overflow(live, max) <= max
            && (forall k :: k in kept ==> k in n && kept[k] == n[k] && n[k] >= Cutoff(now, ttl))
            && (forall k, j :: k in live && k !in kept && j in kept ==> live[k] <= kept[j])
  {
    var live, kept := Retain(n, Cutoff(now, ttl)), Prune(n, now, ttl, max);
    EvictedCount(live, Overflow(live, max));
    forall k, j | k in live && k !in kept && j in kept ensures live[k] <= kept[j] {
      OldestGo(live, Overflow(live, max), k, j);
    }
  }

  lemma OldestGo(live: Nonces, m: nat, k: string, j: string)
    requires m <= |live| && k in live && j in live
    requires k in Names(OldestFirst(live)[..m]) && j !in Names(OldestFirst(live)[..m])
    ensures live[k] <= live[j]
  {
    hide OldestFirst;
    var sorted := OldestFirst(live);
    var z :| z in sorted[..m] && z.nonce == k;
    var i :| 0 <= i < m && sorted[..m][i] == z;
    assert sorted[i] in sorted && Seen(j, live[j]) in sorted;
    var h :| 0 <= h < |sorted| && sorted[h] == Seen(j, live[j]);
    assert h >= m by {
      assert forall l :: 0 <= l < m ==> sorted[..m][l].nonce in Names(sorted[..m]);
    }
    assert Less(SeenPos(sorted[i]), SeenPos(sorted[h]));
  }

  /** prune_nonce_store */
  method PruneNonceStore(n: Nonces, now: int, ttl: int, max: nat) returns (r: Nonces)
    ensures r == Prune(n, now, ttl, max)
  {
    r := Retain(n, Cutoff(now, ttl));
    if |r| <= max {
      PruneWithRoom(n, now, ttl, max);
      return;
    }
    var entries := OldestFirst(r);
    r := RemoveAll(r, entries[..|entries| - max]);
  }

  /** The removal loop over the stale entries. */
  method RemoveAll(n: Nonces, stale: seq<Seen>) returns (r: Nonces)
    ensures r == n - Names(stale)
  {
    r := n;
    for i := 0 to |stale|
      invariant r == n - Names(stale[..i])
    {
      assert stale[..i + 1] == stale[..i] + [stale[i]];
      NamesInTwo(stale[..i], stale[i]);
      r := r - {stale[i].nonce};
    }
    assert stale[..|stale|] == stale;
  }

  lemma PruneWithRoom(n: Nonces, now: int, ttl: int, max: nat)
    requires |Retain(n, Cutoff(now, ttl))| <= max
    ensures Prune(n, now, ttl, max) == Retain(n, Cutoff(now, ttl))
  {
    assert OldestFirst(Retain(n, Cutoff(now, ttl)))[..0] == [];
    assert Names([]) == {};
  }

  lemma NamesInTwo(a: seq<Seen>, x: Seen)
    ensures Names(a + [x]) == Names(a) + {x.nonce}
  {
    assert forall y :: y in a + [x] <==> y in a || y == x;
    forall k | k in Names(a) + {x.nonce} ensures k in Names(a + [x]) {
      if k == x.nonce { assert x in a + [x]; }
    }
  }

  // ----- one access -----

  datatype Access = Access(nonce: string, timestamp: int, now: int)

  function Content(f: File): Nonces {
    if f.Stored? then f.nonces else map[]
  }

  predicate Accepts(n: Nonces, a: Access, ttl: int) {
    a.nonce !in Retain(n, Cutoff(a.now, ttl))
  }

  function Written(n: Nonces, a: Access, ttl: int): Nonces {
    Prune(Retain(n, Cutoff(a.now, ttl))[a.nonce := a.timestamp], a.now, ttl, DEFAULT_MAX_NONCE_ENTRIES)
  }

  function FileAfter(f: File, a: Access, ttl: int): File {
    if f.Corrupt? || !Accepts(Content(f), a, ttl) then f else Stored(Written(Content(f), a, ttl))
  }

  /** The nonce file of one path. */
  class NonceFile {
    var file: File

    constructor ()
      ensures file == Missing
    {
      file := Missing;
    }

    /** verify_and_store_nonce, with the lock held. */
    method VerifyAndStoreNonce(a: Access, ttl: int) returns (r: Result<(), SecurityError>)
      modifies this
      ensures file == FileAfter(old(file), a, ttl)
      ensures r == if old(file).Corrupt? then Err(InvalidNonceStore)
                   else if Accepts(Content(old(file)), a, ttl) then Ok(()) else Err(NonceReplayed)
    {
      var nonces: Nonces := map[];
      match file {
        case Missing =>
        case Corrupt => return Err(InvalidNonceStore);
        case Stored(stored) => nonces := stored;
      }
      nonces := Retain(nonces, Cutoff(a.now, ttl));
      if a.nonce in nonces {
        return Err(NonceReplayed);
      }
      nonces := nonces[a.nonce := a.timestamp];
      nonces := PruneNonceStore(nonces, a.now, ttl, DEFAULT_MAX_NONCE_ENTRIES);
      file := Stored(nonces);
      r := Ok(());
    }
  }

  // ----- histories of accesses -----

  function FileAfterAll(f: File, h: seq<Access>, ttl: int): File {
    if h == [] then f else FileAfter(FileAfterAll(f, h[..|h| - 1], ttl), h[|h| - 1], ttl)
  }

  predicate AcceptedAt(f: File, h: seq<Access>, ttl: int, i: nat)
    requires i < |h|
  {
    var before := FileAfterAll(f, h[..i], ttl);
    !before.Corrupt? && Accepts(Content(before), h[i], ttl)
  }

  // ----- what an access keeps -----

  /** The live entries when an accepted access comes to evict. */
  function Inserted(n: Nonces, a: Access, ttl: int): Nonces {
    Retain(Retain(n, Cutoff(a.now, ttl))[a.nonce := a.timestamp], Cutoff(a.now, ttl))
  }

  /** The entries that sort after e. */
  function Later(live: Nonces, e: Seen): set<Seen> {
    set k | k in live && Less(SeenPos(e), SeenPos(Seen(k, live[k]))) :: Seen(k, live[k])
  }

  lemma LaterAt(live: Nonces, i: nat, x: Seen)
    requires i < |OldestFirst(live)|
    ensures x in Later(live, OldestFirst(live)[i]) <==> x in OldestFirst(live)[i + 1..]
  {
    hide OldestFirst, SeenPos, Less;
    var sorted := OldestFirst(live);
    if x in sorted {
      var j :| 0 <= j < |sorted| && sorted[j] == x;
      if j < i {
        assert Less(SeenPos(sorted[j]), SeenPos(sorted[i]));
        LessIsAsymmetric(SeenPos(x), SeenPos(sorted[i]));
        forall l | i < l < |sorted| ensures sorted[l] != x { AscendingIsDistinct(sorted, j, l, SeenPos); }
      } else if j == i {
        NotLessItself(SeenPos(x));
        forall l | i < l < |sorted| ensures sorted[l] != x { AscendingIsDistinct(sorted, i, l, SeenPos); }
      } else {
        assert sorted[i + 1..][j - i - 1] == x && Less(SeenPos(sorted[i]), SeenPos(sorted[j]));
      }
    }
  }

  lemma LaterCount(live: Nonces, i: nat)
    requires i < |OldestFirst(live)|
    ensures |Later(live, OldestFirst(live)[i])| == |live| - i - 1
  {
    hide OldestFirst, SeenPos, Less, Later;
    var rest := OldestFirst(live)[i + 1..];
    forall x { LaterAt(live, i, x); }
    assert Later(live, OldestFirst(live)[i]) == set x | x in rest;
    AscendingSize(rest, SeenPos);
  }

  /** Eviction keeps an entry exactly when fewer than `max` live entries sort after it. */
  lemma SurvivesExactly(live: Nonces, max: nat, k: string)
    requires k in live
    ensures k in live - Names(OldestFirst(live)[..Overflow(live, max)]) <==> |Later(live, Seen(k, live[k]))| < max
  {
    var sorted, m := OldestFirst(live), Overflow(live, max);
    assert Seen(k, live[k]) in sorted;
    var i :| 0 <= i < |sorted| && sorted[i] == Seen(k, live[k]);
    LaterCount(live, i);
    NamedAmongFirst(live, m, i);
  }

  lemma NamedAmongFirst(live: Nonces, m: nat, i: nat)
    requires m <= |OldestFirst(live)| && i < |OldestFirst(live)|
    ensures OldestFirst(live)[i].nonce in Names(OldestFirst(live)[..m]) <==> i < m
  {
    var sorted := OldestFirst(live);
    if i < m { assert sorted[..m][i] in sorted[..m]; }
    if sorted[i].nonce in Names(sorted[..m]) {
      var x :| x in sorted[..m] && x.nonce == sorted[i].nonce;
      var j :| 0 <= j < m && sorted[..m][j] == x;
      assert sorted[i] in sorted && sorted[j] in sorted;
      if i != j { AscendingIsDistinct(sorted, if i < j then i else j, if i < j then j else i, SeenPos); }
    }
  }

  predicate FewLater(n: Nonces, a: Access, ttl: int, nonce: string, timestamp: int) {
    |Later(Inserted(n, a, ttl), Seen(nonce, timestamp))| < DEFAULT_MAX_NONCE_ENTRIES
  }

  predicate Remembers(f: File, nonce: string, timestamp: int) {
    f.Stored? && nonce in f.nonces && f.nonces[nonce] == timestamp
  }

  predicate AcceptsHere(f: File, a: Access, ttl: int) {
    !f.Corrupt? && Accepts(Content(f), a, ttl)
  }

  /** A live entry, held by the file or stored by this very access, is in the file afterwards exactly when the access
      is rejected or fewer than the cap of live entries sort after it. */
  lemma RememberedExactly(f: File, a: Access, ttl: int, nonce: string, timestamp: int)
    requires timestamp >= Cutoff(a.now, ttl)
    requires Remembers(f, nonce, timestamp)
             || (AcceptsHere(f, a, ttl) && a.nonce == nonce && a.timestamp == timestamp)
    ensures Remembers(FileAfter(f, a, ttl), nonce, timestamp) <==>
              (AcceptsHere(f, a, ttl) ==> FewLater(Content(f), a, ttl, nonce, timestamp))
  {
    if AcceptsHere(f, a, ttl) {
      var live := Inserted(Content(f), a, ttl);
      assert nonce in live && live[nonce] == timestamp;
      hide OldestFirst, SeenPos, Later, Overflow, Names;
      SurvivesExactly(live, DEFAULT_MAX_NONCE_ENTRIES, nonce);
    }
  }

  /** The whole file after an access: untouched when it is rejected; otherwise the live entries and the new one, less
      those with too many live entries after them. */
  lemma FileAfterExactly(f: File, a: Access, ttl: int, k: string)
    ensures !AcceptsHere(f, a, ttl) ==> FileAfter(f, a, ttl) == f
    ensures AcceptsHere(f, a, ttl) ==>
              && FileAfter(f, a, ttl).Stored?
              && var before, after := Content(f), FileAfter(f, a, ttl).nonces;
                 k in after <==>
                   (k in before || k == a.nonce)
                   && var at := if k == a.nonce then a.timestamp else before[k];
                      at >= Cutoff(a.now, ttl) && FewLater(before, a, ttl, k, at)
    ensures AcceptsHere(f, a, ttl) && k in FileAfter(f, a, ttl).nonces ==>
              FileAfter(f, a, ttl).nonces[k] == if k == a.nonce then a.timestamp else Content(f)[k]
  {
    if AcceptsHere(f, a, ttl) {
      var live := Inserted(Content(f), a, ttl);
      WrittenIsKnown(Content(f), a, ttl);
      hide OldestFirst, SeenPos, Later, Overflow, Names;
      if k in live { SurvivesExactly(live, DEFAULT_MAX_NONCE_ENTRIES, k); }
    }
  }

  /** Fewer live entries than the cap before the access, and it evicts nothing. */
  lemma RoomIsEnough(n: Nonces, a: Access, ttl: int, nonce: string)
    requires |Retain(n, Cutoff(a.now, ttl))| < DEFAULT_MAX_NONCE_ENTRIES && nonce in Inserted(n, a, ttl)
    ensures FewLater(n, a, ttl, nonce, Inserted(n, a, ttl)[nonce])
  {
    var live := Inserted(n, a, ttl);
    InsertedSize(n, a, ttl);
    var i :| 0 <= i < |OldestFirst(live)| && OldestFirst(live)[i] == Seen(nonce, live[nonce]);
    LaterCount(live, i);
  }

  lemma InsertedSize(n: Nonces, a: Access, ttl: int)
    ensures |Inserted(n, a, ttl)| <= |Retain(n, Cutoff(a.now, ttl))| + 1
  {
    var live := Retain(n, Cutoff(a.now, ttl));
    assert live[a.nonce := a.timestamp].Keys == live.Keys + {a.nonce};
    SubsetSize(Inserted(n, a, ttl).Keys, live.Keys + {a.nonce});
  }

  // ----- replay safety -----

  predicate RoomAt(f: File, h: seq<Access>, ttl: int, m: nat)
    requires m < |h|
  {
    AcceptedAt(f, h, ttl, m) ==>
      |Retain(Content(FileAfterAll(f, h[..m], ttl)), Cutoff(h[m].now, ttl))| < DEFAULT_MAX_NONCE_ENTRIES
  }

  /** If the m-th access is accepted while the i-th request's entry is live, it does not evict it: fewer than the cap
      of live entries are newer. */
  predicate Unevicted(f: File, h: seq<Access>, ttl: int, i: nat, m: nat)
    requires i <= m < |h|
  {
    AcceptedAt(f, h, ttl, m) && Cutoff(h[m].now, ttl) <= h[i].timestamp
    && (i == m || Remembers(FileAfterAll(f, h[..m], ttl), h[i].nonce, h[i].timestamp))
    ==> FewLater(Content(FileAfterAll(f, h[..m], ttl)), h[m], ttl, h[i].nonce, h[i].timestamp)
  }

  /** A store that has room for every nonce it accepts evicts none. */
  lemma UnderTheCapNothingIsEvicted(f: File, h: seq<Access>, ttl: int, i: nat, m: nat)
    requires i <= m < |h| && RoomAt(f, h, ttl, m)
    ensures Unevicted(f, h, ttl, i, m)
  {
    var file := FileAfterAll(f, h[..m], ttl);
    hide FileAfterAll, FewLater, Less;
    if AcceptedAt(f, h, ttl, m) && Cutoff(h[m].now, ttl) <= h[i].timestamp
      && (i == m || Remembers(file, h[i].nonce, h[i].timestamp))
    {
      RoomIsEnough(Content(file), h[m], ttl, h[i].nonce);
    }
  }

  predicate FreshAt(h: seq<Access>, skew: int, i: nat)
    requires i < |h|
  {
    Fresh(h[i].timestamp, h[i].now, skew)
  }

  /** The histories the guard meets: fresh requests, clocks out of order by at most `lag`, and no accepted request
      evicted while it is live. */
  ghost predicate Admissible(f: File, h: seq<Access>, skew: int, ttl: int, lag: int) {
    && (forall i :: 0 <= i < |h| ==> FreshAt(h, skew, i))
    && (forall i, m :: 0 <= i <= m < |h| ==> Unevicted(f, h, ttl, i, m))
    && (forall i, j :: 0 <= i < j < |h| ==> h[i].now <= h[j].now + lag)
  }

  predicate SameRequest(a: Access, b: Access) {
    a.nonce == b.nonce && a.timestamp == b.timestamp
  }

  lemma LastAccess(f: File, h: seq<Access>, ttl: int, j: nat)
    requires 0 < j <= |h|
    ensures FileAfterAll(f, h[..j], ttl) == FileAfter(FileAfterAll(f, h[..j - 1], ttl), h[j - 1], ttl)
  {
    assert h[..j][..j - 1] == h[..j - 1];
  }

  lemma AcceptedIsAcceptedHere(f: File, h: seq<Access>, ttl: int, m: nat)
    requires m < |h|
    ensures AcceptedAt(f, h, ttl, m) <==> AcceptsHere(FileAfterAll(f, h[..m], ttl), h[m], ttl)
  {
  }

  /** The m-th access expires and evicts nothing of the i-th. */
  predicate Spares(f: File, h: seq<Access>, ttl: int, i: nat, m: nat)
    requires i <= m < |h|
  {
    Cutoff(h[m].now, ttl) <= h[i].timestamp && Unevicted(f, h, ttl, i, m)
  }

  lemma StillRemembered(f: File, h: seq<Access>, ttl: int, i: nat, m: nat)
    requires i <= m < |h| && Spares(f, h, ttl, i, m)
    requires if m == i then AcceptedAt(f, h, ttl, i)
             else Remembers(FileAfterAll(f, h[..m], ttl), h[i].nonce, h[i].timestamp)
    ensures Remembers(FileAfterAll(f, h[..m + 1], ttl), h[i].nonce, h[i].timestamp)
  {
    hide FileAfterAll, FileAfter, AcceptedAt, AcceptsHere, FewLater, Remembers;
    LastAccess(f, h, ttl, m + 1);
    AcceptedIsAcceptedHere(f, h, ttl, m);
    RememberedExactly(FileAfterAll(f, h[..m], ttl), h[m], ttl, h[i].nonce, h[i].timestamp);
  }

  /** An accepted timestamp stays in the file as long as no cutoff passes it and nothing evicts it. */
  lemma {:induction false} AcceptedIsRemembered(f: File, h: seq<Access>, ttl: int, i: nat, j: nat)
    requires i < j <= |h| && AcceptedAt(f, h, ttl, i)
    requires forall m :: i <= m < j ==> Spares(f, h, ttl, i, m)
    ensures Remembers(FileAfterAll(f, h[..j], ttl), h[i].nonce, h[i].timestamp)
    decreases j
  {
    hide *;
    assert Spares(f, h, ttl, i, j - 1);
    if j > i + 1 {
      AcceptedIsRemembered(f, h, ttl, i, j - 1);
    }
    StillRemembered(f, h, ttl, i, j - 1);
  }

  /** One request at i and again, still fresh, at j: what happens from i up to j decides. */
  lemma NoReplayBetween(f: File, h: seq<Access>, skew: int, ttl: int, lag: int, i: nat, j: nat)
    requires (skew + 1) * SECOND + lag - 1 <= ttl * SECOND && lag >= 0
    requires i < j < |h| && SameRequest(h[i], h[j]) && FreshAt(h, skew, j) && AcceptedAt(f, h, ttl, i)
    requires forall m :: i <= m < j ==> Unevicted(f, h, ttl, i, m) && h[m].now <= h[j].now + lag
    ensures !AcceptedAt(f, h, ttl, j)
  {
    FreshExactly(h[j].timestamp, h[j].now, skew);
    AcceptedIsRemembered(f, h, ttl, i, j);
  }

  /** Seconds of the time to live against seconds of the skew: no fresh request is accepted twice. */
  lemma NoReplay(f: File, h: seq<Access>, skew: int, ttl: int, lag: int, i: nat, j: nat)
    requires Admissible(f, h, skew, ttl, lag) && (skew + 1) * SECOND + lag - 1 <= ttl * SECOND && lag >= 0
    requires i < j < |h| && SameRequest(h[i], h[j]) && AcceptedAt(f, h, ttl, i)
    ensures !AcceptedAt(f, h, ttl, j)
  {
    hide FreshAt, Unevicted, AcceptedAt, SameRequest;
    NoReplayBetween(f, h, skew, ttl, lag, i, j);
  }

  /** No admissible history ever accepts one request twice. */
  ghost predicate ReplaySafe(skew: int, ttl: int, lag: int) {
    forall f, h, i, j ::
      (Admissible(f, h, skew, ttl, lag) && 0 <= i < j < |h| && SameRequest(h[i], h[j]) && AcceptedAt(f, h, ttl, i))
      ==> !AcceptedAt(f, h, ttl, j)
  }

  /** The exact bound. With clocks in order (lag 0) it is ttl > skew in whole seconds. */
  lemma ReplaySafeExactly(skew: int, ttl: int, lag: int)
    requires skew >= 0 && lag >= 0
    ensures ReplaySafe(skew, ttl, lag) <==> (skew + 1) * SECOND + lag - 1 <= ttl * SECOND
    ensures lag == 0 ==> (ReplaySafe(skew, ttl, lag) <==> ttl > skew)
  {
    hide Admissible, AcceptedAt;
    if (skew + 1) * SECOND + lag - 1 <= ttl * SECOND {
      forall f, h, i, j | Admissible(f, h, skew, ttl, lag) && 0 <= i < j < |h| && SameRequest(h[i], h[j])
        && AcceptedAt(f, h, ttl, i) ensures !AcceptedAt(f, h, ttl, j)
      {
        NoReplay(f, h, skew, ttl, lag, i, j);
      }
    } else {
      var h := ReplayedHistory(skew, ttl, lag);
      assert SameRequest(h[0], h[2]);
    }
  }

  // ----- beyond the bound -----

  lemma ReplayedHistory(skew: int, ttl: int, lag: int) returns (h: seq<Access>)
    requires skew >= 0 && lag >= 0 && (skew + 1) * SECOND + lag - 1 > ttl * SECOND
    ensures Admissible(Missing, h, skew, ttl, lag) && |h| == 3 && SameRequest(h[0], h[2])
    ensures AcceptedAt(Missing, h, ttl, 0) && AcceptedAt(Missing, h, ttl, 2)
  {
    hide AcceptedAt, RoomAt, Unevicted;
    var late := (skew + 1) * SECOND - 1;
    h := [Access("n", 0, 0), Access("m", late + lag, late + lag), Access("n", 0, late)];
    FreshExactly(0, late, skew);
    FreshExactly(0, 0, skew);
    FreshExactly(late + lag, late + lag, skew);
    assert forall i :: 0 <= i < 3 ==> FreshAt(h, skew, i);
    ForgottenBetween(h, ttl);
    forall i, m | 0 <= i <= m < 3 ensures Unevicted(Missing, h, ttl, i, m) {
      UnderTheCapNothingIsEvicted(Missing, h, ttl, i, m);
    }
  }

  /** Under the cap a write only drops what has expired. */
  lemma WrittenWithRoom(n: Nonces, a: Access, ttl: int)
    requires |Retain(n, Cutoff(a.now, ttl))| < DEFAULT_MAX_NONCE_ENTRIES
    ensures Written(n, a, ttl)
            == Retain(Retain(n, Cutoff(a.now, ttl))[a.nonce := a.timestamp], Cutoff(a.now, ttl))
  {
    var live := Retain(n, Cutoff(a.now, ttl));
    var all := live[a.nonce := a.timestamp];
    assert all.Keys == live.Keys + {a.nonce};
    SubsetSize(Retain(all, Cutoff(a.now, ttl)).Keys, all.Keys);
    PruneWithRoom(all, a.now, ttl, DEFAULT_MAX_NONCE_ENTRIES);
  }

  predicate AtMostOne(f: File, nonce: string, timestamp: int) {
    f.Stored? && f.nonces.Keys <= {nonce} && (nonce in f.nonces ==> f.nonces[nonce] == timestamp)
  }

  lemma NothingLive(f: File, nonce: string, timestamp: int, a: Access, ttl: int)
    requires AtMostOne(f, nonce, timestamp)
    ensures |Retain(Content(f), Cutoff(a.now, ttl))| <= 1
    ensures timestamp < Cutoff(a.now, ttl) ==> Retain(Content(f), Cutoff(a.now, ttl)) == map[]
  {
    SubsetSize(Retain(Content(f), Cutoff(a.now, ttl)).Keys, {nonce});
  }

  lemma OnlyOneWritten(f: File, a: Access, ttl: int)
    requires !f.Corrupt? && Retain(Content(f), Cutoff(a.now, ttl)) == map[]
    ensures Accepts(Content(f), a, ttl)
    ensures AtMostOne(FileAfter(f, a, ttl), a.nonce, a.timestamp)
  {
    WrittenWithRoom(Content(f), a, ttl);
  }

  lemma FirstWritten(h: seq<Access>, ttl: int)
    requires |h| > 0
    ensures RoomAt(Missing, h, ttl, 0) && AcceptedAt(Missing, h, ttl, 0)
    ensures AtMostOne(FileAfterAll(Missing, h[..1], ttl), h[0].nonce, h[0].timestamp)
  {
    LastAccess(Missing, h, ttl, 1);
    OnlyOneWritten(Missing, h[0], ttl);
  }

  lemma NextWritten(h: seq<Access>, ttl: int)
    requires |h| > 1 && h[0].timestamp < Cutoff(h[1].now, ttl)
    requires AtMostOne(FileAfterAll(Missing, h[..1], ttl), h[0].nonce, h[0].timestamp)
    ensures RoomAt(Missing, h, ttl, 1)
    ensures AtMostOne(FileAfterAll(Missing, h[..2], ttl), h[1].nonce, h[1].timestamp)
  {
    LastAccess(Missing, h, ttl, 2);
    NothingLive(FileAfterAll(Missing, h[..1], ttl), h[0].nonce, h[0].timestamp, h[1], ttl);
    OnlyOneWritten(FileAfterAll(Missing, h[..1], ttl), h[1], ttl);
  }

  lemma OtherAccepted(h: seq<Access>, ttl: int)
    requires |h| > 2 && h[1].nonce != h[2].nonce
    requires AtMostOne(FileAfterAll(Missing, h[..2], ttl), h[1].nonce, h[1].timestamp)
    ensures RoomAt(Missing, h, ttl, 2) && AcceptedAt(Missing, h, ttl, 2)
  {
    NothingLive(FileAfterAll(Missing, h[..2], ttl), h[1].nonce, h[1].timestamp, h[2], ttl);
  }

  /** An access whose cutoff has passed the timestamp makes the file forget it, and the request goes through again. */
  lemma ForgottenBetween(h: seq<Access>, ttl: int)
    requires |h| == 3 && h[0].timestamp < Cutoff(h[1].now, ttl)
    requires h[1].nonce != h[2].nonce
    ensures forall i :: 0 <= i < 3 ==> RoomAt(Missing, h, ttl, i)
    ensures AcceptedAt(Missing, h, ttl, 0) && AcceptedAt(Missing, h, ttl, 2)
  {
    hide *;
    FirstWritten(h, ttl);
    NextWritten(h, ttl);
    OtherAccepted(h, ttl);
  }

  // ----- over the cap -----

  function Name(i: nat): string { seq(i, _ => 'x') }

  /** One request, as many newer ones as the store holds, and the request again. */
  function Crowd(): (h: seq<Access>)
    ensures |h| == DEFAULT_MAX_NONCE_ENTRIES + 2
    ensures forall i :: 0 <= i < |h| ==> h[i] == CrowdMember(i)
  {
    seq(DEFAULT_MAX_NONCE_ENTRIES + 2, i => CrowdMember(i))
  }

  function CrowdMember(i: int): Access {
    if i <= 0 then Access(Name(0), 0, 0)
    else if i <= DEFAULT_MAX_NONCE_ENTRIES then Access(Name(i), 1, 1)
    else Access(Name(0), 0, 1)
  }

  function NamesUpTo(k: nat): set<string> {
    set i | 0 <= i < k :: Name(i)
  }

  function Filled(k: nat): Nonces {
    map s | s in NamesUpTo(k) :: if s == "" then 0 else 1
  }

  lemma {:induction false} FilledSize(k: nat)
    ensures |NamesUpTo(k)| == k && |Filled(k)| == k && Name(k) !in NamesUpTo(k)
  {
    assert forall i :: 0 <= i < k ==> |Name(i)| != |Name(k)|;
    if k > 0 {
      FilledSize(k - 1);
      assert NamesUpTo(k) == NamesUpTo(k - 1) + {Name(k - 1)};
    }
    assert Filled(k).Keys == NamesUpTo(k);
  }

  lemma FilledGrows(k: nat, ttl: int)
    requires ttl >= 1 && k >= 1
    ensures Accepts(Filled(k), Access(Name(k), 1, 1), ttl)
    ensures Inserted(Filled(k), Access(Name(k), 1, 1), ttl) == Filled(k + 1)
  {
    FilledSize(k);
    assert NamesUpTo(k + 1) == NamesUpTo(k) + {Name(k)};
    assert Retain(Filled(k), Cutoff(1, ttl)) == Filled(k);
    assert |Name(k)| == k;
  }

  lemma FilledIsWritten(k: nat, ttl: int)
    requires ttl >= 1 && 1 <= k < DEFAULT_MAX_NONCE_ENTRIES
    ensures FileAfter(Stored(Filled(k)), Access(Name(k), 1, 1), ttl) == Stored(Filled(k + 1))
  {
    hide Filled, Prune, Less;
    FilledGrows(k, ttl);
    FilledSize(k + 1);
    FilledSize(k);
    PruneWithRoom(Retain(Filled(k), Cutoff(1, ttl))[Name(k) := 1], 1, ttl, DEFAULT_MAX_NONCE_ENTRIES);
  }

  lemma FirstOfCrowd(ttl: int)
    requires ttl >= 1
    ensures AcceptsHere(Missing, CrowdMember(0), ttl)
    ensures FileAfter(Missing, CrowdMember(0), ttl) == Stored(Filled(1))
  {
    assert Name(0) == "";
    assert NamesUpTo(1) == {""};
    WrittenWithRoom(map[], CrowdMember(0), ttl);
    assert Retain(Retain(map[], Cutoff(0, ttl))["" := 0], Cutoff(0, ttl)) == map["" := 0] == Filled(1);
  }

  lemma {:induction false} CrowdFills(ttl: int, k: nat)
    requires ttl >= 1 && 1 <= k <= DEFAULT_MAX_NONCE_ENTRIES
    ensures FileAfterAll(Missing, Crowd()[..k], ttl) == Stored(Filled(k))
  {
    LastAccess(Missing, Crowd(), ttl, k);
    hide FileAfter, Filled;
    if k == 1 {
      FirstOfCrowd(ttl);
      assert Crowd()[..0] == [];
    } else {
      CrowdFills(ttl, k - 1);
      FilledIsWritten(k - 1, ttl);
    }
  }

  /** The oldest entry has all the others after it. */
  lemma OldestIsCrowdedOut(ttl: int)
    requires ttl >= 1
    ensures var a := Access(Name(DEFAULT_MAX_NONCE_ENTRIES), 1, 1);
            !Remembers(FileAfter(Stored(Filled(DEFAULT_MAX_NONCE_ENTRIES)), a, ttl), "", 0)
  {
    var max := DEFAULT_MAX_NONCE_ENTRIES;
    AllLater(max);
    FilledGrows(max, ttl);
    FilledSize(max);
    assert "" in Filled(max) && Filled(max)[""] == 0 by { assert Name(0) == ""; }
    hide FileAfter, Inserted, Later, Filled, Accepts;
    RememberedExactly(Stored(Filled(max)), Access(Name(max), 1, 1), ttl, "", 0);
  }

  lemma IsLater(live: Nonces, e: Seen, x: Seen)
    ensures x in Later(live, e) <==> x.nonce in live && x.at == live[x.nonce] && Less(SeenPos(e), SeenPos(x))
  {
  }

  lemma FilledIsLater(k: nat, x: Seen)
    requires x.nonce in Filled(k) && x.at == Filled(k)[x.nonce]
    ensures Less(SeenPos(Seen("", 0)), SeenPos(x)) <==> x != Seen("", 0)
  {
    LessAfterPrefix(0, Codes(""), x.at, Codes(x.nonce));
    if x == Seen("", 0) { NotLessItself(SeenPos(x)); }
  }

  /** When every other live entry sorts after e, there is one fewer of them than there are entries. */
  lemma LaterThanFirst(live: Nonces, e: Seen)
    requires e.nonce in live && e.at == live[e.nonce]
    requires forall x: Seen :: x.nonce in live && x.at == live[x.nonce] ==> (Less(SeenPos(e), SeenPos(x)) <==> x != e)
    ensures |Later(live, e)| == |live| - 1
  {
    hide SeenPos, Less;
    EntryCount(live, live.Keys);
    var entries := set s | s in live.Keys :: Seen(s, live[s]);
    forall x ensures x in Later(live, e) <==> x in entries - {e} { IsLater(live, e, x); }
    assert Later(live, e) == entries - {e};
  }

  lemma AllLater(k: nat)
    ensures |Later(Filled(k + 1), Seen("", 0))| == k
  {
    FilledSize(k + 1);
    assert Name(0) == "" && "" in Filled(k + 1) && Filled(k + 1)[""] == 0;
    hide Later, SeenPos, Less, Filled, NamesUpTo;
    forall x: Seen | x.nonce in Filled(k + 1) && x.at == Filled(k + 1)[x.nonce]
      ensures Less(SeenPos(Seen("", 0)), SeenPos(x)) <==> x != Seen("", 0)
    {
      FilledIsLater(k + 1, x);
    }
    LaterThanFirst(Filled(k + 1), Seen("", 0));
  }

  /** Without the condition on eviction the guard is not replay safe, for any skew and time to live: fresh requests
      with clocks in order, one of them accepted twice. The nonce is stored before the signature is looked at, so it
      does not matter who signed those in between. */
  lemma CrowdedOut(skew: int, ttl: int) returns (h: seq<Access>)
    requires skew >= 0 && ttl > skew
    ensures |h| == DEFAULT_MAX_NONCE_ENTRIES + 2 && SameRequest(h[0], h[|h| - 1])
    ensures forall i :: 0 <= i < |h| ==> FreshAt(h, skew, i)
    ensures forall i, j :: 0 <= i < j < |h| ==> h[i].now <= h[j].now
    ensures AcceptedAt(Missing, h, ttl, 0) && AcceptedAt(Missing, h, ttl, |h| - 1)
  {
    hide AcceptedAt, FileAfterAll, AcceptsHere, FileAfter, Filled, Name, Crowd;
    h := Crowd();
    assert h[..0] == [];
    StartsMissing(ttl);
    FirstOfCrowd(ttl);
    AcceptedIsAcceptedHere(Missing, h, ttl, 0);
    AcceptedAgain(ttl);
  }

  lemma StartsMissing(ttl: int)
    ensures FileAfterAll(Missing, [], ttl) == Missing
  {
  }

  lemma AcceptedAgain(ttl: int)
    requires ttl >= 1
    ensures AcceptedAt(Missing, Crowd(), ttl, DEFAULT_MAX_NONCE_ENTRIES + 1)
  {
    var max := DEFAULT_MAX_NONCE_ENTRIES;
    CrowdFills(ttl, max);
    LastAccess(Missing, Crowd(), ttl, max + 1);
    OldestIsCrowdedOut(ttl);
    AcceptedIsAcceptedHere(Missing, Crowd(), ttl, max + 1);
    OnlyOldValue(ttl);
  }

  /** What the crowd leaves under the empty name could only be the first request's entry. */
  lemma OnlyOldValue(ttl: int)
    requires ttl >= 1
    ensures var a := Access(Name(DEFAULT_MAX_NONCE_ENTRIES), 1, 1);
            var f := FileAfter(Stored(Filled(DEFAULT_MAX_NONCE_ENTRIES)), a, ttl);
            f.Stored? && ("" in f.nonces ==> f.nonces[""] == 0)
  {
    FilledGrows(DEFAULT_MAX_NONCE_ENTRIES, ttl);
  }

  // ----- how many requests there may be -----

  /** The earlier accesses whose timestamps the m-th access's cutoff has not passed. */
  function InWindow(h: seq<Access>, ttl: int, m: nat): set<nat>
    requires m < |h|
  {
    set l: nat | l < m && h[l].timestamp >= Cutoff(h[m].now, ttl)
  }

  /** Every entry of the file was put there by an access. */
  ghost predicate PutBy(f: File, h: seq<Access>, m: nat)
    requires m <= |h|
  {
    !f.Corrupt? && forall k :: k in Content(f) ==>
      exists l: nat :: l < m && h[l].nonce == k && h[l].timestamp == Content(f)[k]
  }

  lemma PutByOneMore(f: File, h: seq<Access>, ttl: int, m: nat)
    requires m < |h| && PutBy(f, h, m)
    ensures PutBy(FileAfter(f, h[m], ttl), h, m + 1)
  {
    var f' := FileAfter(f, h[m], ttl);
    WrittenIsKnown(Content(f), h[m], ttl);
    hide Written, Accepts;
    forall k | k in Content(f') ensures exists l: nat :: l < m + 1 && h[l].nonce == k && h[l].timestamp == Content(f')[k] {
      if k in Content(f) && Content(f)[k] == Content(f')[k] {
        var l: nat :| l < m && h[l].nonce == k && h[l].timestamp == Content(f)[k];
      } else {
        assert h[m].nonce == k && h[m].timestamp == Content(f')[k];
      }
    }
  }

  lemma WrittenIsKnown(n: Nonces, a: Access, ttl: int)
    ensures var w := Written(n, a, ttl);
            forall k :: k in w ==> (k in n && w[k] == n[k]) || (k == a.nonce && w[k] == a.timestamp)
  {
    PruneKeepsNewest(Retain(n, Cutoff(a.now, ttl))[a.nonce := a.timestamp], a.now, ttl, DEFAULT_MAX_NONCE_ENTRIES);
    hide Prune;
  }

  lemma {:induction false} FileIsPutBy(h: seq<Access>, ttl: int, m: nat)
    requires m <= |h|
    ensures PutBy(FileAfterAll(Missing, h[..m], ttl), h, m)
  {
    if m > 0 {
      LastAccess(Missing, h, ttl, m);
      FileIsPutBy(h, ttl, m - 1);
      hide FileAfterAll, FileAfter, PutBy;
      PutByOneMore(FileAfterAll(Missing, h[..m - 1], ttl), h, ttl, m - 1);
    }
  }

  /** A file cannot have more entries than there are accesses they come from. */
  lemma {:induction false} NoMoreThanPlaces(n: Nonces, h: seq<Access>, places: set<nat>)
    requires forall l :: l in places ==> l < |h|
    requires forall k :: k in n ==> exists l :: l in places && h[l].nonce == k
    ensures |n| <= |places|
    decreases |places|
  {
    assert |n.Keys| == |n|;
    NamesOfPlaces(h, places);
    var names := set l | l in places :: h[l].nonce;
    forall k | k in n.Keys ensures k in names {
      var l :| l in places && h[l].nonce == k;
    }
    SubsetSize(n.Keys, names);
  }

  lemma {:induction false} NamesOfPlaces(h: seq<Access>, places: set<nat>)
    requires forall l :: l in places ==> l < |h|
    ensures |set l | l in places :: h[l].nonce| <= |places|
    decreases |places|
  {
    if places != {} {
      var p :| p in places;
      NamesOfPlaces(h, places - {p});
      assert (set l | l in places :: h[l].nonce) == (set l | l in places - {p} :: h[l].nonce) + {h[p].nonce};
    }
  }

  /** From a missing file, the live entries an access finds are no more than the earlier requests in its window. */
  lemma LiveAreInWindow(h: seq<Access>, ttl: int, m: nat)
    requires m < |h|
    ensures |Retain(Content(FileAfterAll(Missing, h[..m], ttl)), Cutoff(h[m].now, ttl))| <= |InWindow(h, ttl, m)|
  {
    var f := FileAfterAll(Missing, h[..m], ttl);
    FileIsPutBy(h, ttl, m);
    hide FileAfterAll;
    var live := Retain(Content(f), Cutoff(h[m].now, ttl));
    forall k | k in live ensures exists l :: l in InWindow(h, ttl, m) && h[l].nonce == k {
      var l: nat :| l < m && h[l].nonce == k && h[l].timestamp == Content(f)[k];
      assert l in InWindow(h, ttl, m);
    }
    NoMoreThanPlaces(live, h, InWindow(h, ttl, m));
  }

  /** A condition on the requests alone: from a missing file, with fresh requests and clocks out of order by at most
      `lag`, no request is accepted twice while fewer than the cap of requests fall into each access's window. */
  lemma NoReplayAtThisRate(h: seq<Access>, skew: int, ttl: int, lag: int, i: nat, j: nat)
    requires (skew + 1) * SECOND + lag - 1 <= ttl * SECOND && lag >= 0
    requires i < j < |h| && SameRequest(h[i], h[j]) && FreshAt(h, skew, j) && AcceptedAt(Missing, h, ttl, i)
    requires forall m :: i <= m < j ==> |InWindow(h, ttl, m)| < DEFAULT_MAX_NONCE_ENTRIES && h[m].now <= h[j].now + lag
    ensures !AcceptedAt(Missing, h, ttl, j)
  {
    forall m | i <= m < j ensures Unevicted(Missing, h, ttl, i, m) {
      LiveAreInWindow(h, ttl, m);
      hide Unevicted, FileAfterAll, Accepts;
      UnderTheCapNothingIsEvicted(Missing, h, ttl, i, m);
    }
    hide Unevicted, AcceptedAt, FreshAt, InWindow;
    NoReplayBetween(Missing, h, skew, ttl, lag, i, j);
  }

  function UpTo(m: nat): (s: set<nat>)
    ensures |s| == m && forall l: nat :: l in s <==> l < m
  {
    if m == 0 then {} else UpTo(m - 1) + {m - 1}
  }

  lemma WindowSize(h: seq<Access>, ttl: int, m: nat)
    requires m < |h|
    ensures |InWindow(h, ttl, m)| <= m
  {
    SubsetSize(InWindow(h, ttl, m), UpTo(m));
  }

  /** No history of at most n accesses on a missing file, fresh and with clocks in order, has a request accepted
      twice. */
  ghost predicate SafeForLength(n: nat, skew: int, ttl: int) {
    forall h, i, j ::
      (|h| <= n && 0 <= i < j < |h| && InOrderAndFresh(h, skew) && SameRequest(h[i], h[j]) && AcceptedAt(Missing, h, ttl, i))
      ==> !AcceptedAt(Missing, h, ttl, j)
  }

  ghost predicate InOrderAndFresh(h: seq<Access>, skew: int) {
    && (forall i :: 0 <= i < |h| ==> FreshAt(h, skew, i))
    && (forall i, j :: 0 <= i < j < |h| ==> h[i].now <= h[j].now)
  }

  /** How many accesses the store is made for, exactly: the cap and one more. */
  lemma SafeLengthExactly(n: nat, skew: int, ttl: int)
    requires skew >= 0 && ttl > skew
    ensures SafeForLength(n, skew, ttl) <==> n <= DEFAULT_MAX_NONCE_ENTRIES + 1
  {
    hide AcceptedAt, FreshAt, InWindow;
    if n <= DEFAULT_MAX_NONCE_ENTRIES + 1 {
      forall h, i, j | |h| <= n && 0 <= i < j < |h| && InOrderAndFresh(h, skew) && SameRequest(h[i], h[j])
        && AcceptedAt(Missing, h, ttl, i) ensures !AcceptedAt(Missing, h, ttl, j)
      {
        forall m | i <= m < j ensures |InWindow(h, ttl, m)| < DEFAULT_MAX_NONCE_ENTRIES { WindowSize(h, ttl, m); }
        NoReplayAtThisRate(h, skew, ttl, 0, i, j);
      }
    } else {
      var h := CrowdedOut(skew, ttl);
      assert InOrderAndFresh(h, skew);
    }
  }
}
