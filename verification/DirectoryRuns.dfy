/** A scan of a directory, page by page, while other files are added, rewritten and removed between its pages. */
module DirectoryRuns {
  import opened Wrappers
  import opened Order
  import opened Keyset
  import opened JsonDirectory

  /** Where the scanning client stands: about to ask for a page past the cursor, or at the end. */
  datatype Phase = Asking(cursor: Option<string>) | Done | Failed

  /** `seen` are the names whose files have been returned, in the order they were. */
  datatype World = World(directory: Directory, phase: Phase, seen: seq<string>)

  datatype Event =
    | Stored(name: string, entry: DirEntry)
    | Removed(name: string)
    | PageRead(requested: Option<nat>)

  datatype Client<!T> = Client(q: QueryLimits, decode: string -> Option<T>)

  /** The files a page returns. */
  function Returned(w: World, limit: nat): seq<string>
    requires w.phase.Asking?
  {
    Take(NamesAfter(SortedNames(w.directory), w.phase.cursor), limit)
  }

  /** read_directory_page, and what its caller makes of the answer. */
  function TakePage<T>(c: Client<T>, w: World, requested: Option<nat>): World
    requires w.phase.Asking?
  {
    var page := PageOf(Listing(w.directory), CursorPos(w.phase.cursor), requested, c.q, c.decode);
    if NormalizeLimit(c.q, requested).Err? || |JsonFiles(w.directory)| > c.q.maxScanEntries || page.Err?
    then w.(phase := Failed)
    else
      var names := Returned(w, NormalizeLimit(c.q, requested).value);
      w.(phase := if page.value.hasMore then Asking(LastOf(names)) else Done, seen := w.seen + names)
  }

  function Step<T>(c: Client<T>, w: World, e: Event): World {
    match e
    case Stored(name, entry) => w.(directory := w.directory[name := entry])
    case Removed(name) => w.(directory := w.directory - {name})
    case PageRead(requested) => if w.phase.Asking? then TakePage(c, w, requested) else w
  }

  function AfterRun<T>(c: Client<T>, w: World, run: seq<Event>, n: nat): World
    requires n <= |run|
  {
    if n == 0 then w else Step(c, AfterRun(c, w, run, n - 1), run[n - 1])
  }

  // ----- one page -----

  lemma {:induction false} NamesAfterExactly(names: seq<string>, c: Option<string>)
    requires Ascending(names, Codes)
    ensures Ascending(NamesAfter(names, c), Codes)
    ensures forall k :: k in NamesAfter(names, c) <==> k in names && IsPast(k, c)
  {
    if names != [] {
      var rest := NamesAfter(names[1..], c);
      NamesAfterExactly(names[1..], c);
      assert names == [names[0]] + names[1..];
      NamesAfterOfMore(names[0], names[1..], c);
      hide NamesAfter, Less, Codes;
      forall k | k in rest ensures Less(Codes(names[0]), Codes(k)) { HeadIsFirst(names, k); }
      HeadThenRest(names[0], rest);
    }
  }

  predicate IsPast(k: string, c: Option<string>) {
    c.None? || Less(Codes(c.value), Codes(k))
  }

  lemma HeadIsFirst(names: seq<string>, k: string)
    requires names != [] && Ascending(names, Codes) && k in names[1..]
    ensures Less(Codes(names[0]), Codes(k))
  {
    var i :| 0 <= i < |names[1..]| && names[1..][i] == k;
    assert names[i + 1] == k;
  }

  lemma HeadThenRest(head: string, rest: seq<string>)
    requires Ascending(rest, Codes) && forall k :: k in rest ==> Less(Codes(head), Codes(k))
    ensures Ascending([head] + rest, Codes)
  {
    var all := [head] + rest;
    forall i, j | 0 <= i < j < |all| ensures Less(Codes(all[i]), Codes(all[j])) {
      assert all[j] == rest[j - 1] && rest[j - 1] in rest;
      if i > 0 { assert all[i] == rest[i - 1]; }
    }
  }

  /** Of the files past the cursor, a page takes those up to its last; the others are past that one. */
  lemma TakenOrPast(names: seq<string>, limit: nat, k: string)
    requires Ascending(names, Codes) && limit >= 1 && k in names
    ensures var taken := Take(names, limit);
            taken != [] && (k in taken || (|names| > limit && IsPast(k, LastOf(taken))))
  {
    hide Less, Codes;
    var i :| 0 <= i < |names| && names[i] == k;
    var taken := Take(names, limit);
    if i < |taken| {
      assert taken[i] == k;
    } else {
      assert Less(Codes(names[|taken| - 1]), Codes(names[i]));
    }
  }

  lemma MoreExactly<T>(c: Client<T>, w: World, requested: Option<nat>)
    requires w.phase.Asking? && !TakePage(c, w, requested).phase.Failed?
    ensures NormalizeLimit(c.q, requested).Ok?
    ensures var limit := NormalizeLimit(c.q, requested).value;
            var names := NamesAfter(SortedNames(w.directory), w.phase.cursor);
            && limit >= 1
            && TakePage(c, w, requested).seen == w.seen + Take(names, limit)
            && TakePage(c, w, requested).phase == (if |names| > limit then Asking(LastOf(Take(names, limit))) else Done)
            && TakePage(c, w, requested).directory == w.directory
  {
    var limit := NormalizeLimit(c.q, requested).value;
    hide Collect, NamesAfter, SortedNames, AsEntries, Take, Listing;
    PageFromNames(w.directory, w.phase.cursor, requested, c.q, c.decode,
                  NamesAfter(SortedNames(w.directory), w.phase.cursor), limit);
  }

  // ----- every run -----

  /** No name comes twice, and the cursor is the last one returned. */
  ghost predicate Forward(w: World) {
    && Ascending(w.seen, Codes)
    && (w.phase.Asking? ==> w.phase.cursor == LastOf(w.seen))
  }

  lemma TwoAscend(a: seq<string>, b: seq<string>)
    requires Ascending(a, Codes) && Ascending(b, Codes)
    requires a != [] ==> forall k :: k in b ==> Less(Codes(a[|a| - 1]), Codes(k))
    ensures Ascending(a + b, Codes)
  {
    hide Less, Codes;
    var all := a + b;
    forall i, j | 0 <= i < j < |all| ensures Less(Codes(all[i]), Codes(all[j])) {
      if i < |a| <= j {
        assert b[j - |a|] in b;
        if i < |a| - 1 {
          assert Less(Codes(a[i]), Codes(a[|a| - 1]));
          LessIsTransitive(Codes(a[i]), Codes(a[|a| - 1]), Codes(b[j - |a|]));
        }
      } else if i >= |a| {
        assert Less(Codes(b[i - |a|]), Codes(b[j - |a|]));
      }
    }
  }

  lemma TakenAscend(names: seq<string>, limit: nat)
    requires Ascending(names, Codes)
    ensures Ascending(Take(names, limit), Codes)
    ensures forall k :: k in Take(names, limit) ==> k in names
  {
  }

  lemma PageGoesOn(seen: seq<string>, names: seq<string>, limit: nat)
    requires Ascending(seen, Codes) && Ascending(names, Codes) && limit >= 1
    requires forall k :: k in names ==> IsPast(k, LastOf(seen))
    ensures Ascending(seen + Take(names, limit), Codes)
    ensures |names| > limit ==> LastOf(seen + Take(names, limit)) == LastOf(Take(names, limit))
  {
    TakenAscend(names, limit);
    var taken := Take(names, limit);
    assert |names| > limit ==> |taken| == limit;
    hide Take, Less, Codes, Ascending;
    TwoAscend(seen, taken);
  }

  lemma PageKeepsForward<T>(c: Client<T>, w: World, requested: Option<nat>)
    requires w.phase.Asking? && Forward(w) && !TakePage(c, w, requested).phase.Failed?
    ensures Forward(TakePage(c, w, requested))
  {
    hide TakePage, NamesAfter, SortedNames, Take, Less, Codes, IsPast, Ascending, LastOf, NormalizeLimit;
    MoreExactly(c, w, requested);
    NamesAfterExactly(SortedNames(w.directory), w.phase.cursor);
    PageGoesOn(w.seen, NamesAfter(SortedNames(w.directory), w.phase.cursor), NormalizeLimit(c.q, requested).value);
  }

  lemma StepKeepsForward<T>(c: Client<T>, w: World, e: Event)
    requires Ascending(w.seen, Codes) && (w.phase.Failed? || Forward(w))
    ensures var w' := Step(c, w, e);
            Ascending(w'.seen, Codes) && (w'.phase.Failed? || Forward(w'))
  {
    if e.PageRead? && w.phase.Asking? {
      if !TakePage(c, w, e.requested).phase.Failed? {
        PageKeepsForward(c, w, e.requested);
      }
    }
  }

  lemma {:induction false} RunStaysForward<T>(c: Client<T>, w: World, run: seq<Event>, n: nat)
    requires w.phase == Asking(None) && w.seen == [] && n <= |run|
    ensures var w' := AfterRun(c, w, run, n);
            Ascending(w'.seen, Codes) && (w'.phase.Failed? || Forward(w'))
    decreases n
  {
    if n > 0 {
      hide Step, Forward, Ascending, Codes;
      RunStaysForward(c, w, run, n - 1);
      StepKeepsForward(c, AfterRun(c, w, run, n - 1), run[n - 1]);
    }
  }

  /** Removing this file, or putting something in its place that is no regular file. */
  predicate Spoils(e: Event, k: string) {
    (e.Removed? && e.name == k) || (e.Stored? && e.name == k && !e.entry.isFile)
  }

  /** Already returned, or past the cursor. */
  predicate Covered(w: World, k: string) {
    k in w.seen || (w.phase.Asking? && IsPast(k, w.phase.cursor))
  }

  lemma PageKeepsCovered<T>(c: Client<T>, w: World, requested: Option<nat>, k: string)
    requires w.phase.Asking? && k in JsonFiles(w.directory) && Covered(w, k)
    requires !TakePage(c, w, requested).phase.Failed?
    ensures Covered(TakePage(c, w, requested), k)
  {
    var names := NamesAfter(SortedNames(w.directory), w.phase.cursor);
    var limit := NormalizeLimit(c.q, requested).value;
    MoreExactly(c, w, requested);
    NamesAfterExactly(SortedNames(w.directory), w.phase.cursor);
    hide TakePage, NamesAfter, JsonFiles, Take, Less, Codes, IsPast;
    if k !in w.seen { TakenOrPast(names, limit, k); }
  }

  lemma StepKeepsCovered<T>(c: Client<T>, w: World, e: Event, k: string)
    requires k in JsonFiles(w.directory) && !Spoils(e, k) && (w.phase.Failed? || Covered(w, k))
    ensures var w' := Step(c, w, e);
            k in JsonFiles(w'.directory) && (w'.phase.Failed? || Covered(w', k))
  {
    if e.PageRead? && w.phase.Asking? {
      if !TakePage(c, w, e.requested).phase.Failed? {
        PageKeepsCovered(c, w, e.requested, k);
        MoreExactly(c, w, e.requested);
      }
    }
  }

  lemma {:induction false} RunKeepsCovered<T>(c: Client<T>, w: World, run: seq<Event>, k: string, n: nat)
    requires w.phase == Asking(None) && k in JsonFiles(w.directory) && n <= |run|
    requires forall i :: 0 <= i < |run| ==> !Spoils(run[i], k)
    ensures var w' := AfterRun(c, w, run, n);
            k in JsonFiles(w'.directory) && (w'.phase.Failed? || Covered(w', k))
    decreases n
  {
    if n > 0 {
      hide Step, Covered, JsonFiles, Spoils;
      RunKeepsCovered(c, w, run, k, n - 1);
      StepKeepsCovered(c, AfterRun(c, w, run, n - 1), run[n - 1], k);
    }
  }

  /** Whatever other files come, change and go between its pages, a scan returns no name twice, in ascending order;
      and when it ends, every .json file that was there throughout has been returned. */
  lemma PresentIsReturnedOnce<T>(c: Client<T>, w: World, run: seq<Event>, k: string)
    requires w.phase == Asking(None) && w.seen == []
    ensures Ascending(AfterRun(c, w, run, |run|).seen, Codes) && NoDuplicates(AfterRun(c, w, run, |run|).seen)
    ensures (k in JsonFiles(w.directory) && (forall i :: 0 <= i < |run| ==> !Spoils(run[i], k))
             && AfterRun(c, w, run, |run|).phase.Done?) ==>
              k in AfterRun(c, w, run, |run|).seen
  {
    RunStaysForward(c, w, run, |run|);
    if k in JsonFiles(w.directory) && forall i :: 0 <= i < |run| ==> !Spoils(run[i], k) {
      RunKeepsCovered(c, w, run, k, |run|);
    }
    hide AfterRun, Codes, Less;
    var seen := AfterRun(c, w, run, |run|).seen;
    forall i, j | 0 <= i < j < |seen| ensures seen[i] != seen[j] { AscendingIsDistinct(seen, i, j, Codes); }
  }
}
