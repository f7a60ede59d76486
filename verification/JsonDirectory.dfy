/** Paging over the .json files of a directory by file name. */
module JsonDirectory {
  import opened Wrappers
  import opened Order
  import opened Keyset

  datatype DirEntry = DirEntry(isFile: bool, content: string)

  type Directory = map<string, DirEntry>

  datatype FilePage<+T> = FilePage(items: seq<T>, next: Option<string>, hasMore: bool)

  /** Path::extension is "json": the last dot starts it and is not the first character of the name. */
  predicate HasJsonExtension(name: string) {
    |name| > 5 && name[|name| - 5..] == ".json"
  }

  /** A name with an extension has something before it: ".json" itself has none. */
  lemma ExtensionExactly(name: string)
    ensures HasJsonExtension(name) <==> exists stem :: stem != "" && name == stem + ".json"
  {
    if HasJsonExtension(name) {
      assert name == name[..|name| - 5] + ".json";
    }
  }

  function JsonFiles(d: Directory): set<string> {
    set name | name in d && d[name].isFile && HasJsonExtension(name)
  }

  /** entries.sort_by_key(file_name) */
  function SortedNames(d: Directory): (r: seq<string>)
    ensures Ascending(r, Codes)
    ensures |r| == |JsonFiles(d)|
    ensures forall name :: name in r <==> name in JsonFiles(d)
  {
    assert Separates(Codes, JsonFiles(d)) by {
      forall x, y | x in JsonFiles(d) && y in JsonFiles(d) && Codes(x) == Codes(y) ensures x == y {
        CodesAreInjective(x, y);
      }
    }
    SortBy(JsonFiles(d), Codes)
  }

  function AsEntries(d: Directory, names: seq<string>): (r: seq<Entry>)
    requires forall name :: name in names ==> name in d
    ensures |r| == |names|
    ensures forall i :: 0 <= i < |names| ==> r[i] == Entry(Codes(names[i]), d[names[i]].content)
  {
    if names == [] then []
    else
      assert forall name :: name in names[1..] ==> name in names;
      [Entry(Codes(names[0]), d[names[0]].content)] + AsEntries(d, names[1..])
  }

  /** The directory's .json files as one ascending listing. */
  function Listing(d: Directory): (r: seq<Entry>)
    ensures Ascending(r, EntryPos)
    ensures |r| == |JsonFiles(d)|
  {
    var r := AsEntries(d, SortedNames(d));
    assert forall i :: 0 <= i < |r| ==> EntryPos(r[i]) == Codes(SortedNames(d)[i]);
    r
  }

  function CursorPos(c: Option<string>): Option<seq<int>> {
    if c.None? then None else Some(Codes(c.value))
  }

  function NamesAfter(names: seq<string>, c: Option<string>): (r: seq<string>)
    ensures forall name :: name in r ==> name in names
  {
    if names == [] then []
    else
      assert names == [names[0]] + names[1..];
      (if c.None? || Less(Codes(c.value), Codes(names[0])) then [names[0]] else []) + NamesAfter(names[1..], c)
  }

  lemma EntriesOfMore(d: Directory, name: string, names: seq<string>)
    requires name in d && forall n :: n in names ==> n in d
    ensures AsEntries(d, [name] + names) == [Entry(Codes(name), d[name].content)] + AsEntries(d, names)
  {
    assert ([name] + names)[1..] == names;
  }

  lemma NamesAfterOfMore(name: string, names: seq<string>, c: Option<string>)
    ensures NamesAfter([name] + names, c) ==
              (if c.None? || Less(Codes(c.value), Codes(name)) then [name] + NamesAfter(names, c) else NamesAfter(names, c))
  {
    assert ([name] + names)[1..] == names;
  }

  lemma OneMoreBeyond(d: Directory, name: string, names: seq<string>, c: Option<string>)
    requires name in d && forall n :: n in names ==> n in d
    requires AsEntries(d, NamesAfter(names, c)) == Beyond(AsEntries(d, names), CursorPos(c))
    ensures forall n :: n in [name] + names ==> n in d
    ensures AsEntries(d, NamesAfter([name] + names, c)) == Beyond(AsEntries(d, [name] + names), CursorPos(c))
  {
    hide AsEntries, Beyond, NamesAfter, Less, Codes;
    NamesAfterOfMore(name, names, c);
    EntriesOfMore(d, name, names);
    EntriesOfMore(d, name, NamesAfter(names, c));
    BeyondOfMore(Entry(Codes(name), d[name].content), AsEntries(d, names), CursorPos(c));
  }

  lemma {:induction false} NamesAfterIsBeyond(d: Directory, names: seq<string>, c: Option<string>)
    requires forall name :: name in names ==> name in d
    ensures AsEntries(d, NamesAfter(names, c)) == Beyond(AsEntries(d, names), CursorPos(c))
  {
    if names != [] {
      hide AsEntries, Beyond, NamesAfter, CursorPos;
      assert names == [names[0]] + names[1..];
      NamesAfterIsBeyond(d, names[1..], c);
      OneMoreBeyond(d, names[0], names[1..], c);
    }
  }

  function LastOf(names: seq<string>): Option<string> {
    if names == [] then None else Some(names[|names| - 1])
  }

  predicate IsJsonFile(d: Directory, name: string) {
    name in d && d[name].isFile && HasJsonExtension(name)
  }

  /** What the scan has kept when `todo` is still to be looked at. */
  ghost predicate Scanned(d: Directory, todo: set<string>, entries: set<string>, max: nat) {
    entries == JsonFiles(d) - todo && |entries| <= max
  }

  lemma OneMoreEntry(d: Directory, todo: set<string>, entries: set<string>, name: string, max: nat)
    requires name in todo && todo <= d.Keys && Scanned(d, todo, entries, max)
    ensures var kept := if IsJsonFile(d, name) then entries + {name} else entries;
            if |kept| <= max then Scanned(d, todo - {name}, kept, max)
            else |kept| == max + 1 && |JsonFiles(d)| > max
  {
    hide HasJsonExtension;
    if IsJsonFile(d, name) {
      assert entries + {name} == JsonFiles(d) - (todo - {name});
      SubsetSize(entries + {name}, JsonFiles(d));
    } else {
      assert entries == JsonFiles(d) - (todo - {name});
    }
  }

  /** fs::read_dir, keeping .json files and refusing a directory that holds more of them than may be scanned. */
  method ScanDirectory(d: Directory, q: QueryLimits) returns (r: Result<set<string>, PageError>)
    ensures r == if |JsonFiles(d)| > q.maxScanEntries
                 then Err(PageScanTooLarge(q.maxScanEntries + 1, q.maxScanEntries)) else Ok(JsonFiles(d))
  {
    var entries: set<string> := {};
    var todo := d.Keys;
    assert Scanned(d, todo, entries, q.maxScanEntries);
    while todo != {}
      invariant todo <= d.Keys && Scanned(d, todo, entries, q.maxScanEntries)
      decreases |todo|
    {
      hide Scanned, JsonFiles, HasJsonExtension;
      var name :| name in todo;
      OneMoreEntry(d, todo, entries, name, q.maxScanEntries);
      todo := todo - {name};
      if !d[name].isFile || !HasJsonExtension(name) {
        continue;
      }
      entries := entries + {name};
      if |entries| > q.maxScanEntries {
        return Err(PageScanTooLarge(|entries|, q.maxScanEntries));
      }
    }
    r := Ok(entries);
  }

  lemma LastOfEntries(d: Directory, names: seq<string>, limit: nat)
    requires limit >= 1 && forall name :: name in names ==> name in d
    ensures LastPos(Take(AsEntries(d, names), limit)) == CursorPos(LastOf(Take(names, limit)))
  {
    hide Codes;
    var e, n := Take(AsEntries(d, names), limit), Take(names, limit);
    assert |e| == |n|;
    if n != [] {
      assert e[|e| - 1] == AsEntries(d, names)[|e| - 1];
      assert n[|n| - 1] == names[|n| - 1];
    }
  }

  /** The page of the listing, put together from the file names past the cursor. */
  lemma PageFromNames<T>(
    d: Directory, c: Option<string>, requested: Option<nat>, q: QueryLimits, decode: string -> Option<T>,
    names: seq<string>, limit: nat)
    requires NormalizeLimit(q, requested) == Ok(limit) && names == NamesAfter(SortedNames(d), c)
    ensures limit >= 1 && forall name :: name in names ==> name in d
    ensures var items := Collect(Take(AsEntries(d, names), limit), 0, q, decode);
            var more := |names| > limit;
            PageOf(Listing(d), CursorPos(c), requested, q, decode)
            == if items.Err? then Err(items.error)
               else Ok(Page(items.value, if more then CursorPos(LastOf(Take(names, limit))) else None, more))
  {
    NamesAfterIsBeyond(d, SortedNames(d), c);
    PageFromRows(Listing(d), CursorPos(c), requested, q, decode, Take(AsEntries(d, names), limit), |names| > limit);
    LastOfEntries(d, names, limit);
  }

  /** A page by file name: it looks one entry ahead where the table page probes, and is the same page. */
  method ReadDirectoryPage<T>(
    d: Directory, cursor: Option<string>, requested: Option<nat>, q: QueryLimits, decode: string -> Option<T>)
    returns (r: Result<FilePage<T>, PageError>)
    ensures NormalizeLimit(q, requested).Ok? && |JsonFiles(d)| > q.maxScanEntries ==>
              r == Err(PageScanTooLarge(q.maxScanEntries + 1, q.maxScanEntries))
    ensures NormalizeLimit(q, requested).Err? || |JsonFiles(d)| <= q.maxScanEntries ==>
              var page := PageOf(Listing(d), CursorPos(cursor), requested, q, decode);
              if page.Err? then r == Err(page.error)
              else r.Ok? && r.value.items == page.value.items && r.value.hasMore == page.value.hasMore
                   && CursorPos(r.value.next) == page.value.next
  {
    var limit := NormalizeLimit(q, requested);
    if limit.Err? {
      return Err(limit.error);
    }
    var scanned := ScanDirectory(d, q);
    if scanned.Err? {
      return Err(scanned.error);
    }
    var names := NamesAfter(SortedNames(d), cursor);
    PageFromNames(d, cursor, requested, q, decode, names, limit.value);
    var page := CollectFiles(d, names, limit.value, q, decode);
    if page.Err? {
      return Err(page.error);
    }
    r := Ok(if page.value.hasMore then page.value else page.value.(next := None));
  }

  /** One file against the byte bounds, and decoded. */
  method ReadFile<T>(totalBytes: nat, content: string, q: QueryLimits, decode: string -> Option<T>)
    returns (r: Result<(nat, T), PageError>)
    ensures r == Admit(totalBytes, content, q, decode)
  {
    var bytes := Utf8Length(content);
    if bytes > q.maxRecordBytes {
      return Err(RecordTooLarge(bytes, q.maxRecordBytes));
    }
    var total := SaturatingAdd(totalBytes, bytes);
    if total > q.maxPageBytes {
      return Err(PageTooLarge(total, q.maxPageBytes));
    }
    var item := decode(content);
    if item.None? {
      return Err(Json);
    }
    r := Ok((total, item.value));
  }

  /** Reading one more file: the outcome that the items so far stand for is unchanged. */
  lemma OneMoreFile<T>(
    d: Directory, names: seq<string>, limit: nat, q: QueryLimits, decode: string -> Option<T>, index: nat,
    whole: Result<seq<T>, PageError>, items: seq<T>, total: nat)
    requires (forall name :: name in names ==> name in d) && index < |names| && index < limit
    requires Continues(whole, items, Collect(Take(AsEntries(d, names), limit)[index..], total, q, decode))
    ensures var read := Admit(total, d[names[index]].content, q, decode);
            if read.Err? then whole == Err(read.error)
            else Continues(whole, items + [read.value.1],
                           Collect(Take(AsEntries(d, names), limit)[index + 1..], read.value.0, q, decode))
  {
    hide Admit, Continues, AsEntries;
    var rows := Take(AsEntries(d, names), limit);
    CollectStep(rows, index, total, q, decode, whole, items);
  }

  lemma CollectStep<T>(
    rows: seq<Entry>, index: nat, total: nat, q: QueryLimits, decode: string -> Option<T>,
    whole: Result<seq<T>, PageError>, items: seq<T>)
    requires index < |rows| && Continues(whole, items, Collect(rows[index..], total, q, decode))
    ensures var read := Admit(total, rows[index].text, q, decode);
            if read.Err? then whole == Err(read.error)
            else Continues(whole, items + [read.value.1], Collect(rows[index + 1..], read.value.0, q, decode))
  {
    assert rows[index..][1..] == rows[index + 1..] && rows[index..][0] == rows[index];
    var read := Admit(total, rows[index].text, q, decode);
    hide Admit;
    if read.Ok? {
      OneMore(whole, items, read.value.1, Collect(rows[index + 1..], read.value.0, q, decode));
    }
  }

  lemma AllRead<T>(
    d: Directory, names: seq<string>, limit: nat, q: QueryLimits, decode: string -> Option<T>, index: nat,
    whole: Result<seq<T>, PageError>, items: seq<T>, total: nat)
    requires (forall name :: name in names ==> name in d) && index == if |names| <= limit then |names| else limit
    requires Continues(whole, items, Collect(Take(AsEntries(d, names), limit)[index..], total, q, decode))
    ensures whole == Ok(items) && names[..index] == Take(names, limit)
  {
    assert Take(AsEntries(d, names), limit)[index..] == [] && items + [] == items;
  }

  /** The loop over the sorted files past the cursor, which stops at the first one over the page size. */
  method CollectFiles<T>(d: Directory, names: seq<string>, limit: nat, q: QueryLimits, decode: string -> Option<T>)
    returns (r: Result<FilePage<T>, PageError>)
    requires limit >= 1 && forall name :: name in names ==> name in d
    ensures var items := Collect(Take(AsEntries(d, names), limit), 0, q, decode);
            r == if items.Err? then Err(items.error)
                 else Ok(FilePage(items.value, LastOf(Take(names, limit)), |names| > limit))
  {
    ghost var whole := Collect(Take(AsEntries(d, names), limit), 0, q, decode);
    var items: seq<T>, totalBytes: nat, next: Option<string>, hasMore := [], 0, None, false;
    var index := 0;
    assert Take(AsEntries(d, names), limit)[0..] == Take(AsEntries(d, names), limit);
    NothingYet(whole);
    assert next == LastOf(names[..0]);
    hide *;
    while index < |names|
      invariant 0 <= index <= |names| && index <= limit
      invariant !hasMore && next == LastOf(names[..index]) && index <= |Take(AsEntries(d, names), limit)|
      invariant Continues(whole, items, Collect(Take(AsEntries(d, names), limit)[index..], totalBytes, q, decode))
    {
      if index >= limit {
        hasMore := true;
        break;
      }
      TakenLength(AsEntries(d, names), limit);
      OneMoreFile(d, names, limit, q, decode, index, whole, items, totalBytes);
      var read := ReadFile(totalBytes, d[names[index]].content, q, decode);
      if read.Err? {
        return Err(read.error);
      }
      totalBytes := read.value.0;
      items := items + [read.value.1];
      LastOfTaken(names, index);
      next := Some(names[index]);
      index := index + 1;
    }
    AllRead(d, names, limit, q, decode, index, whole, items, totalBytes);
    r := Ok(FilePage(items, next, hasMore));
  }

  lemma LastOfTaken(names: seq<string>, index: nat)
    requires index < |names|
    ensures LastOf(names[..index + 1]) == Some(names[index])
  {
  }

  lemma TakenLength<T>(s: seq<T>, limit: nat)
    ensures |Take(s, limit)| == if |s| <= limit then |s| else limit
  {
  }

  /** Scanning an unchanged directory page by page reads all its .json files in name order. */
  lemma DirectoryScanIsFullRead<T>(d: Directory, requests: nat -> Option<nat>, q: QueryLimits, decode: string -> Option<T>)
    requires Scan(Listing(d), None, requests, 0, q, decode).Ok?
    ensures Scan(Listing(d), None, requests, 0, q, decode) == DecodeAll(AsEntries(d, SortedNames(d)), decode)
  {
    ScanFromStart(Listing(d), requests, q, decode);
  }
}
