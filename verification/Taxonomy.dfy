/** The authorized-domain taxonomy: a flat list of domains with parents, the guarded walk up the parents, and
    coverage of requested domains by granted ones. */
module Taxonomy {
  import opened Wrappers
  import opened Order

  datatype Domain = Domain(id: string, caption: string, parent: Option<string>, aliases: seq<string>)

  datatype DomainError = WildcardMixed | DuplicateOrUnsorted | EmptyDomain | NonCanonicalDomain | UnknownDomain

  // ----- the parent relation -----

  /** by_id.get(id).and_then(parent): of several records with one id the last one counts. */
  function ParentOf(d: seq<Domain>, id: string): Option<string> {
    if d == [] then None
    else if d[|d| - 1].id == id then d[|d| - 1].parent
    else ParentOf(d[..|d| - 1], id)
  }

  lemma {:induction false} ParentIsLastRecords(d: seq<Domain>, id: string, i: nat)
    requires i < |d| && d[i].id == id && forall j :: i < j < |d| ==> d[j].id != id
    ensures ParentOf(d, id) == d[i].parent
    decreases |d|
  {
    if i < |d| - 1 {
      assert d[..|d| - 1][i] == d[i];
      ParentIsLastRecords(d[..|d| - 1], id, i);
    }
  }

  /** The n-th parent of x. */
  function Climb(d: seq<Domain>, x: string, n: nat): Option<string> {
    if n == 0 then Some(x)
    else if Climb(d, x, n - 1).None? then None
    else ParentOf(d, Climb(d, x, n - 1).value)
  }

  /** x is y or has y above it, at any height. */
  ghost predicate Descends(d: seq<Domain>, x: string, y: string) {
    y == "*" || x == y || exists n: nat :: n >= 1 && Climb(d, x, n) == Some(y)
  }

  lemma {:induction false} ClimbInTwo(d: seq<Domain>, x: string, m: nat, n: nat)
    requires Climb(d, x, m).Some?
    ensures Climb(d, x, m + n) == Climb(d, Climb(d, x, m).value, n)
  {
    if n > 0 { ClimbInTwo(d, x, m, n - 1); }
  }

  lemma {:induction false} ClimbEnds(d: seq<Domain>, x: string, m: nat, n: nat)
    requires m <= n && Climb(d, x, m).None?
    ensures Climb(d, x, n).None?
  {
    if m < n { ClimbEnds(d, x, m, n - 1); }
  }

  /** Once the climb comes back to where it has been, it meets nothing new. */
  lemma {:induction false} CycleMeetsNothingNew(d: seq<Domain>, x: string, y: string, m: nat, n: nat, k: nat)
    requires 1 <= m < n && Climb(d, x, m).Some? && Climb(d, x, m) == Climb(d, x, n)
    requires forall i: nat :: 1 <= i < n ==> Climb(d, x, i) != Some(y)
    requires k >= 1
    ensures Climb(d, x, k) != Some(y)
    decreases k
  {
    if k >= n {
      ClimbInTwo(d, x, n, k - n);
      ClimbInTwo(d, x, m, k - n);
      CycleMeetsNothingNew(d, x, y, m, n, m + (k - n));
    }
  }

  // ----- the walk -----

  function ParentVia(byId: map<string, Domain>, id: string): Option<string> {
    if id in byId then byId[id].parent else None
  }

  method IndexById(d: seq<Domain>) returns (byId: map<string, Domain>)
    ensures forall id :: ParentVia(byId, id) == ParentOf(d, id)
  {
    byId := map[];
    for i := 0 to |d|
      invariant forall id :: ParentVia(byId, id) == ParentOf(d[..i], id)
    {
      assert d[..i + 1][..i] == d[..i];
      byId := byId[d[i].id := d[i]];
    }
    assert d[..|d|] == d;
  }

  function Parents(d: seq<Domain>): set<string> {
    set r | r in d && r.parent.Some? :: r.parent.value
  }

  lemma {:induction false} ParentsBound(d: seq<Domain>, id: string)
    ensures ParentOf(d, id).Some? ==> ParentOf(d, id).value in Parents(d)
  {
    if d != [] {
      ParentsBound(d[..|d| - 1], id);
      assert d[|d| - 1] in d && forall r :: r in d[..|d| - 1] ==> r in d;
    }
  }

  /** is_descendant_or_same: the set of seen parents ends the walk on cyclic data, and it still decides exactly the
      transitive closure of the parent relation. */
  method IsDescendantOrSame(d: seq<Domain>, x: string, y: string) returns (r: bool)
    ensures r == Descends(d, x, y)
  {
    if y == "*" || x == y {
      return true;
    }
    var byId := IndexById(d);
    var current := ParentVia(byId, x);
    var seen: set<string> := {};
    ghost var n: nat := 1;
    assert Climb(d, x, 0) == Some(x);
    while current.Some?
      invariant n >= 1 && current == Climb(d, x, n)
      invariant forall i: nat :: 1 <= i < n ==> Climb(d, x, i) != Some(y)
      invariant forall p :: p in seen ==> exists i: nat :: 1 <= i < n && Climb(d, x, i) == Some(p)
      invariant seen <= Parents(d)
      decreases |Parents(d)| - |seen|, current.Some?
    {
      var parent := current.value;
      if parent == y {
        return true;
      }
      if parent in seen {
        ghost var m: nat :| 1 <= m < n && Climb(d, x, m) == Some(parent);
        forall k: nat | k >= 1 ensures Climb(d, x, k) != Some(y) { CycleMeetsNothingNew(d, x, y, m, n, k); }
        return false;
      }
      assert Climb(d, x, n - 1).Some?;
      ParentsBound(d, Climb(d, x, n - 1).value);
      SubsetSize(seen + {parent}, Parents(d));
      seen := seen + {parent};
      current := ParentVia(byId, parent);
      n := n + 1;
    }
    forall k: nat | k >= n ensures Climb(d, x, k).None? { ClimbEnds(d, x, n, k); }
    return false;
  }

  // ----- names -----

  predicate Named(r: Domain, value: string) {
    r.id == value || value in r.aliases
  }

  /** normalize_domain: the id of the first domain with this id or alias. */
  function Normalize(d: seq<Domain>, value: string): (r: Option<string>)
    ensures r.None? <==> forall i :: 0 <= i < |d| ==> !Named(d[i], value)
    ensures r.Some? ==> exists i :: 0 <= i < |d| && Named(d[i], value) && r.value == d[i].id
                                    && forall j :: 0 <= j < i ==> !Named(d[j], value)
  {
    if d == [] then None
    else if Named(d[0], value) then Some(d[0].id)
    else
      var r := Normalize(d[1..], value);
      NotFirst(d, value);
      r
  }

  /** The first domain of the rest that has the name is the first of all, if the head has not. */
  lemma NotFirst(d: seq<Domain>, value: string)
    requires d != [] && !Named(d[0], value)
    ensures (forall i :: 0 <= i < |d[1..]| ==> !Named(d[1..][i], value)) <==> forall i :: 0 <= i < |d| ==> !Named(d[i], value)
    ensures forall i :: 0 <= i < |d[1..]| && Named(d[1..][i], value) && (forall j :: 0 <= j < i ==> !Named(d[1..][j], value)) ==>
              d[1..][i] == d[i + 1] && forall j :: 0 <= j < i + 1 ==> !Named(d[j], value)
  {
    assert forall i :: 0 < i < |d| ==> d[i] == d[1..][i - 1];
  }

  /** matches('.').count() */
  function Dots(s: string): nat {
    if s == [] then 0 else (if s[0] == '.' then 1 else 0) + Dots(s[1..])
  }

  predicate TwoDots(s: string) {
    exists i, j :: 0 <= i < j < |s| && s[i] == '.' && s[j] == '.'
  }

  lemma {:induction false} DotsExactly(s: string)
    ensures Dots(s) == 0 <==> '.' !in s
    ensures Dots(s) > 1 <==> TwoDots(s)
  {
    if s != [] {
      DotsExactly(s[1..]);
      if TwoDots(s) {
        var i, j :| 0 <= i < j < |s| && s[i] == '.' && s[j] == '.';
        assert s[1..][j - 1] == '.';
        if i > 0 { assert s[1..][i - 1] == '.'; }
      }
      if TwoDots(s[1..]) {
        var i, j :| 0 <= i < j < |s[1..]| && s[1..][i] == '.' && s[1..][j] == '.';
        assert s[i + 1] == '.' && s[j + 1] == '.';
      }
      if s[0] == '.' && '.' in s[1..] {
        var j :| 0 <= j < |s[1..]| && s[1..][j] == '.';
        assert s[0] == '.' && s[j + 1] == '.';
      }
    }
  }

  /** What is wrong with a single name, looked for in this order. */
  function DomainFault(d: seq<Domain>, name: string): (r: Option<DomainError>)
    ensures r.None? <==> name != "" && Normalize(d, name) == Some(name) && !TwoDots(name)
    ensures r == Some(EmptyDomain) <==> name == ""
    ensures r == Some(UnknownDomain) <==> name != "" && forall i :: 0 <= i < |d| ==> !Named(d[i], name)
    ensures r.Some? ==> r.value in {EmptyDomain, UnknownDomain, NonCanonicalDomain}
  {
    DotsExactly(name);
    if name == "" then Some(EmptyDomain)
    else if Normalize(d, name).None? then Some(UnknownDomain)
    else if Normalize(d, name) != Some(name) then Some(NonCanonicalDomain)
    else if Dots(name) > 1 then Some(NonCanonicalDomain)
    else None
  }

  /** Canonical names with at most one dot, strictly ascending; or the wildcard alone; or nothing. */
  ghost predicate ValidList(d: seq<Domain>, names: seq<string>) {
    || names == [] || names == ["*"]
    || ("*" !in names && (forall i :: 0 <= i < |names| ==> DomainFault(d, names[i]).None?) && Ascending(names, Codes))
  }

  /** The check on adjacent pairs settles the whole order. */
  method StrictlyAscending(names: seq<string>) returns (r: bool)
    ensures r == Ascending(names, Codes)
  {
    var i := 1;
    while i < |names|
      invariant i >= 1
      invariant forall j, k :: 0 <= j < k < i && k < |names| ==> Less(Codes(names[j]), Codes(names[k]))
    {
      if !Less(Codes(names[i - 1]), Codes(names[i])) {
        return false;
      }
      forall j | 0 <= j < i ensures Less(Codes(names[j]), Codes(names[i])) {
        if j < i - 1 { LessIsTransitive(Codes(names[j]), Codes(names[i - 1]), Codes(names[i])); }
      }
      i := i + 1;
    }
    return true;
  }

  /** validate_authorized_domains: gives back exactly the valid lists, unchanged. */
  method ValidateAuthorizedDomains(d: seq<Domain>, names: seq<string>) returns (r: Result<seq<string>, DomainError>)
    ensures r.Ok? <==> ValidList(d, names)
    ensures r.Ok? ==> r.value == names
    ensures r == Err(WildcardMixed) <==> "*" in names && |names| > 1
    ensures r.Err? && "*" !in names ==>
              || (r.error == DuplicateOrUnsorted && forall i :: 0 <= i < |names| ==> DomainFault(d, names[i]).None?)
              || exists i :: 0 <= i < |names| && DomainFault(d, names[i]) == Some(r.error)
                             && forall j :: 0 <= j < i ==> DomainFault(d, names[j]).None?
  {
    if names == [] {
      return Ok([]);
    }
    if "*" in names {
      if |names| == 1 {
        assert names == ["*"];
        return Ok(["*"]);
      }
      return Err(WildcardMixed);
    }
    var normalized: seq<string> := [];
    for i := 0 to |names|
      invariant normalized == names[..i]
      invariant forall j :: 0 <= j < i ==> DomainFault(d, names[j]).None?
    {
      if names[i] == "" {
        return Err(EmptyDomain);
      }
      var canonical := Normalize(d, names[i]);
      if canonical.None? {
        return Err(UnknownDomain);
      }
      if canonical.value != names[i] || Dots(canonical.value) > 1 {
        return Err(NonCanonicalDomain);
      }
      normalized := normalized + [canonical.value];
    }
    assert normalized == names;
    var ascending := StrictlyAscending(normalized);
    if !ascending {
      return Err(DuplicateOrUnsorted);
    }
    r := Ok(normalized);
  }

  // ----- coverage -----

  ghost predicate CoversOne(d: seq<Domain>, name: string, granted: string) {
    && Normalize(d, name).Some? && Normalize(d, granted).Some?
    && Descends(d, Normalize(d, name).value, Normalize(d, granted).value)
  }

  ghost predicate SomeCovers(d: seq<Domain>, name: string, granted: seq<string>) {
    exists g :: g in granted && CoversOne(d, name, g)
  }

  ghost predicate Covers(d: seq<Domain>, requested: seq<string>, granted: seq<string>) {
    || requested == [] || "*" in granted
    || forall r :: r in requested ==> SomeCovers(d, r, granted)
  }

  lemma NoneCovers(d: seq<Domain>, name: string)
    ensures !SomeCovers(d, name, [])
  {
  }

  /** covers_authorized_domains */
  method CoversAuthorizedDomains(d: seq<Domain>, requested: seq<string>, granted: seq<string>) returns (r: bool)
    ensures r == Covers(d, requested, granted)
  {
    if requested == [] {
      return true;
    }
    if "*" in granted {
      return true;
    }
    hide SomeCovers;
    if granted == [] {
      NoneCovers(d, requested[0]);
      assert requested[0] in requested;
      return false;
    }
    for i := 0 to |requested|
      invariant forall j :: 0 <= j < i ==> SomeCovers(d, requested[j], granted)
    {
      var any := AnyCovers(d, requested[i], granted);
      if !any {
        assert requested[i] in requested;
        return false;
      }
    }
    return true;
  }

  /** One requested domain against all granted ones. */
  method AnyCovers(d: seq<Domain>, requested: string, granted: seq<string>) returns (any: bool)
    ensures any == SomeCovers(d, requested, granted)
  {
    hide Descends;
    var normalized := Normalize(d, requested);
    if normalized.None? {
      return false;
    }
    for k := 0 to |granted|
      invariant forall l :: 0 <= l < k ==> !CoversOne(d, requested, granted[l])
    {
      var grant := Normalize(d, granted[k]);
      if grant.Some? {
        var descends := IsDescendantOrSame(d, normalized.value, grant.value);
        if descends {
          assert granted[k] in granted;
          return true;
        }
      }
    }
    return false;
  }

  lemma DescendsIsTransitive(d: seq<Domain>, x: string, y: string, z: string)
    requires Descends(d, x, y) && Descends(d, y, z) && y != "*"
    ensures Descends(d, x, z)
  {
    if x != y && y != z && z != "*" {
      var m: nat :| m >= 1 && Climb(d, x, m) == Some(y);
      var n: nat :| n >= 1 && Climb(d, y, n) == Some(z);
      ClimbInTwo(d, x, m, n);
      assert Climb(d, x, m + n) == Some(z);
    }
  }

  /** Coverage goes by what the names stand for: names of the same domains are covered alike, and a grant for a
      domain's parent, under any of its names, covers the domain, under any of its own. */
  lemma CoverageGoesByDomains(d: seq<Domain>, a: string, b: string, a': string, b': string)
    ensures Normalize(d, a) == Normalize(d, a') && Normalize(d, b) == Normalize(d, b') ==>
              (CoversOne(d, a, b) <==> CoversOne(d, a', b'))
    ensures Normalize(d, a).Some? && Normalize(d, b).Some? && ParentOf(d, Normalize(d, a).value) == Normalize(d, b) ==>
              CoversOne(d, a, b)
  {
    if Normalize(d, a).Some? && Normalize(d, b).Some? && ParentOf(d, Normalize(d, a).value) == Normalize(d, b) {
      var x := Normalize(d, a).value;
      assert Climb(d, x, 0) == Some(x);
      assert Climb(d, x, 1) == Normalize(d, b);
    }
  }

  // ----- when coverage composes -----

  /** All ids and aliases. */
  function Names(d: seq<Domain>): seq<string> {
    if d == [] then [] else [d[0].id] + d[0].aliases + Names(d[1..])
  }

  lemma {:induction false} NamesAreKnown(d: seq<Domain>, g: string)
    ensures g in Names(d) <==> Normalize(d, g).Some?
  {
    if d != [] { NamesAreKnown(d[1..], g); }
  }

  /** No other name of the taxonomy covers "*": either "*" is no id or alias, or its domain has no other name for
      itself or anything above it. */
  ghost predicate StarStandsAlone(d: seq<Domain>) {
    forall g :: g in Names(d) && g != "*" ==> !CoversOne(d, "*", g)
  }

  ghost predicate CoverageComposes(d: seq<Domain>) {
    forall a, b, c :: Covers(d, a, b) && Covers(d, b, c) ==> Covers(d, a, c)
  }

  /** One link through h, where h and g are not spelled "*". */
  lemma CoversOneComposes(d: seq<Domain>, r: string, h: string, g: string)
    requires StarStandsAlone(d) && CoversOne(d, r, h) && CoversOne(d, h, g) && h != "*"
    ensures CoversOne(d, r, g)
  {
    NamesAreKnown(d, h);
    assert Normalize(d, h).value == "*" ==> CoversOne(d, "*", h);
    DescendsIsTransitive(d, Normalize(d, r).value, Normalize(d, h).value, Normalize(d, g).value);
  }

  lemma CoverageComposesIfAlone(d: seq<Domain>, a: seq<string>, b: seq<string>, c: seq<string>)
    requires StarStandsAlone(d) && Covers(d, a, b) && Covers(d, b, c)
    ensures Covers(d, a, c)
  {
    if a != [] && "*" !in c {
      assert a[0] in a;
      if "*" in b {
        var g :| g in c && CoversOne(d, "*", g);
        NamesAreKnown(d, g);
        assert false;
      }
      forall r | r in a ensures SomeCovers(d, r, c) {
        var h :| h in b && CoversOne(d, r, h);
        var g :| g in c && CoversOne(d, h, g);
        CoversOneComposes(d, r, h, g);
      }
    }
  }

  function Longest(names: seq<string>): (n: nat)
    ensures forall s :: s in names ==> |s| <= n
  {
    if names == [] then 0
    else
      assert names == [names[0]] + names[1..];
      if |names[0]| > Longest(names[1..]) then |names[0]| else Longest(names[1..])
  }

  lemma UnknownName(d: seq<Domain>) returns (u: string)
    ensures Normalize(d, u).None? && u != "*"
  {
    u := seq(Longest(Names(d)) + 2, _ => 'x');
    NamesAreKnown(d, u);
  }

  /** Any other name that covers "*" breaks the chain: an unknown name is covered by the wildcard, and the wildcard,
      requested by that spelling, by the other name. */
  lemma StarBreaksTransitivity(d: seq<Domain>, g: string) returns (a: seq<string>, b: seq<string>, c: seq<string>)
    requires g != "*" && CoversOne(d, "*", g)
    ensures Covers(d, a, b) && Covers(d, b, c) && !Covers(d, a, c)
  {
    var u := UnknownName(d);
    a, b, c := [u], ["*"], [g];
    assert u in a;
    assert forall n :: n in c ==> !CoversOne(d, u, n);
  }

  /** Coverage composes over a taxonomy if and only if "*" stands alone in it. */
  lemma CoverageComposesExactly(d: seq<Domain>)
    ensures CoverageComposes(d) <==> StarStandsAlone(d)
  {
    if StarStandsAlone(d) {
      forall a, b, c | Covers(d, a, b) && Covers(d, b, c) ensures Covers(d, a, c) {
        CoverageComposesIfAlone(d, a, b, c);
      }
    } else {
      var g :| g in Names(d) && g != "*" && CoversOne(d, "*", g);
      var a, b, c := StarBreaksTransitivity(d, g);
      assert !CoverageComposes(d);
    }
  }

  /** In particular where "*" names no domain. */
  lemma CoverageIsTransitive(d: seq<Domain>, a: seq<string>, b: seq<string>, c: seq<string>)
    requires Normalize(d, "*").None?
    requires Covers(d, a, b) && Covers(d, b, c)
    ensures Covers(d, a, c)
  {
    CoverageComposesIfAlone(d, a, b, c);
  }

  /** Every list of known names covers itself; a larger grant covers what a smaller one does, and a smaller request
      is covered where a larger one is. */
  lemma CoverageIsReflexiveAndMonotone(
    d: seq<Domain>, known: seq<string>, requested: seq<string>, granted: seq<string>, fewer: seq<string>, more: seq<string>)
    requires forall r :: r in known ==> Normalize(d, r).Some?
    requires Covers(d, requested, granted)
    requires (forall r :: r in fewer ==> r in requested) && (forall g :: g in granted ==> g in more)
    ensures Covers(d, known, known)
    ensures Covers(d, fewer, more)
  {
    hide Normalize;
    forall r | r in known ensures SomeCovers(d, r, known) {
      assert CoversOne(d, r, r);
    }
    if fewer != [] {
      assert fewer[0] in fewer;
      if "*" !in granted {
        forall r | r in fewer ensures SomeCovers(d, r, more) {
          var g :| g in granted && CoversOne(d, r, g);
          assert g in more;
        }
      }
    }
  }
}
