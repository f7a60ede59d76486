/** Flattening the taxonomy tree into the domain list, and the list's walk against the tree. */
module TaxonomyTree {
  import opened Wrappers
  import opened Order
  import opened Taxonomy

  datatype Node = Node(id: string, caption: string, children: seq<Node>)

  /** What the recursive walk pushes for a forest below one parent. */
  function Flat(f: seq<Node>, parent: Option<string>): seq<Domain>
    decreases f
  {
    if f == [] then []
    else [Domain(f[0].id, f[0].caption, parent, [])] + Flat(f[0].children, Some(f[0].id)) + Flat(f[1..], parent)
  }

  class TaxonomyIndex {
    var domains: seq<Domain>
    var tree: seq<Node>

    constructor (tree: seq<Node>)
      ensures this.tree == tree && domains == []
    {
      this.tree := tree;
      domains := [];
    }

    /** flatten_tree: only an empty domain list is filled in. */
    method FlattenTree()
      modifies `domains
      ensures domains == if old(domains) == [] then Flat(tree, None) else old(domains)
    {
      if domains != [] || tree == [] {
        return;
      }
      for i := 0 to |tree|
        invariant domains == Flat(tree[..i], None)
      {
        assert tree[..i + 1] == tree[..i] + [tree[i]];
        FlatInTwo(tree[..i], [tree[i]], None);
        Walk(tree[i], None);
      }
      assert tree[..|tree|] == tree;
    }

    method Walk(node: Node, parent: Option<string>)
      modifies `domains
      ensures domains == old(domains) + Flat([node], parent)
      decreases node
    {
      domains := domains + [Domain(node.id, node.caption, parent, [])];
      var children := node.children;
      for i := 0 to |children|
        invariant domains == old(domains) + [Domain(node.id, node.caption, parent, [])] + Flat(children[..i], Some(node.id))
      {
        assert children[..i + 1] == children[..i] + [children[i]];
        FlatInTwo(children[..i], [children[i]], Some(node.id));
        Walk(children[i], Some(node.id));
      }
      assert children[..|children|] == children;
      assert Flat([node][1..], parent) == [];
    }
  }

  lemma {:induction false} FlatInTwo(a: seq<Node>, b: seq<Node>, parent: Option<string>)
    ensures Flat(a + b, parent) == Flat(a, parent) + Flat(b, parent)
  {
    if a == [] {
      assert a + b == b;
    } else {
      assert (a + b)[1..] == a[1..] + b;
      FlatInTwo(a[1..], b, parent);
    }
  }

  // ----- the tree's own order and ancestry -----

  function PreOrder(f: seq<Node>): seq<string>
    decreases f
  {
    if f == [] then [] else [f[0].id] + PreOrder(f[0].children) + PreOrder(f[1..])
  }

  /** No id occurs twice. */
  predicate UniqueIds(f: seq<Node>)
    decreases f
  {
    f != [] ==>
      && f[0].id !in PreOrder(f[0].children) && f[0].id !in PreOrder(f[1..])
      && (forall x :: x in PreOrder(f[0].children) ==> x !in PreOrder(f[1..]))
      && UniqueIds(f[0].children) && UniqueIds(f[1..])
  }

  /** Some node named y has x somewhere below it. */
  predicate IsAncestor(f: seq<Node>, y: string, x: string)
    decreases f
  {
    f != [] && ((f[0].id == y && x in PreOrder(f[0].children))
                || IsAncestor(f[0].children, y, x) || IsAncestor(f[1..], y, x))
  }

  /** The ids above x, nearest first. */
  function Path(f: seq<Node>, x: string): seq<string>
    decreases f
  {
    if f == [] || f[0].id == x then []
    else if x in PreOrder(f[0].children) then Path(f[0].children, x) + [f[0].id]
    else Path(f[1..], x)
  }

  lemma {:induction false} AncestorHoldsIt(f: seq<Node>, y: string, x: string)
    requires IsAncestor(f, y, x)
    ensures x in PreOrder(f)
    decreases f
  {
    if IsAncestor(f[0].children, y, x) { AncestorHoldsIt(f[0].children, y, x); }
    else if IsAncestor(f[1..], y, x) { AncestorHoldsIt(f[1..], y, x); }
  }

  lemma {:induction false} PathIsAncestors(f: seq<Node>, y: string, x: string)
    requires UniqueIds(f) && x in PreOrder(f)
    ensures y in Path(f, x) <==> IsAncestor(f, y, x)
    decreases f
  {
    if IsAncestor(f[0].children, y, x) { AncestorHoldsIt(f[0].children, y, x); }
    if IsAncestor(f[1..], y, x) { AncestorHoldsIt(f[1..], y, x); }
    if f[0].id != x {
      if x in PreOrder(f[0].children) {
        PathIsAncestors(f[0].children, y, x);
      } else {
        PathIsAncestors(f[1..], y, x);
      }
    }
  }

  /** The path of the nearest ancestor is the rest of the path. */
  lemma {:induction false} PathGoesOn(f: seq<Node>, x: string)
    requires UniqueIds(f) && x in PreOrder(f) && Path(f, x) != []
    ensures Path(f, x)[0] in PreOrder(f) && Path(f, Path(f, x)[0]) == Path(f, x)[1..]
    decreases f
  {
    if x in PreOrder(f[0].children) {
      if Path(f[0].children, x) != [] { PathGoesOn(f[0].children, x); }
    } else {
      PathGoesOn(f[1..], x);
    }
  }

  // ----- the list's ids and parents -----

  function Ids(d: seq<Domain>): seq<string> {
    if d == [] then [] else [d[0].id] + Ids(d[1..])
  }

  lemma {:induction false} IdsInTwo(a: seq<Domain>, b: seq<Domain>)
    ensures Ids(a + b) == Ids(a) + Ids(b)
  {
    if a == [] {
      assert a + b == b;
    } else {
      assert (a + b)[1..] == a[1..] + b;
      IdsInTwo(a[1..], b);
    }
  }

  /** The list's ids, in order. */
  lemma {:induction false} FlatIds(f: seq<Node>, parent: Option<string>)
    ensures Ids(Flat(f, parent)) == PreOrder(f)
    decreases f
  {
    if f != [] {
      var head := [Domain(f[0].id, f[0].caption, parent, [])];
      FlatIds(f[0].children, Some(f[0].id));
      FlatIds(f[1..], parent);
      IdsInTwo(head + Flat(f[0].children, Some(f[0].id)), Flat(f[1..], parent));
      IdsInTwo(head, Flat(f[0].children, Some(f[0].id)));
      assert Ids(head) == [f[0].id];
    }
  }

  // ----- each node once -----

  lemma NoDuplicatesInTwo(a: seq<string>, b: seq<string>)
    ensures NoDuplicates(a + b) <==> NoDuplicates(a) && NoDuplicates(b) && forall y :: y in a ==> y !in b
  {
    var s := a + b;
    if NoDuplicates(s) {
      forall i, j | 0 <= i < j < |b| ensures b[i] != b[j] { assert s[|a| + i] != s[|a| + j]; }
      forall i, j | 0 <= i < j < |a| ensures a[i] != a[j] { assert s[i] != s[j]; }
      forall i, j | 0 <= i < |a| && 0 <= j < |b| ensures a[i] != b[j] { assert s[i] != s[|a| + j]; }
    }
    if NoDuplicates(a) && NoDuplicates(b) && forall y :: y in a ==> y !in b {
      forall i, j | 0 <= i < j < |s| ensures s[i] != s[j] {
        if i < |a| <= j { assert a[i] in a && b[j - |a|] in b; }
      }
    }
  }

  /** A forest's ids are unique exactly when its flat list names no id twice. */
  lemma {:induction false} UniqueIdsExactly(f: seq<Node>, parent: Option<string>)
    ensures UniqueIds(f) <==> NoDuplicates(Ids(Flat(f, parent)))
    decreases f
  {
    FlatIds(f, parent);
    if f != [] {
      var id, below, rest := f[0].id, PreOrder(f[0].children), PreOrder(f[1..]);
      UniqueIdsExactly(f[0].children, Some(id));
      UniqueIdsExactly(f[1..], parent);
      FlatIds(f[0].children, Some(id));
      FlatIds(f[1..], parent);
      NoDuplicatesInTwo([id] + below, rest);
      NoDuplicatesInTwo([id], below);
    }
  }

  // ----- pre-order -----

  /** The node reached by child positions from the top. */
  function At(f: seq<Node>, place: seq<int>): Option<Node>
    decreases |place|
  {
    if place == [] || !(0 <= place[0] < |f|) then None
    else if |place| == 1 then Some(f[place[0]])
    else At(f[place[0]].children, place[1..])
  }

  /** What the tree says of the node in a place: its id and caption, and the id of the node one place up. */
  function DomainAt(f: seq<Node>, place: seq<int>, parent: Option<string>): Option<Domain> {
    var node := At(f, place);
    if node.None? then None
    else
      var up := At(f, place[..|place| - 1]);
      Some(Domain(node.value.id, node.value.caption,
                  if |place| == 1 then parent else if up.Some? then Some(up.value.id) else None, []))
  }

  function Itself(place: seq<int>): seq<int> { place }

  function Below(places: seq<seq<int>>): (r: seq<seq<int>>)
    ensures |r| == |places| && forall i :: 0 <= i < |r| ==> r[i] == [0] + places[i]
  {
    seq(|places|, i requires 0 <= i < |places| => [0] + places[i])
  }

  function OneOn(place: seq<int>): seq<int>
    requires place != []
  {
    [place[0] + 1] + place[1..]
  }

  function Beside(places: seq<seq<int>>): (r: seq<seq<int>>)
    requires forall i :: 0 <= i < |places| ==> places[i] != []
    ensures |r| == |places| && forall i :: 0 <= i < |r| ==> r[i] == OneOn(places[i])
  {
    seq(|places|, i requires 0 <= i < |places| => OneOn(places[i]))
  }

  function Places(f: seq<Node>): (r: seq<seq<int>>)
    ensures forall i :: 0 <= i < |r| ==> r[i] != [] && r[i][0] >= 0
    decreases f
  {
    if f == [] then [] else [[0]] + (Below(Places(f[0].children)) + Beside(Places(f[1..])))
  }

  lemma AtBelow(f: seq<Node>, q: seq<int>, parent: Option<string>)
    requires f != [] && q != []
    ensures At(f, [0] + q) == At(f[0].children, q)
    ensures DomainAt(f, [0] + q, parent) == DomainAt(f[0].children, q, Some(f[0].id))
  {
    assert ([0] + q)[1..] == q;
    assert ([0] + q)[..|q|] == [0] + q[..|q| - 1];
    assert ([0] + q[..|q| - 1])[1..] == q[..|q| - 1];
  }

  lemma AtBeside(f: seq<Node>, q: seq<int>, parent: Option<string>)
    requires f != [] && q != [] && q[0] >= 0
    ensures At(f, OneOn(q)) == At(f[1..], q) && DomainAt(f, OneOn(q), parent) == DomainAt(f[1..], q, parent)
  {
    SameBeside(f, q);
    if |q| > 1 {
      assert OneOn(q)[..|q| - 1] == OneOn(q[..|q| - 1]);
      SameBeside(f, q[..|q| - 1]);
    }
  }

  lemma SameBeside(f: seq<Node>, q: seq<int>)
    requires f != [] && q != [] && q[0] >= 0
    ensures At(f, OneOn(q)) == At(f[1..], q)
  {
    assert OneOn(q)[1..] == q[1..];
  }

  lemma PlaceOfThree(f: seq<Node>, place: seq<int>)
    requires f != []
    ensures place in Places(f) <==>
              place == [0] || place in Below(Places(f[0].children)) || place in Beside(Places(f[1..]))
  {
    hide Below, Beside;
    var below, beside := Below(Places(f[0].children)), Beside(Places(f[1..]));
    assert place in [[0]] + (below + beside) <==> place == [0] || place in below || place in beside;
  }

  lemma PlaceBelow(f: seq<Node>, q: seq<int>)
    requires f != [] && q != [] && (q in Places(f[0].children) <==> At(f[0].children, q).Some?)
    ensures [0] + q in Places(f) <==> At(f, [0] + q).Some?
  {
    hide Below, Beside, Places, DomainAt, At;
    PlaceOfThree(f, [0] + q);
    AtBelow(f, q, None);
    BelowHolds(Places(f[0].children), q);
    NotBeside(Places(f[1..]), [0] + q);
  }

  lemma PlaceBeside(f: seq<Node>, q: seq<int>)
    requires f != [] && q != [] && q[0] >= 0 && (q in Places(f[1..]) <==> At(f[1..], q).Some?)
    ensures OneOn(q) in Places(f) <==> At(f, OneOn(q)).Some?
  {
    hide Below, Beside, Places, DomainAt, At;
    PlaceOfThree(f, OneOn(q));
    AtBeside(f, q, None);
    BesideHolds(Places(f[1..]), q);
    NotBelow(Places(f[0].children), OneOn(q));
  }

  lemma PlaceOnTop(f: seq<Node>, place: seq<int>)
    requires f != [] && (place == [] || place[0] < 0 || place == [0])
    ensures place in Places(f) <==> At(f, place).Some?
  {
    hide Below, Beside, Places, DomainAt;
    PlaceOfThree(f, place);
    NotBeside(Places(f[1..]), place);
    NotBelow(Places(f[0].children), place);
  }

  /** The listing names exactly the places that hold a node. */
  lemma {:induction false} PlacesExactly(f: seq<Node>, place: seq<int>)
    ensures place in Places(f) <==> At(f, place).Some?
    decreases f, place
  {
    if f == [] {
    } else if |place| > 1 && place[0] == 0 {
      hide Places, At;
      assert place == [0] + place[1..];
      PlacesExactly(f[0].children, place[1..]);
      PlaceBelow(f, place[1..]);
    } else if place != [] && place[0] > 0 {
      hide Places, At;
      var q := [place[0] - 1] + place[1..];
      assert place == OneOn(q);
      PlacesExactly(f[1..], q);
      PlaceBeside(f, q);
    } else {
      assert place == [] || place[0] < 0 || place == [0];
      PlaceOnTop(f, place);
    }
  }

  lemma BelowHolds(places: seq<seq<int>>, q: seq<int>)
    ensures [0] + q in Below(places) <==> q in places
  {
    if q in places {
      var i :| 0 <= i < |places| && places[i] == q;
      assert Below(places)[i] == [0] + q;
    }
    if [0] + q in Below(places) {
      var i :| 0 <= i < |places| && Below(places)[i] == [0] + q;
      assert ([0] + places[i])[1..] == places[i] && ([0] + q)[1..] == q;
    }
  }

  lemma BesideHolds(places: seq<seq<int>>, q: seq<int>)
    requires q != [] && forall i :: 0 <= i < |places| ==> places[i] != []
    ensures OneOn(q) in Beside(places) <==> q in places
  {
    if q in places {
      var i :| 0 <= i < |places| && places[i] == q;
      assert Beside(places)[i] == OneOn(q);
    }
    if OneOn(q) in Beside(places) {
      var i :| 0 <= i < |places| && Beside(places)[i] == OneOn(q);
      assert OneOn(places[i])[1..] == places[i][1..] && OneOn(q)[1..] == q[1..] && OneOn(q)[0] == OneOn(places[i])[0];
      assert places[i] == [places[i][0]] + places[i][1..] && q == [q[0]] + q[1..];
    }
  }

  lemma NotBelow(places: seq<seq<int>>, place: seq<int>)
    requires forall i :: 0 <= i < |places| ==> places[i] != []
    requires place == [] || place[0] != 0 || |place| == 1
    ensures place !in Below(places)
  {
  }

  lemma NotBeside(places: seq<seq<int>>, place: seq<int>)
    requires forall i :: 0 <= i < |places| ==> places[i] != [] && places[i][0] >= 0
    requires place == [] || place[0] <= 0
    ensures place !in Beside(places)
  {
  }

  /** The listing is in lexicographic order: a node before its children, a child before its next sibling. */
  lemma {:induction false} PlacesAscend(f: seq<Node>)
    ensures Ascending(Places(f), Itself)
    decreases f
  {
    if f != [] {
      var c, r := Places(f[0].children), Places(f[1..]);
      PlacesAscend(f[0].children);
      PlacesAscend(f[1..]);
      forall i, j | 0 <= i < j < |c| ensures Less(Below(c)[i], Below(c)[j]) {
        LessAfterPrefix(0, c[i], 0, c[j]);
        assert Less(Itself(c[i]), Itself(c[j]));
      }
      forall i, j | 0 <= i < j < |r| ensures Less(Beside(r)[i], Beside(r)[j]) {
        LessAfterPrefix(r[i][0], r[i][1..], r[j][0], r[j][1..]);
        LessAfterPrefix(r[i][0] + 1, r[i][1..], r[j][0] + 1, r[j][1..]);
        assert r[i] == [r[i][0]] + r[i][1..] && r[j] == [r[j][0]] + r[j][1..];
        assert Less(Itself(r[i]), Itself(r[j]));
      }
      ThreeAscend(Below(c), Beside(r));
    }
  }

  lemma ThreeAscend(below: seq<seq<int>>, beside: seq<seq<int>>)
    requires Ascending(below, Itself) && Ascending(beside, Itself)
    requires forall i :: 0 <= i < |below| ==> |below[i]| > 1 && below[i][0] == 0
    requires forall i :: 0 <= i < |beside| ==> |beside[i]| > 0 && beside[i][0] > 0
    ensures Ascending([[0]] + (below + beside), Itself)
  {
    var all, n := [[0]] + (below + beside), |below|;
    forall i, j | 0 <= i < j < |all| ensures Less(Itself(all[i]), Itself(all[j])) {
      if i > 0 && j <= n {
        assert Less(Itself(below[i - 1]), Itself(below[j - 1]));
      } else if i > n {
        assert Less(Itself(beside[i - 1 - n]), Itself(beside[j - 1 - n]));
      } else if j <= n {
        assert all[j] == below[j - 1] && all[i] == [0];
      } else {
        assert all[j] == beside[j - 1 - n] && all[i][0] == 0;
      }
    }
  }

  lemma {:induction false} FlatByPlaces(f: seq<Node>, parent: Option<string>)
    ensures |Flat(f, parent)| == |Places(f)|
    ensures forall i :: 0 <= i < |Places(f)| ==> DomainAt(f, Places(f)[i], parent) == Some(Flat(f, parent)[i])
    decreases f
  {
    if f != [] {
      var c, r := Places(f[0].children), Places(f[1..]);
      var below, rest := Flat(f[0].children, Some(f[0].id)), Flat(f[1..], parent);
      FlatByPlaces(f[0].children, Some(f[0].id));
      FlatByPlaces(f[1..], parent);
      forall i | 0 <= i < |c| ensures DomainAt(f, Below(c)[i], parent) == Some(below[i]) { AtBelow(f, c[i], parent); }
      forall i | 0 <= i < |r| ensures DomainAt(f, Beside(r)[i], parent) == Some(rest[i]) { AtBeside(f, r[i], parent); }
      PutTogether(f, parent, Below(c), below, Beside(r), rest);
    }
  }

  lemma PutTogether(
    f: seq<Node>, parent: Option<string>, c: seq<seq<int>>, below: seq<Domain>, r: seq<seq<int>>, rest: seq<Domain>)
    requires f != [] && |c| == |below| && |r| == |rest|
    requires forall i :: 0 <= i < |c| ==> DomainAt(f, c[i], parent) == Some(below[i])
    requires forall i :: 0 <= i < |r| ==> DomainAt(f, r[i], parent) == Some(rest[i])
    ensures var places, flat := [[0]] + (c + r), [Domain(f[0].id, f[0].caption, parent, [])] + below + rest;
            |places| == |flat| && forall i :: 0 <= i < |places| ==> DomainAt(f, places[i], parent) == Some(flat[i])
  {
    assert At(f, [0]) == Some(f[0]);
  }

  /** The flat list is the pre-order listing: for the places of the forest in lexicographic order, it holds the
      domain the tree has in each place, with that node's id and caption and the id of the node above. */
  lemma FlatIsPreOrder(f: seq<Node>, parent: Option<string>, places: seq<seq<int>>)
    requires Ascending(places, Itself) && forall p :: p in places <==> At(f, p).Some?
    ensures |Flat(f, parent)| == |places|
    ensures forall i :: 0 <= i < |places| ==> DomainAt(f, places[i], parent) == Some(Flat(f, parent)[i])
  {
    PlacesAscend(f);
    forall p: seq<int> { PlacesExactly(f, p); }
    AscendingIsUnique(places, Places(f), Itself);
    FlatByPlaces(f, parent);
  }

  lemma {:induction false} ParentInTwo(a: seq<Domain>, b: seq<Domain>, id: string)
    ensures ParentOf(a + b, id) == if id in Ids(b) then ParentOf(b, id) else ParentOf(a, id)
    decreases |b|
  {
    if b == [] {
      assert a + b == a;
    } else {
      var front := b[..|b| - 1];
      assert (a + b)[..|a + b| - 1] == a + front;
      assert b == front + [b[|b| - 1]];
      IdsInTwo(front, [b[|b| - 1]]);
      assert Ids([b[|b| - 1]]) == [b[|b| - 1].id];
      ParentInTwo(a, front, id);
    }
  }

  lemma {:induction false} UnknownHasNoParent(d: seq<Domain>, id: string)
    requires id !in Ids(d)
    ensures ParentOf(d, id).None?
    decreases |d|
  {
    if d != [] {
      var front, last := d[..|d| - 1], d[|d| - 1];
      assert d == front + [last];
      IdsInTwo(front, [last]);
      assert Ids([last]) == [last.id];
      UnknownHasNoParent(front, id);
    }
  }

  /** In the flat list a node's parent is the node above it, or the parent given for the roots. */
  lemma {:induction false} FlatParent(f: seq<Node>, parent: Option<string>, x: string)
    requires UniqueIds(f) && x in PreOrder(f)
    ensures ParentOf(Flat(f, parent), x) == if Path(f, x) == [] then parent else Some(Path(f, x)[0])
    decreases f
  {
    var head := [Domain(f[0].id, f[0].caption, parent, [])];
    var below, rest := Flat(f[0].children, Some(f[0].id)), Flat(f[1..], parent);
    FlatIds(f[0].children, Some(f[0].id));
    FlatIds(f[1..], parent);
    ParentInTwo(head + below, rest, x);
    ParentInTwo(head, below, x);
    if x in PreOrder(f[0].children) {
      FlatParent(f[0].children, Some(f[0].id), x);
    } else if x in PreOrder(f[1..]) {
      FlatParent(f[1..], parent, x);
    }
  }

  lemma {:induction false} PathOfNth(f: seq<Node>, x: string, n: nat)
    requires UniqueIds(f) && x in PreOrder(f) && n < |Path(f, x)|
    ensures Path(f, x)[n] in PreOrder(f) && Path(f, Path(f, x)[n]) == Path(f, x)[n + 1..]
  {
    if n == 0 {
      PathGoesOn(f, x);
    } else {
      PathOfNth(f, x, n - 1);
      PathGoesOn(f, Path(f, x)[n - 1]);
    }
  }

  /** Climbing the flat list goes up the tree path, one id at a time. */
  lemma {:induction false} ClimbIsPath(f: seq<Node>, x: string, n: nat)
    requires UniqueIds(f) && x in PreOrder(f)
    ensures Climb(Flat(f, None), x, n) ==
              if n == 0 then Some(x) else if n <= |Path(f, x)| then Some(Path(f, x)[n - 1]) else None
  {
    if n == 1 {
      FlatParent(f, None, x);
      assert Climb(Flat(f, None), x, 0) == Some(x);
    } else if n > 1 {
      ClimbIsPath(f, x, n - 1);
      if n - 1 <= |Path(f, x)| {
        PathOfNth(f, x, n - 2);
        FlatParent(f, None, Path(f, x)[n - 2]);
      }
    }
  }

  /** The walk over the flattened tree answers yes for y above or at x in the tree, and for nothing else. */
  lemma FlatAgreesWithTree(f: seq<Node>, x: string, y: string)
    requires UniqueIds(f) && y != "*"
    ensures Descends(Flat(f, None), x, y) <==> x == y || IsAncestor(f, y, x)
  {
    var d := Flat(f, None);
    if x in PreOrder(f) {
      PathIsAncestors(f, y, x);
      forall n: nat | n >= 1 ensures Climb(d, x, n) == Some(y) ==> y in Path(f, x) { ClimbIsPath(f, x, n); }
      if y in Path(f, x) {
        var i :| 0 <= i < |Path(f, x)| && Path(f, x)[i] == y;
        ClimbIsPath(f, x, i + 1);
      }
    } else {
      if IsAncestor(f, y, x) { AncestorHoldsIt(f, y, x); }
      FlatIds(f, None);
      UnknownHasNoParent(d, x);
      assert Climb(d, x, 1) == ParentOf(d, x) by { assert Climb(d, x, 0) == Some(x); }
      forall n: nat | n >= 1 ensures Climb(d, x, n).None? { ClimbEnds(d, x, 1, n); }
    }
  }

  // ----- coverage over the tree -----

  lemma {:induction false} PlainNames(d: seq<Domain>, x: string)
    requires forall i :: 0 <= i < |d| ==> d[i].aliases == []
    ensures Normalize(d, x) == if x in Ids(d) then Some(x) else None
  {
    if d != [] { PlainNames(d[1..], x); }
  }

  lemma {:induction false} FlatHasNoAliases(f: seq<Node>, parent: Option<string>)
    ensures forall i :: 0 <= i < |Flat(f, parent)| ==> Flat(f, parent)[i].aliases == []
    decreases f
  {
    if f != [] {
      FlatHasNoAliases(f[0].children, Some(f[0].id));
      FlatHasNoAliases(f[1..], parent);
    }
  }

  /** In a flattened forest every id is its own canonical name, and there are no other names. */
  lemma NamesOfForest(f: seq<Node>, x: string)
    ensures Normalize(Flat(f, None), x) == if x in PreOrder(f) then Some(x) else None
  {
    FlatHasNoAliases(f, None);
    PlainNames(Flat(f, None), x);
    FlatIds(f, None);
  }

  /** A grant of y gives x: both are in the forest, and y is x or above it. */
  predicate Gives(f: seq<Node>, x: string, y: string) {
    x in PreOrder(f) && y in PreOrder(f) && (x == y || IsAncestor(f, y, x))
  }

  lemma CoversOneInForest(f: seq<Node>, x: string, y: string)
    requires UniqueIds(f) && "*" !in PreOrder(f)
    ensures CoversOne(Flat(f, None), x, y) <==> Gives(f, x, y)
  {
    NamesOfForest(f, x);
    NamesOfForest(f, y);
    hide Flat, Normalize, Descends, PreOrder, IsAncestor, UniqueIds;
    if y in PreOrder(f) { FlatAgreesWithTree(f, x, y); }
  }

  /** Coverage over a forest with unique ids, none of them "*": nothing was requested, or everything is granted, or
      each requested id has one granted to it or above it. */
  lemma CoverageFollowsTheTree(f: seq<Node>, requested: seq<string>, granted: seq<string>)
    requires UniqueIds(f) && "*" !in PreOrder(f)
    ensures Covers(Flat(f, None), requested, granted) <==>
              || requested == [] || "*" in granted
              || forall r :: r in requested ==> exists g :: g in granted && Gives(f, r, g)
  {
    hide Flat, Gives, UniqueIds, CoversOne;
    forall r, g ensures CoversOne(Flat(f, None), r, g) <==> Gives(f, r, g) { CoversOneInForest(f, r, g); }
    forall r ensures SomeCovers(Flat(f, None), r, granted) <==> exists g :: g in granted && Gives(f, r, g) {
      if SomeCovers(Flat(f, None), r, granted) {
        var g :| g in granted && CoversOne(Flat(f, None), r, g);
        assert Gives(f, r, g);
      }
      if g :| g in granted && Gives(f, r, g) {
        assert CoversOne(Flat(f, None), r, g);
      }
    }
  }

  /** Above in the tree goes one way only. */
  lemma AncestorsAreAbove(f: seq<Node>, x: string, y: string)
    requires UniqueIds(f) && IsAncestor(f, y, x)
    ensures x in PreOrder(f) && y in PreOrder(f) && x != y && !IsAncestor(f, x, y)
  {
    AncestorHoldsIt(f, y, x);
    PathIsAncestors(f, y, x);
    var n :| 0 <= n < |Path(f, x)| && Path(f, x)[n] == y;
    PathOfNth(f, x, n);
    if IsAncestor(f, x, y) {
      PathIsAncestors(f, x, y);
      var m :| 0 <= m < |Path(f, y)| && Path(f, y)[m] == x;
      PathOfNth(f, y, m);
      assert false;
    }
  }

  lemma CoverageOfOne(f: seq<Node>, x: string, y: string)
    requires UniqueIds(f) && "*" !in PreOrder(f)
    ensures Covers(Flat(f, None), [x], [y]) <==> y == "*" || Gives(f, x, y)
  {
    CoverageFollowsTheTree(f, [x], [y]);
    hide Covers, Flat, Gives, UniqueIds, PreOrder;
    assert x in [x] && y in [y] && ("*" in [y] <==> y == "*");
  }

  /** A grant for a domain gives those below it, and a grant for one below does not give it. */
  lemma GrantsGoDown(f: seq<Node>, x: string, y: string)
    requires UniqueIds(f) && "*" !in PreOrder(f) && IsAncestor(f, y, x)
    ensures Covers(Flat(f, None), [x], [y]) && !Covers(Flat(f, None), [y], [x])
  {
    hide Covers, Flat, IsAncestor, UniqueIds, PreOrder;
    AncestorsAreAbove(f, x, y);
    CoverageOfOne(f, x, y);
    CoverageOfOne(f, y, x);
  }
}
