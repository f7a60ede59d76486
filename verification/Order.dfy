/** The total orders behind every ORDER BY and every sort of the sources: positions are sequences of
    integers compared lexicographically, so a timestamp column followed by a text column is the
    timestamp followed by the code points of the text. */
module Order {

  predicate Less(a: seq<int>, b: seq<int>) {
    if b == [] then false
    else if a == [] then true
    else if a[0] != b[0] then a[0] < b[0]
    else Less(a[1..], b[1..])
  }

  predicate AtMost(a: seq<int>, b: seq<int>) {
    a == b || Less(a, b)
  }

  lemma {:induction false} LessIsTransitive(a: seq<int>, b: seq<int>, c: seq<int>)
    requires Less(a, b) && Less(b, c)
    ensures Less(a, c)
  {
    if a != [] && a[0] == b[0] == c[0] {
      LessIsTransitive(a[1..], b[1..], c[1..]);
    }
  }

  lemma {:induction false} LessIsTotal(a: seq<int>, b: seq<int>)
    ensures a == b || Less(a, b) || Less(b, a)
  {
    if a != [] && b != [] && a[0] == b[0] {
      LessIsTotal(a[1..], b[1..]);
      if a[1..] == b[1..] {
        assert a == [a[0]] + a[1..] && b == [b[0]] + b[1..];
      }
    }
  }

  lemma {:induction false} LessIsAsymmetric(a: seq<int>, b: seq<int>)
    requires Less(a, b)
    ensures !Less(b, a) && a != b
  {
    if a != [] && a[0] == b[0] {
      LessIsAsymmetric(a[1..], b[1..]);
    }
  }

  /** a sorts before b at the place where they first differ, or by ending there. */
  ghost predicate DiffersAt(a: seq<int>, b: seq<int>, i: int) {
    0 <= i <= |a| && i < |b| && a[..i] == b[..i] && (i == |a| || a[i] < b[i])
  }

  lemma DiffersLater(a: seq<int>, b: seq<int>, i: int)
    requires DiffersAt(a, b, i)
    ensures i > 0 ==> a != [] && a[0] == b[0]
  {
    assert i > 0 ==> a[..i][0] == a[0] && b[..i][0] == b[0];
  }

  /** The order is the lexicographic one. */
  lemma {:induction false} LessExactly(a: seq<int>, b: seq<int>)
    ensures Less(a, b) <==> exists i :: DiffersAt(a, b, i)
  {
    if a == [] || b == [] || a[0] != b[0] {
      if Less(a, b) { assert DiffersAt(a, b, 0); }
      if i :| DiffersAt(a, b, i) { DiffersLater(a, b, i); }
    } else {
      LessExactly(a[1..], b[1..]);
      if i :| DiffersAt(a[1..], b[1..], i) {
        assert a == [a[0]] + a[1..] && b == [b[0]] + b[1..];
        assert a[..i + 1] == [a[0]] + a[1..][..i] && b[..i + 1] == [b[0]] + b[1..][..i];
        assert DiffersAt(a, b, i + 1);
      }
      if i :| DiffersAt(a, b, i) {
        assert a[1..][..i - 1] == a[..i][1..] && b[1..][..i - 1] == b[..i][1..];
        assert DiffersAt(a[1..], b[1..], i - 1);
      }
    }
  }

  lemma NotLessItself(a: seq<int>)
    ensures !Less(a, a)
  {
    if Less(a, a) { LessIsAsymmetric(a, a); }
  }

  lemma LessAfterPrefix(u: int, a: seq<int>, v: int, b: seq<int>)
    ensures Less([u] + a, [v] + b) <==> u < v || (u == v && Less(a, b))
  {
    assert ([u] + a)[1..] == a && ([v] + b)[1..] == b;
  }

  /** The code points of a text: byte order of UTF-8 text is the order of its code points. */
  function Codes(s: string): seq<int> {
    seq(|s|, i requires 0 <= i < |s| => s[i] as int)
  }

  lemma CodesExactly(s: string, i: nat)
    requires i < |s|
    ensures |Codes(s)| == |s| && Codes(s)[i] == s[i] as int
  {
  }

  lemma CodesAreInjective(s: string, t: string)
    requires Codes(s) == Codes(t)
    ensures s == t
  {
    assert |Codes(s)| == |s| && |Codes(t)| == |t|;
    forall i | 0 <= i < |s| ensures s[i] == t[i] {
      assert Codes(s)[i] == Codes(t)[i];
    }
  }

  lemma SubsetSize<T>(a: set<T>, b: set<T>)
    requires a <= b
    ensures |a| <= |b|
  {
    assert b == a + (b - a);
  }

  /** Texts that agree up to i and differ there. */
  lemma TextsDifferAt(s: string, t: string, i: nat)
    requires i < |s| && i < |t| && s[..i] == t[..i] && s[i] < t[i]
    ensures Less(Codes(s), Codes(t))
  {
    forall j | 0 <= j < i ensures s[j] == t[j] { assert s[..i][j] == t[..i][j]; }
    assert Codes(s)[..i] == Codes(t)[..i];
    assert DiffersAt(Codes(s), Codes(t), i);
    LessExactly(Codes(s), Codes(t));
  }

  /** Neighbours in order are enough. */
  lemma {:induction false} NeighboursAscend(keys: seq<string>, i: nat, j: nat)
    requires forall m :: 0 <= m < |keys| - 1 ==> Less(Codes(keys[m]), Codes(keys[m + 1]))
    requires i < j < |keys|
    ensures Less(Codes(keys[i]), Codes(keys[j]))
    decreases j
  {
    hide Less, Codes;
    assert Less(Codes(keys[j - 1]), Codes(keys[j - 1 + 1]));
    if i < j - 1 {
      NeighboursAscend(keys, i, j - 1);
      LessIsTransitive(Codes(keys[i]), Codes(keys[j - 1]), Codes(keys[j]));
    }
  }

  predicate NoDuplicates<T(==)>(s: seq<T>) {
    forall i, j :: 0 <= i < j < |s| ==> s[i] != s[j]
  }

  // ----- sorting a set -----

  /** No two members share a position. */
  ghost predicate Separates<T(!new)>(pos: T -> seq<int>, s: set<T>) {
    forall x, y :: x in s && y in s && pos(x) == pos(y) ==> x == y
  }

  ghost predicate Ascending<T(!new)>(r: seq<T>, pos: T -> seq<int>) {
    forall i, j :: 0 <= i < j < |r| ==> Less(pos(r[i]), pos(r[j]))
  }

  predicate IsLeast<T(!new,==)>(m: T, s: set<T>, pos: T -> seq<int>) {
    m in s && forall y :: y in s ==> AtMost(pos(m), pos(y))
  }

  lemma AtMostIsTransitive(a: seq<int>, b: seq<int>, c: seq<int>)
    requires AtMost(a, b) && AtMost(b, c)
    ensures AtMost(a, c)
  {
    if a != b && b != c {
      LessIsTransitive(a, b, c);
    }
  }

  lemma LeastOfTwo<T(!new)>(m: T, n: T, s: set<T>, pos: T -> seq<int>)
    requires m in s && IsLeast(n, s - {m}, pos)
    ensures IsLeast(m, s, pos) || IsLeast(n, s, pos)
  {
    LessIsTotal(pos(m), pos(n));
    if AtMost(pos(m), pos(n)) {
      forall y | y in s ensures AtMost(pos(m), pos(y)) {
        if y != m {
          assert y in s - {m};
          AtMostIsTransitive(pos(m), pos(n), pos(y));
        }
      }
    }
  }

  lemma LeastExists<T(!new)>(s: set<T>, pos: T -> seq<int>) returns (m: T)
    requires s != {}
    ensures IsLeast(m, s, pos)
    decreases |s|
  {
    m :| m in s;
    if s - {m} != {} {
      var n := LeastExists(s - {m}, pos);
      LeastOfTwo(m, n, s, pos);
      if !IsLeast(m, s, pos) {
        m := n;
      }
    } else {
      assert s == {m};
    }
  }

  lemma LeastIsUnique<T(!new)>(m: T, n: T, s: set<T>, pos: T -> seq<int>)
    requires Separates(pos, s) && IsLeast(m, s, pos) && IsLeast(n, s, pos)
    ensures m == n
  {
    if pos(m) != pos(n) { LessIsAsymmetric(pos(m), pos(n)); }
  }

  lemma LeastFirst<T(!new)>(m: T, rest: seq<T>, s: set<T>, pos: T -> seq<int>)
    requires Separates(pos, s) && IsLeast(m, s, pos) && Ascending(rest, pos)
    requires forall x :: x in rest <==> x in s - {m}
    ensures Ascending([m] + rest, pos)
    ensures forall x :: x in [m] + rest <==> x in s
  {
    var all := [m] + rest;
    forall i, j | 0 <= i < j < |all| ensures Less(pos(all[i]), pos(all[j])) {
      assert all[j] == rest[j - 1] && rest[j - 1] in rest;
      if i > 0 { assert all[i] == rest[i - 1]; }
    }
  }

  /** ORDER BY: the members of a set in ascending position. */
  function SortBy<T(!new,==)>(s: set<T>, pos: T -> seq<int>): (r: seq<T>)
    requires Separates(pos, s)
    ensures Ascending(r, pos)
    ensures forall x :: x in r <==> x in s
    ensures |r| == |s|
    decreases |s|
  {
    if s == {} then [] else
      assert exists m :: IsLeast(m, s, pos) by { var m := LeastExists(s, pos); }
      assert forall m, n :: IsLeast(m, s, pos) && IsLeast(n, s, pos) ==> m == n by {
        forall m, n | IsLeast(m, s, pos) && IsLeast(n, s, pos) ensures m == n { LeastIsUnique(m, n, s, pos); }
      }
      var m :| m in s && IsLeast(m, s, pos);
      var rest := SortBy(s - {m}, pos);
      LeastFirst(m, rest, s, pos);
      [m] + rest
  }

  /** A set has one ascending listing. */
  lemma {:induction false} AscendingIsUnique<T(!new)>(a: seq<T>, b: seq<T>, pos: T -> seq<int>)
    requires Ascending(a, pos) && Ascending(b, pos)
    requires forall x :: x in a <==> x in b
    ensures a == b
  {
    if a == [] {
      assert forall i :: 0 <= i < |b| ==> b[i] in b;
    } else {
      assert a[0] in b && b != [] && b[0] in a;
      var i :| 0 <= i < |b| && b[i] == a[0];
      var j :| 0 <= j < |a| && a[j] == b[0];
      if i > 0 && j > 0 {
        LessIsAsymmetric(pos(a[0]), pos(a[j]));
      }
      assert a[0] == b[0];
      forall x ensures x in a[1..] <==> x in b[1..] {
        if x in a[1..] { RestExcludesHead(a, x, pos); }
        if x in b[1..] { RestExcludesHead(b, x, pos); }
      }
      AscendingIsUnique(a[1..], b[1..], pos);
      assert a == [a[0]] + a[1..] && b == [b[0]] + b[1..];
    }
  }

  lemma RestExcludesHead<T(!new)>(a: seq<T>, x: T, pos: T -> seq<int>)
    requires a != [] && Ascending(a, pos) && x in a[1..]
    ensures x != a[0] && x in a
  {
    var i :| 0 <= i < |a[1..]| && a[1..][i] == x;
    assert a[i + 1] == x;
    LessIsAsymmetric(pos(a[0]), pos(a[i + 1]));
  }

  lemma AscendingIsDistinct<T(!new)>(a: seq<T>, i: int, j: int, pos: T -> seq<int>)
    requires Ascending(a, pos) && 0 <= i < j < |a|
    ensures a[i] != a[j]
  {
    LessIsAsymmetric(pos(a[i]), pos(a[j]));
  }

  /** In an ascending listing, what sorts before the element at n is exactly what stands before n. */
  lemma BeforeIsPrefix<T(!new)>(a: seq<T>, n: nat, x: T, pos: T -> seq<int>)
    requires Ascending(a, pos) && n < |a| && x in a
    ensures Less(pos(x), pos(a[n])) <==> x in a[..n]
  {
    var i :| 0 <= i < |a| && a[i] == x;
    if i < n {
      assert a[..n][i] == x;
    } else {
      if Less(pos(x), pos(a[n])) {
        if i == n { LessIsAsymmetric(pos(x), pos(x)); } else { LessIsAsymmetric(pos(a[n]), pos(a[i])); }
      }
      forall j | 0 <= j < n ensures a[j] != x { AscendingIsDistinct(a, j, i, pos); }
    }
  }

  /** The number of distinct members of an ascending listing is its length. */
  lemma {:induction false} AscendingSize<T(!new)>(a: seq<T>, pos: T -> seq<int>)
    requires Ascending(a, pos)
    ensures |set x | x in a| == |a|
  {
    if a != [] {
      AscendingSize(a[1..], pos);
      forall x | x in a[1..] ensures x != a[0] { RestExcludesHead(a, x, pos); }
      assert (set x | x in a) == {a[0]} + (set x | x in a[1..]) by {
        assert a == [a[0]] + a[1..];
      }
    }
  }
}
