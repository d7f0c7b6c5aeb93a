/** The order in which a `std::map` keyed by strings is traversed. */
module Orders {

  /** `operator<` of `std::string`: strict lexicographic order. */
  predicate Less(a: string, b: string) {
    && b != ""
    && (a == "" || a[0] < b[0] || (a[0] == b[0] && Less(a[1..], b[1..])))
  }

  lemma {:induction false} LessIsTransitive(a: string, b: string, c: string)
    requires Less(a, b) && Less(b, c)
    ensures Less(a, c)
  {
    if a != "" && a[0] == b[0] == c[0] {
      LessIsTransitive(a[1..], b[1..], c[1..]);
    }
  }

  /** Exactly one of `Less(a, b)`, `a == b` and `Less(b, a)` holds. */
  lemma {:induction false} LessIsTrichotomous(a: string, b: string)
    ensures Less(a, b) || a == b || Less(b, a)
    ensures !(Less(a, b) && Less(b, a))
    ensures Less(a, b) ==> a != b
  {
    if a != "" && b != "" && a[0] == b[0] {
      LessIsTrichotomous(a[1..], b[1..]);
      assert a == [a[0]] + a[1..] && b == [b[0]] + b[1..];
    }
  }

  /** `a` ends where `b` goes on, or is smaller at the first character where they differ. */
  predicate PrecedesAt(a: string, b: string, n: nat) {
    && n <= |a| && n < |b| && a[..n] == b[..n]
    && (n == |a| || a[n] < b[n])
  }

  ghost predicate Precedes(a: string, b: string) {
    exists n :: PrecedesAt(a, b, n)
  }

  lemma {:induction false} LessPrecedes(a: string, b: string) returns (n: nat)
    requires Less(a, b)
    ensures PrecedesAt(a, b, n)
  {
    if a == "" || a[0] != b[0] {
      n := 0;
    } else {
      var k := LessPrecedes(a[1..], b[1..]);
      n := k + 1;
      SamePrefix(a, b, n);
    }
  }

  lemma SamePrefix(a: string, b: string, n: nat)
    requires 0 < n <= |a| && n <= |b| && a[0] == b[0] && a[1..][..n - 1] == b[1..][..n - 1]
    ensures a[..n] == b[..n]
  {
    assert a[..n] == [a[0]] + a[1..][..n - 1];
    assert b[..n] == [b[0]] + b[1..][..n - 1];
  }

  lemma {:induction false} PrecedesLess(a: string, b: string, n: nat)
    requires PrecedesAt(a, b, n)
    ensures Less(a, b)
  {
    if n > 0 {
      assert a[0] == a[..n][0] && b[0] == b[..n][0];
      assert a[1..][..n - 1] == a[..n][1..] && b[1..][..n - 1] == b[..n][1..];
      PrecedesLess(a[1..], b[1..], n - 1);
    }
  }

  /** The order is decided by the first character where two strings differ, and a proper prefix comes first. */
  lemma LessIsLexicographic(a: string, b: string)
    ensures Less(a, b) <==> Precedes(a, b)
  {
    if Less(a, b) {
      var n := LessPrecedes(a, b);
    }
    if n :| PrecedesAt(a, b, n) {
      PrecedesLess(a, b, n);
    }
  }

  /** Two strings that differ at a character are ordered by it, whatever follows, and a string precedes its extensions. */
  lemma FirstDifferenceDecides(p: string, c: char, x: string, d: char, y: string)
    ensures c < d ==> Less(p + [c] + x, p + [d] + y)
    ensures Less(p, p + [c] + x)
  {
    var a, b := p + [c] + x, p + [d] + y;
    assert a[..|p|] == p && b[..|p|] == p;
    PrecedesLess(p, a, |p|);
    if c < d {
      PrecedesLess(a, b, |p|);
    }
  }

  predicate Ascending(ks: seq<string>) {
    |ks| <= 1 || (Less(ks[0], ks[1]) && Ascending(ks[1..]))
  }

  lemma {:induction false} AscendingPairs(ks: seq<string>)
    requires Ascending(ks)
    ensures forall i, j :: 0 <= i < j < |ks| ==> Less(ks[i], ks[j])
  {
    if |ks| > 1 {
      AscendingPairs(ks[1..]);
      forall i, j | 0 <= i < j < |ks| ensures Less(ks[i], ks[j]) {
        assert ks[j] == ks[1..][j - 1];
        if i > 0 {
          assert ks[i] == ks[1..][i - 1];
        } else if j > 1 {
          LessIsTransitive(ks[0], ks[1], ks[j]);
        }
      }
    }
  }

  lemma {:induction false} PairsAscend(ks: seq<string>)
    requires forall i, j :: 0 <= i < j < |ks| ==> Less(ks[i], ks[j])
    ensures Ascending(ks)
  {
    if |ks| > 1 {
      PairsAscend(ks[1..]);
    }
  }

  predicate IsFirst(k: string, s: set<string>) {
    k in s && forall x :: x in s ==> x == k || Less(k, x)
  }

  lemma {:induction false} FirstExists(s: set<string>)
    requires s != {}
    ensures exists k :: IsFirst(k, s)
  {
    var x :| x in s;
    var rest := s - {x};
    if rest == {} {
      assert s == {x};
      assert IsFirst(x, s);
    } else {
      FirstExists(rest);
      var y :| IsFirst(y, rest);
      LessIsTrichotomous(x, y);
      if Less(y, x) {
        assert IsFirst(y, s);
      } else {
        forall z | z in rest ensures Less(x, z) {
          if z != y {
            LessIsTransitive(x, y, z);
          }
        }
        assert IsFirst(x, s);
      }
    }
  }

  /** Where a search over a `std::map` ends that looks for these keys. */
  ghost function FirstKey(s: set<string>): (k: string)
    requires s != {}
    ensures IsFirst(k, s)
  {
    FirstExists(s);
    var k :| IsFirst(k, s);
    k
  }

  lemma FirstIsUnique(s: set<string>, j: string, k: string)
    requires IsFirst(j, s) && IsFirst(k, s)
    ensures j == k
  {
    LessIsTrichotomous(j, k);
  }

  /** `ks` lists the elements of `s` in ascending order, each once. */
  ghost predicate Lists(ks: seq<string>, s: set<string>) {
    Ascending(ks) && |ks| == |s| && forall k :: k in ks <==> k in s
  }

  /** Every key comes before all later ones, decided by the first character where they differ. */
  ghost predicate InOrder(ks: seq<string>) {
    forall i, j :: 0 <= i < j < |ks| ==> Precedes(ks[i], ks[j])
  }

  lemma AscendingIsInOrder(ks: seq<string>)
    requires Ascending(ks)
    ensures InOrder(ks)
  {
    AscendingPairs(ks);
    forall i, j | 0 <= i < j < |ks| ensures Precedes(ks[i], ks[j]) {
      LessIsLexicographic(ks[i], ks[j]);
    }
  }

  /** A loop over a `std::map` visits its keys in ascending order. */
  method Iterate(s: set<string>) returns (ks: seq<string>)
    ensures Lists(ks, s)
  {
    ks := [];
    var rest := s;
    while rest != {}
      invariant rest <= s && |ks| + |rest| == |s|
      invariant forall k :: k in ks <==> k in s - rest
      invariant forall i, j :: 0 <= i < j < |ks| ==> Less(ks[i], ks[j])
      invariant forall i, x :: 0 <= i < |ks| && x in rest ==> Less(ks[i], x)
      decreases |rest|
    {
      FirstExists(rest);
      var k :| k in rest && forall x :: x in rest ==> x == k || Less(k, x);
      ks, rest := ks + [k], rest - {k};
    }
    PairsAscend(ks);
  }

  lemma {:induction false} ListingExists(s: set<string>)
    ensures exists ks :: Lists(ks, s)
  {
    if s == {} {
      assert Lists([], s);
    } else {
      FirstExists(s);
      var k :| IsFirst(k, s);
      ListingExists(s - {k});
      var ks :| Lists(ks, s - {k});
      assert ([k] + ks)[1..] == ks;
      assert |ks| > 0 ==> ks[0] in ks;
      assert Lists([k] + ks, s);
    }
  }

  /** The keys of a `std::map` in iteration order. */
  ghost function SortedKeys(s: set<string>): (ks: seq<string>)
    ensures Lists(ks, s)
  {
    ListingExists(s);
    var ks :| Lists(ks, s);
    ks
  }

  /** A set has only one ascending listing. */
  lemma {:induction false} AscendingIsUnique(a: seq<string>, b: seq<string>)
    requires Ascending(a) && Ascending(b)
    requires forall k :: k in a <==> k in b
    ensures a == b
  {
    if b != [] {
      CarriesOver(b, a);
    }
    if a != [] {
      CarriesOver(a, b);
      AscendingPairs(a);
      AscendingPairs(b);
      assert a[0] in a && b[0] in b;
      assert a[0] in b && b[0] in a;
      LessIsTrichotomous(a[0], b[0]);
      assert a[0] == b[0];
      forall k ensures k in a[1..] <==> k in b[1..] {
        TailMembers(a, k);
        TailMembers(b, k);
      }
      AscendingIsUnique(a[1..], b[1..]);
      assert a == [a[0]] + a[1..] && b == [b[0]] + b[1..];
    }
  }

  lemma CarriesOver(a: seq<string>, b: seq<string>)
    requires a != [] && forall k :: k in a ==> k in b
    ensures b != []
  {
    assert a[0] in a;
  }

  lemma TailMembers(a: seq<string>, k: string)
    requires Ascending(a) && a != []
    ensures k in a[1..] <==> (k in a && k != a[0])
  {
    AscendingPairs(a);
    if k in a[1..] {
      var i :| 0 <= i < |a| - 1 && a[1..][i] == k;
      LessIsTrichotomous(a[0], a[i + 1]);
    }
  }

  lemma AscendingSplit(e: seq<string>, n: nat)
    requires Ascending(e) && n <= |e|
    ensures Ascending(e[..n]) && Ascending(e[n..])
    ensures forall k :: k in e[n..] <==> k in e && k !in e[..n]
  {
    AscendingPairs(e);
    PairsAscend(e[..n]);
    PairsAscend(e[n..]);
    forall i, j | 0 <= i < n <= j < |e| ensures e[i] != e[j] {
      LessIsTrichotomous(e[i], e[j]);
    }
  }

  /** A key is met once in an iteration. */
  lemma Unvisited(ks: seq<string>, i: nat)
    requires Ascending(ks) && i < |ks|
    ensures ks[i] in ks && ks[i] !in ks[..i]
    ensures forall k :: k in ks[..i + 1] <==> k in ks[..i] || k == ks[i]
  {
    assert ks[..i + 1] == ks[..i] + [ks[i]];
    AscendingPairs(ks);
    forall j | 0 <= j < i ensures ks[j] != ks[i] {
      LessIsTrichotomous(ks[j], ks[i]);
    }
  }

  /** The first key of an iteration that satisfies a condition is the least such key. */
  lemma FirstOfIteration(ks: seq<string>, i: nat, s: set<string>)
    requires Ascending(ks) && i < |ks| && ks[i] in s
    requires forall k :: k in s ==> k in ks
    requires forall j :: 0 <= j < i ==> ks[j] !in s
    ensures IsFirst(ks[i], s)
  {
    AscendingPairs(ks);
  }
}
