/** The canonical query string of a request, sorted by parameter name. */
module CanonicalQuery {
  import opened Orders
  import opened StringUtils
  import opened HttpUtils

  /** The first `n` of the named parameters, in the given order. */
  function PairsFor(m: map<string, string>, ks: seq<string>): (ps: seq<Pair>)
    requires forall k :: k in ks ==> k in m
    ensures |ps| == |ks| && forall i :: 0 <= i < |ks| ==> ps[i] == Pair(ks[i], m[ks[i]])
  {
    seq(|ks|, i requires 0 <= i < |ks| => Pair(ks[i], m[ks[i]]))
  }

  /** The parameters in the order of their names. */
  ghost function SortedPairs(m: map<string, string>): seq<Pair> {
    PairsFor(m, SortedKeys(m.Keys))
  }

  ghost function Canonical(m: map<string, string>): string {
    JoinWith(TokensFor(SortedPairs(m)), '&')
  }

  /** Every token with its separator behind it, as the stream holds it. */
  function Terminated(ts: seq<string>, n: nat): string
    requires n <= |ts|
  {
    if n == 0 then "" else Terminated(ts, n - 1) + ts[n - 1] + "&"
  }

  lemma {:induction false} TerminatedIsJoin(ts: seq<string>, n: nat)
    requires 0 < n <= |ts|
    ensures Terminated(ts, n) == JoinWith(ts[..n], '&') + "&"
  {
    assert ts[..n] == ts[..n - 1] + [ts[n - 1]];
    JoinAppend(ts[..n - 1], ts[n - 1], '&');
    if n > 1 {
      TerminatedIsJoin(ts, n - 1);
    } else {
      assert Terminated(ts, 0) == "";
    }
  }

  lemma TerminatedStep(ts: seq<string>, i: nat, p: Pair)
    requires i < |ts| && ts[i] == Token(p)
    ensures Terminated(ts, i + 1) == Terminated(ts, i) + (p.name + "=" + p.value) + "&"
  {
  }

  method GetCanonicalQueryParameters(path: string) returns (canonicalParameterStr: string)
    requires WellFormedQuery(path)
    ensures canonicalParameterStr == Canonical(QueryParameters(path))
  {
    var queryParameters := GetQueryParameters(path);
    var ks := Iterate(queryParameters.Keys);
    AscendingIsUnique(ks, SortedKeys(queryParameters.Keys));
    ghost var ts := TokensFor(SortedPairs(queryParameters));
    canonicalParameterStr := "";
    for i := 0 to |ks|
      invariant canonicalParameterStr == Terminated(ts, i)
    {
      TerminatedStep(ts, i, Pair(ks[i], queryParameters[ks[i]]));
      canonicalParameterStr := canonicalParameterStr + (ks[i] + "=" + queryParameters[ks[i]]) + "&";
    }
    RemoveLast(ts, canonicalParameterStr);
    if Contains(canonicalParameterStr, "&") {
      canonicalParameterStr := canonicalParameterStr[..|canonicalParameterStr| - 1];
    }
  }

  lemma RemoveLast(ts: seq<string>, text: string)
    requires text == Terminated(ts, |ts|)
    ensures Contains(text, "&") ==> text != ""
    ensures JoinWith(ts, '&') == if Contains(text, "&") then text[..|text| - 1] else text
  {
    if ts != [] {
      TerminatedIsJoin(ts, |ts|);
      assert ts[..|ts|] == ts;
      assert OccursAt(text, "&", |text| - 1);
    } else {
      FindNoChar(text, '&');
    }
  }

  // ---- what a parsed query holds ----

  /** Names and values are free of both separators. */
  predicate HoldsFields(m: map<string, string>) {
    forall k :: k in m ==> IsField(k) && IsField(m[k])
  }

  lemma FreePart(token: string, c: char, d: char)
    requires Free(token, c)
    ensures AllFree(Tokens(token, d), c)
    decreases |token|
  {
    if token != "" {
      TokensStep(token, d);
      FreePart(AfterLine(token, d), c, d);
    }
  }

  lemma FieldsIn(tokens: seq<string>)
    requires AllPaired(tokens) && AllFree(tokens, '&')
    ensures AreFields(PairsIn(tokens))
  {
    forall i | 0 <= i < |tokens|
      ensures IsField(PairsIn(tokens)[i].name) && IsField(PairsIn(tokens)[i].value)
    {
      var token := tokens[i];
      assert Free(token, '&') && IsPaired(token);
      FreePart(token, '&', '=');
      TokensAreFree(token, '=');
      var parts := Tokens(token, '=');
      assert Free(parts[0], '&') && Free(parts[0], '=') && Free(parts[1], '&') && Free(parts[1], '=');
    }
  }

  lemma {:induction false} MapOfFields(ps: seq<Pair>, n: nat)
    requires n <= |ps| && AreFields(ps)
    ensures HoldsFields(MapOf(ps, n))
  {
    if n > 0 {
      MapOfFields(ps, n - 1);
    }
  }

  lemma QueryHoldsFields(uri: string)
    requires WellFormedQuery(uri)
    ensures HoldsFields(QueryParameters(uri))
  {
    TokensAreFree(GetQueryString(uri), '&');
    if Contains(uri, "?") {
      FieldsIn(QueryTokens(uri));
      MapOfFields(PairsIn(QueryTokens(uri)), |QueryTokens(uri)|);
    }
  }

  // ---- reading rendered pairs ----

  predicate HaveValues(ps: seq<Pair>) {
    forall i :: 0 <= i < |ps| ==> ps[i].value != ""
  }

  predicate DistinctNames(ps: seq<Pair>) {
    forall i, j :: 0 <= i < j < |ps| ==> ps[i].name != ps[j].name
  }

  /** Rendered pairs can be read exactly when every value is nonempty. */
  lemma RenderedIsPaired(ps: seq<Pair>)
    requires AreFields(ps)
    ensures AllPaired(TokensFor(ps)) <==> HaveValues(ps)
  {
    forall i | 0 <= i < |ps| ensures IsPaired(TokensFor(ps)[i]) <==> ps[i].value != "" {
      assert IsField(ps[i].name) && IsField(ps[i].value);
      PartsOfToken(ps[i]);
    }
  }

  lemma PairsOfRendered(ps: seq<Pair>)
    requires AreFields(ps) && HaveValues(ps) && AllPaired(TokensFor(ps))
    ensures PairsIn(TokensFor(ps)) == ps
  {
    forall i | 0 <= i < |ps| ensures PairsIn(TokensFor(ps))[i] == ps[i] {
      assert IsField(ps[i].name) && IsField(ps[i].value);
      PartsOfToken(ps[i]);
    }
  }

  /** `m` holds the first `n` pairs. */
  predicate HoldsPairs(m: map<string, string>, ps: seq<Pair>, n: nat)
    requires n <= |ps|
  {
    forall i :: 0 <= i < n ==> ps[i].name in m && m[ps[i].name] == ps[i].value
  }

  lemma {:induction false} MapHoldsPairs(ps: seq<Pair>, n: nat, k: string)
    requires n <= |ps| && DistinctNames(ps)
    ensures HoldsPairs(MapOf(ps, n), ps, n)
    ensures k in MapOf(ps, n) ==> exists i :: 0 <= i < n && ps[i].name == k
  {
    if n > 0 {
      MapHoldsPairs(ps, n - 1, k);
      OneMorePair(MapOf(ps, n - 1), ps, n - 1);
    }
  }

  lemma OneMorePair(m: map<string, string>, ps: seq<Pair>, n: nat)
    requires n < |ps| && DistinctNames(ps) && HoldsPairs(m, ps, n)
    ensures HoldsPairs(m[ps[n].name := ps[n].value], ps, n + 1)
  {
    forall i | 0 <= i < n ensures ps[i].name != ps[n].name {
    }
  }

  function Rendered(base: string, ps: seq<Pair>): string {
    base + "?" + JoinWith(TokensFor(ps), '&')
  }

  lemma RenderedTokens(base: string, ps: seq<Pair>)
    requires '?' !in base && AreFields(ps)
    ensures Contains(Rendered(base, ps), "?") && QueryTokens(Rendered(base, ps)) == TokensFor(ps)
    ensures WellFormedQuery(Rendered(base, ps)) <==> HaveValues(ps)
  {
    QueryAfter(base, JoinWith(TokensFor(ps), '&'));
    SplitRendered(ps);
    RenderedIsPaired(ps);
  }

  /** Reading a query whose names are distinct gives exactly its pairs. */
  lemma RenderedParses(base: string, ps: seq<Pair>)
    requires '?' !in base && AreFields(ps) && HaveValues(ps) && DistinctNames(ps)
    ensures WellFormedQuery(Rendered(base, ps))
    ensures var m := QueryParameters(Rendered(base, ps));
            forall k, v :: (k in m && m[k] == v) <==> Pair(k, v) in ps
  {
    RenderedTokens(base, ps);
    PairsOfRendered(ps);
    var m := MapOf(ps, |ps|);
    forall k, v ensures (k in m && m[k] == v) <==> Pair(k, v) in ps {
      MapHoldsPairs(ps, |ps|, k);
      if k in m {
        var i :| 0 <= i < |ps| && ps[i].name == k;
        assert ps[i] == Pair(k, m[k]);
      }
    }
  }

  // ---- the canonical form ----

  lemma SortedPairsDistinct(m: map<string, string>)
    ensures DistinctNames(SortedPairs(m))
    ensures forall k, v :: Pair(k, v) in SortedPairs(m) <==> k in m && m[k] == v
    ensures HoldsFields(m) ==> AreFields(SortedPairs(m))
    ensures HaveValues(SortedPairs(m)) <==> "" !in m.Values
  {
    var ks, ps := SortedKeys(m.Keys), SortedPairs(m);
    AscendingPairs(ks);
    forall i, j | 0 <= i < j < |ks| ensures ps[i].name != ps[j].name {
      LessIsTrichotomous(ks[i], ks[j]);
    }
    forall k, v ensures Pair(k, v) in ps <==> k in m && m[k] == v {
      if k in m {
        var i :| 0 <= i < |ks| && ks[i] == k;
        assert ps[i] == Pair(k, m[k]);
      }
    }
    forall k | k in m ensures Pair(k, m[k]) in ps {
    }
  }

  /** Reading a canonical query back works exactly when no value is empty, and gives the same map: the form is final. */
  lemma CanonicalReparse(uri: string, base: string)
    requires WellFormedQuery(uri) && '?' !in base
    ensures var m := QueryParameters(uri);
            var canonical := base + "?" + Canonical(m);
            && (WellFormedQuery(canonical) <==> "" !in m.Values)
            && ("" !in m.Values ==> QueryParameters(canonical) == m
                                    && Canonical(QueryParameters(canonical)) == Canonical(m))
  {
    var m := QueryParameters(uri);
    QueryHoldsFields(uri);
    SortedPairsDistinct(m);
    RenderedTokens(base, SortedPairs(m));
    if "" !in m.Values {
      RenderedParses(base, SortedPairs(m));
      SameMap(QueryParameters(Rendered(base, SortedPairs(m))), m, SortedPairs(m));
    }
  }

  lemma SameMap(m: map<string, string>, n: map<string, string>, ps: seq<Pair>)
    requires forall k, v :: (k in m && m[k] == v) <==> Pair(k, v) in ps
    requires forall k, v :: Pair(k, v) in ps <==> k in n && n[k] == v
    ensures m == n
  {
    forall k ensures k in m <==> k in n {
      if k in m {
        assert Pair(k, m[k]) in ps;
      }
      if k in n {
        assert Pair(k, n[k]) in ps;
      }
    }
    forall k | k in m ensures m[k] == n[k] {
      assert Pair(k, m[k]) in ps;
    }
  }

  /** The canonical string is the tokens in strictly ascending order of their names, and never ends in a separator. */
  lemma CanonicalIsSorted(uri: string)
    requires WellFormedQuery(uri)
    ensures var m := QueryParameters(uri);
            && Tokens(Canonical(m), '&') == TokensFor(SortedPairs(m))
            && |SortedPairs(m)| == |m|
            && (forall k, v :: Pair(k, v) in SortedPairs(m) <==> k in m && m[k] == v)
            && (forall i, j :: 0 <= i < j < |m| ==> Precedes(SortedPairs(m)[i].name, SortedPairs(m)[j].name))
            && (Canonical(m) == "" <==> m == map[])
            && (Canonical(m) != "" ==> Canonical(m)[|Canonical(m)| - 1] != '&')
  {
    var m := QueryParameters(uri);
    QueryHoldsFields(uri);
    SortedPairsDistinct(m);
    SplitRendered(SortedPairs(m));
    LastOfRendered(SortedPairs(m));
    NamesInOrder(m);
  }

  /** The names come in the order that the first differing character decides. */
  lemma NamesInOrder(m: map<string, string>)
    ensures |SortedPairs(m)| == |m|
    ensures forall i, j :: 0 <= i < j < |m| ==> Precedes(SortedPairs(m)[i].name, SortedPairs(m)[j].name)
  {
    var ks := SortedKeys(m.Keys);
    AscendingIsInOrder(ks);
    forall i, j | 0 <= i < j < |m| ensures Precedes(SortedPairs(m)[i].name, SortedPairs(m)[j].name) {
      assert Precedes(ks[i], ks[j]);
    }
  }

  lemma LastOfRendered(ps: seq<Pair>)
    requires AreFields(ps)
    ensures var text := JoinWith(TokensFor(ps), '&');
            (text == "" <==> ps == []) && (text != "" ==> text[|text| - 1] != '&')
  {
    var ts := TokensFor(ps);
    if ps != [] {
      var last := ps[|ps| - 1];
      assert IsField(last.value) && ts[|ts| - 1] == Token(last);
      LastOfJoin(ts);
      LastOfToken(last);
    } else {
      assert ts == [];
    }
  }

  lemma {:induction false} LastOfJoin(ts: seq<string>)
    requires ts != [] && ts[|ts| - 1] != ""
    ensures var j := JoinWith(ts, '&'); var last := ts[|ts| - 1]; j != "" && j[|j| - 1] == last[|last| - 1]
  {
    if |ts| > 1 {
      LastOfJoin(ts[1..]);
    }
  }

  lemma LastOfToken(p: Pair)
    requires IsField(p.value)
    ensures Token(p)[|Token(p)| - 1] != '&'
  {
    if p.value != "" {
      assert Token(p)[|Token(p)| - 1] == p.value[|p.value| - 1];
    } else {
      assert Token(p)[|Token(p)| - 1] == '=';
    }
  }

  /** However the parameters are ordered, and whatever the path, the canonical query is the same. */
  lemma CanonicalIgnoresOrder(a: string, ps: seq<Pair>, b: string, qs: seq<Pair>)
    requires '?' !in a && '?' !in b && AreFields(ps) && HaveValues(ps) && DistinctNames(ps)
    requires multiset(ps) == multiset(qs)
    ensures WellFormedQuery(Rendered(a, ps)) && WellFormedQuery(Rendered(b, qs))
    ensures QueryParameters(Rendered(a, ps)) == QueryParameters(Rendered(b, qs))
    ensures Canonical(QueryParameters(Rendered(a, ps))) == Canonical(QueryParameters(Rendered(b, qs)))
  {
    PermutedPairs(ps, qs);
    RenderedParses(a, ps);
    RenderedParses(b, qs);
    var m, n := QueryParameters(Rendered(a, ps)), QueryParameters(Rendered(b, qs));
    SameMap(m, n, ps);
  }

  lemma PermutedPairs(ps: seq<Pair>, qs: seq<Pair>)
    requires AreFields(ps) && HaveValues(ps) && DistinctNames(ps) && multiset(ps) == multiset(qs)
    ensures AreFields(qs) && HaveValues(qs) && DistinctNames(qs)
    ensures forall p :: p in ps <==> p in qs
  {
    forall p ensures p in ps <==> p in qs {
      assert p in multiset(ps) <==> p in multiset(qs);
    }
    forall i | 0 <= i < |qs|
      ensures IsField(qs[i].name) && IsField(qs[i].value) && qs[i].value != ""
    {
      assert qs[i] in qs;
      var j :| 0 <= j < |ps| && ps[j] == qs[i];
    }
    forall i, j | 0 <= i < j < |qs| ensures qs[i].name != qs[j].name {
      NamesOnce(ps, qs, i, j);
    }
  }

  /** Two positions of a permutation hold two positions of the original. */
  lemma NamesOnce(ps: seq<Pair>, qs: seq<Pair>, i: nat, j: nat)
    requires DistinctNames(ps) && multiset(ps) == multiset(qs) && i < j < |qs|
    ensures qs[i].name != qs[j].name
  {
    assert qs[i] in multiset(ps) && qs[j] in multiset(ps);
    if qs[i] != qs[j] {
      var k :| 0 <= k < |ps| && ps[k] == qs[i];
      var l :| 0 <= l < |ps| && ps[l] == qs[j];
    } else {
      Once(ps, qs[i]);
      Twice(qs, i, j);
      assert false;
    }
  }

  lemma {:induction false} Once(ps: seq<Pair>, p: Pair)
    requires DistinctNames(ps)
    ensures multiset(ps)[p] <= 1
  {
    if ps != [] {
      assert ps == [ps[0]] + ps[1..];
      Once(ps[1..], p);
      forall k | 0 <= k < |ps| - 1 ensures ps[1..][k] != ps[0] {
        assert ps[k + 1].name != ps[0].name;
      }
    }
  }

  lemma Twice(qs: seq<Pair>, i: nat, j: nat)
    requires i < j < |qs| && qs[i] == qs[j]
    ensures multiset(qs)[qs[i]] >= 2
  {
    assert qs == qs[..j] + qs[j..];
    assert qs[i] in qs[..j] && qs[j] in qs[j..];
    assert qs[..j][i] == qs[i] && qs[j..][0] == qs[j];
  }
}
