/** Searching, splitting, joining and trimming, as `StringUtils` does them. */
module StringUtils {
  import opened Wrappers

  lemma HalvesRebuild<T>(s: seq<T>, i: nat)
    requires i <= |s|
    ensures s[..i] + s[i..] == s
  {
  }

  // ---- searching ----

  predicate OccursAt(s: string, p: string, i: int) {
    0 <= i <= |s| - |p| && s[i..i + |p|] == p
  }

  /** `std::string::find`: the first occurrence, or -1 for `npos`. */
  function Find(s: string, p: string): (i: int)
    ensures i >= 0 ==> OccursAt(s, p, i)
    ensures forall j :: 0 <= j && (i < 0 || j < i) ==> !OccursAt(s, p, j)
  {
    FindFrom(s, p, 0)
  }

  function FindFrom(s: string, p: string, from: nat): (i: int)
    requires from <= |s|
    ensures i >= 0 ==> from <= i && OccursAt(s, p, i)
    ensures forall j :: from <= j && (i < 0 || j < i) ==> !OccursAt(s, p, j)
    decreases |s| - from
  {
    if OccursAt(s, p, from) then from
    else if from == |s| then -1
    else FindFrom(s, p, from + 1)
  }

  predicate Contains(s1: string, s2: string) {
    Find(s1, s2) >= 0
  }

  /** Two strings are never `Equals` when one of them is empty. */
  predicate Equals(s1: string, s2: string) {
    s1 != "" && s2 != "" && s1 == s2
  }

  predicate StartsWith(s1: string, s2: string) {
    s2 <= s1
  }

  function SubStringUntil(s: string, delimiter: string): string {
    if Contains(s, delimiter) then s[..Find(s, delimiter)] else s
  }

  /** `None` where `substr` throws; the source skips one character, whatever the length of the delimiter. */
  function SubStringAfter(s: string, delimiter: string): Option<string> {
    if !Contains(s, delimiter) then Some("")
    else if Find(s, delimiter) + 1 > |s| then None
    else Some(s[Find(s, delimiter) + 1..])
  }

  /** An absent delimiter leaves everything before it and nothing behind it. */
  lemma AbsentDelimiter(s: string, delimiter: string)
    requires forall i :: !OccursAt(s, delimiter, i)
    ensures SubStringUntil(s, delimiter) == s && SubStringAfter(s, delimiter) == Some("")
  {
  }

  /** The empty string equals nothing, not even itself. */
  lemma EmptyEqualsNothing(s: string)
    ensures !Equals("", s) && !Equals(s, "") && (s != "" ==> Equals(s, s))
  {
  }

  /** The two halves and the delimiter give the string back exactly when the delimiter is one character long. */
  lemma HalvesRebuildIffOneChar(s: string, delimiter: string)
    requires Contains(s, delimiter)
    ensures (&& SubStringAfter(s, delimiter).Some?
             && SubStringUntil(s, delimiter) + delimiter + SubStringAfter(s, delimiter).value == s)
       <==> |delimiter| == 1
  {
    var i := Find(s, delimiter);
    assert s == s[..i] + delimiter + s[i + |delimiter|..];
    if |delimiter| == 1 {
      assert s[i + |delimiter|..] == s[i + 1..];
    } else if i + 1 <= |s| {
      assert |s[..i] + delimiter + s[i + 1..]| == |s| + |delimiter| - 1;
    }
  }

  /** Looking for one character. */
  lemma FindChar(prefix: string, c: char, rest: string)
    requires c !in prefix
    ensures Find(prefix + [c] + rest, [c]) == |prefix|
    ensures SubStringUntil(prefix + [c] + rest, [c]) == prefix
    ensures SubStringAfter(prefix + [c] + rest, [c]) == Some(rest)
  {
    var s := prefix + [c] + rest;
    assert OccursAt(s, [c], |prefix|);
    forall j | 0 <= j < |prefix| ensures !OccursAt(s, [c], j) {
      assert s[j..j + 1] == [prefix[j]];
    }
  }

  lemma FindNoChar(s: string, c: char)
    requires c !in s
    ensures !Contains(s, [c])
  {
    forall j | 0 <= j < |s| ensures !OccursAt(s, [c], j) {
      assert s[j..j + 1] == [s[j]];
    }
  }

  // ---- splitting ----

  /** The position of the first `c`, or the length. */
  function IndexOf(s: string, c: char): (i: nat)
    ensures i <= |s| && c !in s[..i]
    ensures i < |s| ==> s[i] == c
  {
    if s == "" || s[0] == c then 0 else 1 + IndexOf(s[1..], c)
  }

  /** `getline` until it fails: a trailing delimiter opens no further token, so an empty string has none. */
  function Tokens(s: string, delimiter: char): seq<string>
    decreases |s|
  {
    if s == "" then []
    else
      var i := IndexOf(s, delimiter);
      if i == |s| then [s] else [s[..i]] + Tokens(s[i + 1..], delimiter)
  }

  function AfterLine(s: string, delimiter: char): string {
    var i := IndexOf(s, delimiter);
    if i < |s| then s[i + 1..] else ""
  }

  lemma TokensStep(s: string, delimiter: char)
    requires s != ""
    ensures Tokens(s, delimiter) == [s[..IndexOf(s, delimiter)]] + Tokens(AfterLine(s, delimiter), delimiter)
    ensures |AfterLine(s, delimiter)| < |s|
  {
    assert s[..|s|] == s;
  }

  /** `std::getline` on the rest of a string. */
  method GetLine(rest: string, delimiter: char) returns (line: string, remaining: string)
    requires rest != ""
    ensures line == rest[..IndexOf(rest, delimiter)]
    ensures remaining == AfterLine(rest, delimiter)
  {
    var i := 0;
    while i < |rest| && rest[i] != delimiter
      invariant i <= |rest| && delimiter !in rest[..i]
    {
      i := i + 1;
    }
    IndexOfIs(rest, delimiter, i);
    return rest[..i], if i < |rest| then rest[i + 1..] else "";
  }

  method Split(s: string, delimiter: char) returns (tokens: seq<string>)
    ensures tokens == Tokens(s, delimiter)
  {
    tokens := [];
    var rest := s;
    while rest != ""
      invariant tokens + Tokens(rest, delimiter) == Tokens(s, delimiter)
      decreases |rest|
    {
      TokensStep(rest, delimiter);
      var intermediate: string;
      intermediate, rest := GetLine(rest, delimiter);
      tokens := tokens + [intermediate];
    }
  }

  lemma IndexOfIs(s: string, c: char, i: nat)
    requires i <= |s| && c !in s[..i] && (i < |s| ==> s[i] == c)
    ensures IndexOf(s, c) == i
  {
    var j := IndexOf(s, c);
    assert j < |s| ==> s[j] == c;
    assert forall n :: 0 <= n < j ==> s[..j][n] == s[n];
    assert forall n :: 0 <= n < i ==> s[..i][n] == s[n];
  }

  predicate Free(s: string, c: char) {
    c !in s
  }

  predicate AllFree(v: seq<string>, c: char) {
    forall i :: 0 <= i < |v| ==> Free(v[i], c)
  }

  lemma TokensAreFree(s: string, delimiter: char)
    ensures AllFree(Tokens(s, delimiter), delimiter)
    decreases |s|
  {
    if s != "" && IndexOf(s, delimiter) < |s| {
      TokensAreFree(s[IndexOf(s, delimiter) + 1..], delimiter);
    }
  }

  lemma TokensOfOne(s: string, delimiter: char)
    requires Free(s, delimiter)
    ensures Tokens(s, delimiter) == if s == "" then [] else [s]
  {
    if s != "" {
      IndexOfIs(s, delimiter, |s|);
    }
  }

  lemma TokensOfMore(head: string, delimiter: char, rest: string)
    requires Free(head, delimiter)
    ensures Tokens(head + [delimiter] + rest, delimiter) == [head] + Tokens(rest, delimiter)
  {
    var s := head + [delimiter] + rest;
    assert s[..|head|] == head && s[|head| + 1..] == rest;
    IndexOfIs(s, delimiter, |head|);
  }

  /** The first token is what stands before the first delimiter. */
  lemma FirstToken(s: string, c: char)
    requires s != ""
    ensures Tokens(s, c) != [] && Tokens(s, c)[0] == SubStringUntil(s, [c])
  {
    if Free(s, c) {
      TokensOfOne(s, c);
      FindNoChar(s, c);
    } else {
      SplitAtFirst(s, c);
      var i := IndexOf(s, c);
      TokensOfMore(s[..i], c, s[i + 1..]);
      FindChar(s[..i], c, s[i + 1..]);
    }
  }

  // ---- joining ----

  function JoinWith(v: seq<string>, delimiter: char): string {
    if v == [] then "" else if |v| == 1 then v[0] else v[0] + [delimiter] + JoinWith(v[1..], delimiter)
  }

  /** The tokens from an index on, joined by slashes. */
  function JoinFrom(v: seq<string>, startIndex: int): string
    decreases |v| - startIndex
  {
    if startIndex < 0 || startIndex >= |v| then ""
    else if startIndex == |v| - 1 then v[startIndex]
    else v[startIndex] + "/" + JoinFrom(v, startIndex + 1)
  }

  lemma JoinOfMore(head: string, rest: seq<string>, delimiter: char)
    ensures JoinWith([head] + rest, delimiter)
         == if rest == [] then head else head + [delimiter] + JoinWith(rest, delimiter)
  {
    assert ([head] + rest)[1..] == rest;
  }

  lemma {:induction false} JoinFromIsJoin(v: seq<string>, startIndex: nat)
    requires startIndex <= |v|
    ensures JoinFrom(v, startIndex) == JoinWith(v[startIndex..], '/')
    decreases |v| - startIndex
  {
    if startIndex < |v| {
      JoinFromIsJoin(v, startIndex + 1);
      assert v[startIndex..] == [v[startIndex]] + v[startIndex + 1..];
      JoinOfMore(v[startIndex], v[startIndex + 1..], '/');
    }
  }

  lemma JoinStep(result: string, vec: seq<string>, i: nat)
    requires i < |vec|
    ensures result + JoinFrom(vec, i)
         == (if i != |vec| - 1 then result + vec[i] + "/" else result + vec[i]) + JoinFrom(vec, i + 1)
  {
    Append(result, vec[i], "/", JoinFrom(vec, i + 1));
  }

  lemma Append(a: string, b: string, c: string, d: string)
    ensures a + (b + c + d) == a + b + c + d && a + b == a + b + ""
  {
  }

  /** The source ignores its delimiter and writes a slash; a negative start index joins nothing. */
  method Join(vec: seq<string>, delimiter: char, startIndex: int) returns (result: string)
    ensures result == JoinFrom(vec, startIndex)
  {
    result := "";
    if startIndex < 0 {
      return;
    }
    var i := startIndex;
    while i < |vec|
      invariant startIndex <= i
      invariant result + JoinFrom(vec, i) == JoinFrom(vec, startIndex)
      decreases |vec| - i
    {
      JoinStep(result, vec, i);
      result := result + vec[i];
      if i != |vec| - 1 {
        result := result + "/";
      }
      i := i + 1;
    }
    assert result + "" == result;
  }

  /** What `Join` writes is the join with its delimiter exactly when that is a slash or there is nothing to separate. */
  lemma JoinHonoursDelimiter(vec: seq<string>, delimiter: char, startIndex: nat)
    requires startIndex <= |vec|
    ensures JoinWith(vec[startIndex..], '/') == JoinWith(vec[startIndex..], delimiter)
       <==> delimiter == '/' || |vec| - startIndex <= 1
  {
    var v := vec[startIndex..];
    if |v| > 1 {
      assert JoinWith(v, '/')[|v[0]|] == '/';
      assert JoinWith(v, delimiter)[|v[0]|] == delimiter;
    }
  }

  function DropTrailing(s: string, delimiter: char): string {
    if s != "" && s[|s| - 1] == delimiter then s[..|s| - 1] else s
  }

  lemma DropTrailingMore(head: string, delimiter: char, rest: string)
    ensures DropTrailing(head + [delimiter] + rest, delimiter)
         == if rest == "" then head else head + [delimiter] + DropTrailing(rest, delimiter)
  {
    var s := head + [delimiter] + rest;
    assert s[|s| - 1] == if rest == "" then delimiter else rest[|rest| - 1];
  }

  lemma TokensOfNothing(s: string, delimiter: char)
    ensures Tokens(s, delimiter) == [] <==> s == ""
  {
  }

  lemma SplitAtFirst(s: string, c: char)
    requires c in s
    ensures var i := IndexOf(s, c); i < |s| && Free(s[..i], c) && s == s[..i] + [c] + s[i + 1..]
  {
    var i := IndexOf(s, c);
    assert s[..|s|] == s;
  }

  /** Splitting and joining again loses one trailing delimiter and nothing else. */
  lemma {:induction false} JoinOfSplit(s: string, delimiter: char)
    ensures JoinWith(Tokens(s, delimiter), delimiter) == DropTrailing(s, delimiter)
    decreases |s|, 1
  {
    if Free(s, delimiter) {
      TokensOfOne(s, delimiter);
    } else {
      SplitAtFirst(s, delimiter);
      var i := IndexOf(s, delimiter);
      JoinMore(s[..i], delimiter, s[i + 1..]);
    }
  }

  lemma {:induction false} JoinMore(head: string, delimiter: char, rest: string)
    requires Free(head, delimiter)
    ensures JoinWith(Tokens(head + [delimiter] + rest, delimiter), delimiter)
         == DropTrailing(head + [delimiter] + rest, delimiter)
    decreases |head| + 1 + |rest|, 0
  {
    JoinOfSplit(rest, delimiter);
    TokensOfMore(head, delimiter, rest);
    JoinOfMore(head, Tokens(rest, delimiter), delimiter);
    TokensOfNothing(rest, delimiter);
    DropTrailingMore(head, delimiter, rest);
  }

  /** Joining delimiter-free tokens and splitting again loses a last empty token and nothing else. */
  lemma {:induction false} SplitOfJoin(v: seq<string>, delimiter: char)
    requires AllFree(v, delimiter)
    ensures Tokens(JoinWith(v, delimiter), delimiter) == if v != [] && v[|v| - 1] == "" then v[..|v| - 1] else v
  {
    if |v| == 1 {
      assert Free(v[0], delimiter);
      TokensOfOne(v[0], delimiter);
    } else if |v| > 1 {
      assert Free(v[0], delimiter);
      TokensOfMore(v[0], delimiter, JoinWith(v[1..], delimiter));
      SplitOfJoin(v[1..], delimiter);
      assert v == [v[0]] + v[1..];
      assert v[..|v| - 1] == [v[0]] + v[1..][..|v| - 2];
    }
  }

  /** The token lists that survive joining and splitting are these and no others. */
  lemma SplitUndoesJoin(v: seq<string>, delimiter: char)
    ensures Tokens(JoinWith(v, delimiter), delimiter) == v
       <==> AllFree(v, delimiter) && (v == [] || v[|v| - 1] != "")
  {
    TokensAreFree(JoinWith(v, delimiter), delimiter);
    if AllFree(v, delimiter) {
      SplitOfJoin(v, delimiter);
    }
  }

  lemma FirstDelimiterUnique(a: string, b: string, c: char, x: string, y: string)
    requires Free(a, c) && Free(b, c) && a + [c] + x == b + [c] + y
    ensures a == b && x == y
  {
    var s := a + [c] + x;
    assert s[..|a|] == a && s[..|b|] == b;
    IndexOfIs(s, c, |a|);
    IndexOfIs(s, c, |b|);
    assert s[|a| + 1..] == x && s[|b| + 1..] == y;
  }

  lemma {:induction false} JoinAppend(v: seq<string>, last: string, delimiter: char)
    ensures JoinWith(v + [last], delimiter) == if v == [] then last else JoinWith(v, delimiter) + [delimiter] + last
  {
    if v != [] {
      assert (v + [last])[1..] == v[1..] + [last];
      JoinAppend(v[1..], last, delimiter);
    }
  }

  lemma JoinSeparates(v: seq<string>, delimiter: char)
    ensures |v| > 1 ==> delimiter in JoinWith(v, delimiter)
  {
    if |v| > 1 {
      assert JoinWith(v, delimiter)[|v[0]|] == delimiter;
    }
  }

  lemma {:induction false} JoinIsFree(v: seq<string>, delimiter: char, c: char)
    requires AllFree(v, c) && c != delimiter
    ensures Free(JoinWith(v, delimiter), c)
  {
    if v != [] {
      assert Free(v[0], c);
      JoinIsFree(v[1..], delimiter, c);
    }
  }

  /** A join of delimiter-free fields determines the fields. */
  lemma {:induction false} JoinIsInjective(u: seq<string>, v: seq<string>, delimiter: char)
    requires u != [] && v != [] && AllFree(u, delimiter) && AllFree(v, delimiter)
    requires JoinWith(u, delimiter) == JoinWith(v, delimiter)
    ensures u == v
  {
    assert Free(u[0], delimiter) && Free(v[0], delimiter);
    JoinSeparates(u, delimiter);
    JoinSeparates(v, delimiter);
    if |u| > 1 && |v| > 1 {
      FirstDelimiterUnique(u[0], v[0], delimiter, JoinWith(u[1..], delimiter), JoinWith(v[1..], delimiter));
      JoinIsInjective(u[1..], v[1..], delimiter);
      assert u == [u[0]] + u[1..] && v == [v[0]] + v[1..];
    }
  }

  // ---- trimming ----

  /** `Rtrim`, which despite its name erases leading spaces. */
  function Rtrim(s: string): string {
    if s != "" && s[0] == ' ' then Rtrim(s[1..]) else s
  }

  /** `Ltrim`, which erases trailing spaces. */
  function Ltrim(s: string): string {
    if s != "" && s[|s| - 1] == ' ' then Ltrim(s[..|s| - 1]) else s
  }

  function Trim(s: string): string {
    Ltrim(Rtrim(s))
  }

  predicate IsBlank(s: string) {
    forall i :: 0 <= i < |s| ==> s[i] == ' '
  }

  lemma {:induction false} LeadingBlanks(a: string, s: string)
    requires IsBlank(a) && (s == "" || s[0] != ' ')
    ensures Rtrim(a + s) == s
  {
    if a == "" {
      assert a + s == s;
    } else {
      assert (a + s)[1..] == a[1..] + s;
      LeadingBlanks(a[1..], s);
    }
  }

  lemma {:induction false} TrailingBlanks(s: string, b: string)
    requires IsBlank(b) && (s == "" || s[|s| - 1] != ' ')
    ensures Ltrim(s + b) == s
  {
    if b == "" {
      assert s + b == s;
    } else {
      assert (s + b)[..|s + b| - 1] == s + b[..|b| - 1];
      TrailingBlanks(s, b[..|b| - 1]);
    }
  }

  /** Blanks on both sides are removed, and nothing else. */
  lemma TrimRemovesBlanks(a: string, s: string, b: string)
    requires IsBlank(a) && IsBlank(b) && (s != "" ==> s[0] != ' ' && s[|s| - 1] != ' ')
    ensures Trim(a + s + b) == s
  {
    if s == "" {
      LeadingBlanks(a + b, "");
      assert a + s + b == (a + b) + "";
      assert Ltrim("") == "";
    } else {
      LeadingBlanks(a, s + b);
      TrailingBlanks(s, b);
      assert a + s + b == a + (s + b);
    }
  }

  function ToLower(s: string): (r: string)
    ensures |r| == |s|
    ensures forall i :: 0 <= i < |s| ==>
      r[i] as int == if 'A' <= s[i] <= 'Z' then s[i] as int + 32 else s[i] as int
  {
    seq(|s|, i requires 0 <= i < |s| => if 'A' <= s[i] <= 'Z' then s[i] - 'A' + 'a' else s[i])
  }
}
