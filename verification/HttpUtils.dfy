/** Paths and query strings, as `HttpUtils` takes them apart and builds them. */
module HttpUtils {
  import opened StringUtils
  import opened Wrappers

  /** `StringUtils::UrlDecode` is a parameter; of it only this is assumed. */
  type Decoder = string -> string

  predicate IsPlain(s: string) {
    '%' !in s && '+' !in s
  }

  ghost predicate KeepsPlain(decode: Decoder) {
    forall s {:trigger decode(s)} :: IsPlain(s) ==> decode(s) == s
  }

  predicate IsUrlEncoded(decode: Decoder, value: string) {
    !Equals(decode(value), value)
  }

  // ---- paths ----

  function GetBasePath(uri: string): string {
    var basePath := SubStringUntil(uri, "?");
    if basePath != "" && basePath[0] == '/' then basePath[1..] else basePath
  }

  function GetPathParameter(decode: Decoder, uri: string, index: nat): string {
    var parameters := Tokens(GetBasePath(uri), '/');
    if index >= |parameters| then ""
    else if IsUrlEncoded(decode, parameters[index]) then decode(parameters[index])
    else parameters[index]
  }

  function GetPathParametersFromIndex(decode: Decoder, uri: string, index: int): string {
    decode(JoinFrom(Tokens(GetBasePath(uri), '/'), index))
  }

  /** A query part, or nothing. */
  predicate IsTail(tail: string) {
    tail == "" || tail[0] == '?'
  }

  lemma BasePathOf(path: string, tail: string)
    requires '?' !in path && IsTail(tail)
    ensures GetBasePath("/" + path + tail) == path
    ensures path == "" || path[0] != '/' ==> GetBasePath(path + tail) == path
  {
    BeforeTail("/" + path, tail);
    BeforeTail(path, tail);
    assert ("/" + path)[1..] == path;
  }

  lemma BeforeTail(p: string, tail: string)
    requires '?' !in p && IsTail(tail)
    ensures SubStringUntil(p + tail, "?") == p
  {
    if tail == "" {
      assert p + tail == p;
      FindNoChar(p, '?');
    } else {
      assert p + tail == p + ['?'] + tail[1..];
      FindChar(p, '?', tail[1..]);
    }
  }

  /** Path parameters are decoded: the source leaves alone only what decoding would not change. */
  lemma PathParameterIsDecoded(decode: Decoder, uri: string, index: nat)
    ensures var parameters := Tokens(GetBasePath(uri), '/');
            GetPathParameter(decode, uri, index) == if index < |parameters| then decode(parameters[index]) else ""
  {
  }

  /** A path is read back whole and decoded, except that one trailing slash is lost. */
  lemma WholePathIsDecoded(decode: Decoder, path: string, tail: string)
    requires '?' !in path && IsTail(tail)
    ensures GetPathParametersFromIndex(decode, "/" + path + tail, 0) == decode(DropTrailing(path, '/'))
  {
    BasePathOf(path, tail);
    JoinOfSplit(path, '/');
    var tokens := Tokens(path, '/');
    JoinFromIsJoin(tokens, 0);
    assert tokens[0..] == tokens;
  }

  lemma WholePath(decode: Decoder, path: string, tail: string)
    requires KeepsPlain(decode) && IsPlain(path) && '?' !in path && IsTail(tail)
    ensures GetPathParametersFromIndex(decode, "/" + path + tail, 0) == DropTrailing(path, '/')
  {
    WholePathIsDecoded(decode, path, tail);
    assert IsPlain(DropTrailing(path, '/'));
  }

  /** The first segment and the rest are read back and decoded, however many or empty segments the rest has. */
  lemma SegmentsAreDecoded(decode: Decoder, head: string, rest: string, tail: string)
    requires '?' !in head && '?' !in rest && IsTail(tail) && Free(head, '/')
    ensures GetPathParameter(decode, "/" + head + "/" + rest + tail, 0) == decode(head)
    ensures GetPathParametersFromIndex(decode, "/" + head + "/" + rest + tail, 1) == decode(DropTrailing(rest, '/'))
  {
    var path := head + ['/'] + rest;
    assert "/" + path + tail == "/" + head + "/" + rest + tail;
    BasePathOf(path, tail);
    TokensOfMore(head, '/', rest);
    JoinOfSplit(rest, '/');
    PathParameterIsDecoded(decode, "/" + path + tail, 0);
    JoinFromIsJoin(Tokens(path, '/'), 1);
    assert Tokens(path, '/')[1..] == Tokens(rest, '/');
  }

  lemma FirstSegmentAndRest(decode: Decoder, head: string, rest: string, tail: string)
    requires KeepsPlain(decode) && IsPlain(head) && IsPlain(rest) && '?' !in head && '?' !in rest && IsTail(tail)
    requires Free(head, '/')
    ensures GetPathParameter(decode, "/" + head + "/" + rest + tail, 0) == head
    ensures GetPathParametersFromIndex(decode, "/" + head + "/" + rest + tail, 1) == DropTrailing(rest, '/')
  {
    SegmentsAreDecoded(decode, head, rest, tail);
    assert IsPlain(DropTrailing(rest, '/'));
  }

  // ---- reading query strings ----

  /** Without a question mark the whole string counts as the query. */
  function GetQueryString(uri: string): string {
    if Contains(uri, "?") then SubStringAfter(uri, "?").value else uri
  }

  function QueryTokens(uri: string): seq<string> {
    Tokens(GetQueryString(uri), '&')
  }

  function CountQueryParameters(uri: string): int {
    |QueryTokens(uri)|
  }

  /** An empty token has no first part, and the source reads it all the same. */
  function GetQueryParameterName(parameter: string): string
    requires parameter != ""
  {
    Tokens(parameter, '=')[0]
  }

  function GetQueryParameterValue(decode: Decoder, parameter: string): string {
    var parts := Tokens(parameter, '=');
    if |parts| > 1 then
      if IsUrlEncoded(decode, parts[1]) then decode(parts[1]) else parts[1]
    else ""
  }

  /** No empty token is met before the first one of that name. */
  predicate ScanSafe(tokens: seq<string>, name: string) {
    tokens == [] ||
    (tokens[0] != "" && (GetQueryParameterName(tokens[0]) == name || ScanSafe(tokens[1..], name)))
  }

  /** The first token of that name. */
  function FirstNamed(tokens: seq<string>, name: string): Option<string>
    requires ScanSafe(tokens, name)
  {
    if tokens == [] then None
    else if GetQueryParameterName(tokens[0]) == name then Some(tokens[0])
    else FirstNamed(tokens[1..], name)
  }

  method GetQueryParameterValueByName(decode: Decoder, uri: string, name: string) returns (value: string)
    requires ScanSafe(QueryTokens(uri), name)
    ensures value == match FirstNamed(QueryTokens(uri), name)
                     case None => ""
                     case Some(token) => GetQueryParameterValue(decode, token)
  {
    var parameters := Split(GetQueryString(uri), '&');
    var i := 0;
    while i < |parameters|
      invariant i <= |parameters| && ScanSafe(parameters[i..], name)
      invariant FirstNamed(parameters[i..], name) == FirstNamed(parameters, name)
    {
      if GetQueryParameterName(parameters[i]) == name {
        return GetQueryParameterValue(decode, parameters[i]);
      }
      assert parameters[i..][1..] == parameters[i + 1..];
      i := i + 1;
    }
    return "";
  }

  method HasQueryParameter(uri: string, name: string) returns (found: bool)
    requires ScanSafe(QueryTokens(uri), name)
    ensures found <==> FirstNamed(QueryTokens(uri), name).Some?
  {
    var parameters := Split(GetQueryString(uri), '&');
    var i := 0;
    while i < |parameters|
      invariant i <= |parameters| && ScanSafe(parameters[i..], name)
      invariant FirstNamed(parameters[i..], name) == FirstNamed(parameters, name)
    {
      if GetQueryParameterName(parameters[i]) == name {
        return true;
      }
      assert parameters[i..][1..] == parameters[i + 1..];
      i := i + 1;
    }
    return false;
  }

  datatype Pair = Pair(name: string, value: string)

  predicate IsPaired(token: string) {
    |Tokens(token, '=')| >= 2
  }

  /** The source reads two parts of every token. */
  predicate AllPaired(tokens: seq<string>) {
    forall i :: 0 <= i < |tokens| ==> IsPaired(tokens[i])
  }

  predicate WellFormedQuery(uri: string) {
    Contains(uri, "?") ==> AllPaired(QueryTokens(uri))
  }

  function NamedValue(token: string): Pair
    requires IsPaired(token)
  {
    var namedValues := Tokens(token, '=');
    Pair(namedValues[0], namedValues[1])
  }

  function PairsIn(tokens: seq<string>): (ps: seq<Pair>)
    requires AllPaired(tokens)
    ensures |ps| == |tokens| && forall i :: 0 <= i < |ps| ==> ps[i] == NamedValue(tokens[i])
  {
    seq(|tokens|, i requires 0 <= i < |tokens| => NamedValue(tokens[i]))
  }

  /** The map after `n` pairs have been entered: a later pair overwrites an earlier one of its name. */
  function MapOf(ps: seq<Pair>, n: nat): map<string, string>
    requires n <= |ps|
  {
    if n == 0 then map[] else MapOf(ps, n - 1)[ps[n - 1].name := ps[n - 1].value]
  }

  function QueryParameters(uri: string): map<string, string>
    requires WellFormedQuery(uri)
  {
    if Contains(uri, "?") then MapOf(PairsIn(QueryTokens(uri)), |QueryTokens(uri)|) else map[]
  }

  lemma EnterParameter(parameters: seq<string>, i: nat, namedValues: seq<string>)
    requires AllPaired(parameters) && i < |parameters| && namedValues == Tokens(parameters[i], '=')
    ensures |namedValues| >= 2
    ensures MapOf(PairsIn(parameters), i + 1)
         == MapOf(PairsIn(parameters), i)[namedValues[0] := namedValues[1]]
  {
    assert IsPaired(parameters[i]);
  }

  method GetQueryParameters(uri: string) returns (queryParameters: map<string, string>)
    requires WellFormedQuery(uri)
    ensures queryParameters == QueryParameters(uri)
  {
    queryParameters := map[];
    if !Contains(uri, "?") {
      return;
    }
    var parameters := Split(GetQueryString(uri), '&');
    ghost var ps := PairsIn(parameters);
    for i := 0 to |parameters|
      invariant queryParameters == MapOf(ps, i)
    {
      var namedValues := Split(parameters[i], '=');
      EnterParameter(parameters, i, namedValues);
      queryParameters := queryParameters[namedValues[0] := namedValues[1]];
    }
  }

  // ---- name-value pairs ----

  function Token(p: Pair): (t: string)
    ensures '=' in t
  {
    p.name + "=" + p.value
  }

  function TokensFor(ps: seq<Pair>): (ts: seq<string>)
    ensures |ts| == |ps| && forall i :: 0 <= i < |ps| ==> ts[i] == Token(ps[i])
  {
    seq(|ps|, i requires 0 <= i < |ps| => Token(ps[i]))
  }

  predicate IsField(s: string) {
    Free(s, '&') && Free(s, '=')
  }

  predicate AreFields(ps: seq<Pair>) {
    forall i :: 0 <= i < |ps| ==> IsField(ps[i].name) && IsField(ps[i].value)
  }

  lemma PartsOfToken(p: Pair)
    requires IsField(p.name) && IsField(p.value)
    ensures Tokens(Token(p), '=') == if p.value == "" then [p.name] else [p.name, p.value]
  {
    assert Token(p) == p.name + ['='] + p.value;
    TokensOfMore(p.name, '=', p.value);
    TokensOfOne(p.value, '=');
  }

  /** A rendered query string is split into its tokens again. */
  lemma SplitRendered(ps: seq<Pair>)
    requires AreFields(ps)
    ensures Tokens(JoinWith(TokensFor(ps), '&'), '&') == TokensFor(ps)
  {
    forall i | 0 <= i < |ps| ensures Free(TokensFor(ps)[i], '&') {
      assert IsField(ps[i].name) && IsField(ps[i].value);
    }
    SplitUndoesJoin(TokensFor(ps), '&');
  }

  lemma QueryAfter(base: string, query: string)
    requires '?' !in base
    ensures Contains(base + "?" + query, "?") && GetQueryString(base + "?" + query) == query
  {
    FindChar(base, '?', query);
  }

  // ---- building query strings ----

  /** The caller's string that the builder appends to. */
  class Url {
    var text: string

    constructor (text: string)
      ensures this.text == text
    {
      this.text := text;
    }
  }

  /** The first parameter is set off by a question mark, every further one by an ampersand. */
  function WithDelimiter(url: string): string {
    url + if '?' in url then "&" else "?"
  }

  lemma ContainsChar(s: string, c: char)
    ensures Contains(s, [c]) <==> c in s
  {
    if c in s {
      var i := IndexOf(s, c);
      SplitAtFirst(s, c);
      FindChar(s[..i], c, s[i + 1..]);
    } else {
      FindNoChar(s, c);
    }
  }

  method AddQueryDelimiter(url: Url) returns (result: string)
    modifies url
    ensures url.text == WithDelimiter(old(url.text)) && result == url.text
  {
    ContainsChar(url.text, '?');
    url.text := url.text + if Contains(url.text, "?") then "&" else "?";
    return url.text;
  }

  method AddQueryParameter(url: Url, name: string, value: string) returns (result: string)
    modifies url
    ensures url.text == WithDelimiter(old(url.text)) + Token(Pair(name, value)) && result == url.text
  {
    url.text := AddQueryDelimiter(url);
    url.text := url.text + (name + "=" + value);
    return url.text;
  }

  /** `AddQueryParameter` for one pair after the other. */
  function Build(url: string, ps: seq<Pair>): string {
    if ps == [] then url
    else WithDelimiter(Build(url, ps[..|ps| - 1])) + Token(ps[|ps| - 1])
  }

  lemma DelimitFurther(base: string, query: string, token: string)
    requires '?' !in base
    ensures WithDelimiter(base + "?" + query) + token == base + "?" + (query + ['&'] + token)
  {
    QueryAfter(base, query);
  }

  lemma {:induction false} BuildIsJoin(base: string, ps: seq<Pair>)
    requires '?' !in base
    ensures Build(base, ps) == if ps == [] then base else base + "?" + JoinWith(TokensFor(ps), '&')
  {
    if ps == [] {
      assert Build(base, ps) == base;
    } else {
      var before, last := ps[..|ps| - 1], ps[|ps| - 1];
      BuildIsJoin(base, before);
      assert TokensFor(ps) == TokensFor(before) + [Token(last)];
      JoinAppend(TokensFor(before), Token(last), '&');
      if before == [] {
        FindNoChar(base, '?');
      } else {
        DelimitFurther(base, JoinWith(TokensFor(before), '&'), Token(last));
      }
    }
  }

  function FirstValue(ps: seq<Pair>, name: string): Option<string> {
    if ps == [] then None else if ps[0].name == name then Some(ps[0].value) else FirstValue(ps[1..], name)
  }

  lemma TwoParts(name: string, value: string)
    requires Free(name, '=') && Free(value, '=') && value != ""
    ensures Tokens(name + "=" + value, '=') == [name, value]
  {
    TokensOfOne(value, '=');
    TokensOfMore(name, '=', value);
    assert name + "=" + value == name + ['='] + value;
  }

  lemma MoreParts(name: string, value: string, rest: string)
    requires Free(name, '=') && Free(value, '=')
    ensures Tokens(name + "=" + value + "=" + rest, '=') == [name] + ([value] + Tokens(rest, '='))
  {
    TokensOfMore(value, '=', rest);
    TokensOfMore(name, '=', value + ['='] + rest);
    assert name + "=" + value + "=" + rest == name + ['='] + (value + ['='] + rest);
  }

  /** The value is the decoded part between the first equals sign and the second one, if there is any. */
  lemma ValueIsDecoded(decode: Decoder, name: string, value: string, rest: string)
    requires Free(name, '=') && Free(value, '=') && value != ""
    ensures GetQueryParameterValue(decode, name + "=" + value) == decode(value)
    ensures GetQueryParameterValue(decode, name + "=" + value + "=" + rest) == decode(value)
    ensures GetQueryParameterName(name + "=" + value + "=" + rest) == name
    ensures IsPaired(name + "=" + value + "=" + rest)
    ensures NamedValue(name + "=" + value + "=" + rest) == Pair(name, value)
  {
    TwoParts(name, value);
    MoreParts(name, value, rest);
  }

  /** What is looked up under a name: its first value, decoded if it is not empty. */
  function Decoded(decode: Decoder, value: Option<string>): Option<string> {
    match value
    case None => None
    case Some(v) => Some(if v == "" then "" else decode(v))
  }

  lemma ValueOfToken(decode: Decoder, p: Pair)
    requires IsField(p.name) && IsField(p.value)
    ensures GetQueryParameterName(Token(p)) == p.name
    ensures Some(GetQueryParameterValue(decode, Token(p))) == Decoded(decode, Some(p.value))
  {
    PartsOfToken(p);
  }

  lemma {:induction false} ScanFinds(decode: Decoder, ps: seq<Pair>, name: string)
    requires AreFields(ps)
    ensures ScanSafe(TokensFor(ps), name)
    ensures match FirstNamed(TokensFor(ps), name)
            case None => FirstValue(ps, name) == None
            case Some(token) => FirstValue(ps, name).Some?
                                && Decoded(decode, FirstValue(ps, name)) == Some(GetQueryParameterValue(decode, token))
  {
    if ps != [] {
      assert IsField(ps[0].name) && IsField(ps[0].value);
      ValueOfToken(decode, ps[0]);
      assert TokensFor(ps)[1..] == TokensFor(ps[1..]);
      ScanFinds(decode, ps[1..], name);
    }
  }

  /** Count, names and values of `ps` are what is read from a string. */
  predicate IsReadAs(decode: Decoder, uri: string, ps: seq<Pair>, name: string) {
    var tokens := QueryTokens(uri);
    && CountQueryParameters(uri) == |ps|
    && ScanSafe(tokens, name)
    && match FirstNamed(tokens, name)
       case None => FirstValue(ps, name) == None
       case Some(token) => FirstValue(ps, name).Some?
                           && Decoded(decode, FirstValue(ps, name)) == Some(GetQueryParameterValue(decode, token))
  }

  /** Every URL that the builder makes is read back: the count, the names, and for each name its first value, decoded. */
  lemma BuiltIsRead(decode: Decoder, base: string, ps: seq<Pair>, name: string)
    requires '?' !in base && ps != [] && AreFields(ps)
    ensures IsReadAs(decode, Build(base, ps), ps, name)
  {
    BuildIsJoin(base, ps);
    QueryAfter(base, JoinWith(TokensFor(ps), '&'));
    SplitRendered(ps);
    ScanFinds(decode, ps, name);
  }

  /** Without a question mark the whole string is read, as a form body is; but the map of parameters stays empty. */
  lemma FormIsRead(decode: Decoder, ps: seq<Pair>, name: string)
    requires AreFields(ps) && forall i :: 0 <= i < |ps| ==> Free(ps[i].name, '?') && Free(ps[i].value, '?')
    ensures var body := JoinWith(TokensFor(ps), '&');
            IsReadAs(decode, body, ps, name) && WellFormedQuery(body) && QueryParameters(body) == map[]
  {
    var body := JoinWith(TokensFor(ps), '&');
    forall i | 0 <= i < |ps| ensures Free(TokensFor(ps)[i], '?') {
      assert Free(ps[i].name, '?') && Free(ps[i].value, '?');
    }
    JoinIsFree(TokensFor(ps), '&', '?');
    FindNoChar(body, '?');
    SplitRendered(ps);
    ScanFinds(decode, ps, name);
  }

  lemma DecodedPlain(decode: Decoder, value: Option<string>)
    requires KeepsPlain(decode) && (value.Some? ==> IsPlain(value.value))
    ensures Decoded(decode, value) == value
  {
  }

  lemma {:induction false} FirstValueIsPlain(ps: seq<Pair>, name: string)
    requires forall i :: 0 <= i < |ps| ==> IsPlain(ps[i].value)
    ensures FirstValue(ps, name).Some? ==> IsPlain(FirstValue(ps, name).value)
  {
    if ps != [] {
      assert IsPlain(ps[0].value);
      FirstValueIsPlain(ps[1..], name);
    }
  }

  /** Plain values are read back as they are. */
  lemma BuilderRoundTrip(decode: Decoder, base: string, ps: seq<Pair>, name: string)
    requires '?' !in base && ps != [] && AreFields(ps)
    requires KeepsPlain(decode) && forall i :: 0 <= i < |ps| ==> IsPlain(ps[i].value)
    ensures var tokens := QueryTokens(Build(base, ps));
            && CountQueryParameters(Build(base, ps)) == |ps|
            && ScanSafe(tokens, name)
            && match FirstNamed(tokens, name)
               case None => FirstValue(ps, name) == None
               case Some(token) => FirstValue(ps, name) == Some(GetQueryParameterValue(decode, token))
  {
    BuiltIsRead(decode, base, ps, name);
    FirstValueIsPlain(ps, name);
    DecodedPlain(decode, FirstValue(ps, name));
  }

  /** Of several parameters of one name the map keeps the last one. */
  lemma {:induction false} LaterPairWins(ps: seq<Pair>, n: nat, i: nat)
    requires i < n <= |ps| && forall j :: i < j < n ==> ps[j].name != ps[i].name
    ensures ps[i].name in MapOf(ps, n) && MapOf(ps, n)[ps[i].name] == ps[i].value
  {
    if i < n - 1 {
      LaterPairWins(ps, n - 1, i);
    }
  }

  /** With distinct names the value found is the one that was added under the name. */
  lemma {:induction false} DistinctNamesFindTheirValue(ps: seq<Pair>, i: nat)
    requires i < |ps| && forall j :: 0 <= j < i ==> ps[j].name != ps[i].name
    ensures FirstValue(ps, ps[i].name) == Some(ps[i].value)
  {
    if i > 0 {
      assert ps[0].name != ps[i].name;
      DistinctNamesFindTheirValue(ps[1..], i - 1);
    }
  }
}
