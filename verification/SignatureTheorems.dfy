/** What a signature guarantees: signed requests are accepted, and what is accepted is what was signed. */
module SignatureTheorems {
  import opened AuthorizationHeader
  import opened AwsSignature
  import opened CanonicalQuery
  import opened Hex
  import opened HttpUtils
  import opened StringUtils
  import opened Wrappers

  // ---- the header that is written can be read ----

  function GroupsOf(s: Signing, signature: string): Groups {
    Groups(s.accessKeyId, s.dateString, s.region, s.moduleName, s.signedHeaders, signature)
  }

  /** The parts that go into the header have the form that the pattern looks for. */
  predicate IsSignable(s: Signing) {
    AreGroups(GroupsOf(s, ""))
  }

  /** The parts by length and by the codes of their characters. */
  lemma SignableParts(s: Signing)
    ensures IsSignable(s) <==>
              && |s.dateString| == 8 && (forall i :: 0 <= i < 8 ==> 48 <= s.dateString[i] as int <= 57)
              && s.accessKeyId != "" && (forall i :: 0 <= i < |s.accessKeyId| ==> IsAlphanumeric(s.accessKeyId[i]))
              && s.region != "" && (forall i :: 0 <= i < |s.region| ==> IsAlphanumeric(s.region[i]) || s.region[i] == '-')
              && s.moduleName != ""
              && (forall i :: 0 <= i < |s.moduleName| ==> IsAlphanumeric(s.moduleName[i]) || s.moduleName[i] == '-')
              && Free(s.signedHeaders, '\n')
  {
  }

  predicate IsAlphanumeric(c: char) {
    48 <= c as int <= 57 || 65 <= c as int <= 90 || 97 <= c as int <= 122
  }

  const UNSPACED := Spacing(false, false, false)

  lemma Prepend(a: string, b: string, x: string)
    ensures (a + b) + x == a + (b + x)
  {
  }

  lemma UnspacedComma(literal: string, x: string)
    ensures ("," + literal) + x == "," + (Space(false) + (literal + x))
  {
    assert Space(false) + (literal + x) == literal + x;
    Prepend(",", literal, x);
  }

  lemma Aws4Literals()
    ensures AreLiterals(AWS4)
    ensures ",SignedHeaders=" == "," + AWS4.signedHeaders && ",Signature=" == "," + AWS4.signature
  {
  }

  lemma TextIsWritten(s: Signing, signature: string)
    ensures AuthorizationText(s, signature) == "AWS4-HMAC-SHA256 " + Text(AWS4, GroupsOf(s, signature), UNSPACED)
  {
    Aws4Literals();
    var g := GroupsOf(s, signature);
    UnspacedComma(AWS4.signature, signature);
    var ending := Ending(AWS4, g, UNSPACED);
    assert ending == s.signedHeaders + (",Signature=" + signature);
    UnspacedComma(AWS4.signedHeaders, ending);
  }

  /** No credential begins in the signing version. */
  lemma VersionIsPassed(text: string)
    ensures Match(AWS4, "AWS4-HMAC-SHA256 " + text) == Match(AWS4, text)
  {
    var prefix := "AWS4-HMAC-SHA256 ";
    var s := prefix + text;
    forall i | 0 <= i < |prefix| ensures !(AWS4.credential <= s[i..]) {
      assert |s[i..]| >= 2 ==> s[i..][0] == s[i] && s[i..][1] == s[i + 1];
    }
    MatchAfter(AWS4, prefix, text);
  }

  /** The written header gives the parts back that went into it; the access key is not used again. */
  predicate IsReadBack(s: Signing, signature: string) {
    var found := Match(AWS4, AuthorizationText(s, signature));
    found.Some? && found.value.(accessKeyId := s.accessKeyId) == GroupsOf(s, signature)
  }

  lemma WrittenIsMatched(s: Signing, signature: string)
    requires IsSignable(s) && Free(signature, '\n') && Free(signature, ',')
    ensures Match(AWS4, AuthorizationText(s, signature)) == Some(GroupsOf(s, signature))
  {
    var g := GroupsOf(s, signature);
    TextIsWritten(s, signature);
    Aws4Literals();
    VersionIsPassed(Text(AWS4, g, UNSPACED));
    TextMatches(AWS4, g, UNSPACED);
  }

  lemma WrittenEnds(s: Signing, signature: string)
    ensures EndsWith(AuthorizationText(s, signature), "," + (AWS4.signature + signature))
  {
    var g, t := GroupsOf(s, signature), "," + (AWS4.signature + signature);
    TextIsWritten(s, signature);
    TextEnds(AWS4, g, UNSPACED);
    Aws4Literals();
    Prepend(",", AWS4.signature, signature);
    UnspacedEnding(s.signedHeaders, AWS4.signature, signature);
    EndsMore(s.signedHeaders, t, t);
    EndsNestAgain(Text(AWS4, g, UNSPACED), Ending(AWS4, g, UNSPACED), t);
    EndsMore("AWS4-HMAC-SHA256 ", Text(AWS4, g, UNSPACED), t);
  }

  lemma UnspacedEnding(before: string, literal: string, behind: string)
    ensures Line(before, false, literal, behind) + "" == before + ("," + (literal + behind))
  {
    assert Space(false) + (literal + behind) == literal + behind;
  }

  lemma EndsNestAgain(s: string, t: string, u: string)
    requires EndsWith(s, t) && EndsWith(t, u)
    ensures EndsWith(s, u)
  {
    assert s[|s| - |u|..] == s[|s| - |t|..][|t| - |u|..];
  }

  lemma SignatureHasNoCredential(signature: string)
    requires IsLowerHex(signature)
    ensures AWS4.credential != "" && Free("," + (AWS4.signature + signature), AWS4.credential[0])
  {
    assert Free(signature, 'C');
  }

  /** Whatever the other parts are, a written header in which something is matched gives back its signature. */
  lemma WrittenSignatureIsRead(s: Signing, signature: string)
    requires IsLowerHex(signature) && signature != "" && Match(AWS4, AuthorizationText(s, signature)).Some?
    ensures Match(AWS4, AuthorizationText(s, signature)).value.signature == signature
  {
    var header, t := AuthorizationText(s, signature), "," + (AWS4.signature + signature);
    WrittenEnds(s, signature);
    Aws4Literals();
    SignatureHasNoCredential(signature);
    assert header == header[..|header| - |t|] + t;
    SignatureAtEndIsRead(AWS4, header[..|header| - |t|], signature);
  }

  lemma VersionIsFirst(s: Signing, signature: string)
    ensures Tokens(AuthorizationText(s, signature), ' ') != []
    ensures Tokens(AuthorizationText(s, signature), ' ')[0] == SIGNING_VERSION
  {
    TextIsWritten(s, signature);
    var text := Text(AWS4, GroupsOf(s, signature), UNSPACED);
    assert "AWS4-HMAC-SHA256 " + text == SIGNING_VERSION + [' '] + text;
    TokensOfMore(SIGNING_VERSION, ' ', text);
  }

  // ---- what is signed is accepted ----

  predicate AuthorizationUnsigned(signedHeaders: string) {
    forall i :: 0 <= i < |Tokens(signedHeaders, ';')| ==> ToLower(Tokens(signedHeaders, ';')[i]) != AUTHORIZATION
  }

  lemma {:induction false} HeadersWithout(fields: Fields, names: seq<string>, n: nat, value: string)
    requires n <= |names| && forall i :: 0 <= i < n ==> ToLower(names[i]) != AUTHORIZATION
    ensures PresentHeaders(fields[AUTHORIZATION := value], names, n) == PresentHeaders(fields, names, n)
  {
    if n > 0 {
      HeadersWithout(fields, names, n - 1, value);
    }
  }

  /** Adding the authorization does not change the request that is signed. */
  lemma CanonicalWithout(lib: Library, r: Content, signedHeaders: string, value: string)
    requires WellFormedQuery(r.target) && AuthorizationUnsigned(signedHeaders)
    ensures CanonicalRequest(lib, r.(fields := r.fields[AUTHORIZATION := value]), signedHeaders)
         == CanonicalRequest(lib, r, signedHeaders)
  {
    var names := Tokens(signedHeaders, ';');
    HeadersWithout(r.fields, names, |names|, value);
  }

  lemma SignatureIsPlain(lib: Library, keys: Keys, stringToSign: string)
    requires IsHmacSha256(lib)
    ensures |Signature(lib, keys, stringToSign)| == 64 && IsLowerHex(Signature(lib, keys, stringToSign))
  {
    EncodedIsLowerHex(lib.hmacOfBytes(SigningKey(lib, keys), stringToSign));
  }

  lemma LowerHexIsPlain(signature: string)
    requires IsLowerHex(signature)
    ensures Free(signature, '\n') && Free(signature, ',')
  {
  }

  /** What is written into a request as its signature. */
  ghost function WrittenSignature(lib: Library, r: Content, s: Signing): string
    requires WellFormedQuery(r.target)
  {
    SignatureOf(lib, WithMandatoryHeaders(lib, r, s), SigningKeys(s))
  }

  lemma WrittenIsPlain(lib: Library, r: Content, s: Signing)
    requires IsHmacSha256(lib) && WellFormedQuery(r.target)
    ensures |WrittenSignature(lib, r, s)| == 64 && IsLowerHex(WrittenSignature(lib, r, s))
  {
    var prepared, keys := WithMandatoryHeaders(lib, r, s), SigningKeys(s);
    SignatureIsPlain(lib, keys, StringToSign(lib, CanonicalRequest(lib, prepared, keys.signedHeaders), keys));
  }

  lemma WrittenField(lib: Library, r: Content, s: Signing)
    requires WellFormedQuery(r.target)
    ensures FieldValue(Signed(lib, r, s), AUTHORIZATION) == AuthorizationText(s, WrittenSignature(lib, r, s))
    ensures FieldValue(Signed(lib, r, s), AUTHORIZATION) != ""
    ensures AMZ_DATE in Signed(lib, r, s).fields && Signed(lib, r, s).fields[AMZ_DATE] == s.amzDate
  {
  }

  function EffectiveSecret(secretAccessKey: string): string {
    if secretAccessKey == "" then "none" else secretAccessKey
  }

  /** The keys read from any request: nothing without a match, and the clock only without a date field. */
  lemma KeysAreRead(r: Content, secretAccessKey: string, now: string)
    requires FieldValue(r, AUTHORIZATION) != ""
    ensures var k, found := AuthorizationKeys(r, secretAccessKey, now), Match(AWS4, FieldValue(r, AUTHORIZATION));
            if found.None? then k == Keys("", "", "", "", "", "", "", "", "", "")
            else
              && k.isoDateTime == (if "x-amz-date" in r.fields then r.fields["x-amz-date"] else now)
              && k.secretAccessKey == (if secretAccessKey == "" then "none" else secretAccessKey)
              && k.requestVersion == "aws4_request"
              && Groups("", k.dateTime, k.region, k.moduleName, k.signedHeaders, k.signature)
                 == found.value.(accessKeyId := "")
              && k.scope == Scope(k.dateTime, k.region, k.moduleName, k.requestVersion)
              && k.signingVersion == SubStringUntil(FieldValue(r, AUTHORIZATION), " ")
  {
    var header := FieldValue(r, AUTHORIZATION);
    FirstToken(header, ' ');
  }

  /** The keys read from a signed request: those of the match, the date of its own field, the caller's secret. */
  lemma ReadKeys(lib: Library, r: Content, s: Signing, secretAccessKey: string, now: string)
    requires IsHmacSha256(lib) && WellFormedQuery(r.target)
    ensures FieldValue(Signed(lib, r, s), AUTHORIZATION) != ""
    ensures var signature := WrittenSignature(lib, r, s);
            AuthorizationKeys(Signed(lib, r, s), secretAccessKey, now)
            == match Match(AWS4, AuthorizationText(s, signature))
               case None => NO_KEYS
               case Some(g) =>
                 Keys(SIGNING_VERSION, EffectiveSecret(secretAccessKey), g.dateTime, s.amzDate,
                      Scope(g.dateTime, g.region, g.moduleName, "aws4_request"),
                      g.region, g.moduleName, "aws4_request", g.signedHeaders, signature)
  {
    var signature := WrittenSignature(lib, r, s);
    WrittenField(lib, r, s);
    WrittenIsPlain(lib, r, s);
    VersionIsFirst(s, signature);
    if Match(AWS4, AuthorizationText(s, signature)).Some? {
      WrittenSignatureIsRead(s, signature);
    }
  }

  /** A signed request is accepted exactly when something is matched and signing it again gives the same signature. */
  lemma SignedVerifiesExactly(lib: Library, r: Content, s: Signing, secretAccessKey: string, now: string)
    requires IsHmacSha256(lib) && WellFormedQuery(r.target)
    ensures var t, signature := Signed(lib, r, s), WrittenSignature(lib, r, s);
            && FieldValue(t, AUTHORIZATION) != ""
            && (Verifies(lib, t, secretAccessKey, now)
                <==> && Match(AWS4, AuthorizationText(s, signature)).Some?
                     && SignatureOf(lib, t, AuthorizationKeys(t, secretAccessKey, now)) == signature)
  {
    ReadKeys(lib, r, s, secretAccessKey, now);
    WrittenIsPlain(lib, r, s);
  }

  /** The written header is read back, under the same secret and within one clock second, and is not itself signed. */
  ghost predicate IsKept(lib: Library, r: Content, s: Signing, secretAccessKey: string)
    requires WellFormedQuery(r.target)
  {
    && IsReadBack(s, WrittenSignature(lib, r, s)) && s.secretAccessKey == EffectiveSecret(secretAccessKey)
    && s.amzDate == s.isoDateTime && AuthorizationUnsigned(s.signedHeaders)
  }

  lemma KeptKeys(lib: Library, r: Content, s: Signing, secretAccessKey: string, now: string)
    requires IsHmacSha256(lib) && WellFormedQuery(r.target)
    ensures FieldValue(Signed(lib, r, s), AUTHORIZATION) != ""
    ensures AuthorizationKeys(Signed(lib, r, s), secretAccessKey, now)
            == SigningKeys(s).(signature := WrittenSignature(lib, r, s))
       <==> && IsReadBack(s, WrittenSignature(lib, r, s)) && s.secretAccessKey == EffectiveSecret(secretAccessKey)
            && s.amzDate == s.isoDateTime
  {
    ReadKeys(lib, r, s, secretAccessKey, now);
    WrittenIsPlain(lib, r, s);
    if Match(AWS4, AuthorizationText(s, WrittenSignature(lib, r, s))).Some? {
      WrittenSignatureIsRead(s, WrittenSignature(lib, r, s));
    }
  }

  lemma KeptIsAccepted(lib: Library, r: Content, s: Signing, secretAccessKey: string, now: string)
    requires IsHmacSha256(lib) && WellFormedQuery(r.target) && IsKept(lib, r, s, secretAccessKey)
    ensures FieldValue(Signed(lib, r, s), AUTHORIZATION) != "" && Verifies(lib, Signed(lib, r, s), secretAccessKey, now)
  {
    SignedVerifiesExactly(lib, r, s, secretAccessKey, now);
    KeptKeys(lib, r, s, secretAccessKey, now);
    CanonicalWithout(lib, WithMandatoryHeaders(lib, r, s), s.signedHeaders,
                     AuthorizationText(s, WrittenSignature(lib, r, s)));
  }

  /** A request signed within one clock second is accepted under the same secret, at whatever later time. */
  lemma SignThenVerify(lib: Library, r: Content, s: Signing, secretAccessKey: string, now: string)
    requires IsHmacSha256(lib) && IsSignable(s) && AuthorizationUnsigned(s.signedHeaders) && WellFormedQuery(r.target)
    requires s.amzDate == s.isoDateTime && s.secretAccessKey == EffectiveSecret(secretAccessKey)
    ensures FieldValue(Signed(lib, r, s), AUTHORIZATION) != ""
    ensures Verifies(lib, Signed(lib, r, s), secretAccessKey, now)
  {
    WrittenIsPlain(lib, r, s);
    LowerHexIsPlain(WrittenSignature(lib, r, s));
    WrittenIsMatched(s, WrittenSignature(lib, r, s));
    KeptIsAccepted(lib, r, s, secretAccessKey, now);
  }

  // ---- what is accepted is what was signed ----

  function HeaderLines(hs: seq<Header>): (ls: seq<string>)
    ensures |ls| == |hs| && forall i :: 0 <= i < |hs| ==> ls[i] == HeaderLine(hs[i])
  {
    seq(|hs|, i requires 0 <= i < |hs| => HeaderLine(hs[i]))
  }

  /** The canonical request line by line; an empty line closes the headers. */
  ghost function CanonicalLines(lib: Library, r: Content, signedHeaders: string): seq<string>
    requires WellFormedQuery(r.target)
  {
    [r.verb, lib.urlEncode(r.target), Canonical(QueryParameters(r.target))]
    + HeaderLines(SignedHeaders(r.fields, signedHeaders))
    + ["", signedHeaders, HashedPayload(lib, r.body)]
  }

  lemma JoinCons(line: string, rest: seq<string>)
    requires rest != []
    ensures JoinWith([line] + rest, '\n') == line + ("\n" + JoinWith(rest, '\n'))
  {
    assert ([line] + rest)[1..] == rest;
    Prepend(line, "\n", JoinWith(rest, '\n'));
  }

  lemma {:induction false} BlockIsJoin(hs: seq<Header>, rest: seq<string>)
    requires rest != []
    ensures Block(hs) + JoinWith(rest, '\n') == JoinWith(HeaderLines(hs) + rest, '\n')
  {
    if hs == [] {
      assert HeaderLines(hs) + rest == rest;
    } else {
      var before, line := hs[..|hs| - 1], HeaderLine(hs[|hs| - 1]);
      BlockIsJoin(before, [line] + rest);
      JoinCons(line, rest);
      assert HeaderLines(hs) + rest == HeaderLines(before) + ([line] + rest);
      Prepend(Block(before) + line, "\n", JoinWith(rest, '\n'));
      Prepend(Block(before), line, "\n" + JoinWith(rest, '\n'));
    }
  }

  lemma EndLines(signedHeaders: string, hash: string)
    ensures JoinWith(["", signedHeaders, hash], '\n') == "\n" + (signedHeaders + ("\n" + hash))
  {
    JoinCons(signedHeaders, [hash]);
    JoinCons("", [signedHeaders, hash]);
    assert [""] + [signedHeaders, hash] == ["", signedHeaders, hash];
    assert [signedHeaders] + [hash] == [signedHeaders, hash];
  }

  lemma StartLines(a: string, b: string, c: string, rest: seq<string>)
    requires rest != []
    ensures JoinWith([a, b, c] + rest, '\n') == a + ("\n" + (b + ("\n" + (c + ("\n" + JoinWith(rest, '\n'))))))
  {
    JoinCons(c, rest);
    JoinCons(b, [c] + rest);
    JoinCons(a, [b] + ([c] + rest));
    assert [a] + ([b] + ([c] + rest)) == [a, b, c] + rest;
  }

  lemma Regroup(a: seq<string>, b: seq<string>, c: seq<string>)
    ensures a + b + c == a + (b + c)
  {
  }

  lemma CanonicalIsJoin(lib: Library, r: Content, signedHeaders: string)
    requires WellFormedQuery(r.target)
    ensures CanonicalRequest(lib, r, signedHeaders) == JoinWith(CanonicalLines(lib, r, signedHeaders), '\n')
  {
    var hs, hash := SignedHeaders(r.fields, signedHeaders), HashedPayload(lib, r.body);
    var end := ["", signedHeaders, hash];
    var query := Canonical(QueryParameters(r.target));
    EndLines(signedHeaders, hash);
    BlockIsJoin(hs, end);
    StartLines(r.verb, lib.urlEncode(r.target), query, HeaderLines(hs) + end);
    Regroup([r.verb, lib.urlEncode(r.target), query], HeaderLines(hs), end);
    Prepend(Block(hs), "\n", signedHeaders + ("\n" + hash));
  }

  /** No line of the canonical request is broken, and no header name holds a colon. */
  ghost predicate IsLineSafe(lib: Library, r: Content, signedHeaders: string)
    requires WellFormedQuery(r.target)
  {
    && AllFree(CanonicalLines(lib, r, signedHeaders), '\n')
    && NamesColonFree(SignedHeaders(r.fields, signedHeaders))
  }

  predicate NamesColonFree(hs: seq<Header>) {
    forall i :: 0 <= i < |hs| ==> Free(hs[i].name, ':')
  }

  lemma NotEmptyHash(lib: Library, payload: string)
    requires |lib.sha256(payload)| == 32
    ensures HashedPayload(lib, payload) != ""
  {
  }

  /**
   * The lines of a canonical request: method, encoded target, query, a line for each signed header that is there, an
   * empty line, the list of signed headers, and the hash of the payload.
   */
  lemma CanonicalReadsBack(lib: Library, r: Content, signedHeaders: string)
    requires WellFormedQuery(r.target) && IsLineSafe(lib, r, signedHeaders) && |lib.sha256(r.body)| == 32
    ensures var hs := SignedHeaders(r.fields, signedHeaders);
            var lines := Tokens(CanonicalRequest(lib, r, signedHeaders), '\n');
            && |lines| == |hs| + 6
            && lines[0] == r.verb && lines[1] == lib.urlEncode(r.target)
            && lines[2] == Canonical(QueryParameters(r.target))
            && (forall i :: 0 <= i < |hs| ==> lines[3 + i] == hs[i].name + ":" + hs[i].value)
            && lines[|hs| + 3] == "" && lines[|hs| + 4] == signedHeaders
            && lines[|hs| + 5] == Encoded(lib.sha256(r.body))
  {
    var hs, query := SignedHeaders(r.fields, signedHeaders), Canonical(QueryParameters(r.target));
    CanonicalIsJoin(lib, r, signedHeaders);
    NotEmptyHash(lib, r.body);
    LinesAt(r.verb, lib.urlEncode(r.target), query, HeaderLines(hs), signedHeaders, HashedPayload(lib, r.body));
    SplitUndoesJoin(CanonicalLines(lib, r, signedHeaders), '\n');
  }

  lemma LinesAt(a: string, b: string, c: string, v: seq<string>, x: string, y: string)
    ensures var lines := [a, b, c] + v + ["", x, y];
            && |lines| == |v| + 6 && lines[0] == a && lines[1] == b && lines[2] == c
            && (forall i :: 0 <= i < |v| ==> lines[3 + i] == v[i])
            && lines[|v| + 3] == "" && lines[|v| + 4] == x && lines[|v| + 5] == y
  {
  }

  /** The lines of a string to sign. */
  lemma StringToSignReadsBack(lib: Library, canonicalRequest: string, keys: Keys)
    requires AreLines(keys) && |lib.sha256(canonicalRequest)| == 32
    ensures Tokens(StringToSign(lib, canonicalRequest, keys), '\n')
         == [keys.signingVersion, keys.isoDateTime, keys.scope, Encoded(lib.sha256(canonicalRequest))]
  {
    var hash := HashedPayload(lib, canonicalRequest);
    NotEmptyHash(lib, canonicalRequest);
    EncodedIsLowerHex(lib.sha256(canonicalRequest));
    TokensOfOne(hash, '\n');
    LineThen(keys.scope, hash);
    LineThen(keys.isoDateTime, keys.scope + ("\n" + hash));
    LineThen(keys.signingVersion, keys.isoDateTime + ("\n" + (keys.scope + ("\n" + hash))));
    FourTokens(keys.signingVersion, keys.isoDateTime, keys.scope, hash);
  }

  lemma FourTokens(a: string, b: string, c: string, d: string)
    ensures [a] + ([b] + ([c] + [d])) == [a, b, c, d]
  {
  }

  lemma LineThen(line: string, rest: string)
    requires Free(line, '\n')
    ensures Tokens(line + ("\n" + rest), '\n') == [line] + Tokens(rest, '\n')
  {
    Prepend(line, "\n", rest);
    TokensOfMore(line, '\n', rest);
  }

  /** The scope is date, region, module and version in this order. */
  lemma ScopeReadsBack(dateString: string, region: string, moduleName: string, requestVersion: string)
    requires Free(dateString, '/') && Free(region, '/') && Free(moduleName, '/') && Free(requestVersion, '/')
    requires requestVersion != ""
    ensures Tokens(Scope(dateString, region, moduleName, requestVersion), '/')
         == [dateString, region, moduleName, requestVersion]
  {
    TokensOfOne(requestVersion, '/');
    PartThen(moduleName, requestVersion);
    PartThen(region, moduleName + ("/" + requestVersion));
    PartThen(dateString, region + ("/" + (moduleName + ("/" + requestVersion))));
    RightNested(dateString, region, moduleName, requestVersion, "/");
    FourTokens(dateString, region, moduleName, requestVersion);
  }

  lemma PartThen(part: string, rest: string)
    requires Free(part, '/')
    ensures Tokens(part + ("/" + rest), '/') == [part] + Tokens(rest, '/')
  {
    Prepend(part, "/", rest);
    TokensOfMore(part, '/', rest);
  }

  lemma RightNested(a: string, b: string, c: string, d: string, x: string)
    ensures a + x + b + x + c + x + d == a + (x + (b + (x + (c + (x + d)))))
  {
  }

  /** The same in everything that a canonical request says. */
  ghost predicate SameRequest(lib: Library, r: Content, q: Content, signedHeaders: string)
    requires WellFormedQuery(r.target) && WellFormedQuery(q.target)
  {
    && r.verb == q.verb && lib.urlEncode(r.target) == lib.urlEncode(q.target)
    && Canonical(QueryParameters(r.target)) == Canonical(QueryParameters(q.target))
    && SignedHeaders(r.fields, signedHeaders) == SignedHeaders(q.fields, signedHeaders)
    && lib.sha256(r.body) == lib.sha256(q.body)
  }

  lemma LinesSplit(a: seq<string>, b: seq<string>, c: seq<string>, x: seq<string>, y: seq<string>, z: seq<string>)
    requires |a| == |x| && |c| == |z| && a + b + c == x + y + z
    ensures a == x && b == y && c == z
  {
    assert (a + b + c)[..|a|] == a && (x + y + z)[..|x|] == x;
    assert (a + b + c)[|a|..|a| + |b|] == b && (x + y + z)[|x|..|x| + |y|] == y;
    assert (a + b + c)[|a| + |b|..] == c && (x + y + z)[|x| + |y|..] == z;
  }

  lemma LinesNameHeaders(hs: seq<Header>, gs: seq<Header>)
    requires NamesColonFree(hs) && NamesColonFree(gs) && HeaderLines(hs) == HeaderLines(gs)
    ensures hs == gs
  {
    assert |HeaderLines(hs)| == |HeaderLines(gs)|;
    forall i | 0 <= i < |hs| ensures hs[i] == gs[i] {
      assert HeaderLines(hs)[i] == HeaderLines(gs)[i];
      assert Free(hs[i].name, ':') && Free(gs[i].name, ':');
      FirstDelimiterUnique(hs[i].name, gs[i].name, ':', hs[i].value, gs[i].value);
    }
  }

  lemma HashIsPayload(lib: Library, a: string, b: string)
    ensures HashedPayload(lib, a) == HashedPayload(lib, b) <==> lib.sha256(a) == lib.sha256(b)
  {
    DecodeInvertsEncode(lib.sha256(a));
    DecodeInvertsEncode(lib.sha256(b));
  }

  /** A canonical request determines each of its parts, and the list of signed headers. */
  lemma CanonicalIsUnambiguous(lib: Library, r: Content, signed: string, q: Content, signedToo: string)
    requires WellFormedQuery(r.target) && WellFormedQuery(q.target)
    requires IsLineSafe(lib, r, signed) && IsLineSafe(lib, q, signedToo)
    ensures CanonicalRequest(lib, r, signed) == CanonicalRequest(lib, q, signedToo)
       <==> signed == signedToo && SameRequest(lib, r, q, signed)
  {
    HashIsPayload(lib, r.body, q.body);
    if CanonicalRequest(lib, r, signed) == CanonicalRequest(lib, q, signedToo) {
      CanonicalIsJoin(lib, r, signed);
      CanonicalIsJoin(lib, q, signedToo);
      JoinIsInjective(CanonicalLines(lib, r, signed), CanonicalLines(lib, q, signedToo), '\n');
      var hs, gs := SignedHeaders(r.fields, signed), SignedHeaders(q.fields, signedToo);
      LinesSplit([r.verb, lib.urlEncode(r.target), Canonical(QueryParameters(r.target))], HeaderLines(hs),
                 ["", signed, HashedPayload(lib, r.body)],
                 [q.verb, lib.urlEncode(q.target), Canonical(QueryParameters(q.target))], HeaderLines(gs),
                 ["", signedToo, HashedPayload(lib, q.body)]);
      LinesNameHeaders(hs, gs);
    }
  }

  predicate AreLines(keys: Keys) {
    Free(keys.signingVersion, '\n') && Free(keys.isoDateTime, '\n') && Free(keys.scope, '\n')
  }

  /** A string to sign determines its four fields. */
  lemma StringToSignIsUnambiguous(lib: Library, c: string, k: Keys, d: string, l: Keys)
    requires AreLines(k) && AreLines(l)
    ensures StringToSign(lib, c, k) == StringToSign(lib, d, l)
       <==> && k.signingVersion == l.signingVersion && k.isoDateTime == l.isoDateTime && k.scope == l.scope
            && lib.sha256(c) == lib.sha256(d)
  {
    HashIsPayload(lib, c, d);
    if StringToSign(lib, c, k) == StringToSign(lib, d, l) {
      PeelLine(k.signingVersion, k.isoDateTime + ("\n" + (k.scope + ("\n" + HashedPayload(lib, c)))),
               l.signingVersion, l.isoDateTime + ("\n" + (l.scope + ("\n" + HashedPayload(lib, d)))));
      PeelLine(k.isoDateTime, k.scope + ("\n" + HashedPayload(lib, c)),
               l.isoDateTime, l.scope + ("\n" + HashedPayload(lib, d)));
      PeelLine(k.scope, HashedPayload(lib, c), l.scope, HashedPayload(lib, d));
    }
  }

  lemma PeelLine(a: string, x: string, b: string, y: string)
    requires Free(a, '\n') && Free(b, '\n') && a + ("\n" + x) == b + ("\n" + y)
    ensures a == b && x == y
  {
    Prepend(a, "\n", x);
    Prepend(b, "\n", y);
    FirstDelimiterUnique(a, b, '\n', x, y);
  }

  /**
   * Two requests that are accepted with one `Authorization` header under one secret say the same in every signed part
   * and carry the same date; otherwise the two texts at hand collide, under the keyed hash or under SHA-256.
   */
  lemma AcceptedIsWhatWasSigned(lib: Library, r: Content, q: Content, secretAccessKey: string, now: string)
    requires WellFormedQuery(r.target) && WellFormedQuery(q.target)
    requires FieldValue(r, AUTHORIZATION) == FieldValue(q, AUTHORIZATION) != ""
    requires Verifies(lib, r, secretAccessKey, now) && Verifies(lib, q, secretAccessKey, now)
    requires var k, l := AuthorizationKeys(r, secretAccessKey, now), AuthorizationKeys(q, secretAccessKey, now);
             && AreLines(k) && AreLines(l)
             && IsLineSafe(lib, r, k.signedHeaders) && IsLineSafe(lib, q, k.signedHeaders)
    ensures var k, l := AuthorizationKeys(r, secretAccessKey, now), AuthorizationKeys(q, secretAccessKey, now);
            var c, d := CanonicalRequest(lib, r, k.signedHeaders), CanonicalRequest(lib, q, k.signedHeaders);
            var a, b := StringToSign(lib, c, k), StringToSign(lib, d, l);
            || (SameRequest(lib, r, q, k.signedHeaders) && k.isoDateTime == l.isoDateTime)
            || (a != b && lib.hmacOfBytes(SigningKey(lib, k), a) == lib.hmacOfBytes(SigningKey(lib, k), b))
            || (c != d && lib.sha256(c) == lib.sha256(d))
  {
    var k, l := AuthorizationKeys(r, secretAccessKey, now), AuthorizationKeys(q, secretAccessKey, now);
    assert l == k.(isoDateTime := l.isoDateTime);
    var c, d := CanonicalRequest(lib, r, k.signedHeaders), CanonicalRequest(lib, q, k.signedHeaders);
    var a, b := StringToSign(lib, c, k), StringToSign(lib, d, l);
    DecodeInvertsEncode(lib.hmacOfBytes(SigningKey(lib, k), a));
    DecodeInvertsEncode(lib.hmacOfBytes(SigningKey(lib, k), b));
    StringToSignIsUnambiguous(lib, c, k, d, l);
    CanonicalIsUnambiguous(lib, r, k.signedHeaders, q, k.signedHeaders);
  }

  // ---- where signing and verifying part ----

  lemma {:induction false} HeadersWith(fields: Fields, names: seq<string>, n: nat, value: string)
    requires n <= |names| && AUTHORIZATION !in fields
    ensures var more := |PresentHeaders(fields[AUTHORIZATION := value], names, n)|;
            && more >= |PresentHeaders(fields, names, n)|
            && ((exists i :: 0 <= i < n && ToLower(names[i]) == AUTHORIZATION)
                ==> more > |PresentHeaders(fields, names, n)|)
  {
    if n > 0 {
      HeadersWith(fields, names, n - 1, value);
    }
  }

  /** Signing the authorization itself changes the canonical request. */
  lemma CanonicalWith(lib: Library, r: Content, signedHeaders: string, value: string)
    requires WellFormedQuery(r.target) && AUTHORIZATION !in r.fields && !AuthorizationUnsigned(signedHeaders)
    requires IsLineSafe(lib, r, signedHeaders)
    requires IsLineSafe(lib, r.(fields := r.fields[AUTHORIZATION := value]), signedHeaders)
    ensures CanonicalRequest(lib, r.(fields := r.fields[AUTHORIZATION := value]), signedHeaders)
         != CanonicalRequest(lib, r, signedHeaders)
  {
    var names := Tokens(signedHeaders, ';');
    HeadersWith(r.fields, names, |names|, value);
    CanonicalIsUnambiguous(lib, r, signedHeaders, r.(fields := r.fields[AUTHORIZATION := value]), signedHeaders);
  }

  /** Two different pairs of key and message have the same keyed hash. */
  predicate StringHashesCollide(lib: Library, key: string, message: string, key': string, message': string) {
    (key != key' || message != message') && lib.hmacOfString(key, message) == lib.hmacOfString(key', message')
  }

  predicate ByteHashesCollide(lib: Library, key: seq<Byte>, message: string, key': seq<Byte>, message': string) {
    (key != key' || message != message') && lib.hmacOfBytes(key, message) == lib.hmacOfBytes(key', message')
  }

  /**
   * One of the five keyed hashes that the protocol prescribes, over date, region, module, version and string to sign,
   * takes two different pairs of key and message to one value.
   */
  predicate ChainCollides(lib: Library, k: Keys, x: string, l: Keys, y: string) {
    var k1, l1 := lib.hmacOfString("AWS4" + k.secretAccessKey, k.dateTime),
                  lib.hmacOfString("AWS4" + l.secretAccessKey, l.dateTime);
    var k2, l2 := lib.hmacOfBytes(k1, k.region), lib.hmacOfBytes(l1, l.region);
    var k3, l3 := lib.hmacOfBytes(k2, k.moduleName), lib.hmacOfBytes(l2, l.moduleName);
    var k4, l4 := lib.hmacOfBytes(k3, k.requestVersion), lib.hmacOfBytes(l3, l.requestVersion);
    || StringHashesCollide(lib, "AWS4" + k.secretAccessKey, k.dateTime, "AWS4" + l.secretAccessKey, l.dateTime)
    || ByteHashesCollide(lib, k1, k.region, l1, l.region)
    || ByteHashesCollide(lib, k2, k.moduleName, l2, l.moduleName)
    || ByteHashesCollide(lib, k3, k.requestVersion, l3, l.requestVersion)
    || ByteHashesCollide(lib, k4, x, l4, y)
  }

  /**
   * A signature determines secret, date, region, module, version and string to sign, unless one of the keyed hashes
   * collides.
   */
  lemma SignatureDetermines(lib: Library, k: Keys, x: string, l: Keys, y: string)
    requires Signature(lib, k, x) == Signature(lib, l, y)
    ensures || ChainCollides(lib, k, x, l, y)
            || (&& k.secretAccessKey == l.secretAccessKey && k.dateTime == l.dateTime && k.region == l.region
                && k.moduleName == l.moduleName && k.requestVersion == l.requestVersion && x == y)
  {
    DecodeInvertsEncode(lib.hmacOfBytes(SigningKey(lib, k), x));
    DecodeInvertsEncode(lib.hmacOfBytes(SigningKey(lib, l), y));
    SameSecret(k.secretAccessKey, l.secretAccessKey);
  }

  lemma SameSecret(a: string, b: string)
    ensures "AWS4" + a == "AWS4" + b ==> a == b
  {
    assert ("AWS4" + a)[4..] == a && ("AWS4" + b)[4..] == b;
  }

  /** Two different inputs that the two signings of `c` and `d` hash have the same hash. */
  predicate Collides(lib: Library, c: string, k: Keys, d: string, l: Keys) {
    || ChainCollides(lib, k, StringToSign(lib, c, k), l, StringToSign(lib, d, l))
    || (c != d && lib.sha256(c) == lib.sha256(d))
  }

  lemma SignaturesAgree(lib: Library, c: string, k: Keys, d: string, l: Keys)
    requires AreLines(k) && AreLines(l)
    requires Signature(lib, k, StringToSign(lib, c, k)) == Signature(lib, l, StringToSign(lib, d, l))
    ensures || Collides(lib, c, k, d, l)
            || (&& c == d && l == k.(signedHeaders := l.signedHeaders, signature := l.signature))
  {
    SignatureDetermines(lib, k, StringToSign(lib, c, k), l, StringToSign(lib, d, l));
    StringToSignIsUnambiguous(lib, c, k, d, l);
  }

  /**
   * These conditions are exact, up to collisions: a new request that is accepted was kept, or two different texts that
   * the two signings hash collide. No line of the two canonical requests may be broken.
   */
  lemma AcceptedWasKept(lib: Library, r: Content, s: Signing, secretAccessKey: string, now: string)
    requires IsHmacSha256(lib) && WellFormedQuery(r.target) && AUTHORIZATION !in r.fields
    requires AreLines(SigningKeys(s)) && Free(s.amzDate, '\n')
    requires IsLineSafe(lib, WithMandatoryHeaders(lib, r, s), s.signedHeaders)
    requires FieldValue(Signed(lib, r, s), AUTHORIZATION) != "" && Verifies(lib, Signed(lib, r, s), secretAccessKey, now)
    requires IsLineSafe(lib, Signed(lib, r, s), AuthorizationKeys(Signed(lib, r, s), secretAccessKey, now).signedHeaders)
    ensures var k, l := SigningKeys(s), AuthorizationKeys(Signed(lib, r, s), secretAccessKey, now);
            || IsKept(lib, r, s, secretAccessKey)
            || Collides(lib, CanonicalRequest(lib, WithMandatoryHeaders(lib, r, s), k.signedHeaders), k,
                        CanonicalRequest(lib, Signed(lib, r, s), l.signedHeaders), l)
  {
    SignedVerifiesExactly(lib, r, s, secretAccessKey, now);
    ReadLines(lib, r, s, secretAccessKey, now);
    var k, l := SigningKeys(s), AuthorizationKeys(Signed(lib, r, s), secretAccessKey, now);
    SignaturesAgree(lib, CanonicalRequest(lib, WithMandatoryHeaders(lib, r, s), k.signedHeaders), k,
                    CanonicalRequest(lib, Signed(lib, r, s), l.signedHeaders), l);
    if CanonicalRequest(lib, WithMandatoryHeaders(lib, r, s), k.signedHeaders)
       == CanonicalRequest(lib, Signed(lib, r, s), l.signedHeaders)
    {
      SameCanonical(lib, r, s, l.signedHeaders);
      KeptKeys(lib, r, s, secretAccessKey, now);
    }
  }

  /** Equal canonical requests list the same headers, and the authorization is not among them. */
  lemma SameCanonical(lib: Library, r: Content, s: Signing, signedHeaders: string)
    requires WellFormedQuery(r.target) && AUTHORIZATION !in r.fields
    requires IsLineSafe(lib, WithMandatoryHeaders(lib, r, s), s.signedHeaders)
    requires IsLineSafe(lib, Signed(lib, r, s), signedHeaders)
    requires CanonicalRequest(lib, WithMandatoryHeaders(lib, r, s), s.signedHeaders)
          == CanonicalRequest(lib, Signed(lib, r, s), signedHeaders)
    ensures signedHeaders == s.signedHeaders && AuthorizationUnsigned(s.signedHeaders)
  {
    var prepared, value := WithMandatoryHeaders(lib, r, s), AuthorizationText(s, WrittenSignature(lib, r, s));
    NotAuthorization();
    SameCanonicalWith(lib, prepared, value, s.signedHeaders, signedHeaders);
  }

  lemma SameCanonicalWith(lib: Library, r: Content, value: string, signed: string, signedToo: string)
    requires WellFormedQuery(r.target) && AUTHORIZATION !in r.fields
    requires IsLineSafe(lib, r, signed) && IsLineSafe(lib, r.(fields := r.fields[AUTHORIZATION := value]), signedToo)
    requires CanonicalRequest(lib, r, signed)
          == CanonicalRequest(lib, r.(fields := r.fields[AUTHORIZATION := value]), signedToo)
    ensures signedToo == signed && AuthorizationUnsigned(signed)
  {
    CanonicalIsUnambiguous(lib, r, signed, r.(fields := r.fields[AUTHORIZATION := value]), signedToo);
    if !AuthorizationUnsigned(signed) {
      CanonicalWith(lib, r, signed, value);
    }
  }

  /** In particular, signing the authorization itself or across a clock second needs a collision outside the key chain. */
  lemma AcceptedOtherwiseCollides(lib: Library, r: Content, s: Signing, secretAccessKey: string, now: string)
    requires IsHmacSha256(lib) && IsSignable(s) && WellFormedQuery(r.target)
    requires s.secretAccessKey == EffectiveSecret(secretAccessKey) && AUTHORIZATION !in r.fields
    requires AreLines(SigningKeys(s)) && Free(s.amzDate, '\n')
    requires IsLineSafe(lib, WithMandatoryHeaders(lib, r, s), s.signedHeaders)
    requires IsLineSafe(lib, Signed(lib, r, s), s.signedHeaders)
    requires !AuthorizationUnsigned(s.signedHeaders) || s.amzDate != s.isoDateTime
    requires FieldValue(Signed(lib, r, s), AUTHORIZATION) != "" && Verifies(lib, Signed(lib, r, s), secretAccessKey, now)
    ensures var k, l := SigningKeys(s), SigningKeys(s).(isoDateTime := s.amzDate);
            var c := CanonicalRequest(lib, WithMandatoryHeaders(lib, r, s), s.signedHeaders);
            var d := CanonicalRequest(lib, Signed(lib, r, s), s.signedHeaders);
            var a, b := StringToSign(lib, c, k), StringToSign(lib, d, l);
            || (a != b && lib.hmacOfBytes(SigningKey(lib, k), a) == lib.hmacOfBytes(SigningKey(lib, k), b))
            || (c != d && lib.sha256(c) == lib.sha256(d))
  {
    SignableKeys(lib, r, s, secretAccessKey, now);
    AcceptedWasKept(lib, r, s, secretAccessKey, now);
    CollidesOutside(lib, CanonicalRequest(lib, WithMandatoryHeaders(lib, r, s), s.signedHeaders), SigningKeys(s),
                    CanonicalRequest(lib, Signed(lib, r, s), s.signedHeaders),
                    AuthorizationKeys(Signed(lib, r, s), secretAccessKey, now), s.amzDate);
  }

  lemma SignableKeys(lib: Library, r: Content, s: Signing, secretAccessKey: string, now: string)
    requires IsHmacSha256(lib) && IsSignable(s) && WellFormedQuery(r.target)
    ensures FieldValue(Signed(lib, r, s), AUTHORIZATION) != ""
    ensures AuthorizationKeys(Signed(lib, r, s), secretAccessKey, now)
         == SigningKeys(s).(secretAccessKey := EffectiveSecret(secretAccessKey), isoDateTime := s.amzDate,
                            signature := WrittenSignature(lib, r, s))
  {
    WrittenIsPlain(lib, r, s);
    LowerHexIsPlain(WrittenSignature(lib, r, s));
    WrittenIsMatched(s, WrittenSignature(lib, r, s));
    ReadKeys(lib, r, s, secretAccessKey, now);
  }

  /** The key chains of keys that differ in the date and the signature only are the same. */
  lemma CollidesOutside(lib: Library, c: string, k: Keys, d: string, l: Keys, isoDateTime: string)
    requires Collides(lib, c, k, d, l) && l == k.(isoDateTime := isoDateTime, signature := l.signature)
    ensures var a, b := StringToSign(lib, c, k), StringToSign(lib, d, k.(isoDateTime := isoDateTime));
            || (a != b && lib.hmacOfBytes(SigningKey(lib, k), a) == lib.hmacOfBytes(SigningKey(lib, k), b))
            || (c != d && lib.sha256(c) == lib.sha256(d))
  {
  }

  lemma MatchedGroups(w: Literals, header: string)
    requires AreLiterals(w) && Match(w, header).Some?
    ensures AreGroups(Match(w, header).value)
  {
    var i := MatchIsLeftmost(w, header);
    var p := MatchedIsText(w, header[i..]);
  }

  /** What a match reads is free of line ends. */
  lemma ReadLines(lib: Library, r: Content, s: Signing, secretAccessKey: string, now: string)
    requires IsHmacSha256(lib) && WellFormedQuery(r.target) && Free(s.amzDate, '\n')
    requires Match(AWS4, AuthorizationText(s, WrittenSignature(lib, r, s))).Some?
    ensures FieldValue(Signed(lib, r, s), AUTHORIZATION) != ""
    ensures AreLines(AuthorizationKeys(Signed(lib, r, s), secretAccessKey, now))
    ensures AuthorizationKeys(Signed(lib, r, s), secretAccessKey, now).signature == WrittenSignature(lib, r, s)
  {
    ReadKeys(lib, r, s, secretAccessKey, now);
    Aws4Literals();
    MatchedGroups(AWS4, AuthorizationText(s, WrittenSignature(lib, r, s)));
    ScopeIsLine(Match(AWS4, AuthorizationText(s, WrittenSignature(lib, r, s))).value);
  }

  lemma ScopeIsLine(g: Groups)
    requires AreGroups(g)
    ensures Free(SIGNING_VERSION, '\n')
    ensures Free(Scope(g.dateTime, g.region, g.moduleName, "aws4_request"), '\n')
  {
    assert Free(g.dateTime, '\n') && Free(g.region, '\n') && Free(g.moduleName, '\n');
  }

  /**
   * That the parts have the form of the pattern is not needed: with this access key they have not, and the request is
   * accepted all the same, because the leftmost match begins at the second credential.
   */
  lemma UnsignableIsAccepted(lib: Library, r: Content, s: Signing, secretAccessKey: string, now: string)
    requires IsHmacSha256(lib) && WellFormedQuery(r.target) && AuthorizationUnsigned(s.signedHeaders)
    requires s.amzDate == s.isoDateTime && s.secretAccessKey == EffectiveSecret(secretAccessKey)
    requires s.accessKeyId == "a Credential=b" && IsSignable(s.(accessKeyId := "b"))
    ensures !IsSignable(s)
    ensures FieldValue(Signed(lib, r, s), AUTHORIZATION) != "" && Verifies(lib, Signed(lib, r, s), secretAccessKey, now)
  {
    assert !In(s.accessKeyId[1], Alphanumeric);
    WrittenIsPlain(lib, r, s);
    LowerHexIsPlain(WrittenSignature(lib, r, s));
    SecondCredential(s, WrittenSignature(lib, r, s));
    KeptIsAccepted(lib, r, s, secretAccessKey, now);
  }

  lemma RegroupKey(a: string, b: string, c: string, d: string, rest: string)
    ensures (a + (b + (c + d))) + rest == a + (b + (c + (d + rest)))
  {
  }

  lemma KeyOfTwo(rest: string)
    ensures "a Credential=b" + rest == "a" + (" " + (AWS4.credential + ("b" + rest)))
  {
    assert "a Credential=b" == "a" + (" " + (AWS4.credential + "b"));
    RegroupKey("a", " ", AWS4.credential, "b", rest);
  }

  lemma SecondCredential(s: Signing, signature: string)
    requires s.accessKeyId == "a Credential=b" && IsSignable(s.(accessKeyId := "b"))
    requires Free(signature, '\n') && Free(signature, ',')
    ensures IsReadBack(s, signature)
  {
    var g := GroupsOf(s.(accessKeyId := "b"), signature);
    var text := Text(AWS4, g, UNSPACED);
    Aws4Literals();
    TextMatches(AWS4, g, UNSPACED);
    WrittenWithTwo(s, signature);
    FirstCredentialFails(text);
    VersionIsPassed(AWS4.credential + ("a" + (" " + text)));
    MatchStarts(AWS4, text);
  }

  lemma WrittenWithTwo(s: Signing, signature: string)
    requires s.accessKeyId == "a Credential=b"
    ensures AuthorizationText(s, signature)
         == "AWS4-HMAC-SHA256 "
            + (AWS4.credential
               + ("a" + (" " + Text(AWS4, GroupsOf(s.(accessKeyId := "b"), signature), UNSPACED))))
  {
    var g := GroupsOf(s, signature);
    TextIsWritten(s, signature);
    SameScope(AWS4, g, "b", UNSPACED);
    KeyOfTwo("/" + (s.dateString + ("/" + ScopeText(AWS4, g, UNSPACED))));
  }

  lemma SameScope(w: Literals, g: Groups, accessKeyId: string, p: Spacing)
    ensures ScopeText(w, g.(accessKeyId := accessKeyId), p) == ScopeText(w, g, p)
  {
  }

  lemma MatchStarts(w: Literals, s: string)
    requires MatchHere(w, s).Some?
    ensures Match(w, s) == MatchHere(w, s)
  {
  }

  lemma NotHere(w: Literals, s: string)
    requires w.credential != "" && (s == "" || s[0] != w.credential[0])
    ensures MatchHere(w, s).None?
  {
  }

  /** No match begins where the access key is not followed by a slash. */
  lemma KeyFails(w: Literals, key: string, rest: string)
    requires AllIn(key, Alphanumeric) && rest != "" && rest[0] != '/' && !In(rest[0], Alphanumeric)
    ensures MatchHere(w, w.credential + (key + rest)).None?
  {
    LiteralThen(w.credential, key + rest);
    RunOf(key, Alphanumeric, rest);
    assert (key + rest)[|key|] == rest[0];
  }

  lemma FirstCredentialFails(text: string)
    ensures Match(AWS4, AWS4.credential + ("a" + (" " + text))) == Match(AWS4, text)
  {
    KeyFails(AWS4, "a", " " + text);
    var prefix := "Credential=a ";
    PrefixOfTwo(text);
    assert (prefix + text)[0..] == prefix + text;
    OnlyOneStart(prefix, text);
    MatchPast(AWS4, prefix, text);
  }

  lemma OnlyOneStart(prefix: string, text: string)
    requires prefix == "Credential=a "
    ensures forall i :: 0 < i < |prefix| ==> MatchHere(AWS4, (prefix + text)[i..]).None?
  {
    forall i | 0 < i < |prefix| ensures MatchHere(AWS4, (prefix + text)[i..]).None? {
      assert prefix[i] != AWS4.credential[0];
      assert (prefix + text)[i..][0] == prefix[i];
      NotHere(AWS4, (prefix + text)[i..]);
    }
  }

  lemma PrefixOfTwo(text: string)
    ensures AWS4.credential + ("a" + (" " + text)) == "Credential=a " + text
  {
    assert "Credential=a " == AWS4.credential + ("a" + " ");
    assert (AWS4.credential + ("a" + " ")) + text == AWS4.credential + ("a" + (" " + text));
  }
}
