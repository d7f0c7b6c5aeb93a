/** AWS Signature Version 4, as `AwsUtils` writes it into a request and checks it there. */
module AwsSignature {
  import opened AuthorizationHeader
  import opened CanonicalQuery
  import opened Hex
  import opened HttpUtils
  import opened StringUtils

  /** What Poco and OpenSSL compute. The two forms of the keyed hash differ in the type of the key. */
  datatype Library = Library(urlEncode: string -> string, sha256: string -> seq<Byte>,
                             hmacOfString: (string, string) -> seq<Byte>, hmacOfBytes: (seq<Byte>, string) -> seq<Byte>)

  /** A keyed hash has 32 bytes. */
  ghost predicate IsHmacSha256(lib: Library) {
    forall k, m {:trigger lib.hmacOfBytes(k, m)} :: |lib.hmacOfBytes(k, m)| == 32
  }

  /** The header fields are kept under their names in lower case, each name once. */
  type Fields = map<string, string>

  datatype Content = Content(verb: string, target: string, fields: Fields, body: string)

  datatype Keys = Keys(signingVersion: string, secretAccessKey: string, dateTime: string, isoDateTime: string,
                       scope: string, region: string, moduleName: string, requestVersion: string,
                       signedHeaders: string, signature: string)

  const NO_KEYS := Keys("", "", "", "", "", "", "", "", "", "")
  const SIGNING_VERSION := "AWS4-HMAC-SHA256"
  const AUTHORIZATION := "authorization"
  const AMZ_DATE := "x-amz-date"

  /** The value of a field, or the empty string. */
  function FieldValue(r: Content, name: string): string {
    if name in r.fields then r.fields[name] else ""
  }

  // ---- the canonical request ----

  datatype Header = Header(name: string, value: string)

  function HeaderLine(h: Header): string {
    h.name + ":" + h.value
  }

  /** Those of the first `n` names that the request has, with their trimmed values. */
  function PresentHeaders(fields: Fields, names: seq<string>, n: nat): seq<Header>
    requires n <= |names|
  {
    if n == 0 then []
    else PresentHeaders(fields, names, n - 1) +
         (var name := ToLower(names[n - 1]);
          if name in fields then [Header(name, Trim(fields[name]))] else [])
  }

  /** If the request has all of the named headers, they are listed in the order of the names, with trimmed values. */
  lemma {:induction false} PresentInOrder(fields: Fields, names: seq<string>, n: nat)
    requires n <= |names| && forall i :: 0 <= i < n ==> ToLower(names[i]) in fields
    ensures var hs := PresentHeaders(fields, names, n);
            && |hs| == n
            && forall i :: 0 <= i < n ==> hs[i] == Header(ToLower(names[i]), Trim(fields[ToLower(names[i])]))
  {
    if n > 0 {
      PresentInOrder(fields, names, n - 1);
    }
  }

  /** A header that the request has not is left out. */
  lemma {:induction false} AbsentIsSkipped(fields: Fields, names: seq<string>, n: nat, name: string)
    requires n <= |names| && name !in fields
    ensures forall i :: 0 <= i < |PresentHeaders(fields, names, n)| ==> PresentHeaders(fields, names, n)[i].name != name
  {
    if n > 0 {
      AbsentIsSkipped(fields, names, n - 1, name);
    }
  }

  function SignedHeaders(fields: Fields, signedHeaders: string): seq<Header> {
    var names := Tokens(signedHeaders, ';');
    PresentHeaders(fields, names, |names|)
  }

  /** Every line with its line end. */
  function Block(hs: seq<Header>): string {
    if hs == [] then "" else Block(hs[..|hs| - 1]) + HeaderLine(hs[|hs| - 1]) + "\n"
  }

  lemma BlockMore(hs: seq<Header>, h: Header)
    ensures Block(hs + [h]) == Block(hs) + HeaderLine(h) + "\n"
  {
    assert (hs + [h])[..|hs|] == hs;
  }

  lemma HeaderStep(fields: Fields, names: seq<string>, i: nat)
    requires i < |names|
    ensures var name := ToLower(names[i]);
            && Block(PresentHeaders(fields, names, i + 1))
               == Block(PresentHeaders(fields, names, i)) +
                  if name in fields then (name + ":" + Trim(fields[name])) + "\n" else ""
  {
    var name, before := ToLower(names[i]), PresentHeaders(fields, names, i);
    if name in fields {
      BlockMore(before, Header(name, Trim(fields[name])));
      assert PresentHeaders(fields, names, i + 1) == before + [Header(name, Trim(fields[name]))];
    } else {
      assert PresentHeaders(fields, names, i + 1) == before;
    }
  }

  function HashedPayload(lib: Library, payload: string): string {
    Encoded(lib.sha256(payload))
  }

  ghost function CanonicalRequest(lib: Library, r: Content, signedHeaders: string): string
    requires WellFormedQuery(r.target)
  {
    r.verb + ("\n" + (lib.urlEncode(r.target) + ("\n" + (Canonical(QueryParameters(r.target)) + ("\n" +
      (Block(SignedHeaders(r.fields, signedHeaders)) + ("\n" +
        (signedHeaders + ("\n" + HashedPayload(lib, r.body))))))))))
  }

  function StringToSign(lib: Library, canonicalRequest: string, keys: Keys): string {
    keys.signingVersion + ("\n" + (keys.isoDateTime + ("\n" + (keys.scope + ("\n" +
      HashedPayload(lib, canonicalRequest))))))
  }

  function DateKey(lib: Library, keys: Keys): seq<Byte> {
    lib.hmacOfString("AWS4" + keys.secretAccessKey, keys.dateTime)
  }

  function RegionKey(lib: Library, keys: Keys): seq<Byte> {
    lib.hmacOfBytes(DateKey(lib, keys), keys.region)
  }

  function ModuleKey(lib: Library, keys: Keys): seq<Byte> {
    lib.hmacOfBytes(RegionKey(lib, keys), keys.moduleName)
  }

  function SigningKey(lib: Library, keys: Keys): seq<Byte> {
    lib.hmacOfBytes(ModuleKey(lib, keys), keys.requestVersion)
  }

  function Signature(lib: Library, keys: Keys, stringToSign: string): string {
    Encoded(lib.hmacOfBytes(SigningKey(lib, keys), stringToSign))
  }

  /** The signature of a request under given keys. */
  ghost function SignatureOf(lib: Library, r: Content, keys: Keys): string
    requires WellFormedQuery(r.target)
  {
    Signature(lib, keys, StringToSign(lib, CanonicalRequest(lib, r, keys.signedHeaders), keys))
  }

  // ---- signing ----

  /** The configuration, the arguments and the three readings of the clock that go into one signing. */
  datatype Signing = Signing(hostName: string, region: string, accessKeyId: string, secretAccessKey: string,
                             moduleName: string, contentType: string, signedHeaders: string, payload: string,
                             amzDate: string, dateString: string, isoDateTime: string)

  function Scope(dateString: string, region: string, moduleName: string, requestVersion: string): string {
    dateString + "/" + region + "/" + moduleName + "/" + requestVersion
  }

  function SigningKeys(s: Signing): Keys {
    Keys(SIGNING_VERSION, s.secretAccessKey, s.dateString, s.isoDateTime,
         Scope(s.dateString, s.region, s.moduleName, "aws4_request"),
         s.region, s.moduleName, "aws4_request", s.signedHeaders, "")
  }

  function WithMandatoryHeaders(lib: Library, r: Content, s: Signing): Content {
    r.(fields := r.fields["host" := s.hostName]["content-type" := s.contentType]
                         ["x-amz-content-sha256" := HashedPayload(lib, s.payload)]
                         [AMZ_DATE := s.amzDate]["x-amz-security-token" := s.secretAccessKey])
  }

  function AuthorizationText(s: Signing, signature: string): string {
    "AWS4-HMAC-SHA256 " + ("Credential=" + (s.accessKeyId + ("/" + (s.dateString + ("/" + (s.region + ("/" +
      (s.moduleName + ("/" + ("aws4_request" + (",SignedHeaders=" + (s.signedHeaders +
        (",Signature=" + signature)))))))))))))
  }

  ghost function Signed(lib: Library, r: Content, s: Signing): Content
    requires WellFormedQuery(r.target)
  {
    var prepared := WithMandatoryHeaders(lib, r, s);
    var signature := SignatureOf(lib, prepared, SigningKeys(s));
    prepared.(fields := prepared.fields[AUTHORIZATION := AuthorizationText(s, signature)])
  }

  /** Which headers a signing sets, and to what; every other field, and all else, stays. */
  lemma SignedFields(lib: Library, r: Content, s: Signing, name: string)
    requires WellFormedQuery(r.target)
    ensures var t := Signed(lib, r, s);
            && t.verb == r.verb && t.target == r.target && t.body == r.body
            && FieldValue(t, "host") == s.hostName && FieldValue(t, "content-type") == s.contentType
            && FieldValue(t, "x-amz-content-sha256") == Encoded(lib.sha256(s.payload))
            && FieldValue(t, "x-amz-date") == s.amzDate && FieldValue(t, "x-amz-security-token") == s.secretAccessKey
    ensures name !in {"host", "content-type", "x-amz-content-sha256", "x-amz-date", "x-amz-security-token",
                      "authorization"} ==>
              && (name in Signed(lib, r, s).fields <==> name in r.fields)
              && FieldValue(Signed(lib, r, s), name) == FieldValue(r, name)
  {
    var prepared := WithMandatoryHeaders(lib, r, s);
    MandatoryFields(lib, r, s, name);
    var signature := SignatureOf(lib, prepared, SigningKeys(s));
    assert Signed(lib, r, s).fields == prepared.fields[AUTHORIZATION := AuthorizationText(s, signature)];
    NotAuthorization();
  }

  lemma NotAuthorization()
    ensures "host" != AUTHORIZATION && "content-type" != AUTHORIZATION && "x-amz-content-sha256" != AUTHORIZATION
    ensures AMZ_DATE != AUTHORIZATION && "x-amz-security-token" != AUTHORIZATION
  {
    assert |"host"| == 4 && |"content-type"| == 12 && |AMZ_DATE| == 10 && |AUTHORIZATION| == 13;
    assert |"x-amz-content-sha256"| == 20 && |"x-amz-security-token"| == 20;
  }

  lemma NamesDiffer()
    ensures "host" != "content-type" && "host" != "x-amz-content-sha256" && "host" != AMZ_DATE
    ensures "host" != "x-amz-security-token"
    ensures "content-type" != "x-amz-content-sha256" && "content-type" != AMZ_DATE
    ensures "content-type" != "x-amz-security-token"
    ensures "x-amz-content-sha256" != AMZ_DATE && "x-amz-content-sha256" != "x-amz-security-token"
    ensures AMZ_DATE != "x-amz-security-token"
  {
    assert "x-amz-content-sha256"[6] == 'c' && "x-amz-security-token"[6] == 's';
    assert |"host"| == 4 && |"content-type"| == 12 && |AMZ_DATE| == 10;
    assert |"x-amz-content-sha256"| == 20 && |"x-amz-security-token"| == 20;
  }

  lemma FiveEntries(m: Fields, a: string, b: string, c: string, d: string, e: string,
                    v: string, w: string, x: string, y: string, z: string, name: string)
    requires a != b && a != c && a != d && a != e && b != c && b != d && b != e && c != d && c != e && d != e
    ensures var n := m[a := v][b := w][c := x][d := y][e := z];
            && a in n && n[a] == v && b in n && n[b] == w && c in n && n[c] == x && d in n && n[d] == y
            && e in n && n[e] == z
            && (name !in {a, b, c, d, e} ==> (name in n <==> name in m) && (name in m ==> n[name] == m[name]))
  {
  }

  lemma MandatoryFields(lib: Library, r: Content, s: Signing, name: string)
    ensures var t := WithMandatoryHeaders(lib, r, s);
            && t.verb == r.verb && t.target == r.target && t.body == r.body
            && FieldValue(t, "host") == s.hostName && FieldValue(t, "content-type") == s.contentType
            && FieldValue(t, "x-amz-content-sha256") == Encoded(lib.sha256(s.payload))
            && FieldValue(t, "x-amz-date") == s.amzDate && FieldValue(t, "x-amz-security-token") == s.secretAccessKey
    ensures name !in {"host", "content-type", "x-amz-content-sha256", AMZ_DATE, "x-amz-security-token"} ==>
              && (name in WithMandatoryHeaders(lib, r, s).fields <==> name in r.fields)
              && FieldValue(WithMandatoryHeaders(lib, r, s), name) == FieldValue(r, name)
  {
    NamesDiffer();
    FiveEntries(r.fields, "host", "content-type", "x-amz-content-sha256", AMZ_DATE, "x-amz-security-token",
                s.hostName, s.contentType, HashedPayload(lib, s.payload), s.amzDate, s.secretAccessKey, name);
  }

  // ---- verifying ----

  /** Without a match the source throws and catches its own exception, which leaves every key empty. */
  function AuthorizationKeys(r: Content, secretAccessKey: string, now: string): Keys
    requires FieldValue(r, AUTHORIZATION) != ""
  {
    var header := FieldValue(r, AUTHORIZATION);
    match Match(AWS4, header)
    case None => NO_KEYS
    case Some(g) =>
      Keys(Tokens(header, ' ')[0], if secretAccessKey == "" then "none" else secretAccessKey, g.dateTime,
           if AMZ_DATE in r.fields then r.fields[AMZ_DATE] else now,
           Scope(g.dateTime, g.region, g.moduleName, "aws4_request"),
           g.region, g.moduleName, "aws4_request", g.signedHeaders, g.signature)
  }

  ghost predicate Verifies(lib: Library, r: Content, secretAccessKey: string, now: string)
    requires FieldValue(r, AUTHORIZATION) != "" && WellFormedQuery(r.target)
  {
    var keys := AuthorizationKeys(r, secretAccessKey, now);
    Equals(SignatureOf(lib, r, keys), keys.signature)
  }

  // ---- the request that is changed ----

  class HttpRequest {
    var verb: string
    var target: string
    var fields: Fields
    var body: string

    constructor (verb: string, target: string, fields: Fields, body: string)
      ensures Contents() == Content(verb, target, fields, body)
    {
      this.verb, this.target, this.fields, this.body := verb, target, fields, body;
    }

    function Contents(): Content
      reads this
    {
      Content(verb, target, fields, body)
    }

    method GetCanonicalHeaders(signedHeaders: string) returns (canonicalHeaders: string)
      ensures canonicalHeaders == Block(SignedHeaders(fields, signedHeaders))
    {
      canonicalHeaders := "";
      var names := Split(signedHeaders, ';');
      for i := 0 to |names|
        invariant canonicalHeaders == Block(PresentHeaders(fields, names, i))
      {
        var name := ToLower(names[i]);
        HeaderStep(fields, names, i);
        if name in fields {
          canonicalHeaders := canonicalHeaders + (name + ":" + Trim(fields[name])) + "\n";
        }
      }
    }

    method GetCanonicalRequest(lib: Library, signedHeaders: string) returns (canonicalRequest: string)
      requires WellFormedQuery(target)
      ensures canonicalRequest == CanonicalRequest(lib, Contents(), signedHeaders)
    {
      var query := GetCanonicalQueryParameters(target);
      var headers := GetCanonicalHeaders(signedHeaders);
      canonicalRequest := verb + ("\n" + (lib.urlEncode(target) + ("\n" + (query + ("\n" + (headers + ("\n" +
        (signedHeaders + ("\n" + HashedPayload(lib, body))))))))));
    }

    method AddAuthorizationHeader(lib: Library, s: Signing)
      requires WellFormedQuery(target)
      modifies this`fields
      ensures Contents() == Signed(lib, old(Contents()), s)
    {
      ghost var before := Contents();
      fields := fields["host" := s.hostName];
      fields := fields["content-type" := s.contentType];
      fields := fields["x-amz-content-sha256" := HashedPayload(lib, s.payload)];
      fields := fields[AMZ_DATE := s.amzDate];
      fields := fields["x-amz-security-token" := s.secretAccessKey];
      assert Contents() == WithMandatoryHeaders(lib, before, s);
      var keys := SigningKeys(s);
      var canonicalRequest := GetCanonicalRequest(lib, keys.signedHeaders);
      var signature := GetSignature(lib, keys, StringToSign(lib, canonicalRequest, keys));
      fields := fields[AUTHORIZATION := AuthorizationText(s, signature)];
    }

    method VerifySignature(lib: Library, secretAccessKey: string, now: string) returns (ok: bool)
      requires FieldValue(Contents(), AUTHORIZATION) != "" && WellFormedQuery(target)
      ensures ok <==> Verifies(lib, Contents(), secretAccessKey, now)
    {
      var keys := AuthorizationKeys(Contents(), secretAccessKey, now);
      var canonicalRequest := GetCanonicalRequest(lib, keys.signedHeaders);
      var signature := GetSignature(lib, keys, StringToSign(lib, canonicalRequest, keys));
      if !Equals(signature, keys.signature) {
        return false;
      }
      return true;
    }
  }

  /** The chain of keyed hashes over date, region, module, version and string to sign. */
  method GetSignature(lib: Library, keys: Keys, stringToSign: string) returns (signature: string)
    ensures signature == Signature(lib, keys, stringToSign)
    ensures var date := lib.hmacOfString("AWS4" + keys.secretAccessKey, keys.dateTime);
            var region := lib.hmacOfBytes(date, keys.region);
            var service := lib.hmacOfBytes(region, keys.moduleName);
            signature == Encoded(lib.hmacOfBytes(lib.hmacOfBytes(service, keys.requestVersion), stringToSign))
  {
    var digest := lib.hmacOfString("AWS4" + keys.secretAccessKey, keys.dateTime);
    digest := lib.hmacOfBytes(digest, keys.region);
    digest := lib.hmacOfBytes(digest, keys.moduleName);
    digest := lib.hmacOfBytes(digest, keys.requestVersion);
    digest := lib.hmacOfBytes(digest, stringToSign);
    var data := new Byte[|digest|](i requires 0 <= i < |digest| => digest[i]);
    assert data[..] == digest;
    signature := HexEncode(data, |digest|);
    assert data[..|digest|] == digest;
  }
}
