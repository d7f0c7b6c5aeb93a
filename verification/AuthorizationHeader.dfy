/** Writing and matching the `Authorization` header of AWS Signature Version 4. */
module AuthorizationHeader {
  import opened StringUtils
  import opened Wrappers

  datatype CharClass = Alphanumeric | Digits | Word

  /** `[a-zA-Z0-9]`, `[0-9]` and `[a-zA-Z0-9\-]`. */
  predicate In(c: char, class_: CharClass) {
    match class_
    case Digits => '0' <= c <= '9'
    case Alphanumeric => '0' <= c <= '9' || 'a' <= c <= 'z' || 'A' <= c <= 'Z'
    case Word => '0' <= c <= '9' || 'a' <= c <= 'z' || 'A' <= c <= 'Z' || c == '-'
  }

  /** The members of the classes by their codes: digits, capital letters, small letters, and the hyphen. */
  lemma ClassMembers(c: char)
    ensures In(c, Digits) <==> 48 <= c as int <= 57
    ensures In(c, Alphanumeric) <==> 48 <= c as int <= 57 || 65 <= c as int <= 90 || 97 <= c as int <= 122
    ensures In(c, Word) <==> 48 <= c as int <= 57 || 65 <= c as int <= 90 || 97 <= c as int <= 122 || c as int == 45
  {
  }

  predicate AllIn(s: string, class_: CharClass) {
    forall i :: 0 <= i < |s| ==> In(s[i], class_)
  }

  /** What the groups of the pattern capture; the request version is a literal in it. */
  datatype Groups = Groups(accessKeyId: string, dateTime: string, region: string, moduleName: string,
                           signedHeaders: string, signature: string)

  /** The literals of the pattern, slashes and commas apart. */
  datatype Literals = Literals(credential: string, requestVersion: string, signedHeaders: string, signature: string)

  const AWS4 := Literals("Credential=", "aws4_request", "SignedHeaders=", "Signature=")

  predicate AreLiterals(w: Literals) {
    && w.signedHeaders != "" && w.signedHeaders[0] != ' '
    && w.signature != "" && w.signature[0] != ' ' && Free(w.signature, ',') && Free(w.signature, '\n')
  }

  // ---- the language of the pattern ----

  predicate AreGroups(g: Groups) {
    && g.accessKeyId != "" && AllIn(g.accessKeyId, Alphanumeric)
    && |g.dateTime| == 8 && AllIn(g.dateTime, Digits)
    && g.region != "" && AllIn(g.region, Word)
    && g.moduleName != "" && AllIn(g.moduleName, Word)
    && Free(g.signedHeaders, '\n') && Free(g.signature, '\n')
  }

  /** The optional spaces behind the two commas and the line end that `$` may stand before. */
  datatype Spacing = Spacing(first: bool, second: bool, lineEnd: bool)

  function Space(present: bool): string {
    if present then " " else ""
  }

  function Line(before: string, space: bool, literal: string, behind: string): string {
    before + ("," + (Space(space) + (literal + behind)))
  }

  function Ending(w: Literals, g: Groups, p: Spacing): string {
    Line(g.signedHeaders, p.second, w.signature, g.signature) + if p.lineEnd then "\n" else ""
  }

  function HeadersText(w: Literals, g: Groups, p: Spacing): string {
    w.requestVersion + ("," + (Space(p.first) + (w.signedHeaders + Ending(w, g, p))))
  }

  function ScopeText(w: Literals, g: Groups, p: Spacing): string {
    g.region + ("/" + (g.moduleName + ("/" + HeadersText(w, g, p))))
  }

  /** A text that the pattern matches from its first character to its last. */
  function Text(w: Literals, g: Groups, p: Spacing): string {
    w.credential + (g.accessKeyId + ("/" + (g.dateTime + ("/" + ScopeText(w, g, p)))))
  }

  // ---- matching ----

  /** What follows a literal. */
  function Literal(s: string, literal: string): Option<string> {
    if literal <= s then Some(s[|literal|..]) else None
  }

  /** The length of the longest prefix over a class. */
  function Run(s: string, class_: CharClass): (n: nat)
    ensures n <= |s| && AllIn(s[..n], class_) && (n < |s| ==> !In(s[n], class_))
  {
    if s == "" || !In(s[0], class_) then 0 else 1 + Run(s[1..], class_)
  }

  datatype Part = Part(text: string, rest: string)

  /** A greedy repetition of a class and the slash behind it; no class has the slash, so there is one way to match. */
  function Segment(s: string, class_: CharClass): Option<Part> {
    var n := Run(s, class_);
    if n > 0 && n < |s| && s[n] == '/' then Some(Part(s[..n], s[n + 1..])) else None
  }

  /** A comma, at most one space, and a literal. */
  function Comma(s: string, literal: string): Option<string> {
    match Literal(s, ",")
    case None => None
    case Some(rest) => Literal(if " " <= rest then rest[1..] else rest, literal)
  }

  /** The line up to `$`, unless there is a line end before that. */
  function LastLine(s: string): Option<string> {
    var line := if s != "" && s[|s| - 1] == '\n' then s[..|s| - 1] else s;
    if Free(line, '\n') then Some(line) else None
  }

  predicate CommaAt(s: string, i: nat, literal: string)
    requires i <= |s|
  {
    Comma(s[i..], literal).Some?
  }

  /** Where in a string a comma with the literal behind it stands. */
  function CommaPlaces(s: string, literal: string): (places: seq<bool>)
    ensures |places| == |s| && forall i :: 0 <= i < |s| ==> places[i] == CommaAt(s, i, literal)
  {
    seq(|s|, i requires 0 <= i < |s| => CommaAt(s, i, literal))
  }

  function LastPlace(places: seq<bool>, n: nat): (p: Option<nat>)
    requires n <= |places|
    ensures p.Some? ==> p.value < n && places[p.value]
  {
    if n == 0 then None else if places[n - 1] then Some(n - 1) else LastPlace(places, n - 1)
  }

  /** The last place with a comma and the literal behind it. */
  function LastComma(s: string, literal: string): (p: Option<nat>)
    ensures p.Some? ==> p.value < |s| && CommaAt(s, p.value, literal)
  {
    LastPlace(CommaPlaces(s, literal), |s|)
  }

  /** `(.*),\ ?literal(.*)$`: the first `.*` takes as much as it can. */
  function Close(s: string, literal: string): Option<Part> {
    match LastLine(s)
    case None => None
    case Some(line) => CloseLine(line, literal)
  }

  function CloseLine(line: string, literal: string): Option<Part> {
    match LastComma(line, literal)
    case None => None
    case Some(n) => Some(Part(line[..n], Comma(line[n..], literal).value))
  }

  function MatchHeaders(w: Literals, s: string): Option<Part> {
    match Literal(s, w.requestVersion)
    case None => None
    case Some(version) =>
      match Comma(version, w.signedHeaders)
      case None => None
      case Some(rest) => Close(rest, w.signature)
  }

  function MatchScope(w: Literals, s: string, accessKeyId: string, dateTime: string): Option<Groups> {
    match Segment(s, Word)
    case None => None
    case Some(region) =>
      match Segment(region.rest, Word)
      case None => None
      case Some(name) =>
        match MatchHeaders(w, name.rest)
        case None => None
        case Some(end) => Some(Groups(accessKeyId, dateTime, region.text, name.text, end.text, end.rest))
  }

  /** The pattern at the start of a string. */
  function MatchHere(w: Literals, s: string): Option<Groups> {
    match Literal(s, w.credential)
    case None => None
    case Some(rest) =>
      match Segment(rest, Alphanumeric)
      case None => None
      case Some(key) =>
        match Segment(key.rest, Digits)
        case None => None
        case Some(date) => if |date.text| == 8 then MatchScope(w, date.rest, key.text, date.text) else None
  }

  /** The leftmost match. */
  function Match(w: Literals, s: string): Option<Groups> {
    if MatchHere(w, s).Some? then MatchHere(w, s) else if s == "" then None else Match(w, s[1..])
  }

  // ---- every text of the language is matched ----

  lemma LiteralThen(literal: string, rest: string)
    ensures Literal(literal + rest, literal) == Some(rest)
  {
  }

  lemma {:induction false} RunOf(text: string, class_: CharClass, rest: string)
    requires AllIn(text, class_) && (rest == "" || !In(rest[0], class_))
    ensures Run(text + rest, class_) == |text|
  {
    if text == "" {
      assert text + rest == rest;
    } else {
      assert (text + rest)[1..] == text[1..] + rest;
      RunOf(text[1..], class_, rest);
    }
  }

  lemma SegmentThen(text: string, rest: string, class_: CharClass)
    requires text != "" && AllIn(text, class_)
    ensures Segment(text + ("/" + rest), class_) == Some(Part(text, rest))
  {
    var s := text + ("/" + rest);
    RunOf(text, class_, "/" + rest);
    assert s[..|text|] == text && s[|text| + 1..] == rest;
  }

  lemma CommaThen(space: bool, literal: string, rest: string)
    requires literal != "" && literal[0] != ' '
    ensures Comma("," + (Space(space) + (literal + rest)), literal) == Some(rest)
  {
    var tail := Space(space) + (literal + rest);
    LiteralThen(",", tail);
    LiteralThen(literal, rest);
    if space {
      assert tail[1..] == literal + rest;
    } else {
      assert tail == literal + rest;
    }
  }

  lemma {:induction false} LastPlaceIsLast(places: seq<bool>, n: nat, i: nat)
    requires i < n <= |places| && places[i]
    ensures LastPlace(places, n).Some? && i <= LastPlace(places, n).value
  {
    if i < n - 1 {
      LastPlaceIsLast(places, n - 1, i);
    }
  }

  lemma LastCommaIsLast(s: string, literal: string, i: nat)
    requires i < |s| && CommaAt(s, i, literal)
    ensures LastComma(s, literal).Some? && i <= LastComma(s, literal).value
  {
    LastPlaceIsLast(CommaPlaces(s, literal), |s|, i);
  }

  lemma LineOfEnding(line: string, lineEnd: bool)
    requires Free(line, '\n')
    ensures LastLine(line + if lineEnd then "\n" else "") == Some(line)
  {
    var s := line + if lineEnd then "\n" else "";
    if lineEnd {
      assert s[..|s| - 1] == line;
    } else {
      assert s == line;
    }
  }

  lemma BehindLine(before: string, space: bool, literal: string, behind: string)
    requires literal != "" && literal[0] != ' '
    ensures var line := Line(before, space, literal, behind);
            line[..|before|] == before && Comma(line[|before|..], literal) == Some(behind)
  {
    var tail := "," + (Space(space) + (literal + behind));
    assert (before + tail)[|before|..] == tail;
    CommaThen(space, literal, behind);
  }

  lemma CommaStands(s: string, i: nat, literal: string)
    requires i < |s| && CommaAt(s, i, literal)
    ensures s[i] == ','
  {
    assert s[i..][0] == s[i];
  }

  lemma NoLaterComma(before: string, space: bool, literal: string, behind: string)
    requires Free(behind, ',') && Free(literal, ',')
    ensures var line := Line(before, space, literal, behind);
            forall i :: |before| < i < |line| ==> line[i] != ','
  {
    var line, tail := Line(before, space, literal, behind), Space(space) + (literal + behind);
    forall i | |before| < i < |line| ensures line[i] != ',' {
      assert line[i] == tail[i - |before| - 1];
    }
  }

  lemma CloseTakesMost(before: string, space: bool, literal: string, behind: string)
    requires literal != "" && literal[0] != ' '
    ensures var line := Line(before, space, literal, behind);
            && LastComma(line, literal).Some?
            && |before| <= LastComma(line, literal).value
            && (Free(behind, ',') && Free(literal, ',') ==> LastComma(line, literal) == Some(|before|))
  {
    var line := Line(before, space, literal, behind);
    BehindLine(before, space, literal, behind);
    LastCommaIsLast(line, literal, |before|);
    CommaStands(line, LastComma(line, literal).value, literal);
    if Free(behind, ',') && Free(literal, ',') {
      NoLaterComma(before, space, literal, behind);
    }
  }

  /** However a line may be taken apart, the match takes a first part that is at least as long. */
  lemma CloseLineTakesMost(before: string, space: bool, literal: string, behind: string)
    requires literal != "" && literal[0] != ' ' && Free(literal, ',')
    ensures var close := CloseLine(Line(before, space, literal, behind), literal);
            && close.Some? && |before| <= |close.value.text|
            && (Free(behind, ',') ==> close == Some(Part(before, behind)))
  {
    CloseTakesMost(before, space, literal, behind);
    BehindLine(before, space, literal, behind);
  }

  lemma LineIsFree(before: string, space: bool, literal: string, behind: string)
    ensures Free(Line(before, space, literal, behind), '\n')
       <==> Free(before, '\n') && Free(literal, '\n') && Free(behind, '\n')
  {
  }

  lemma CloseEnding(w: Literals, g: Groups, p: Spacing)
    requires AreLiterals(w) && AreGroups(g)
    ensures var close := Close(Ending(w, g, p), w.signature);
            && close.Some? && |g.signedHeaders| <= |close.value.text|
            && (Free(g.signature, ',') ==> close == Some(Part(g.signedHeaders, g.signature)))
  {
    LineIsFree(g.signedHeaders, p.second, w.signature, g.signature);
    LineOfEnding(Line(g.signedHeaders, p.second, w.signature, g.signature), p.lineEnd);
    CloseLineTakesMost(g.signedHeaders, p.second, w.signature, g.signature);
  }

  lemma HeadersMatch(w: Literals, g: Groups, p: Spacing)
    requires AreLiterals(w)
    ensures MatchHeaders(w, HeadersText(w, g, p)) == Close(Ending(w, g, p), w.signature)
  {
    LiteralThen(w.requestVersion, "," + (Space(p.first) + (w.signedHeaders + Ending(w, g, p))));
    CommaThen(p.first, w.signedHeaders, Ending(w, g, p));
  }

  lemma ScopeMatches(w: Literals, g: Groups, p: Spacing)
    requires AreLiterals(w) && AreGroups(g)
    ensures MatchScope(w, ScopeText(w, g, p), g.accessKeyId, g.dateTime)
         == match Close(Ending(w, g, p), w.signature)
            case None => None
            case Some(end) => Some(g.(signedHeaders := end.text, signature := end.rest))
  {
    SegmentThen(g.region, g.moduleName + ("/" + HeadersText(w, g, p)), Word);
    SegmentThen(g.moduleName, HeadersText(w, g, p), Word);
    HeadersMatch(w, g, p);
  }

  lemma TextMatchesClose(w: Literals, g: Groups, p: Spacing)
    requires AreLiterals(w) && AreGroups(g)
    ensures MatchHere(w, Text(w, g, p))
         == match Close(Ending(w, g, p), w.signature)
            case None => None
            case Some(end) => Some(g.(signedHeaders := end.text, signature := end.rest))
  {
    LiteralThen(w.credential, g.accessKeyId + ("/" + (g.dateTime + ("/" + ScopeText(w, g, p)))));
    SegmentThen(g.accessKeyId, g.dateTime + ("/" + ScopeText(w, g, p)), Alphanumeric);
    SegmentThen(g.dateTime, ScopeText(w, g, p), Digits);
    ScopeMatches(w, g, p);
  }

  /**
   * Every text of the language is matched. The groups before the headers are forced, and of the ways to take the rest
   * apart the one with the longest signed headers is taken: the only one, if the signature has no comma.
   */
  lemma TextMatches(w: Literals, g: Groups, p: Spacing)
    requires AreLiterals(w) && AreGroups(g)
    ensures var found := MatchHere(w, Text(w, g, p));
            && found.Some? && |g.signedHeaders| <= |found.value.signedHeaders|
            && found.value == g.(signedHeaders := found.value.signedHeaders, signature := found.value.signature)
            && (Free(g.signature, ',') ==> found == Some(g))
  {
    TextMatchesClose(w, g, p);
    CloseEnding(w, g, p);
  }

  // ---- what is matched is a text of the language ----

  lemma LiteralFound(s: string, literal: string)
    requires Literal(s, literal).Some?
    ensures s == literal + Literal(s, literal).value
  {
  }

  lemma SegmentFound(s: string, class_: CharClass)
    requires Segment(s, class_).Some?
    ensures var part := Segment(s, class_).value;
            s == part.text + ("/" + part.rest) && part.text != "" && AllIn(part.text, class_)
  {
  }

  lemma CommaFound(s: string, literal: string) returns (space: bool)
    requires Comma(s, literal).Some?
    ensures s == "," + (Space(space) + (literal + Comma(s, literal).value))
  {
    LiteralFound(s, ",");
    var rest := Literal(s, ",").value;
    space := " " <= rest;
    var tail := if space then rest[1..] else rest;
    LiteralFound(tail, literal);
    assert rest == Space(space) + tail;
  }

  lemma LastLineFound(s: string) returns (lineEnd: bool)
    requires LastLine(s).Some?
    ensures s == LastLine(s).value + (if lineEnd then "\n" else "") && Free(LastLine(s).value, '\n')
  {
    lineEnd := s != "" && s[|s| - 1] == '\n';
  }

  lemma CloseLineFound(line: string, literal: string) returns (space: bool)
    requires CloseLine(line, literal).Some?
    ensures var part := CloseLine(line, literal).value; line == Line(part.text, space, literal, part.rest)
  {
    var n := LastComma(line, literal).value;
    HalvesRebuild(line, n);
    space := CommaFound(line[n..], literal);
  }

  lemma CloseFound(s: string, literal: string) returns (space: bool, lineEnd: bool)
    requires Close(s, literal).Some?
    ensures var part := Close(s, literal).value;
            && s == Line(part.text, space, literal, part.rest) + (if lineEnd then "\n" else "")
            && Free(part.text, '\n') && Free(part.rest, '\n')
  {
    var line, part := LastLine(s).value, Close(s, literal).value;
    lineEnd := LastLineFound(s);
    space := CloseLineFound(line, literal);
    LineIsFree(part.text, space, literal, part.rest);
  }

  lemma HeadersFound(w: Literals, s: string, g: Groups) returns (p: Spacing)
    requires MatchHeaders(w, s) == Some(Part(g.signedHeaders, g.signature))
    ensures s == HeadersText(w, g, p) && Free(g.signedHeaders, '\n') && Free(g.signature, '\n')
  {
    LiteralFound(s, w.requestVersion);
    var version := Literal(s, w.requestVersion).value;
    var first := CommaFound(version, w.signedHeaders);
    var second, lineEnd := CloseFound(Comma(version, w.signedHeaders).value, w.signature);
    p := Spacing(first, second, lineEnd);
  }

  lemma ScopeFound(w: Literals, s: string, g: Groups) returns (p: Spacing)
    requires MatchScope(w, s, g.accessKeyId, g.dateTime) == Some(g)
    ensures s == ScopeText(w, g, p) && Free(g.signedHeaders, '\n') && Free(g.signature, '\n')
    ensures g.region != "" && AllIn(g.region, Word) && g.moduleName != "" && AllIn(g.moduleName, Word)
  {
    SegmentFound(s, Word);
    var region := Segment(s, Word).value;
    SegmentFound(region.rest, Word);
    p := HeadersFound(w, Segment(region.rest, Word).value.rest, g);
  }

  /** What is matched is a text of the language with these groups. */
  lemma MatchedIsText(w: Literals, s: string) returns (p: Spacing)
    requires MatchHere(w, s).Some?
    ensures AreGroups(MatchHere(w, s).value) && s == Text(w, MatchHere(w, s).value, p)
  {
    LiteralFound(s, w.credential);
    var rest := Literal(s, w.credential).value;
    SegmentFound(rest, Alphanumeric);
    var key := Segment(rest, Alphanumeric).value;
    SegmentFound(key.rest, Digits);
    p := ScopeFound(w, Segment(key.rest, Digits).value.rest, MatchHere(w, s).value);
  }

  ghost predicate IsText(w: Literals, s: string) {
    exists g, p :: AreGroups(g) && s == Text(w, g, p)
  }

  /** The pattern matches at the start of a string exactly if that is a text of its language. */
  lemma MatchedIffText(w: Literals, s: string)
    requires AreLiterals(w)
    ensures MatchHere(w, s).Some? <==> IsText(w, s)
  {
    if MatchHere(w, s).Some? {
      var p := MatchedIsText(w, s);
    }
    if IsText(w, s) {
      var g, p :| AreGroups(g) && s == Text(w, g, p);
      TextMatches(w, g, p);
    }
  }

  /** A match starts at a text of the language, and at no earlier place is there one; without a match there is none. */
  lemma {:induction false} MatchIsLeftmost(w: Literals, s: string) returns (i: nat)
    requires AreLiterals(w)
    ensures i <= |s| && Match(w, s) == MatchHere(w, s[i..])
    ensures Match(w, s).Some? <==> IsText(w, s[i..])
    ensures Match(w, s).None? ==> i == |s|
    ensures forall j :: 0 <= j < i ==> !IsText(w, s[j..])
  {
    MatchedIffText(w, s);
    i := 0;
    assert s[0..] == s;
    if MatchHere(w, s).None? && s != "" {
      var k := MatchIsLeftmost(w, s[1..]);
      i := k + 1;
      assert s[i..] == s[1..][k..];
      forall j | 0 <= j < i ensures !IsText(w, s[j..]) {
        if j > 0 {
          assert s[j..] == s[1..][j - 1..];
        }
      }
    }
  }

  /** A prefix in which nothing can be matched is passed over. */
  lemma {:induction false} MatchPast(w: Literals, prefix: string, text: string)
    requires forall i :: 0 <= i < |prefix| ==> MatchHere(w, (prefix + text)[i..]).None?
    ensures Match(w, prefix + text) == Match(w, text)
  {
    if prefix == "" {
      assert prefix + text == text;
    } else {
      var s := prefix + text;
      assert s[0..] == s;
      assert s[1..] == prefix[1..] + text;
      forall i | 0 <= i < |prefix| - 1 ensures MatchHere(w, (prefix[1..] + text)[i..]).None? {
        assert (prefix[1..] + text)[i..] == s[i + 1..];
      }
      MatchPast(w, prefix[1..], text);
    }
  }

  /** A prefix in which no credential can begin is passed over. */
  lemma MatchAfter(w: Literals, prefix: string, text: string)
    requires forall i :: 0 <= i < |prefix| ==> !(w.credential <= (prefix + text)[i..])
    ensures Match(w, prefix + text) == Match(w, text)
  {
    forall i | 0 <= i < |prefix| ensures MatchHere(w, (prefix + text)[i..]).None? {
      assert Literal((prefix + text)[i..], w.credential).None?;
    }
    MatchPast(w, prefix, text);
  }

  // ---- a signature at the end is the one that is read ----

  predicate EndsWith(s: string, t: string) {
    |t| <= |s| && s[|s| - |t|..] == t
  }

  lemma EndsMore(x: string, s: string, t: string)
    requires EndsWith(s, t)
    ensures EndsWith(x + s, t)
  {
    assert (x + s)[|x + s| - |t|..] == s[|s| - |t|..];
  }

  lemma TextEnds(w: Literals, g: Groups, p: Spacing)
    ensures EndsWith(Text(w, g, p), Ending(w, g, p))
  {
    var e := Ending(w, g, p);
    EndsMore(w.signedHeaders, e, e);
    EndsMore(Space(p.first), w.signedHeaders + e, e);
    EndsMore(",", Space(p.first) + (w.signedHeaders + e), e);
    EndsMore(w.requestVersion, "," + (Space(p.first) + (w.signedHeaders + e)), e);
    var t4 := HeadersText(w, g, p);
    EndsMore("/", t4, e);
    EndsMore(g.moduleName, "/" + t4, e);
    EndsMore("/", g.moduleName + ("/" + t4), e);
    EndsMore(g.region, "/" + (g.moduleName + ("/" + t4)), e);
    var t2 := ScopeText(w, g, p);
    EndsMore("/", t2, e);
    EndsMore(g.dateTime, "/" + t2, e);
    EndsMore("/", g.dateTime + ("/" + t2), e);
    EndsMore(g.accessKeyId, "/" + (g.dateTime + ("/" + t2)), e);
    EndsMore(w.credential, g.accessKeyId + ("/" + (g.dateTime + ("/" + t2))), e);
  }

  /** Of two ends of a string the longer one ends in the shorter one. */
  lemma EndsNest(s: string, t: string, u: string)
    requires EndsWith(s, t) && EndsWith(s, u) && |u| <= |t|
    ensures EndsWith(t, u)
  {
    assert t[|t| - |u|..] == s[|s| - |u|..];
  }

  lemma EndIsLine(e: string, literal: string, signature: string)
    requires EndsWith(e, "," + (literal + signature))
    ensures e == Line(e[..|e| - |"," + (literal + signature)|], false, literal, signature)
  {
    HalvesRebuild(e, |e| - |"," + (literal + signature)|);
    assert Space(false) + (literal + signature) == literal + signature;
  }

  lemma CloseOfEnd(w: Literals, e: string, signature: string)
    requires AreLiterals(w) && Free(signature, ',') && signature != ""
    requires EndsWith(e, "," + (w.signature + signature)) && LastLine(e) == Some(e)
    ensures Close(e, w.signature).Some? && Close(e, w.signature).value.rest == signature
  {
    EndIsLine(e, w.signature, signature);
    CloseLineTakesMost(e[..|e| - |"," + (w.signature + signature)|], false, w.signature, signature);
  }

  lemma EndingHasComma(w: Literals, g: Groups, p: Spacing)
    ensures ',' in Ending(w, g, p)
  {
    assert Ending(w, g, p)[|g.signedHeaders|] == ',';
  }

  lemma ShorterIsFree(t: string, e: string, c: char)
    requires t != "" && Free(t[1..], c)
    ensures |e| < |t| && EndsWith(t, e) ==> Free(e, c)
  {
    assert |e| < |t| && EndsWith(t, e) ==> e == t[1..][|t| - 1 - |e|..];
  }

  /** An end with a comma in it is no shorter than one whose only comma is its first character. */
  lemma ShorterEnd(s: string, e: string, t: string)
    requires EndsWith(s, e) && EndsWith(s, t) && ',' in e
    requires t != "" && Free(t[1..], ',')
    ensures EndsWith(e, t)
  {
    ShorterIsFree(t, e, ',');
    if |e| < |t| {
      EndsNest(s, t, e);
    } else {
      EndsNest(s, e, t);
    }
  }

  lemma EndingLast(w: Literals, g: Groups, p: Spacing)
    ensures p.lineEnd ==> Ending(w, g, p)[|Ending(w, g, p)| - 1] == '\n'
    ensures !p.lineEnd ==> Ending(w, g, p) == Line(g.signedHeaders, p.second, w.signature, g.signature)
  {
  }

  lemma EndingIsLine(w: Literals, g: Groups, p: Spacing, signature: string)
    requires AreLiterals(w) && AreGroups(g) && signature != "" && Free(signature, '\n')
    requires EndsWith(Ending(w, g, p), "," + (w.signature + signature))
    ensures LastLine(Ending(w, g, p)) == Some(Ending(w, g, p))
  {
    var e, t := Ending(w, g, p), "," + (w.signature + signature);
    assert e[|e| - 1] == t[|t| - 1] == signature[|signature| - 1];
    EndingLast(w, g, p);
    LineIsFree(g.signedHeaders, p.second, w.signature, g.signature);
  }

  lemma MatchHereReads(w: Literals, s: string, signature: string)
    requires AreLiterals(w) && Free(signature, ',') && Free(signature, '\n') && signature != ""
    requires EndsWith(s, "," + (w.signature + signature)) && MatchHere(w, s).Some?
    ensures MatchHere(w, s).value.signature == signature
  {
    var g := MatchHere(w, s).value;
    var p := MatchedIsText(w, s);
    var e, t := Ending(w, g, p), "," + (w.signature + signature);
    TextEnds(w, g, p);
    EndingHasComma(w, g, p);
    ShorterEnd(s, e, t);
    EndingIsLine(w, g, p, signature);
    CloseOfEnd(w, e, signature);
    TextMatchesClose(w, g, p);
  }

  lemma {:induction false} NoCredentialNoMatch(w: Literals, s: string)
    requires w.credential != "" && Free(s, w.credential[0])
    ensures Match(w, s).None?
  {
    assert Literal(s, w.credential).None?;
    if s != "" {
      NoCredentialNoMatch(w, s[1..]);
    }
  }

  /** Whatever stands before it, the signature at the end of a header is the one that is read. */
  lemma {:induction false} SignatureAtEndIsRead(w: Literals, prefix: string, signature: string)
    requires AreLiterals(w) && Free(signature, ',') && Free(signature, '\n') && signature != ""
    requires w.credential != "" && Free("," + (w.signature + signature), w.credential[0])
    ensures var found := Match(w, prefix + ("," + (w.signature + signature)));
            found.Some? ==> found.value.signature == signature
  {
    var t := "," + (w.signature + signature);
    var s := prefix + t;
    EndsMore(prefix, t, t);
    if MatchHere(w, s).Some? {
      MatchHereReads(w, s, signature);
    } else if prefix == "" {
      assert s == t;
      NoCredentialNoMatch(w, s);
    } else {
      assert s[1..] == prefix[1..] + t;
      SignatureAtEndIsRead(w, prefix[1..], signature);
    }
  }
}
