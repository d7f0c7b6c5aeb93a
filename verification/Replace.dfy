/** The two-pass `StringUtils::Replace` on C strings: one pass sizes the result, a second one writes it. */
module Replace {
  import opened SizeT
  import opened StringUtils

  /** What lies between the matches that a left-to-right scan finds. */
  function Pieces(s: string, p: string): (v: seq<string>)
    requires p != ""
    ensures v != []
    decreases |s|
  {
    var i := Find(s, p);
    if i < 0 then [s] else [s[..i]] + Pieces(s[i + |p|..], p)
  }

  function Rejoin(v: seq<string>, separator: string): string {
    if v == [] then "" else if |v| == 1 then v[0] else v[0] + separator + Rejoin(v[1..], separator)
  }

  function CountMatches(s: string, p: string): nat
    requires p != ""
  {
    |Pieces(s, p)| - 1
  }

  function ReplaceAll(s: string, p: string, r: string): string
    requires p != ""
  {
    Rejoin(Pieces(s, p), r)
  }

  lemma PiecesStep(s: string, p: string)
    requires p != "" && Contains(s, p)
    ensures var i := Find(s, p);
            && |s[i + |p|..]| < |s| && s == s[..i] + p + s[i + |p|..]
            && Pieces(s, p) == [s[..i]] + Pieces(s[i + |p|..], p)
  {
  }

  lemma RejoinCons(head: string, v: seq<string>, separator: string)
    requires v != []
    ensures Rejoin([head] + v, separator) == head + separator + Rejoin(v, separator)
  {
    assert ([head] + v)[1..] == v;
  }

  lemma {:induction false} RejoinPieces(s: string, p: string)
    requires p != ""
    ensures ReplaceAll(s, p, p) == s
    decreases |s|
  {
    if Contains(s, p) {
      var i := Find(s, p);
      PiecesStep(s, p);
      RejoinPieces(s[i + |p|..], p);
      RejoinCons(s[..i], Pieces(s[i + |p|..], p), p);
    }
  }

  lemma {:induction false} LastPieceHasNone(s: string, p: string)
    requires p != ""
    ensures !Contains(Pieces(s, p)[CountMatches(s, p)], p)
    decreases |s|
  {
    if Contains(s, p) {
      PiecesStep(s, p);
      LastPieceHasNone(s[Find(s, p) + |p|..], p);
    }
  }

  lemma FirstPieceIsLeftmost(s: string, p: string)
    requires p != ""
    ensures Find(Rejoin(Pieces(s, p)[0..], p), p) == Find(s, p)
  {
    RejoinPieces(s, p);
    assert Pieces(s, p)[0..] == Pieces(s, p);
  }

  lemma NextPieces(s: string, p: string, i: nat)
    requires p != "" && Contains(s, p) && 0 < i < |Pieces(s, p)|
    ensures var rest := s[Find(s, p) + |p|..];
            && |Pieces(rest, p)| == |Pieces(s, p)| - 1
            && Pieces(s, p)[i..] == Pieces(rest, p)[i - 1..] && Pieces(s, p)[i] == Pieces(rest, p)[i - 1]
  {
    PiecesStep(s, p);
    TailOfCons(s[..Find(s, p)], Pieces(s[Find(s, p) + |p|..], p), i);
  }

  lemma MorePieces(s: string, p: string)
    requires p != "" && |Pieces(s, p)| > 1
    ensures Contains(s, p) && |Pieces(s, p)[0]| == Find(s, p)
  {
  }

  lemma {:induction false} PieceIsLeftmost(s: string, p: string, i: nat)
    requires p != "" && i < |Pieces(s, p)| - 1
    ensures Find(Rejoin(Pieces(s, p)[i..], p), p) == |Pieces(s, p)[i]|
    decreases i
  {
    MorePieces(s, p);
    if i == 0 {
      FirstPieceIsLeftmost(s, p);
    } else {
      NextPieces(s, p, i);
      PieceIsLeftmost(s[Find(s, p) + |p|..], p, i - 1);
    }
  }

  lemma TailOfCons(head: string, v: seq<string>, i: nat)
    requires 0 < i <= |v|
    ensures ([head] + v)[i..] == v[i - 1..] && ([head] + v)[i] == v[i - 1]
  {
  }

  /** The scan cuts the string at non-overlapping matches, each the leftmost one after its predecessor. */
  lemma PiecesAreLeftmost(s: string, p: string)
    requires p != ""
    ensures ReplaceAll(s, p, p) == s
    ensures forall i :: 0 <= i < |Pieces(s, p)| - 1 ==>
              Find(Rejoin(Pieces(s, p)[i..], p), p) == |Pieces(s, p)[i]|
    ensures !Contains(Pieces(s, p)[CountMatches(s, p)], p)
  {
    RejoinPieces(s, p);
    LastPieceHasNone(s, p);
    forall i | 0 <= i < |Pieces(s, p)| - 1 ensures Find(Rejoin(Pieces(s, p)[i..], p), p) == |Pieces(s, p)[i]| {
      PieceIsLeftmost(s, p, i);
    }
  }

  lemma {:induction false} RejoinLength(v: seq<string>, p: string, r: string)
    requires v != []
    ensures |Rejoin(v, r)| == |Rejoin(v, p)| + (|v| - 1) * (|r| - |p|)
  {
    if |v| > 1 {
      RejoinLength(v[1..], p, r);
      assert (|v| - 1) * (|r| - |p|) == (|v[1..]| - 1) * (|r| - |p|) + (|r| - |p|);
    }
  }

  lemma ReplacedLength(s: string, p: string, r: string)
    requires p != ""
    ensures |ReplaceAll(s, p, r)| == |s| + CountMatches(s, p) * (|r| - |p|)
  {
    RejoinPieces(s, p);
    RejoinLength(Pieces(s, p), p, r);
  }

  /** What the sizing pass counts: one match too many, unless there is none. */
  function Counted(s: string, p: string): nat
    requires p != ""
  {
    var n := CountMatches(s, p);
    if n == 0 then 0 else n + 1
  }

  /** The bytes requested, in `size_t` arithmetic. */
  function Allocated(s: string, p: string, r: string): nat
    requires p != ""
  {
    (|s| + Counted(s, p) * (|r| - |p|) + 1) % SIZE_T_RANGE
  }

  /** The arguments and the result of an honest count are small enough to be C strings. */
  ghost predicate Representable(s: string, p: string, r: string)
    requires p != ""
  {
    |s| + Counted(s, p) * |r| + 1 < SIZE_T_RANGE && Counted(s, p) * |p| < SIZE_T_RANGE
  }

  /**
   The request leaves room for the result and its terminator exactly when the pattern is no longer than its
   replacement, or does not occur, or shortens the string so much that the request wraps around.
   */
  lemma RoomSuffices(s: string, p: string, r: string)
    requires p != "" && Representable(s, p, r)
    ensures Allocated(s, p, r) >= |ReplaceAll(s, p, r)| + 1
       <==> |p| <= |r| || !Contains(s, p) || |s| + 1 < (CountMatches(s, p) + 1) * (|p| - |r|)
  {
    ReplacedLength(s, p, r);
    RoomArithmetic(|s|, CountMatches(s, p), |p|, |r|);
  }

  /** With `c` the count and `d` the growth per match, `n * d` is needed and `c * d` is requested. */
  lemma RoomArithmetic(length: nat, n: nat, patlen: nat, replen: nat)
    requires patlen > 0 && length + n * (replen - patlen) >= 0
    requires var c := if n == 0 then 0 else n + 1;
             length + c * replen + 1 < SIZE_T_RANGE && c * patlen < SIZE_T_RANGE
    ensures var c := if n == 0 then 0 else n + 1;
            (length + c * (replen - patlen) + 1) % SIZE_T_RANGE >= length + n * (replen - patlen) + 1
            <==> patlen <= replen || n == 0 || length + 1 < (n + 1) * (patlen - replen)
  {
    var c, d := if n == 0 then 0 else n + 1, replen - patlen;
    var needed := length + n * d + 1;
    assert c * d == c * replen - c * patlen by { Distribute(c, replen, patlen); }
    if n > 0 {
      var size := needed + d;
      assert c * d == n * d + d by { Distribute(d, n, -1); }
      assert (n + 1) * (patlen - replen) == -(c * d) by { Distribute(c, patlen, replen); }
      assert c * patlen >= patlen && c * replen >= 0 by { Distribute(patlen, n, -1); }
      Wrap(size);
    }
  }

  lemma Distribute(a: int, x: int, y: int)
    ensures a * (x - y) == a * x - a * y && (x - y) * a == a * x - a * y
  {}

  lemma Wrap(size: int)
    requires -SIZE_T_RANGE < size < SIZE_T_RANGE
    ensures size % SIZE_T_RANGE == if size >= 0 then size else size + SIZE_T_RANGE
  {}

  function Written(a: seq<char>, at: nat, text: string): seq<char>
    requires at + |text| <= |a|
  {
    a[..at] + text + a[at + |text|..]
  }

  /** `strncpy` of a string without NUL. */
  method CopyInto(a: array<char>, at: nat, text: string)
    requires at + |text| <= a.Length
    modifies a
    ensures a[..] == Written(old(a[..]), at, text)
  {
    for i := 0 to |text|
      invariant forall j :: 0 <= j < i ==> a[at + j] == text[j]
      invariant forall j :: 0 <= j < a.Length && !(at <= j < at + i) ==> a[j] == old(a[j])
    {
      a[at + i] := text[i];
    }
  }

  /** An empty pattern would make the sizing pass run forever. */
  method Replace(original: string, pattern: string, replacement: string) returns (returned: array<char>)
    requires pattern != "" && Representable(original, pattern, replacement)
    requires |pattern| <= |replacement| || !Contains(original, pattern)
    ensures fresh(returned) && returned.Length == Allocated(original, pattern, replacement)
    ensures var result := ReplaceAll(original, pattern, replacement);
            |result| < returned.Length && returned[..|result| + 1] == result + ['\0']
  {
    var patcnt := CountPass(original, pattern);
    RoomSuffices(original, pattern, replacement);
    var retlen := |original| + patcnt * (|replacement| - |pattern|);
    returned := new char[(retlen + 1) % SIZE_T_RANGE];
    FillPass(original, pattern, replacement, returned);
  }

  /** The second pass needs room for the result and its terminator and writes nowhere else. */
  method FillPass(original: string, pattern: string, replacement: string, returned: array<char>)
    requires pattern != "" && |ReplaceAll(original, pattern, replacement)| < returned.Length
    modifies returned
    ensures returned[..] == Written(old(returned[..]), 0, ReplaceAll(original, pattern, replacement) + ['\0'])
  {
    ghost var result := ReplaceAll(original, pattern, replacement);
    ghost var base, done := returned[..], "";
    var rest, retptr := original, 0;
    var patloc := Find(rest, pattern);
    while patloc >= 0
      invariant patloc == Find(rest, pattern) && retptr == |done|
      invariant done + ReplaceAll(rest, pattern, replacement) == result
      invariant returned[..] == Written(base, 0, done)
      decreases |rest|
    {
      ReplaceStep(rest, pattern, replacement);
      ghost var tail := ReplaceAll(rest[patloc + |pattern|..], pattern, replacement);
      Append(done, rest[..patloc], replacement, tail);
      WriteMore(base, done, rest[..patloc]);
      CopyInto(returned, retptr, rest[..patloc]);
      retptr := retptr + patloc;
      WriteMore(base, done + rest[..patloc], replacement);
      CopyInto(returned, retptr, replacement);
      retptr := retptr + |replacement|;
      done := done + rest[..patloc] + replacement;
      rest := rest[patloc + |pattern|..];
      patloc := Find(rest, pattern);
    }
    assert done + (rest + ['\0']) == result + ['\0'];
    WriteMore(base, done, rest + ['\0']);
    CopyInto(returned, retptr, rest + ['\0']);
  }

  lemma WriteMore(base: seq<char>, done: string, text: string)
    requires |done| + |text| <= |base|
    ensures Written(Written(base, 0, done), |done|, text) == Written(base, 0, done + text)
  {}

  lemma ReplaceStep(s: string, p: string, r: string)
    requires p != "" && Contains(s, p)
    ensures ReplaceAll(s, p, r) == s[..Find(s, p)] + r + ReplaceAll(s[Find(s, p) + |p|..], p, r)
  {
    var rest := Pieces(s[Find(s, p) + |p|..], p);
    assert Pieces(s, p)[1..] == rest;
  }

  /** The sizing pass looks for the first match twice. */
  method CountPass(original: string, pattern: string) returns (patcnt: nat)
    requires pattern != ""
    ensures patcnt == Counted(original, pattern)
  {
    patcnt := 0;
    var patloc := Find(original, pattern);
    var oriptr := 0;
    ghost var n := CountMatches(original, pattern);
    assert original[0..] == original;
    while patloc >= 0
      invariant 0 <= oriptr <= |original|
      invariant patloc >= 0 ==> n > 0 && patcnt + CountMatches(original[oriptr..], pattern) == n
      invariant patloc < 0 ==> patcnt == Counted(original, pattern)
      decreases |original| - oriptr, patloc >= 0
    {
      patcnt := patcnt + 1;
      patloc := Find(original[oriptr..], pattern);
      if patloc >= 0 {
        assert original[oriptr..][patloc + |pattern|..] == original[oriptr + patloc + |pattern|..];
        oriptr := oriptr + patloc + |pattern|;
      }
    }
  }
}
