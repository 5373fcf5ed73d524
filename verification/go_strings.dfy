/**
 The parts of Go's `strings` package (and of the byte-search helpers behind
 it) that the state-block filter relies on. A Go string is a sequence of
 UTF-8 bytes; here it is the sequence of Unicode scalar values those bytes
 encode, which agrees with Go for valid UTF-8 text. Every separator the
 filter searches for (',', ':', '[', ']') is ASCII, so searching characters
 and searching bytes find the same positions.
 */
module GoStrings {

  /** `unicode.IsSpace`: the characters with the Unicode White_Space property. */
  predicate IsSpace(c: char) {
    || ('\t' <= c <= '\r')        // tab, line feed, vertical tab, form feed, carriage return
    || c == ' '
    || c == '\U{0085}' || c == '\U{00A0}' || c == '\U{1680}'
    || ('\U{2000}' <= c <= '\U{200A}')
    || c == '\U{2028}' || c == '\U{2029}' || c == '\U{202F}'
    || c == '\U{205F}' || c == '\U{3000}'
  }

  predicate IsAsciiLower(c: char) {
    'a' <= c <= 'z'
  }

  /** Upper-cases one ASCII letter and leaves every other character alone. */
  function UpperChar(c: char): (u: char)
    ensures !IsAsciiLower(u)
    ensures IsAsciiLower(c) ==> u as int == c as int - 32
    ensures !IsAsciiLower(c) ==> u == c
  {
    if IsAsciiLower(c) then (c as int - 32) as char else c
  }

  /** `strings.ToUpper`, restricted to the ASCII letters. */
  function ToUpper(s: string): (r: string)
    ensures |r| == |s|
    ensures forall i :: 0 <= i < |s| ==> r[i] == UpperChar(s[i])
    ensures forall i :: 0 <= i < |r| ==> !IsAsciiLower(r[i])
  {
    if s == [] then [] else [UpperChar(s[0])] + ToUpper(s[1..])
  }

  /** Upper-casing changes a string exactly when it holds a lower-case ASCII letter. */
  lemma ToUpperFixedPoints(s: string)
    ensures ToUpper(s) == s <==> forall i :: 0 <= i < |s| ==> !IsAsciiLower(s[i])
  {
    if forall i :: 0 <= i < |s| ==> !IsAsciiLower(s[i]) {
      assert forall i :: 0 <= i < |s| ==> ToUpper(s)[i] == s[i];
    }
  }

  lemma ToUpperIdempotent(s: string)
    ensures ToUpper(ToUpper(s)) == ToUpper(s)
  {
    ToUpperFixedPoints(ToUpper(s));
  }

  /** Drops the leading white space of `s`. */
  function TrimLeftSpace(s: string): (r: string)
    ensures |r| <= |s| && r == s[|s| - |r|..]
    ensures forall k :: 0 <= k < |s| - |r| ==> IsSpace(s[k])
    ensures r == [] || !IsSpace(r[0])
  {
    if s != [] && IsSpace(s[0]) then TrimLeftSpace(s[1..]) else s
  }

  /** Drops the trailing white space of `s`. */
  function TrimRightSpace(s: string): (r: string)
    ensures |r| <= |s| && r == s[..|r|]
    ensures forall k :: |r| <= k < |s| ==> IsSpace(s[k])
    ensures r == [] || !IsSpace(r[|r| - 1])
  {
    if s != [] && IsSpace(s[|s| - 1]) then TrimRightSpace(s[..|s| - 1]) else s
  }

  /** `r` is `s` with some white space removed from each end and none left there. */
  ghost predicate IsTrimOf(s: string, r: string) {
    && (r == [] || (!IsSpace(r[0]) && !IsSpace(r[|r| - 1])))
    && exists lead: nat :: TrimmedAt(s, r, lead)
  }

  /** `r` occurs in `s` at offset `lead`, with only white space around it. */
  ghost predicate TrimmedAt(s: string, r: string, lead: nat) {
    && lead + |r| <= |s|
    && s[lead..lead + |r|] == r
    && (forall k :: 0 <= k < lead ==> IsSpace(s[k]))
    && (forall k :: lead + |r| <= k < |s| ==> IsSpace(s[k]))
  }

  /** `strings.TrimSpace`. */
  function TrimSpace(s: string): (r: string)
    ensures IsTrimOf(s, r)
  {
    var left := TrimLeftSpace(s);
    var r := TrimRightSpace(left);
    assert TrimmedAt(s, r, |s| - |left|);
    r
  }

  /** A trim is empty exactly when `s` is white space throughout. */
  lemma TrimEmptyIffAllSpace(s: string, r: string, lead: nat)
    requires TrimmedAt(s, r, lead) && (r == [] || !IsSpace(r[0]))
    ensures r == [] <==> forall k :: 0 <= k < |s| ==> IsSpace(s[k])
  {
    if r != [] {
      assert s[lead] == r[0];
    }
  }

  /** The trim of a string is unique: whatever trims `s` is `TrimSpace(s)`. */
  lemma TrimIsUnique(s: string, r1: string, r2: string)
    requires IsTrimOf(s, r1) && IsTrimOf(s, r2)
    ensures r1 == r2
  {
    var a: nat :| TrimmedAt(s, r1, a);
    var b: nat :| TrimmedAt(s, r2, b);
    TrimEmptyIffAllSpace(s, r1, a);
    TrimEmptyIffAllSpace(s, r2, b);
    if r1 != [] {
      assert s[a] == r1[0] && s[b] == r2[0];
      assert a == b;
      var e1, e2 := a + |r1| - 1, b + |r2| - 1;
      assert s[e1] == r1[|r1| - 1] && s[e2] == r2[|r2| - 1];
      assert e1 == e2;
    }
  }

  lemma TrimSpaceIdempotent(s: string)
    ensures TrimSpace(TrimSpace(s)) == TrimSpace(s)
  {
    var r := TrimSpace(s);
    assert TrimmedAt(r, r, 0);
    TrimIsUnique(r, r, TrimSpace(r));
  }

  /** `strings.Join` with a one-character separator. */
  function Join(parts: seq<string>, sep: char): string {
    if |parts| == 0 then []
    else if |parts| == 1 then parts[0]
    else parts[0] + [sep] + Join(parts[1..], sep)
  }

  /**
   `strings.Split` with a one-character separator: the maximal runs of `s`
   between separators, always at least one (an empty `s` gives `[""]`).
   */
  function Split(s: string, sep: char): (parts: seq<string>)
    ensures |parts| >= 1
    ensures forall i :: 0 <= i < |parts| ==> sep !in parts[i]
    ensures Join(parts, sep) == s
    decreases |s|
  {
    if s == [] then [[]]
    else
      var rest := Split(s[1..], sep);
      if s[0] == sep then [[]] + rest
      else
        var parts := [[s[0]] + rest[0]] + rest[1..];
        assert parts[1..] == rest[1..];
        parts
  }

  /** The first element of `Split(s, sep)` is the text of `s` before its first `sep`. */
  lemma {:induction false} SplitFirst(s: string, sep: char)
    ensures var first := Split(s, sep)[0];
      && first == s[..|first|]
      && (|first| < |s| ==> s[|first|] == sep)
    decreases |s|
  {
    if s != [] {
      SplitFirst(s[1..], sep);
    }
  }

  /** Splitting a prefix free of separators glues it onto the first part. */
  lemma {:induction false} SplitPrefix(p: string, rest: string, sep: char)
    requires sep !in p
    ensures Split(p + rest, sep) == [p + Split(rest, sep)[0]] + Split(rest, sep)[1..]
    decreases |p|
  {
    if p == [] {
      var parts := Split(rest, sep);
      assert p + rest == rest;
      assert p + parts[0] == parts[0];
      assert parts == [parts[0]] + parts[1..];
    } else {
      var tail := p[1..] + rest;
      assert (p + rest)[1..] == tail;
      SplitPrefix(p[1..], rest, sep);
      assert [p[0]] + (p[1..] + Split(rest, sep)[0]) == p + Split(rest, sep)[0];
    }
  }

  /** Splitting undoes joining, for parts that hold no separator. */
  lemma {:induction false} SplitJoin(parts: seq<string>, sep: char)
    requires |parts| >= 1
    requires forall i :: 0 <= i < |parts| ==> sep !in parts[i]
    ensures Split(Join(parts, sep), sep) == parts
    decreases |parts|
  {
    if |parts| == 1 {
      SplitPrefix(parts[0], [], sep);
      assert parts[0] + [] == parts[0];
    } else {
      var tail := Join(parts[1..], sep);
      SplitJoin(parts[1..], sep);
      assert parts[0] + [sep] + tail == parts[0] + ([sep] + tail);
      SplitPrefix(parts[0], [sep] + tail, sep);
      assert ([sep] + tail)[1..] == tail;
      assert Split([sep] + tail, sep) == [[]] + parts[1..];
      assert parts[0] + [] == parts[0];
    }
  }

  /** `strings.IndexByte`: the first position of `c` in `s`, or -1. */
  function Index(s: string, c: char): (i: int)
    ensures -1 <= i < |s|
    ensures i == -1 <==> c !in s
    ensures 0 <= i ==> s[i] == c && c !in s[..i]
  {
    if s == [] then -1
    else if s[0] == c then 0
    else
      var j := Index(s[1..], c);
      if j < 0 then -1 else j + 1
  }

  /** `strings.LastIndexByte`: the last position of `c` in `s`, or -1. */
  function LastIndex(s: string, c: char): (i: int)
    ensures -1 <= i < |s|
    ensures i == -1 <==> c !in s
    ensures 0 <= i ==> s[i] == c && c !in s[i + 1..]
  {
    if s == [] then -1
    else if s[|s| - 1] == c then |s| - 1
    else LastIndex(s[..|s| - 1], c)
  }
}
