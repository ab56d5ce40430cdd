/** Character classes, delimiter counting and trimming, shared by the scanners of both servers. */
module Text {

  // isspace in the C locale: space, and the five control characters from tab to carriage return
  predicate IsSpace(c: char) {
    c == ' ' || '\t' <= c <= '\r'
  }

  predicate IsDelimiter(c: char) {
    c == '.' || c == '!' || c == '?'
  }

  // The number of sentence delimiters in a text.
  function Delims(s: string): nat {
    if s == "" then 0
    else Delims(s[..|s| - 1]) + (if IsDelimiter(s[|s| - 1]) then 1 else 0)
  }

  predicate AllSpace(s: string) {
    forall i :: 0 <= i < |s| ==> IsSpace(s[i])
  }

  // The parts with a separator between neighbours.
  function Join(parts: seq<string>, separator: char): string {
    if parts == [] then ""
    else if |parts| == 1 then parts[0]
    else Join(parts[..|parts| - 1], separator) + [separator] + parts[|parts| - 1]
  }

  // safe_strcpy: what fits into a buffer of the given size, with its closing NUL.
  function Cut(s: string, size: nat): string
    requires size > 0
  {
    if |s| >= size then s[..size - 1] else s
  }

  // The text ends in a sentence delimiter.
  predicate Terminated(s: string) {
    s != "" && IsDelimiter(s[|s| - 1])
  }

  // Taking off the last element, of a sequence and of a concatenation.
  lemma InitLast<T>(a: seq<T>, s: seq<T>)
    requires s != []
    ensures s == s[..|s| - 1] + [s[|s| - 1]]
    ensures a + s == a + s[..|s| - 1] + [s[|s| - 1]]
  {}

  lemma Associative<T>(a: seq<T>, b: seq<T>, c: seq<T>)
    ensures (a + b) + c == a + (b + c)
  {}

  lemma CutBetween(a: string, c: char, b: string)
    ensures var s := a + [c] + b;
            s[..|a|] == a[..|a|] == a && s[|a| + 1..] == b
  {}

  lemma CutInside(a: string, c: char, b: string, i: nat)
    requires i < |a|
    ensures var s := a + [c] + b;
            s[..i] == a[..i] && s[i + 1..] == a[i + 1..] + [c] + b
  {}

  lemma {:induction false} DelimsAppend(a: string, b: string)
    ensures Delims(a + b) == Delims(a) + Delims(b)
  {
    if b == "" {
      assert a + b == a;
    } else {
      assert (a + b)[..|a + b| - 1] == a + b[..|b| - 1];
      DelimsAppend(a, b[..|b| - 1]);
    }
  }

  lemma {:induction false} DelimsZero(s: string)
    ensures Delims(s) == 0 <==> forall i :: 0 <= i < |s| ==> !IsDelimiter(s[i])
  {
    if s != "" {
      var init := s[..|s| - 1];
      DelimsZero(init);
      assert forall i :: 0 <= i < |init| ==> init[i] == s[i];
    }
  }

  function StripTrailing(s: string): string {
    if s != "" && IsSpace(s[|s| - 1]) then StripTrailing(s[..|s| - 1]) else s
  }

  function TrimLeft(s: string): string {
    if s != "" && IsSpace(s[0]) then TrimLeft(s[1..]) else s
  }

  function Trim(s: string): string {
    StripTrailing(TrimLeft(s))
  }

  // Trimming keeps a stretch of the text: only white space goes, and none is left at the ends.
  lemma TrimIs(s: string) returns (i: nat, j: nat)
    ensures i <= j <= |s| && Trim(s) == s[i..j]
    ensures AllSpace(s[..i]) && AllSpace(s[j..])
    ensures i < j ==> !IsSpace(s[i]) && !IsSpace(s[j - 1])
  {
    i := TrimLeftIs(s);
    var t := s[i..];
    var k := StripTrailingIs(t);
    j := i + k;
    assert s[j..] == t[k..] && s[i..j] == t[..k];
    assert i < j ==> t[0] == s[i] && t[k - 1] == s[j - 1];
  }

  lemma {:induction false} TrimLeftIs(s: string) returns (i: nat)
    ensures i <= |s| && TrimLeft(s) == s[i..] && AllSpace(s[..i]) && (i < |s| ==> !IsSpace(s[i]))
  {
    i := 0;
    if s != "" && IsSpace(s[0]) {
      var k := TrimLeftIs(s[1..]);
      i := k + 1;
      assert s[1..][k..] == s[i..];
      assert forall n :: 1 <= n < i ==> s[n] == s[1..][..k][n - 1];
    }
  }

  lemma InitTail(s: string, j: nat)
    requires s != "" && j < |s|
    ensures s[..|s| - 1][..j] == s[..j] && s[j..] == s[..|s| - 1][j..] + [s[|s| - 1]]
  {}

  lemma {:induction false} StripTrailingIs(s: string) returns (j: nat)
    ensures j <= |s| && StripTrailing(s) == s[..j] && AllSpace(s[j..]) && (j > 0 ==> !IsSpace(s[j - 1]))
  {
    j := |s|;
    if s != "" && IsSpace(s[|s| - 1]) {
      var init := s[..|s| - 1];
      j := StripTrailingIs(init);
      InitLast([], s);
      InitTail(s, j);
    }
  }

  // trim_string: the text moves to the front of the buffer, then the tail is cut.
  method TrimString(text: string) returns (r: string)
    ensures r == Trim(text)
  {
    r := text;
    while r != "" && IsSpace(r[0])
      invariant TrimLeft(r) == TrimLeft(text)
      decreases |r|
    {
      r := r[1..];
    }
    ghost var left := r;
    while r != "" && IsSpace(r[|r| - 1])
      invariant StripTrailing(r) == StripTrailing(left)
      decreases |r|
    {
      r := r[..|r| - 1];
    }
  }

  // The position of the first c, or the length.
  function First(s: string, c: char): (r: nat)
    ensures r <= |s| && (r < |s| ==> s[r] == c)
    ensures forall i :: 0 <= i < r ==> s[i] != c
  {
    if s == "" || s[0] == c then 0 else 1 + First(s[1..], c)
  }

  lemma FirstIs(s: string, c: char, r: nat)
    requires r <= |s| && (r < |s| ==> s[r] == c) && forall i :: 0 <= i < r ==> s[i] != c
    ensures First(s, c) == r
  {
    var f := First(s, c);
    assert !(f < r) && !(r < f);
  }

  // A text that starts and ends with other characters loses only the newline after it.
  lemma TrimLine(s: string)
    requires s != "" && !IsSpace(s[0]) && !IsSpace(s[|s| - 1])
    ensures Trim(s) == s && Trim(s + "\n") == s
  {
    assert (s + "\n")[..|s|] == s;
  }
}
