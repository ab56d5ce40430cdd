/** Base64 (section 4 of RFC 4648) as the repository encodes and decodes it. The bit fields of a 24-bit group are
    written with division and remainder. */
module Base64 {
  import opened Wrappers

  type byte = x: int | 0 <= x < 256
  type sextet = x: int | 0 <= x < 64

  // ---------- the alphabet ----------

  const TABLE: string := CAPITALS + SMALL + "0123456789+/"
  const CAPITALS: string := "ABCDEFGHIJKLMNOPQRSTUVWXYZ"
  const SMALL: string := "abcdefghijklmnopqrstuvwxyz"

  function Letter(v: sextet): char {
    if v < 26 then 'A' + v as char
    else if v < 52 then 'a' + (v - 26) as char
    else if v < 62 then '0' + (v - 52) as char
    else if v == 62 then '+'
    else '/'
  }

  // base64_value: -2 for the padding character, -1 for any other character outside the alphabet.
  function Value(c: char): (v: int)
    ensures -2 <= v < 64
  {
    if 'A' <= c <= 'Z' then (c - 'A') as int
    else if 'a' <= c <= 'z' then (c - 'a') as int + 26
    else if '0' <= c <= '9' then (c - '0') as int + 52
    else if c == '+' then 62
    else if c == '/' then 63
    else if c == '=' then -2
    else -1
  }

  lemma Alphabet(v: sextet, c: char)
    ensures Value(Letter(v)) == v && Letter(v) != '='
    ensures Value(c) >= 0 ==> Letter(Value(c)) == c
    ensures Value(c) == -2 <==> c == '='
  {}

  // The letter of a value is its entry in the table of section 4.
  lemma LetterInTable(v: sextet)
    ensures |TABLE| == 64 && TABLE[v] == Letter(v)
  {
    assert |CAPITALS| == 26 && |SMALL| == 26;
    if v < 26 {
      Capital(v);
    } else if v < 52 {
      SmallLetter(v);
    }
  }

  lemma Capital(v: sextet)
    requires v < 26
    ensures CAPITALS[v] == Letter(v)
  {}

  lemma SmallLetter(v: sextet)
    requires 26 <= v < 52
    ensures |SMALL| == 26 && SMALL[v - 26] == Letter(v)
  {}

  // ---------- groups ----------

  // Three bytes, and four characters' values, as one 24-bit number.
  function Bits8(a: byte, b: byte, c: byte): nat {
    a * 65536 + b * 256 + c
  }

  function Bits6(a: sextet, b: sextet, c: sextet, d: sextet): nat {
    a * 262144 + b * 4096 + c * 64 + d
  }

  // The four characters at j are letters that carry these 24 bits.
  predicate GroupIs(e: string, j: nat, bits: nat)
    requires j + 4 <= |e|
  {
    && Value(e[j]) >= 0 && Value(e[j + 1]) >= 0 && Value(e[j + 2]) >= 0 && Value(e[j + 3]) >= 0
    && Bits6(Value(e[j]), Value(e[j + 1]), Value(e[j + 2]), Value(e[j + 3])) == bits
  }

  // Group k of the text stands for the k-th three bytes.
  predicate Same(e: string, x: seq<byte>, k: nat)
    requires 4 * k + 4 <= |e| && 3 * k + 3 <= |x|
  {
    GroupIs(e, 4 * k, Bits8(x[3 * k], x[3 * k + 1], x[3 * k + 2]))
  }

  lemma SplitBits(t: nat)
    requires t < 16777216
    ensures t / 262144 < 64 && Bits6(t / 262144, t / 4096 % 64, t / 64 % 64, t % 64) == t
    ensures t / 65536 < 256 && Bits8(t / 65536, t / 256 % 256, t % 256) == t
  {
    assert t / 64 / 64 == t / 4096 && t / 4096 / 64 == t / 262144;
    assert t / 256 / 256 == t / 65536;
  }

  lemma Bits8Injective(a: byte, b: byte, c: byte, a': byte, b': byte, c': byte)
    requires Bits8(a, b, c) == Bits8(a', b', c')
    ensures a == a' && b == b' && c == c'
  {}

  lemma Bits6Injective(a: sextet, b: sextet, c: sextet, d: sextet, a': sextet, b': sextet, c': sextet, d': sextet)
    requires Bits6(a, b, c, d) == Bits6(a', b', c', d')
    ensures a == a' && b == b' && c == c' && d == d'
  {}

  // ---------- encoding ----------

  // The encoding of section 4: whole groups, then for one or two bytes left over a group filled up with zero bits
  // that shows only the characters it needs, and padding.
  predicate IsEncoding(e: string, x: seq<byte>) {
    GroupsEncode(e, x, |x| / 3)
  }

  predicate GroupsEncode(e: string, x: seq<byte>, n: nat)
    requires 3 * n <= |x| < 3 * n + 3
  {
    && |e| == 4 * n + (if |x| == 3 * n then 0 else 4)
    && (forall k :: 0 <= k < n ==> Same(e, x, k))
    && (|x| > 3 * n ==> LastGroup(e, 4 * n, x, 3 * n))
  }

  predicate LastGroup(e: string, j: nat, x: seq<byte>, i: nat)
    requires j + 4 == |e| && i < |x| <= i + 2
  {
    && Value(e[j]) >= 0 && Value(e[j + 1]) >= 0 && e[j + 3] == '='
    && if |x| == i + 1 then
         e[j + 2] == '=' && Bits6(Value(e[j]), Value(e[j + 1]), 0, 0) == Bits8(x[i], 0, 0)
       else
         Value(e[j + 2]) >= 0 && Bits6(Value(e[j]), Value(e[j + 1]), Value(e[j + 2]), 0) == Bits8(x[i], x[i + 1], 0)
  }

  function At(x: seq<byte>, i: nat): byte {
    if i < |x| then x[i] else 0
  }

  // Group k when the bytes are filled up with zeros.
  predicate Filled(e: string, x: seq<byte>, k: nat)
    requires 4 * k + 4 <= |e|
  {
    GroupIs(e, 4 * k, Bits8(At(x, 3 * k), At(x, 3 * k + 1), At(x, 3 * k + 2)))
  }

  predicate FilledUpTo(e: string, x: seq<byte>, k: nat)
    requires 4 * k <= |e|
  {
    forall m :: 0 <= m < k ==> Filled(e, x, m)
  }

  lemma FilledMore(e: string, e': string, x: seq<byte>, k: nat)
    requires 4 * k + 4 <= |e| == |e'| && FilledUpTo(e, x, k) && Filled(e', x, k)
    requires forall i :: 0 <= i < 4 * k ==> e'[i] == e[i]
    ensures FilledUpTo(e', x, k + 1)
  {
    forall m | 0 <= m < k
      ensures Filled(e', x, m)
    {
      assert Filled(e, x, m);
    }
  }

  method Encode(input: seq<byte>) returns (output: string)
    ensures IsEncoding(output, input)
  {
    var length := 4 * ((|input| + 2) / 3);
    var encoded := new char[length];
    var i, j := 0, 0;
    ghost var k := 0;
    while i < |input|
      invariant j == 4 * k <= length && i == if 3 * k <= |input| then 3 * k else |input|
      invariant FilledUpTo(encoded[..], input, k)
    {
      var a, b, c := input[i], 0, 0;
      i := i + 1;
      if i < |input| {
        b, i := input[i], i + 1;
      }
      if i < |input| {
        c, i := input[i], i + 1;
      }
      ghost var before := encoded[..];
      WriteGroup(encoded, j, a, b, c);
      FilledMore(before, encoded[..], input, k);
      j, k := j + 4, k + 1;
    }
    var mod := |input| % 3;
    PaddingIsRight(encoded[..], input, |input| / 3, mod);
    WritePadding(encoded, mod);
    return encoded[..];
  }

  method WritePadding(encoded: array<char>, mod: nat)
    requires mod > 0 ==> encoded.Length >= 2
    modifies encoded
    ensures encoded[..] == Overwritten(old(encoded[..]), mod)
  {
    if mod > 0 {
      encoded[encoded.Length - 1] := '=';
      if mod == 1 {
        encoded[encoded.Length - 2] := '=';
      }
    }
  }

  // The entry of the table.
  method LetterOf(v: sextet) returns (c: char)
    ensures c == Letter(v)
  {
    LetterInTable(v);
    return TABLE[v];
  }

  // The four characters of one group.
  method WriteGroup(encoded: array<char>, j: nat, a: byte, b: byte, c: byte)
    requires j + 4 <= encoded.Length
    modifies encoded
    ensures GroupIs(encoded[..], j, Bits8(a, b, c))
    ensures forall i :: 0 <= i < encoded.Length && !(j <= i < j + 4) ==> encoded[i] == old(encoded[i])
  {
    var triple := a * 65536 + b * 256 + c;
    SplitBits(triple);
    encoded[j] := LetterOf(triple / 262144);
    encoded[j + 1] := LetterOf(triple / 4096 % 64);
    encoded[j + 2] := LetterOf(triple / 64 % 64);
    encoded[j + 3] := LetterOf(triple % 64);
    Alphabet(triple / 262144, 'A');
    Alphabet(triple / 4096 % 64, 'A');
    Alphabet(triple / 64 % 64, 'A');
    Alphabet(triple % 64, 'A');
  }

  function Overwritten(raw: string, mod: nat): (e: string)
    requires mod > 0 ==> |raw| >= 2
    ensures |e| == |raw|
  {
    if mod == 0 then raw
    else if mod == 1 then raw[|raw| - 1 := '='][|raw| - 2 := '=']
    else raw[|raw| - 1 := '=']
  }

  // Overwriting the last one or two characters with padding loses no bits: they were zero.
  lemma PaddingIsRight(raw: string, x: seq<byte>, n: nat, mod: nat)
    requires |x| == 3 * n + mod && mod < 3 && |raw| == 4 * n + (if mod == 0 then 0 else 4)
    requires FilledUpTo(raw, x, if mod == 0 then n else n + 1)
    ensures GroupsEncode(Overwritten(raw, mod), x, n)
  {
    forall k | 0 <= k < n
      ensures Same(Overwritten(raw, mod), x, k)
    {
      WholeGroup(raw, mod, x, k);
    }
    if mod > 0 {
      assert Filled(raw, x, n);
      PaddedGroup(raw, mod, x, n);
    }
  }

  lemma WholeGroup(raw: string, mod: nat, x: seq<byte>, k: nat)
    requires 3 * k + 3 <= |x| && 4 * k + 4 <= |raw| && Filled(raw, x, k)
    requires mod > 0 ==> 4 * k + 8 <= |raw|
    ensures Same(Overwritten(raw, mod), x, k)
  {
    var e := Overwritten(raw, mod);
    assert forall i :: 4 * k <= i < 4 * k + 4 ==> e[i] == raw[i];
  }

  lemma PaddedGroup(raw: string, mod: nat, x: seq<byte>, n: nat)
    requires |x| == 3 * n + mod && 0 < mod < 3 && |raw| == 4 * n + 4 && Filled(raw, x, n)
    ensures LastGroup(Overwritten(raw, mod), 4 * n, x, 3 * n)
  {
    ZeroBits(raw, 4 * n, At(x, 3 * n), At(x, 3 * n + 1));
  }

  // A group that ends in one zero byte ends in a zero character; one that ends in two ends in two.
  lemma ZeroBits(e: string, j: nat, a: byte, b: byte)
    requires j + 4 <= |e| && GroupIs(e, j, Bits8(a, b, 0))
    ensures Value(e[j + 3]) == 0 && (b == 0 ==> Value(e[j + 2]) == 0)
  {
    LowBits(Value(e[j]), Value(e[j + 1]), Value(e[j + 2]), Value(e[j + 3]), a, b);
  }

  lemma LowBits(va: sextet, vb: sextet, vc: sextet, vd: sextet, a: byte, b: byte)
    requires Bits6(va, vb, vc, vd) == Bits8(a, b, 0)
    ensures vd == 0 && (b == 0 ==> vc == 0)
  {
    assert vd == 64 * (a * 1024 + b * 4 - va * 4096 - vb * 64 - vc);
    assert b == 0 ==> vc == 64 * (a * 16 - va * 64 - vb);
  }

  // ---------- decoding ----------

  // A group that the decoder lets through: the first two characters in the alphabet, no padding in the last two.
  // (Another character outside the alphabet is let through there.)
  predicate GoodGroup(s: string, k: nat)
    requires 4 * k + 4 <= |s|
  {
    Value(s[4 * k]) >= 0 && Value(s[4 * k + 1]) >= 0 && s[4 * k + 2] != '=' && s[4 * k + 3] != '='
  }

  predicate GoodGroups(s: string, k: nat)
    requires 4 * k <= |s|
  {
    forall j :: 0 <= j < k ==> GoodGroup(s, j)
  }

  predicate Refused(s: string) {
    s == "" || |s| % 4 != 0 || !GoodGroups(s, |s| / 4)
  }

  predicate AllLetters(s: string, n: nat)
    requires n <= |s|
  {
    forall i :: 0 <= i < n ==> Value(s[i]) >= 0
  }

  // The first k groups stand for the bytes, up to the first character outside the alphabet. (From there on bytes
  // are missing, and the end of the buffer is whatever it held.)
  predicate Decoded(bs: seq<byte>, s: string, k: nat)
    requires 4 * k <= |s|
  {
    forall j :: 0 <= j < k && AllLetters(s, 4 * j + 4) ==> 3 * j + 3 <= |bs| && Same(s, bs, j)
  }

  predicate IsDecoding(bs: seq<byte>, s: string) {
    4 * |bs| == 3 * |s| && Decoded(bs, s, |s| / 4)
  }

  lemma DecodedMore(bs: seq<byte>, bs': seq<byte>, s: string, k: nat)
    requires 4 * k + 4 <= |s| && bs <= bs' && Decoded(bs, s, k)
    requires AllLetters(s, 4 * k + 4) ==> |bs'| == 3 * k + 3 && Same(s, bs', k)
    ensures Decoded(bs', s, k + 1)
  {
    forall j | 0 <= j < k + 1 && AllLetters(s, 4 * j + 4)
      ensures 3 * j + 3 <= |bs'| && Same(s, bs', j)
    {
      assert j < k ==> 3 * j + 3 <= |bs| && Same(s, bs, j);
    }
  }

  lemma DecodedLonger(bs: seq<byte>, bs': seq<byte>, s: string, k: nat)
    requires 4 * k <= |s| && bs <= bs' && Decoded(bs, s, k)
    ensures Decoded(bs', s, k)
  {
    forall j | 0 <= j < k && AllLetters(s, 4 * j + 4)
      ensures 3 * j + 3 <= |bs'| && Same(s, bs', j)
    {
      assert Same(s, bs, j);
    }
  }

  // How many of the last two characters are padding. With any, the last group will be refused.
  method CountPadding(s: string, groups: nat) returns (padding: nat)
    requires |s| == 4 * groups && groups > 0
    ensures padding <= 2 && (padding > 0 ==> !GoodGroup(s, groups - 1))
  {
    padding := 0;
    if s[|s| - 1] == '=' {
      padding := padding + 1;
    }
    if s[|s| - 2] == '=' {
      padding := padding + 1;
    }
  }

  method Decode(input: string) returns (output: Option<seq<byte>>)
    ensures output.None? <==> Refused(input)
    ensures output.Some? ==> IsDecoding(output.value, input)
  {
    if input == "" || |input| % 4 != 0 {
      return None;
    }
    var groups := |input| / 4;
    var padding := CountPadding(input, groups);
    var decoded := new byte[groups * 3 - padding];
    var k, out := 0, 0;
    while k < groups
      invariant k <= groups && GoodGroups(input, k) && out <= 3 * k
      invariant AllLetters(input, 4 * k) ==> out == 3 * k
      invariant out <= decoded.Length && Decoded(decoded[..out], input, k)
    {
      var n := 4 * k;
      if Value(input[n]) < 0 || Value(input[n + 1]) < 0 || Value(input[n + 2]) < -1 || Value(input[n + 3]) < -1 {
        assert !GoodGroup(input, k);
        return None;
      }
      assert GoodGroup(input, k);
      out := DecodeGroup(decoded, out, input, k);
      k := k + 1;
    }
    DecodedLonger(decoded[..out], decoded[..], input, k);
    return Some(decoded[..]);
  }

  // The bytes of group k are added to those of the groups before it.
  method DecodeGroup(decoded: array<byte>, start: nat, s: string, k: nat) returns (out: nat)
    requires 4 * k + 4 <= |s| && GoodGroup(s, k) && start + 3 <= decoded.Length
    requires Decoded(decoded[..start], s, k) && (AllLetters(s, 4 * k) ==> start == 3 * k)
    modifies decoded
    ensures start <= out <= start + 3 && Decoded(decoded[..out], s, k + 1)
    ensures AllLetters(s, 4 * k + 4) ==> out == 3 * k + 3
  {
    ghost var before := decoded[..start];
    out := WriteBytes(decoded, start, s, 4 * k);
    assert before == decoded[..out][..start];
    DecodedMore(before, decoded[..out], s, k);
  }

  function Part(v: int): sextet
    requires v < 64
  {
    if v >= 0 then v else 0
  }

  // The bytes of one group, as far as there is room.
  method WriteBytes(decoded: array<byte>, start: nat, s: string, n: nat) returns (out: nat)
    requires start + 3 <= decoded.Length && n + 4 <= |s| && Value(s[n]) >= 0 && Value(s[n + 1]) >= 0
    modifies decoded
    ensures start <= out <= start + 3 && decoded[..start] == old(decoded[..start])
    ensures Value(s[n + 2]) >= 0 && Value(s[n + 3]) >= 0 ==>
      out == start + 3 && GroupIs(s, n, Bits8(decoded[start], decoded[start + 1], decoded[start + 2]))
  {
    var triple := Bits6(Value(s[n]), Value(s[n + 1]), Part(Value(s[n + 2])), Part(Value(s[n + 3])));
    SplitBits(triple);
    out := start;
    if out < decoded.Length {
      decoded[out] := triple / 65536;
      out := out + 1;
    }
    if Value(s[n + 2]) >= 0 && out < decoded.Length {
      decoded[out] := triple / 256 % 256;
      out := out + 1;
    }
    if Value(s[n + 3]) >= 0 && out < decoded.Length {
      decoded[out] := triple % 256;
      out := out + 1;
    }
  }

  // ---------- round trips ----------

  lemma LettersAreGood(s: string, k: nat)
    requires 4 * k <= |s| && AllLetters(s, 4 * k)
    ensures GoodGroups(s, k)
  {
    forall j | 0 <= j < k
      ensures GoodGroup(s, j)
    {
      assert Value(s[4 * j]) >= 0 && Value(s[4 * j + 1]) >= 0 && Value(s[4 * j + 2]) >= 0 && Value(s[4 * j + 3]) >= 0;
    }
  }

  lemma {:induction false} SameAreLetters(e: string, x: seq<byte>, k: nat)
    requires 4 * k <= |e| && 3 * k <= |x| && forall j :: 0 <= j < k ==> Same(e, x, j)
    ensures AllLetters(e, 4 * k)
  {
    if k > 0 {
      SameAreLetters(e, x, k - 1);
      assert Same(e, x, k - 1);
      FourMore(e, 4 * (k - 1));
    }
  }

  lemma FourMore(e: string, n: nat)
    requires n + 4 <= |e| && AllLetters(e, n)
    requires Value(e[n]) >= 0 && Value(e[n + 1]) >= 0 && Value(e[n + 2]) >= 0 && Value(e[n + 3]) >= 0
    ensures AllLetters(e, n + 4)
  {
    forall i | 0 <= i < n + 4
      ensures Value(e[i]) >= 0
    {
      assert i < n || i == n || i == n + 1 || i == n + 2 || i == n + 3;
    }
  }

  lemma Quarter(n: nat)
    ensures 4 * n / 4 == n && 4 * n % 4 == 0
  {}

  lemma AcceptsWhole(e: string, x: seq<byte>, n: nat)
    requires |x| == 3 * n && |e| == 4 * n && n > 0 && forall k :: 0 <= k < n ==> Same(e, x, k)
    ensures !Refused(e)
  {
    Quarter(n);
    SameAreLetters(e, x, n);
    LettersAreGood(e, n);
  }

  lemma RefusesPadding(e: string, n: nat)
    requires |e| == 4 * n + 4 && e[4 * n + 3] == '='
    ensures Refused(e)
  {
    Quarter(n + 1);
    assert !GoodGroup(e, n);
  }

  // The decoder accepts an encoding exactly when there are bytes, and a whole number of groups of them.
  lemma AcceptsOwn(e: string, x: seq<byte>)
    requires IsEncoding(e, x)
    ensures !Refused(e) <==> |x| > 0 && |x| % 3 == 0
  {
    var n := |x| / 3;
    if |x| % 3 != 0 {
      RefusesPadding(e, n);
    } else if n > 0 {
      AcceptsWhole(e, x, n);
    }
  }

  lemma {:induction false} SameBytes(e: string, x: seq<byte>, y: seq<byte>, k: nat)
    requires 4 * k <= |e| && 3 * k <= |x| && 3 * k <= |y|
    requires forall j :: 0 <= j < k ==> Same(e, x, j) && Same(e, y, j)
    ensures x[..3 * k] == y[..3 * k]
  {
    if k > 0 {
      SameBytes(e, x, y, k - 1);
      var i := 3 * (k - 1);
      assert Same(e, x, k - 1) && Same(e, y, k - 1);
      Bits8Injective(x[i], x[i + 1], x[i + 2], y[i], y[i + 1], y[i + 2]);
      TakeThree(x, i);
      TakeThree(y, i);
    }
  }

  lemma TakeThree(s: seq<byte>, m: nat)
    requires m + 3 <= |s|
    ensures s[..m + 3] == s[..m] + [s[m], s[m + 1], s[m + 2]]
  {}

  // Whatever buffer the decoder started from, it gives back the bytes that were encoded.
  lemma DecodesOwn(e: string, x: seq<byte>, y: seq<byte>)
    requires IsEncoding(e, x) && |x| % 3 == 0 && IsDecoding(y, e)
    ensures y == x
  {
    var n := |x| / 3;
    SameAreLetters(e, x, n);
    forall j | 0 <= j < n
      ensures Same(e, x, j) && Same(e, y, j)
    {
      assert AllLetters(e, 4 * j + 4);
    }
    SameBytes(e, x, y, n);
    assert x[..3 * n] == x && y[..3 * n] == y;
  }

  // decode(encode(x)): the bytes again for a positive multiple of three, a refusal for every other length.
  method EncodeThenDecode(x: seq<byte>) returns (back: Option<seq<byte>>)
    ensures back == if |x| > 0 && |x| % 3 == 0 then Some(x) else None
  {
    var e := Encode(x);
    AcceptsOwn(e, x);
    back := Decode(e);
    if back.Some? {
      DecodesOwn(e, x, back.value);
    }
  }

  lemma {:induction false} SameLetters(e: string, e': string, x: seq<byte>, k: nat)
    requires 4 * k <= |e| && 4 * k <= |e'| && 3 * k <= |x|
    requires forall j :: 0 <= j < k ==> Same(e, x, j) && Same(e', x, j)
    ensures e[..4 * k] == e'[..4 * k]
  {
    if k > 0 {
      SameLetters(e, e', x, k - 1);
      assert Same(e, x, k - 1) && Same(e', x, k - 1);
      SameGroup(e, e', 4 * (k - 1));
    }
  }

  lemma SameGroup(e: string, e': string, j: nat)
    requires j + 4 <= |e| && j + 4 <= |e'| && e[..j] == e'[..j]
    requires exists bits :: GroupIs(e, j, bits) && GroupIs(e', j, bits)
    ensures e[..j + 4] == e'[..j + 4]
  {
    Bits6Injective(Value(e[j]), Value(e[j + 1]), Value(e[j + 2]), Value(e[j + 3]),
                   Value(e'[j]), Value(e'[j + 1]), Value(e'[j + 2]), Value(e'[j + 3]));
    forall i | j <= i < j + 4
      ensures e[i] == e'[i]
    {
      Alphabet(0, e[i]);
      Alphabet(0, e'[i]);
    }
    assert forall i :: 0 <= i < j ==> e[..j][i] == e'[..j][i];
  }

  // The other way round: a text of whole groups over the alphabet is the encoding of what it decodes to.
  lemma TextIsEncoding(s: string, y: seq<byte>)
    requires |s| % 4 == 0 && AllLetters(s, |s|) && IsDecoding(y, s)
    ensures IsEncoding(s, y)
  {}

  // A byte string has one encoding.
  lemma EncodingUnique(e: string, e': string, x: seq<byte>)
    requires IsEncoding(e, x) && IsEncoding(e', x)
    ensures e == e'
  {
    var n := |x| / 3;
    SameLetters(e, e', x, n);
    if |x| % 3 == 0 {
      assert e[..4 * n] == e && e'[..4 * n] == e';
    } else {
      SameLastGroup(e, e', 4 * n, x, 3 * n);
    }
  }

  lemma SameLastGroup(e: string, e': string, j: nat, x: seq<byte>, i: nat)
    requires j + 4 == |e| == |e'| && i < |x| <= i + 2 && e[..j] == e'[..j]
    requires LastGroup(e, j, x, i) && LastGroup(e', j, x, i)
    ensures e == e'
  {
    var c, c' := if |x| == i + 1 then 0 else Value(e[j + 2]), if |x| == i + 1 then 0 else Value(e'[j + 2]);
    Bits6Injective(Value(e[j]), Value(e[j + 1]), c, 0, Value(e'[j]), Value(e'[j + 1]), c', 0);
    forall k | j <= k < j + 3
      ensures e[k] == e'[k]
    {
      Alphabet(0, e[k]);
      Alphabet(0, e'[k]);
    }
    assert forall k :: 0 <= k < j ==> e[..j][k] == e'[..j][k];
  }

  method DecodeThenEncode(s: string) returns (again: string)
    requires s != "" && |s| % 4 == 0 && AllLetters(s, |s|)
    ensures again == s
  {
    LettersAreGood(s, |s| / 4);
    var y := Decode(s);
    TextIsEncoding(s, y.value);
    again := Encode(y.value);
    EncodingUnique(again, s, y.value);
  }
}
