/** The names of checkpoint snapshot files (ss_sanitize_tag and the file name that the checkpoint handler builds). */
module SnapshotNames {
  import opened Text
  import Decimals

  const MAX_TAG_LENGTH: nat := 128

  predicate IsAlnum(c: char) {
    '0' <= c <= '9' || 'a' <= c <= 'z' || 'A' <= c <= 'Z'
  }

  function SanitizeChar(c: char): char {
    if IsAlnum(c) || c == '_' || c == '-' then c else if IsSpace(c) then '-' else '_'
  }

  function SanitizeTag(tag: string): (r: string)
    ensures |r| == |Cut(tag, MAX_TAG_LENGTH)|
    ensures forall i :: 0 <= i < |r| ==> r[i] == SanitizeChar(tag[i])
  {
    seq(|Cut(tag, MAX_TAG_LENGTH)|, i requires 0 <= i < |Cut(tag, MAX_TAG_LENGTH)| => SanitizeChar(tag[i]))
  }

  // ss_sanitize_tag: one character at a time, as long as the buffer has room.
  method Sanitize(tag: string) returns (r: string)
    ensures r == SanitizeTag(tag)
  {
    r := "";
    var i := 0;
    while i < |tag| && i + 1 < MAX_TAG_LENGTH
      invariant i <= |Cut(tag, MAX_TAG_LENGTH)| && r == SanitizeTag(tag)[..i]
    {
      var c := tag[i];
      if IsAlnum(c) || c == '_' || c == '-' {
        r := r + [c];
      } else if !IsSpace(c) {
        r := r + ['_'];
      } else {
        r := r + ['-'];
      }
      i := i + 1;
    }
    assert SanitizeTag(tag)[..i] == SanitizeTag(tag);
  }

  // What follows the file's own path: the clock in seconds and the tag.
  function Suffix(now: int, tag: string): string {
    Decimals.Decimal(now) + ['_'] + SanitizeTag(tag)
  }

  // The snapshot of a checkpoint. base is the storage directory and the name of the file.
  function SnapshotPath(base: string, now: int, tag: string): string {
    base + ".ckpt_" + Suffix(now, tag)
  }

  method BuildPath(base: string, now: int, tag: string) returns (path: string)
    ensures path == SnapshotPath(base, now, tag)
  {
    var sanitized := Sanitize(tag);
    return base + ".ckpt_" + (Decimals.Decimal(now) + ['_'] + sanitized);
  }

  lemma NoDot(now: int, tag: string)
    ensures '.' !in Suffix(now, tag) && '_' !in Decimals.Decimal(now)
  {
    var d, t := Decimals.Decimal(now), SanitizeTag(tag);
    assert forall i :: 0 <= i < |d| ==> Decimals.IsDigit(d[i]) || d[i] == '-';
  }

  // The last '.' of a snapshot path stands right behind the file's own path.
  lemma LastDot(base: string, now: int, tag: string, i: nat)
    requires |base| < i < |SnapshotPath(base, now, tag)|
    ensures SnapshotPath(base, now, tag)[i] != '.'
  {
    NoDot(now, tag);
    var tail := "ckpt_" + Suffix(now, tag);
    assert SnapshotPath(base, now, tag) == base + "." + tail;
    assert SnapshotPath(base, now, tag)[i] == tail[i - |base| - 1];
  }

  lemma SuffixInjective(now: int, tag: string, now': int, tag': string)
    requires Suffix(now, tag) == Suffix(now', tag')
    ensures now == now' && SanitizeTag(tag) == SanitizeTag(tag')
  {
    var d, d' := Decimals.Decimal(now), Decimals.Decimal(now');
    NoDot(now, tag);
    NoDot(now', tag');
    FirstIs(Suffix(now, tag), '_', |d|);
    FirstIs(Suffix(now', tag'), '_', |d'|);
    assert d == Suffix(now, tag)[..|d|] && d' == Suffix(now', tag')[..|d'|];
    assert SanitizeTag(tag) == Suffix(now, tag)[|d| + 1..];
    assert SanitizeTag(tag') == Suffix(now', tag')[|d'| + 1..];
    Decimals.NumberOfDecimal(now);
    Decimals.NumberOfDecimal(now');
  }

  // Two checkpoints share a snapshot file exactly when they are of one file name, in one second, with tags that
  // look alike once sanitized.
  lemma PathsCollide(base: string, now: int, tag: string, base': string, now': int, tag': string)
    ensures SnapshotPath(base, now, tag) == SnapshotPath(base', now', tag')
       <==> base == base' && now == now' && SanitizeTag(tag) == SanitizeTag(tag')
  {
    var p, p' := SnapshotPath(base, now, tag), SnapshotPath(base', now', tag');
    if p == p' {
      assert p[|base|] == '.' && p'[|base'|] == '.';
      if |base| < |base'| {
        LastDot(base, now, tag, |base'|);
      } else if |base'| < |base| {
        LastDot(base', now', tag', |base|);
      }
      assert base == p[..|base|] && base' == p'[..|base'|];
      assert Suffix(now, tag) == p[|base| + 6..] && Suffix(now', tag') == p'[|base'| + 6..];
      SuffixInjective(now, tag, now', tag');
    }
  }

  // Different tags can look alike.
  lemma LookAlikes()
    ensures "a b" != "a-b" && SanitizeTag("a b") == SanitizeTag("a-b")
  {}
}
