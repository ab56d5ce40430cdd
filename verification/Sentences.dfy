/** Where the k-th sentence of a text lies (ss_get_sentence_bounds), and what replacing one sentence does
    to the others. */
module Sentences {
  import opened Wrappers
  import opened Text

  datatype Span = Span(start: nat, end: nat)

  // Nothing but white space separates the end of the text from its last delimiter, or from its beginning.
  predicate AtBoundary(s: string) {
    s == "" || IsDelimiter(s[|s| - 1]) || (IsSpace(s[|s| - 1]) && AtBoundary(s[..|s| - 1]))
  }

  // A sentence may begin at offset i: the first non-space after a delimiter, or after the beginning.
  predicate IsStart(text: string, i: nat) {
    i <= |text| && AtBoundary(text[..i]) && (i < |text| ==> !IsSpace(text[i]))
  }

  // A sentence that begins at i ends at j: just past the next delimiter, or at the end of the text.
  predicate IsEnd(text: string, i: nat, j: nat) {
    i <= j <= |text| &&
    if Terminated(text[i..j]) then Delims(text[i..j]) == 1 else j == |text| && Delims(text[i..j]) == 0
  }

  // [start, end) is sentence k: exactly k delimiters lie before it.
  predicate IsSentence(text: string, k: int, span: Span) {
    IsStart(text, span.start) && Delims(text[..span.start]) == k && IsEnd(text, span.start, span.end)
  }

  lemma {:induction false} AllSpaceHasNoDelims(s: string)
    requires AllSpace(s)
    ensures Delims(s) == 0
  {
    DelimsZero(s);
  }

  // AtBoundary spelled out: the last non-space character, if any, is a delimiter.
  lemma {:induction false} BoundaryTail(a: string, b: string)
    requires AtBoundary(a + b)
    ensures AtBoundary(b)
    ensures Delims(b) == 0 ==> AllSpace(b) && AtBoundary(a)
  {
    if b == "" {
      assert a + b == a;
    } else {
      var init := b[..|b| - 1];
      assert (a + b)[..|a + b| - 1] == a + init;
      assert (a + b)[|a + b| - 1] == b[|b| - 1];
      if !IsDelimiter(b[|b| - 1]) {
        BoundaryTail(a, init);
        assert b == init + [b[|b| - 1]];
      }
    }
  }

  lemma {:induction false} BoundaryAppend(a: string, b: string)
    requires AtBoundary(a) && AtBoundary(b)
    ensures AtBoundary(a + b)
  {
    if b == "" {
      assert a + b == a;
    } else {
      assert (a + b)[..|a + b| - 1] == a + b[..|b| - 1];
      assert (a + b)[|a + b| - 1] == b[|b| - 1];
      if !IsDelimiter(b[|b| - 1]) {
        BoundaryAppend(a, b[..|b| - 1]);
      }
    }
  }

  lemma {:induction false} AllSpaceAtBoundary(s: string)
    requires AllSpace(s)
    ensures AtBoundary(s)
  {
    if s != "" {
      AllSpaceAtBoundary(s[..|s| - 1]);
    }
  }

  // Between two different starts lies a delimiter.
  lemma StartsDiffer(text: string, i: nat, j: nat)
    requires i < j && IsStart(text, i) && IsStart(text, j)
    ensures Delims(text[..i]) < Delims(text[..j])
  {
    assert text[..j] == text[..i] + text[i..j];
    DelimsAppend(text[..i], text[i..j]);
    BoundaryTail(text[..i], text[i..j]);
    assert text[i..j][0] == text[i];
  }

  lemma EndsDiffer(text: string, i: nat, j: nat, j': nat)
    requires j < j' <= |text| && IsEnd(text, i, j)
    ensures !IsEnd(text, i, j')
  {
    assert text[i..j'] == text[i..j] + text[j..j'];
    DelimsAppend(text[i..j], text[j..j']);
    DelimsZero(text[j..j']);
    assert text[j..j'][j' - j - 1] == text[i..j'][j' - i - 1];
  }

  // There is at most one sentence k.
  lemma SentenceUnique(text: string, k: int, x: Span, y: Span)
    requires IsSentence(text, k, x) && IsSentence(text, k, y)
    ensures x == y
  {
    if x.start < y.start {
      StartsDiffer(text, x.start, y.start);
    } else if y.start < x.start {
      StartsDiffer(text, y.start, x.start);
    }
    if x.end < y.end {
      EndsDiffer(text, x.start, x.end, y.end);
    } else if y.end < x.end {
      EndsDiffer(text, x.start, y.end, x.end);
    }
  }

  lemma DelimsMonotone(text: string, i: nat, j: nat)
    requires i <= j <= |text|
    ensures Delims(text[..j]) == Delims(text[..i]) + Delims(text[i..j])
  {
    assert text[..j] == text[..i] + text[i..j];
    DelimsAppend(text[..i], text[i..j]);
  }

  // A prefix of a sentence that stops short of its end has no delimiter.
  lemma NoDelimInside(text: string, i: nat, m: nat, j: nat)
    requires i <= m < j && IsEnd(text, i, j)
    ensures Delims(text[i..m]) == 0
  {
    assert text[i..j] == text[i..m] + text[m..j];
    DelimsAppend(text[i..m], text[m..j]);
    DelimsZero(text[m..j]);
    assert text[m..j][j - m - 1] == text[i..j][j - i - 1];
  }

  // Sentences come in the order of their indices, and only the last can lack a final delimiter.
  lemma SentencesOrdered(text: string, j: int, x: Span, k: int, y: Span)
    requires IsSentence(text, j, x) && IsSentence(text, k, y) && j < k
    ensures x.start < x.end <= y.start
    ensures Terminated(text[x.start..x.end])
  {
    if y.start <= x.start {
      DelimsMonotone(text, y.start, x.start);
    } else {
      DelimsMonotone(text, x.start, y.start);
      if y.start < x.end {
        NoDelimInside(text, x.start, y.start, x.end);
      }
    }
    DelimsMonotone(text, x.start, |text|);
    DelimsMonotone(text, y.start, |text|);
    DelimsMonotone(text, x.start, y.start);
    assert text[x.start..] == text[x.start..|text|];
    assert text[..|text|] == text;
  }

  // ---------- existence ----------

  // The first offset from i on that is not white space.
  function SkipSpace(text: string, i: nat): (j: nat)
    requires i <= |text|
    ensures i <= j <= |text| && AllSpace(text[i..j]) && (j < |text| ==> !IsSpace(text[j]))
    decreases |text| - i
  {
    if i < |text| && IsSpace(text[i]) then
      var j := SkipSpace(text, i + 1);
      assert text[i..j] == [text[i]] + text[i + 1..j];
      j
    else
      i
  }

  // Just past the first delimiter from i on, or the end of the text.
  function FindEnd(text: string, i: nat): (j: nat)
    requires i <= |text|
    ensures i <= j <= |text|
    decreases |text| - i
  {
    if i == |text| then i else if IsDelimiter(text[i]) then i + 1 else FindEnd(text, i + 1)
  }

  lemma {:induction false} FindEndIsEnd(text: string, i: nat)
    requires i <= |text|
    ensures IsEnd(text, i, FindEnd(text, i))
    decreases |text| - i
  {
    var j := FindEnd(text, i);
    if i < |text| && IsDelimiter(text[i]) {
      assert text[i..j] == [text[i]];
      assert [text[i]][..0] == "";
    } else if i < |text| {
      FindEndIsEnd(text, i + 1);
      assert text[i..j] == [text[i]] + text[i + 1..j];
      DelimsAppend([text[i]], text[i + 1..j]);
      DelimsZero([text[i]]);
      assert j > i + 1 ==> text[i..j][j - i - 1] == text[i + 1..j][j - i - 2];
    }
  }

  // Sentence k + 1 begins at the first non-space after a terminated sentence k.
  lemma NextSentence(text: string, k: int, x: Span)
    requires IsSentence(text, k, x) && Terminated(text[x.start..x.end])
    ensures var s := SkipSpace(text, x.end); IsSentence(text, k + 1, Span(s, FindEnd(text, s)))
  {
    var s := SkipSpace(text, x.end);
    DelimsMonotone(text, x.start, x.end);
    DelimsMonotone(text, x.end, s);
    AllSpaceHasNoDelims(text[x.end..s]);
    AllSpaceAtBoundary(text[x.end..s]);
    assert text[..x.end][x.end - 1] == text[x.start..x.end][x.end - x.start - 1];
    assert text[..s] == text[..x.end] + text[x.end..s];
    BoundaryAppend(text[..x.end], text[x.end..s]);
    FindEndIsEnd(text, s);
  }

  lemma FirstSentence(text: string)
    ensures var s := SkipSpace(text, 0); IsSentence(text, 0, Span(s, FindEnd(text, s)))
  {
    var s := SkipSpace(text, 0);
    assert text[..s] == text[0..s];
    AllSpaceHasNoDelims(text[..s]);
    AllSpaceAtBoundary(text[..s]);
    FindEndIsEnd(text, s);
  }

  // An unterminated sentence is the last one.
  lemma LastSentence(text: string, k: int, x: Span)
    requires IsSentence(text, k, x)
    ensures 0 <= k <= Delims(text)
    ensures !Terminated(text[x.start..x.end]) <==> k == Delims(text)
    ensures k == Delims(text) ==> x.end == |text|
  {
    DelimsMonotone(text, x.start, x.end);
    DelimsMonotone(text, x.end, |text|);
    assert text[..|text|] == text;
  }

  lemma {:induction false} SentenceExists(text: string, k: nat) returns (x: Span)
    requires k <= Delims(text)
    ensures IsSentence(text, k, x)
  {
    if k == 0 {
      FirstSentence(text);
      var s := SkipSpace(text, 0);
      x := Span(s, FindEnd(text, s));
    } else {
      var w := SentenceExists(text, k - 1);
      LastSentence(text, k - 1, w);
      NextSentence(text, k - 1, w);
      var s := SkipSpace(text, w.end);
      x := Span(s, FindEnd(text, s));
    }
  }

  // The specification of ss_get_sentence_bounds: the only span that is sentence k.
  ghost function Bounds(text: string, k: int): (r: Option<Span>)
    ensures r.Some? <==> 0 <= k <= Delims(text)
    ensures r.Some? ==> IsSentence(text, k, r.value)
  {
    if 0 <= k <= Delims(text) then
      assert exists x :: IsSentence(text, k, x) by { var x := SentenceExists(text, k); }
      var x :| IsSentence(text, k, x);
      Some(x)
    else
      None
  }

  lemma BoundsIs(text: string, k: int, x: Span)
    ensures Bounds(text, k) == Some(x) <==> IsSentence(text, k, x)
  {
    if IsSentence(text, k, x) {
      LastSentence(text, k, x);
      SentenceUnique(text, k, x, Bounds(text, k).value);
    }
  }

  // The spans are the sentences 0, 1, ... in order, with nothing but white space before and between them.
  ghost predicate Tiles(text: string, spans: seq<Span>) {
    && (forall i :: 0 <= i < |spans| ==> IsSentence(text, i, spans[i]))
    && (spans != [] ==> AllSpace(text[..spans[0].start]))
    && (forall i :: 0 <= i < |spans| - 1 ==> WhiteGap(text, spans[i], spans[i + 1]))
  }

  predicate WhiteGap(text: string, x: Span, y: Span) {
    x.end <= y.start <= |text| && AllSpace(text[x.end..y.start])
  }

  // The sentences 0, ..., Delims(text) make up the whole text.
  lemma SentencesTile(text: string) returns (spans: seq<Span>)
    ensures |spans| == Delims(text) + 1 && Tiles(text, spans)
    ensures spans[Delims(text)].end == |text|
  {
    spans := TileUpTo(text, Delims(text));
    LastSentence(text, Delims(text), spans[Delims(text)]);
  }

  lemma {:induction false} TileUpTo(text: string, k: nat) returns (spans: seq<Span>)
    requires k <= Delims(text)
    ensures |spans| == k + 1 && Tiles(text, spans)
  {
    if k == 0 {
      FirstSentence(text);
      var s := SkipSpace(text, 0);
      assert text[..s] == text[0..s];
      spans := [Span(s, FindEnd(text, s))];
    } else {
      var init := TileUpTo(text, k - 1);
      LastSentence(text, k - 1, init[k - 1]);
      NextSentence(text, k - 1, init[k - 1]);
      var s := SkipSpace(text, init[k - 1].end);
      spans := init + [Span(s, FindEnd(text, s))];
      assert WhiteGap(text, spans[k - 1], spans[k]);
    }
  }

  // ---------- replacing one sentence ----------

  function Splice(text: string, x: Span, w: string): string
    requires x.start <= x.end <= |text|
  {
    text[..x.start] + w + text[x.end..]
  }

  // What an edited sentence keeps of the sentence it replaces.
  predicate Fits(old': string, w: string) {
    && (Terminated(old') ==> Terminated(w))
    && (w != "" ==> !IsSpace(w[0]))
  }

  // A span moved along by a splice at another one.
  function Shift(y: Span, edit: Span, newLen: nat): Span
    requires edit.start <= edit.end <= y.start <= y.end
  {
    Span(y.start + newLen - (edit.end - edit.start), y.end + newLen - (edit.end - edit.start))
  }

  lemma SpliceDelims(text: string, x: Span, w: string)
    requires x.start <= x.end <= |text|
    ensures Delims(Splice(text, x, w)) == Delims(text) - Delims(text[x.start..x.end]) + Delims(w)
  {
    DelimsMonotone(text, x.start, x.end);
    DelimsMonotone(text, x.end, |text|);
    assert text[..|text|] == text;
    DelimsAppend(text[..x.start], w);
    DelimsAppend(text[..x.start] + w, text[x.end..]);
  }

  // A sentence before the edited one stays where it is.
  lemma SpliceBefore(text: string, j: int, y: Span, k: int, x: Span, w: string)
    requires IsSentence(text, j, y) && IsSentence(text, k, x) && j < k
    ensures y.end <= x.start
    ensures IsSentence(Splice(text, x, w), j, y)
    ensures Splice(text, x, w)[y.start..y.end] == text[y.start..y.end]
  {
    SentencesOrdered(text, j, y, k, x);
    var text' := Splice(text, x, w);
    assert text'[..y.end] == text[..y.end];
    assert text'[..y.start] == text'[..y.end][..y.start] == text[..y.start];
    assert text'[y.start..y.end] == text'[..y.end][y.start..] == text[y.start..y.end];
    assert text'[y.start] == text'[..y.end][y.start] == text[y.start];
  }

  // A sentence after the edited one moves by the change in length, and its index by the number of
  // delimiters that the edit adds.
  lemma SpliceAfter(text: string, j: int, y: Span, k: int, x: Span, w: string)
    requires IsSentence(text, j, y) && IsSentence(text, k, x) && k < j
    requires Fits(text[x.start..x.end], w)
    ensures x.end <= y.start && Delims(text[x.start..x.end]) == 1 <= Delims(w)
    ensures IsSentence(Splice(text, x, w), j + Delims(w) - 1, Shift(y, x, |w|))
    ensures Splice(text, x, w)[Shift(y, x, |w|).start..Shift(y, x, |w|).end] == text[y.start..y.end]
  {
    SentencesOrdered(text, k, x, j, y);
    AfterIndex(text, j, y, k, x);
    var text', y' := Splice(text, x, w), Shift(y, x, |w|);
    assert IsStart(text', y'.start) && Delims(text'[..y'.start]) == j + Delims(w) - 1 by {
      SpliceStart(text, y.start, x, w, y'.start);
    }
    SpliceTail(text, y, x, w);
  }

  lemma AfterIndex(text: string, j: int, y: Span, k: int, x: Span)
    requires IsSentence(text, j, y) && IsSentence(text, k, x) && x.end <= y.start
    requires Terminated(text[x.start..x.end])
    ensures Delims(text[..x.start]) == k && Delims(text[x.end..y.start]) == j - k - 1
  {
    DelimsMonotone(text, x.start, x.end);
    DelimsMonotone(text, x.end, y.start);
  }

  // The part of the text from the edited sentence's end on is moved unchanged.
  lemma SpliceTail(text: string, y: Span, x: Span, w: string)
    requires x.start <= x.end <= y.start <= y.end <= |text|
    ensures Splice(text, x, w)[Shift(y, x, |w|).start..Shift(y, x, |w|).end] == text[y.start..y.end]
    ensures IsEnd(text, y.start, y.end) ==> IsEnd(Splice(text, x, w), Shift(y, x, |w|).start, Shift(y, x, |w|).end)
  {}

  lemma SplicePrefix(text: string, i: nat, x: Span, w: string, i': nat)
    requires x.start <= x.end <= i <= |text| && i' == i + |w| - (x.end - x.start)
    ensures i' <= |Splice(text, x, w)|
    ensures Splice(text, x, w)[..i'] == text[..x.start] + w + text[x.end..i]
    ensures i < |text| ==> i' < |Splice(text, x, w)| && Splice(text, x, w)[i'] == text[i]
    ensures i' < |Splice(text, x, w)| ==> i < |text|
  {}

  lemma PrefixBoundary(a: string, w: string, gap: string)
    requires Terminated(w) && AtBoundary(gap)
    ensures AtBoundary(a + w + gap)
    ensures Delims(a + w + gap) == Delims(a) + Delims(w) + Delims(gap)
  {
    assert (a + w)[|a + w| - 1] == w[|w| - 1];
    BoundaryAppend(a + w, gap);
    DelimsAppend(a, w);
    DelimsAppend(a + w, gap);
  }

  lemma SpliceStart(text: string, i: nat, x: Span, w: string, i': nat)
    requires x.start <= x.end <= i && IsStart(text, i) && Terminated(w)
    requires i' == i + |w| - (x.end - x.start)
    ensures IsStart(Splice(text, x, w), i')
    ensures Delims(Splice(text, x, w)[..i']) == Delims(text[..x.start]) + Delims(w) + Delims(text[x.end..i])
  {
    assert text[..i] == text[..x.end] + text[x.end..i];
    BoundaryTail(text[..x.end], text[x.end..i]);
    SplicePrefix(text, i, x, w, i');
    PrefixBoundary(text[..x.start], w, text[x.end..i]);
  }

  // The edited text begins a sentence exactly where the old one did.
  lemma SpliceAt(text: string, k: int, x: Span, w: string)
    requires IsSentence(text, k, x) && Fits(text[x.start..x.end], w)
    ensures IsStart(Splice(text, x, w), x.start) && Delims(Splice(text, x, w)[..x.start]) == k
  {
    LastSentence(text, k, x);
    assert Splice(text, x, w)[..x.start] == text[..x.start];
  }

  // ---------- the scanner ----------

  // The scanner is reading sentence k, which begins at start.
  ghost predicate Reading(text: string, k: int, start: nat) {
    start <= |text| && IsSentence(text, k, Span(start, FindEnd(text, start)))
  }

  lemma ScanBegin(text: string)
    ensures Reading(text, 0, SkipSpace(text, 0))
  {
    FirstSentence(text);
  }

  // The scanner has found the end of a sentence that it began to read at start.
  lemma ScanDelimiter(text: string, k: int, start: nat, cursor: nat)
    requires start <= cursor < |text| && IsDelimiter(text[cursor])
    requires Reading(text, k, start) && FindEnd(text, start) == FindEnd(text, cursor)
    ensures Bounds(text, k) == Some(Span(start, cursor + 1))
    ensures Reading(text, k + 1, SkipSpace(text, cursor + 1))
  {
    BoundsIs(text, k, Span(start, cursor + 1));
    NextSentence(text, k, Span(start, cursor + 1));
  }

  // The scanner has reached the end of the text without finding one.
  lemma ScanEnd(text: string, k: int, start: nat)
    requires Reading(text, k, start) && FindEnd(text, start) == |text|
    requires forall i :: start <= i < |text| ==> !IsDelimiter(text[i])
    ensures k == Delims(text) && Bounds(text, k) == Some(Span(start, |text|))
  {
    LastSentence(text, k, Span(start, |text|));
    BoundsIs(text, k, Span(start, |text|));
  }

  // The cursor moves over white space.
  method SkipWhite(text: string, start: nat) returns (cursor: nat)
    requires start <= |text|
    ensures cursor == SkipSpace(text, start)
  {
    cursor := start;
    while cursor < |text| && IsSpace(text[cursor])
      invariant start <= cursor <= |text| && SkipSpace(text, start) == SkipSpace(text, cursor)
    {
      cursor := cursor + 1;
    }
  }

  // ss_get_sentence_bounds: one pass with a cursor, skipping white space after each delimiter.
  method GetSentenceBounds(text: string, sentenceIndex: int) returns (r: Option<Span>)
    ensures r == Bounds(text, sentenceIndex)
    ensures r.Some? <==> 0 <= sentenceIndex <= Delims(text)
  {
    if sentenceIndex < 0 {
      return None;
    }
    var cursor := SkipWhite(text, 0);
    ScanBegin(text);
    if cursor == |text| {
      ScanEnd(text, 0, cursor);
      return if sentenceIndex == 0 then Some(Span(cursor, cursor)) else None;
    }
    r := Scan(text, cursor, sentenceIndex);
  }

  // The scanner has read on to the cursor without finding the end of sentence k.
  ghost predicate Scanning(text: string, k: int, start: nat, cursor: nat) {
    && start <= cursor <= |text| && Reading(text, k, start) && FindEnd(text, start) == FindEnd(text, cursor)
    && forall i :: start <= i < cursor ==> !IsDelimiter(text[i])
  }

  lemma ScanOn(text: string, k: int, start: nat, cursor: nat)
    requires Scanning(text, k, start, cursor) && cursor < |text| && !IsDelimiter(text[cursor])
    ensures Scanning(text, k, start, cursor + 1)
  {}

  lemma ScanNext(text: string, k: int, start: nat, cursor: nat)
    requires Scanning(text, k, start, cursor) && cursor < |text| && IsDelimiter(text[cursor])
    ensures Bounds(text, k) == Some(Span(start, cursor + 1))
    ensures var next := SkipSpace(text, cursor + 1); Scanning(text, k + 1, next, next)
  {
    ScanDelimiter(text, k, start, cursor);
  }

  // The loop over the text, from the first sentence on.
  method Scan(text: string, start: nat, sentenceIndex: nat) returns (r: Option<Span>)
    requires start <= |text| && Reading(text, 0, start)
    ensures r == Bounds(text, sentenceIndex)
  {
    var sentenceStart: nat, cursor: nat, current: nat := start, start, 0;
    while cursor < |text|
      invariant Scanning(text, current, sentenceStart, cursor) && current <= sentenceIndex
      decreases |text| - cursor
    {
      if IsDelimiter(text[cursor]) {
        ScanNext(text, current, sentenceStart, cursor);
        if current == sentenceIndex {
          return Some(Span(sentenceStart, cursor + 1));
        }
        current := current + 1;
        sentenceStart := SkipWhite(text, cursor + 1);
        cursor := sentenceStart;
      } else {
        ScanOn(text, current, sentenceStart, cursor);
        cursor := cursor + 1;
      }
    }
    ScanEnd(text, current, sentenceStart);
    return if current == sentenceIndex then Some(Span(sentenceStart, cursor)) else None;
  }
}
