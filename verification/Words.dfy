/** Splitting a sentence into words, joining words again, and inserting words into the working copy of a
    locked sentence (split_words, join_words, ss_apply_word_edit). */
module Words {
  import opened Wrappers
  import opened Text
  import Sentences

  // ---------- splitting ----------

  predicate IsWord(w: string) {
    w != "" && forall i :: 0 <= i < |w| ==> !IsSpace(w[i])
  }

  predicate AllWords(ws: seq<string>) {
    forall i :: 0 <= i < |ws| ==> IsWord(ws[i])
  }

  // The last word, one character longer.
  function Extend(ws: seq<string>, c: char): seq<string> {
    if ws == [] then [[c]] else ws[..|ws| - 1] + [ws[|ws| - 1] + [c]]
  }

  lemma ExtendAppend(xs: seq<string>, ys: seq<string>, c: char)
    requires ys != []
    ensures Extend(xs + ys, c) == xs + Extend(ys, c)
  {
    assert (xs + ys)[..|xs + ys| - 1] == xs + ys[..|ys| - 1];
  }

  // The maximal runs of non-space characters, in order.
  function Words(s: string): seq<string> {
    if s == "" then []
    else
      var init, c := s[..|s| - 1], s[|s| - 1];
      if IsSpace(c) then Words(init)
      else if init == "" || IsSpace(init[|init| - 1]) then Words(init) + [[c]]
      else Extend(Words(init), c)
  }

  lemma ExtendIsWords(ws: seq<string>, c: char)
    requires AllWords(ws) && !IsSpace(c)
    ensures AllWords(Extend(ws, c)) && Extend(ws, c) != []
  {
    var r := Extend(ws, c);
    forall i | 0 <= i < |r|
      ensures IsWord(r[i])
    {
      if i < |r| - 1 {
        assert r[i] == ws[i];
      } else {
        LastExtended(ws, c);
      }
    }
  }

  lemma LastExtended(ws: seq<string>, c: char)
    requires AllWords(ws) && !IsSpace(c)
    ensures IsWord(Extend(ws, c)[|Extend(ws, c)| - 1])
  {
    if ws != [] {
      var last := ws[|ws| - 1];
      assert IsWord(last);
      assert forall k :: 0 <= k < |last| + 1 ==> (last + [c])[k] == if k < |last| then last[k] else c;
    }
  }

  lemma {:induction false} WordsAreWords(s: string)
    ensures AllWords(Words(s))
    ensures s != "" && !IsSpace(s[|s| - 1]) ==> Words(s) != []
  {
    if s != "" {
      var init, c := s[..|s| - 1], s[|s| - 1];
      WordsAreWords(init);
      if !IsSpace(c) {
        ExtendIsWords(Words(init), c);
        assert IsWord([c]);
      }
    }
  }

  // No word runs across the seam between a and b.
  predicate Seam(a: string, b: string) {
    a == "" || b == "" || IsSpace(a[|a| - 1]) || IsSpace(b[0])
  }

  // Words one character at a time.
  lemma WordsSnocChar(s: string, c: char)
    ensures IsSpace(c) ==> Words(s + [c]) == Words(s)
    ensures !IsSpace(c) && (s == "" || IsSpace(s[|s| - 1])) ==> Words(s + [c]) == Words(s) + [[c]]
    ensures !IsSpace(c) && s != "" && !IsSpace(s[|s| - 1]) ==> Words(s + [c]) == Extend(Words(s), c)
  {
    assert (s + [c])[..|s|] == s && (s + [c])[|s|] == c;
  }

  lemma {:induction false} WordsAppend(a: string, b: string)
    requires Seam(a, b)
    ensures Words(a + b) == Words(a) + Words(b)
  {
    if b == "" {
      assert a + b == a;
    } else if |b| == 1 {
      WordsAppendOne(a, b);
    } else {
      var init, c := b[..|b| - 1], b[|b| - 1];
      InitLast(a, b);
      WordsAppend(a, init);
      WordsAppendChar(a, init, c);
    }
  }

  lemma WordsAppendOne(a: string, b: string)
    requires |b| == 1 && Seam(a, b)
    ensures Words(a + b) == Words(a) + Words(b)
  {
    WordsSnocChar(a, b[0]);
    OneCharacter(b);
    assert b == [b[0]];
  }

  lemma OneCharacter(b: string)
    requires |b| == 1
    ensures Words(b) == if IsSpace(b[0]) then [] else [b]
  {
    assert b == "" + [b[0]];
    WordsSnocChar("", b[0]);
  }

  lemma WordsAppendChar(a: string, b: string, c: char)
    requires b != "" && Words(a + b) == Words(a) + Words(b)
    ensures Words(a + b + [c]) == Words(a) + Words(b + [c])
  {
    WordsSnocChar(a + b, c);
    WordsSnocChar(b, c);
    assert (a + b)[|a + b| - 1] == b[|b| - 1];
    if !IsSpace(c) && !IsSpace(b[|b| - 1]) {
      WordsAreWords(b);
      ExtendAppend(Words(a), Words(b), c);
    }
  }

  lemma {:induction false} WordsOfSpace(s: string)
    requires AllSpace(s)
    ensures Words(s) == []
  {
    if s != "" {
      WordsOfSpace(s[..|s| - 1]);
    }
  }

  lemma {:induction false} WordsOfWord(w: string)
    requires IsWord(w)
    ensures Words(w) == [w]
  {
    var init := w[..|w| - 1];
    if init != "" {
      WordsOfWord(init);
      assert init + [w[|w| - 1]] == w;
    } else {
      assert w == [w[|w| - 1]];
    }
  }

  // Skipping white space adds no word.
  lemma SpaceRun(text: string, i: nat, j: nat)
    requires i <= j <= |text| && forall k :: i <= k < j ==> IsSpace(text[k])
    ensures Words(text[..j]) == Words(text[..i])
  {
    assert text[..j] == text[..i] + text[i..j];
    WordsAppend(text[..i], text[i..j]);
    WordsOfSpace(text[i..j]);
  }

  // Running over a word adds it.
  lemma WordRun(text: string, i: nat, j: nat)
    requires i < j <= |text| && (forall k :: i <= k < j ==> !IsSpace(text[k]))
    requires i > 0 ==> IsSpace(text[i - 1])
    ensures Words(text[..j]) == Words(text[..i]) + [text[i..j]]
  {
    assert text[..j] == text[..i] + text[i..j];
    WordsAppend(text[..i], text[i..j]);
    WordsOfWord(text[i..j]);
  }

  // split_words: a cursor skips white space, then runs over a word, and so on.
  method SplitWords(text: string) returns (words: seq<string>)
    ensures words == Words(text)
  {
    words := [];
    var ptr := 0;
    while ptr < |text|
      invariant 0 <= ptr <= |text| && words == Words(text[..ptr])
      invariant 0 < ptr < |text| ==> IsSpace(text[ptr])
    {
      ghost var from := ptr;
      while ptr < |text| && IsSpace(text[ptr])
        invariant from <= ptr <= |text|
        invariant forall k :: from <= k < ptr ==> IsSpace(text[k])
      {
        ptr := ptr + 1;
      }
      SpaceRun(text, from, ptr);
      if ptr == |text| {
        break;
      }
      var start := ptr;
      while ptr < |text| && !IsSpace(text[ptr])
        invariant start <= ptr <= |text|
        invariant forall k :: start <= k < ptr ==> !IsSpace(text[k])
      {
        ptr := ptr + 1;
      }
      WordRun(text, start, ptr);
      words := words + [text[start..ptr]];
    }
    assert text[..ptr] == text;
  }

  // ---------- joining ----------

  // The words with one space between neighbours.
  function Join(ws: seq<string>): string {
    Text.Join(ws, ' ')
  }

  predicate EndsInDelimiter(ws: seq<string>) {
    ws != [] && Terminated(ws[|ws| - 1])
  }

  // join_words: the delimiter is appended unless the last word already ends in one.
  function JoinWith(ws: seq<string>, delimiter: Option<char>): string {
    if delimiter.Some? && !EndsInDelimiter(ws) then Join(ws) + [delimiter.value] else Join(ws)
  }

  lemma {:induction false} WordsJoin(ws: seq<string>)
    requires AllWords(ws)
    ensures Words(Join(ws)) == ws
  {
    if |ws| == 1 {
      WordsOfWord(ws[0]);
    } else if ws != [] {
      var init, last := ws[..|ws| - 1], ws[|ws| - 1];
      InitLast([], ws);
      WordsJoin(init);
      WordsSnoc(Join(init), last);
    }
  }

  lemma WordsSnoc(a: string, w: string)
    requires IsWord(w)
    ensures Words(a + " " + w) == Words(a) + [w]
  {
    WordsOfWord(w);
    WordsOfSpace(" ");
    WordsAppend(a, " ");
    WordsAppend(a + " ", w);
  }

  lemma {:induction false} JoinEnds(ws: seq<string>)
    requires AllWords(ws) && ws != []
    ensures Join(ws) != "" && !IsSpace(Join(ws)[0])
    ensures Join(ws)[|Join(ws)| - 1] == ws[|ws| - 1][|ws[|ws| - 1]| - 1]
  {
    if |ws| > 1 {
      JoinEnds(ws[..|ws| - 1]);
    }
  }

  // Words with one space between neighbours: every white-space character is a space between two others.
  predicate Single(r: string) {
    SpacedBehind(r) && (r != "" ==> !IsSpace(r[|r| - 1]))
  }

  predicate SpacedBehind(r: string) {
    forall i :: 0 <= i < |r| && IsSpace(r[i]) ==> r[i] == ' ' && i > 0 && !IsSpace(r[i - 1])
  }

  lemma {:induction false} JoinSingle(ws: seq<string>)
    requires AllWords(ws)
    ensures Single(Join(ws))
  {
    if ws != [] {
      JoinEnds(ws);
      assert IsWord(ws[|ws| - 1]);
      if |ws| > 1 {
        JoinSingle(ws[..|ws| - 1]);
        JoinEnds(ws[..|ws| - 1]);
        SingleSnoc(Join(ws[..|ws| - 1]), ws[|ws| - 1]);
      }
    }
  }

  lemma SingleSnoc(r: string, w: string)
    requires Single(r) && r != "" && IsWord(w)
    ensures SpacedBehind(r + [' '] + w)
  {
    var t := r + [' '] + w;
    forall i | |r| < i < |t|
      ensures !IsSpace(t[i])
    {
      assert t[i] == w[i - |r| - 1];
    }
  }

  function SpaceBehind(r: string): string {
    if r != "" && IsSpace(r[|r| - 1]) then " " else ""
  }

  // Such a text is what joining its words gives.
  lemma {:induction false} SpacedIsJoin(r: string)
    requires SpacedBehind(r)
    ensures Join(Words(r)) + SpaceBehind(r) == r
  {
    if r != "" {
      var init, c := r[..|r| - 1], r[|r| - 1];
      SpacedIsJoin(init);
      InitLast([], r);
      if IsSpace(c) {
        assert c == ' ' && init != "" && !IsSpace(init[|init| - 1]);
        WordsSnocChar(init, c);
      } else {
        LastCharacter(init, c);
      }
    }
  }

  lemma LastCharacter(init: string, c: char)
    requires !IsSpace(c) && SpacedBehind(init) && Join(Words(init)) + SpaceBehind(init) == init
    ensures Join(Words(init + [c])) == init + [c]
  {
    var ws := Words(init);
    WordsSnocChar(init, c);
    WordsAreWords(init);
    if init == "" {
      assert Join([[c]]) == [c];
    } else if IsSpace(init[|init| - 1]) {
      assert Join(ws) + " " == init;
      NotOnlySpace(ws, init);
      JoinSnoc(ws, [c]);
    } else {
      assert Join(ws) == init;
      JoinExtend(ws, c);
    }
  }

  lemma NotOnlySpace(ws: seq<string>, r: string)
    requires SpacedBehind(r) && Join(ws) + " " == r
    ensures ws != []
  {
    assert IsSpace(r[|r| - 1]);
    assert |Join(ws)| > 0;
  }

  lemma JoinSnoc(ws: seq<string>, w: string)
    requires ws != []
    ensures Join(ws + [w]) == Join(ws) + " " + w
  {
    assert (ws + [w])[..|ws|] == ws;
  }

  lemma JoinExtend(ws: seq<string>, c: char)
    requires ws != []
    ensures Join(Extend(ws, c)) == Join(ws) + [c]
  {
    assert Extend(ws, c)[..|ws| - 1] == ws[..|ws| - 1];
  }

  // A text with single spaces is determined by its words.
  lemma SingleUnique(a: string, b: string)
    requires Single(a) && Single(b) && Words(a) == Words(b)
    ensures a == b
  {
    SpacedIsJoin(a);
    SpacedIsJoin(b);
  }

  // safe_strcat: appends as much of src as the capacity leaves room for.
  function SafeStrcat(dest: string, src: string, capacity: nat): string {
    if |dest| + 1 >= capacity then dest
    else if |src| <= capacity - |dest| - 1 then dest + src
    else dest + src[..capacity - |dest| - 1]
  }

  lemma SafeStrcatFits(dest: string, src: string, capacity: nat)
    requires |dest| + |src| < capacity
    ensures SafeStrcat(dest, src, capacity) == dest + src
  {
    if src == "" {
      assert dest + src == dest;
    }
  }

  lemma JoinStep(ws: seq<string>, i: nat)
    requires i < |ws|
    ensures Join(ws[..i + 1]) == (if i == 0 then "" else Join(ws[..i]) + " ") + ws[i]
  {
    assert ws[..i + 1][..i] == ws[..i];
  }

  lemma {:induction false} JoinPrefixFits(ws: seq<string>, n: nat)
    requires n <= |ws|
    ensures |Join(ws[..n])| <= |Join(ws)|
    decreases |ws| - n
  {
    if n < |ws| {
      JoinPrefixFits(ws, n + 1);
      JoinStep(ws, n);
    } else {
      assert ws[..n] == ws;
    }
  }

  // join_words sizes its buffer first, then appends into it; nothing is ever cut off.
  method JoinWords(words: seq<string>, delimiter: Option<char>) returns (result: string, total: nat)
    ensures result == JoinWith(words, delimiter)
    ensures total == |result|
  {
    var endsWithDelimiter := |words| > 0 && Terminated(words[|words| - 1]);
    total := 0;
    for i := 0 to |words|
      invariant total == |Join(words[..i])| + (if 0 < i < |words| then 1 else 0)
    {
      JoinStep(words, i);
      total := total + |words[i]|;
      if i + 1 < |words| {
        total := total + 1;
      }
    }
    assert words[..|words|] == words;
    if delimiter.Some? && !endsWithDelimiter {
      total := total + 1;
    }
    result := "";
    for i := 0 to |words|
      invariant result == Join(words[..i])
    {
      JoinStep(words, i);
      JoinPrefixFits(words, i + 1);
      if i > 0 {
        SafeStrcatFits(result, " ", total + 1);
        result := SafeStrcat(result, " ", total + 1);
      }
      SafeStrcatFits(result, words[i], total + 1);
      result := SafeStrcat(result, words[i], total + 1);
    }
    if delimiter.Some? && !endsWithDelimiter {
      result := result + [delimiter.value];
    }
  }

  // ---------- editing ----------

  // The delimiter that a sentence ends in, trailing white space aside.
  function FinalDelimiter(s: string): Option<char> {
    var t := StripTrailing(s);
    if Terminated(t) then Some(t[|t| - 1]) else None
  }

  // The words of a sentence without that delimiter.
  function Core(s: string): seq<string> {
    var t := StripTrailing(s);
    Words(if Terminated(t) then t[..|t| - 1] else t)
  }

  function InsertAt<T>(xs: seq<T>, p: nat, ys: seq<T>): seq<T> {
    var q := if p < |xs| then p else |xs|;
    xs[..q] + ys + xs[q..]
  }

  // ss_apply_word_edit as a function of the working copy; None where the program rejects the edit.
  function EditSentence(working: string, wordIndex: int, content: string): Option<string> {
    var old' := Core(working);
    if wordIndex < 0 || wordIndex > |old'| + 1 then None
    else Some(JoinWith(InsertAt(old', wordIndex, Words(content)), FinalDelimiter(working)))
  }

  lemma InsertAtWords(working: string, p: nat, content: string)
    ensures AllWords(InsertAt(Core(working), p, Words(content)))
  {
    CoreAreWords(working);
    WordsAreWords(content);
  }

  lemma CoreAreWords(s: string)
    ensures AllWords(Core(s))
  {
    var t := StripTrailing(s);
    WordsAreWords(if Terminated(t) then t[..|t| - 1] else t);
  }

  // How a text reads to the next edit: as these words, with this delimiter unless the last word brings its own.
  predicate Reads(r: string, ws: seq<string>, delimiter: Option<char>)
    requires AllWords(ws)
  {
    if EndsInDelimiter(ws) then
      Words(r) == ws && FinalDelimiter(r) == Some(ws[|ws| - 1][|ws[|ws| - 1]| - 1])
    else
      Core(r) == ws && FinalDelimiter(r) == delimiter
  }

  // The one text in which these words stand with single spaces, followed by the delimiter unless the last word
  // brings its own.
  predicate Normal(r: string, ws: seq<string>, delimiter: Option<char>) {
    if delimiter.Some? && !EndsInDelimiter(ws) then
      r != "" && r[|r| - 1] == delimiter.value && Single(r[..|r| - 1]) && Words(r[..|r| - 1]) == ws
    else
      Single(r) && Words(r) == ws
  }

  lemma NormalUnique(a: string, b: string, ws: seq<string>, delimiter: Option<char>)
    requires Normal(a, ws, delimiter) && Normal(b, ws, delimiter)
    ensures a == b
  {
    if delimiter.Some? && !EndsInDelimiter(ws) {
      SingleUnique(a[..|a| - 1], b[..|b| - 1]);
      assert a == a[..|a| - 1] + [delimiter.value] && b == b[..|b| - 1] + [delimiter.value];
    } else {
      SingleUnique(a, b);
    }
  }

  lemma JoinWithNormal(ws: seq<string>, delimiter: Option<char>)
    requires AllWords(ws)
    ensures Normal(JoinWith(ws, delimiter), ws, delimiter)
  {
    WordsJoin(ws);
    JoinSingle(ws);
    if delimiter.Some? && !EndsInDelimiter(ws) {
      assert (Join(ws) + [delimiter.value])[..|Join(ws)|] == Join(ws);
    }
  }

  lemma JoinWithEnds(ws: seq<string>, delimiter: Option<char>)
    requires AllWords(ws) && (delimiter.Some? ==> IsDelimiter(delimiter.value))
    ensures var r := JoinWith(ws, delimiter);
            && (r != "" ==> !IsSpace(r[0]) && !IsSpace(r[|r| - 1])) && StripTrailing(r) == r
  {
    if ws != [] {
      JoinEnds(ws);
    }
  }

  // What the joined text looks like to the next edit.
  lemma JoinWithReads(ws: seq<string>, delimiter: Option<char>)
    requires AllWords(ws) && (delimiter.Some? ==> IsDelimiter(delimiter.value))
    ensures var r := JoinWith(ws, delimiter);
            Reads(r, ws, delimiter) && (r != "" ==> !IsSpace(r[0]) && !IsSpace(r[|r| - 1]))
  {
    WordsJoin(ws);
    JoinWithEnds(ws, delimiter);
    var r := JoinWith(ws, delimiter);
    if ws != [] {
      JoinEnds(ws);
    }
    if delimiter.Some? && !EndsInDelimiter(ws) {
      assert r[..|r| - 1] == Join(ws);
    }
  }

  // An accepted edit inserts the new words at the given place, in order, and keeps all the old ones; the
  // final delimiter stays unless the last word now brings its own. Nothing else about the text is left open.
  lemma EditInsertsWords(working: string, wordIndex: int, content: string)
    ensures EditSentence(working, wordIndex, content).None?
       <==> wordIndex < 0 || wordIndex > |Core(working)| + 1
    ensures EditSentence(working, wordIndex, content).Some? ==>
              var r, ws := EditSentence(working, wordIndex, content).value, InsertAt(Core(working), wordIndex, Words(content));
              && AllWords(ws)
              && Reads(r, ws, FinalDelimiter(working)) && Normal(r, ws, FinalDelimiter(working))
  {
    if 0 <= wordIndex <= |Core(working)| + 1 {
      var ws := InsertAt(Core(working), wordIndex, Words(content));
      InsertAtWords(working, wordIndex, content);
      JoinWithReads(ws, FinalDelimiter(working));
      JoinWithNormal(ws, FinalDelimiter(working));
    }
  }

  // A terminated sentence stays terminated, and the edited text never begins with white space.
  lemma EditFits(working: string, wordIndex: int, content: string)
    requires EditSentence(working, wordIndex, content).Some?
    ensures Sentences.Fits(working, EditSentence(working, wordIndex, content).value)
  {
    var ws := InsertAt(Core(working), wordIndex, Words(content));
    InsertAtWords(working, wordIndex, content);
    JoinWithReads(ws, FinalDelimiter(working));
    if EndsInDelimiter(ws) {
      JoinEnds(ws);
    }
  }

  lemma WordsOfTwo(a: string, b: string)
    ensures Words(a + " " + b) == Words(a) + Words(b)
  {
    WordsOfSpace(" ");
    WordsAppend(a, " ");
    WordsAppend(a + " ", b);
  }

  lemma InsertTwice<T>(xs: seq<T>, p: nat, ys: seq<T>, zs: seq<T>)
    requires p <= |xs|
    ensures InsertAt(InsertAt(xs, p, ys), p + |ys|, zs) == InsertAt(xs, p, ys + zs)
  {
    var once := xs[..p] + ys + xs[p..];
    assert once[..p + |ys|] == xs[..p] + ys;
    assert once[p + |ys|..] == xs[p..];
    assert xs[..p] + ys + zs == xs[..p] + (ys + zs);
  }

  lemma EditIs(working: string, p: nat, content: string, r: string)
    requires p <= |Core(working)|
    requires r == JoinWith(InsertAt(Core(working), p, Words(content)), FinalDelimiter(working))
    ensures EditSentence(working, p, content) == Some(r)
  {}

  // Edits compose: words appended to an earlier insertion, at the index q behind it, land where one insertion
  // of both would put them.
  lemma EditsCompose(working: string, p: nat, a: string, b: string, first: string, q: nat) returns (both: string)
    requires q == p + |Words(a)|
    requires p <= |Core(working)| && EditSentence(working, p, a) == Some(first)
    requires !EndsInDelimiter(InsertAt(Core(working), p, Words(a)))
    ensures EditSentence(first, q, b) == Some(both)
    ensures EditSentence(working, p, a + " " + b) == Some(both)
  {
    both := JoinWith(InsertAt(Core(working), p, Words(a) + Words(b)), FinalDelimiter(working));
    EditAgain(working, p, a, b, first, q, both);
    OneEdit(working, p, a, b, both);
  }

  lemma EditAgain(working: string, p: nat, a: string, b: string, first: string, q: nat, both: string)
    requires q == p + |Words(a)|
    requires p <= |Core(working)| && EditSentence(working, p, a) == Some(first)
    requires !EndsInDelimiter(InsertAt(Core(working), p, Words(a)))
    requires both == JoinWith(InsertAt(Core(working), p, Words(a) + Words(b)), FinalDelimiter(working))
    ensures EditSentence(first, q, b) == Some(both)
  {
    FirstReads(working, p, a, first);
    InsertTwice(Core(working), p, Words(a), Words(b));
    EditOf(first, InsertAt(Core(working), p, Words(a)), FinalDelimiter(working), q, b, both);
  }

  lemma OneEdit(working: string, p: nat, a: string, b: string, both: string)
    requires p <= |Core(working)|
    requires both == JoinWith(InsertAt(Core(working), p, Words(a) + Words(b)), FinalDelimiter(working))
    ensures EditSentence(working, p, a + " " + b) == Some(both)
  {
    WordsOfTwo(a, b);
    EditIs(working, p, a + " " + b, both);
  }

  lemma FirstReads(working: string, p: nat, a: string, first: string)
    requires EditSentence(working, p, a) == Some(first)
    requires !EndsInDelimiter(InsertAt(Core(working), p, Words(a)))
    ensures Core(first) == InsertAt(Core(working), p, Words(a)) && FinalDelimiter(first) == FinalDelimiter(working)
  {
    EditInsertsWords(working, p, a);
  }

  lemma EditOf(text: string, ws: seq<string>, delimiter: Option<char>, q: nat, content: string, r: string)
    requires Core(text) == ws && FinalDelimiter(text) == delimiter && q <= |ws|
    requires r == JoinWith(InsertAt(ws, q, Words(content)), delimiter)
    ensures EditSentence(text, q, content) == Some(r)
  {}

  // ss_apply_word_edit
  method ApplyWordEdit(working: string, wordIndex: int, content: string) returns (r: Option<string>)
    ensures r == EditSentence(working, wordIndex, content)
  {
    if wordIndex < 0 {
      return None;
    }
    var buffer := working;
    while |buffer| > 0 && IsSpace(buffer[|buffer| - 1])
      invariant StripTrailing(buffer) == StripTrailing(working)
    {
      buffer := buffer[..|buffer| - 1];
    }
    var delimiter: Option<char> := None;
    if |buffer| > 0 && IsDelimiter(buffer[|buffer| - 1]) {
      delimiter := Some(buffer[|buffer| - 1]);
      buffer := buffer[..|buffer| - 1];
    }
    var words := SplitWords(buffer);
    if wordIndex > |words| + 1 {
      return None;
    }
    var newWords := SplitWords(content);
    if |newWords| > 0 {
      var insertPos := if wordIndex > |words| then |words| else wordIndex;
      words := words[..insertPos] + newWords + words[insertPos..];
    } else {
      assert words == InsertAt(words, wordIndex, []);
    }
    var joined, _ := JoinWords(words, delimiter);
    return Some(joined);
  }
}
