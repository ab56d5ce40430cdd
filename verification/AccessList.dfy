/** Access lists as comma-separated text: written to the metadata file, read back with strtok. */
module AccessList {
  import opened Text

  const MAX_CLIENTS: nat := 1000
  const MAX_USERNAME_LENGTH: nat := 256
  const MAX_FIELD_SIZE: nat := 4096

  predicate IsUserChar(c: char) {
    'a' <= c <= 'z' || 'A' <= c <= 'Z' || '0' <= c <= '9' || c == '_'
  }

  // validate_username
  predicate ValidUser(u: string) {
    0 < |u| < MAX_USERNAME_LENGTH && forall i :: 0 <= i < |u| ==> IsUserChar(u[i])
  }

  function Csv(us: seq<string>): string {
    Join(us, ',')
  }

  // strtok: the nonempty stretches between commas.
  function Tokens(s: string): seq<string>
    decreases |s|
  {
    var comma := First(s, ',');
    if comma == |s| then Token(s) else Token(s[..comma]) + Tokens(s[comma + 1..])
  }

  // The tokens of a text without commas.
  function Token(s: string): seq<string> {
    if s == "" then [] else [s]
  }

  // file_acl_add: no name twice, no name beyond the limit.
  function AddUser(us: seq<string>, u: string): seq<string> {
    if u in us || |us| >= MAX_CLIENTS then us else us + [u]
  }

  // What one token adds.
  function AddToken(us: seq<string>, token: string): seq<string> {
    if ValidUser(Trim(token)) then AddUser(us, Trim(token)) else us
  }

  function AddTokens(us: seq<string>, tokens: seq<string>): seq<string> {
    if tokens == [] then us
    else AddToken(AddTokens(us, tokens[..|tokens| - 1]), tokens[|tokens| - 1])
  }

  // file_acl_parse_csv
  function Parsed(csv: string): seq<string> {
    AddTokens([], Tokens(Cut(csv, MAX_FIELD_SIZE)))
  }

  // ---------- the parsing loop ----------

  // strtok stops at the next comma.
  method FindComma(s: string, start: nat) returns (end: nat)
    requires start <= |s|
    ensures start <= end <= |s| && (end < |s| ==> s[end] == ',')
    ensures forall i :: start <= i < end ==> s[i] != ','
  {
    end := start;
    while end < |s| && s[end] != ','
      invariant start <= end <= |s| && forall i :: start <= i < end ==> s[i] != ','
    {
      end := end + 1;
    }
  }

  // One token is trimmed, checked and added; full says that the list could not take it.
  method Take(us: seq<string>, token: string) returns (us': seq<string>, full: bool)
    ensures us' == AddToken(us, token) && (full ==> |us'| >= MAX_CLIENTS)
  {
    var name := TrimString(token);
    if !ValidUser(name) || name in us {
      return us, false;
    }
    if |us| >= MAX_CLIENTS {
      return us, true;
    }
    return us + [name], false;
  }

  method ParseCsv(csv: string) returns (us: seq<string>)
    ensures us == Parsed(csv)
  {
    us := [];
    var buffer, pos := Cut(csv, MAX_FIELD_SIZE), 0;
    ghost var done: seq<string> := [];
    while pos < |buffer|
      invariant pos <= |buffer| && us == AddTokens([], done)
      invariant Tokens(buffer) == done + Tokens(buffer[pos..])
    {
      var end := FindComma(buffer, pos);
      var next := if end < |buffer| then end + 1 else end;
      ghost var rest := Tokens(buffer[next..]);
      TokensStep(buffer, pos, end, next);
      if end > pos {
        var token := buffer[pos..end];
        Associative(done, [token], rest);
        AddTokensSnoc(done, token);
        done := done + [token];
        var full;
        us, full := Take(us, token);
        if full {
          FullStays(done, rest);
          return;
        }
      }
      pos := next;
    }
    TokensEnd(buffer[pos..], done);
  }

  lemma TokensEnd(s: string, done: seq<string>)
    requires s == ""
    ensures done + Tokens(s) == done
  {}

  lemma TokensStep(s: string, pos: nat, end: nat, next: nat)
    requires pos <= end <= |s| && pos < |s| && (end < |s| ==> s[end] == ',')
    requires next == if end < |s| then end + 1 else end
    requires forall i :: pos <= i < end ==> s[i] != ','
    ensures end > pos ==> Tokens(s[pos..]) == [s[pos..end]] + Tokens(s[next..])
    ensures end == pos ==> Tokens(s[pos..]) == Tokens(s[next..])
  {
    var t := s[pos..];
    assert t[..end - pos] == s[pos..end];
    if end < |s| {
      TokensHead(t, end - pos);
      assert t[end - pos + 1..] == s[next..];
    } else {
      assert t == s[pos..end];
      TokensAll(t);
      TokensEnd(s[next..], Token(t));
    }
  }

  // Cutting off what stands before the first comma; a text without one.
  lemma TokensHead(s: string, comma: nat)
    requires comma < |s| && s[comma] == ',' && forall i :: 0 <= i < comma ==> s[i] != ','
    ensures Tokens(s) == Token(s[..comma]) + Tokens(s[comma + 1..])
  {
    FirstIs(s, ',', comma);
  }

  lemma TokensAll(s: string)
    requires forall i :: 0 <= i < |s| ==> s[i] != ','
    ensures Tokens(s) == Token(s)
  {
    FirstIs(s, ',', |s|);
  }

  lemma AddTokensSnoc(done: seq<string>, token: string)
    ensures AddTokens([], done + [token]) == AddToken(AddTokens([], done), token)
  {
    assert (done + [token])[..|done|] == done;
  }

  // A full list does not change any more, so the loop may stop.
  lemma {:induction false} FullStays(done: seq<string>, more: seq<string>)
    requires |AddTokens([], done)| >= MAX_CLIENTS
    ensures AddTokens([], done + more) == AddTokens([], done)
  {
    if more == [] {
      assert done + more == done;
    } else {
      FullStays(done, more[..|more| - 1]);
      assert (done + more)[..|done + more| - 1] == done + more[..|more| - 1];
    }
  }

  // What the loop takes from any text: valid names only, none twice, at most as many as fit, each of them a trimmed
  // token; and, short of that limit, every token that is a valid name once trimmed.
  lemma ParsedNames(csv: string)
    ensures var us, tokens := Parsed(csv), Tokens(Cut(csv, MAX_FIELD_SIZE));
            && Storable(us)
            && (forall u :: u in us ==> exists t :: t in tokens && Trim(t) == u)
            && (|us| < MAX_CLIENTS ==> forall t :: t in tokens && ValidUser(Trim(t)) ==> Trim(t) in us)
  {
    NamesAdded(Tokens(Cut(csv, MAX_FIELD_SIZE)));
  }

  lemma {:induction false} NamesAdded(tokens: seq<string>)
    ensures var us := AddTokens([], tokens);
            && Storable(us)
            && (forall u :: u in us ==> exists t :: t in tokens && Trim(t) == u)
            && (|us| < MAX_CLIENTS ==> forall t :: t in tokens && ValidUser(Trim(t)) ==> Trim(t) in us)
  {
    if tokens != [] {
      NamesAdded(tokens[..|tokens| - 1]);
      InitLast([], tokens);
    }
  }

  // ---------- the round trip ----------

  predicate Storable(us: seq<string>) {
    && |us| <= MAX_CLIENTS
    && (forall i :: 0 <= i < |us| ==> ValidUser(us[i]))
    && forall i, j :: 0 <= i < j < |us| ==> us[i] != us[j]
  }

  lemma UserToken(u: string)
    requires ValidUser(u)
    ensures Trim(u) == u && Tokens(u) == [u]
  {
    TrimLine(u);
    TokensAll(u);
  }

  lemma {:induction false} TokensComma(a: string, b: string)
    ensures Tokens(a + "," + b) == Tokens(a) + Tokens(b)
    decreases |a|
  {
    var s, comma := a + "," + b, First(a, ',');
    TokensHead(s, comma);
    if comma == |a| {
      CutBetween(a, ',', b);
      TokensAll(a);
    } else {
      CutInside(a, ',', b, comma);
      TokensHead(a, comma);
      TokensComma(a[comma + 1..], b);
      Associative(Token(a[..comma]), Tokens(a[comma + 1..]), Tokens(b));
    }
  }

  lemma {:induction false} TokensOfCsv(us: seq<string>)
    requires forall i :: 0 <= i < |us| ==> ValidUser(us[i])
    ensures Tokens(Csv(us)) == us
  {
    if us != [] {
      var init, last := us[..|us| - 1], us[|us| - 1];
      UserToken(last);
      assert us == init + [last];
      if init != [] {
        TokensOfCsv(init);
        TokensComma(Csv(init), last);
      }
    }
  }

  lemma {:induction false} AddsAll(us: seq<string>)
    requires Storable(us)
    ensures AddTokens([], us) == us
  {
    if us != [] {
      var init, last := us[..|us| - 1], us[|us| - 1];
      AddsAll(init);
      UserToken(last);
      assert us == init + [last];
    }
  }

  // The length of the text that a list needs, counting one separator for each name.
  function Weight(us: seq<string>): nat {
    if us == [] then 0 else Weight(us[..|us| - 1]) + |us[|us| - 1]| + 1
  }

  lemma {:induction false} CsvLength(us: seq<string>)
    ensures |Csv(us)| == if us == [] then 0 else Weight(us) - 1
  {
    if |us| > 1 {
      CsvLength(us[..|us| - 1]);
    } else if |us| == 1 {
      assert Weight(us[..0]) == 0;
    }
  }

  lemma {:induction false} WeightAppend(a: seq<string>, b: seq<string>)
    ensures Weight(a + b) == Weight(a) + Weight(b)
  {
    if b == [] {
      assert a + b == a;
    } else {
      WeightAppend(a, b[..|b| - 1]);
      assert (a + b)[..|a + b| - 1] == a + b[..|b| - 1];
    }
  }

  lemma {:induction false} TokensWeight(s: string)
    ensures Weight(Tokens(s)) <= |s| + 1
    decreases |s|
  {
    var comma := First(s, ',');
    if comma < |s| {
      var head, tail := s[..comma], s[comma + 1..];
      TokensWeight(tail);
      TokenWeight(head);
      WeightAppend(Token(head), Tokens(tail));
      TokensHead(s, comma);
    } else {
      TokenWeight(s);
      TokensAll(s);
    }
  }

  lemma TokenWeight(s: string)
    ensures Weight(Token(s)) == if s == "" then 0 else |s| + 1
  {
    assert s != "" ==> Weight([s][..0]) == 0;
  }

  lemma {:induction false} TrimShrinks(s: string)
    ensures |StripTrailing(s)| <= |s| && |TrimLeft(s)| <= |s|
  {
    if s != "" {
      TrimShrinks(s[..|s| - 1]);
      TrimShrinks(s[1..]);
    }
  }

  // No list that is read needs more text than it was read from.
  lemma {:induction false} ParsedWeight(tokens: seq<string>)
    ensures Weight(AddTokens([], tokens)) <= Weight(tokens)
  {
    if tokens != [] {
      var init, last := tokens[..|tokens| - 1], tokens[|tokens| - 1];
      ParsedWeight(init);
      TrimShrinks(last);
      TrimShrinks(TrimLeft(last));
      var us := AddTokens([], init);
      assert (us + [Trim(last)])[..|us|] == us;
    }
  }

  // A list of valid, distinct names comes back exactly when its text fits the buffer.
  lemma RoundTrip(us: seq<string>)
    requires Storable(us)
    ensures Parsed(Csv(us)) == us <==> |Csv(us)| < MAX_FIELD_SIZE
  {
    if |Csv(us)| < MAX_FIELD_SIZE {
      TokensOfCsv(us);
      AddsAll(us);
    } else {
      var cut := Cut(Csv(us), MAX_FIELD_SIZE);
      TokensWeight(cut);
      ParsedWeight(Tokens(cut));
      CsvLength(us);
    }
  }
}
