/** The wire protocol: fields joined by '|' and ended by '\n', read back from a stream of bytes.
    A text is a sequence of bytes; a C string ends at its first NUL. */
module Wire {
  import opened Wrappers
  import opened Text

  const DELIMITER: char := '|'
  const TERMINATOR: char := '\n'
  const NUL: char := '\0'
  const MAX_MESSAGE_SIZE: nat := 65536
  const MAX_FIELDS: nat := 32

  // ---------- building ----------

  function Joined(fields: seq<string>): string {
    Join(fields, DELIMITER)
  }

  // protocol_build_message, for at least one field.
  function Built(fields: seq<string>): string {
    Joined(fields) + [TERMINATOR]
  }

  // Two passes: the exact size first, then the text. size counts the closing NUL.
  method Build(fields: seq<string>) returns (message: Option<string>, size: nat)
    ensures message.None? <==> fields == []
    ensures message.Some? ==> message.value == Built(fields) && size == |message.value| + 1
  {
    size := 0;
    if fields == [] {
      return None, 0;
    }
    for i := 0 to |fields|
      invariant size == |Joined(fields[..i])| + (if 0 < i < |fields| then 1 else 0)
    {
      assert fields[..i + 1][..i] == fields[..i];
      size := size + |fields[i]|;
      if i < |fields| - 1 {
        size := size + 1;
      }
    }
    assert fields[..|fields|] == fields;
    size := size + 2;
    var text := "";
    for i := 0 to |fields|
      invariant text == Joined(fields[..i]) + (if 0 < i < |fields| then [DELIMITER] else "")
    {
      assert fields[..i + 1][..i] == fields[..i];
      text := text + fields[i];
      if i < |fields| - 1 {
        text := text + [DELIMITER];
      }
    }
    return Some(text + [TERMINATOR]), size;
  }

  // ---------- parsing ----------

  // Every maximal stretch without a delimiter, empty ones included.
  function Split(s: string): (fields: seq<string>)
    ensures |fields| >= 1
    decreases |s|
  {
    var bar := First(s, DELIMITER);
    if bar == |s| then [s] else [s[..bar]] + Split(s[bar + 1..])
  }

  // What a parser keeps of the raw text: up to a NUL, at most 65535 bytes, without one final newline.
  function Body(raw: string): string {
    var cut := raw[..First(raw, NUL)];
    var kept := if |cut| > MAX_MESSAGE_SIZE - 1 then cut[..MAX_MESSAGE_SIZE - 1] else cut;
    if kept != "" && kept[|kept| - 1] == TERMINATOR then kept[..|kept| - 1] else kept
  }

  // protocol_parse_message: the first 32 fields.
  function Parsed(raw: string): (fields: seq<string>)
    ensures 1 <= |fields| <= MAX_FIELDS
  {
    Limit(Split(Body(raw)))
  }

  function Limit(all: seq<string>): seq<string> {
    if |all| > MAX_FIELDS then all[..MAX_FIELDS] else all
  }

  lemma LimitFull(fields: seq<string>, more: seq<string>)
    requires |fields| == MAX_FIELDS
    ensures Limit(fields + more) == fields
  {}

  // strstr with the one-byte delimiter.
  method FindDelimiter(s: string, start: nat) returns (bar: nat)
    requires start <= |s|
    ensures start <= bar <= |s| && bar - start == First(s[start..], DELIMITER)
  {
    bar := start;
    while bar < |s| && s[bar] != DELIMITER
      invariant start <= bar <= |s| && forall i :: start <= i < bar ==> s[i] != DELIMITER
    {
      bar := bar + 1;
    }
    FirstIs(s[start..], DELIMITER, bar - start);
  }

  lemma SplitLast(s: string, start: nat)
    requires start <= |s| && First(s[start..], DELIMITER) == |s| - start
    ensures Split(s[start..]) == [s[start..]]
  {}

  lemma SplitInner(s: string, start: nat, bar: nat)
    requires start <= bar < |s| && bar - start == First(s[start..], DELIMITER)
    ensures Split(s[start..]) == [s[start..bar]] + Split(s[bar + 1..])
  {
    var t := s[start..];
    assert t[..bar - start] == s[start..bar] && t[bar - start + 1..] == s[bar + 1..];
  }

  lemma SplitEmpty(s: string)
    requires s == ""
    ensures Split(s) == [""]
  {}

  method Parse(raw: string) returns (fields: seq<string>)
    ensures fields == Parsed(raw)
  {
    var body := Body(raw);
    fields := [];
    var current := 0;
    while |fields| < MAX_FIELDS
      invariant current <= |body| && |fields| <= MAX_FIELDS
      invariant Split(body) == fields + Split(body[current..])
      decreases MAX_FIELDS - |fields|
    {
      var bar := FindDelimiter(body, current);
      if bar == |body| {
        SplitLast(body, current);
        return fields + [body[current..]];
      }
      SplitInner(body, current, bar);
      Associative(fields, [body[current..bar]], Split(body[bar + 1..]));
      fields := fields + [body[current..bar]];
      current := bar + 1;
      if current == |body| {
        SplitEmpty(body[current..]);
        assert Split(body) == fields + [""];
        if |fields| < MAX_FIELDS {
          fields := fields + [""];
        } else {
          LimitFull(fields, [""]);
        }
        return;
      }
    }
    LimitFull(fields, Split(body[current..]));
  }

  // ---------- receiving ----------

  // protocol_receive_message on the bytes still to come; the stream ends where the peer closes it. The result is
  // the message, with its terminator, and what is left for the next call.
  function Received(stream: string): (r: (Option<string>, string))
    ensures r.0.Some? ==> |r.1| < |stream|
  {
    var n := First(stream, TERMINATOR);
    if n < MAX_MESSAGE_SIZE - 1 then
      if n < |stream| then (Some(stream[..n + 1]), stream[n + 1..])
      else if stream == "" then (None, "")
      else (Some(stream), "")
    else (None, stream[MAX_MESSAGE_SIZE - 1..])
  }

  // One byte at a time, so that nothing of the next message is consumed.
  method Receive(stream: string) returns (message: Option<string>, rest: string)
    ensures (message, rest) == Received(stream)
  {
    var buffer, received, found := "", 0, false;
    while received < MAX_MESSAGE_SIZE - 1 && !found
      invariant received <= |stream| && received <= MAX_MESSAGE_SIZE - 1
      invariant buffer == stream[..received]
      invariant !found ==> forall i :: 0 <= i < received ==> stream[i] != TERMINATOR
      invariant found ==> received > 0 && First(stream, TERMINATOR) == received - 1
      decreases MAX_MESSAGE_SIZE - received, !found
    {
      if received == |stream| {
        FirstIs(stream, TERMINATOR, received);
        if received == 0 {
          return None, "";
        }
        assert stream[..received] == stream;
        return Some(buffer), "";
      }
      buffer := buffer + [stream[received]];
      if stream[received] == TERMINATOR {
        FirstIs(stream, TERMINATOR, received);
        found := true;
      }
      received := received + 1;
    }
    if !found {
      return None, stream[received..];
    }
    return Some(buffer), stream[received..];
  }

  // ---------- round trips ----------

  predicate CleanField(f: string) {
    DELIMITER !in f && TERMINATOR !in f && NUL !in f
  }

  predicate Clean(fields: seq<string>) {
    |fields| > 0 && forall i :: 0 <= i < |fields| ==> CleanField(fields[i])
  }

  lemma {:induction false} SplitBar(a: string, b: string)
    ensures Split(a + [DELIMITER] + b) == Split(a) + Split(b)
    decreases |a|
  {
    var s := a + [DELIMITER] + b;
    var bar := First(a, DELIMITER);
    FirstIs(s, DELIMITER, bar);
    if bar == |a| {
      assert s[..bar] == a && s[bar + 1..] == b;
    } else {
      SplitBar(a[bar + 1..], b);
      CutInside(a, DELIMITER, b, bar);
      Associative([a[..bar]], Split(a[bar + 1..]), Split(b));
    }
  }

  // Splitting undoes joining, wherever empty fields stand.
  lemma {:induction false} SplitJoined(fields: seq<string>)
    requires Clean(fields)
    ensures Split(Joined(fields)) == fields
  {
    var last := fields[|fields| - 1];
    FirstIs(last, DELIMITER, |last|);
    if |fields| > 1 {
      var init := fields[..|fields| - 1];
      SplitJoined(init);
      SplitBar(Joined(init), last);
      assert fields == init + [last];
    }
  }

  lemma {:induction false} JoinedClean(fields: seq<string>)
    requires forall i :: 0 <= i < |fields| ==> CleanField(fields[i])
    ensures TERMINATOR !in Joined(fields) && NUL !in Joined(fields)
  {
    if |fields| > 1 {
      JoinedClean(fields[..|fields| - 1]);
    }
  }

  lemma BodyOfBuilt(fields: seq<string>)
    requires Clean(fields) && |Built(fields)| <= MAX_MESSAGE_SIZE - 1
    ensures Body(Built(fields)) == Joined(fields)
  {
    JoinedClean(fields);
    FirstIs(Built(fields), NUL, |Built(fields)|);
  }

  // Parsing gives back the first 32 fields, so all of them exactly when there are at most 32.
  lemma ParseBuilt(fields: seq<string>)
    requires Clean(fields) && |Built(fields)| <= MAX_MESSAGE_SIZE - 1
    ensures Parsed(Built(fields)) == if |fields| > MAX_FIELDS then fields[..MAX_FIELDS] else fields
    ensures Parsed(Built(fields)) == fields <==> |fields| <= MAX_FIELDS
  {
    BodyOfBuilt(fields);
    SplitJoined(fields);
  }

  // A built message is received whole, and nothing after it is touched, exactly when it fits the buffer.
  lemma ReceiveBuilt(fields: seq<string>, tail: string)
    requires Clean(fields)
    ensures Received(Built(fields) + tail) == (Some(Built(fields)), tail) <==> |Built(fields)| <= MAX_MESSAGE_SIZE - 1
  {
    JoinedClean(fields);
    var stream := Built(fields) + tail;
    FirstIs(stream, TERMINATOR, |Joined(fields)|);
    assert stream[..|Built(fields)|] == Built(fields) && stream[|Built(fields)|..] == tail;
  }

  // All messages of a stream, parsed, up to the first that cannot be received.
  function ReadAll(stream: string): seq<seq<string>>
    decreases |stream|
  {
    var r := Received(stream);
    if r.0.None? then [] else [Parsed(r.0.value)] + ReadAll(r.1)
  }

  function SendAll(messages: seq<seq<string>>): string {
    if messages == [] then "" else Built(messages[0]) + SendAll(messages[1..])
  }

  predicate Sendable(fields: seq<string>) {
    Clean(fields) && |fields| <= MAX_FIELDS && |Built(fields)| <= MAX_MESSAGE_SIZE - 1
  }

  lemma ReadFirst(first: seq<string>, more: string)
    requires Sendable(first)
    ensures ReadAll(Built(first) + more) == [first] + ReadAll(more)
  {
    ReceiveBuilt(first, more);
    ParseBuilt(first);
  }

  // What was sent is what is read: the same field lists in the same order, whatever comes after them.
  lemma {:induction false} StreamRoundTrip(messages: seq<seq<string>>, tail: string)
    requires forall i :: 0 <= i < |messages| ==> Sendable(messages[i])
    ensures ReadAll(SendAll(messages) + tail) == messages + ReadAll(tail)
  {
    if messages == [] {
      assert SendAll(messages) + tail == tail;
    } else {
      StreamRoundTrip(messages[1..], tail);
      ReadFirst(messages[0], SendAll(messages[1..]) + tail);
      Associative(Built(messages[0]), SendAll(messages[1..]), tail);
      Prepend(messages, ReadAll(tail));
    }
  }

  lemma Prepend<T>(s: seq<T>, more: seq<T>)
    requires s != []
    ensures s + more == [s[0]] + (s[1..] + more)
  {
    assert s == [s[0]] + s[1..];
  }
}
