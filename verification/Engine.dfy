/** The state of one storage server and its request handlers as state transformers: sentence locks, word
    edits, commits, undo, checkpoints, copies. Each handler is one atomic step, and disk operations succeed. */
module Engine {
  import opened Wrappers
  import opened Text
  import opened Sentences
  import Words
  import opened SnapshotNames

  // Stands for the FileRecord that a request's file name was resolved to.
  type FileId(==, !new) = nat

  const MAX_CHECKPOINTS: nat := 32
  const MAX_PATH_LENGTH: nat := 4096

  datatype Checkpoint = Checkpoint(tag: string, path: string)

  datatype FileState = FileState(
    content: string,
    undo: Option<string>,
    undoAvailable: bool,
    checkpoints: seq<Checkpoint>)

  datatype Session = Session(
    fd: int,
    file: FileId,
    user: string,
    index: int,
    start: int,
    end: int,
    snapshot: string,
    working: string)

  // The sessions are listed from the head of the linked list; snapshots maps checkpoint paths to contents.
  datatype State = State(
    files: map<FileId, FileState>,
    sessions: seq<Session>,
    snapshots: map<string, string>)

  datatype ErrorCode =
    | InvalidRequest | FileNotFound | PermissionDenied | SentenceLocked | NoUndoHistory | FileExists | Internal

  datatype Reply = Done | Locked(sentence: string) | Error(code: ErrorCode)

  // What a transfer from another server comes to: the bytes, an error reply, or a broken connection.
  datatype Transfer = Bytes(data: string) | Rejected(code: ErrorCode) | Broken

  // Where COPY takes its bytes from.
  datatype Source = Local(file: FileId) | Remote(transfer: Transfer)

  // A number field is None when it does not parse as an int. The base of a checkpoint is the storage directory and
  // the file's name at that time, now the clock in seconds.
  datatype Event =
    | WriteLock(fd: int, user: string, file: FileId, index: Option<int>, allowed: bool)
    | WriteData(fd: int, wordIndex: Option<int>, content: string)
    | Etirw(fd: int)
    | Disconnect(fd: int)
    | Undo(file: FileId, allowed: bool)
    | TakeCheckpoint(file: FileId, tag: string, base: string, now: int, allowed: bool)
    | Revert(file: FileId, tag: string, allowed: bool)
    | Copy(dest: FileId, source: Source)
    | Create(file: FileId)
    | Delete(file: FileId)

  // ---------- the session list ----------

  // ss_find_session: the position of the first session of a client.
  function FindSession(ss: seq<Session>, fd: int): (r: Option<nat>)
    ensures r.Some? ==> r.value < |ss| && ss[r.value].fd == fd && forall j :: 0 <= j < r.value ==> ss[j].fd != fd
    ensures r.None? ==> forall j :: 0 <= j < |ss| ==> ss[j].fd != fd
  {
    if ss == [] then None
    else if ss[0].fd == fd then Some(0)
    else match FindSession(ss[1..], fd)
      case None => None
      case Some(i) => Some(i + 1)
  }

  // ss_find_session_by_sentence
  predicate SentenceTaken(ss: seq<Session>, file: FileId, index: int) {
    exists i :: 0 <= i < |ss| && ss[i].file == file && ss[i].index == index
  }

  // ss_file_has_active_writers
  predicate HasWriters(ss: seq<Session>, file: FileId) {
    exists i :: 0 <= i < |ss| && ss[i].file == file
  }

  // ss_detach_session
  function Detach(ss: seq<Session>, fd: int): seq<Session> {
    match FindSession(ss, fd)
    case None => ss
    case Some(i) => ss[..i] + ss[i + 1..]
  }

  // ---------- commit ----------

  // count_sentences_in_span: the delimiters in a span, but at least one for a span that is not empty.
  function CountSentences(span: string): int {
    if span == "" then 0 else if Delims(span) == 0 then 1 else Delims(span)
  }

  // How one other session of the same file is adjusted by ss_update_active_sessions.
  function Moved(x: Session, editEnd: int, charDelta: int, sentenceDelta: int): Session {
    if x.start >= editEnd then
      var index := x.index + sentenceDelta;
      x.(start := x.start + charDelta, end := x.end + charDelta,
         index := if sentenceDelta != 0 && index < 0 then 0 else index)
    else
      x
  }

  // The session at position j after the commit of the one at position i.
  function MovedAt(ss: seq<Session>, i: nat, j: nat, editEnd: int, charDelta: int, sentenceDelta: int): Session
    requires i < |ss| && j < |ss|
  {
    if j == i || ss[j].file != ss[i].file then ss[j] else Moved(ss[j], editEnd, charDelta, sentenceDelta)
  }

  // ss_update_active_sessions, where i is the position of the session that commits.
  function MoveOthers(ss: seq<Session>, i: nat, editEnd: int, charDelta: int, sentenceDelta: int): (r: seq<Session>)
    requires i < |ss|
    ensures |r| == |ss|
    ensures forall j :: 0 <= j < |ss| ==> r[j] == MovedAt(ss, i, j, editEnd, charDelta, sentenceDelta)
  {
    seq(|ss|, j requires 0 <= j < |ss| => MovedAt(ss, i, j, editEnd, charDelta, sentenceDelta))
  }

  // ---------- the handlers ----------

  // A lock request first ends the client's own session.
  ghost function LockStep(s: State, e: Event): (State, Reply)
    requires e.WriteLock?
  {
    if e.index.None? || e.index.value < 0 then (s, Error(InvalidRequest))
    else GrantStep(s.(sessions := Detach(s.sessions, e.fd)), e.fd, e.user, e.file, e.index.value, e.allowed)
  }

  ghost function GrantStep(s: State, fd: int, user: string, file: FileId, index: nat, allowed: bool): (State, Reply) {
    if file !in s.files then (s, Error(FileNotFound))
    else if !allowed then (s, Error(PermissionDenied))
    else if SentenceTaken(s.sessions, file, index) then (s, Error(SentenceLocked))
    else
      var text := s.files[file].content;
      match Bounds(text, index)
      case None => (s, Error(InvalidRequest))
      case Some(x) =>
        var sentence := text[x.start..x.end];
        var session := Session(fd, file, user, index, x.start, x.end, text, sentence);
        (s.(sessions := [session] + s.sessions), Locked(sentence))
  }

  function DataStep(s: State, e: Event): (State, Reply)
    requires e.WriteData?
  {
    if e.wordIndex.None? || e.wordIndex.value < 0 then (s, Error(InvalidRequest))
    else
      match FindSession(s.sessions, e.fd)
      case None => (s, Error(InvalidRequest))
      case Some(i) =>
        match Words.EditSentence(s.sessions[i].working, e.wordIndex.value, e.content)
        case None => (s, Error(InvalidRequest))
        case Some(w) => (s.(sessions := s.sessions[i := s.sessions[i].(working := w)]), Done)
  }

  // The bounds of a session lie within the text (a negative size_t offset would wrap past its end).
  predicate BoundsInside(x: Session, text: string) {
    0 <= x.start <= x.end <= |text|
  }

  function CommitFile(f: FileState, x: Session): FileState
    requires BoundsInside(x, f.content)
  {
    f.(content := Splice(f.content, Span(x.start, x.end), x.working), undo := Some(f.content), undoAvailable := true)
  }

  // The session list while the committing session is still in it.
  function MovedByCommit(ss: seq<Session>, i: nat, text: string): (r: seq<Session>)
    requires i < |ss| && BoundsInside(ss[i], text)
    ensures |r| == |ss|
  {
    var x := ss[i];
    MoveOthers(ss, i, x.end, |x.working| - (x.end - x.start),
               CountSentences(x.working) - CountSentences(text[x.start..x.end]))
  }

  function CommitSessions(ss: seq<Session>, i: nat, text: string): seq<Session>
    requires i < |ss| && BoundsInside(ss[i], text)
  {
    var moved := MovedByCommit(ss, i, text);
    moved[..i] + moved[i + 1..]
  }

  function CommitStep(s: State, e: Event): (State, Reply)
    requires e.Etirw?
  {
    match FindSession(s.sessions, e.fd)
    case None => (s, Error(InvalidRequest))
    case Some(i) =>
      var x := s.sessions[i];
      if x.file !in s.files || !BoundsInside(x, s.files[x.file].content) then (s, Error(Internal))
      else
        var f := s.files[x.file];
        (s.(files := s.files[x.file := CommitFile(f, x)], sessions := CommitSessions(s.sessions, i, f.content)), Done)
  }

  // The checks that undo, checkpoint and revert share, in order.
  function Refusal(s: State, file: FileId, allowed: bool): Option<ErrorCode> {
    if file !in s.files then Some(FileNotFound)
    else if !allowed then Some(PermissionDenied)
    else if HasWriters(s.sessions, file) then Some(SentenceLocked)
    else None
  }

  function UndoStep(s: State, e: Event): (State, Reply)
    requires e.Undo?
  {
    match Refusal(s, e.file, e.allowed)
    case Some(code) => (s, Error(code))
    case None =>
      var f := s.files[e.file];
      if !f.undoAvailable || f.undo.None? then (s, Error(NoUndoHistory))
      else (s.(files := s.files[e.file := f.(content := f.undo.value, undoAvailable := false)]), Done)
  }

  // A tag as the handlers use it: cut to its buffer, then trimmed.
  function CleanTag(tag: string): string {
    Trim(Cut(tag, MAX_TAG_LENGTH))
  }

  // The snapshot file of a checkpoint request.
  function PathOf(e: Event): string
    requires e.TakeCheckpoint?
  {
    SnapshotPath(e.base, e.now, CleanTag(e.tag))
  }

  // ss_find_checkpoint
  function FindCheckpoint(cs: seq<Checkpoint>, tag: string): (r: Option<nat>)
    ensures r.Some? ==> r.value < |cs| && cs[r.value].tag == tag && forall j :: 0 <= j < r.value ==> cs[j].tag != tag
    ensures r.None? ==> forall j :: 0 <= j < |cs| ==> cs[j].tag != tag
  {
    if cs == [] then None
    else if cs[0].tag == tag then Some(0)
    else match FindCheckpoint(cs[1..], tag)
      case None => None
      case Some(i) => Some(i + 1)
  }

  // A new checkpoint goes to the end of the list; a full list first gives up its oldest entry.
  function PushCheckpoint(cs: seq<Checkpoint>, c: Checkpoint): seq<Checkpoint> {
    (if |cs| >= MAX_CHECKPOINTS then cs[1..] else cs) + [c]
  }

  // The copy is written first; making room for the entry then unlinks the oldest snapshot file.
  function PushSnapshot(m: map<string, string>, cs: seq<Checkpoint>, path: string, content: string): map<string, string> {
    var written := m[path := content];
    if |cs| >= MAX_CHECKPOINTS then written - {cs[0].path} else written
  }

  function CheckpointStep(s: State, e: Event): (State, Reply)
    requires e.TakeCheckpoint?
  {
    var tag := CleanTag(e.tag);
    if tag == "" then (s, Error(InvalidRequest))
    else if Refusal(s, e.file, e.allowed).Some? then (s, Error(Refusal(s, e.file, e.allowed).value))
    else AppendStep(s, e.file, tag, PathOf(e))
  }

  // What remains of a checkpoint request once it is not refused.
  function AppendStep(s: State, file: FileId, tag: string, path: string): (State, Reply)
    requires file in s.files
  {
    var f := s.files[file];
    if FindCheckpoint(f.checkpoints, tag).Some? then (s, Error(InvalidRequest))
    else if |path| >= MAX_PATH_LENGTH then (s, Error(Internal))
    else
      (s.(files := s.files[file := f.(checkpoints := PushCheckpoint(f.checkpoints, Checkpoint(tag, path)))],
          snapshots := PushSnapshot(s.snapshots, f.checkpoints, path, f.content)), Done)
  }

  function RevertStep(s: State, e: Event): (State, Reply)
    requires e.Revert?
  {
    var tag := CleanTag(e.tag);
    if tag == "" then (s, Error(InvalidRequest))
    else if Refusal(s, e.file, e.allowed).Some? then (s, Error(Refusal(s, e.file, e.allowed).value))
    else RestoreStep(s, e.file, tag)
  }

  function RestoreStep(s: State, file: FileId, tag: string): (State, Reply)
    requires file in s.files
  {
    var f := s.files[file];
    match FindCheckpoint(f.checkpoints, tag)
    case None => (s, Error(InvalidRequest))
    case Some(i) =>
      var path := f.checkpoints[i].path;
      if path !in s.snapshots then (s, Error(Internal))
      else
        var f' := f.(content := s.snapshots[path], undo := Some(f.content), undoAvailable := true);
        (s.(files := s.files[file := f']), Done)
  }

  function Delivered(s: State, source: Source): Transfer
    requires source.Local? ==> source.file in s.files
  {
    if source.Local? then Bytes(s.files[source.file].content) else source.transfer
  }

  // Two of the other server's error codes are passed on; any other failure is an internal error.
  function CopyFailure(t: Transfer): ErrorCode {
    if t == Rejected(FileNotFound) then FileNotFound
    else if t == Rejected(PermissionDenied) then PermissionDenied
    else Internal
  }

  // Both files must exist, and neither may be locked.
  function CopyRefusal(s: State, dest: FileId, source: Source): Option<ErrorCode> {
    if dest !in s.files then Some(FileNotFound)
    else if source.Local? && source.file !in s.files then Some(FileNotFound)
    else if HasWriters(s.sessions, dest) then Some(SentenceLocked)
    else if source.Local? && HasWriters(s.sessions, source.file) then Some(SentenceLocked)
    else None
  }

  // handle_ss_copy: the undo file of the destination is left as it is.
  function CopyStep(s: State, e: Event): (State, Reply)
    requires e.Copy?
  {
    match CopyRefusal(s, e.dest, e.source)
    case Some(code) => (s, Error(code))
    case None =>
      match Delivered(s, e.source)
      case Bytes(data) => (s.(files := s.files[e.dest := s.files[e.dest].(content := data)]), Done)
      case failed => (s, Error(CopyFailure(failed)))
  }

  function CreateStep(s: State, e: Event): (State, Reply)
    requires e.Create?
  {
    if e.file in s.files then (s, Error(FileExists))
    else (s.(files := s.files[e.file := FileState("", None, false, [])]), Done)
  }

  function PathsOf(cs: seq<Checkpoint>): set<string> {
    set i | 0 <= i < |cs| :: cs[i].path
  }

  function DeleteStep(s: State, e: Event): (State, Reply)
    requires e.Delete?
  {
    if e.file !in s.files then (s, Error(FileNotFound))
    else if HasWriters(s.sessions, e.file) then (s, Error(SentenceLocked))
    else (s.(files := s.files - {e.file}, snapshots := s.snapshots - PathsOf(s.files[e.file].checkpoints)), Done)
  }

  ghost function StepReply(s: State, e: Event): (State, Reply) {
    match e
    case WriteLock(_, _, _, _, _) => LockStep(s, e)
    case WriteData(_, _, _) => DataStep(s, e)
    case Etirw(_) => CommitStep(s, e)
    case Disconnect(fd) => (s.(sessions := Detach(s.sessions, fd)), Done)
    case Undo(_, _) => UndoStep(s, e)
    case TakeCheckpoint(_, _, _, _, _) => CheckpointStep(s, e)
    case Revert(_, _, _) => RevertStep(s, e)
    case Copy(_, _) => CopyStep(s, e)
    case Create(_) => CreateStep(s, e)
    case Delete(_) => DeleteStep(s, e)
  }

  ghost function Step(s: State, e: Event): State {
    StepReply(s, e).0
  }

  // The step was carried out, not refused.
  ghost predicate Succeeds(s: State, e: Event) {
    !StepReply(s, e).1.Error?
  }

  ghost function Run(s: State, es: seq<Event>): State {
    if es == [] then s else Step(Run(s, es[..|es| - 1]), es[|es| - 1])
  }

  const EMPTY: State := State(map[], [], map[])
}
