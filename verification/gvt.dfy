/**
 * The version store behind the `gvt` command: a hidden `.gvt` directory
 * holding the current version number (HEAD), one log entry per version, one
 * full snapshot directory per version and the tracked index.
 *
 * The disk is a value: the repository when `.gvt` exists, plus the working
 * directory as a map from file name to content. Every operation is a pure
 * function from the disk to either an error or its result; all precondition
 * checks are made on the disk as it was, before anything is written.
 */
module Gvt {
  import opened Wrappers
  import opened Text
  import opened Index

  type Content = string

  /** One `files/<N>/` directory: file name to stored content. */
  type Snapshot = map<string, Content>

  /**
   * The contents of `.gvt`: HEAD, `index.txt`, `files/<N>/` for each
   * version N and `versions/<N>.txt` for each version N.
   */
  datatype Repo = Repo(
    head: nat,
    index: string,
    snapshots: map<nat, Snapshot>,
    log: map<nat, string>)

  /** `.gvt` (present or not) and the working directory next to it. */
  datatype Disk = Disk(repo: Option<Repo>, work: map<string, Content>)

  datatype Error =
    | NotInitialized
    | AlreadyInitialized
    | AlreadyTracked(name: string)
    | NotTracked(name: string)
    | FileNotFound(name: string)
    | InvalidVersion(text: string)
    /** A `-last` count `Integer.parseInt` rejects. */
    | MalformedNumber(text: string)
    /** `versions/<N>.txt` does not exist. */
    | MissingLogEntry(version: int)
    /** `versions/<N>.txt` is empty, so it has no first line. */
    | EmptyLogEntry(version: int)

  const InitMessage: string := "GVT initialized."

  /**
   * The shape every successful operation keeps: a snapshot directory and a
   * log entry for exactly the versions 0..HEAD, and every log entry non-empty.
   */
  predicate Valid(r: Repo) {
    && (forall v :: v in r.snapshots ==> v <= r.head)
    && (forall v: nat :: v <= r.head ==> v in r.snapshots)
    && (forall v :: v in r.log ==> v <= r.head)
    && (forall v: nat :: v <= r.head ==> v in r.log)
    && (forall v :: v in r.log ==> r.log[v] != "")
  }

  /** Validity of a disk that may not hold a repository yet. */
  predicate ValidDisk(d: Disk) {
    d.repo.Some? ==> Valid(d.repo.value)
  }

  // ---------------------------------------------------------------------
  // init
  // ---------------------------------------------------------------------

  /** `init`: HEAD 0, an empty index, an empty snapshot 0 and the fixed version-0 log entry. */
  function Init(d: Disk): (r: Result<Disk, Error>)
    ensures d.repo.Some? <==> r == Err(AlreadyInitialized)
    ensures r.Ok? ==> r.value.work == d.work && r.value.repo.Some?
    ensures r.Ok? ==> var repo := r.value.repo.value;
      && Valid(repo) && repo.head == 0
      && repo.log[0] == InitMessage
      && repo.index == "" && repo.snapshots[0] == map[]
  {
    if d.repo.Some? then Err(AlreadyInitialized)
    else Ok(d.(repo := Some(Repo(0, "", map[0 := map[]], map[0 := InitMessage]))))
  }

  // ---------------------------------------------------------------------
  // The steps shared by add, commit and detach
  // ---------------------------------------------------------------------

  /**
   * `copyPreviousVersionFiles`: directory HEAD+1 is created if missing (an
   * existing one keeps its files) and every file of directory HEAD is copied
   * into it, replacing a file of the same name. On a valid repository the
   * new directory does not exist yet, so it becomes a copy of snapshot HEAD.
   */
  function CopyPrevious(r: Repo): (s: Snapshot)
    ensures Valid(r) ==> s == r.snapshots[r.head]
    ensures r.head in r.snapshots ==> forall x :: x in r.snapshots[r.head] ==> x in s && s[x] == r.snapshots[r.head][x]
  {
    var n := r.head + 1;
    var stale := if n in r.snapshots then r.snapshots[n] else map[];
    var previous := if r.head in r.snapshots then r.snapshots[r.head] else map[];
    stale + previous
  }

  /**
   * `incrementVersion` followed by writing the new version's snapshot
   * directory, index and log entry.
   */
  function NextVersion(r: Repo, index: string, snapshot: Snapshot, message: string): (r': Repo)
    ensures r'.head == r.head + 1
    ensures r'.snapshots.Keys == r.snapshots.Keys + {r'.head} && r'.log.Keys == r.log.Keys + {r'.head}
    ensures r'.snapshots[r'.head] == snapshot && r'.log[r'.head] == message && r'.index == index
    ensures forall v :: v in r.snapshots && v != r'.head ==> r'.snapshots[v] == r.snapshots[v]
    ensures forall v :: v in r.log && v != r'.head ==> r'.log[v] == r.log[v]
  {
    var n := r.head + 1;
    Repo(n, index, r.snapshots[n := snapshot], r.log[n := message])
  }

  /**
   * The log entry add and commit write: a given message replaces the
   * default text and is followed by a line feed; the default is written as it is.
   */
  function LogMessage(fallback: string, msg: string): (r: string)
    ensures msg == "" ==> r == fallback
    ensures msg != "" ==> |r| == |msg| + 1 && r[..|msg|] == msg && r[|msg|] == '\n'
    ensures fallback != "" ==> r != ""
  {
    if msg == "" then fallback else msg + "\n"
  }

  /** `addNewVersion`. */
  function AddMessage(f: string, msg: string): string {
    LogMessage("File added successfully. File: " + f, msg)
  }

  /** `commitNewVersion`: as for add, with its own default text. */
  function CommitMessage(f: string, msg: string): string {
    LogMessage("File committed successfully. File: " + f, msg)
  }

  /** `addNewVersionDetach`: always the fixed text naming the file. */
  function DetachMessage(f: string): (r: string)
    ensures r != ""
  {
    "File detached successfully. File: " + f + "\n"
  }

  // ---------------------------------------------------------------------
  // add, commit, detach
  // ---------------------------------------------------------------------

  /** `validateFileExists`: `new File("")` never exists, whatever the directory holds. */
  predicate FileExists(work: map<string, Content>, f: string) {
    f != "" && f in work
  }

  /**
   * `add`: refuses a tracked name before looking for the file; otherwise
   * snapshot HEAD+1 is snapshot HEAD with the working copy of `f` stored,
   * and `f` is appended to the index.
   */
  function Add(d: Disk, f: string, msg: string): (r: Result<Disk, Error>)
    ensures d.repo.None? ==> r == Err(NotInitialized)
    ensures d.repo.Some? && IsTracked(d.repo.value.index, f) ==> r == Err(AlreadyTracked(f))
    ensures d.repo.Some? && !IsTracked(d.repo.value.index, f) && !FileExists(d.work, f) ==> r == Err(FileNotFound(f))
    ensures r.Ok? <==> d.repo.Some? && !IsTracked(d.repo.value.index, f) && FileExists(d.work, f)
    ensures r.Ok? ==> r.value.work == d.work && r.value.repo.Some?
    ensures r.Ok? ==>
      var before := d.repo.value;
      var after := r.value.repo.value;
      && after.head == before.head + 1
      && after.index == AppendName(before.index, f)
      && after.snapshots == before.snapshots[after.head := CopyPrevious(before)[f := d.work[f]]]
      && after.log == before.log[after.head := AddMessage(f, msg)]
  {
    match d.repo
    case None => Err(NotInitialized)
    case Some(repo) =>
      if IsTracked(repo.index, f) then Err(AlreadyTracked(f))
      else if !FileExists(d.work, f) then Err(FileNotFound(f))
      else
        var snapshot := CopyPrevious(repo)[f := d.work[f]];
        Ok(d.(repo := Some(NextVersion(repo, AppendName(repo.index, f), snapshot, AddMessage(f, msg)))))
  }

  /**
   * `commit`: looks for the file before checking the index; otherwise
   * snapshot HEAD+1 is snapshot HEAD with the stored copy of `f` deleted
   * and the working copy stored in its place. The index is not touched.
   */
  function Commit(d: Disk, f: string, msg: string): (r: Result<Disk, Error>)
    ensures d.repo.None? ==> r == Err(NotInitialized)
    ensures d.repo.Some? && !FileExists(d.work, f) ==> r == Err(FileNotFound(f))
    ensures d.repo.Some? && FileExists(d.work, f) && !IsTracked(d.repo.value.index, f) ==> r == Err(NotTracked(f))
    ensures r.Ok? <==> d.repo.Some? && FileExists(d.work, f) && IsTracked(d.repo.value.index, f)
    ensures r.Ok? ==> r.value.work == d.work && r.value.repo.Some?
    ensures r.Ok? ==>
      var before := d.repo.value;
      var after := r.value.repo.value;
      && after.head == before.head + 1
      && after.index == before.index
      && after.snapshots == before.snapshots[after.head := CopyPrevious(before)[f := d.work[f]]]
      && after.log == before.log[after.head := CommitMessage(f, msg)]
  {
    match d.repo
    case None => Err(NotInitialized)
    case Some(repo) =>
      if !FileExists(d.work, f) then Err(FileNotFound(f))
      else if !IsTracked(repo.index, f) then Err(NotTracked(f))
      else
        var snapshot := (CopyPrevious(repo) - {f})[f := d.work[f]];
        assert snapshot == CopyPrevious(repo)[f := d.work[f]];
        Ok(d.(repo := Some(NextVersion(repo, repo.index, snapshot, CommitMessage(f, msg)))))
  }

  /**
   * `detach`: checks the index before looking for the file (which must
   * exist although nothing is read from it); snapshot HEAD+1 is snapshot
   * HEAD without `f`, and every occurrence of `f + "\n"` is cut out of the
   * index text.
   */
  function Detach(d: Disk, f: string): (r: Result<Disk, Error>)
    ensures d.repo.None? ==> r == Err(NotInitialized)
    ensures d.repo.Some? && !IsTracked(d.repo.value.index, f) ==> r == Err(NotTracked(f))
    ensures d.repo.Some? && IsTracked(d.repo.value.index, f) && !FileExists(d.work, f) ==> r == Err(FileNotFound(f))
    ensures r.Ok? <==> d.repo.Some? && IsTracked(d.repo.value.index, f) && FileExists(d.work, f)
    ensures r.Ok? ==> r.value.work == d.work && r.value.repo.Some?
    ensures r.Ok? ==>
      var before := d.repo.value;
      var after := r.value.repo.value;
      && after.head == before.head + 1
      && after.index == RemoveName(before.index, f)
      && after.snapshots == before.snapshots[after.head := CopyPrevious(before) - {f}]
      && after.log == before.log[after.head := DetachMessage(f)]
  {
    match d.repo
    case None => Err(NotInitialized)
    case Some(repo) =>
      if !IsTracked(repo.index, f) then Err(NotTracked(f))
      else if !FileExists(d.work, f) then Err(FileNotFound(f))
      else Ok(d.(repo := Some(NextVersion(repo, RemoveName(repo.index, f), CopyPrevious(repo) - {f}, DetachMessage(f)))))
  }

  // ---------------------------------------------------------------------
  // checkout
  // ---------------------------------------------------------------------

  /**
   * `checkout`: the text must parse as a non-negative number and
   * `files/<text>` must be a directory. Since the text parses to `v`, that
   * directory is the one of version `v` exactly when the text is `v`'s
   * decimal form. Every file of the snapshot is copied over the working
   * directory; other working files and the repository stay as they are.
   */
  function Checkout(d: Disk, text: string): (r: Result<Disk, Error>)
    ensures d.repo.None? ==> r == Err(NotInitialized)
    ensures d.repo.Some? && ParseInt(text).None? ==> r == Err(InvalidVersion(text))
    ensures r.Err? && d.repo.Some? ==> r == Err(InvalidVersion(text))
    ensures r.Ok? ==> r.value.repo == d.repo && ParseInt(text).Some? && 0 <= ParseInt(text).value
    ensures r.Ok? ==>
      var snapshots := d.repo.value.snapshots;
      var v := ParseInt(text).value as nat;
      && v in snapshots
      && r.value.work.Keys == d.work.Keys + snapshots[v].Keys
      && (forall x :: x in snapshots[v] ==> r.value.work[x] == snapshots[v][x])
      && (forall x :: x in d.work && x !in snapshots[v] ==> r.value.work[x] == d.work[x])
  {
    match d.repo
    case None => Err(NotInitialized)
    case Some(repo) =>
      match ParseInt(text)
      case None => Err(InvalidVersion(text))
      case Some(v) =>
        if v < 0 || !(v as nat in repo.snapshots && DecimalString(v as nat) == text) then Err(InvalidVersion(text))
        else Ok(d.(work := d.work + repo.snapshots[v as nat]))
  }

  // ---------------------------------------------------------------------
  // history
  // ---------------------------------------------------------------------

  /** One history line: a version and its log entry, shown as the entry's trimmed first line. */
  datatype HistoryLine = HistoryLine(version: nat, entry: string) {
    /**
     * What the line shows of the entry: a piece of its first line with no
     * line break, starting and ending with a non-blank character, so that
     * trimming it again changes nothing.
     */
    function Summary(): (r: string)
      ensures |r| <= |entry|
      ensures '\n' !in r && '\r' !in r
      ensures r != [] ==> !IsTrimmable(r[0]) && !IsTrimmable(r[|r| - 1])
      ensures Trim(r) == r
    {
      var first := FirstLine(entry);
      assert '\n' !in first && '\r' !in first by {
        assert forall i :: 0 <= i < |first| ==> first[i] != '\n' && first[i] != '\r';
      }
      TrimKeepsOut(first, '\n');
      TrimKeepsOut(first, '\r');
      TrimOfTrimmed(Trim(first));
      Trim(first)
    }
  }

  /**
   * Reading `versions/<i>.txt` for the history: a missing file (including
   * every negative `i`) and an empty one (no first line) are errors.
   */
  function LogLine(log: map<nat, string>, i: int): (r: Result<HistoryLine, Error>)
    ensures r.Ok? <==> 0 <= i && i as nat in log && log[i as nat] != ""
    ensures r.Ok? ==> r.value.version == i && r.value.entry == log[i as nat]
    ensures (i < 0 || i as nat !in log) ==> r == Err(MissingLogEntry(i))
    ensures 0 <= i && i as nat in log && log[i as nat] == "" ==> r == Err(EmptyLogEntry(i))
  {
    if i < 0 || i as nat !in log then Err(MissingLogEntry(i))
    else if log[i as nat] == "" then Err(EmptyLogEntry(i))
    else Ok(HistoryLine(i as nat, log[i as nat]))
  }

  /** The lines for versions `hi` down to `lo`, stopping at the first unreadable entry from the top. */
  function HistoryLines(log: map<nat, string>, hi: int, lo: int): (r: Result<seq<HistoryLine>, Error>)
    ensures r.Ok? <==> forall i :: lo <= i <= hi ==> LogLine(log, i).Ok?
    ensures r.Ok? ==> |r.value| == (if hi < lo then 0 else hi - lo + 1)
    ensures r.Ok? ==> forall k :: 0 <= k < |r.value| ==> LogLine(log, hi - k) == Ok(r.value[k])
    decreases hi - lo + 1
  {
    if hi < lo then Ok([])
    else match LogLine(log, hi)
      case Err(e) => Err(e)
      case Ok(line) =>
        match HistoryLines(log, hi - 1, lo)
        case Err(e) => Err(e)
        case Ok(rest) => Ok([line] + rest)
  }

  /**
   * The lowest version `history` prints: 0 without a limit, otherwise the
   * `int` value of HEAD - n + 1, not clamped at 0 and wrapping around when
   * the exact value leaves the `int` range.
   */
  function LowestVersion(head: nat, limit: Option<string>): (r: Result<int, Error>)
    ensures limit.None? ==> r == Ok(0)
    ensures limit.Some? ==> (r.Err? <==> ParseInt(limit.value).None?)
    ensures r.Ok? ==> InIntRange(r.value)
    ensures r.Ok? && limit.Some? ==> (head + 1 - ParseInt(limit.value).value - r.value) % 0x1_0000_0000 == 0
    ensures r.Ok? && limit.Some? && InIntRange(head + 1 - ParseInt(limit.value).value) ==>
      r.value + ParseInt(limit.value).value == head + 1
  {
    match limit
    case None => Ok(0)
    case Some(text) =>
      match ParseInt(text)
      case None => Err(MalformedNumber(text))
      case Some(n) => Ok(Wrap32(head - n + 1))
  }

  /** The lines `history` prints, newest first. */
  function HistoryOf(d: Disk, limit: Option<string>): (r: Result<seq<HistoryLine>, Error>)
    ensures d.repo.None? ==> r == Err(NotInitialized)
    ensures d.repo.Some? && limit.Some? && ParseInt(limit.value).None? ==> r == Err(MalformedNumber(limit.value))
  {
    match d.repo
    case None => Err(NotInitialized)
    case Some(repo) =>
      match LowestVersion(repo.head, limit)
      case Err(e) => Err(e)
      case Ok(lo) => HistoryLines(repo.log, repo.head, lo)
  }

  /** When the entries above `i` are readable and `i` is not, the history stops with `i`'s error. */
  lemma {:induction false} HistoryLinesFirstError(log: map<nat, string>, hi: int, lo: int, i: int)
    requires lo <= i <= hi && LogLine(log, i).Err?
    requires forall j :: i < j <= hi ==> LogLine(log, j).Ok?
    ensures HistoryLines(log, hi, lo) == Err(LogLine(log, i).error)
    decreases hi - i
  {
    if i < hi {
      HistoryLinesFirstError(log, hi - 1, lo, i);
    }
  }

  /** `history`, as the loop that reads the log entries from HEAD downwards. */
  method History(d: Disk, limit: Option<string>) returns (r: Result<seq<HistoryLine>, Error>)
    ensures r == HistoryOf(d, limit)
  {
    if d.repo.None? {
      return Err(NotInitialized);
    }
    var repo := d.repo.value;
    var lo := 0;
    if limit.Some? {
      var n := ParseInt(limit.value);
      if n.None? {
        return Err(MalformedNumber(limit.value));
      }
      lo := Wrap32(repo.head - n.value + 1);
    }
    assert LowestVersion(repo.head, limit) == Ok(lo);
    var lines: seq<HistoryLine> := [];
    var i: int := repo.head;
    while i >= lo
      invariant i <= repo.head && (lo - 1 <= i || i == repo.head)
      invariant |lines| == repo.head - i
      invariant forall k :: 0 <= k < |lines| ==> LogLine(repo.log, repo.head - k) == Ok(lines[k])
      decreases i - lo + 1
    {
      var line := LogLine(repo.log, i);
      if line.Err? {
        assert forall j :: i < j <= repo.head ==> LogLine(repo.log, j).Ok? by {
          forall j | i < j <= repo.head ensures LogLine(repo.log, j).Ok? {
            assert LogLine(repo.log, repo.head - (repo.head - j)) == Ok(lines[repo.head - j]);
          }
        }
        HistoryLinesFirstError(repo.log, repo.head, lo, i);
        return Err(line.error);
      }
      lines := lines + [line.value];
      i := i - 1;
    }
    assert forall j :: lo <= j <= repo.head ==> LogLine(repo.log, j).Ok? by {
      forall j | lo <= j <= repo.head ensures LogLine(repo.log, j).Ok? {
        assert LogLine(repo.log, repo.head - (repo.head - j)) == Ok(lines[repo.head - j]);
      }
    }
    var expected := HistoryLines(repo.log, repo.head, lo);
    assert expected.Ok? && |expected.value| == |lines|;
    assert forall k :: 0 <= k < |lines| ==> expected.value[k] == lines[k];
    assert expected.value == lines;
    assert HistoryOf(d, limit) == expected;
    return Ok(lines);
  }

  /** One printed history line, `i + ": " + summary`. */
  function FormatLine(line: HistoryLine): (r: string)
    ensures WellFormedName(r)
  {
    var digits := DecimalString(line.version);
    assert '\n' !in digits by {
      assert forall i :: 0 <= i < |digits| ==> IsDigit(digits[i]);
    }
    digits + ": " + line.Summary()
  }

  /**
   * The text `history` returns: every formatted line followed by a line
   * feed, so it is empty exactly when no line is listed, and holds one
   * line feed per line.
   */
  function HistoryText(lines: seq<HistoryLine>): (r: string)
    ensures r == "" <==> lines == []
    ensures r != "" ==> r[|r| - 1] == '\n'
    ensures multiset(r)['\n'] == |lines|
  {
    if |lines| == 0 then ""
    else
      var first := FormatLine(lines[0]);
      assert multiset(first)['\n'] == 0;
      first + "\n" + HistoryText(lines[1..])
  }

  // ---------------------------------------------------------------------
  // version
  // ---------------------------------------------------------------------

  datatype VersionInfo = VersionInfo(number: int, text: string)

  /**
   * `version`: HEAD when no version is given, otherwise the parsed number
   * (an unparsable one is an invalid version); the answer is the trimmed
   * text of that version's log entry, which must exist.
   */
  function Version(d: Disk, text: Option<string>): (r: Result<VersionInfo, Error>)
    ensures d.repo.None? ==> r == Err(NotInitialized)
    ensures d.repo.Some? && text.Some? && ParseInt(text.value).None? ==> r == Err(InvalidVersion(text.value))
    ensures r.Ok? ==> d.repo.Some? && 0 <= r.value.number && r.value.number as nat in d.repo.value.log
    ensures r.Ok? ==> r.value.text == Trim(d.repo.value.log[r.value.number as nat])
    ensures r.Ok? ==> if text.None? then r.value.number == d.repo.value.head else ParseInt(text.value) == Some(r.value.number)
    ensures d.repo.Some? && text.None? && Valid(d.repo.value) ==> r.Ok?
    ensures d.repo.Some? && text.Some? && ParseInt(text.value).Some? ==>
      (r.Ok? <==> 0 <= ParseInt(text.value).value && ParseInt(text.value).value as nat in d.repo.value.log)
  {
    match d.repo
    case None => Err(NotInitialized)
    case Some(repo) =>
      if text.Some? && ParseInt(text.value).None? then Err(InvalidVersion(text.value))
      else
        var v: int := if text.None? then repo.head else ParseInt(text.value).value;
        if v < 0 || v as nat !in repo.log then Err(MissingLogEntry(v))
        else Ok(VersionInfo(v, Trim(repo.log[v as nat])))
  }

  // ---------------------------------------------------------------------
  // Sequences of commands
  // ---------------------------------------------------------------------

  /**
   * The commands that change the disk. `EditCmd` is the user changing the
   * working directory between two commands: any files, any contents.
   */
  datatype Command =
    | EditCmd(work: map<string, Content>)
    | InitCmd
    | AddCmd(name: string, message: string)
    | CommitCmd(name: string, message: string)
    | DetachCmd(name: string)
    | CheckoutCmd(version: string)

  function Execute(d: Disk, c: Command): Result<Disk, Error> {
    match c
    case EditCmd(w) => Ok(d.(work := w))
    case InitCmd => Init(d)
    case AddCmd(f, msg) => Add(d, f, msg)
    case CommitCmd(f, msg) => Commit(d, f, msg)
    case DetachCmd(f) => Detach(d, f)
    case CheckoutCmd(v) => Checkout(d, v)
  }

  /** The disk after one command; a refused command has written nothing. */
  function Step(d: Disk, c: Command): Disk {
    match Execute(d, c)
    case Ok(d') => d'
    case Err(_) => d
  }

  /** The disk after running the commands one after another. */
  function Run(d: Disk, cs: seq<Command>): Disk
    decreases |cs|
  {
    if |cs| == 0 then d else Run(Step(d, cs[0]), cs[1..])
  }
}
