/**
 * Properties that relate several operations of the version store, or one
 * operation to the invariants of the repository it works on.
 */
module GvtProperties {
  import opened Wrappers
  import opened Text
  import opened Index
  import opened Gvt

  // ---------------------------------------------------------------------
  // Versions: HEAD + 1, full copy of the previous snapshot, history kept
  // ---------------------------------------------------------------------

  /** The versions up to `before.head` are the same in `after`. */
  predicate KeepsVersions(before: Repo, after: Repo) {
    && before.head <= after.head
    && (forall v :: v in before.snapshots ==> v in after.snapshots && after.snapshots[v] == before.snapshots[v])
    && (forall v :: v in before.log ==> v in after.log && after.log[v] == before.log[v])
  }

  /**
   * add on a valid repository: HEAD goes up by one, the new snapshot is the
   * snapshot of the old HEAD with the working copy of `f` stored (every other
   * file as it was), the old versions are untouched and the repository stays
   * valid.
   */
  lemma AddCreatesVersion(d: Disk, f: string, msg: string)
    requires ValidDisk(d) && Add(d, f, msg).Ok?
    ensures var before := d.repo.value;
      var after := Add(d, f, msg).value.repo.value;
      && after.head == before.head + 1
      && after.snapshots[after.head] == before.snapshots[before.head][f := d.work[f]]
      && KeepsVersions(before, after)
      && Valid(after)
  {
    var before := d.repo.value;
    var after := Add(d, f, msg).value.repo.value;
    assert after == NextVersion(before, AppendName(before.index, f), CopyPrevious(before)[f := d.work[f]], AddMessage(f, msg));
  }

  /** commit on a valid repository: as for add, with the index unchanged. */
  lemma CommitCreatesVersion(d: Disk, f: string, msg: string)
    requires ValidDisk(d) && Commit(d, f, msg).Ok?
    ensures var before := d.repo.value;
      var after := Commit(d, f, msg).value.repo.value;
      && after.head == before.head + 1
      && after.index == before.index
      && after.snapshots[after.head] == before.snapshots[before.head][f := d.work[f]]
      && KeepsVersions(before, after)
      && Valid(after)
  {
  }

  /** detach on a valid repository: the new snapshot is the old HEAD snapshot without `f`. */
  lemma DetachCreatesVersion(d: Disk, f: string)
    requires ValidDisk(d) && Detach(d, f).Ok?
    ensures var before := d.repo.value;
      var after := Detach(d, f).value.repo.value;
      && after.head == before.head + 1
      && after.snapshots[after.head] == before.snapshots[before.head] - {f}
      && KeepsVersions(before, after)
      && Valid(after)
  {
    var before := d.repo.value;
    var after := Detach(d, f).value.repo.value;
    assert after == NextVersion(before, RemoveName(before.index, f), CopyPrevious(before) - {f}, DetachMessage(f));
  }

  /**
   * Every command keeps a valid disk valid. A command that fails changes
   * nothing; one that succeeds leaves every existing version as it was.
   */
  lemma StepKeepsValid(d: Disk, c: Command)
    requires ValidDisk(d)
    ensures ValidDisk(Step(d, c))
    ensures Execute(d, c).Err? ==> Step(d, c) == d
    ensures d.repo.Some? ==> Step(d, c).repo.Some? && KeepsVersions(d.repo.value, Step(d, c).repo.value)
  {
    match c
    case EditCmd(w) =>
    case InitCmd =>
    case AddCmd(f, msg) =>
      if Add(d, f, msg).Ok? {
        AddCreatesVersion(d, f, msg);
      }
    case CommitCmd(f, msg) =>
      if Commit(d, f, msg).Ok? {
        CommitCreatesVersion(d, f, msg);
      }
    case DetachCmd(f) =>
      if Detach(d, f).Ok? {
        DetachCreatesVersion(d, f);
      }
    case CheckoutCmd(v) =>
  }

  /**
   * Over any sequence of commands the disk stays valid, HEAD never goes
   * down, and a snapshot or log entry once written is never changed.
   */
  lemma {:induction false} RunKeepsValid(d: Disk, cs: seq<Command>)
    requires ValidDisk(d)
    ensures ValidDisk(Run(d, cs))
    ensures d.repo.Some? ==> Run(d, cs).repo.Some? && KeepsVersions(d.repo.value, Run(d, cs).repo.value)
    decreases |cs|
  {
    if |cs| > 0 {
      StepKeepsValid(d, cs[0]);
      RunKeepsValid(Step(d, cs[0]), cs[1..]);
    }
  }

  // ---------------------------------------------------------------------
  // The index agrees with the newest snapshot
  // ---------------------------------------------------------------------

  /**
   * The index is the serialisation of `names`, and the snapshot of HEAD
   * holds exactly the files named there.
   */
  ghost predicate IndexMatchesHead(r: Repo, names: seq<string>) {
    && WellFormed(names)
    && r.index == Serialize(names)
    && r.head in r.snapshots
    && (forall x :: x in r.snapshots[r.head] <==> x in names)
  }

  lemma InitIndexMatchesHead(w: map<string, Content>)
    ensures Init(Disk(None, w)).Ok?
    ensures IndexMatchesHead(Init(Disk(None, w)).value.repo.value, [])
  {
  }

  /** add of a well-formed name appends it to the index, which then tracks it. */
  lemma AddTracksName(d: Disk, f: string, msg: string, names: seq<string>)
    requires ValidDisk(d) && d.repo.Some? && IndexMatchesHead(d.repo.value, names)
    requires WellFormedName(f) && Add(d, f, msg).Ok?
    ensures f !in names
    ensures IndexMatchesHead(Add(d, f, msg).value.repo.value, names + [f])
    ensures IsTracked(Add(d, f, msg).value.repo.value.index, f)
  {
    var after := Add(d, f, msg).value.repo.value;
    TrackedIffListed(names, f);
    AppendSerialize(names, f);
    assert WellFormed(names + [f]);
    TrackedIffListed(names + [f], f);
    AddCreatesVersion(d, f, msg);
  }

  /** commit keeps the index and the set of files in the newest snapshot. */
  lemma CommitKeepsIndex(d: Disk, f: string, msg: string, names: seq<string>)
    requires ValidDisk(d) && d.repo.Some? && IndexMatchesHead(d.repo.value, names)
    requires Commit(d, f, msg).Ok?
    ensures f in names
    ensures IndexMatchesHead(Commit(d, f, msg).value.repo.value, names)
  {
    TrackedIffListed(names, f);
    CommitCreatesVersion(d, f, msg);
  }

  /**
   * detach of a well-formed name that no other tracked name ends with
   * removes exactly that name from the index and from the newest snapshot.
   */
  lemma DetachUntracksName(d: Disk, f: string, names: seq<string>)
    requires ValidDisk(d) && d.repo.Some? && IndexMatchesHead(d.repo.value, names)
    requires WellFormedName(f) && NoSuffixClash(names, f) && Detach(d, f).Ok?
    ensures f in names
    ensures IndexMatchesHead(Detach(d, f).value.repo.value, Without(names, f))
    ensures !IsTracked(Detach(d, f).value.repo.value.index, f)
  {
    TrackedIffListed(names, f);
    RemoveNameSerialize(names, f);
    TrackedIffListed(Without(names, f), f);
    DetachCreatesVersion(d, f);
  }

  /** After such a detach, committing the same file is refused as untracked. */
  lemma DetachThenCommitRefused(d: Disk, f: string, msg: string, names: seq<string>)
    requires ValidDisk(d) && d.repo.Some? && IndexMatchesHead(d.repo.value, names)
    requires WellFormedName(f) && NoSuffixClash(names, f) && Detach(d, f).Ok?
    ensures Commit(Detach(d, f).value, f, msg) == Err(NotTracked(f))
  {
    DetachUntracksName(d, f, names);
  }

  /**
   * The empty name: commit looks for the file first and always reports it
   * missing; add and detach look at the index first, where `"".split("\n")`
   * makes the empty name tracked exactly when nothing is listed.
   */
  lemma EmptyNameRefused(d: Disk, names: seq<string>, msg: string)
    requires d.repo.Some? && WellFormed(names) && d.repo.value.index == Serialize(names)
    ensures Commit(d, "", msg) == Err(FileNotFound(""))
    ensures Add(d, "", msg) == Err(if names == [] then AlreadyTracked("") else FileNotFound(""))
    ensures Detach(d, "") == Err(if names == [] then FileNotFound("") else NotTracked(""))
  {
    TrackedIffListed(names, "");
  }

  /** An accepted add step appends the name and leaves the working directory alone. */
  lemma AddStepIndex(d: Disk, f: string)
    requires d.repo.Some? && !IsTracked(d.repo.value.index, f) && FileExists(d.work, f)
    ensures var d' := Step(d, AddCmd(f, ""));
      d'.repo.Some? && d'.repo.value.index == AppendName(d.repo.value.index, f) && d'.work == d.work
  {
  }

  /** An accepted detach step removes the record and leaves the working directory alone. */
  lemma DetachStepIndex(d: Disk, f: string)
    requires d.repo.Some? && IsTracked(d.repo.value.index, f) && FileExists(d.work, f)
    ensures var d' := Step(d, DetachCmd(f));
      d'.repo.Some? && d'.repo.value.index == RemoveName(d.repo.value.index, f) && d'.work == d.work
  {
  }

  /**
   * A detached name does not stay untracked until it is added again. From
   * an empty index: add `bc`, detach `bc` (commit of `bc` is now refused),
   * add `ba.txt`, add `a.txt`, detach `a.txt` (the index becomes `"b"`),
   * add `c`. No command added `bc`, yet the index reads `"bc\n"` and
   * commit of `bc` is accepted.
   */
  lemma DetachedNameCommittableAgain(d: Disk, msg: string)
    requires d.repo.Some? && d.repo.value.index == ""
    requires FileExists(d.work, "bc") && FileExists(d.work, "ba.txt")
    requires FileExists(d.work, "a.txt") && FileExists(d.work, "c")
    ensures var d2 := Step(Step(d, AddCmd("bc", "")), DetachCmd("bc"));
      d2.repo.Some? && d2.repo.value.index == "" && Commit(d2, "bc", msg) == Err(NotTracked("bc"))
    ensures var d2 := Step(Step(d, AddCmd("bc", "")), DetachCmd("bc"));
      var d4 := Step(Step(d2, AddCmd("ba.txt", "")), AddCmd("a.txt", ""));
      var d6 := Step(Step(d4, DetachCmd("a.txt")), AddCmd("c", ""));
      && d6.repo.Some? && d6.repo.value.index == AppendName("", "bc")
      && Commit(d6, "bc", msg).Ok?
  {
    DetachedNameTrackedAgain();
    var d1 := Step(d, AddCmd("bc", ""));
    AddStepIndex(d, "bc");
    var d2 := Step(d1, DetachCmd("bc"));
    DetachStepIndex(d1, "bc");
    var d3 := Step(d2, AddCmd("ba.txt", ""));
    AddStepIndex(d2, "ba.txt");
    var d4 := Step(d3, AddCmd("a.txt", ""));
    AddStepIndex(d3, "a.txt");
    var d5 := Step(d4, DetachCmd("a.txt"));
    DetachStepIndex(d4, "a.txt");
    var d6 := Step(d5, AddCmd("c", ""));
    AddStepIndex(d5, "c");
  }

  /**
   * On the index `"b"` that a suffix-clash detach leaves behind, add of `c`
   * is accepted but writes `"bc\n"`, so `c` is not tracked although the new
   * snapshot holds it, and a second add of `c` is accepted again.
   */
  lemma AddAfterClash(d: Disk)
    requires d.repo.Some? && d.repo.value.index == "b" && FileExists(d.work, "c")
    ensures Add(d, "c", "").Ok?
    ensures var after := Add(d, "c", "").value;
      && !IsTracked(after.repo.value.index, "c")
      && "c" in after.repo.value.snapshots[after.repo.value.head]
      && Add(after, "c", "").Ok?
  {
    assert Split("b") == ["b"];
    assert AppendName("b", "c") == "bc" + "\n";
    SplitOneRecord("bc");
  }

  /**
   * The substring replacement at work: with `ba.txt` and `a.txt` tracked,
   * detaching `a.txt` leaves the index `"b"`, so `ba.txt` is no longer
   * tracked although its file is still in the new snapshot.
   */
  lemma DetachSuffixClash(d: Disk)
    requires d.repo.Some? && d.repo.value.index == "ba.txt\na.txt\n" && "a.txt" in d.work
    ensures Detach(d, "a.txt").Ok?
    ensures var after := Detach(d, "a.txt").value.repo.value;
      && after.index == "b"
      && IsTracked(after.index, "b")
      && !IsTracked(after.index, "ba.txt")
      && ("ba.txt" in CopyPrevious(d.repo.value) ==> "ba.txt" in after.snapshots[after.head])
  {
    var names := ["ba.txt", "a.txt"];
    assert Serialize(names) == "ba.txt\na.txt\n" by {
      assert Serialize(names[1..]) == "a.txt\n" by {
        assert names[1..][1..] == [];
      }
    }
    assert WellFormed(names);
    TrackedIffListed(names, "a.txt");
    SuffixClashCorruptsIndex();
  }

  // ---------------------------------------------------------------------
  // checkout
  // ---------------------------------------------------------------------

  /**
   * checkout accepts a text exactly when it is the decimal form of a
   * version that has a snapshot and fits in an `int`.
   */
  lemma CheckoutAcceptsExactly(d: Disk, text: string)
    requires d.repo.Some?
    ensures Checkout(d, text).Ok? <==>
      exists k :: k in d.repo.value.snapshots && k <= IntMax && DecimalString(k) == text
  {
    if k :| k in d.repo.value.snapshots && k <= IntMax && DecimalString(k) == text {
      ParseDecimalString(k);
    }
  }

  /** A number with a leading zero parses, but names no snapshot directory. */
  lemma CheckoutRejectsLeadingZero(d: Disk, k: nat)
    requires d.repo.Some?
    ensures k <= IntMax ==> ParseInt("0" + DecimalString(k)) == Some(k)
    ensures Checkout(d, "0" + DecimalString(k)) == Err(InvalidVersion("0" + DecimalString(k)))
  {
    var s := "0" + DecimalString(k);
    DigitsOfDecimal(k);
    assert AllDigits(s);
    assert DigitsValue(s) == k by {
      LeadingZeroValue(DecimalString(k));
    }
  }

  lemma {:induction false} LeadingZeroValue(s: string)
    requires AllDigits(s)
    ensures AllDigits("0" + s) && DigitsValue("0" + s) == DigitsValue(s)
    decreases |s|
  {
    var z := "0" + s;
    assert AllDigits(z);
    if |s| > 0 {
      assert z[..|z| - 1] == "0" + s[..|s| - 1];
      LeadingZeroValue(s[..|s| - 1]);
    }
  }

  /**
   * The round trip: a file added at version N, followed by any commands
   * (edits of the working directory included), is restored with the
   * content it was added with by `checkout` of N.
   */
  lemma CheckoutRestoresAdded(d: Disk, f: string, msg: string, cs: seq<Command>)
    requires ValidDisk(d) && Add(d, f, msg).Ok? && d.repo.value.head < IntMax
    ensures var d1 := Add(d, f, msg).value;
      var r := Checkout(Run(d1, cs), DecimalString(d1.repo.value.head));
      && r.Ok?
      && f in r.value.work && r.value.work[f] == d.work[f]
  {
    var d1 := Add(d, f, msg).value;
    var n := d1.repo.value.head;
    AddCreatesVersion(d, f, msg);
    RunKeepsValid(d1, cs);
    var later := Run(d1, cs);
    assert n in later.repo.value.snapshots;
    assert later.repo.value.snapshots[n] == d1.repo.value.snapshots[n];
    ParseDecimalString(n);
  }

  /** Running one more command is one more step. */
  lemma {:induction false} RunSnoc(d: Disk, cs: seq<Command>, c: Command)
    ensures Run(d, cs + [c]) == Step(Run(d, cs), c)
    decreases |cs|
  {
    if |cs| > 0 {
      assert (cs + [c])[1..] == cs[1..] + [c];
      RunSnoc(Step(d, cs[0]), cs[1..], c);
    }
  }

  /** An accepted checkout, run as a command, leaves the disk it computed. */
  lemma CheckoutStepTakes(d: Disk, text: string)
    requires Checkout(d, text).Ok?
    ensures Step(d, CheckoutCmd(text)) == Checkout(d, text).value
  {
  }

  /**
   * The usual session: add, edit the working directory, commit, then
   * checkout of the add's version brings the added content back.
   */
  lemma EditCommitCheckout(d: Disk, f: string, w: map<string, Content>, msg: string)
    requires ValidDisk(d) && Add(d, f, "").Ok? && d.repo.value.head < IntMax
    ensures var d1 := Add(d, f, "").value;
      var last := Run(d1, [EditCmd(w), CommitCmd(f, msg), CheckoutCmd(DecimalString(d1.repo.value.head))]);
      f in last.work && last.work[f] == d.work[f]
  {
    var d1 := Add(d, f, "").value;
    var checkout := CheckoutCmd(DecimalString(d1.repo.value.head));
    var edits := [EditCmd(w), CommitCmd(f, msg)];
    CheckoutRestoresAdded(d, f, "", edits);
    var later := Run(d1, edits);
    CheckoutStepTakes(later, DecimalString(d1.repo.value.head));
    RunSnoc(d1, edits, checkout);
    assert edits + [checkout] == [EditCmd(w), CommitCmd(f, msg), checkout];
  }

  // ---------------------------------------------------------------------
  // history
  // ---------------------------------------------------------------------

  /** On a valid repository every log entry from 0 to HEAD can be read. */
  lemma ValidLogReadable(r: Repo, lo: int)
    requires Valid(r) && 0 <= lo
    ensures forall i :: lo <= i <= r.head ==> LogLine(r.log, i).Ok?
  {
  }

  /** Line k of an accepted history is version `hi - k`, carrying that version's whole log entry. */
  lemma HistoryLinesShowEntries(log: map<nat, string>, hi: int, lo: int, r: seq<HistoryLine>)
    requires HistoryLines(log, hi, lo) == Ok(r)
    ensures forall k :: 0 <= k < |r| ==>
      r[k].version == hi - k && r[k].version in log && r[k] == HistoryLine(r[k].version, log[r[k].version])
  {
    forall k | 0 <= k < |r|
      ensures r[k].version == hi - k && r[k].version in log && r[k] == HistoryLine(r[k].version, log[r[k].version])
    {
      assert LogLine(log, hi - k) == Ok(r[k]);
    }
  }


  /**
   * When every entry from `lo` to `hi` is readable, the history has one
   * line per version, line k being version `hi - k` shown as the trimmed
   * first line of its entry.
   */
  lemma HistoryLinesExact(log: map<nat, string>, hi: int, lo: int) returns (r: seq<HistoryLine>)
    requires 0 <= lo <= hi + 1
    requires forall i :: lo <= i <= hi ==> LogLine(log, i).Ok?
    ensures HistoryLines(log, hi, lo) == Ok(r)
    ensures |r| == hi - lo + 1
    ensures forall k :: 0 <= k < |r| ==>
      r[k].version == hi - k && r[k].version in log && r[k].Summary() == Trim(FirstLine(log[r[k].version]))
  {
    r := HistoryLines(log, hi, lo).value;
    HistoryLinesShowEntries(log, hi, lo, r);
  }



  /**
   * `history` without a limit lists every version from HEAD down to 0, in
   * strictly descending order, each with the trimmed first line of its log entry.
   */
  lemma HistoryListsAllVersions(d: Disk)
    requires d.repo.Some? && Valid(d.repo.value)
    ensures var r := HistoryOf(d, None);
      var repo := d.repo.value;
      && r.Ok?
      && |r.value| == repo.head + 1
      && (forall k :: 0 <= k < |r.value| ==> r.value[k].version == repo.head - k)
      && (forall k :: 0 <= k < |r.value| ==> r.value[k].Summary() == Trim(FirstLine(repo.log[repo.head - k])))
      && (forall j, k :: 0 <= j < k < |r.value| ==> r.value[j].version > r.value[k].version)
  {
    var repo := d.repo.value;
    ValidLogReadable(repo, 0);
    var r := HistoryOf(d, None);
    forall k | 0 <= k < |r.value| ensures r.value[k].version == repo.head - k {
      assert LogLine(repo.log, repo.head - k) == Ok(r.value[k]);
    }
  }

  /** A count that fits reaches from HEAD down to HEAD - n + 1. */
  lemma LastNFrom(d: Disk, n: nat)
    requires d.repo.Some? && d.repo.value.head < IntMax && n <= d.repo.value.head + 1
    ensures HistoryOf(d, Some(DecimalString(n))) == HistoryLines(d.repo.value.log, d.repo.value.head, d.repo.value.head - n + 1)
  {
    ParseDecimalString(n);
  }

  /**
   * `history -last n` with 0 <= n <= HEAD + 1 lists exactly n versions,
   * starting at HEAD, each with the trimmed first line of its log entry.
   */
  lemma HistoryLastN(d: Disk, n: nat)
    requires d.repo.Some? && Valid(d.repo.value) && n <= d.repo.value.head + 1 && d.repo.value.head < IntMax
    ensures var r := HistoryOf(d, Some(DecimalString(n)));
      var repo := d.repo.value;
      && r.Ok?
      && |r.value| == n
      && (forall k :: 0 <= k < n ==>
            && r.value[k].version == repo.head - k
            && r.value[k].Summary() == Trim(FirstLine(repo.log[r.value[k].version])))
  {
    var repo := d.repo.value;
    var lo := repo.head - n + 1;
    LastNFrom(d, n);
    ValidLogReadable(repo, lo);
    var lines := HistoryLinesExact(repo.log, repo.head, lo);
  }

  /**
   * The lower bound is not clamped: asking for more than HEAD + 1 versions
   * reaches `versions/-1.txt`, which does not exist. A count beyond the
   * `int` range does not parse.
   */
  lemma HistoryBeyondFirstVersion(d: Disk, n: nat)
    requires d.repo.Some? && Valid(d.repo.value) && n > d.repo.value.head + 1
    ensures n <= IntMax ==> HistoryOf(d, Some(DecimalString(n))) == Err(MissingLogEntry(-1))
    ensures n > IntMax ==> HistoryOf(d, Some(DecimalString(n))) == Err(MalformedNumber(DecimalString(n)))
  {
    var repo := d.repo.value;
    ParseDecimalString(n);
    if n <= IntMax {
      ValidLogReadable(repo, 0);
      HistoryLinesFirstError(repo.log, repo.head, repo.head - n + 1, -1);
    }
  }

  /**
   * A negative count whose subtraction overflows wraps the lowest version
   * round to a negative one, so the history again fails on
   * `versions/-1.txt`; `-2147483648` is such a count.
   */
  lemma HistoryLimitWraps(d: Disk, text: string)
    requires d.repo.Some? && Valid(d.repo.value) && d.repo.value.head < IntMax
    requires ParseInt(text).Some? && d.repo.value.head + 1 - ParseInt(text).value > IntMax
    ensures HistoryOf(d, Some(text)) == Err(MissingLogEntry(-1))
  {
    var repo := d.repo.value;
    var lo := LowestVersion(repo.head, Some(text)).value;
    assert lo == repo.head + 1 - ParseInt(text).value - 0x1_0000_0000;
    ValidLogReadable(repo, 0);
    HistoryLinesFirstError(repo.log, repo.head, lo, -1);
  }

  lemma MostNegativeCount()
    ensures ParseInt("-" + DecimalString(0x8000_0000)) == Some(IntMin)
  {
    var s := "-" + DecimalString(0x8000_0000);
    DigitsOfDecimal(0x8000_0000);
    assert s[1..] == DecimalString(0x8000_0000);
  }

  /** The formatted lines of a history, one per version. */
  function FormatAll(lines: seq<HistoryLine>): (r: seq<string>)
    ensures |r| == |lines|
  {
    if |lines| == 0 then [] else [FormatLine(lines[0])] + FormatAll(lines[1..])
  }

  /**
   * The text `history` returns splits into exactly one formatted line per
   * listed version, in the same order, followed by nothing.
   */
  lemma {:induction false} HistoryTextLines(lines: seq<HistoryLine>)
    ensures HistoryText(lines) == Serialize(FormatAll(lines))
    ensures Pieces(HistoryText(lines)) == FormatAll(lines) + [""]
    decreases |lines|
  {
    if |lines| > 0 {
      HistoryTextLines(lines[1..]);
    }
    assert WellFormed(FormatAll(lines)) by {
      forall i | 0 <= i < |lines| ensures WellFormedName(FormatAll(lines)[i]) {
        FormatAllAt(lines, i);
      }
    }
    PiecesOfSerialize(FormatAll(lines));
  }

  lemma {:induction false} FormatAllAt(lines: seq<HistoryLine>, i: nat)
    requires i < |lines|
    ensures FormatAll(lines)[i] == FormatLine(lines[i])
    decreases i
  {
    if i > 0 {
      FormatAllAt(lines[1..], i - 1);
    }
  }

  // ---------------------------------------------------------------------
  // Log entries and version
  // ---------------------------------------------------------------------

  /**
   * What `version` and `history` show of the log entry written by add and
   * commit: a given message replaces the default text, and the line feed
   * written after it is trimmed away.
   */
  lemma LogEntryShowsMessage(f: string, msg: string)
    ensures msg != "" ==> Trim(AddMessage(f, msg)) == Trim(msg) && Trim(CommitMessage(f, msg)) == Trim(msg)
    ensures msg != "" && (forall i :: 0 <= i < |msg| ==> !IsLineBreak(msg[i])) ==>
      Trim(FirstLine(AddMessage(f, msg))) == Trim(msg) && Trim(FirstLine(CommitMessage(f, msg))) == Trim(msg)
    ensures msg == "" ==> AddMessage(f, msg) == "File added successfully. File: " + f
    ensures msg == "" ==> CommitMessage(f, msg) == "File committed successfully. File: " + f
  {
    if msg != "" {
      TrimIgnoresTrailingBlank(msg, '\n');
      if forall i :: 0 <= i < |msg| ==> !IsLineBreak(msg[i]) {
        FirstLineOfTerminated(msg);
      }
    }
  }

  /** After add, `version` reports the new HEAD with the message (or the default text). */
  lemma VersionAfterAdd(d: Disk, f: string, msg: string)
    requires ValidDisk(d) && Add(d, f, msg).Ok?
    ensures Version(Add(d, f, msg).value, None) ==
      Ok(VersionInfo(d.repo.value.head + 1,
        if msg == "" then Trim("File added successfully. File: " + f) else Trim(msg)))
  {
    LogEntryShowsMessage(f, msg);
  }

  /** `version N` answers for every version of a valid repository that fits in an `int`, with its trimmed entry. */
  lemma VersionOfEveryVersion(d: Disk, v: nat)
    requires d.repo.Some? && Valid(d.repo.value) && v <= d.repo.value.head && v <= IntMax
    ensures Version(d, Some(DecimalString(v))) == Ok(VersionInfo(v, Trim(d.repo.value.log[v])))
  {
    ParseDecimalString(v);
  }

  /** A version number beyond the `int` range does not parse, so it is an invalid version. */
  lemma VersionBeyondInt(d: Disk, v: nat)
    requires d.repo.Some? && v > IntMax
    ensures Version(d, Some(DecimalString(v))) == Err(InvalidVersion(DecimalString(v)))
  {
    ParseDecimalString(v);
  }

  /** After detach, `version` reports the fixed detach text naming the file. */
  lemma VersionAfterDetach(d: Disk, f: string)
    requires ValidDisk(d) && Detach(d, f).Ok?
    ensures Version(Detach(d, f).value, None) ==
      Ok(VersionInfo(d.repo.value.head + 1, Trim("File detached successfully. File: " + f)))
  {
    TrimIgnoresTrailingBlank("File detached successfully. File: " + f, '\n');
  }
}
