/**
 * One session with the store, step by step: init, add, commit with a
 * message, checkout of the first version, detach, and the refusals that
 * follow. Each state of the disk is written out in full.
 */
module Scenario {
  import opened Wrappers
  import opened Text
  import opened Index
  import opened Gvt

  const Hello: map<string, Content> := map["a.txt" := "hello"]
  const World: map<string, Content> := map["a.txt" := "world"]
  const AddedText: string := "File added successfully. File: a.txt"
  const DetachedText: string := "File detached successfully. File: a.txt\n"

  /** An empty directory holding a.txt. */
  const Start: Disk := Disk(None, Hello)

  const AfterInit: Disk :=
    Disk(Some(Repo(0, "", map[0 := map[]], map[0 := InitMessage])), Hello)

  const AfterAdd: Disk :=
    Disk(Some(Repo(1, "a.txt\n",
      map[0 := map[], 1 := Hello],
      map[0 := InitMessage, 1 := AddedText])), Hello)

  /** a.txt edited to "world", then committed with the message "update". */
  const AfterCommit: Disk :=
    Disk(Some(Repo(2, "a.txt\n",
      map[0 := map[], 1 := Hello, 2 := World],
      map[0 := InitMessage, 1 := AddedText, 2 := "update\n"])), World)

  const AfterCheckout: Disk := AfterCommit.(work := Hello)

  const AfterDetach: Disk :=
    Disk(Some(Repo(3, "",
      map[0 := map[], 1 := Hello, 2 := World, 3 := map[]],
      map[0 := InitMessage, 1 := AddedText, 2 := "update\n",
          3 := DetachedText])), Hello)

  lemma InitStep()
    ensures Init(Start) == Ok(AfterInit)
  {
  }

  lemma AddStep()
    ensures Add(AfterInit, "a.txt", "") == Ok(AfterAdd)
  {
    TrackedIffListed([], "a.txt");
    assert Serialize([]) == "";
    var repo := AfterInit.repo.value;
    assert Valid(repo);
    assert CopyPrevious(repo) == map[];
    assert AppendName("", "a.txt") == "a.txt\n";
    assert AddMessage("a.txt", "") == AddedText;
  }

  /** The index holding only a.txt tracks it. */
  lemma OneNameTracked()
    ensures Serialize(["a.txt"]) == "a.txt\n"
    ensures IsTracked("a.txt\n", "a.txt")
  {
    TrackedIffListed(["a.txt"], "a.txt");
  }

  lemma AfterAddValid()
    ensures Valid(AfterAdd.repo.value)
  {
  }

  lemma AfterCheckoutValid()
    ensures Valid(AfterCheckout.repo.value)
  {
  }

  lemma CopyAfterAdd()
    ensures CopyPrevious(AfterAdd.repo.value) == Hello
  {
    AfterAddValid();
  }

  lemma CommitAccepted()
    ensures Commit(AfterAdd.(work := World), "a.txt", "update").Ok?
  {
    OneNameTracked();
  }

  lemma SnapshotsAfterCommit()
    ensures AfterAdd.repo.value.snapshots[2 := Hello["a.txt" := "world"]] == AfterCommit.repo.value.snapshots
  {
    assert Hello["a.txt" := "world"] == World;
  }

  /** The snapshot after the commit stores the edited a.txt; snapshot 1 keeps the first content. */
  lemma CommitSnapshots()
    ensures Commit(AfterAdd.(work := World), "a.txt", "update").Ok?
    ensures Commit(AfterAdd.(work := World), "a.txt", "update").value.repo.value.snapshots
      == AfterCommit.repo.value.snapshots
  {
    CommitAccepted();
    CopyAfterAdd();
    SnapshotsAfterCommit();
  }

  lemma LogAfterCommit()
    ensures AfterAdd.repo.value.log[2 := CommitMessage("a.txt", "update")] == AfterCommit.repo.value.log
  {
    assert CommitMessage("a.txt", "update") == "update\n";
  }

  /** The log entry of the commit is the message and a line feed. */
  lemma CommitLog()
    ensures Commit(AfterAdd.(work := World), "a.txt", "update").Ok?
    ensures Commit(AfterAdd.(work := World), "a.txt", "update").value.repo.value.log
      == AfterCommit.repo.value.log
  {
    CommitAccepted();
    LogAfterCommit();
  }

  lemma CommitStep()
    ensures Commit(AfterAdd.(work := World), "a.txt", "update") == Ok(AfterCommit)
  {
    CommitSnapshots();
    CommitLog();
  }

  /** version shows the commit message without the line feed stored after it. */
  lemma VersionAfterCommitStep()
    ensures Version(AfterCommit, None) == Ok(VersionInfo(2, "update"))
  {
    TrimOfTrimmed("update");
    TrimIgnoresTrailingBlank("update", '\n');
    assert "update" + ['\n'] == "update\n";
    assert Trim("update\n") == "update";
  }

  lemma CheckoutStep()
    ensures Checkout(AfterCommit, "1") == Ok(AfterCheckout)
  {
    assert DecimalString(1) == "1";
    assert AllDigits("1") && DigitsValue("1") == 1;
    assert ParseInt("1") == Some(1);
    assert AfterCommit.work + Hello == Hello;
  }

  /** Detaching the only tracked name empties the index. */
  lemma DetachIndex()
    ensures Detach(AfterCheckout, "a.txt").Ok?
    ensures Detach(AfterCheckout, "a.txt").value.repo.value.index == ""
  {
    OneNameTracked();
    RemoveNameSerialize(["a.txt"], "a.txt");
    assert Without(["a.txt"], "a.txt") == [];
  }

  lemma CopyAfterCheckout()
    ensures CopyPrevious(AfterCheckout.repo.value) == World
  {
    AfterCheckoutValid();
  }

  lemma SnapshotsAfterDetach()
    ensures AfterCheckout.repo.value.snapshots[3 := World - {"a.txt"}] == AfterDetach.repo.value.snapshots
  {
    assert World - {"a.txt"} == map[];
  }

  /** The snapshot after the detach no longer holds a.txt. */
  lemma DetachSnapshots()
    ensures Detach(AfterCheckout, "a.txt").Ok?
    ensures Detach(AfterCheckout, "a.txt").value.repo.value.snapshots
      == AfterDetach.repo.value.snapshots
  {
    OneNameTracked();
    CopyAfterCheckout();
    SnapshotsAfterDetach();
  }

  lemma DetachAccepted()
    ensures Detach(AfterCheckout, "a.txt").Ok?
  {
    OneNameTracked();
  }

  lemma LogAfterDetach()
    ensures AfterCheckout.repo.value.log[3 := DetachMessage("a.txt")] == AfterDetach.repo.value.log
  {
    assert DetachMessage("a.txt") == DetachedText;
  }

  /** The log entry of the detach names the file. */
  lemma DetachLog()
    ensures Detach(AfterCheckout, "a.txt").Ok?
    ensures Detach(AfterCheckout, "a.txt").value.repo.value.log == AfterDetach.repo.value.log
  {
    DetachAccepted();
    LogAfterDetach();
  }

  lemma DetachStep()
    ensures Detach(AfterCheckout, "a.txt") == Ok(AfterDetach)
  {
    DetachIndex();
    DetachSnapshots();
    DetachLog();
  }

  /** After the detach a.txt cannot be committed, and neither a missing file nor version 4 is accepted. */
  lemma RefusalsAfterDetach()
    ensures Commit(AfterDetach, "a.txt", "x") == Err(NotTracked("a.txt"))
    ensures Add(AfterDetach, "missing.txt", "") == Err(FileNotFound("missing.txt"))
    ensures Checkout(AfterDetach, "4") == Err(InvalidVersion("4"))
  {
    TrackedIffListed([], "a.txt");
    TrackedIffListed([], "missing.txt");
    assert Serialize([]) == "";
    assert ParseInt("4") == Some(4);
  }
}
