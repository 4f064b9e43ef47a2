/**
 * The tracked index (`.gvt/index.txt`): every tracked name followed by a line
 * feed, in insertion order. Membership is decided by Java's `split("\n")`,
 * appending writes `name + "\n"` at the end, and removal is a substring
 * `replace(name + "\n", "")` over the whole text.
 */
module Index {
  import opened Text

  // ---------------------------------------------------------------------
  // The serialised form
  // ---------------------------------------------------------------------

  /** A name that can be stored as one record of the index. */
  predicate WellFormedName(n: string) {
    n != [] && '\n' !in n
  }

  predicate WellFormed(names: seq<string>) {
    forall i :: 0 <= i < |names| ==> WellFormedName(names[i])
  }

  /** The index text holding `names`, one line-feed terminated record each. */
  function Serialize(names: seq<string>): string {
    if |names| == 0 then "" else names[0] + "\n" + Serialize(names[1..])
  }

  /** `names` with every record equal to `f` dropped, order kept. */
  function Without(names: seq<string>, f: string): (r: seq<string>)
    ensures forall x :: x in r <==> x in names && x != f
    ensures |r| <= |names|
    ensures WellFormed(names) ==> WellFormed(r)
  {
    if |names| == 0 then []
    else (if names[0] == f then [] else [names[0]]) + Without(names[1..], f)
  }

  // ---------------------------------------------------------------------
  // Java's split("\n")
  // ---------------------------------------------------------------------

  /** Every line-feed separated piece of `s`, empty pieces included. */
  function Pieces(s: string): (r: seq<string>)
    ensures 0 < |r|
    ensures forall i :: 0 <= i < |r| ==> '\n' !in r[i]
    decreases |s|
  {
    if |s| == 0 then [""]
    else
      var rest := Pieces(s[1..]);
      if s[0] == '\n' then [""] + rest else [[s[0]] + rest[0]] + rest[1..]
  }

  /** The pieces glued back together with line feeds. */
  function Join(pieces: seq<string>): string {
    if |pieces| == 0 then ""
    else if |pieces| == 1 then pieces[0]
    else pieces[0] + "\n" + Join(pieces[1..])
  }

  /** `split` with limit 0 drops the empty pieces at the end. */
  function DropTrailingEmpty(xs: seq<string>): (r: seq<string>)
    ensures |r| <= |xs| && r == xs[..|r|]
    ensures forall i :: |r| <= i < |xs| ==> xs[i] == ""
    ensures r != [] ==> r[|r| - 1] != ""
  {
    if 0 < |xs| && xs[|xs| - 1] == "" then DropTrailingEmpty(xs[..|xs| - 1]) else xs
  }

  /**
   * `s.split("\n")`: a text without any line feed comes back whole (even the
   * empty text); otherwise the pieces, minus the empty ones at the end.
   */
  function Split(s: string): (r: seq<string>)
    ensures '\n' !in s ==> r == [s]
    ensures forall i :: 0 <= i < |r| ==> '\n' !in r[i]
    ensures '\n' in s && r != [] ==> r[|r| - 1] != ""
  {
    if '\n' !in s then [s] else DropTrailingEmpty(Pieces(s))
  }

  /**
   * `isFileAlreadyTracked`: the name is one of the split records. A tracked
   * name never holds a line feed; an index without line feed tracks only itself.
   */
  predicate IsTracked(index: string, name: string)
    ensures IsTracked(index, name) ==> '\n' !in name
    ensures '\n' !in index ==> (IsTracked(index, name) <==> name == index)
  {
    name in Split(index)
  }

  /** `updateIndexFile`: the old text is kept and the name and a line feed follow it. */
  function AppendName(index: string, name: string): (r: string)
    ensures |r| == |index| + |name| + 1 && r[..|index|] == index
    ensures r[|index|..|r| - 1] == name
    ensures r[|r| - 1] == '\n'
  {
    index + name + "\n"
  }

  /**
   * `removeFileFromIndex`: every occurrence of `name + "\n"` deleted. The
   * text never grows, and a text without line feed holds no occurrence.
   */
  function RemoveName(index: string, name: string): (r: string)
    ensures |r| <= |index|
    ensures '\n' !in index ==> r == index
  {
    assert '\n' !in index ==> RemoveAll(index, name + "\n") == index by {
      if '\n' !in index {
        RemoveAllWithout(index, name + "\n", '\n');
      }
    }
    RemoveAll(index, name + "\n")
  }

  /** A text lacking some character of `target` holds no occurrence of it. */
  lemma {:induction false} RemoveAllWithout(s: string, target: string, c: char)
    requires c in target && c !in s
    ensures RemoveAll(s, target) == s
    decreases |s|
  {
    if |target| <= |s| {
      assert s[..|target|] != target by {
        var i :| 0 <= i < |target| && target[i] == c;
        assert s[..|target|][i] == s[i];
      }
      RemoveAllWithout(s[1..], target, c);
      assert [s[0]] + s[1..] == s;
    }
  }

  // ---------------------------------------------------------------------
  // Splitting
  // ---------------------------------------------------------------------

  lemma {:induction false} JoinPieces(s: string)
    ensures Join(Pieces(s)) == s
    decreases |s|
  {
    if |s| > 0 {
      var rest := Pieces(s[1..]);
      JoinPieces(s[1..]);
      if s[0] == '\n' {
        assert Pieces(s) == [""] + rest;
        assert s == "\n" + s[1..];
      } else if |rest| == 1 {
        assert s == [s[0]] + s[1..];
      } else {
        var p := Pieces(s);
        assert p[1..] == rest[1..];
        assert s == [s[0]] + rest[0] + "\n" + Join(rest[1..]);
      }
    }
  }

  lemma {:induction false} PiecesWithoutBreak(s: string)
    requires '\n' !in s
    ensures Pieces(s) == [s]
    decreases |s|
  {
    if |s| > 0 {
      PiecesWithoutBreak(s[1..]);
      assert s == [s[0]] + s[1..];
    }
  }

  /** A record terminated by a line feed is the first piece, and splitting continues after it. */
  lemma {:induction false} PiecesOfRecord(n: string, t: string)
    requires '\n' !in n
    ensures Pieces(n + "\n" + t) == [n] + Pieces(t)
    decreases |n|
  {
    var s := n + "\n" + t;
    if |n| == 0 {
      assert s[1..] == t;
    } else {
      assert s[1..] == n[1..] + "\n" + t;
      PiecesOfRecord(n[1..], t);
      assert n == [n[0]] + n[1..];
    }
  }

  /** The pieces of a serialised index: the records, then the empty text after the last line feed. */
  lemma {:induction false} PiecesOfSerialize(names: seq<string>)
    requires WellFormed(names)
    ensures Pieces(Serialize(names)) == names + [""]
    decreases |names|
  {
    if |names| > 0 {
      PiecesOfRecord(names[0], Serialize(names[1..]));
      PiecesOfSerialize(names[1..]);
      assert names == [names[0]] + names[1..];
    }
  }

  /** Dropping trailing empty pieces never changes which non-empty texts occur. */
  lemma SplitMembership(s: string, f: string)
    requires f != ""
    ensures f in Split(s) <==> f in Pieces(s)
  {
    if '\n' !in s {
      PiecesWithoutBreak(s);
    } else {
      var xs := Pieces(s);
      var r := DropTrailingEmpty(xs);
      if f in xs {
        var i :| 0 <= i < |xs| && xs[i] == f;
        assert i < |r| && r[i] == f;
      }
    }
  }

  /**
   * On a serialised index, a non-empty name is tracked exactly when it is one
   * of the records; the empty name counts as tracked exactly when the index
   * is empty, because `"".split("\n")` is `[""]`.
   */
  lemma TrackedIffListed(names: seq<string>, f: string)
    requires WellFormed(names)
    ensures f != "" ==> (IsTracked(Serialize(names), f) <==> f in names)
    ensures f == "" ==> (IsTracked(Serialize(names), f) <==> names == [])
  {
    PiecesOfSerialize(names);
    if f != "" {
      SplitMembership(Serialize(names), f);
    } else if names != [] {
      var s := Serialize(names);
      assert s[|names[0]|] == '\n';
      var xs := names + [""];
      assert xs[..|xs| - 1] == names;
      assert DropTrailingEmpty(xs) == names;
    }
  }

  // ---------------------------------------------------------------------
  // Appending and removing records
  // ---------------------------------------------------------------------

  /** Appending a record to a serialised index serialises the longer list. */
  lemma {:induction false} AppendSerialize(names: seq<string>, f: string)
    ensures AppendName(Serialize(names), f) == Serialize(names + [f])
    decreases |names|
  {
    if |names| > 0 {
      AppendSerialize(names[1..], f);
      assert (names + [f])[1..] == names[1..] + [f];
    }
  }

  /** `f` is a strict tail of `n`, so `f + "\n"` also occurs inside the record `n + "\n"`. */
  predicate IsProperSuffix(f: string, n: string) {
    |f| < |n| && n[|n| - |f|..] == f
  }

  /** No record of `names` ends with `f` without being `f`. */
  predicate NoSuffixClash(names: seq<string>, f: string) {
    forall i :: 0 <= i < |names| ==> !IsProperSuffix(f, names[i])
  }

  /** A match of `f + "\n"` at the start of a record means the record is `f`. */
  lemma RecordStartMatch(u: string, t: string, f: string)
    requires '\n' !in f && '\n' !in u
    requires |f + "\n"| <= |u + "\n" + t|
    requires (u + "\n" + t)[..|f + "\n"|] == f + "\n"
    ensures u == f
  {
    var s := u + "\n" + t;
    var k := |f + "\n"|;
    assert s == s[..k] + s[k..];
    assert s == f + "\n" + s[k..];
    PiecesOfRecord(u, t);
    PiecesOfRecord(f, s[k..]);
    assert Pieces(s)[0] == u;
    assert Pieces(f + "\n" + s[k..])[0] == f;
  }

  /** Where no occurrence starts, the scan keeps the first character and moves on. */
  lemma RemoveKeepsFirst(s: string, target: string)
    requires target != [] && |s| > 0
    requires |target| <= |s| ==> s[..|target|] != target
    ensures RemoveAll(s, target) == [s[0]] + RemoveAll(s[1..], target)
  {
    var rest := s[1..];
    if |s| < |target| {
      assert |rest| < |target|;
      assert RemoveAll(rest, target) == rest;
      assert [s[0]] + rest == s;
    }
  }

  /** A record that neither is `f` nor ends with `f` survives the scan untouched. */
  lemma {:induction false} RemoveSkipsRecord(u: string, t: string, f: string)
    requires WellFormedName(f) && '\n' !in u
    requires u != f && !IsProperSuffix(f, u)
    ensures RemoveAll(u + "\n" + t, f + "\n") == u + "\n" + RemoveAll(t, f + "\n")
    decreases |u|
  {
    var target := f + "\n";
    var s := u + "\n" + t;
    if |target| <= |s| && s[..|target|] == target {
      RecordStartMatch(u, t, f);
      assert false;
    }
    RemoveKeepsFirst(s, target);
    var tail := RemoveAll(t, target);
    if |u| == 0 {
      assert s[1..] == t;
      assert [s[0]] + tail == u + "\n" + tail;
    } else {
      assert s[1..] == u[1..] + "\n" + t;
      assert !IsProperSuffix(f, u[1..]) by {
        if |f| < |u[1..]| {
          assert u[1..][|u[1..]| - |f|..] == u[|u| - |f|..];
        }
      }
      RemoveSkipsRecord(u[1..], t, f);
      assert [s[0]] + (u[1..] + "\n" + tail) == u + "\n" + tail;
    }
  }

  /** The record `f` itself is removed whole and the scan resumes after it. */
  lemma RemoveDropsRecord(t: string, f: string)
    ensures RemoveAll(f + "\n" + t, f + "\n") == RemoveAll(t, f + "\n")
  {
    var s := f + "\n" + t;
    var target := f + "\n";
    assert s[..|target|] == target;
    assert s[|target|..] == t;
  }

  /**
   * When no other record ends with `f`, the substring replacement used by
   * detach removes exactly the records equal to `f`.
   */
  lemma {:induction false} RemoveNameSerialize(names: seq<string>, f: string)
    requires WellFormed(names) && WellFormedName(f)
    requires NoSuffixClash(names, f)
    ensures RemoveName(Serialize(names), f) == Serialize(Without(names, f))
    decreases |names|
  {
    if |names| > 0 {
      var n := names[0];
      var rest := Serialize(names[1..]);
      RemoveNameSerialize(names[1..], f);
      assert Serialize(names) == n + "\n" + rest;
      if n == f {
        RemoveDropsRecord(rest, f);
        assert Without(names, f) == Without(names[1..], f);
      } else {
        assert !IsProperSuffix(f, names[0]);
        RemoveSkipsRecord(n, rest, f);
        assert Without(names, f) == [n] + Without(names[1..], f);
      }
    }
  }

  /**
   * The replacement is not record-wise: detaching `a.txt` while `ba.txt` is
   * tracked leaves the index `"b"`, which tracks `b` and no longer tracks
   * `ba.txt`.
   */
  lemma SuffixClashCorruptsIndex()
    ensures RemoveName("ba.txt\na.txt\n", "a.txt") == "b"
    ensures IsTracked("b", "b") && !IsTracked("b", "ba.txt")
  {
    var target := "a.txt\n";
    var s := "ba.txt\na.txt\n";
    assert s[..6] != target by { assert s[0] != target[0]; }
    assert s[1..] == target + target;
    RemoveDropsRecord(target, "a.txt");
    RemoveDropsRecord("", "a.txt");
    assert "a.txt\n" + "" == target;
    assert Split("b") == ["b"];
  }

  /** A single record splits back to itself. */
  lemma SplitOneRecord(n: string)
    requires WellFormedName(n)
    ensures Split(n + "\n") == [n]
  {
    assert Serialize([n]) == n + "\n" by {
      assert [n][1..] == [];
    }
    PiecesOfSerialize([n]);
    assert Pieces(n + "\n") == [n, ""];
    assert (n + "\n")[|n|] == '\n';
    assert DropTrailingEmpty([n, ""]) == DropTrailingEmpty([n]);
  }

  /** An index holding one record tracks that record and nothing else. */
  lemma TrackedInOneRecord(n: string, m: string)
    requires WellFormedName(n)
    ensures IsTracked(AppendName("", n), m) <==> m == n
  {
    SplitOneRecord(n);
    assert AppendName("", n) == n + "\n";
  }

  /** Detaching the only record empties the index. */
  lemma RemoveOnlyRecord(n: string)
    ensures RemoveName(AppendName("", n), n) == ""
  {
    RemoveDropsRecord("", n);
    assert n + "\n" + "" == AppendName("", n);
  }

  /** The suffix clash reached from an empty index by two adds. */
  lemma ClashAfterTwoAdds()
    ensures IsTracked(AppendName(AppendName("", "ba.txt"), "a.txt"), "a.txt")
    ensures RemoveName(AppendName(AppendName("", "ba.txt"), "a.txt"), "a.txt") == "b"
  {
    var names := ["ba.txt", "a.txt"];
    assert Serialize(names) == "ba.txt\na.txt\n" by {
      assert Serialize(names[1..]) == "a.txt\n" by {
        assert names[1..][1..] == [];
      }
    }
    assert AppendName(AppendName("", "ba.txt"), "a.txt") == "ba.txt\na.txt\n";
    TrackedIffListed(names, "a.txt");
    SuffixClashCorruptsIndex();
  }

  /**
   * Detaching `a.txt` next to `ba.txt` leaves the bare record `b`; adding
   * `c` then completes it to `bc`, so a name detached earlier is tracked
   * again although nobody added it: `bc` is listed, detached, and after
   * adds of `ba.txt` and `a.txt`, a detach of `a.txt` and an add of `c`
   * it is tracked once more.
   */
  lemma DetachedNameTrackedAgain()
    ensures RemoveName(AppendName("", "bc"), "bc") == ""
    ensures !IsTracked("", "bc") && !IsTracked("", "ba.txt") && !IsTracked(AppendName("", "ba.txt"), "a.txt")
    ensures IsTracked(AppendName(AppendName("", "ba.txt"), "a.txt"), "a.txt")
    ensures RemoveName(AppendName(AppendName("", "ba.txt"), "a.txt"), "a.txt") == "b"
    ensures !IsTracked("b", "c") && AppendName("b", "c") == AppendName("", "bc")
    ensures IsTracked(AppendName("", "bc"), "bc")
  {
    RemoveOnlyRecord("bc");
    TrackedInOneRecord("ba.txt", "a.txt");
    TrackedInOneRecord("bc", "bc");
    ClashAfterTwoAdds();
  }
}
