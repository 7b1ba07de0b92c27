/**
 * The collision-resolving commit at the end of `write`: the directory is
 * an abstract set of entry names, the candidates are the chosen file name
 * plus a counter suffix with the extension set to "md", and the scratch
 * file is renamed to the first candidate that does not exist.
 */
module Commit {
  import opened Wrappers
  import opened Decimal
  import opened Heading
  import opened Negotiate

  /** Index of the last '.' of `name`, if it has one. */
  function LastDot(name: string): (r: Option<nat>)
    ensures r.None? <==> forall k :: 0 <= k < |name| ==> name[k] != '.'
    ensures r.Some? ==> r.value < |name| && name[r.value] == '.' &&
                        forall k :: r.value < k < |name| ==> name[k] != '.'
  {
    if name == [] then None
    else if name[|name| - 1] == '.' then Some(|name| - 1)
    else LastDot(name[..|name| - 1])
  }

  /**
   * `Path::file_stem` of a file name: everything before the last '.',
   * unless there is no dot, the only dot that counts is the leading one,
   * or the name is "..".
   */
  function FileStem(name: string): (stem: string)
    ensures |stem| <= |name| && stem == name[..|stem|]
    ensures stem != name ==> name[|stem|] == '.' &&
                             forall k :: |stem| < k < |name| ==> name[k] != '.'
    ensures stem == name <==> (name == ".." || LastDot(name).None? || LastDot(name).value == 0)
  {
    if name == ".." then name
    else match LastDot(name)
      case None => name
      case Some(d) => if d == 0 then name else name[..d]
  }

  /**
   * `set_extension("md")` applied to a file name: the name up to its
   * extension, then ".md".
   */
  function WithExtension(name: string): (r: string)
    ensures |r| >= 3 && r[|r| - 3..] == ".md"
    ensures |r| - 3 <= |name| && r[..|r| - 3] == name[..|r| - 3]
  {
    FileStem(name) + ".md"
  }

  /** Setting the extension a second time changes nothing. */
  lemma WithExtensionIdempotent(name: string)
    requires name != []
    ensures WithExtension(WithExtension(name)) == WithExtension(name)
  {
    var stem := FileStem(name);
    var once := stem + ".md";
    assert stem != [] by {
      if LastDot(name).Some? && LastDot(name).value > 0 && name != ".." {
        assert |stem| == LastDot(name).value;
      }
    }
    assert once[|stem|] == '.';
    assert LastDot(once) == Some(|stem|) by {
      assert forall k :: |stem| < k < |once| ==> once[k] != '.';
    }
    assert |once| >= 3;
    assert once[..|stem|] == stem;
  }

  /** The destination the source computes for counter `i`. */
  function CandidateAsWritten(filename: string, i: nat): (r: string)
    ensures |r| >= 3 && r[|r| - 3..] == ".md"
    ensures i == 0 ==> r == WithExtension(filename)
  {
    assert filename + Suffix(0) == filename;
    WithExtension(filename + Suffix(i))
  }

  /**
   * The destination for counter `i`, with the counter kept in the stem:
   * for counter 0 it is the source's destination for every name.
   */
  function Candidate(filename: string, i: nat): (r: string)
    ensures |r| >= 3 && r[|r| - 3..] == ".md"
    ensures i == 0 ==> r == CandidateAsWritten(filename, 0)
  {
    FileStem(filename) + Suffix(i) + ".md"
  }

  /** No '.' after the first character: what `set_extension` would cut is only the added ".md". */
  predicate DotFree(filename: string)
  {
    forall k :: 0 < k < |filename| ==> filename[k] != '.'
  }

  /** For a dot-free name both candidate definitions agree, for every counter. */
  lemma CandidateAsWrittenWhenDotFree(filename: string, i: nat)
    requires DotFree(filename)
    ensures CandidateAsWritten(filename, i) == Candidate(filename, i)
    ensures Candidate(filename, i) == filename + Suffix(i) + ".md"
  {
    var name := filename + Suffix(i);
    assert FileStem(filename) == filename by {
      if filename == ".." { assert filename[1] == '.'; }
    }
    forall k | 0 < k < |name| ensures name[k] != '.' {
      if k >= |filename| { assert name[k] == Suffix(i)[k - |filename|]; }
    }
    assert name != ".." by {
      if |name| >= 2 { assert name[1] != '.'; }
    }
  }

  /**
   * As written, a name whose last dot is not its first character loses the
   * counter together with its own extension: every counter gives the same
   * destination.
   */
  lemma CandidateAsWrittenIgnoresCounter(filename: string, i: nat)
    requires filename != ".."
    requires LastDot(filename).Some? && LastDot(filename).value > 0
    ensures CandidateAsWritten(filename, i) == CandidateAsWritten(filename, 0)
  {
    var d := LastDot(filename).value;
    var name := filename + Suffix(i);
    LastDotIgnoresDigits(filename, Suffix(i));
    assert name[..d] == filename[..d];
    assert filename + Suffix(0) == filename;
  }

  /** Appending digits does not move the last dot. */
  lemma LastDotIgnoresDigits(name: string, digits: string)
    requires forall k :: 0 <= k < |digits| ==> IsDigit(digits[k])
    ensures LastDot(name + digits) == LastDot(name)
  {
    var longer := name + digits;
    forall k | |name| <= k < |longer| ensures longer[k] != '.' {
      assert longer[k] == digits[k - |name|];
    }
    match LastDot(name)
    case None =>
      forall k | 0 <= k < |longer| ensures longer[k] != '.' {
        if k < |name| { assert longer[k] == name[k]; }
      }
    case Some(d) =>
      assert longer[d] == '.';
      forall k | d < k < |longer| ensures longer[k] != '.' {
        if k < |name| { assert longer[k] == name[k]; }
      }
  }

  /**
   * Counterexample: with "notes.md" in the directory and "notes.v2" typed
   * after a "y", no counter ever gives a free destination, so the loop of
   * `write` never ends.
   */
  lemma DottedNameNeverFindsFreeCandidate(i: nat)
    ensures CandidateAsWritten("notes.v2", i) in {"notes.md"}
  {
    var filename := "notes.v2";
    assert LastDot(filename) == Some(5) by {
      assert filename[..7] == "notes.v";
      assert filename[..6] == "notes.";
    }
    CandidateAsWrittenIgnoresCounter(filename, i);
    assert filename + Suffix(0) == filename;
    assert FileStem(filename) == "notes";
    assert CandidateAsWritten(filename, 0) == "notes.md";
  }

  /** Different counters give different destinations. */
  lemma CandidateInjective(filename: string, i: nat, j: nat)
    requires Candidate(filename, i) == Candidate(filename, j)
    ensures i == j
  {
    var stem := FileStem(filename);
    var a, b := Candidate(filename, i), Candidate(filename, j);
    assert |Suffix(i)| == |Suffix(j)|;
    assert Suffix(i) == a[|stem|..|stem| + |Suffix(i)|];
    assert Suffix(j) == b[|stem|..|stem| + |Suffix(j)|];
    SuffixInjective(i, j);
  }

  /** The destinations tried before counter `n`. */
  function CandidatesBelow(filename: string, n: nat): set<string>
  {
    if n == 0 then {} else CandidatesBelow(filename, n - 1) + {Candidate(filename, n - 1)}
  }

  /** A later counter's destination is not among the earlier ones. */
  lemma {:induction false} LaterCandidateIsNew(filename: string, i: nat, n: nat)
    requires n <= i
    ensures Candidate(filename, i) !in CandidatesBelow(filename, n)
  {
    if n > 0 {
      LaterCandidateIsNew(filename, i, n - 1);
      if Candidate(filename, n - 1) == Candidate(filename, i) {
        CandidateInjective(filename, n - 1, i);
      }
    }
  }

  lemma {:induction false} CandidatesBelowCount(filename: string, n: nat)
    ensures |CandidatesBelow(filename, n)| == n
  {
    if n > 0 {
      CandidatesBelowCount(filename, n - 1);
      LaterCandidateIsNew(filename, n - 1, n - 1);
    }
  }

  /** Counter `i` is the least one whose destination is not in `names`. */
  predicate IsLeastFree(names: set<string>, filename: string, i: nat)
  {
    Candidate(filename, i) !in names &&
    forall j :: 0 <= j < i ==> Candidate(filename, j) in names
  }

  lemma {:induction false} CandidatesBelowTaken(names: set<string>, filename: string, n: nat)
    requires forall j :: 0 <= j < n ==> Candidate(filename, j) in names
    ensures CandidatesBelow(filename, n) <= names
  {
    if n > 0 {
      CandidatesBelowTaken(names, filename, n - 1);
    }
  }

  /** A least free counter never exceeds the number of names already taken. */
  lemma LeastFreeBounded(names: set<string>, filename: string, i: nat)
    requires forall j :: 0 <= j < i ==> Candidate(filename, j) in names
    ensures i <= |names|
  {
    CandidatesBelowCount(filename, i);
    CandidatesBelowTaken(names, filename, i);
    var below := CandidatesBelow(filename, i);
    assert names == below + (names - below);
  }

  /** An empty directory takes the bare name; with base, base1 and base2 taken it is base3. */
  lemma CommitExamples(i: nat)
    ensures IsLeastFree({}, "base", 0) && Candidate("base", 0) == "base.md"
    ensures IsLeastFree({"base.md", "base1.md", "base2.md"}, "base", i) <==> i == 3
    ensures Candidate("base", 3) == "base3.md"
  {
    var names := {"base.md", "base1.md", "base2.md"};
    assert FileStem("base") == "base";
    assert Candidate("base", 0) == "base.md";
    assert Candidate("base", 1) == "base1.md";
    assert Candidate("base", 2) == "base2.md";
    assert Candidate("base", 3) == "base3.md";
    if i > 3 {
      assert !IsLeastFree(names, "base", i) by {
        assert Candidate("base", 3) !in names;
      }
    } else if i < 3 {
      assert i == 0 || i == 1 || i == 2;
    }
  }

  datatype WriteError = PromptError | InputExhausted

  datatype WriteOutcome = Committed(suffix: nat, dest: string) | Aborted(error: WriteError)

  /** The collection directory, as the set of names of its entries. */
  class Garden {
    var entries: set<string>

    constructor (names: set<string>)
      ensures entries == names
    {
      entries := names;
    }

    /**
     * The commit loop of `write`: try counters 0, 1, 2, ... until the
     * candidate does not exist, then rename the scratch file to it. The
     * rename is the only change, and fails when the scratch file is gone.
     */
    method Commit(scratch: string, filename: string) returns (suffix: nat, renamed: bool)
      modifies this
      ensures IsLeastFree(old(entries), filename, suffix)
      ensures suffix <= |old(entries)|
      ensures renamed == (scratch in old(entries))
      ensures entries == if renamed then old(entries) - {scratch} + {Candidate(filename, suffix)}
                         else old(entries)
    {
      var i: nat := 0;
      while Candidate(filename, i) in entries
        invariant entries == old(entries)
        invariant forall j :: 0 <= j < i ==> Candidate(filename, j) in entries
        invariant i <= |entries|
        decreases |entries| - i
      {
        LeastFreeBounded(entries, filename, i + 1);
        i := i + 1;
      }
      suffix := i;
      renamed := scratch in entries;
      if renamed {
        entries := entries - {scratch} + {Candidate(filename, i)};
      }
    }

    /**
     * `write` after the edit session: the edited text is saved under the
     * scratch name in the directory, the file name is negotiated over the
     * reply script, and the scratch file is committed. A negotiation that
     * fails or does not finish leaves the scratch file in place.
     */
    method Write(edited: string, title: Option<string>, script: seq<Reply>,
                 slugify: string -> string, scratch: string) returns (r: WriteOutcome)
      modifies this
      ensures var n := ChosenFilename(edited, title, script, slugify);
              match n
              case Chosen(name, _) =>
                r.Committed? && IsLeastFree(old(entries) + {scratch}, name, r.suffix) &&
                r.dest == Candidate(name, r.suffix) &&
                entries == old(entries) - {scratch} + {r.dest}
              case PromptFailed(_) =>
                r == Aborted(PromptError) && entries == old(entries) + {scratch}
              case OutOfInput =>
                r == Aborted(InputExhausted) && entries == old(entries) + {scratch}
    {
      entries := entries + {scratch};
      var n := ChooseFilename(edited, title, script, slugify);
      match n {
        case Chosen(name, _) =>
          var suffix, renamed := Commit(scratch, name);
          assert renamed;
          r := Committed(suffix, Candidate(name, suffix));
        case PromptFailed(_) =>
          r := Aborted(PromptError);
        case OutOfInput =>
          r := Aborted(InputExhausted);
      }
    }
  }
}
