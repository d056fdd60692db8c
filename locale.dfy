/** The reconciliation of one locale directory, `process_locale` and `extract_current_missing`
    (src/main.rs:80-252). The directory is a value: what loading each of its two catalog files
    gives, and whether removing `messages-missing.po` fails. Side effects are the sequence of
    file operations performed, in order. */
module Locale {
  import opened Po
  import opened Merge
  import opened Missing

  /** What loading a catalog file gives: no file, a file that does not parse, or its entries. */
  datatype FileState = Absent | Corrupt | Parsed(entries: Catalog)

  /** `messages.po`, `messages-missing.po`, and whether `fs::remove_file` of the latter fails. */
  datatype LocaleDir = LocaleDir(main: FileState, missing: FileState, removeFails: bool)

  /** A file operation that took effect: saving the main catalog (src/main.rs:126), removing the
      missing file (src/main.rs:136, 244), saving a new missing catalog (src/main.rs:234). */
  datatype FileOp = SaveMain(entries: Catalog) | RemoveMissing | SaveMissing(entries: Catalog)

  datatype LocaleError = MainUnreadable | RemoveFailed
  datatype Outcome = Ok | Err(error: LocaleError)

  /** The operations performed on one locale and the result `process_locale` returns. */
  datatype LocaleRun = LocaleRun(ops: seq<FileOp>, outcome: Outcome)

  /** The directory after one operation. Loading a saved catalog gives it back unchanged. */
  function ApplyOp(dir: LocaleDir, op: FileOp): LocaleDir {
    match op
    case SaveMain(c) => dir.(main := Parsed(c))
    case RemoveMissing => dir.(missing := Absent)
    case SaveMissing(c) => dir.(missing := Parsed(c))
  }

  /** The directory after a sequence of operations, performed in order. */
  function Apply(dir: LocaleDir, ops: seq<FileOp>): LocaleDir
    decreases |ops|
  {
    if ops == [] then dir else Apply(ApplyOp(dir, ops[0]), ops[1..])
  }

  lemma {:induction false} ApplyAppend(dir: LocaleDir, a: seq<FileOp>, b: seq<FileOp>)
    ensures Apply(dir, a + b) == Apply(Apply(dir, a), b)
    decreases |a|
  {
    if a == [] {
      assert a + b == b;
    } else {
      assert (a + b)[0] == a[0] && (a + b)[1..] == a[1..] + b;
      ApplyAppend(ApplyOp(dir, a[0]), a[1..], b);
    }
  }

  /** Derivation and outcome: write the derived missing catalog when it has untranslated entries,
      otherwise remove an existing missing file (src/main.rs:232-249). */
  function WriteMissing(dir: LocaleDir, main: Catalog): LocaleRun {
    if |MissingEntries(main)| > 0 then LocaleRun([SaveMissing(NewMissing(main))], Ok)
    else if dir.missing.Absent? then LocaleRun([], Ok)
    else if dir.removeFails then LocaleRun([], Err(RemoveFailed))
    else LocaleRun([RemoveMissing], Ok)
  }

  /** Reference definition of the whole locale step. The merge and its save are gated on the
      presence of a completed translation, not on the number of entries updated. */
  function Reconcile(dir: LocaleDir): LocaleRun {
    match dir.main
    case Absent => LocaleRun([], Ok)
    case Corrupt => LocaleRun([], Err(MainUnreadable))
    case Parsed(main) =>
      if dir.missing.Parsed? && HasQualifying(dir.missing.entries) then
        var merged := MergeAll(main, dir.missing.entries);
        if dir.removeFails then LocaleRun([SaveMain(merged)], Err(RemoveFailed))
        else
          var rest := WriteMissing(dir.(main := Parsed(merged), missing := Absent), merged);
          LocaleRun([SaveMain(merged), RemoveMissing] + rest.ops, rest.outcome)
      else WriteMissing(dir, main)
  }

  /** The main catalog that the derivation starts from: the merged one when a completed translation
      was present, otherwise the one loaded. */
  function Base(main: Catalog, missing: FileState): Catalog {
    if missing.Parsed? && HasQualifying(missing.entries) then MergeAll(main, missing.entries) else main
  }

  /** The missing file that derivation and outcome leave behind for a main catalog. */
  function ExpectedMissing(main: Catalog): FileState {
    if |MissingEntries(main)| > 0 then Parsed(NewMissing(main)) else Absent
  }

  /** `extract_current_missing` (src/main.rs:190-252) on the current directory state. */
  method ExtractCurrentMissing(dir: LocaleDir, main: Catalog) returns (run: LocaleRun, missingCount: nat)
    ensures run == WriteMissing(dir, main)
    ensures missingCount == |MissingEntries(main)|
    ensures run.outcome == Ok ==> Apply(dir, run.ops) == dir.(missing := ExpectedMissing(main))
  {
    var entries;
    entries, missingCount := ExtractEntries(main);
    if missingCount > 0 {
      run := LocaleRun([SaveMissing(entries)], Ok);
    } else if dir.missing != Absent {
      if dir.removeFails {
        run := LocaleRun([], Err(RemoveFailed));
      } else {
        run := LocaleRun([RemoveMissing], Ok);
      }
    } else {
      run := LocaleRun([], Ok);
    }
  }

  /** `process_locale` (src/main.rs:80-188). */
  method ProcessLocale(dir: LocaleDir) returns (run: LocaleRun)
    ensures run == Reconcile(dir)
    ensures dir.main.Absent? ==> run == LocaleRun([], Ok)
    ensures dir.main.Corrupt? ==> run == LocaleRun([], Err(MainUnreadable))
  {
    if dir.main.Absent? {
      return LocaleRun([], Ok);
    }
    if dir.missing.Parsed? {
      if dir.main.Corrupt? {
        return LocaleRun([], Err(MainUnreadable));
      }
      var merged, updatedCount, hasNonEmpty := MergeBack(dir.main.entries, dir.missing.entries);
      if hasNonEmpty {
        var now := ApplyOp(dir, SaveMain(merged));
        if now.removeFails {
          return LocaleRun([SaveMain(merged)], Err(RemoveFailed));
        }
        now := ApplyOp(now, RemoveMissing);
        // The main catalog is read back from the file just saved (src/main.rs:139-141).
        var reloaded := now.main.entries;
        var rest, missingCount := ExtractCurrentMissing(now, reloaded);
        run := LocaleRun([SaveMain(merged), RemoveMissing] + rest.ops, rest.outcome);
      } else {
        var missingCount;
        run, missingCount := ExtractCurrentMissing(dir, dir.main.entries);
      }
    } else {
      if dir.main.Corrupt? {
        return LocaleRun([], Err(MainUnreadable));
      }
      var missingCount;
      run, missingCount := ExtractCurrentMissing(dir, dir.main.entries);
    }
  }

  /** A derived missing catalog holds no completed translation, so merging it back into any
      main catalog changes nothing. */
  lemma DerivedHasNothingToMerge(main: Catalog, other: Catalog)
    ensures !HasQualifying(NewMissing(main))
    ensures MergeAll(other, NewMissing(main)) == other
  {
    NewMissingShape(main);
    NoQualifyingNoChange(other, NewMissing(main));
  }

  /** Completed translations that match no entry still cause the save of the (unchanged) main
      catalog and the removal of the missing file. */
  lemma {:induction false} UnmatchedLeavesMainUnchanged(main: Catalog, missing: Catalog)
    requires MatchedCount(main, missing) == 0
    ensures MergeAll(main, missing) == main
    decreases |missing|
  {
    if missing != [] {
      UnmatchedLeavesMainUnchanged(main, missing[..|missing| - 1]);
    }
  }

  /** Derivation and outcome, when they succeed, leave the missing file derived from `main` and
      nothing else changed. */
  lemma WriteMissingResult(dir: LocaleDir, main: Catalog)
    requires WriteMissing(dir, main).outcome == Ok
    ensures Apply(dir, WriteMissing(dir, main).ops) == dir.(missing := ExpectedMissing(main))
  {
    var ops := WriteMissing(dir, main).ops;
    assert |ops| == 1 ==> ops[1..] == [];
  }

  /** What a locale step does to the files when it succeeds: the main file holds the base
      catalog and the missing file holds the catalog derived from it, or is gone when nothing
      is missing. */
  lemma ReconcileResult(dir: LocaleDir)
    requires dir.main.Parsed? && Reconcile(dir).outcome == Ok
    ensures Apply(dir, Reconcile(dir).ops)
      == LocaleDir(Parsed(Base(dir.main.entries, dir.missing)), ExpectedMissing(Base(dir.main.entries, dir.missing)), dir.removeFails)
  {
    var main := dir.main.entries;
    if dir.missing.Parsed? && HasQualifying(dir.missing.entries) {
      var merged := MergeAll(main, dir.missing.entries);
      var cleared := dir.(main := Parsed(merged), missing := Absent);
      var rest := WriteMissing(cleared, merged);
      var ops := [SaveMain(merged), RemoveMissing];
      assert Reconcile(dir) == LocaleRun(ops + rest.ops, rest.outcome);
      ApplyAppend(dir, ops, rest.ops);
      assert ops[1..] == [RemoveMissing] && ops[1..][1..] == [];
      var saved := ApplyOp(dir, SaveMain(merged));
      assert Apply(saved, [RemoveMissing]) == cleared;
      assert Apply(dir, ops) == cleared;
      WriteMissingResult(cleared, merged);
    } else {
      assert Reconcile(dir) == WriteMissing(dir, main);
      WriteMissingResult(dir, main);
    }
  }

  /** The main file is saved, and then the missing file removed, exactly when the parsed missing
      catalog holds a completed translation, whether or not it matched an entry. */
  lemma MainSavedIffQualifying(dir: LocaleDir)
    requires dir.main.Parsed?
    ensures (exists k :: 0 <= k < |Reconcile(dir).ops| && Reconcile(dir).ops[k].SaveMain?)
      <==> dir.missing.Parsed? && HasQualifying(dir.missing.entries)
    ensures dir.missing.Parsed? && HasQualifying(dir.missing.entries) ==>
      Reconcile(dir).ops[0] == SaveMain(MergeAll(dir.main.entries, dir.missing.entries))
      && (!dir.removeFails ==> Reconcile(dir).ops[1] == RemoveMissing)
  {
    var run := Reconcile(dir);
    if !(dir.missing.Parsed? && HasQualifying(dir.missing.entries)) {
      assert forall k :: 0 <= k < |run.ops| ==> !run.ops[k].SaveMain?;
    } else {
      assert run.ops[0].SaveMain?;
    }
  }

  /** A completed translation that matches nothing: the main file is rewritten with its own
      content and the missing file is removed before the derivation. */
  lemma UnmatchedStillSaves(dir: LocaleDir)
    requires dir.main.Parsed? && dir.missing.Parsed? && !dir.removeFails
    requires HasQualifying(dir.missing.entries) && MatchedCount(dir.main.entries, dir.missing.entries) == 0
    ensures Reconcile(dir).ops[..2] == [SaveMain(dir.main.entries), RemoveMissing]
  {
    UnmatchedLeavesMainUnchanged(dir.main.entries, dir.missing.entries);
  }

  /** A missing file that does not parse is not an error: the derivation runs from the main
      catalog as loaded, and the corrupt file is overwritten or removed. */
  lemma CorruptMissingNotFatal(dir: LocaleDir)
    requires dir.main.Parsed? && dir.missing.Corrupt? && !dir.removeFails
    ensures Reconcile(dir).outcome == Ok
    ensures Apply(dir, Reconcile(dir).ops) == dir.(missing := ExpectedMissing(dir.main.entries))
  {
  }

  /** Which errors end a locale step: an unreadable main catalog, and a failed removal of an
      existing missing file. After a failed removal that followed a merge, the main file has
      already been saved and the missing file is still there. */
  lemma OutcomeCases(dir: LocaleDir)
    ensures Reconcile(dir).outcome == Err(MainUnreadable) <==> dir.main.Corrupt?
    ensures Reconcile(dir).outcome == Err(RemoveFailed) ==>
      dir.main.Parsed? && dir.removeFails && !dir.missing.Absent? && Apply(dir, Reconcile(dir).ops).missing == dir.missing
    ensures Reconcile(dir).outcome == Err(RemoveFailed) ==>
      Apply(dir, Reconcile(dir).ops).main == Parsed(Base(dir.main.entries, dir.missing))
  {
  }

  /** Running the locale step again on the files it produced changes nothing: the second run
      merges nothing, saves no main catalog, and rewrites the missing file, if at all, with the
      catalog already there. */
  lemma ReconcileIdempotent(dir: LocaleDir)
    requires Reconcile(dir).outcome == Ok
    ensures var after := Apply(dir, Reconcile(dir).ops);
      Reconcile(after).outcome == Ok
      && Apply(after, Reconcile(after).ops) == after
      && forall k :: 0 <= k < |Reconcile(after).ops| ==> Reconcile(after).ops[k].SaveMissing?
  {
    if dir.main.Parsed? {
      ReconcileResult(dir);
      var base := Base(dir.main.entries, dir.missing);
      var after := Apply(dir, Reconcile(dir).ops);
      assert after.main == Parsed(base);
      if |MissingEntries(base)| > 0 {
        DerivedHasNothingToMerge(base, base);
        assert !HasQualifying(after.missing.entries);
      }
      assert Reconcile(after) == WriteMissing(after, base);
    }
  }

  /** The worked example: a translation supplied for "a" goes into main, the missing file is
      removed, and none is written again because nothing is missing any more. */
  lemma MergeExample()
    ensures var a := Entry("a", None, None);
      var b := Entry("b", None, Some("x"));
      var supplied := Entry("a", None, Some("merged"));
      Reconcile(LocaleDir(Parsed([a, b]), Parsed([supplied]), false))
        == LocaleRun([SaveMain([a.(msgstr := Some("merged")), b]), RemoveMissing], Ok)
  {
    var a := Entry("a", None, None);
    var b := Entry("b", None, Some("x"));
    var supplied := Entry("a", None, Some("merged"));
    assert Qualifies(supplied);
    assert [supplied][..0] == [];
    var merged := [a.(msgstr := Some("merged")), b];
    assert MergeAll([a, b], [supplied]) == merged;
    assert !Selected(merged[0]) && !Selected(merged[1]);
    assert merged[..1][..0] == [] && merged[..1] == [merged[0]];
    assert MissingEntries(merged) == [];
  }
}
