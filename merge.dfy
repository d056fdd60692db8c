/** Merge-back: completed translations found in `messages-missing.po` are copied into the first
    entry of `messages.po` with the same (msgid, msgctxt) (src/main.rs:97-122). */
module Merge {
  import opened Po

  /** A missing-catalog entry that carries a completed translation: not the header, and a
      translation that is present and not blank after trimming (src/main.rs:103-109). */
  predicate Qualifies(e: Entry) {
    !IsHeader(e) && e.msgstr.Some? && !IsBlank(e.msgstr.value)
  }

  /** Missing entry `e` writes its translation into entry `i` of `main`. */
  predicate Targets(main: Catalog, e: Entry, i: nat) {
    Qualifies(e) && FindKey(main, e.msgid, e.msgctxt) == Some(i)
  }

  /** The effect of one missing entry on the main catalog (src/main.rs:101-121). */
  function MergeEntry(main: Catalog, e: Entry): (r: Catalog)
    ensures SameKeys(r, main)
    ensures forall i :: 0 <= i < |main| && !Targets(main, e, i) ==> r[i] == main[i]
    ensures forall i :: 0 <= i < |main| && Targets(main, e, i) ==> r[i] == main[i].(msgstr := e.msgstr)
  {
    if Qualifies(e) then
      match FindKey(main, e.msgid, e.msgctxt)
      case None => main
      case Some(i) => main[i := main[i].(msgstr := Some(e.msgstr.value))]
    else main
  }

  /** The main catalog after the whole missing catalog has been walked in order. */
  function MergeAll(main: Catalog, missing: Catalog): Catalog
    decreases |missing|
  {
    if missing == [] then main
    else MergeEntry(MergeAll(main, missing[..|missing| - 1]), missing[|missing| - 1])
  }

  /** The last missing entry (in missing-catalog order) that writes into entry `i` of `main`. */
  function LastWriter(main: Catalog, missing: Catalog, i: nat): (r: Option<nat>)
    ensures r.Some? ==> r.value < |missing| && Targets(main, missing[r.value], i)
    ensures r.Some? ==> forall k :: r.value < k < |missing| ==> !Targets(main, missing[k], i)
    ensures r.None? ==> forall k :: 0 <= k < |missing| ==> !Targets(main, missing[k], i)
    decreases |missing|
  {
    if missing == [] then None
    else if Targets(main, missing[|missing| - 1], i) then Some(|missing| - 1)
    else
      var init := missing[..|missing| - 1];
      assert forall k :: 0 <= k < |init| ==> init[k] == missing[k];
      LastWriter(main, init, i)
  }

  /** The completed translations of the missing catalog, in order. */
  function Qualifying(missing: Catalog): (r: Catalog)
    decreases |missing|
  {
    if missing == [] then []
    else Qualifying(missing[..|missing| - 1]) + (if Qualifies(missing[|missing| - 1]) then [missing[|missing| - 1]] else [])
  }

  /** Some entry of the missing catalog carries a completed translation. */
  predicate HasQualifying(missing: Catalog) {
    exists k :: 0 <= k < |missing| && Qualifies(missing[k])
  }

  /** How many completed translations found an entry of `main` to go into. */
  function MatchedCount(main: Catalog, missing: Catalog): nat
    decreases |missing|
  {
    if missing == [] then 0
    else
      var e := missing[|missing| - 1];
      MatchedCount(main, missing[..|missing| - 1])
        + (if Qualifies(e) && FindKey(main, e.msgid, e.msgctxt).Some? then 1 else 0)
  }

  /** Merging keeps the length of the main catalog and the identity of every entry. */
  lemma {:induction false} MergeAllKeepsKeys(main: Catalog, missing: Catalog)
    ensures SameKeys(MergeAll(main, missing), main)
    decreases |missing|
  {
    if missing != [] {
      MergeAllKeepsKeys(main, missing[..|missing| - 1]);
    }
  }

  /** Entry `i` after the merge: unchanged when no completed translation targets it, and
      otherwise it carries, verbatim, the translation of the LAST missing entry targeting it,
      all its other fields unchanged. */
  lemma {:induction false} MergeAllAt(main: Catalog, missing: Catalog, i: nat)
    requires i < |main|
    ensures |MergeAll(main, missing)| == |main|
    ensures MergeAll(main, missing)[i] ==
      match LastWriter(main, missing, i)
      case None => main[i]
      case Some(j) => main[i].(msgstr := missing[j].msgstr)
    decreases |missing|
  {
    MergeAllKeepsKeys(main, missing);
    if missing != [] {
      var init, e := missing[..|missing| - 1], missing[|missing| - 1];
      MergeAllAt(main, init, i);
      MergeAllKeepsKeys(main, init);
      FindKeyOnKeysOnly(MergeAll(main, init), main, e.msgid, e.msgctxt);
      assert Targets(MergeAll(main, init), e, i) == Targets(main, e, i);
    }
  }

  /** Only the first entry carrying a given identity can change: later duplicates keep their
      translation. */
  lemma LaterDuplicateUntouched(main: Catalog, missing: Catalog, j: nat, i: nat)
    requires j < i < |main| && HasKey(main[i], main[j].msgid, main[j].msgctxt)
    ensures |MergeAll(main, missing)| == |main| && MergeAll(main, missing)[i] == main[i]
  {
    MergeAllAt(main, missing, i);
    var w := LastWriter(main, missing, i);
    if w.Some? {
      var e := missing[w.value];
      assert HasKey(main[j], e.msgid, e.msgctxt);
    }
  }

  /** The header of the main catalog is never a merge target, because header entries of the
      missing catalog are skipped and every other entry has a non-empty msgid. */
  lemma HeaderUntouched(main: Catalog, missing: Catalog, i: nat)
    requires i < |main| && IsHeader(main[i])
    ensures |MergeAll(main, missing)| == |main| && MergeAll(main, missing)[i] == main[i]
  {
    MergeAllAt(main, missing, i);
  }

  /** Header entries, absent and blank translations make no difference to the merge: merging
      the completed translations alone gives the same main catalog. */
  lemma {:induction false} MergeOnlyQualifying(main: Catalog, missing: Catalog)
    ensures MergeAll(main, Qualifying(missing)) == MergeAll(main, missing)
    decreases |missing|
  {
    if missing != [] {
      var init, e := missing[..|missing| - 1], missing[|missing| - 1];
      MergeOnlyQualifying(main, init);
      if Qualifies(e) {
        var q := Qualifying(init) + [e];
        assert Qualifying(missing) == q;
        assert q[..|q| - 1] == Qualifying(init) && q[|q| - 1] == e;
        assert MergeAll(main, q) == MergeEntry(MergeAll(main, Qualifying(init)), e);
      } else {
        assert Qualifying(missing) == Qualifying(init);
        assert MergeAll(main, missing) == MergeAll(main, init);
      }
    }
  }

  /** Some entry qualifies exactly when the list of completed translations is non-empty. */
  lemma {:induction false} HasQualifyingIffNonEmpty(missing: Catalog)
    ensures HasQualifying(missing) <==> Qualifying(missing) != []
    decreases |missing|
  {
    if missing != [] {
      var init := missing[..|missing| - 1];
      HasQualifyingIffNonEmpty(init);
      if HasQualifying(init) {
        var k :| 0 <= k < |init| && Qualifies(init[k]);
        assert missing[k] == init[k];
      }
      if HasQualifying(missing) && !Qualifies(missing[|missing| - 1]) {
        var k :| 0 <= k < |missing| && Qualifies(missing[k]);
        assert init[k] == missing[k];
      }
    }
  }

  /** A missing catalog without completed translations leaves the main catalog as it is. */
  lemma NoQualifyingNoChange(main: Catalog, missing: Catalog)
    requires !HasQualifying(missing)
    ensures MergeAll(main, missing) == main
  {
    HasQualifyingIffNonEmpty(missing);
    MergeOnlyQualifying(main, missing);
  }

  /** The update counter never exceeds the number of completed translations. */
  lemma {:induction false} MatchedAtMostQualifying(main: Catalog, missing: Catalog)
    ensures MatchedCount(main, missing) <= |Qualifying(missing)|
    decreases |missing|
  {
    if missing != [] {
      MatchedAtMostQualifying(main, missing[..|missing| - 1]);
    }
  }

  /** One more missing entry: how the merged catalog and the counter grow. */
  lemma MergeStep(main: Catalog, missing: Catalog, k: nat)
    requires k < |missing|
    ensures MergeAll(main, missing[..k + 1]) == MergeEntry(MergeAll(main, missing[..k]), missing[k])
    ensures MatchedCount(main, missing[..k + 1]) == MatchedCount(main, missing[..k])
      + (if Qualifies(missing[k]) && FindKey(main, missing[k].msgid, missing[k].msgctxt).Some? then 1 else 0)
    ensures Qualifying(missing[..k + 1]) == Qualifying(missing[..k]) + (if Qualifies(missing[k]) then [missing[k]] else [])
  {
    assert missing[..k + 1][..k] == missing[..k];
  }

  /** The merge-back loop of src/main.rs:97-122 over the loaded main catalog. */
  method MergeBack(main: Catalog, missing: Catalog) returns (merged: Catalog, updatedCount: nat, hasNonEmpty: bool)
    ensures merged == MergeAll(main, missing)
    ensures updatedCount == MatchedCount(main, missing)
    ensures hasNonEmpty == HasQualifying(missing)
  {
    merged, updatedCount, hasNonEmpty := main, 0, false;
    var k := 0;
    while k < |missing|
      invariant 0 <= k <= |missing|
      invariant merged == MergeAll(main, missing[..k])
      invariant SameKeys(merged, main)
      invariant updatedCount == MatchedCount(main, missing[..k])
      invariant hasNonEmpty == (Qualifying(missing[..k]) != [])
    {
      var e := missing[k];
      MergeStep(main, missing, k);
      MergeAllKeepsKeys(main, missing[..k + 1]);
      FindKeyOnKeysOnly(merged, main, e.msgid, e.msgctxt);
      if e.msgid != [] && e.msgstr.Some? {
        var s := e.msgstr.value;
        var blank := TrimsToEmpty(s);
        if !blank {
          hasNonEmpty := true;
          var found := FindEntry(merged, e.msgid, e.msgctxt);
          if found.Some? {
            merged := merged[found.value := merged[found.value].(msgstr := Some(s))];
            updatedCount := updatedCount + 1;
          }
        }
      }
      k := k + 1;
    }
    assert missing[..k] == missing;
    HasQualifyingIffNonEmpty(missing);
  }
}
