/** The walk over the locale directories and the tally of their results,
    `extract_missing_translations` (src/main.rs:36-78). */
module Walker {
  import opened Po
  import opened Locale

  /** One item of the base directory listing: an item the listing failed to produce, or a
      path with whether it is a directory, its file name when that is valid UTF-8, and the
      state of the locale files under it. */
  datatype DirEntry = Unreadable | Item(isDir: bool, name: Option<string>, locale: LocaleDir)

  /** The base directory: missing, not listable, or its listing in iteration order. */
  datatype BaseDir = NotFound | Unlistable | Listing(items: seq<DirEntry>)

  datatype RunError = BaseNotFound | ListFailed | LocaleErrors(count: nat)
  datatype RunResult = Completed | Failed(error: RunError)

  /** The items handed to `process_locale` (src/main.rs:51-52). */
  predicate IsLocale(d: DirEntry) {
    d.Item? && d.isDir && d.name.Some?
  }

  /** How many items are walked before the listing fails, or all of them. */
  function ScanLength(items: seq<DirEntry>): (n: nat)
    ensures n <= |items|
    ensures forall j :: 0 <= j < n ==> !items[j].Unreadable?
    ensures n < |items| ==> items[n].Unreadable?
  {
    if items == [] || items[0].Unreadable? then 0 else 1 + ScanLength(items[1..])
  }

  /** The result of every locale among `items`, in listing order. */
  function LocaleRuns(items: seq<DirEntry>): seq<LocaleRun>
    decreases |items|
  {
    if items == [] then []
    else
      var last := items[|items| - 1];
      LocaleRuns(items[..|items| - 1]) + (if IsLocale(last) then [Reconcile(last.locale)] else [])
  }

  /** The `processed` counter: locales that returned `Ok`. */
  function OkCount(runs: seq<LocaleRun>): nat
    decreases |runs|
  {
    if runs == [] then 0
    else OkCount(runs[..|runs| - 1]) + (if runs[|runs| - 1].outcome == Ok then 1 else 0)
  }

  /** The `errors` counter: locales that returned an error. */
  function ErrCount(runs: seq<LocaleRun>): nat
    decreases |runs|
  {
    if runs == [] then 0
    else ErrCount(runs[..|runs| - 1]) + (if runs[|runs| - 1].outcome.Err? then 1 else 0)
  }

  /** Every locale walked is counted exactly once, as processed or as an error. */
  lemma {:induction false} TallyTotal(runs: seq<LocaleRun>)
    ensures OkCount(runs) + ErrCount(runs) == |runs|
    decreases |runs|
  {
    if runs != [] {
      TallyTotal(runs[..|runs| - 1]);
    }
  }

  /** The error counter is zero exactly when every locale returned `Ok`. */
  lemma {:induction false} NoErrorsIffAllOk(runs: seq<LocaleRun>)
    ensures ErrCount(runs) == 0 <==> forall k :: 0 <= k < |runs| ==> runs[k].outcome == Ok
    decreases |runs|
  {
    if runs != [] {
      var init := runs[..|runs| - 1];
      NoErrorsIffAllOk(init);
      assert forall k :: 0 <= k < |init| ==> init[k] == runs[k];
    }
  }

  /** A locale directory without `messages.po` counts as processed and not as an error. */
  lemma SkippedLocaleIsProcessed(runs: seq<LocaleRun>, dir: LocaleDir)
    requires dir.main.Absent?
    ensures OkCount(runs + [Reconcile(dir)]) == OkCount(runs) + 1
    ensures ErrCount(runs + [Reconcile(dir)]) == ErrCount(runs)
  {
    assert (runs + [Reconcile(dir)])[..|runs|] == runs;
  }

  /** One more locale result: how the two counters grow. */
  lemma TallyStep(runs: seq<LocaleRun>, run: LocaleRun)
    ensures OkCount(runs + [run]) == OkCount(runs) + (if run.outcome == Ok then 1 else 0)
    ensures ErrCount(runs + [run]) == ErrCount(runs) + (if run.outcome.Err? then 1 else 0)
  {
    assert (runs + [run])[..|runs|] == runs;
  }

  /** The loop of src/main.rs:42-64: walk the listing in order until it fails, reconcile
      every directory with a UTF-8 name, and count successes and failures. A failed locale
      does not stop the walk. `walked` is how many items were taken from the listing. */
  method WalkListing(items: seq<DirEntry>) returns (runs: seq<LocaleRun>, processed: nat, errors: nat, walked: nat)
    ensures walked == ScanLength(items)
    ensures runs == LocaleRuns(items[..walked])
    ensures processed == OkCount(runs) && errors == ErrCount(runs)
  {
    runs, processed, errors := [], 0, 0;
    var i := 0;
    while i < |items|
      invariant 0 <= i <= |items|
      invariant forall j :: 0 <= j < i ==> !items[j].Unreadable?
      invariant runs == LocaleRuns(items[..i])
      invariant processed == OkCount(runs) && errors == ErrCount(runs)
    {
      var item := items[i];
      if item.Unreadable? {
        return runs, processed, errors, i;
      }
      assert items[..i + 1][..i] == items[..i];
      if item.isDir && item.name.Some? {
        var run := ProcessLocale(item.locale);
        TallyStep(runs, run);
        runs := runs + [run];
        if run.outcome == Ok {
          processed := processed + 1;
        } else {
          errors := errors + 1;
        }
      }
      i := i + 1;
    }
    return runs, processed, errors, i;
  }

  /** `extract_missing_translations`: a missing base directory and a failed listing are run
      errors, and otherwise the run fails exactly when some locale failed. */
  method ExtractMissingTranslations(base: BaseDir) returns (runs: seq<LocaleRun>, processed: nat, errors: nat, result: RunResult)
    ensures base.NotFound? ==> runs == [] && result == Failed(BaseNotFound)
    ensures base.Unlistable? ==> runs == [] && result == Failed(ListFailed)
    ensures base.Listing? ==>
      var n := ScanLength(base.items);
      runs == LocaleRuns(base.items[..n])
      && processed == OkCount(runs) && errors == ErrCount(runs)
      && result == (if n < |base.items| then Failed(ListFailed)
                    else if errors > 0 then Failed(LocaleErrors(errors))
                    else Completed)
  {
    match base
    case NotFound =>
      return [], 0, 0, Failed(BaseNotFound);
    case Unlistable =>
      return [], 0, 0, Failed(ListFailed);
    case Listing(items) =>
      var walked;
      runs, processed, errors, walked := WalkListing(items);
      if walked < |items| {
        result := Failed(ListFailed);
      } else if errors > 0 {
        result := Failed(LocaleErrors(errors));
      } else {
        result := Completed;
      }
  }

  /** The run succeeds exactly when the base directory could be listed completely and every
      locale in it was reconciled without error. */
  lemma RunSucceedsIffNoErrors(items: seq<DirEntry>)
    ensures var runs := LocaleRuns(items[..ScanLength(items)]);
      (ScanLength(items) == |items| && ErrCount(runs) == 0)
      <==> (forall j :: 0 <= j < |items| ==> !items[j].Unreadable?)
           && forall k :: 0 <= k < |runs| ==> runs[k].outcome == Ok
  {
    NoErrorsIffAllOk(LocaleRuns(items[..ScanLength(items)]));
  }
}
