# po-missing reconciler, modelled in Dafny

`po-missing` keeps two gettext catalogs in step for every locale directory. `messages.po`
is the main catalog. `messages-missing.po` is derived from it and holds the entries that are
still untranslated. For each locale the tool does three things, in order:

1. **Merge-back.** Translators fill in the missing file. Any completed translation found there
   is copied into the first main entry with the same `(msgid, msgctxt)`. The main file is then
   saved, the missing file removed and the main file re-read.
2. **Derivation.** A new missing catalog is built: the first header entry of main (the one with
   an empty `msgid`), then every non-header entry whose `msgstr` is absent or blank, in main
   order.
3. **Outcome.** The new catalog is written when it has at least one untranslated entry.
   Otherwise an existing missing file is removed.

A walker runs this for every sub-directory of the base directory and counts the locales that
succeeded and the ones that failed.

Files and modules:

- `po.dfy` (module `Po`): the entry record, `str::trim` and blankness, and the two first-match
  searches (`iter().find`), each as a spec function plus a loop.
- `merge.dfy` (module `Merge`): merge-back. `MergeAll` folds `MergeEntry` over the missing
  catalog in order. The method `MergeBack` is the source's loop, with its `updated_count` and
  `has_non_empty_translations` flags.
- `missing.dfy` (module `Missing`): derivation. `NewMissing` is `HeaderPart ++ MissingEntries`,
  and the method `PushMissing` is the source's push loop with `missing_count`.
- `locale.dfy` (module `Locale`): `process_locale` and `extract_current_missing`.
  - A locale directory is a value `LocaleDir`. It records what loading each of the two files
    gives (`Absent`, `Corrupt` or `Parsed(entries)`) and whether `fs::remove_file` fails.
  - Side effects are the list of file operations that took effect (`SaveMain`,
    `RemoveMissing`, `SaveMissing`). `Apply` performs them on the directory.
  - `Reconcile` is the reference definition of a locale step. The method `ProcessLocale` is
    proved equal to it, and the lemmas prove what the step promises about `Reconcile`.
- `walker.dfy` (module `Walker`): `extract_missing_translations`. It walks the listing, counts
  `processed` and `errors`, and produces the final result.

The save of `messages.po` and the removal of the missing file depend on
`has_non_empty_translations` (src/main.rs:98, 110, 125), not on `updated_count`. A completed
translation that matches no main entry therefore still causes both, as the comment at
src/main.rs:124 ("non-empty translations found") describes
(`Locale.MainSavedIffQualifying`, `Locale.UnmatchedStillSaves`).

## Model

| member | source | states |
|---|---|---|
| `Po.TrimStart` | src/main.rs:109 | the result is a suffix of the input, every dropped character is whitespace, and the result does not start with whitespace |
| `Po.TrimEnd` | src/main.rs:109 | the result is a prefix of the input, every dropped character is whitespace, and the result does not end with whitespace |
| `Po.BlankIffAllWhitespace` | src/main.rs:221-224 | a string is blank exactly when all its characters are Unicode whitespace |
| `Po.TrimEmptyIffBlank` | src/main.rs:109 | `trim(s)` is empty exactly when `s` is blank |
| `Po.TrimsToEmpty` | src/main.rs:223 | the `s.trim().is_empty()` test returns true exactly for blank strings |
| `Po.FindKey` | src/main.rs:113-115 | the result is the index of the first entry with the given `(msgid, msgctxt)`, or none when no entry has it |
| `Po.FindEntry` | src/main.rs:113-115 | the linear search returns the first matching index, as `FindKey` specifies |
| `Po.FindHeader` | src/main.rs:208 | the result is the index of the first entry with an empty `msgid`, or none when there is none |
| `Po.FindHeaderEntry` | src/main.rs:208 | the linear search returns the first header index, as `FindHeader` specifies |
| `Po.FindKeyOnKeysOnly` | src/main.rs:113-117 | the first match depends only on the entries' identities, so rewriting a `msgstr` never moves it |
| `Merge.MergeEntry` | src/main.rs:101-121 | one missing entry changes only the `msgstr` of the entry it targets, and sets it to its own translation; length, identities and every other entry are kept |
| `Merge.LastWriter` | src/main.rs:113-118 | the result is the last missing entry that targets main entry `i`, or none when no entry targets `i` |
| `Merge.MergeAllKeepsKeys` | src/main.rs:113-118 | merge-back keeps main's length, order and every `(msgid, msgctxt)` |
| `Merge.MergeAllAt` | src/main.rs:101-122 | after merge-back, entry `i` is unchanged when nothing targets it; otherwise only its `msgstr` changes, to the untrimmed translation of the last missing entry targeting it |
| `Merge.LaterDuplicateUntouched` | src/main.rs:113-115 | a main entry that repeats an earlier entry's identity is never changed |
| `Merge.HeaderUntouched` | src/main.rs:101-105 | the main header entry is never a merge target |
| `Merge.MergeOnlyQualifying` | src/main.rs:101-110 | headers of the missing catalog, and its absent or blank translations, make no difference: merging only the completed translations gives the same main |
| `Merge.HasQualifyingIffNonEmpty` | src/main.rs:98-110 | some entry qualifies exactly when the list of completed translations is non-empty |
| `Merge.NoQualifyingNoChange` | src/main.rs:108-110 | a missing catalog without completed translations leaves main unchanged |
| `Merge.MatchedAtMostQualifying` | src/main.rs:97-119 | the update counter is at most the number of completed translations |
| `Merge.MergeBack` | src/main.rs:97-122 | the loop's final catalog is `MergeAll(main, missing)`; `updated_count` is the number of completed translations that found a match; the flag is set exactly when some entry qualifies |
| `Missing.MissingEntries` | src/main.rs:212-230 | every collected entry is a non-header entry with an absent or blank translation, and there are at most as many as main has entries |
| `Missing.MissingEntriesMembers` | src/main.rs:212-230 | the derived entries all come from main, and every untranslated non-header entry of main is among them |
| `Missing.IsMissingTranslation` | src/main.rs:221-224 | the classification is true exactly when the translation is absent or blank |
| `Missing.HeaderPart` | src/main.rs:207-210 | the result is empty exactly when main has no header; otherwise it is a copy of the first header entry of main |
| `Missing.NewMissingShape` | src/main.rs:205-230 | every entry of the derived catalog is a header or untranslated; when main has a header, the first header of main comes first; the derived length is header part plus missing count |
| `Missing.NewMissingIdempotent` | src/main.rs:205-230 | deriving from a derived missing catalog gives it back unchanged |
| `Missing.ExtractEntries` | src/main.rs:204-230 | the built catalog is `NewMissing(main)` and `missing_count` is the number of untranslated non-header entries |
| `Missing.PushMissing` | src/main.rs:212-230 | the loop appends exactly `MissingEntries(main)`, in main order, to what was already there, and counts them |
| `Locale.ExtractCurrentMissing` | src/main.rs:190-252 | writes the derived catalog when `missing_count > 0`; otherwise removes an existing missing file (an error if removal fails) or does nothing; on success the missing file is left as `ExpectedMissing(main)` |
| `Locale.WriteMissingResult` | src/main.rs:232-249 | when derivation and outcome succeed, only the missing file changes, and it ends as the derived catalog, or absent when nothing is missing (a header alone never produces a file) |
| `Locale.ProcessLocale` | src/main.rs:80-188 | the locale step performs exactly the operations of `Reconcile`; without `messages.po` it does nothing and returns `Ok`; an unreadable main is an error with no file touched |
| `Locale.DerivedHasNothingToMerge` | src/main.rs:108-110 | a derived missing catalog has no completed translation, so merging it back changes nothing |
| `Locale.UnmatchedLeavesMainUnchanged` | src/main.rs:113-119 | when no completed translation matches, the merged main equals the loaded main |
| `Locale.ReconcileResult` | src/main.rs:124-185 | on success, main holds the merged catalog (or the loaded one when nothing qualified), and the missing file holds the derivation from it, or is absent when nothing is missing |
| `Locale.MainSavedIffQualifying` | src/main.rs:125-136 | main is saved exactly when the parsed missing catalog has a completed translation; the save comes first, followed by the removal of the missing file |
| `Locale.UnmatchedStillSaves` | src/main.rs:110-136 | completed translations that match nothing still cause the save of an unchanged main and the removal of the missing file |
| `Locale.CorruptMissingNotFatal` | src/main.rs:161-172 | a missing file that does not parse is not an error; it is replaced by the derivation from main, or removed |
| `Locale.OutcomeCases` | src/main.rs:86-185 | the step fails on an unreadable main, exactly; a removal failure leaves the missing file in place, with main already saved when a merge happened |
| `Locale.ReconcileIdempotent` | src/main.rs:80-252 | after a successful step, running it again succeeds, saves no main, and leaves both files as they are |
| `Locale.MergeExample` | src/main.rs:97-136 | main `[a: none, b: "x"]` with missing `[a: "merged"]`: main becomes `[a: "merged", b: "x"]`, the missing file is removed and not written again |
| `Walker.ScanLength` | src/main.rs:45-48 | the walk stops at the first listing item that cannot be read, or covers the whole listing |
| `Walker.TallyTotal` | src/main.rs:53-61 | every locale walked is counted once, as processed or as an error |
| `Walker.NoErrorsIffAllOk` | src/main.rs:73-77 | the error counter is zero exactly when every locale returned `Ok` |
| `Walker.SkippedLocaleIsProcessed` | src/main.rs:86-88 | a locale without `messages.po` adds one to `processed` and nothing to `errors` |
| `Walker.WalkListing` | src/main.rs:42-64 | the walk reconciles every directory with a UTF-8 name, in listing order, up to the first unreadable item; `processed` and `errors` count the successes and the failures |
| `Walker.ExtractMissingTranslations` | src/main.rs:36-78 | missing base directory and failed listing are run errors; otherwise every directory with a UTF-8 name is reconciled in listing order and tallied; the run fails exactly when the listing breaks off or a locale failed |
| `Walker.RunSucceedsIffNoErrors` | src/main.rs:73-77 | the run completes exactly when the listing is read to the end and every locale succeeded |

## Left out

- Command-line parsing (src/main.rs:8-34) and all console output, including the verbose
  counts. `updated_count` and `missing_count` are computed and specified, but not reported.
- The PO parser and serialiser are a foreign library. To the model, loading gives a
  `FileState`, and saving stores the catalog. Reading back a saved file gives the saved catalog
  unchanged, so the re-read at src/main.rs:139-141 is the identity.
- Entry fields other than `msgid`, `msgctxt` and `msgstr` (comments, flags, references,
  plural forms, obsolete marker). Entries are copied whole in the source, so these would
  travel with them.
- Save failures. The source does not propagate the result of `save`
  (src/main.rs:126, 234), so the model never fails a save.
- Panics from `to_str().unwrap()` on non-UTF-8 paths (src/main.rs:126, 234). Locale names that
  are not UTF-8 are skipped without an error, as at src/main.rs:52, and that is modelled.
- Real file-system access and its timing: `exists`, `is_dir`, path joining, and changes made
  by other processes during a run. The file-system state is a parameter.
- The `anyhow` error messages and context. Errors are reduced to the `LocaleError` and
  `RunError` cases.
- Integer widths: `processed`, `errors`, `updated_count` and `missing_count` are unbounded
  here. The source's `i32` counters cannot overflow at realistic catalog sizes.
- The main catalog is loaded once in the model. The source loads it separately in each branch
  (src/main.rs:93, 163, 176). Loading has no side effect, so the result is the same.
