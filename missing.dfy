/** Derivation of the missing catalog from the main catalog: the first header entry, then every
    untranslated entry in main order (src/main.rs:204-230). */
module Missing {
  import opened Po

  /** A non-header entry whose translation is absent or blank. */
  predicate Selected(e: Entry) {
    !IsHeader(e) && IsMissing(e)
  }

  /** The untranslated non-header entries of `c`, in the order of `c`. */
  function MissingEntries(c: Catalog): (r: Catalog)
    ensures |r| <= |c|
    ensures forall k :: 0 <= k < |r| ==> Selected(r[k])
    decreases |c|
  {
    if c == [] then []
    else MissingEntries(c[..|c| - 1]) + (if Selected(c[|c| - 1]) then [c[|c| - 1]] else [])
  }

  /** The derivation collects entries of main only, and all the untranslated ones. */
  lemma {:induction false} MissingEntriesMembers(c: Catalog)
    ensures forall e :: e in MissingEntries(c) ==> e in c
    ensures forall j :: 0 <= j < |c| && Selected(c[j]) ==> c[j] in MissingEntries(c)
    decreases |c|
  {
    if c != [] {
      var init := c[..|c| - 1];
      MissingEntriesMembers(init);
      assert forall j :: 0 <= j < |init| ==> init[j] == c[j];
      assert forall e :: e in init ==> e in c;
    }
  }

  /** A copy of the first header entry of `c`, if it has one (src/main.rs:207-210). */
  function HeaderPart(c: Catalog): (r: Catalog)
    ensures |r| <= 1
    ensures r == [] <==> forall j :: 0 <= j < |c| ==> !IsHeader(c[j])
    ensures r != [] ==> FindHeader(c).Some? && r == [c[FindHeader(c).value]]
  {
    match FindHeader(c)
    case None => []
    case Some(i) => [c[i]]
  }

  /** The catalog written to `messages-missing.po`. */
  function NewMissing(main: Catalog): Catalog {
    HeaderPart(main) + MissingEntries(main)
  }

  /** The filter distributes over concatenation. */
  lemma {:induction false} MissingEntriesAppend(a: Catalog, b: Catalog)
    ensures MissingEntries(a + b) == MissingEntries(a) + MissingEntries(b)
    decreases |b|
  {
    if b == [] {
      assert a + b == a;
    } else {
      var init := b[..|b| - 1];
      MissingEntriesAppend(a, init);
      assert (a + b)[..|a + b| - 1] == a + init;
      assert (a + b)[|a + b| - 1] == b[|b| - 1];
    }
  }

  /** The filter keeps a catalog whose entries are all untranslated non-headers. */
  lemma {:induction false} MissingEntriesOfSelected(c: Catalog)
    requires forall k :: 0 <= k < |c| ==> Selected(c[k])
    ensures MissingEntries(c) == c
    decreases |c|
  {
    if c != [] {
      var init := c[..|c| - 1];
      MissingEntriesOfSelected(init);
      assert init + [c[|c| - 1]] == c;
    }
  }

  /** Every entry of a derived missing catalog is its header or an untranslated entry, and
      the header, when the main catalog has one, comes first and is the first header of main. */
  lemma NewMissingShape(main: Catalog)
    ensures forall k :: 0 <= k < |NewMissing(main)| ==> IsHeader(NewMissing(main)[k]) || IsMissing(NewMissing(main)[k])
    ensures FindHeader(main).Some? ==> NewMissing(main)[0] == main[FindHeader(main).value]
    ensures |NewMissing(main)| == |HeaderPart(main)| + |MissingEntries(main)|
  {
  }

  /** Deriving a missing catalog from a derived missing catalog gives it back unchanged. */
  lemma NewMissingIdempotent(main: Catalog)
    ensures NewMissing(NewMissing(main)) == NewMissing(main)
  {
    var h, m := HeaderPart(main), MissingEntries(main);
    var d := h + m;
    MissingEntriesAppend(h, m);
    MissingEntriesOfSelected(m);
    assert MissingEntries(d) == m by {
      if h != [] {
        assert h == [h[0]];
        assert h[..0] == [];
        assert MissingEntries(h) == [];
      }
    }
    assert HeaderPart(d) == h by {
      if h == [] {
        assert d == m;
      } else {
        assert FindHeader(d) == Some(0);
      }
    }
  }

  /** One more main entry: how the filter grows. */
  lemma MissingEntriesStep(c: Catalog, k: nat)
    requires k < |c|
    ensures MissingEntries(c[..k + 1]) == MissingEntries(c[..k]) + (if Selected(c[k]) then [c[k]] else [])
  {
    assert c[..k + 1][..k] == c[..k];
  }

  /** The classification of src/main.rs:221-224. */
  method IsMissingTranslation(e: Entry) returns (b: bool)
    ensures b == IsMissing(e)
  {
    match e.msgstr
    case None => b := true;
    case Some(s) => b := TrimsToEmpty(s);
  }

  /** src/main.rs:204-230: a new catalog holding a copy of the first header of main, if
      any, followed by the untranslated entries, with their count. */
  method ExtractEntries(main: Catalog) returns (entries: Catalog, missingCount: nat)
    ensures entries == NewMissing(main)
    ensures missingCount == |MissingEntries(main)|
  {
    entries := [];
    var header := FindHeaderEntry(main);
    if header.Some? {
      entries := entries + [main[header.value]];
    }
    entries, missingCount := PushMissing(main, entries);
  }

  /** The loop of src/main.rs:212-230: push every untranslated non-header entry of main onto
      `entries`, counting them in `missingCount`. */
  method PushMissing(main: Catalog, start: Catalog) returns (entries: Catalog, missingCount: nat)
    ensures entries == start + MissingEntries(main)
    ensures missingCount == |MissingEntries(main)|
  {
    entries, missingCount := start, 0;
    var k := 0;
    while k < |main|
      invariant 0 <= k <= |main|
      invariant entries == start + MissingEntries(main[..k])
      invariant missingCount == |MissingEntries(main[..k])|
    {
      var e := main[k];
      MissingEntriesStep(main, k);
      if e.msgid != [] {
        var isMissing := IsMissingTranslation(e);
        if isMissing {
          entries := entries + [e];
          missingCount := missingCount + 1;
        }
      }
      k := k + 1;
    }
    assert main[..k] == main;
  }
}
