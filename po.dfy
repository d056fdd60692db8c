/** Catalog entries as the reconciler sees them: message id, optional context and optional
    translation, together with the whitespace trimming used to decide that a translation is
    blank and the two first-match searches (`find`) of src/main.rs. */
module Po {

  datatype Option<+T> = None | Some(value: T)

  /** The characters with the Unicode White_Space property, which `str::trim` strips. */
  predicate IsWhitespace(c: char) {
    ('\t' <= c <= '\r') || c == ' ' || c == '\U{0085}' || c == '\U{00A0}' || c == '\U{1680}'
    || ('\U{2000}' <= c <= '\U{200A}') || c == '\U{2028}' || c == '\U{2029}'
    || c == '\U{202F}' || c == '\U{205F}' || c == '\U{3000}'
  }

  /** `str::trim_start`: drop the leading whitespace. */
  function TrimStart(s: string): (r: string)
    ensures |r| <= |s| && r == s[|s| - |r|..]
    ensures r == [] || !IsWhitespace(r[0])
    ensures forall k :: 0 <= k < |s| - |r| ==> IsWhitespace(s[k])
  {
    if s != [] && IsWhitespace(s[0]) then TrimStart(s[1..]) else s
  }

  /** `str::trim_end`: drop the trailing whitespace. */
  function TrimEnd(s: string): (r: string)
    ensures |r| <= |s| && r == s[..|r|]
    ensures r == [] || !IsWhitespace(r[|r| - 1])
    ensures forall k :: |r| <= k < |s| ==> IsWhitespace(s[k])
  {
    if s != [] && IsWhitespace(s[|s| - 1]) then TrimEnd(s[..|s| - 1]) else s
  }

  /** `str::trim`. */
  function Trim(s: string): string {
    TrimEnd(TrimStart(s))
  }

  /** The string consists of whitespace only (the empty string included). */
  predicate IsBlank(s: string)
    decreases |s|
  {
    s == [] || (IsWhitespace(s[0]) && IsBlank(s[1..]))
  }

  lemma {:induction false} BlankIffAllWhitespace(s: string)
    ensures IsBlank(s) <==> forall k :: 0 <= k < |s| ==> IsWhitespace(s[k])
    decreases |s|
  {
    if s != [] {
      BlankIffAllWhitespace(s[1..]);
      assert forall k :: 1 <= k < |s| ==> s[1..][k - 1] == s[k];
    }
  }

  /** `s.trim().is_empty()` holds exactly for the blank strings. */
  lemma {:induction false} TrimEmptyIffBlank(s: string)
    ensures Trim(s) == [] <==> IsBlank(s)
  {
    BlankIffAllWhitespace(s);
  }

  /** `s.trim().is_empty()` as the source evaluates it. */
  method TrimsToEmpty(s: string) returns (b: bool)
    ensures b == IsBlank(s)
  {
    TrimEmptyIffBlank(s);
    b := Trim(s) == [];
  }

  /** One translatable unit of a catalog; an empty `msgid` marks the header entry. */
  datatype Entry = Entry(msgid: string, msgctxt: Option<string>, msgstr: Option<string>)

  /** A catalog is its entries in file order. */
  type Catalog = seq<Entry>

  predicate IsHeader(e: Entry) {
    e.msgid == []
  }

  /** The translation is absent, empty or whitespace only (src/main.rs:221-224). */
  predicate IsMissing(e: Entry) {
    match e.msgstr
    case None => true
    case Some(s) => IsBlank(s)
  }

  /** Matching identity of an entry: the pair (msgid, msgctxt). */
  predicate HasKey(e: Entry, msgid: string, msgctxt: Option<string>) {
    e.msgid == msgid && e.msgctxt == msgctxt
  }

  /** Index of the first entry of `c` with identity (msgid, msgctxt), if any. */
  function FindKey(c: Catalog, msgid: string, msgctxt: Option<string>): (r: Option<nat>)
    ensures r.Some? ==> r.value < |c| && HasKey(c[r.value], msgid, msgctxt)
    ensures r.Some? ==> forall j :: 0 <= j < r.value ==> !HasKey(c[j], msgid, msgctxt)
    ensures r.None? ==> forall j :: 0 <= j < |c| ==> !HasKey(c[j], msgid, msgctxt)
  {
    if c == [] then None
    else if HasKey(c[0], msgid, msgctxt) then Some(0)
    else match FindKey(c[1..], msgid, msgctxt)
      case None => None
      case Some(i) => Some(i + 1)
  }

  /** Index of the first header entry of `c`, if any. */
  function FindHeader(c: Catalog): (r: Option<nat>)
    ensures r.Some? ==> r.value < |c| && IsHeader(c[r.value])
    ensures r.Some? ==> forall j :: 0 <= j < r.value ==> !IsHeader(c[j])
    ensures r.None? ==> forall j :: 0 <= j < |c| ==> !IsHeader(c[j])
  {
    if c == [] then None
    else if IsHeader(c[0]) then Some(0)
    else match FindHeader(c[1..])
      case None => None
      case Some(i) => Some(i + 1)
  }

  /** The two catalogs have the same length and the same identities position by position. */
  predicate SameKeys(a: Catalog, b: Catalog) {
    |a| == |b| && forall i :: 0 <= i < |a| ==> a[i].msgid == b[i].msgid && a[i].msgctxt == b[i].msgctxt
  }

  /** The first match depends on the identities of the entries only, not on their translations. */
  lemma FindKeyOnKeysOnly(a: Catalog, b: Catalog, msgid: string, msgctxt: Option<string>)
    requires SameKeys(a, b)
    ensures FindKey(a, msgid, msgctxt) == FindKey(b, msgid, msgctxt)
  {
  }

  /** `entries.iter().find(|e| e.msgid == msgid && e.msgctxt == msgctxt)` (src/main.rs:113-115). */
  method FindEntry(c: Catalog, msgid: string, msgctxt: Option<string>) returns (r: Option<nat>)
    ensures r == FindKey(c, msgid, msgctxt)
  {
    var i := 0;
    while i < |c|
      invariant 0 <= i <= |c|
      invariant forall j :: 0 <= j < i ==> !HasKey(c[j], msgid, msgctxt)
    {
      if c[i].msgid == msgid && c[i].msgctxt == msgctxt {
        return Some(i);
      }
      i := i + 1;
    }
    return None;
  }

  /** `entries.iter().find(|e| e.msgid.is_empty())` (src/main.rs:208). */
  method FindHeaderEntry(c: Catalog) returns (r: Option<nat>)
    ensures r == FindHeader(c)
  {
    var i := 0;
    while i < |c|
      invariant 0 <= i <= |c|
      invariant forall j :: 0 <= j < i ==> !IsHeader(c[j])
    {
      if c[i].msgid == [] {
        return Some(i);
      }
      i := i + 1;
    }
    return None;
  }
}
