/**
 * How src/storage.rs names a session's journal files: `sanitize` keeps ASCII letters and digits and
 * turns every other character into `_`; `SessionKey::file_stem` joins the two sanitized comp IDs with
 * `__`; the data file is `<stem>.jsonl` and the index file `<stem>.idx`, both in the store's base
 * directory (left implicit here).
 */
module JournalNames {
  /** Identifies a session by its two comp IDs. */
  datatype SessionKey = SessionKey(senderCompId: string, targetCompId: string)

  /** `char::is_ascii_alphanumeric`. */
  predicate IsAsciiAlphanumeric(c: char)
  {
    'a' <= c <= 'z' || 'A' <= c <= 'Z' || '0' <= c <= '9'
  }

  /** The characters a stem can hold. */
  predicate IsStemChar(c: char)
  {
    IsAsciiAlphanumeric(c) || c == '_'
  }

  /** `sanitize`: one output character per input character. */
  function Sanitize(s: string): (r: string)
    ensures |r| == |s|
    ensures forall i :: 0 <= i < |s| ==> r[i] == if IsAsciiAlphanumeric(s[i]) then s[i] else '_'
  {
    if s == [] then [] else [if IsAsciiAlphanumeric(s[0]) then s[0] else '_'] + Sanitize(s[1..])
  }

  /** Only letters, digits and `_` come out, and text made of letters and digits comes out unchanged. */
  lemma SanitizeCharacters(s: string)
    ensures forall i :: 0 <= i < |s| ==> IsStemChar(Sanitize(s)[i])
    ensures (forall i :: 0 <= i < |s| ==> IsAsciiAlphanumeric(s[i])) ==> Sanitize(s) == s
  {
  }

  lemma SanitizeIdempotent(s: string)
    ensures Sanitize(Sanitize(s)) == Sanitize(s)
  {
  }

  /** `SessionKey::file_stem`. */
  function FileStem(k: SessionKey): (r: string)
    ensures |r| == |k.senderCompId| + 2 + |k.targetCompId|
    ensures forall i :: 0 <= i < |r| ==> IsStemChar(r[i])
    ensures r[|k.senderCompId|..|k.senderCompId| + 2] == "__"
  {
    Sanitize(k.senderCompId) + "__" + Sanitize(k.targetCompId)
  }

  const DATA_SUFFIX: string := ".jsonl"
  const INDEX_SUFFIX: string := ".idx"

  function DataPath(k: SessionKey): (p: string)
    ensures |p| == |FileStem(k)| + |DATA_SUFFIX|
    ensures p[..|p| - |DATA_SUFFIX|] == FileStem(k) && p[|p| - |DATA_SUFFIX|..] == DATA_SUFFIX
  {
    FileStem(k) + DATA_SUFFIX
  }

  function IndexPath(k: SessionKey): (p: string)
    ensures |p| == |FileStem(k)| + |INDEX_SUFFIX|
    ensures p[..|p| - |INDEX_SUFFIX|] == FileStem(k) && p[|p| - |INDEX_SUFFIX|..] == INDEX_SUFFIX
  {
    FileStem(k) + INDEX_SUFFIX
  }

  /** Two sessions share a file exactly when they share a stem, and no data file is an index file. */
  lemma PathsOfStems(k1: SessionKey, k2: SessionKey)
    ensures DataPath(k1) == DataPath(k2) <==> FileStem(k1) == FileStem(k2)
    ensures IndexPath(k1) == IndexPath(k2) <==> FileStem(k1) == FileStem(k2)
    ensures DataPath(k1) != IndexPath(k2)
  {
    var d1, d2 := DataPath(k1), DataPath(k2);
    var i1, i2 := IndexPath(k1), IndexPath(k2);
    if d1 == d2 {
      assert FileStem(k1) == d1[..|d1| - |DATA_SUFFIX|];
    }
    if i1 == i2 {
      assert FileStem(k1) == i1[..|i1| - |INDEX_SUFFIX|];
    }
    assert d1[|d1| - 1] == 'l' && i2[|i2| - 1] == 'x';
  }

  /** The stem does not tell sessions apart: comp IDs that differ only in characters `sanitize`
      replaces, or in where a `_` sits around the separator, share one journal. */
  lemma DistinctSessionsShareAStem()
    ensures SessionKey("A.B", "C") != SessionKey("A_B", "C")
    ensures FileStem(SessionKey("A.B", "C")) == FileStem(SessionKey("A_B", "C"))
    ensures SessionKey("A_", "B") != SessionKey("A", "_B")
    ensures FileStem(SessionKey("A_", "B")) == FileStem(SessionKey("A", "_B"))
  {
    assert Sanitize("A.B") == "A_B" == Sanitize("A_B");
    assert Sanitize("A_") == "A_" && Sanitize("_B") == "_B";
  }
}
