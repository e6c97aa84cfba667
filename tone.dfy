/**
 * Pitch classes (src/core/tone.py): a tone is an index 0..11, built from any
 * integer by reduction modulo 12, and spelled through two fixed twelve-tone rows.
 */
module CoreTone {
  import opened Wrappers

  /** The normalised index range of a tone. */
  type PitchIndex = i: int | 0 <= i < 12

  /** A tone; equality of tones is equality of their normalised indices. */
  datatype Tone = Tone(idx: PitchIndex)

  /** The exception `by_name` raises. */
  datatype ToneError = ValueError

  /** The sharp spelling of the twelve-tone row (`TTR_SHARP`). */
  const SharpRow: seq<string> := ["C", "C♯", "D", "D♯", "E", "F", "F♯", "G", "G♯", "A", "A♯", "B"]

  /** The flat spelling of the twelve-tone row (`TTR_FLAT`). */
  const FlatRow: seq<string> := ["C", "D♭", "D", "E♭", "E", "F", "G♭", "G", "A♭", "A", "B♭", "B"]

  /**
   * The accidentals as src/core/tone.py stores them: the file's UTF-8 bytes for
   * "♯" and "♭" were decoded one time too many, so each sharp of its rows reads
   * as the three characters U+201A U+00F4 U+00D8 and each flat as U+201A U+00F4 U+2260.
   * `TTR_SHARP` character for character as stored:
   */
  const StoredSharpRow: seq<string> :=
    ["C", "C\U{201A}\U{00F4}\U{00D8}", "D", "D\U{201A}\U{00F4}\U{00D8}", "E", "F", "F\U{201A}\U{00F4}\U{00D8}", "G", "G\U{201A}\U{00F4}\U{00D8}", "A", "A\U{201A}\U{00F4}\U{00D8}", "B"]

  /** `TTR_FLAT` character for character as stored. */
  const StoredFlatRow: seq<string> :=
    ["C", "D\U{201A}\U{00F4}\U{2260}", "D", "E\U{201A}\U{00F4}\U{2260}", "E", "F", "G\U{201A}\U{00F4}\U{2260}", "G", "A\U{201A}\U{00F4}\U{2260}", "A", "B\U{201A}\U{00F4}\U{2260}", "B"]

  /** The indices whose sharp and flat spellings are the same letter. */
  const Naturals: set<int> := {0, 2, 4, 5, 7, 9, 11}

  /** `Tone(idx)` and `Tone.by_idx(idx)`: the representative of `i` modulo 12. */
  function ByIdx(i: int): (t: Tone)
    ensures (i - t.idx) % 12 == 0
    ensures 0 <= i < 12 ==> t.idx == i
  {
    Tone(i % 12)
  }

  /** Python's `list.index`: the first position of `x`, or nothing when `x` is absent. */
  function IndexOf<T(==)>(s: seq<T>, x: T): (r: Option<nat>)
    ensures r.Some? <==> x in s
    ensures r.Some? ==> r.value < |s| && s[r.value] == x
    ensures r.Some? ==> forall j :: 0 <= j < r.value ==> s[j] != x
  {
    if |s| == 0 then None
    else if s[0] == x then Some(0)
    else match IndexOf(s[1..], x)
      case None => None
      case Some(j) => Some(j + 1)
  }

  function SharpName(t: Tone): string
  {
    SharpRow[t.idx]
  }

  function FlatName(t: Tone): string
  {
    FlatRow[t.idx]
  }

  /** `Tone.twelve_tone_row()`: every tone once, in index order. */
  function TwelveToneRow(): (r: seq<Tone>)
    ensures |r| == 12
    ensures forall i :: 0 <= i < 12 ==> r[i].idx == i
    ensures forall t: Tone :: r[t.idx] == t
  {
    var r := seq(12, i requires 0 <= i < 12 => ByIdx(i));
    assert forall t: Tone :: r[t.idx] == t by {
      forall t: Tone ensures r[t.idx] == t { assert r[t.idx] == Tone(t.idx); }
    }
    r
  }

  /**
   * `Tone.by_name` exactly as written: its flat branch looks the name up in the
   * SHARP row, so `list.index` raises there as well.
   */
  function ByNameAsWritten(name: string): (r: Result<Tone, ToneError>)
    ensures r.Ok? <==> name in SharpRow
    ensures r.Ok? ==> SharpName(r.value) == name
  {
    if name in SharpRow then
      Ok(ByIdx(IndexOf(SharpRow, name).value))
    else if name in FlatRow then
      match IndexOf(SharpRow, name)
      case Some(j) => Ok(ByIdx(j))
      case None => Err(ValueError)
    else
      Err(ValueError)
  }

  /** `Tone.by_name` as written over the rows as stored: only a stored sharp-row name is found. */
  function ByNameStored(name: string): (r: Result<Tone, ToneError>)
    ensures r.Ok? <==> name in StoredSharpRow
    ensures r.Ok? ==> StoredSharpRow[r.value.idx] == name
  {
    if name in StoredSharpRow then
      Ok(ByIdx(IndexOf(StoredSharpRow, name).value))
    else if name in StoredFlatRow then
      match IndexOf(StoredSharpRow, name)
      case Some(j) => Ok(ByIdx(j))
      case None => Err(ValueError)
    else
      Err(ValueError)
  }

  /** `Tone.by_name` as intended: a flat name is looked up in the flat row. */
  function ByName(name: string): (r: Result<Tone, ToneError>)
    ensures r.Ok? <==> name in SharpRow || name in FlatRow
    ensures r.Ok? ==> SharpName(r.value) == name || FlatName(r.value) == name
    ensures name in SharpRow ==> r == ByNameAsWritten(name)
  {
    if name in SharpRow then
      Ok(ByIdx(IndexOf(SharpRow, name).value))
    else if name in FlatRow then
      Ok(ByIdx(IndexOf(FlatRow, name).value))
    else
      Err(ValueError)
  }

  /** Reducing an index one more octave up gives the same tone. */
  lemma ByIdxPeriodic(i: int)
    ensures ByIdx(i + 12) == ByIdx(i)
    ensures ByIdx(i).idx == ByIdx(i + 12).idx
  {
  }

  /** Shifting by whole octaves does not change the tone. */
  lemma ByIdxOctaves(i: int, w: int)
    ensures ByIdx(i + 12 * w) == ByIdx(i)
  {
  }

  /** The interval between the tones of `x + d` and `x` is `d` modulo 12. */
  lemma ByIdxInterval(x: int, d: int)
    ensures (ByIdx(x + d).idx - ByIdx(x).idx) % 12 == d % 12
  {
    var q1, q2 := (x + d) / 12, x / 12;
    assert ByIdx(x + d).idx == x + d - 12 * q1;
    assert ByIdx(x).idx == x - 12 * q2;
    assert ByIdx(x + d).idx - ByIdx(x).idx == d + 12 * (q2 - q1);
    ByIdxOctaves(d, q2 - q1);
  }

  /** The twelve spellings of a row name twelve different tones. */
  lemma RowsDistinct()
    ensures forall i, j :: 0 <= i < j < 12 ==> SharpRow[i] != SharpRow[j]
    ensures forall i, j :: 0 <= i < j < 12 ==> FlatRow[i] != FlatRow[j]
  {
  }

  lemma IndexOfDistinct<T>(s: seq<T>, k: nat)
    requires k < |s|
    requires forall i, j :: 0 <= i < j < |s| ==> s[i] != s[j]
    ensures IndexOf(s, s[k]) == Some(k)
  {
  }

  /** Looking a tone up by its sharp name gives the tone back, as written and as intended. */
  lemma SharpRoundTrip(t: Tone)
    ensures ByName(SharpName(t)) == Ok(t)
    ensures ByNameAsWritten(SharpName(t)) == Ok(t)
  {
    RowsDistinct();
    IndexOfDistinct(SharpRow, t.idx);
  }

  /** Looking a tone up by its flat name gives the tone back (intended reading only). */
  lemma FlatRoundTrip(t: Tone)
    ensures ByName(FlatName(t)) == Ok(t)
  {
    RowsDistinct();
    if FlatName(t) in SharpRow {
      assert t.idx in Naturals;
      IndexOfDistinct(SharpRow, t.idx);
    } else {
      IndexOfDistinct(FlatRow, t.idx);
    }
  }

  /** The two spellings agree exactly on the seven natural tones. */
  lemma SpellingsCoincide(t: Tone)
    ensures SharpName(t) == FlatName(t) <==> t.idx in Naturals
  {
  }

  /**
   * Over the rows as stored, a name spelled with the real sign "♯" is in
   * neither row and `by_name` raises; only the stored spelling is found. The
   * rows above, spelled with "♯" and "♭", find it.
   */
  lemma StoredRowsRejectRealSharp()
    ensures "A♯" !in StoredSharpRow && "A♯" !in StoredFlatRow
    ensures ByNameStored("A♯") == Err(ValueError)
    ensures ByNameStored("A\U{201A}\U{00F4}\U{00D8}") == Ok(Tone(10))
    ensures ByName("A♯") == Ok(Tone(10))
  {
    assert forall i :: 0 <= i < 12 ==> |StoredSharpRow[i]| != 2 && |StoredFlatRow[i]| != 2;
    assert StoredSharpRow[10] == "A\U{201A}\U{00F4}\U{00D8}";
    assert forall i :: 0 <= i < 10 ==> StoredSharpRow[i][0] != 'A' || |StoredSharpRow[i]| == 1;
    assert IndexOf(StoredSharpRow, "A\U{201A}\U{00F4}\U{00D8}") == Some(10);
    SharpRoundTrip(Tone(10));
  }

  /** The natural names C, D, F, G and A are found in the rows as stored. */
  lemma StoredLettersFound()
    ensures ByNameStored("C").Ok? && ByNameStored("D").Ok? && ByNameStored("F").Ok?
    ensures ByNameStored("G").Ok? && ByNameStored("A").Ok?
  {
    var row := StoredSharpRow;
    assert row[0] == "C" && row[2] == "D" && row[5] == "F" && row[7] == "G" && row[9] == "A";
  }

  /** Every name of the stored sharp row is a letter, or ends in the stored sharp's last character. */
  lemma StoredSharpsEnd()
    ensures forall i :: 0 <= i < 12 ==> |StoredSharpRow[i]| == 1 || (|StoredSharpRow[i]| == 4 && StoredSharpRow[i][3] == '\U{00D8}')
  {
  }

  /** As written, a flat-only spelling such as "D♭" is rejected, in the rows as stored as well. */
  lemma FlatOnlyNameRejected()
    ensures ByNameAsWritten("D♭") == Err(ValueError)
    ensures ByNameStored("D\U{201A}\U{00F4}\U{2260}") == Err(ValueError)
    ensures ByName("D♭") == Ok(Tone(1))
  {
    var d := "D\U{201A}\U{00F4}\U{2260}";
    assert |d| == 4 && d[3] == '\U{2260}';
    StoredSharpsEnd();
    assert d !in StoredSharpRow;
    assert StoredFlatRow[1] == d;
    FlatRoundTrip(Tone(1));
  }
}
