/**
 * The prototype chord of chord.py: a root spelled in ASCII ("C#", "Db", ...)
 * and a major flag, named through two enharmonic dictionaries keyed by
 * either spelling, and the two circles of `Chord.all_triads`.
 */
module ProtoChord {
  import opened Wrappers

  /** `Chord(root, is_major)`. */
  datatype Chord = Chord(root: string, isMajor: bool)

  /** The `KeyError` a dictionary lookup raises, carrying the missing key. */
  datatype KeyError = KeyError(key: string)

  /** The dictionary of `sharp_name`. */
  const SharpTable: map<string, string> := map[
    "C" := "C",
    "C#" := "C#", "Db" := "C#",
    "D" := "D",
    "D#" := "D#", "Eb" := "D#",
    "E" := "E",
    "F" := "F",
    "F#" := "F#", "Gb" := "F#",
    "G" := "G",
    "G#" := "G#", "Ab" := "G#",
    "A" := "A",
    "A#" := "A#", "Bb" := "A#",
    "B" := "B"]

  /** The dictionary of `flat_name`. */
  const FlatTable: map<string, string> := map[
    "C" := "C",
    "C#" := "Db", "Db" := "Db",
    "D" := "D",
    "D#" := "Eb", "Eb" := "Eb",
    "E" := "E",
    "F" := "F",
    "F#" := "Gb", "Gb" := "Gb",
    "G" := "G",
    "G#" := "Ab", "Ab" := "Ab",
    "A" := "A",
    "A#" := "Bb", "Bb" := "Bb",
    "B" := "B"]

  /** A minor chord's name is its root's name followed by "m". */
  function Suffixed(name: string, isMajor: bool): string
  {
    if isMajor then name else name + "m"
  }

  /** `Chord.sharp_name`. */
  function SharpName(c: Chord): (r: Result<string, KeyError>)
    ensures r.Err? ==> r.error == KeyError(c.root)
  {
    if c.root in SharpTable then Ok(Suffixed(SharpTable[c.root], c.isMajor)) else Err(KeyError(c.root))
  }

  /** `Chord.flat_name`. */
  function FlatName(c: Chord): (r: Result<string, KeyError>)
    ensures r.Err? ==> r.error == KeyError(c.root)
  {
    if c.root in FlatTable then Ok(Suffixed(FlatTable[c.root], c.isMajor)) else Err(KeyError(c.root))
  }

  /** `Chord.__str__`. */
  function Str(c: Chord): Result<string, KeyError>
  {
    SharpName(c)
  }

  // ---------------------------------------------------------------------------
  // A reference reading of the spellings

  /** Semitones above C of a natural letter. */
  function LetterPitch(ch: char): Option<int>
  {
    if ch == 'C' then Some(0) else if ch == 'D' then Some(2) else if ch == 'E' then Some(4)
    else if ch == 'F' then Some(5) else if ch == 'G' then Some(7) else if ch == 'A' then Some(9)
    else if ch == 'B' then Some(11) else None
  }

  /**
   * The pitch class a spelling names, read letter by letter: a letter, then
   * optionally '#' (a semitone up) or 'b' (a semitone down).
   */
  function Spelled(s: string): (r: Option<int>)
    ensures r.Some? ==> 0 <= r.value < 12
  {
    if |s| == 1 then LetterPitch(s[0])
    else if |s| == 2 && LetterPitch(s[0]).Some? && s[1] == '#' then Some((LetterPitch(s[0]).value + 1) % 12)
    else if |s| == 2 && LetterPitch(s[0]).Some? && s[1] == 'b' then Some((LetterPitch(s[0]).value + 11) % 12)
    else None
  }

  /** The spelling each pitch class gets from `sharp_name`, and from `flat_name`. */
  const SharpRow: seq<string> := ["C", "C#", "D", "D#", "E", "F", "F#", "G", "G#", "A", "A#", "B"]
  const FlatRow: seq<string> := ["C", "Db", "D", "Eb", "E", "F", "Gb", "G", "Ab", "A", "Bb", "B"]

  /** Each spelling of a row names the pitch class of its position. */
  lemma {:induction false} RowsSpellPitches(p: int)
    requires 0 <= p < 12
    ensures Spelled(SharpRow[p]) == Some(p) && Spelled(FlatRow[p]) == Some(p)
  {
    if p == 0 {} else if p == 1 {} else if p == 2 {} else if p == 3 {} else if p == 4 {} else if p == 5 {}
    else if p == 6 {} else if p == 7 {} else if p == 8 {} else if p == 9 {} else if p == 10 {} else {}
  }

  /** The seventeen accepted roots are the spellings of the two rows, in both dictionaries. */
  lemma KnownRoots(root: string)
    ensures root in SharpTable <==> root in SharpRow || root in FlatRow
    ensures root in FlatTable <==> root in SharpTable
  {
  }

  /** `sharp_name` sends both spellings of a pitch class to its sharp spelling. */
  lemma {:induction false} SharpTableByPitch(p: int)
    requires 0 <= p < 12
    ensures SharpRow[p] in SharpTable && FlatRow[p] in SharpTable
    ensures SharpTable[SharpRow[p]] == SharpRow[p] && SharpTable[FlatRow[p]] == SharpRow[p]
  {
    if p == 0 {} else if p == 1 {} else if p == 2 {} else if p == 3 {} else if p == 4 {} else if p == 5 {}
    else if p == 6 {} else if p == 7 {} else if p == 8 {} else if p == 9 {} else if p == 10 {} else {}
  }

  /** `flat_name` sends both spellings of a pitch class to its flat spelling. */
  lemma {:induction false} FlatTableByPitch(p: int)
    requires 0 <= p < 12
    ensures SharpRow[p] in FlatTable && FlatRow[p] in FlatTable
    ensures FlatTable[SharpRow[p]] == FlatRow[p] && FlatTable[FlatRow[p]] == FlatRow[p]
  {
    if p == 0 {} else if p == 1 {} else if p == 2 {} else if p == 3 {} else if p == 4 {} else if p == 5 {}
    else if p == 6 {} else if p == 7 {} else if p == 8 {} else if p == 9 {} else if p == 10 {} else {}
  }

  /** No two pitch classes share a sharp spelling, nor a flat one. */
  lemma RowsDistinct()
    ensures forall p, q :: 0 <= p < q < 12 ==> SharpRow[p] != SharpRow[q]
    ensures forall p, q :: 0 <= p < q < 12 ==> FlatRow[p] != FlatRow[q]
  {
  }

  /**
   * Every accepted root names a pitch class, and both dictionaries send it to
   * the sharp (respectively flat) spelling of that pitch class.
   */
  lemma TablesFollowSpelling(root: string)
    requires root in SharpTable
    ensures Spelled(root).Some? && root in FlatTable
    ensures SharpTable[root] == SharpRow[Spelled(root).value]
    ensures FlatTable[root] == FlatRow[Spelled(root).value]
  {
    KnownRoots(root);
    var p :| 0 <= p < 12 && (root == SharpRow[p] || root == FlatRow[p]);
    RowsSpellPitches(p);
    SharpTableByPitch(p);
    FlatTableByPitch(p);
  }

  /** Appending "m" (or nothing) to both sides keeps names apart. */
  lemma SuffixInjective(x: string, y: string, isMajor: bool)
    ensures Suffixed(x, isMajor) == Suffixed(y, isMajor) <==> x == y
  {
    if !isMajor && x + "m" == y + "m" {
      assert x == (x + "m")[..|x|];
      assert y == (y + "m")[..|y|];
    }
  }

  /**
   * `sharp_name` sends two roots to one name exactly when they spell the
   * same pitch class, and so does `flat_name`: the two dictionaries group the
   * seventeen spellings into the same twelve enharmonic classes.
   */
  lemma SameEnharmonicClasses(a: string, b: string, isMajor: bool)
    requires a in SharpTable && b in SharpTable
    ensures SharpName(Chord(a, isMajor)).Ok? && FlatName(Chord(a, isMajor)).Ok?
    ensures SharpName(Chord(a, isMajor)) == SharpName(Chord(b, isMajor)) <==> Spelled(a) == Spelled(b)
    ensures FlatName(Chord(a, isMajor)) == FlatName(Chord(b, isMajor)) <==> Spelled(a) == Spelled(b)
  {
    TablesFollowSpelling(a);
    TablesFollowSpelling(b);
    var p, q := Spelled(a).value, Spelled(b).value;
    RowsDistinct();
    SuffixInjective(SharpRow[p], SharpRow[q], isMajor);
    SuffixInjective(FlatRow[p], FlatRow[q], isMajor);
  }

  /** "Db" and "C#" are both named "C#" in sharps; "A#" and "Bb" are both named "Bb" in flats. */
  lemma EnharmonicExamples()
    ensures SharpName(Chord("Db", true)) == SharpName(Chord("C#", true)) == Ok("C#")
    ensures FlatName(Chord("A#", true)) == FlatName(Chord("Bb", true)) == Ok("Bb")
    ensures SharpName(Chord("Eb", false)) == Ok("D#m")
  {
    assert "D#" + "m" == "D#m";
  }

  /**
   * A known root names a major chord by its table entry and a minor one by
   * the same entry with exactly one "m" appended; an unknown root is a
   * `KeyError` for that root in both spellings.
   */
  lemma NamesAndSuffix(c: Chord)
    ensures SharpName(c).Ok? <==> c.root in SharpTable
    ensures FlatName(c).Ok? <==> c.root in SharpTable
    ensures c.root !in SharpTable ==> SharpName(c) == Err(KeyError(c.root)) && FlatName(c) == Err(KeyError(c.root))
    ensures c.root in SharpTable && c.isMajor ==>
      SharpName(c) == Ok(SharpTable[c.root]) && FlatName(c) == Ok(FlatTable[c.root])
    ensures c.root in SharpTable && !c.isMajor ==>
      SharpName(c) == Ok(SharpTable[c.root] + "m") && FlatName(c) == Ok(FlatTable[c.root] + "m")
  {
    KnownRoots(c.root);
  }

  /**
   * Naming is idempotent: a major chord rebuilt on its own sharp (or flat)
   * name has that same name.
   */
  lemma NamingIdempotent(root: string)
    requires root in SharpTable
    ensures SharpName(Chord(root, true)).Ok? && FlatName(Chord(root, true)).Ok?
    ensures SharpName(Chord(SharpName(Chord(root, true)).value, true)) == SharpName(Chord(root, true))
    ensures FlatName(Chord(FlatName(Chord(root, true)).value, true)) == FlatName(Chord(root, true))
  {
    TablesFollowSpelling(root);
    var p := Spelled(root).value;
    SharpTableByPitch(p);
    FlatTableByPitch(p);
  }

  /**
   * `str(chord)` succeeds exactly on the seventeen known roots, with a
   * `KeyError` for the root otherwise. Its text ends in "m" exactly for a
   * minor chord, and the text before that suffix is a sharp spelling of the
   * root's pitch class.
   */
  lemma StrReadsBack(c: Chord)
    ensures Str(c).Ok? <==> c.root in SharpTable
    ensures Str(c).Err? ==> Str(c) == Err(KeyError(c.root))
    ensures Str(c).Ok? ==> var s := Str(c).value; |s| > 0 && (s[|s| - 1] == 'm' <==> !c.isMajor)
    ensures Str(c).Ok? ==> var s := Str(c).value; var root := if c.isMajor then s else s[..|s| - 1];
      root in SharpRow && Spelled(root) == Spelled(c.root)
  {
    if c.root in SharpTable {
      TablesFollowSpelling(c.root);
      var p := Spelled(c.root).value;
      var x := SharpRow[p];
      RowsSpellPitches(p);
      assert |x| > 0 && x[|x| - 1] != 'm';
      if !c.isMajor {
        assert (x + "m")[..|x|] == x;
        assert (x + "m")[|x + "m"| - 1] == 'm';
      }
    }
  }

  // ---------------------------------------------------------------------------
  // `Chord.all_triads`

  /** The roots of the major list of `all_triads`. */
  const MajorRoots: seq<string> := ["C", "F", "A#", "D#", "G#", "C#", "F#", "B", "E", "A", "D", "G"]

  /** The roots of the minor list of `all_triads`. */
  const MinorRoots: seq<string> := ["A", "D", "G", "C", "F", "A#", "D#", "G#", "C#", "F#", "B", "E"]

  /** `Chord.all_triads()`: the majors and the minors of the circle. */
  function AllTriads(): (seq<Chord>, seq<Chord>)
  {
    (seq(12, i requires 0 <= i < 12 => Chord(MajorRoots[i], true)),
     seq(12, i requires 0 <= i < 12 => Chord(MinorRoots[i], false)))
  }

  /** Major root `i` is the sharp spelling of 5·i. */
  lemma {:induction false} MajorRootAt(i: int)
    requires 0 <= i < 12
    ensures MajorRoots[i] == SharpRow[(5 * i) % 12]
  {
    if i == 0 {} else if i == 1 {} else if i == 2 {} else if i == 3 {} else if i == 4 {} else if i == 5 {}
    else if i == 6 {} else if i == 7 {} else if i == 8 {} else if i == 9 {} else if i == 10 {} else {}
  }

  /** Minor root `i` is the sharp spelling of 5·i + 9. */
  lemma {:induction false} MinorRootAt(i: int)
    requires 0 <= i < 12
    ensures MinorRoots[i] == SharpRow[(5 * i + 9) % 12]
  {
    if i == 0 {} else if i == 1 {} else if i == 2 {} else if i == 3 {} else if i == 4 {} else if i == 5 {}
    else if i == 6 {} else if i == 7 {} else if i == 8 {} else if i == 9 {} else if i == 10 {} else {}
  }

  /** Adding 9 after or before the remainder gives one remainder. */
  lemma ModAddNine(x: int)
    ensures (x % 12 + 9) % 12 == (x + 9) % 12
  {
    var q := x / 12;
    assert x == 12 * q + x % 12;
    assert x + 9 == 12 * q + (x % 12 + 9);
  }

  /** The roots at position `i` of the two lists: known, 5·i above C, and 9 higher for the minor. */
  lemma RootsAt(i: int)
    requires 0 <= i < 12
    ensures MajorRoots[i] in SharpTable && MinorRoots[i] in SharpTable
    ensures Spelled(MajorRoots[i]) == Some((5 * i) % 12)
    ensures Spelled(MinorRoots[i]) == Some((Spelled(MajorRoots[i]).value + 9) % 12)
  {
    MajorRootAt(i);
    MinorRootAt(i);
    SharpRootAt(MajorRoots[i], (5 * i) % 12);
    SharpRootAt(MinorRoots[i], (5 * i + 9) % 12);
    ModAddNine(5 * i);
  }

  /** The sharp spelling of a pitch class is an accepted root that spells it. */
  lemma SharpRootAt(r: string, p: int)
    requires 0 <= p < 12 && r == SharpRow[p]
    ensures r in SharpTable && Spelled(r) == Some(p)
  {
    RowsSpellPitches(p);
    SharpTableByPitch(p);
  }

  /**
   * `all_triads` returns twelve majors and twelve minors on known roots; the
   * majors go round the circle of fifths (each root a fourth, 5 semitones,
   * above the one before, starting on C) and minor `i` is the relative minor,
   * 9 semitones above, of major `i`.
   */
  lemma AllTriadsCircle()
    ensures |AllTriads().0| == 12 && |AllTriads().1| == 12
    ensures forall i :: 0 <= i < 12 ==> AllTriads().0[i].isMajor && !AllTriads().1[i].isMajor
    ensures forall i :: 0 <= i < 12 ==> AllTriads().0[i].root in SharpTable && AllTriads().1[i].root in SharpTable
    ensures forall i :: 0 <= i < 12 ==> Spelled(AllTriads().0[i].root) == Some((5 * i) % 12)
    ensures forall i :: 0 <= i < 12 ==>
      Spelled(AllTriads().1[i].root) == Some((Spelled(AllTriads().0[i].root).value + 9) % 12)
  {
    forall i | 0 <= i < 12
      ensures MajorRoots[i] in SharpTable && MinorRoots[i] in SharpTable
      ensures Spelled(MajorRoots[i]) == Some((5 * i) % 12)
      ensures Spelled(MinorRoots[i]) == Some((Spelled(MajorRoots[i]).value + 9) % 12)
    {
      RootsAt(i);
    }
  }

  /** Fourths from C reach twelve different pitch classes in twelve steps. */
  lemma {:induction false} FifthsDistinct(i: int, j: int)
    requires 0 <= i < 12 && 0 <= j < 12 && i != j
    ensures (5 * i) % 12 != (5 * j) % 12
  {
    if i == 0 {} else if i == 1 {} else if i == 2 {} else if i == 3 {} else if i == 4 {} else if i == 5 {}
    else if i == 6 {} else if i == 7 {} else if i == 8 {} else if i == 9 {} else if i == 10 {} else {}
  }

  /** And so do their relative minors, 9 semitones higher. */
  lemma {:induction false} RelativesDistinct(i: int, j: int)
    requires 0 <= i < 12 && 0 <= j < 12 && i != j
    ensures (5 * i + 9) % 12 != (5 * j + 9) % 12
  {
    if i == 0 {} else if i == 1 {} else if i == 2 {} else if i == 3 {} else if i == 4 {} else if i == 5 {}
    else if i == 6 {} else if i == 7 {} else if i == 8 {} else if i == 9 {} else if i == 10 {} else {}
  }

  /** Two positions of a list hold two different roots. */
  lemma RootsApart(i: int, j: int)
    requires 0 <= i < 12 && 0 <= j < 12 && i != j
    ensures MajorRoots[i] != MajorRoots[j] && MinorRoots[i] != MinorRoots[j]
  {
    var p, p' := (5 * i) % 12, (5 * j) % 12;
    var q, q' := (5 * i + 9) % 12, (5 * j + 9) % 12;
    FifthsDistinct(i, j);
    RelativesDistinct(i, j);
    assert MajorRoots[i] == SharpRow[p] && MajorRoots[j] == SharpRow[p'] by {
      MajorRootAt(i);
      MajorRootAt(j);
    }
    assert MinorRoots[i] == SharpRow[q] && MinorRoots[j] == SharpRow[q'] by {
      MinorRootAt(i);
      MinorRootAt(j);
    }
    SharpRowApart(p, p');
    SharpRowApart(q, q');
  }

  /** Two pitch classes have two sharp spellings. */
  lemma SharpRowApart(p: int, q: int)
    requires 0 <= p < 12 && 0 <= q < 12 && p != q
    ensures SharpRow[p] != SharpRow[q]
  {
    RowsDistinct();
  }

  /** No root occurs twice in either list, so the twelve chords of a ring are twelve different chords. */
  lemma AllTriadsDistinct()
    ensures forall i, j :: 0 <= i < 12 && 0 <= j < 12 && AllTriads().0[i] == AllTriads().0[j] ==> i == j
    ensures forall i, j :: 0 <= i < 12 && 0 <= j < 12 && AllTriads().1[i] == AllTriads().1[j] ==> i == j
  {
    forall i, j | 0 <= i < 12 && 0 <= j < 12 && i != j
      ensures MajorRoots[i] != MajorRoots[j] && MinorRoots[i] != MinorRoots[j]
    {
      RootsApart(i, j);
    }
  }
}
