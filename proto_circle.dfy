/**
 * The first, single-file version of the program, circle.py: two rings of
 * twelve named containers, a switch between flat and sharp names, and three
 * colourings. A container is identified by the name it shows (its `data`,
 * which its text always repeats); the names of a ring are all different.
 */
module ProtoCircle {
  import opened Wrappers
  import opened Rings
  import opened Painting
  import opened Palette
  import opened CoreTone
  import opened CoreChord
  import opened Harmony
  import UiCircle
  import ProtoUi
  import PC = ProtoChord

  /** `CHORD_NAMES_FLAT`: the major roots round the circle, with flats. */
  const ChordNamesFlat: seq<string> := ["C", "F", "Bb", "Eb", "Ab", "Db", "Gb", "B", "E", "A", "D", "G"]

  /** `CHORD_NAMES_SHARP`: the same roots with sharps. */
  const ChordNamesSharp: seq<string> := ["C", "F", "A#", "D#", "G#", "C#", "F#", "B", "E", "A", "D", "G"]

  /** `dict(zip(ks, vs))`: each key of `ks` maps to the value beside it; a later pair overwrites an earlier one. */
  function DictZip<K(==,!new), V>(ks: seq<K>, vs: seq<V>): (m: map<K, V>)
    requires |ks| == |vs|
    ensures forall k :: k in m <==> k in ks
    decreases |ks|
  {
    if |ks| == 0 then map[]
    else
      var n := |ks| - 1;
      assert forall k :: k in ks <==> k in ks[..n] || k == ks[n] by {
        assert ks == ks[..n] + [ks[n]];
      }
      DictZip(ks[..n], vs[..n])[ks[n] := vs[n]]
  }

  /** The key at `i` maps to the value at `i` when no later pair has the same key. */
  lemma {:induction false} DictZipAt<K(!new), V>(ks: seq<K>, vs: seq<V>, i: int)
    requires |ks| == |vs| && 0 <= i < |ks|
    requires forall j :: i < j < |ks| ==> ks[j] != ks[i]
    ensures DictZip(ks, vs)[ks[i]] == vs[i]
    decreases |ks|
  {
    var n := |ks| - 1;
    if i < n {
      DictZipAt(ks[..n], vs[..n], i);
    }
  }

  /** `FLAT_2_SHARP`. */
  const FlatToSharp: map<string, string> := DictZip(ChordNamesFlat, ChordNamesSharp)

  /** `SHARP_2_FLAT`. */
  const SharpToFlat: map<string, string> := DictZip(ChordNamesSharp, ChordNamesFlat)

  /** The names a spelling shows: sharps when `sharps`, flats otherwise. */
  function Names(sharps: bool): (r: seq<string>)
    ensures |r| == 12
  {
    if sharps then ChordNamesSharp else ChordNamesFlat
  }

  /** The dictionary the switch looks names up in when it is turned to `toSharps`. */
  function Table(toSharps: bool): map<string, string>
  {
    if toSharps then FlatToSharp else SharpToFlat
  }

  /** Flat name `i` is the flat spelling of 5·i. */
  lemma {:induction false} FlatNameAt(i: int)
    requires 0 <= i < 12
    ensures ChordNamesFlat[i] == PC.FlatRow[(5 * i) % 12]
  {
    if i == 0 {} else if i == 1 {} else if i == 2 {} else if i == 3 {} else if i == 4 {} else if i == 5 {}
    else if i == 6 {} else if i == 7 {} else if i == 8 {} else if i == 9 {} else if i == 10 {} else {}
  }

  /** Name `i` of either spelling names the pitch class 5·i: the roots go up by fourths from C. */
  lemma NamePitch(sharps: bool, i: int)
    requires 0 <= i < 12
    ensures PC.Spelled(Names(sharps)[i]) == Some((5 * i) % 12)
  {
    if sharps {
      assert ChordNamesSharp == PC.MajorRoots;
      PC.RootsAt(i);
    } else {
      FlatNameAt(i);
      PC.RowsSpellPitches((5 * i) % 12);
    }
  }

  /** The twelve names of a spelling are all different. */
  lemma NamesDistinct(sharps: bool)
    ensures Distinct(Names(sharps))
  {
    forall p, q | 0 <= p < 12 && 0 <= q < 12 && Names(sharps)[p] == Names(sharps)[q] ensures p == q {
      NamePitch(sharps, p);
      NamePitch(sharps, q);
      if p != q {
        PC.FifthsDistinct(p, q);
      }
    }
  }

  /** The dictionary towards `toSharps` maps name `i` of the other spelling to name `i` of this one. */
  lemma TableAt(toSharps: bool, i: int)
    requires 0 <= i < 12
    ensures Names(!toSharps)[i] in Table(toSharps)
    ensures Table(toSharps)[Names(!toSharps)[i]] == Names(toSharps)[i]
  {
    NamesDistinct(!toSharps);
    DictZipAt(Names(!toSharps), Names(toSharps), i);
  }

  /** Its keys are exactly the names of the other spelling. */
  lemma TableKeys(toSharps: bool, x: string)
    ensures x in Table(toSharps) <==> x in Names(!toSharps)
  {
  }

  /**
   * `FLAT_2_SHARP` and `SHARP_2_FLAT` are inverse bijections between the two
   * spellings: looking a name up and then looking the result up in the other
   * dictionary gives the name back, and both name the same pitch class.
   */
  lemma SpellingRoundTrip(toSharps: bool, x: string)
    requires x in Table(toSharps)
    ensures Table(toSharps)[x] in Table(!toSharps)
    ensures Table(!toSharps)[Table(toSharps)[x]] == x
    ensures PC.Spelled(Table(toSharps)[x]) == PC.Spelled(x)
  {
    var i :| 0 <= i < 12 && Names(!toSharps)[i] == x;
    TableAt(toSharps, i);
    TableAt(!toSharps, i);
    NamePitch(true, i);
    NamePitch(false, i);
  }

  /** A name spelled alike in both spellings (a natural) is its own translation. */
  lemma NaturalsFixed(toSharps: bool, x: string)
    requires x in Table(toSharps) && x in Names(toSharps)
    ensures Table(toSharps)[x] == x
  {
    var i :| 0 <= i < 12 && Names(!toSharps)[i] == x;
    var j :| 0 <= j < 12 && Names(toSharps)[j] == x;
    TableAt(toSharps, i);
    NamePitch(!toSharps, i);
    NamePitch(toSharps, j);
    if i != j {
      PC.FifthsDistinct(i, j);
    }
  }

  /** The names as `sharp_name` and `flat_name` of chord.py give them: the two programs rename alike. */
  lemma TablesAgreeWithChord(x: string)
    ensures x in FlatToSharp ==> x in PC.SharpTable && FlatToSharp[x] == PC.SharpTable[x]
    ensures x in SharpToFlat ==> x in PC.FlatTable && SharpToFlat[x] == PC.FlatTable[x]
  {
    if x in FlatToSharp {
      var i :| 0 <= i < 12 && ChordNamesFlat[i] == x;
      TableAt(true, i);
      FlatNameAt(i);
      assert ChordNamesSharp == PC.MajorRoots;
      PC.MajorRootAt(i);
      PC.SharpTableByPitch((5 * i) % 12);
    }
    if x in SharpToFlat {
      var i :| 0 <= i < 12 && ChordNamesSharp[i] == x;
      TableAt(false, i);
      FlatNameAt(i);
      assert ChordNamesSharp == PC.MajorRoots;
      PC.MajorRootAt(i);
      PC.FlatTableByPitch((5 * i) % 12);
    }
  }

  // ---------------------------------------------------------------------------
  // The names of a ring

  /** `data.endswith("m")`: how `on_container_click` tells a minor from a major. */
  predicate EndsWithM(name: string)
  {
    |name| > 0 && name[|name| - 1] == 'm'
  }

  /** `name[:-1]`: the name without its last character. */
  function DropLast(name: string): (r: string)
    ensures |name| > 0 ==> |r| == |name| - 1
  {
    if |name| == 0 then name else name[..|name| - 1]
  }

  /** The dictionary key the switch reads from a container's name: the whole name, or all but the "m" of a minor. */
  function Key(name: string, isMajor: bool): string
  {
    if isMajor then name else DropLast(name)
  }

  /** A name any spelling reads as a pitch class does not end in "m". */
  lemma SpelledNotMinor(s: string)
    requires PC.Spelled(s).Some?
    ensures !EndsWithM(s)
  {
  }

  /** A minor's name is the root's name with "m" after it. */
  lemma MinorName(x: string)
    ensures EndsWithM(x + "m") && DropLast(x + "m") == x && Key(x + "m", false) == x
  {
    assert (x + "m")[..|x|] == x;
  }

  /** The triad a container name stands for: minor when it ends in "m", on the root its key spells. */
  function TriadOfName(name: string): Triad
  {
    var isMajor := !EndsWithM(name);
    ProtoUi.TriadOf(PC.Chord(Key(name, isMajor), isMajor))
  }

  /** Position `p` of a ring in a spelling: the major name `p`, or the name `p + 9` with "m" (the lines `CHORD_NAMES_FLAT[9:12] + CHORD_NAMES_FLAT[0:9]`). */
  function NameOnCircle(ring: RingKind, sharps: bool, p: int): string
    requires 0 <= p < 12
  {
    if ring == MajorRing then Names(sharps)[p] else Names(sharps)[(p + 9) % 12] + "m"
  }

  /** Five fourths above the relative position are nine semitones above the major. */
  lemma FifthsOfRelative(p: int)
    requires 0 <= p < 12
    ensures (5 * ((p + 9) % 12)) % 12 == (5 * p + 9) % 12
  {
    var a := (p + 9) / 12;
    assert p + 9 == 12 * a + (p + 9) % 12;
    assert 5 * ((p + 9) % 12) == (5 * p + 9) + 12 * (3 - 5 * a);
    ModAddMultiple(5 * p + 9, 3 - 5 * a, 12);
  }

  /**
   * The name at position `p` of a ring ends in "m" exactly on the minor ring,
   * its key is a name of the spelling, and it stands for the triad at circle
   * position `p`.
   */
  lemma NameOnCircleTriad(ring: RingKind, sharps: bool, p: int)
    requires 0 <= p < 12
    ensures EndsWithM(NameOnCircle(ring, sharps, p)) <==> ring == MinorRing
    ensures Key(NameOnCircle(ring, sharps, p), ring == MajorRing) == Names(sharps)[if ring == MajorRing then p else (p + 9) % 12]
    ensures TriadOfName(NameOnCircle(ring, sharps, p)) == CircleAt(ring, p)
  {
    ProtoUi.OnCircleTriad(ring, p);
    PC.RootsAt(p);
    if ring == MajorRing {
      NamePitch(sharps, p);
      SpelledNotMinor(Names(sharps)[p]);
    } else {
      var q := (p + 9) % 12;
      NamePitch(sharps, q);
      MinorName(Names(sharps)[q]);
      FifthsOfRelative(p);
      PC.ModAddNine(5 * p);
    }
  }

  /** The name at index `i`. */
  function SlotName(cs: seq<string>, i: int): string
    requires 0 <= i < |cs|
  {
    cs[i]
  }

  /** Twelve containers showing a ring's names in a spelling, turned `o` places to the right. */
  ghost predicate Named(cs: seq<string>, ring: RingKind, sharps: bool, o: int)
  {
    |cs| == 12 && forall i :: 0 <= i < 12 ==> SlotName(cs, i) == NameOnCircle(ring, sharps, (i - o) % 12)
  }

  /** The name a named ring holds at index `i`: the name of position `i - o`. */
  lemma NamedAt(cs: seq<string>, ring: RingKind, sharps: bool, o: int, i: int)
    requires Named(cs, ring, sharps, o) && 0 <= i < 12
    ensures cs[i] == NameOnCircle(ring, sharps, (i - o) % 12)
  {
    assert SlotName(cs, i) == cs[i];
  }

  /** The name at index `i` of a named ring ends in "m" exactly on the minor ring and stands for the triad at position `i - o`. */
  lemma NamedTriad(cs: seq<string>, ring: RingKind, sharps: bool, o: int, i: int)
    requires Named(cs, ring, sharps, o) && 0 <= i < 12
    ensures EndsWithM(cs[i]) <==> ring == MinorRing
    ensures TriadOfName(cs[i]) == CircleAt(ring, i - o)
  {
    NamedAt(cs, ring, sharps, o, i);
    NameOnCircleTriad(ring, sharps, (i - o) % 12);
    CongruentResidue((i - o) % 12, i - o);
    ModUnique((i - o) % 12, 12, 0, (i - o) % 12);
    CircleAtSame(ring, (i - o) % 12, i - o);
  }

  /** The names of a named ring are all different. */
  lemma NamedDistinct(cs: seq<string>, ring: RingKind, sharps: bool, o: int)
    requires Named(cs, ring, sharps, o)
    ensures Distinct(cs)
  {
    forall p, q | 0 <= p < 12 && 0 <= q < 12 && cs[p] == cs[q] ensures p == q {
      NamedTriad(cs, ring, sharps, o, p);
      NamedTriad(cs, ring, sharps, o, q);
      CircleAtSame(ring, p - o, q - o);
      SameDifference(p - o, q - o, p, q);
      CongruentResidue(p, q);
      ModUnique(p, 12, 0, p);
      ModUnique(q, 12, 0, q);
    }
  }

  /** Two rings named alike in the same spelling and turn show the same names. */
  lemma NamedUnique(cs: seq<string>, ds: seq<string>, ring: RingKind, sharps: bool, o: int)
    requires Named(cs, ring, sharps, o) && Named(ds, ring, sharps, o)
    ensures cs == ds
  {
    forall i | 0 <= i < 12 ensures cs[i] == ds[i] {
      assert SlotName(cs, i) == cs[i] && SlotName(ds, i) == ds[i];
    }
  }

  /** The minor at each index is the relative minor of the major there: its root lies 9 semitones higher. */
  lemma RelativeSlots(ms: seq<string>, ns: seq<string>, sharps: bool, o: int, i: int)
    requires Named(ms, MajorRing, sharps, o) && Named(ns, MinorRing, sharps, o) && 0 <= i < 12
    ensures TriadOfName(ms[i]).Major? && TriadOfName(ns[i]).Minor?
    ensures TriadOfName(ns[i]).root == ByIdx(TriadOfName(ms[i]).root.idx + 9)
  {
    NamedTriad(ms, MajorRing, sharps, o, i);
    NamedTriad(ns, MinorRing, sharps, o, i);
    RootStep(MajorRing, i - o, MinorRing, 0, 9);
    assert i - o + 0 == i - o;
  }

  /** Only index 0 of either ring is one of the two top containers. */
  lemma TopNames(ms: seq<string>, ns: seq<string>, sharps: bool, o: int, ring: RingKind, k: int)
    requires Named(ms, MajorRing, sharps, o) && Named(ns, MinorRing, sharps, o) && 0 <= k < 12
    ensures var c := if ring == MajorRing then ms[k] else ns[k];
      c == ms[0] || c == ns[0] <==> k == 0
  {
    NamedDistinct(ms, MajorRing, sharps, o);
    NamedDistinct(ns, MinorRing, sharps, o);
    NamedTriad(ms, MajorRing, sharps, o, k);
    NamedTriad(ns, MinorRing, sharps, o, k);
    NamedTriad(ms, MajorRing, sharps, o, 0);
    NamedTriad(ns, MinorRing, sharps, o, 0);
  }
  // ---------------------------------------------------------------------------
  // Turning the rings

  /** The while loops of `on_container_click` in AXIS mode, led by the ring of the clicked container. */
  method TurnRings(ms: seq<string>, ns: seq<string>, ring: RingKind, ghost sharps: bool, ghost o: int, k: int)
    returns (ms': seq<string>, ns': seq<string>)
    requires Named(ms, MajorRing, sharps, o) && Named(ns, MinorRing, sharps, o) && 0 <= k < 12
    ensures ms' == Rotate(ms, (12 - k) % 12) && ns' == Rotate(ns, (12 - k) % 12)
  {
    if ring == MajorRing {
      NamedDistinct(ms, MajorRing, sharps, o);
      ms', ns' := TurnTo(ms, ns, k);
    } else {
      NamedDistinct(ns, MinorRing, sharps, o);
      ns', ms' := TurnTo(ns, ms, k);
    }
  }

  /** After the turns, index `i` holds the name from `(i + k) % 12`, and the ring is still named, turned further. */
  lemma TurnedNamed(cs: seq<string>, ring: RingKind, sharps: bool, o: int, k: int)
    requires Named(cs, ring, sharps, o) && 0 <= k < 12
    ensures forall i {:trigger Rotate(cs, (12 - k) % 12)[i]} :: 0 <= i < 12 ==> Rotate(cs, (12 - k) % 12)[i] == cs[(i + k) % 12]
    ensures Named(Rotate(cs, (12 - k) % 12), ring, sharps, (o + (12 - k) % 12) % 12)
  {
    var n := (12 - k) % 12;
    var r := Rotate(cs, n);
    TurnedAt(cs, k);
    forall i | 0 <= i < 12 ensures SlotName(r, i) == NameOnCircle(ring, sharps, (i - (o + n) % 12) % 12) {
      NamedAt(cs, ring, sharps, o, (i - n) % 12);
      TurnedPosition(i, n, o);
    }
  }

  /** Index `i` after a turn by `n` holds what index `i - n` held: its circle position on the new offset is the old one. */
  lemma TurnedPosition(i: int, n: int, o: int)
    ensures ((i - n) % 12 - o) % 12 == (i - (o + n) % 12) % 12
  {
    UiCircle.TurnedLayout(i, n, o);
    CongruentResidue((i - n) % 12 - o, i - (o + n) % 12);
  }

  // ---------------------------------------------------------------------------
  // The sign switch

  /**
   * One loop of `on_switch_sign_change`: each container in turn is renamed to
   * the dictionary entry of its key (with "m" again on the minor ring). A key
   * missing from the dictionary raises `KeyError` at index `stop`; the
   * containers before it keep their new names and the rest their old ones.
   */
  method Respell(names: seq<string>, table: map<string, string>, isMajor: bool)
    returns (r: seq<string>, err: Option<PC.KeyError>, ghost stop: int)
    ensures |r| == |names| && 0 <= stop <= |names|
    ensures err.None? <==> stop == |names|
    ensures forall i :: 0 <= i < stop ==> Key(names[i], isMajor) in table && r[i] == PC.Suffixed(table[Key(names[i], isMajor)], isMajor)
    ensures stop < |names| ==> Key(names[stop], isMajor) !in table && err == Some(PC.KeyError(Key(names[stop], isMajor)))
    ensures forall i :: stop <= i < |names| ==> r[i] == names[i]
  {
    r := names;
    for i := 0 to |names|
      invariant |r| == |names|
      invariant forall j :: 0 <= j < i ==> Key(names[j], isMajor) in table && r[j] == PC.Suffixed(table[Key(names[j], isMajor)], isMajor)
      invariant forall j :: i <= j < |names| ==> r[j] == names[j]
    {
      var key := Key(names[i], isMajor);
      if key !in table {
        err := Some(PC.KeyError(key));
        stop := i;
        return;
      }
      r := r[i := PC.Suffixed(table[key], isMajor)];
    }
    err := None;
    stop := |names|;
  }

  /** Switching to the other spelling finds every key and renames the ring into that spelling. */
  lemma OtherSpellingFound(cs: seq<string>, ring: RingKind, sharps: bool, o: int)
    requires Named(cs, ring, sharps, o)
    ensures forall i :: 0 <= i < 12 ==>
      Key(cs[i], ring == MajorRing) in Table(!sharps)
      && PC.Suffixed(Table(!sharps)[Key(cs[i], ring == MajorRing)], ring == MajorRing) == NameOnCircle(ring, !sharps, (i - o) % 12)
  {
    forall i | 0 <= i < 12
      ensures Key(cs[i], ring == MajorRing) in Table(!sharps)
      ensures PC.Suffixed(Table(!sharps)[Key(cs[i], ring == MajorRing)], ring == MajorRing) == NameOnCircle(ring, !sharps, (i - o) % 12)
    {
      NamedAt(cs, ring, sharps, o, i);
      OtherSpellingAt(ring, sharps, (i - o) % 12);
    }
  }

  /** The name at position `p` looked up in the other spelling's dictionary gives that spelling's name at `p`. */
  lemma OtherSpellingAt(ring: RingKind, sharps: bool, p: int)
    requires 0 <= p < 12
    ensures Key(NameOnCircle(ring, sharps, p), ring == MajorRing) in Table(!sharps)
    ensures PC.Suffixed(Table(!sharps)[Key(NameOnCircle(ring, sharps, p), ring == MajorRing)], ring == MajorRing) == NameOnCircle(ring, !sharps, p)
  {
    if ring == MajorRing {
      TableAt(!sharps, p);
    } else {
      var q := (p + 9) % 12;
      MinorName(Names(sharps)[q]);
      TableAt(!sharps, q);
    }
  }

  /** A ring renamed entry by entry into the other spelling is named in it. */
  lemma RespelledNamed(cs: seq<string>, r: seq<string>, ring: RingKind, sharps: bool, o: int)
    requires Named(cs, ring, sharps, o) && |r| == 12
    requires forall i :: 0 <= i < 12 ==>
      Key(cs[i], ring == MajorRing) in Table(!sharps)
      && r[i] == PC.Suffixed(Table(!sharps)[Key(cs[i], ring == MajorRing)], ring == MajorRing)
    ensures Named(r, ring, !sharps, o)
  {
    OtherSpellingFound(cs, ring, sharps, o);
    forall i | 0 <= i < 12 ensures SlotName(r, i) == NameOnCircle(ring, !sharps, (i - o) % 12) {
    }
  }

  /**
   * Switching to the spelling already shown: the container at index
   * `(2 + o) % 12` of the major ring is named B♭ or A♯, which the dictionary
   * lacks, and every key it has is a natural that maps to itself.
   */
  lemma SameSpellingMissing(cs: seq<string>, sharps: bool, o: int)
    requires Named(cs, MajorRing, sharps, o)
    ensures Key(cs[(2 + o) % 12], true) !in Table(sharps)
    ensures forall i :: 0 <= i < 12 && Key(cs[i], true) in Table(sharps) ==> PC.Suffixed(Table(sharps)[Key(cs[i], true)], true) == cs[i]
  {
    var w := (2 + o) % 12;
    NamedAt(cs, MajorRing, sharps, o, w);
    ModSub(2 + o, o, 12);
    ModUnique(2, 12, 0, 2);
    assert cs[w] == Names(sharps)[2];
    if cs[w] in Table(sharps) {
      var j :| 0 <= j < 12 && Names(!sharps)[j] == cs[w];
      NamePitch(sharps, 2);
      NamePitch(!sharps, j);
      if j != 2 {
        PC.FifthsDistinct(j, 2);
      }
      assert false;
    }
    forall i | 0 <= i < 12 && Key(cs[i], true) in Table(sharps)
      ensures PC.Suffixed(Table(sharps)[Key(cs[i], true)], true) == cs[i]
    {
      NamedAt(cs, MajorRing, sharps, o, i);
      NaturalsFixed(sharps, cs[i]);
    }
  }

  /** The switch's label for a spelling. */
  function SwitchLabel(sharps: bool): string
  {
    if sharps then "Sharps" else "Flats"
  }

  // ---------------------------------------------------------------------------
  // What the colours of named rings mean

  /** The functional axis an `AxisColors` fill stands for: 0 tonic, 1 subdominant, 2 dominant. */
  function AxisRole(c: Colour): int
  {
    match c
    case BlueGrey900 | BlueGrey700 => 0
    case Blue600 | Blue400 => 1
    case Green700 | Green400 => 2
    case _ => -1
  }

  /** The strong shade of an axis. */
  predicate AxisStrong(c: Colour)
  {
    c == TonicStrong || c == SubdominantStrong || c == DominantStrong
  }

  /** The shades `AxisColors` names are those `AxisRole` reads. */
  lemma AxisShades()
    ensures AxisRole(TonicStrong) == 0 && AxisRole(TonicWeak) == 0
    ensures AxisRole(SubdominantStrong) == 1 && AxisRole(SubdominantWeak) == 1
    ensures AxisRole(DominantStrong) == 2 && AxisRole(DominantWeak) == 2
  {
  }

  /** `AxisColors.chords` cycles tonic, subdominant, dominant round the ring. */
  lemma {:induction false} AxisChordsRole(j: int)
    requires 0 <= j < 12
    ensures AxisRole(AxisChords[j]) == j % 3
  {
    if j == 0 {} else if j == 1 {} else if j == 2 {} else if j == 3 {} else if j == 4 {} else if j == 5 {}
    else if j == 6 {} else if j == 7 {} else if j == 8 {} else if j == 9 {} else if j == 10 {} else {}
  }

  /** It uses the strong shades only at the top and beside it. */
  lemma {:induction false} AxisChordsStrong(j: int)
    requires 0 <= j < 12
    ensures AxisStrong(AxisChords[j]) <==> j == 0 || j == 1 || j == 11
  {
    if j == 0 {} else if j == 1 {} else if j == 2 {} else if j == 3 {} else if j == 4 {} else if j == 5 {}
    else if j == 6 {} else if j == 7 {} else if j == 8 {} else if j == 9 {} else if j == 10 {} else {}
  }

  /** How many fifths index `j` lies from the top, either way round. */
  function FifthsFromTop(j: int): int
  {
    if j <= 6 then j else 12 - j
  }

  /** The border for a distance from the top: red beside it, then orange, yellow, and white furthest away. */
  function BorderForDistance(d: int): Colour
  {
    if d <= 1 then Red else if d == 2 then Orange else if d <= 4 then Yellow else White
  }

  /** `AxisColors.borders` grades each slot by its distance from the top, the same both ways round. */
  lemma {:induction false} AxisBordersByDistance(j: int)
    requires 0 <= j < 12
    ensures AxisBorders[j] == BorderForDistance(FifthsFromTop(j))
  {
    if j == 0 {} else if j == 1 {} else if j == 2 {} else if j == 3 {} else if j == 4 {} else if j == 5 {}
    else if j == 6 {} else if j == 7 {} else if j == 8 {} else if j == 9 {} else if j == 10 {} else {}
  }

  /** AXIS on rings turned by `o`: the fills of slots `j` and `j'` belong to one axis exactly when their roots are a multiple of 3 semitones apart. */
  lemma AxisRolesOnCircle(r1: RingKind, r2: RingKind, o: int, j: int, j': int)
    requires 0 <= j < 12 && 0 <= j' < 12
    ensures AxisRole(AxisChords[j]) == AxisRole(AxisChords[j'])
        <==> (CircleAt(r1, j - o).root.idx - CircleAt(r2, j' - o).root.idx) % 3 == 0
  {
    AxisChordsRole(j);
    AxisChordsRole(j');
    assert (CircleAt(r1, j - o).root.idx - CircleAt(r2, j' - o).root.idx) % 3 == 0 <==> (j - j') % 3 == 0 by {
      AxisOnCircle(r1, r2, j - o, j' - o);
      assert (j - o) - (j' - o) == j - j';
    }
    ModDiffZero(j, j', 3);
  }

  /** AXIS: two slots get fills of one axis exactly when their roots are a multiple of 3 semitones apart. */
  lemma AxisNamedSlots(r1: RingKind, r2: RingKind, cs: seq<string>, ds: seq<string>, sharps: bool, o: int, j: int, j': int)
    requires Named(cs, r1, sharps, o) && Named(ds, r2, sharps, o) && 0 <= j < 12 && 0 <= j' < 12
    ensures AxisRole(AxisChords[j]) == AxisRole(AxisChords[j'])
        <==> (TriadOfName(cs[j]).root.idx - TriadOfName(ds[j']).root.idx) % 3 == 0
  {
    assert TriadOfName(cs[j]) == CircleAt(r1, j - o) && TriadOfName(ds[j']) == CircleAt(r2, j' - o) by {
      NamedTriad(cs, r1, sharps, o, j);
      NamedTriad(ds, r2, sharps, o, j');
    }
    AxisRolesOnCircle(r1, r2, o, j, j');
  }

  /** On one ring, the root at index `j` lies `5·j` semitones (modulo 12) above the root on top. */
  lemma RootAboveTop(ring: RingKind, o: int, j: int)
    ensures (CircleAt(ring, j - o).root.idx - CircleAt(ring, 0 - o).root.idx) % 12 == (5 * j) % 12
  {
    var x: int, y: int := CircleAt(ring, j - o).root.idx, CircleAt(ring, 0 - o).root.idx;
    var a := (5 * j) % 12;
    assert x == (y + a) % 12 by {
      RootStep(ring, 0 - o, ring, j, a);
      assert 0 - o + j == j - o;
    }
    ModSub(y + a, y, 12);
    ModUnique(a, 12, 0, a);
  }

  /** The top and its two neighbours are the indices whose multiple of five is 0, 5 or 7 modulo 12. */
  lemma {:induction false} FifthsNearTop(j: int)
    requires 0 <= j < 12
    ensures j == 0 || j == 1 || j == 11 <==> (5 * j) % 12 in {0, 5, 7}
  {
    if j == 0 {} else if j == 1 {} else if j == 2 {} else if j == 3 {} else if j == 4 {} else if j == 5 {}
    else if j == 6 {} else if j == 7 {} else if j == 8 {} else if j == 9 {} else if j == 10 {} else {}
  }

  /** AXIS on a ring turned by `o`: slot `j` gets a strong fill exactly when its root is 0, 5 or 7 semitones above the top root. */
  lemma AxisStrongOnCircle(ring: RingKind, o: int, j: int)
    requires 0 <= j < 12
    ensures AxisStrong(AxisChords[j])
        <==> (CircleAt(ring, j - o).root.idx - CircleAt(ring, 0 - o).root.idx) % 12 in {0, 5, 7}
  {
    RootAboveTop(ring, o, j);
    FifthsNearTop(j);
    AxisChordsStrong(j);
  }

  /** AXIS: a slot gets a strong fill exactly when its root is the top root of its ring, a fourth above it or a fifth above it. */
  lemma AxisStrongSlots(ring: RingKind, cs: seq<string>, sharps: bool, o: int, j: int)
    requires Named(cs, ring, sharps, o) && 0 <= j < 12
    ensures AxisStrong(AxisChords[j])
        <==> (TriadOfName(cs[j]).root.idx - TriadOfName(cs[0]).root.idx) % 12 in {0, 5, 7}
  {
    assert TriadOfName(cs[j]) == CircleAt(ring, j - o) && TriadOfName(cs[0]) == CircleAt(ring, 0 - o) by {
      NamedTriad(cs, ring, sharps, o, j);
      NamedTriad(cs, ring, sharps, o, 0);
    }
    AxisStrongOnCircle(ring, o, j);
  }

  /** The circle.py COMMON entry for slot `j` on rings turned by `o`, when slot `k` was clicked. */
  lemma NotesColouringTurned(selected: RingKind, ring: RingKind, j: int, k: int, o: int)
    ensures NotesTable(selected, ring)[(j - k) % 12] == NotesColour(SharedMask(CircleAt(ring, j - o), CircleAt(selected, k - o)))
  {
    var a, b, d := j - o, k - o, (j - k) % 12;
    UiCircle.ModOfEqual(a - b, j - k);
    MaskOnCircle(ring, selected, a, b, d);
    NotesTableEntries(selected, ring, d);
    assert CircleAt(ring, a) == CircleAt(ring, j - o);
    assert CircleAt(selected, b) == CircleAt(selected, k - o);
  }

  /** The unshifted NEGATIVE entries of slots `j` and `i` on rings turned by `o`, when the top triad was clicked. */
  lemma NegativeColouringTop(selected: RingKind, j: int, i: int, o: int)
    requires 0 <= j < 12 && 0 <= i < 12
    ensures NegativeTable(selected).major[j] == NegativeTable(selected).minor[i]
        <==> CircleAt(MinorRing, i - o) == NegativeOf(CircleAt(MajorRing, j - o), CircleAt(selected, 0 - o).root)
  {
    var p, q, t := j - o, i - o, 0 - o;
    TopDistance(j, o);
    TopDistance(i, o);
    NegativeColouring(selected, p, q, t, j, i);
    assert CircleAt(MajorRing, p) == CircleAt(MajorRing, j - o);
    assert CircleAt(MinorRing, q) == CircleAt(MinorRing, i - o);
    assert CircleAt(selected, t) == CircleAt(selected, 0 - o);
  }

  /** Slot `j` lies `j` places from the top, whatever the turn. */
  lemma TopDistance(j: int, o: int)
    requires 0 <= j < 12
    ensures j == ((j - o) - (0 - o)) % 12
  {
    UiCircle.ModOfEqual((j - o) - (0 - o), j);
    ModUnique(j, 12, 0, j);
  }

  /** COMMON: the entry for slot `j` names which tones of the clicked triad at slot `k` its own triad holds. */
  lemma NotesNamedSlot(selected: RingKind, ring: RingKind, cs: seq<string>, ds: seq<string>, sharps: bool, o: int, j: int, k: int)
    requires Named(cs, ring, sharps, o) && Named(ds, selected, sharps, o) && 0 <= j < 12 && 0 <= k < 12
    ensures NotesTable(selected, ring)[(j - k) % 12] == NotesColour(SharedMask(TriadOfName(cs[j]), TriadOfName(ds[k])))
  {
    var a, b := TriadOfName(cs[j]), TriadOfName(ds[k]);
    assert a == CircleAt(ring, j - o) && b == CircleAt(selected, k - o) by {
      NamedTriad(cs, ring, sharps, o, j);
      NamedTriad(ds, selected, sharps, o, k);
    }
    NotesColouringTurned(selected, ring, j, k, o);
  }

  /** The clicked slot itself gets the selected colour. */
  lemma NotesClickedSelected(selected: RingKind)
    ensures NotesTable(selected, selected)[0] == DefaultSelected
  {
  }

  /** NEGATIVE with the top triad of `selected` clicked: the major at `j` and the minor at `i` share a colour exactly when they are negatives. */
  lemma NegativeNamedSlots(selected: RingKind, ms: seq<string>, ns: seq<string>, sharps: bool, o: int, j: int, i: int)
    requires Named(ms, MajorRing, sharps, o) && Named(ns, MinorRing, sharps, o) && 0 <= j < 12 && 0 <= i < 12
    ensures NegativeTable(selected).major[j] == NegativeTable(selected).minor[i]
        <==> TriadOfName(ns[i]) == NegativeOf(TriadOfName(ms[j]), TriadOfName(if selected == MajorRing then ms[0] else ns[0]).root)
  {
    var top := if selected == MajorRing then ms[0] else ns[0];
    var a, b, t := TriadOfName(ms[j]), TriadOfName(ns[i]), TriadOfName(top);
    assert a == CircleAt(MajorRing, j - o) && b == CircleAt(MinorRing, i - o) && t == CircleAt(selected, 0 - o) by {
      NamedTriad(ms, MajorRing, sharps, o, j);
      NamedTriad(ns, MinorRing, sharps, o, i);
      NamedTriad(ms, MajorRing, sharps, o, 0);
      NamedTriad(ns, MinorRing, sharps, o, 0);
    }
    NegativeColouringTop(selected, j, i, o);
  }
  // ---------------------------------------------------------------------------
  // Building the rings

  /** `ft.border.all(width, colour)`. */
  datatype Border = Border(width: nat, colour: Colour)

  /** The borders `paint_axis` gives the slots, one per entry of `AxisColors.borders`. */
  function AxisBorderList(): (r: seq<Border>)
    ensures |r| == 12
    ensures forall j :: 0 <= j < 12 ==> r[j] == Border(4, AxisBorders[j])
  {
    seq(12, j requires 0 <= j < 12 => Border(4, AxisBorders[j]))
  }

  /** The loop that builds a ring: one container per name, in order, with "m" after each name on the minor ring. */
  method BuildRing(names: seq<string>, isMajor: bool) returns (r: seq<string>)
    ensures |r| == |names|
    ensures forall i :: 0 <= i < |names| ==> r[i] == PC.Suffixed(names[i], isMajor)
  {
    r := [];
    for i := 0 to |names|
      invariant |r| == i
      invariant forall j :: 0 <= j < i ==> r[j] == PC.Suffixed(names[j], isMajor)
    {
      r := r + [PC.Suffixed(names[i], isMajor)];
    }
  }

  /** `names[9:12] + names[0:9]` starts the list nine places round. */
  lemma StartAtNine<T>(names: seq<T>, i: int)
    requires |names| == 12 && 0 <= i < 12
    ensures (names[9..12] + names[0..9])[i] == names[(i + 9) % 12]
  {
    if i < 3 {
      ModUnique(i + 9, 12, 0, i + 9);
    } else {
      ModUnique(i + 9, 12, 1, i - 3);
    }
  }

  /** The rings as built: flat names, untouched. */
  lemma InitialNamed(ms: seq<string>, ns: seq<string>)
    requires |ms| == 12 && |ns| == 12
    requires forall i :: 0 <= i < 12 ==> ms[i] == ChordNamesFlat[i] && ns[i] == ChordNamesFlat[(i + 9) % 12] + "m"
    ensures Named(ms, MajorRing, false, 0) && Named(ns, MinorRing, false, 0)
  {
    forall i | 0 <= i < 12
      ensures SlotName(ms, i) == NameOnCircle(MajorRing, false, (i - 0) % 12)
      ensures SlotName(ns, i) == NameOnCircle(MinorRing, false, (i - 0) % 12)
    {
      ModUnique(i - 0, 12, 0, i);
    }
  }

  /** The ring of the clicked container's kind: major when its name does not end in "m". */
  function Selected(isMajor: bool): RingKind
  {
    if isMajor then MajorRing else MinorRing
  }

  /** The ring opposite `ring`. */
  function Other(ring: RingKind): RingKind
  {
    if ring == MajorRing then MinorRing else MajorRing
  }

  /**
   * The two loops of `on_switch_sign_change` with the switch now at `value`:
   * the majors are renamed through `FLAT_2_SHARP` (`value`) or `SHARP_2_FLAT`,
   * then the minors. Turning to the other spelling always succeeds. Turning
   * to the spelling already shown raises `KeyError` in the first loop, and
   * then every name is as it was, since only naturals were looked up.
   */
  method SwitchSpelling(ms: seq<string>, ns: seq<string>, value: bool, ghost s: bool, ghost o: int)
    returns (ms': seq<string>, ns': seq<string>, err: Option<PC.KeyError>)
    requires Named(ms, MajorRing, s, o) && Named(ns, MinorRing, s, o)
    ensures value != s ==> err == None && Named(ms', MajorRing, value, o) && Named(ns', MinorRing, value, o)
    ensures value != s ==> forall i :: 0 <= i < 12 ==>
      ms[i] in Table(value) && ms'[i] == Table(value)[ms[i]]
      && DropLast(ns[i]) in Table(value) && ns'[i] == Table(value)[DropLast(ns[i])] + "m"
    ensures value == s ==> err.Some? && err.value.key !in Table(value) && ms' == ms && ns' == ns
  {
    var table := Table(value);
    var e1;
    ghost var stop1;
    ms', e1, stop1 := Respell(ms, table, true);
    if e1.Some? {
      OtherSpellingFound(ms, MajorRing, s, o);
      assert value == s;
      SameSpellingMissing(ms, s, o);
      assert ms' == ms;
      ns' := ns;
      err := e1;
    } else {
      SameSpellingMissing(ms, s, o);
      assert value != s;
      OtherSpellingFound(ms, MajorRing, s, o);
      OtherSpellingFound(ns, MinorRing, s, o);
      ghost var stop2;
      ns', err, stop2 := Respell(ns, table, false);
      RespelledNamed(ms, ms', MajorRing, s, o);
      RespelledNamed(ns, ns', MinorRing, s, o);
    }
  }

  // ---------------------------------------------------------------------------
  // The widget

  /**
   * The page of circle.py. Index 0 of each deque is the top slot; the fill
   * and border at index `i` are those of the container at that index (`None`
   * before the first painting), so they travel with the containers when the
   * deques turn. `mode` is the radio group's
   * value, `switchLabel` the switch's label; `sharps` records the spelling the
   * names are in and `offset` how far the deques have turned from the order
   * they were built in.
   */
  class Circle {
    var mode: UiCircle.Mode
    var switchLabel: string
    ghost var sharps: bool
    var major: seq<string>
    var minor: seq<string>
    var majorFill: seq<Option<Colour>>
    var minorFill: seq<Option<Colour>>
    var majorBorder: seq<Option<Border>>
    var minorBorder: seq<Option<Border>>
    ghost var offset: int

    /** Both rings named in one spelling and turned alike, and the label showing that spelling. */
    ghost predicate Valid()
      reads this
    {
      Named(major, MajorRing, sharps, offset) && Named(minor, MinorRing, sharps, offset) && 0 <= offset < 12
      && |majorFill| == 12 && |minorFill| == 12 && |majorBorder| == 12 && |minorBorder| == 12
      && switchLabel == SwitchLabel(sharps)
    }

    function Ring(ring: RingKind): seq<string>
      reads this
    {
      if ring == MajorRing then major else minor
    }

    function Fills(ring: RingKind): seq<Option<Colour>>
      reads this
    {
      if ring == MajorRing then majorFill else minorFill
    }

    function Borders(ring: RingKind): seq<Option<Border>>
      reads this
    {
      if ring == MajorRing then majorBorder else minorBorder
    }

    /**
     * The page as `main` builds it: the majors in the order of
     * `CHORD_NAMES_FLAT`, the minors from its tenth name on, with "m"; the
     * switch on flats; then `on_radio_group_change()` paints AXIS.
     */
    constructor ()
      ensures Valid() && mode == UiCircle.Axis && !sharps && switchLabel == "Flats" && offset == 0
      ensures forall i :: 0 <= i < 12 ==> major[i] == ChordNamesFlat[i] && minor[i] == ChordNamesFlat[(i + 9) % 12] + "m"
      ensures forall j :: 0 <= j < 12 ==> majorFill[j] == Some(AxisChords[j]) && minorFill[j] == Some(AxisChords[j])
      ensures forall j :: 0 <= j < 12 ==> majorBorder[j] == Some(Border(4, AxisBorders[j])) && minorBorder[j] == Some(Border(4, AxisBorders[j]))
    {
      var ms := BuildRing(ChordNamesFlat, true);
      var ns := BuildRing(ChordNamesFlat[9..12] + ChordNamesFlat[0..9], false);
      forall i | 0 <= i < 12 ensures ns[i] == ChordNamesFlat[(i + 9) % 12] + "m" {
        StartAtNine(ChordNamesFlat, i);
      }
      InitialNamed(ms, ns);
      mode := UiCircle.Axis;
      switchLabel := "Flats";
      sharps := false;
      major, minor := ms, ns;
      majorFill, minorFill := seq(12, _ => None), seq(12, _ => None);
      majorBorder, minorBorder := seq(12, _ => None), seq(12, _ => None);
      offset := 0;
      new;
      PaintAxis();
    }

    /** `paint_default`: every slot in the default fill with a thin white border. */
    method PaintDefault()
      requires Valid()
      modifies this
      ensures Valid() && mode == old(mode) && switchLabel == old(switchLabel) && sharps == old(sharps) && offset == old(offset)
      ensures major == old(major) && minor == old(minor)
      ensures forall j :: 0 <= j < 12 ==> majorFill[j] == Some(DefaultChord) && minorFill[j] == Some(DefaultChord)
      ensures forall j :: 0 <= j < 12 ==> majorBorder[j] == Some(Border(2, DefaultBorder)) && minorBorder[j] == Some(Border(2, DefaultBorder))
    {
      majorFill := PaintAll(majorFill, DefaultChord);
      minorFill := PaintAll(minorFill, DefaultChord);
      majorBorder := PaintAll(majorBorder, Border(2, DefaultBorder));
      minorBorder := PaintAll(minorBorder, Border(2, DefaultBorder));
    }

    /** `paint_axis`: slot `j` of both rings gets `AxisColors.chords[j]` and a wide border of `AxisColors.borders[j]`. */
    method PaintAxis()
      requires Valid()
      modifies this
      ensures Valid() && mode == old(mode) && switchLabel == old(switchLabel) && sharps == old(sharps) && offset == old(offset)
      ensures major == old(major) && minor == old(minor)
      ensures forall j :: 0 <= j < 12 ==> majorFill[j] == Some(AxisChords[j]) && minorFill[j] == Some(AxisChords[j])
      ensures forall j :: 0 <= j < 12 ==> majorBorder[j] == Some(Border(4, AxisBorders[j])) && minorBorder[j] == Some(Border(4, AxisBorders[j]))
    {
      majorFill := PaintAlong(majorFill, AxisChords);
      minorFill := PaintAlong(minorFill, AxisChords);
      majorBorder := PaintAlong(majorBorder, AxisBorderList());
      minorBorder := PaintAlong(minorBorder, AxisBorderList());
    }

    /**
     * `paint_common_notes(is_major_selected, shift)`: both tables of the
     * clicked kind, rotated right by `shift`, painted along the rings, so that
     * slot `j` gets entry `(j - shift) % 12`; the borders stay.
     */
    method PaintCommonNotes(isMajorSelected: bool, shift: int)
      requires Valid()
      modifies this
      ensures Valid() && mode == old(mode) && switchLabel == old(switchLabel) && sharps == old(sharps) && offset == old(offset)
      ensures major == old(major) && minor == old(minor) && majorBorder == old(majorBorder) && minorBorder == old(minorBorder)
      ensures forall j :: 0 <= j < 12 ==>
        majorFill[j] == Some(NotesTable(Selected(isMajorSelected), MajorRing)[(j - shift) % 12])
        && minorFill[j] == Some(NotesTable(Selected(isMajorSelected), MinorRing)[(j - shift) % 12])
    {
      var pair := if isMajorSelected then NotesMajorSelected else NotesMinorSelected;
      var majorColours := Rotate(pair.major, shift);
      var minorColours := Rotate(pair.minor, shift);
      majorFill := PaintAlong(majorFill, majorColours);
      minorFill := PaintAlong(minorFill, minorColours);
    }

    /**
     * `paint_negative(is_major_selected)`: both tables of the clicked kind,
     * unshifted; the top container of the clicked kind gets the wide root
     * border, the other top a thin white one, and no other border changes.
     */
    method PaintNegative(isMajorSelected: bool)
      requires Valid()
      modifies this
      ensures Valid() && mode == old(mode) && switchLabel == old(switchLabel) && sharps == old(sharps) && offset == old(offset)
      ensures major == old(major) && minor == old(minor)
      ensures forall j :: 0 <= j < 12 ==>
        majorFill[j] == Some(NegativeTable(Selected(isMajorSelected)).major[j])
        && minorFill[j] == Some(NegativeTable(Selected(isMajorSelected)).minor[j])
      ensures Borders(Selected(isMajorSelected))[0] == Some(Border(8, NegativeBorderRoot))
      ensures Borders(Other(Selected(isMajorSelected)))[0] == Some(Border(2, DefaultBorder))
      ensures forall j :: 1 <= j < 12 ==> majorBorder[j] == old(majorBorder[j]) && minorBorder[j] == old(minorBorder[j])
    {
      var pair := if isMajorSelected then NegativeMajorSelected else NegativeMinorSelected;
      majorFill := PaintAlong(majorFill, pair.major);
      minorFill := PaintAlong(minorFill, pair.minor);
      if isMajorSelected {
        majorBorder := majorBorder[0 := Some(Border(8, NegativeBorderRoot))];
        minorBorder := minorBorder[0 := Some(Border(2, DefaultBorder))];
      } else {
        minorBorder := minorBorder[0 := Some(Border(8, NegativeBorderRoot))];
        majorBorder := majorBorder[0 := Some(Border(2, DefaultBorder))];
      }
    }

    /** The fill and border of every container move with it when both deques turn right by `n`. */
    method CarryPaint(n: int)
      requires |majorFill| == 12 && |minorFill| == 12 && |majorBorder| == 12 && |minorBorder| == 12
      modifies this
      ensures majorFill == Rotate(old(majorFill), n) && minorFill == Rotate(old(minorFill), n)
      ensures majorBorder == Rotate(old(majorBorder), n) && minorBorder == Rotate(old(minorBorder), n)
      ensures mode == old(mode) && switchLabel == old(switchLabel) && sharps == old(sharps)
      ensures major == old(major) && minor == old(minor) && offset == old(offset)
    {
      majorFill, minorFill := Rotate(majorFill, n), Rotate(minorFill, n);
      majorBorder, minorBorder := Rotate(majorBorder, n), Rotate(minorBorder, n);
    }

    /**
     * The AXIS turn of `on_container_click` for the container at index `k` of
     * `ring`: both deques turn right together until it is on top. Only `top`
     * and `left` are then reassigned by index, so each container carries its
     * fill and border along to its new slot.
     */
    method RotateTo(ring: RingKind, k: int)
      requires Valid() && 0 <= k < 12
      modifies this
      ensures Valid() && mode == old(mode) && switchLabel == old(switchLabel) && sharps == old(sharps)
      ensures Ring(ring)[0] == old(Ring(ring)[k])
      ensures forall i :: 0 <= i < 12 ==> major[i] == old(major[(i + k) % 12]) && minor[i] == old(minor[(i + k) % 12])
      ensures majorFill == Rotate(old(majorFill), (12 - k) % 12) && minorFill == Rotate(old(minorFill), (12 - k) % 12)
      ensures majorBorder == Rotate(old(majorBorder), (12 - k) % 12) && minorBorder == Rotate(old(minorBorder), (12 - k) % 12)
      ensures k == 0 ==> major == old(major) && minor == old(minor)
    {
      CarryPaint((12 - k) % 12);
      var ms, ns := major, minor;
      ghost var o := offset;
      major, minor := TurnRings(ms, ns, ring, sharps, o, k);
      TurnedNamed(ms, MajorRing, sharps, o, k);
      TurnedNamed(ns, MinorRing, sharps, o, k);
      offset := (o + (12 - k) % 12) % 12;
      assert (0 + k) % 12 == k;
      if k == 0 {
        NoTurn(ms);
        NoTurn(ns);
      }
    }

    /**
     * `on_container_click` on the container at index `k` of `ring`. Its kind
     * is read from its name. AXIS turns it to the top and repaints; COMMON
     * paints the common-notes tables shifted to it; NEGATIVE acts only on a
     * top container and paints the negative tables.
     */
    method OnContainerClick(ring: RingKind, k: int)
      requires Valid() && 0 <= k < 12
      modifies this
      ensures Valid() && mode == old(mode) && switchLabel == old(switchLabel) && sharps == old(sharps)
      ensures mode == UiCircle.Axis ==> Ring(ring)[0] == old(Ring(ring)[k])
      ensures mode == UiCircle.Axis ==> forall i :: 0 <= i < 12 ==>
        major[i] == old(major[(i + k) % 12]) && minor[i] == old(minor[(i + k) % 12])
      ensures mode == UiCircle.Axis ==> forall j :: 0 <= j < 12 ==>
        majorFill[j] == Some(AxisChords[j]) && minorFill[j] == Some(AxisChords[j])
        && majorBorder[j] == Some(Border(4, AxisBorders[j])) && minorBorder[j] == Some(Border(4, AxisBorders[j]))
      ensures mode != UiCircle.Axis ==> major == old(major) && minor == old(minor) && offset == old(offset)
      ensures mode == UiCircle.Common ==> majorBorder == old(majorBorder) && minorBorder == old(minorBorder)
      ensures mode == UiCircle.Common ==> forall r, j :: 0 <= j < 12 ==>
        Fills(r)[j] == Some(NotesTable(ring, r)[(j - k) % 12])
      ensures mode == UiCircle.Negative && k != 0 ==>
        majorFill == old(majorFill) && minorFill == old(minorFill) && majorBorder == old(majorBorder) && minorBorder == old(minorBorder)
      ensures mode == UiCircle.Negative && k == 0 ==> forall j :: 0 <= j < 12 ==>
        majorFill[j] == Some(NegativeTable(ring).major[j]) && minorFill[j] == Some(NegativeTable(ring).minor[j])
      ensures mode == UiCircle.Negative && k == 0 ==>
        Borders(ring)[0] == Some(Border(8, NegativeBorderRoot)) && Borders(Other(ring))[0] == Some(Border(2, DefaultBorder))
      ensures mode == UiCircle.Negative && k == 0 ==> forall j :: 1 <= j < 12 ==>
        majorBorder[j] == old(majorBorder[j]) && minorBorder[j] == old(minorBorder[j])
    {
      var clicked := Ring(ring)[k];
      var isMajorSelected := !EndsWithM(clicked);
      NamedTriad(Ring(ring), ring, sharps, offset, k);
      assert Selected(isMajorSelected) == ring;
      if mode == UiCircle.Axis {
        RotateTo(Selected(isMajorSelected), k);
        PaintAxis();
      } else if mode == UiCircle.Common {
        // `chord_containers.index(e.control)`: the names of a ring are all different, so the first match is `k`
        var shift := k;
        PaintCommonNotes(isMajorSelected, shift);
      } else {
        TopNames(major, minor, sharps, offset, ring, k);
        if clicked != major[0] && clicked != minor[0] {
          return;
        }
        PaintNegative(isMajorSelected);
      }
    }

    /** `on_radio_group_change`: the newly chosen mode, painted AXIS or in the default colours. */
    method OnRadioGroupChange(m: UiCircle.Mode)
      requires Valid()
      modifies this
      ensures Valid() && mode == m && switchLabel == old(switchLabel) && sharps == old(sharps) && offset == old(offset)
      ensures major == old(major) && minor == old(minor)
      ensures m == UiCircle.Axis ==> forall j :: 0 <= j < 12 ==>
        majorFill[j] == Some(AxisChords[j]) && minorFill[j] == Some(AxisChords[j])
        && majorBorder[j] == Some(Border(4, AxisBorders[j])) && minorBorder[j] == Some(Border(4, AxisBorders[j]))
      ensures m != UiCircle.Axis ==> forall j :: 0 <= j < 12 ==>
        majorFill[j] == Some(DefaultChord) && minorFill[j] == Some(DefaultChord)
        && majorBorder[j] == Some(Border(2, DefaultBorder)) && minorBorder[j] == Some(Border(2, DefaultBorder))
    {
      mode := m;
      if m == UiCircle.Axis {
        PaintAxis();
      } else {
        PaintDefault();
      }
    }

    /**
     * `on_switch_sign_change` with the switch now at `value`: both rings are
     * renamed, and the label follows unless `KeyError` was raised.
     */
    method OnSwitchSignChange(value: bool) returns (err: Option<PC.KeyError>)
      requires Valid()
      modifies this
      ensures Valid() && mode == old(mode) && offset == old(offset)
      ensures majorFill == old(majorFill) && minorFill == old(minorFill) && majorBorder == old(majorBorder) && minorBorder == old(minorBorder)
      ensures value != old(sharps) ==> err == None && sharps == value && switchLabel == SwitchLabel(value)
      ensures value != old(sharps) ==> forall i :: 0 <= i < 12 ==>
        old(major[i]) in Table(value) && major[i] == Table(value)[old(major[i])]
        && DropLast(old(minor[i])) in Table(value) && minor[i] == Table(value)[DropLast(old(minor[i]))] + "m"
      ensures value == old(sharps) ==> err.Some? && err.value.key !in Table(value)
      ensures value == old(sharps) ==> major == old(major) && minor == old(minor) && sharps == old(sharps) && switchLabel == old(switchLabel)
    {
      var ms, ns := major, minor;
      major, minor, err := SwitchSpelling(ms, ns, value, sharps, offset);
      if err.None? {
        switchLabel := if value then "Sharps" else "Flats";
        sharps := value;
      }
    }
  }
}
