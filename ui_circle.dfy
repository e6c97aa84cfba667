/**
 * The chord circle widget of src/ui/circle.py: two rings of twelve chord
 * bubbles (majors outside, minors inside) that turn together, a colouring
 * mode, Roman-numeral degree labels round the top, a sharp/flat spelling,
 * and highlighting by chosen tones.
 */
module UiCircle {
  import opened Wrappers
  import opened CoreTone
  import opened CoreChord
  import opened Palette
  import opened Rings
  import opened Harmony
  import opened Painting

  /** `Circle.Mode`: functional axes, common tones, negative harmony. */
  datatype Mode = Axis | Common | Negative

  /**
   * A `ChordBubble` as the circle uses it: its triad, the text it shows, its
   * tooltip (unset until the first relabelling), whether its border is the
   * highlighted one, and its degree label. The screen position and the fill
   * colour belong to the slot the bubble stands in (see `Circle`).
   */
  datatype Bubble = Bubble(chord: Triad, text: string, tooltip: Option<string>, highlighted: bool, degree: Option<string>)

  /** A bubble as built: flat name, no tooltip, plain border, no degree. */
  function NewBubble(c: Triad): Bubble
  {
    Bubble(c, TriadFlatName(c), None, false, None)
  }

  /** `[ChordBubble(c, ...) for c in chords]`. */
  function Built(chords: seq<Triad>): (r: seq<Bubble>)
    ensures |r| == |chords|
    ensures forall i :: 0 <= i < |chords| ==> r[i] == NewBubble(chords[i])
  {
    seq(|chords|, i requires 0 <= i < |chords| => NewBubble(chords[i]))
  }

  // ---------------------------------------------------------------------------
  // Labels and tooltips

  function Label(c: Triad, sharps: bool): string
  {
    if sharps then TriadSharpName(c) else TriadFlatName(c)
  }

  function ToneName(t: Tone, sharps: bool): string
  {
    if sharps then SharpName(t) else FlatName(t)
  }

  /** `" ".join(words)`. */
  function JoinSpaced(words: seq<string>): string
  {
    if |words| == 0 then "" else if |words| == 1 then words[0] else words[0] + " " + JoinSpaced(words[1..])
  }

  /** The tooltip `set_sharps` / `set_flats` write: the names of the three tones of the triad. */
  function Tooltip(c: Triad, sharps: bool): string
  {
    var ts := Tones(c);
    JoinSpaced([ToneName(ts[0], sharps), ToneName(ts[1], sharps), ToneName(ts[2], sharps)])
  }

  /**
   * A tooltip is the root, third and fifth names separated by single spaces;
   * no tone name holds a space, so the three names can be read back from it.
   */
  lemma TooltipWords(c: Triad, sharps: bool)
    ensures Tooltip(c, sharps)
         == ToneName(Tones(c)[0], sharps) + " " + ToneName(Tones(c)[1], sharps) + " " + ToneName(Tones(c)[2], sharps)
    ensures forall t: Tone :: ' ' !in ToneName(t, sharps)
  {
    var ts := Tones(c);
    var w := [ToneName(ts[0], sharps), ToneName(ts[1], sharps), ToneName(ts[2], sharps)];
    assert JoinSpaced(w[1..]) == w[1] + " " + w[2] by {
      assert w[1..][1..] == [w[2]];
    }
    assert w[0] + " " + (w[1] + " " + w[2]) == w[0] + " " + w[1] + " " + w[2];
    forall t: Tone ensures ' ' !in ToneName(t, sharps) {
      var i := t.idx;
      if i == 0 {} else if i == 1 {} else if i == 2 {} else if i == 3 {} else if i == 4 {} else if i == 5 {} else if i == 6 {} else if i == 7 {} else if i == 8 {} else if i == 9 {} else if i == 10 {} else {}
    }
  }

  /** E flat major in flats reads "E♭ G B♭". */
  lemma EFlatMajorTooltip()
    ensures Tooltip(Major(Tone(3)), false) == "E♭ G B♭"
  {
    TooltipWords(Major(Tone(3)), false);
  }

  /** `set_sharps` / `set_flats` on one ring: label and tooltip from the triad, everything else kept. */
  function Relabelled(bs: seq<Bubble>, sharps: bool): (r: seq<Bubble>)
    ensures |r| == |bs|
    ensures forall i :: 0 <= i < |bs| ==> r[i].chord == bs[i].chord
    ensures forall i :: 0 <= i < |bs| ==> r[i].(text := bs[i].text, tooltip := bs[i].tooltip) == bs[i]
    ensures forall i :: 0 <= i < |bs| ==>
      r[i].text == Label(bs[i].chord, sharps) && r[i].tooltip == Some(Tooltip(bs[i].chord, sharps))
  {
    seq(|bs|, i requires 0 <= i < |bs| =>
      bs[i].(text := Label(bs[i].chord, sharps), tooltip := Some(Tooltip(bs[i].chord, sharps))))
  }

  /** Only the last spelling chosen counts: toggling to sharps and back is the same as choosing flats. */
  lemma RelabelLastWins(bs: seq<Bubble>, a: bool, b: bool)
    ensures Relabelled(Relabelled(bs, a), b) == Relabelled(bs, b)
  {
    var r, s := Relabelled(Relabelled(bs, a), b), Relabelled(bs, b);
    forall i | 0 <= i < |bs| ensures r[i] == s[i] {
      assert Relabelled(bs, a)[i].chord == bs[i].chord;
    }
  }

  /** Choosing flats keeps the labels the bubbles were built with. */
  lemma FlatsKeepBuiltLabels(bs: seq<Bubble>)
    requires forall i :: 0 <= i < |bs| ==> bs[i] == NewBubble(bs[i].chord)
    ensures forall i :: 0 <= i < |bs| ==> Relabelled(bs, false)[i].text == bs[i].text
  {
  }

  /** The relabelling loop of `set_sharps` / `set_flats` over one ring. */
  method Relabel(bs: seq<Bubble>, sharps: bool) returns (r: seq<Bubble>)
    ensures r == Relabelled(bs, sharps)
  {
    r := bs;
    for i := 0 to |bs|
      invariant |r| == |bs|
      invariant forall j :: 0 <= j < i ==> r[j] == Relabelled(bs, sharps)[j]
      invariant forall j :: i <= j < |bs| ==> r[j] == bs[j]
    {
      var b := r[i];
      r := r[i := b.(text := Label(b.chord, sharps), tooltip := Some(Tooltip(b.chord, sharps)))];
    }
  }

  // ---------------------------------------------------------------------------
  // Highlighting

  /** The test of `highlight_by_tones`: every chosen tone is a tone of the triad. */
  predicate ContainsAll(c: Triad, tones: seq<Tone>)
  {
    forall t :: t in tones ==> t in Tones(c)
  }

  /** For three chosen tones the test is that each of them is a tone of the triad. */
  lemma ContainsAllThree(d: Triad, ts: seq<Tone>)
    requires |ts| == 3
    ensures ContainsAll(d, ts) <==> Has(d, ts[0]) && Has(d, ts[1]) && Has(d, ts[2])
  {
    var td := Tones(d);
    forall x ensures x in td <==> Has(d, x) {
      if x in td {
        var i :| 0 <= i < 3 && td[i] == x;
      }
    }
    if Has(d, ts[0]) && Has(d, ts[1]) && Has(d, ts[2]) {
      forall t | t in ts ensures t in td {
        var i :| 0 <= i < 3 && ts[i] == t;
      }
    } else {
      var m := if !Has(d, ts[0]) then 0 else if !Has(d, ts[1]) then 1 else 2;
      assert ts[m] in ts && ts[m] !in td;
    }
  }

  /**
   * `highlight_by_tones` on one ring: with no tone chosen nothing is
   * highlighted; otherwise a bubble is highlighted exactly when its triad
   * holds every chosen tone.
   */
  function Highlighted(bs: seq<Bubble>, tones: seq<Tone>): (r: seq<Bubble>)
    ensures |r| == |bs|
    ensures forall i :: 0 <= i < |bs| ==> r[i].chord == bs[i].chord
    ensures forall i :: 0 <= i < |bs| ==> r[i].(highlighted := bs[i].highlighted) == bs[i]
    ensures |tones| == 0 ==> forall i :: 0 <= i < |bs| ==> !r[i].highlighted
    ensures |tones| > 0 ==> forall i :: 0 <= i < |bs| ==>
      (r[i].highlighted <==> forall t :: t in tones ==> Has(bs[i].chord, t))
  {
    assert forall c, t :: t in Tones(c) <==> Has(c, t) by {
      forall c, t ensures t in Tones(c) <==> Has(c, t) {
        var ts := Tones(c);
        assert ts == [ts[0], ts[1], ts[2]];
      }
    }
    seq(|bs|, i requires 0 <= i < |bs| => bs[i].(highlighted := |tones| > 0 && ContainsAll(bs[i].chord, tones)))
  }

  /** Choosing exactly the three tones of a triad highlights that triad and no other. */
  lemma HighlightTriadTones(bs: seq<Bubble>, c: Triad)
    ensures forall i :: 0 <= i < |bs| ==> (Highlighted(bs, Tones(c))[i].highlighted <==> bs[i].chord == c)
  {
    forall i | 0 <= i < |bs| ensures Highlighted(bs, Tones(c))[i].highlighted <==> bs[i].chord == c {
      var d := bs[i].chord;
      TriadDeterminedByTones(c, d);
      ContainsAllThree(d, Tones(c));
    }
  }

  /** The highlighting loops of `highlight_by_tones` over one ring. */
  method Highlight(bs: seq<Bubble>, tones: seq<Tone>) returns (r: seq<Bubble>)
    ensures r == Highlighted(bs, tones)
  {
    r := bs;
    if |tones| == 0 {
      for i := 0 to |bs|
        invariant |r| == |bs|
        invariant forall j :: 0 <= j < i ==> r[j] == Highlighted(bs, tones)[j]
        invariant forall j :: i <= j < |bs| ==> r[j] == bs[j]
      {
        r := r[i := r[i].(highlighted := false)];
      }
      return;
    }
    for i := 0 to |bs|
      invariant |r| == |bs|
      invariant forall j :: 0 <= j < i ==> r[j] == Highlighted(bs, tones)[j]
      invariant forall j :: i <= j < |bs| ==> r[j] == bs[j]
    {
      var all := forall t | t in tones :: t in Tones(r[i].chord);
      if all {
        r := r[i := r[i].(highlighted := true)];
      } else {
        r := r[i := r[i].(highlighted := false)];
      }
    }
  }

  // ---------------------------------------------------------------------------
  // Degrees

  /** The three colours of the axis cycle are different. */
  lemma AxisCycleDistinct(a: int, b: int)
    requires 0 <= a < 3 && 0 <= b < 3
    ensures AxisCycle[a] == AxisCycle[b] <==> a == b
  {
  }

  /** The three numerals a tonic kind writes into a ring, at its indices 0, 1 and -1. */
  function DegreeNames(tonic: RingKind, ring: RingKind): (r: seq<string>)
    ensures |r| == 3
  {
    match (tonic, ring)
    case (MajorRing, MajorRing) => ["I", "IV", "V"]
    case (MajorRing, MinorRing) => ["vi", "ii", "iii"]
    case (MinorRing, MajorRing) => ["III", "VI", "VII"]
    case (MinorRing, MinorRing) => ["i", "iv", "v"]
  }

  /** The degree label at index `i` of `ring` after `set_degrees_for_major_tonic` or `..._minor_tonic`. */
  function DegreeAt(tonic: RingKind, ring: RingKind, i: int): Option<string>
  {
    var names := DegreeNames(tonic, ring);
    if i == 0 then Some(names[0]) else if i == 1 then Some(names[1]) else if i == 11 then Some(names[2]) else None
  }

  /** A Roman numeral: the scale degree it names and whether it is written in capitals (a major triad). */
  function Numeral(s: string): Option<(nat, bool)>
  {
    if s == "I" then Some((1, true)) else if s == "i" then Some((1, false))
    else if s == "II" then Some((2, true)) else if s == "ii" then Some((2, false))
    else if s == "III" then Some((3, true)) else if s == "iii" then Some((3, false))
    else if s == "IV" then Some((4, true)) else if s == "iv" then Some((4, false))
    else if s == "V" then Some((5, true)) else if s == "v" then Some((5, false))
    else if s == "VI" then Some((6, true)) else if s == "vi" then Some((6, false))
    else if s == "VII" then Some((7, true)) else if s == "vii" then Some((7, false))
    else None
  }

  /** Semitones above the tonic of the degrees of the major scale, and of the natural minor scale. */
  function ScaleStep(tonic: RingKind, degree: nat): int
    requires 1 <= degree <= 7
  {
    if tonic == MajorRing then [0, 2, 4, 5, 7, 9, 11][degree - 1] else [0, 2, 3, 5, 7, 8, 10][degree - 1]
  }

  /**
   * The triad a Roman numeral names in the major (or natural minor) key on
   * `root`: its root is the scale degree, capitals mean major, lower case minor.
   */
  function DegreeTriad(tonic: RingKind, numeral: string, root: Tone): Option<Triad>
  {
    match Numeral(numeral)
    case None => None
    case Some((n, upper)) =>
      if 1 <= n <= 7 then
        var p := ByIdx(root.idx + ScaleStep(tonic, n));
        Some(if upper then Major(p) else Minor(p))
      else None
  }

  /** The triad a recognised numeral names. */
  lemma DegreeTriadOf(tonic: RingKind, numeral: string, root: Tone, d: nat, upper: bool)
    requires Numeral(numeral) == Some((d, upper)) && 1 <= d <= 7
    ensures DegreeTriad(tonic, numeral, root)
         == Some(if upper then Major(ByIdx(root.idx + ScaleStep(tonic, d))) else Minor(ByIdx(root.idx + ScaleStep(tonic, d))))
  {
  }

  /** Where the numerals stand: index 0 at the top, index 1 one step clockwise, index -1 one step back. */
  function SlotStep(n: int): int
  {
    if n == 0 then 0 else if n == 1 then 1 else -1
  }

  /**
   * Each numeral written is a scale degree of the tonic's key, of the ring's
   * kind, lying as many fourths round the circle as its slot is from the top.
   */
  lemma NumeralsFitCircle(tonic: RingKind, ring: RingKind, n: int)
    requires 0 <= n < 3
    ensures Numeral(DegreeNames(tonic, ring)[n]).Some?
    ensures var num := Numeral(DegreeNames(tonic, ring)[n]).value;
      && 1 <= num.0 <= 7 && (num.1 <==> ring == MajorRing)
      && Congruent(5 * SlotStep(n) + RingShift(ring) - RingShift(tonic), ScaleStep(tonic, num.0))
  {
    if tonic == MajorRing && ring == MajorRing {
      if n == 0 {} else if n == 1 {} else {}
    } else if tonic == MajorRing && ring == MinorRing {
      if n == 0 {} else if n == 1 {} else {}
    } else if tonic == MinorRing && ring == MajorRing {
      if n == 0 {} else if n == 1 {} else {}
    } else {
      if n == 0 {} else if n == 1 {} else {}
    }
  }

  /** `set_degrees_*` on one ring: clear every degree, then write the three numerals at indices 0, 1 and -1. */
  method WriteDegrees(bs: seq<Bubble>, tonic: RingKind, ring: RingKind) returns (r: seq<Bubble>)
    requires |bs| == 12
    ensures |r| == 12
    ensures forall i :: 0 <= i < 12 ==> r[i] == bs[i].(degree := DegreeAt(tonic, ring, i))
  {
    var names := DegreeNames(tonic, ring);
    r := ClearDegrees(bs);
    r := r[0 := r[0].(degree := Some(names[0]))];
    r := r[1 := r[1].(degree := Some(names[1]))];
    r := r[|r| - 1 := r[|r| - 1].(degree := Some(names[2]))];
  }

  /** The clearing loop of `set_degrees_*` over one ring. */
  method ClearDegrees(bs: seq<Bubble>) returns (r: seq<Bubble>)
    ensures |r| == |bs|
    ensures forall i :: 0 <= i < |bs| ==> r[i] == bs[i].(degree := None)
  {
    r := bs;
    for i := 0 to |bs|
      invariant |r| == |bs|
      invariant forall j :: 0 <= j < i ==> r[j] == bs[j].(degree := None)
      invariant forall j :: i <= j < |bs| ==> r[j] == bs[j]
    {
      r := r[i := r[i].(degree := None)];
    }
  }

  // ---------------------------------------------------------------------------
  // The layout of a ring and the turning loop

  /** The triad of the bubble at index `i`. */
  function ChordAt(bs: seq<Bubble>, i: int): Triad
    requires 0 <= i < |bs|
  {
    bs[i].chord
  }

  /** A ring of twelve bubbles whose triads follow the circle, turned `o` places from the `circle()` order. */
  ghost predicate Laid(bs: seq<Bubble>, ring: RingKind, o: int)
  {
    |bs| == 12 && forall i :: 0 <= i < 12 ==> ChordAt(bs, i) == CircleAt(ring, i - o)
  }

  /** The triad a laid-out ring holds at index `i`. */
  lemma LaidAt(bs: seq<Bubble>, ring: RingKind, o: int, i: int)
    requires Laid(bs, ring, o) && 0 <= i < 12
    ensures bs[i].chord == CircleAt(ring, i - o)
  {
    assert ChordAt(bs, i) == bs[i].chord;
  }

  /** Changing anything but the triads keeps the layout. */
  lemma SameChordsLaid(bs: seq<Bubble>, cs: seq<Bubble>, ring: RingKind, o: int)
    requires Laid(bs, ring, o) && |cs| == |bs|
    requires forall i :: 0 <= i < |bs| ==> cs[i].chord == bs[i].chord
    ensures Laid(cs, ring, o)
  {
    forall i | 0 <= i < 12 ensures ChordAt(cs, i) == CircleAt(ring, i - o) {
      LaidAt(bs, ring, o, i);
    }
  }

  /** The bubbles built from a ring's `circle()` list are laid out untouched. */
  lemma BuiltLaid(cs: seq<Triad>, ring: RingKind)
    requires |cs| == 12 && forall i :: 0 <= i < 12 ==> cs[i] == CircleAt(ring, i)
    ensures Laid(Built(cs), ring, 0)
    ensures forall i :: 0 <= i < 12 ==> Built(cs)[i] == NewBubble(CircleAt(ring, i))
  {
    forall i | 0 <= i < 12 ensures ChordAt(Built(cs), i) == CircleAt(ring, i - 0) {
      assert i - 0 == i;
    }
  }

  /** The bubbles of a laid-out ring hold twelve different triads. */
  lemma LaidDistinct(bs: seq<Bubble>, ring: RingKind, o: int)
    requires Laid(bs, ring, o)
    ensures Distinct(bs)
  {
    forall p, q | 0 <= p < 12 && 0 <= q < 12 && bs[p] == bs[q] ensures p == q {
      LaidAt(bs, ring, o, p);
      LaidAt(bs, ring, o, q);
      CircleAtSame(ring, p - o, q - o);
      SameDifference(p - o, q - o, p, q);
      CongruentResidue(p, q);
      ModUnique(p, 12, 0, p);
      ModUnique(q, 12, 0, q);
    }
  }

  /** Turning the rings by `g` moves the layout offset by `g`. */
  lemma TurnedLayout(i: int, g: int, o: int)
    ensures Congruent((i - g) % 12 - o, i - (o + g) % 12)
  {
    var a, b := (i - g) / 12, (o + g) / 12;
    assert (i - g) % 12 == i - g - 12 * a;
    assert (o + g) % 12 == o + g - 12 * b;
    Octaves((i - g) % 12 - o, i - (o + g) % 12, -(a + b));
  }

  /** The bubbles of a ring as `Circle()` builds them, from `MajorTriad.circle()` or `MinorTriad.circle()`. */
  method InitialRing(ring: RingKind) returns (r: seq<Bubble>)
    ensures Laid(r, ring, 0)
    ensures forall i :: 0 <= i < 12 ==> r[i] == NewBubble(CircleAt(ring, i))
  {
    if ring == MajorRing {
      MajorCirclePositions();
      BuiltLaid(MajorCircle().value, MajorRing);
      r := Built(MajorCircle().value);
    } else {
      MinorCirclePositions();
      BuiltLaid(MinorCircle().value, MinorRing);
      r := Built(MinorCircle().value);
    }
  }

  /** `_rotate_to` on the two rings: `TurnTo` led by the ring of the clicked bubble. */
  method TurnRings(ms: seq<Bubble>, ns: seq<Bubble>, ring: RingKind, ghost o: int, k: int)
    returns (ms': seq<Bubble>, ns': seq<Bubble>)
    requires Laid(ms, MajorRing, o) && Laid(ns, MinorRing, o) && 0 <= k < 12
    ensures ms' == Rotate(ms, (12 - k) % 12) && ns' == Rotate(ns, (12 - k) % 12)
  {
    if ring == MajorRing {
      LaidDistinct(ms, MajorRing, o);
      ms', ns' := TurnTo(ms, ns, k);
    } else {
      LaidDistinct(ns, MinorRing, o);
      ns', ms' := TurnTo(ns, ms, k);
    }
  }

  /** After the turns of `TurnTo`, index `i` holds the bubble from `(i + k) % 12`, and the ring is still laid out. */
  lemma TurnedRing(bs: seq<Bubble>, ring: RingKind, o: int, k: int)
    requires Laid(bs, ring, o) && 0 <= k < 12
    ensures forall i {:trigger Rotate(bs, (12 - k) % 12)[i]} :: 0 <= i < 12 ==> Rotate(bs, (12 - k) % 12)[i] == bs[(i + k) % 12]
    ensures Laid(Rotate(bs, (12 - k) % 12), ring, (o + (12 - k) % 12) % 12)
  {
    var n := (12 - k) % 12;
    var r := Rotate(bs, n);
    forall i | 0 <= i < 12 ensures r[i] == bs[(i + k) % 12] {
      TurnedIndex(i, k, n);
    }
    forall i | 0 <= i < 12 ensures ChordAt(r, i) == CircleAt(ring, i - (o + n) % 12) {
      LaidAt(bs, ring, o, (i - n) % 12);
      TurnedLayout(i, n, o);
      CircleAtSame(ring, (i - n) % 12 - o, i - (o + n) % 12);
    }
  }

  // ---------------------------------------------------------------------------
  // What the colours and degrees of a laid-out ring mean

  /** AXIS: slots `j` and `j'` get one colour exactly when their roots are a multiple of 3 semitones apart. */
  lemma AxisSlot(r1: RingKind, r2: RingKind, bs: seq<Bubble>, cs: seq<Bubble>, o: int, j: int, j': int)
    requires Laid(bs, r1, o) && Laid(cs, r2, o) && 0 <= j < 12 && 0 <= j' < 12
    ensures AxisCycle[j % 3] == AxisCycle[j' % 3] <==> (bs[j].chord.root.idx - cs[j'].chord.root.idx) % 3 == 0
  {
    LaidAt(bs, r1, o, j);
    LaidAt(cs, r2, o, j');
    AxisOnCircle(r1, r2, j - o, j' - o);
    assert (j - o) - (j' - o) == j - j';
    ModDiffZero(j, j', 3);
    AxisCycleDistinct(j % 3, j' % 3);
  }

  /** AXIS on two laid-out rings: two slots share a colour exactly when their roots are a multiple of 3 semitones apart. */
  lemma AxisRings(r1: RingKind, r2: RingKind, fs: seq<Option<Colour>>, gs: seq<Option<Colour>>, bs: seq<Bubble>, cs: seq<Bubble>, o: int)
    requires Laid(bs, r1, o) && Laid(cs, r2, o) && |fs| == 12 && |gs| == 12
    requires forall j :: 0 <= j < 12 ==> fs[j] == Some(AxisCycle[j % 3]) && gs[j] == Some(AxisCycle[j % 3])
    ensures forall j, j' :: 0 <= j < 12 && 0 <= j' < 12 ==>
      (fs[j] == gs[j'] <==> (bs[j].chord.root.idx - cs[j'].chord.root.idx) % 3 == 0)
  {
    forall j, j' | 0 <= j < 12 && 0 <= j' < 12
      ensures fs[j] == gs[j'] <==> (bs[j].chord.root.idx - cs[j'].chord.root.idx) % 3 == 0
    {
      AxisSlot(r1, r2, bs, cs, o, j, j');
    }
  }

  /** Equal distances have equal remainders. */
  lemma ModOfEqual(x: int, y: int)
    requires x == y
    ensures x % 12 == y % 12
  {
  }

  /** COMMON on a ring turned by `o`: the entry for slot `j` when slot `k` was clicked. */
  lemma CommonColouringTurned(selected: RingKind, ring: RingKind, j: int, k: int, o: int)
    ensures CommonTable(selected, ring)[(j - k) % 12]
         == OverlapColour(Shared(CircleAt(ring, j - o), CircleAt(selected, k - o)))
  {
    var a, b := j - o, k - o;
    ModOfEqual(a - b, j - k);
    CommonColouring(selected, ring, a, b, (j - k) % 12);
    assert CircleAt(ring, a) == CircleAt(ring, j - o);
    assert CircleAt(selected, b) == CircleAt(selected, k - o);
  }

  /** NEGATIVE on rings turned by `o`: the entries for the major at `j` and the minor at `i` when slot `k` was clicked. */
  lemma NegativeColouringTurned(selected: RingKind, j: int, i: int, k: int, o: int)
    ensures NegativeTable(selected).major[(j - k) % 12] == NegativeTable(selected).minor[(i - k) % 12]
        <==> CircleAt(MinorRing, i - o) == NegativeOf(CircleAt(MajorRing, j - o), CircleAt(selected, k - o).root)
  {
    var p, q, t := j - o, i - o, k - o;
    ModOfEqual(p - t, j - k);
    ModOfEqual(q - t, i - k);
    NegativeColouring(selected, p, q, t, (j - k) % 12, (i - k) % 12);
    assert CircleAt(MajorRing, p) == CircleAt(MajorRing, j - o);
    assert CircleAt(MinorRing, q) == CircleAt(MinorRing, i - o);
    assert CircleAt(selected, t) == CircleAt(selected, k - o);
  }

  /** COMMON: the entry for slot `j` is the colour of the number of tones its triad shares with the one at `k`. */
  lemma CommonSlot(selected: RingKind, ring: RingKind, bs: seq<Bubble>, cs: seq<Bubble>, o: int, j: int, k: int)
    requires Laid(bs, ring, o) && Laid(cs, selected, o) && 0 <= j < 12 && 0 <= k < 12
    ensures CommonTable(selected, ring)[(j - k) % 12] == OverlapColour(Shared(bs[j].chord, cs[k].chord))
  {
    LaidAt(bs, ring, o, j);
    LaidAt(cs, selected, o, k);
    CommonColouringTurned(selected, ring, j, k, o);
  }

  /** NEGATIVE: the major at `j` and the minor at `i` get one colour exactly when the minor is the major's negative. */
  lemma NegativeSlot(selected: RingKind, ms: seq<Bubble>, ns: seq<Bubble>, cs: seq<Bubble>, o: int, j: int, i: int, k: int)
    requires Laid(ms, MajorRing, o) && Laid(ns, MinorRing, o) && Laid(cs, selected, o)
    requires 0 <= j < 12 && 0 <= i < 12 && 0 <= k < 12
    ensures NegativeTable(selected).major[(j - k) % 12] == NegativeTable(selected).minor[(i - k) % 12]
        <==> ns[i].chord == NegativeOf(ms[j].chord, cs[k].chord.root)
  {
    LaidAt(ms, MajorRing, o, j);
    LaidAt(ns, MinorRing, o, i);
    LaidAt(cs, selected, o, k);
    NegativeColouringTurned(selected, j, i, k, o);
  }

  /** NEGATIVE: within a ring, two slots share a colour only when they are the same slot. */
  lemma NegativeRowsDistinct(selected: RingKind, j: int, j': int, k: int)
    requires 0 <= j < 12 && 0 <= j' < 12 && 0 <= k < 12
    ensures NegativeTable(selected).major[(j - k) % 12] == NegativeTable(selected).major[(j' - k) % 12] <==> j == j'
    ensures NegativeTable(selected).minor[(j - k) % 12] == NegativeTable(selected).minor[(j' - k) % 12] <==> j == j'
  {
    NegativeMajorRingDistinct(selected, (j - k) % 12, (j' - k) % 12);
    NegativeMinorRingDistinct(selected, (j - k) % 12, (j' - k) % 12);
    ModDiffZero(j - k, j' - k, 12);
    ModUnique(j, 12, 0, j);
    ModUnique(j', 12, 0, j');
    ModDiffZero(j, j', 12);
  }

  /** Which of the three numerals of a ring is written at index `i` (0, 1 or -1, that is 11). */
  function SlotOf(i: int): int
  {
    if i == 0 then 0 else if i == 1 then 1 else 2
  }

  /** The slots that receive a numeral stand `SlotStep` places from the top. */
  lemma SlotPosition(ring: RingKind, i: int, o: int)
    requires i == 0 || i == 1 || i == 11
    ensures CircleAt(ring, i - o) == CircleAt(ring, 0 - o + SlotStep(SlotOf(i)))
  {
    CircleAtSame(ring, i - o, 0 - o + SlotStep(SlotOf(i)));
    assert i - o - (0 - o + SlotStep(SlotOf(i))) == if i == 11 then 12 else 0;
  }

  /** On a circle turned by `o`, the numeral at index `i` names the triad there, in the key of the triad at the top of `tonic`. */
  lemma DegreeOnCircle(tonic: RingKind, ring: RingKind, o: int, i: int)
    requires DegreeAt(tonic, ring, i).Some?
    ensures DegreeTriad(tonic, DegreeAt(tonic, ring, i).value, CircleAt(tonic, 0 - o).root) == Some(CircleAt(ring, i - o))
  {
    var n := SlotOf(i);
    assert DegreeAt(tonic, ring, i) == Some(DegreeNames(tonic, ring)[n]);
    NumeralsFitCircle(tonic, ring, n);
    var num := Numeral(DegreeNames(tonic, ring)[n]).value;
    RootStep(tonic, 0 - o, ring, SlotStep(n), ScaleStep(tonic, num.0));
    SlotPosition(ring, i, o);
    DegreeTriadOf(tonic, DegreeNames(tonic, ring)[n], CircleAt(tonic, 0 - o).root, num.0, num.1);
  }

  /** A degree label written at index `i` names, in the key of the triad at the top of `tonic`, the triad at `i`. */
  lemma DegreeSlot(tonic: RingKind, ring: RingKind, ts: seq<Bubble>, bs: seq<Bubble>, o: int, i: int)
    requires Laid(ts, tonic, o) && Laid(bs, ring, o) && 0 <= i < 12 && DegreeAt(tonic, ring, i).Some?
    ensures DegreeTriad(tonic, DegreeAt(tonic, ring, i).value, ts[0].chord.root) == Some(bs[i].chord)
  {
    LaidAt(ts, tonic, o, 0);
    LaidAt(bs, ring, o, i);
    DegreeOnCircle(tonic, ring, o, i);
  }

  // ---------------------------------------------------------------------------
  // The widget

  /**
   * `Circle`. Index 0 of each ring is the top slot. The rings hold the bubbles
   * in slot order; `majorFill` / `minorFill` hold the fill of each slot
   * (its `bgcolor`, `None` before the first painting), and `shownDegree` the
   * degree in the middle of the circle (`None` when it is hidden).
   * `offset` records how far the rings have been turned from the order of
   * `circle()`.
   */
  class Circle {
    var mode: Mode
    var major: seq<Bubble>
    var minor: seq<Bubble>
    var majorFill: seq<Option<Colour>>
    var minorFill: seq<Option<Colour>>
    var shownDegree: Option<string>
    ghost var offset: int

    /** Twelve slots a ring, the rings turned by the same amount, so minor[i] is the relative minor of major[i]. */
    ghost predicate Valid()
      reads this
    {
      && |majorFill| == 12 && |minorFill| == 12 && 0 <= offset < 12
      && Laid(major, MajorRing, offset) && Laid(minor, MinorRing, offset)
    }

    function Ring(ring: RingKind): seq<Bubble>
      reads this
    {
      if ring == MajorRing then major else minor
    }

    function Fills(ring: RingKind): seq<Option<Colour>>
      reads this
    {
      if ring == MajorRing then majorFill else minorFill
    }

    /** `Circle()`: the bubbles of `MajorTriad.circle()` and `MinorTriad.circle()` in order, unpainted. */
    constructor ()
      ensures Valid() && offset == 0 && mode == Axis && shownDegree == None
      ensures forall i :: 0 <= i < 12 ==> major[i] == NewBubble(CircleAt(MajorRing, i)) && majorFill[i] == None
      ensures forall i :: 0 <= i < 12 ==> minor[i] == NewBubble(CircleAt(MinorRing, i)) && minorFill[i] == None
    {
      var ms := InitialRing(MajorRing);
      var ns := InitialRing(MinorRing);
      mode := Axis;
      major := ms;
      minor := ns;
      majorFill := seq(12, _ => None);
      minorFill := seq(12, _ => None);
      shownDegree := None;
      offset := 0;
    }

    /** The colours of AXIS mode follow the functional axes of the circle. */
    lemma AxisFillsAreAxes()
      requires Valid()
      requires forall j :: 0 <= j < 12 ==> majorFill[j] == Some(AxisCycle[j % 3]) && minorFill[j] == Some(AxisCycle[j % 3])
      ensures forall r1, r2, j, j' :: 0 <= j < 12 && 0 <= j' < 12 ==>
        (Fills(r1)[j] == Fills(r2)[j'] <==> (Ring(r1)[j].chord.root.idx - Ring(r2)[j'].chord.root.idx) % 3 == 0)
    {
      forall r1, r2 ensures forall j, j' :: 0 <= j < 12 && 0 <= j' < 12 ==>
        (Fills(r1)[j] == Fills(r2)[j'] <==> (Ring(r1)[j].chord.root.idx - Ring(r2)[j'].chord.root.idx) % 3 == 0)
      {
        AxisRings(r1, r2, Fills(r1), Fills(r2), Ring(r1), Ring(r2), offset);
      }
    }

    /**
     * `paint_axis`: slot `j` of either ring gets the `j % 3`-th colour of the
     * cycle, so two bubbles share a colour exactly when their roots are a
     * multiple of a minor third apart.
     */
    method PaintAxis()
      requires Valid()
      modifies this
      ensures Valid() && mode == old(mode) && major == old(major) && minor == old(minor)
      ensures shownDegree == old(shownDegree) && offset == old(offset)
      ensures forall j :: 0 <= j < 12 ==> majorFill[j] == Some(AxisCycle[j % 3]) && minorFill[j] == Some(AxisCycle[j % 3])
      ensures forall r1, r2, j, j' :: 0 <= j < 12 && 0 <= j' < 12 ==>
        (Fills(r1)[j] == Fills(r2)[j'] <==> (Ring(r1)[j].chord.root.idx - Ring(r2)[j'].chord.root.idx) % 3 == 0)
    {
      majorFill := PaintInOrder(majorFill, AxisCycle);
      minorFill := PaintInOrder(minorFill, AxisCycle);
      AxisFillsAreAxes();
    }

    /** `paint_grey`: every slot of both rings is BLUE_GREY_200. */
    method PaintGrey()
      requires Valid()
      modifies this
      ensures Valid() && mode == old(mode) && major == old(major) && minor == old(minor)
      ensures shownDegree == old(shownDegree) && offset == old(offset)
      ensures forall j :: 0 <= j < 12 ==> majorFill[j] == Some(Grey) && minorFill[j] == Some(Grey)
    {
      majorFill := PaintAll(majorFill, Grey);
      minorFill := PaintAll(minorFill, Grey);
    }

    /**
     * `paint_common` for the bubble at index `k` of `selected`: slot `j` gets
     * entry `(j - k) % 12` of the table, which is the colour of the number of
     * tones its triad shares with the clicked one; the clicked bubble is black.
     */
    method PaintCommon(selected: RingKind, k: int)
      requires Valid() && 0 <= k < 12
      modifies this
      ensures Valid() && mode == old(mode) && major == old(major) && minor == old(minor)
      ensures shownDegree == old(shownDegree) && offset == old(offset)
      ensures forall j :: 0 <= j < 12 ==>
        majorFill[j] == Some(CommonTable(selected, MajorRing)[(j - k) % 12])
        && minorFill[j] == Some(CommonTable(selected, MinorRing)[(j - k) % 12])
      ensures forall r, j :: 0 <= j < 12 ==>
        Fills(r)[j] == Some(OverlapColour(Shared(Ring(r)[j].chord, Ring(selected)[k].chord)))
      ensures Fills(selected)[k] == Some(Black)
    {
      majorFill := PaintInOrder(majorFill, Rotate(CommonTable(selected, MajorRing), k));
      minorFill := PaintInOrder(minorFill, Rotate(CommonTable(selected, MinorRing), k));
      RotatedPaint(majorFill, CommonTable(selected, MajorRing), k);
      RotatedPaint(minorFill, CommonTable(selected, MinorRing), k);
      forall r, j | 0 <= j < 12
        ensures Fills(r)[j] == Some(OverlapColour(Shared(Ring(r)[j].chord, Ring(selected)[k].chord)))
      {
        CommonSlot(selected, r, Ring(r), Ring(selected), offset, j, k);
      }
    }

    /**
     * `paint_negative` for the bubble at index `k` of `selected`: slot `j`
     * gets entry `(j - k) % 12` of the table. No colour repeats within a
     * ring, and a major and a minor share their colour exactly when the minor
     * is the negative of the major in the key of the clicked triad.
     */
    method PaintNegative(selected: RingKind, k: int)
      requires Valid() && 0 <= k < 12
      modifies this
      ensures Valid() && mode == old(mode) && major == old(major) && minor == old(minor)
      ensures shownDegree == old(shownDegree) && offset == old(offset)
      ensures forall j :: 0 <= j < 12 ==>
        majorFill[j] == Some(NegativeTable(selected).major[(j - k) % 12])
        && minorFill[j] == Some(NegativeTable(selected).minor[(j - k) % 12])
      ensures forall j, i :: 0 <= j < 12 && 0 <= i < 12 ==>
        (majorFill[j] == minorFill[i] <==> minor[i].chord == NegativeOf(major[j].chord, Ring(selected)[k].chord.root))
      ensures forall j, j' :: 0 <= j < 12 && 0 <= j' < 12 ==> (majorFill[j] == majorFill[j'] <==> j == j')
      ensures forall i, i' :: 0 <= i < 12 && 0 <= i' < 12 ==> (minorFill[i] == minorFill[i'] <==> i == i')
      ensures Fills(selected)[k] == Some(Black)
    {
      var t := NegativeTable(selected);
      majorFill := PaintInOrder(majorFill, Rotate(t.major, k));
      minorFill := PaintInOrder(minorFill, Rotate(t.minor, k));
      RotatedPaint(majorFill, t.major, k);
      RotatedPaint(minorFill, t.minor, k);
      forall j, i | 0 <= j < 12 && 0 <= i < 12
        ensures majorFill[j] == minorFill[i] <==> minor[i].chord == NegativeOf(major[j].chord, Ring(selected)[k].chord.root)
      {
        NegativeSlot(selected, major, minor, Ring(selected), offset, j, i, k);
      }
      forall j, j' | 0 <= j < 12 && 0 <= j' < 12
        ensures majorFill[j] == majorFill[j'] <==> j == j'
        ensures minorFill[j] == minorFill[j'] <==> j == j'
      {
        NegativeRowsDistinct(selected, j, j', k);
      }
    }

    /** `set_mode`: AXIS repaints the axis colours, the other modes paint every slot grey. */
    method SetMode(m: Mode)
      requires Valid()
      modifies this
      ensures Valid() && mode == m && major == old(major) && minor == old(minor)
      ensures shownDegree == old(shownDegree) && offset == old(offset)
      ensures m == Axis ==> forall j :: 0 <= j < 12 ==> majorFill[j] == Some(AxisCycle[j % 3]) && minorFill[j] == Some(AxisCycle[j % 3])
      ensures m != Axis ==> forall j :: 0 <= j < 12 ==> majorFill[j] == Some(Grey) && minorFill[j] == Some(Grey)
    {
      mode := m;
      if m == Axis {
        PaintAxis();
      } else {
        PaintGrey();
      }
    }

    /** `set_sharps` (`sharps`) and `set_flats`: only labels and tooltips change. */
    method SetSpelling(sharps: bool)
      requires Valid()
      modifies this
      ensures Valid() && mode == old(mode) && majorFill == old(majorFill) && minorFill == old(minorFill)
      ensures shownDegree == old(shownDegree) && offset == old(offset)
      ensures major == Relabelled(old(major), sharps) && minor == Relabelled(old(minor), sharps)
    {
      major := Relabel(major, sharps);
      minor := Relabel(minor, sharps);
      SameChordsLaid(old(major), major, MajorRing, offset);
      SameChordsLaid(old(minor), minor, MinorRing, offset);
    }

    /** `highlight_by_tones`: only the highlight flags change. */
    method HighlightByTones(tones: seq<Tone>)
      requires Valid()
      modifies this
      ensures Valid() && mode == old(mode) && majorFill == old(majorFill) && minorFill == old(minorFill)
      ensures shownDegree == old(shownDegree) && offset == old(offset)
      ensures major == Highlighted(old(major), tones) && minor == Highlighted(old(minor), tones)
    {
      major := Highlight(major, tones);
      minor := Highlight(minor, tones);
      SameChordsLaid(old(major), major, MajorRing, offset);
      SameChordsLaid(old(minor), minor, MinorRing, offset);
    }

    /**
     * Read with the triad at the top of `tonic` as the tonic, every degree
     * label a `set_degrees_*` call writes names the triad of its slot.
     */
    lemma DegreesNameTheKey(tonic: RingKind)
      requires Valid()
      ensures forall r, i :: 0 <= i < 12 && DegreeAt(tonic, r, i).Some? ==>
        DegreeTriad(tonic, DegreeAt(tonic, r, i).value, Ring(tonic)[0].chord.root) == Some(Ring(r)[i].chord)
    {
      forall r, i | 0 <= i < 12 && DegreeAt(tonic, r, i).Some?
        ensures DegreeTriad(tonic, DegreeAt(tonic, r, i).value, Ring(tonic)[0].chord.root) == Some(Ring(r)[i].chord)
      {
        DegreeSlot(tonic, r, Ring(tonic), Ring(r), offset, i);
      }
    }

    /** `set_degrees_for_major_tonic` (`tonic` is the major ring) and `set_degrees_for_minor_tonic`. */
    method SetDegrees(tonic: RingKind)
      requires Valid()
      modifies this
      ensures Valid() && mode == old(mode) && majorFill == old(majorFill) && minorFill == old(minorFill)
      ensures shownDegree == old(shownDegree) && offset == old(offset)
      ensures forall i :: 0 <= i < 12 ==>
        major[i] == old(major[i]).(degree := DegreeAt(tonic, MajorRing, i))
        && minor[i] == old(minor[i]).(degree := DegreeAt(tonic, MinorRing, i))
    {
      ghost var ms, ns := major, minor;
      major := WriteDegrees(major, tonic, MajorRing);
      minor := WriteDegrees(minor, tonic, MinorRing);
      SameChordsLaid(ms, major, MajorRing, offset);
      SameChordsLaid(ns, minor, MinorRing, offset);
    }

    /**
     * `_rotate_to` the bubble at index `k` of `ring`: both rings turn right
     * one step at a time, together, until that bubble is on top. The slots keep
     * their fills; the bubble from index `(i + k) % 12` now stands at `i`.
     */
    method RotateTo(ring: RingKind, k: int)
      requires Valid() && 0 <= k < 12
      modifies this
      ensures Valid() && mode == old(mode) && majorFill == old(majorFill) && minorFill == old(minorFill)
      ensures shownDegree == old(shownDegree)
      ensures major == Rotate(old(major), (12 - k) % 12) && minor == Rotate(old(minor), (12 - k) % 12)
      ensures Ring(ring)[0] == old(Ring(ring)[k])
      ensures forall i :: 0 <= i < 12 ==> major[i] == old(major[(i + k) % 12]) && minor[i] == old(minor[(i + k) % 12])
      ensures k == 0 ==> major == old(major) && minor == old(minor)
    {
      var ms, ns := major, minor;
      ghost var o := offset;
      major, minor := TurnRings(ms, ns, ring, o, k);
      TurnedRing(ms, MajorRing, o, k);
      TurnedRing(ns, MinorRing, o, k);
      offset := (o + (12 - k) % 12) % 12;
      assert (0 + k) % 12 == k;
      if k == 0 {
        NoTurn(ms);
        NoTurn(ns);
      }
    }

    /**
     * The mode branch of `_on_bubble_click` on the bubble at index `k` of
     * `ring`. In AXIS mode the rings turn it to the top and are repainted; in
     * COMMON and NEGATIVE mode the rings stay put and are recoloured.
     */
    method Recolour(ring: RingKind, k: int)
      requires Valid() && 0 <= k < 12
      modifies this
      ensures Valid() && mode == old(mode) && shownDegree == old(shownDegree)
      ensures mode == Axis ==> Ring(ring)[0] == old(Ring(ring)[k])
      ensures mode == Axis ==> major == Rotate(old(major), (12 - k) % 12) && minor == Rotate(old(minor), (12 - k) % 12)
      ensures mode == Axis ==> forall i :: 0 <= i < 12 ==> major[i] == old(major[(i + k) % 12]) && minor[i] == old(minor[(i + k) % 12])
      ensures mode == Axis ==> forall j :: 0 <= j < 12 ==>
        majorFill[j] == Some(AxisCycle[j % 3]) && minorFill[j] == Some(AxisCycle[j % 3])
      ensures mode != Axis ==> major == old(major) && minor == old(minor)
      ensures mode == Common ==> forall j :: 0 <= j < 12 ==>
        majorFill[j] == Some(CommonTable(ring, MajorRing)[(j - k) % 12])
        && minorFill[j] == Some(CommonTable(ring, MinorRing)[(j - k) % 12])
      ensures mode == Common ==> forall r, j :: 0 <= j < 12 ==>
        Fills(r)[j] == Some(OverlapColour(Shared(Ring(r)[j].chord, Ring(ring)[k].chord)))
      ensures mode == Negative ==> forall j :: 0 <= j < 12 ==>
        majorFill[j] == Some(NegativeTable(ring).major[(j - k) % 12])
        && minorFill[j] == Some(NegativeTable(ring).minor[(j - k) % 12])
      ensures mode == Negative ==> forall j, i :: 0 <= j < 12 && 0 <= i < 12 ==>
        (majorFill[j] == minorFill[i] <==> minor[i].chord == NegativeOf(major[j].chord, Ring(ring)[k].chord.root))
    {
      if mode == Axis {
        RotateTo(ring, k);
        PaintAxis();
      } else if mode == Common {
        PaintCommon(ring, k);
      } else {
        PaintNegative(ring, k);
      }
    }

    /**
     * `_on_bubble_click` on the bubble at index `k` of `ring`: the mode
     * branch, then the degrees are written for a tonic of the clicked kind;
     * after an AXIS click each of them names its triad in the key of the
     * clicked triad. The colours and the triads of the slots are those the
     * mode branch left.
     */
    method OnBubbleClick(ring: RingKind, k: int)
      requires Valid() && 0 <= k < 12
      modifies this
      ensures Valid() && mode == old(mode) && shownDegree == old(shownDegree)
      ensures old(mode) == Axis ==> forall i :: 0 <= i < 12 ==>
        major[i] == old(major[(i + k) % 12]).(degree := DegreeAt(ring, MajorRing, i))
        && minor[i] == old(minor[(i + k) % 12]).(degree := DegreeAt(ring, MinorRing, i))
      ensures old(mode) != Axis ==> forall i :: 0 <= i < 12 ==>
        major[i] == old(major[i]).(degree := DegreeAt(ring, MajorRing, i))
        && minor[i] == old(minor[i]).(degree := DegreeAt(ring, MinorRing, i))
      ensures old(mode) == Axis ==> Ring(ring)[0].chord == old(Ring(ring)[k].chord)
      ensures old(mode) == Axis ==> forall r, i :: 0 <= i < 12 && DegreeAt(ring, r, i).Some? ==>
        DegreeTriad(ring, DegreeAt(ring, r, i).value, old(Ring(ring)[k].chord.root)) == Some(Ring(r)[i].chord)
      ensures old(mode) != Axis ==> forall i :: 0 <= i < 12 ==>
        major[i].chord == old(major[i].chord) && minor[i].chord == old(minor[i].chord)
      ensures forall i :: 0 <= i < 12 ==>
        major[i].degree == DegreeAt(ring, MajorRing, i) && minor[i].degree == DegreeAt(ring, MinorRing, i)
      ensures old(mode) == Axis ==> forall j :: 0 <= j < 12 ==>
        majorFill[j] == Some(AxisCycle[j % 3]) && minorFill[j] == Some(AxisCycle[j % 3])
      ensures old(mode) == Common ==> forall j :: 0 <= j < 12 ==>
        majorFill[j] == Some(CommonTable(ring, MajorRing)[(j - k) % 12])
        && minorFill[j] == Some(CommonTable(ring, MinorRing)[(j - k) % 12])
      ensures old(mode) == Negative ==> forall j :: 0 <= j < 12 ==>
        majorFill[j] == Some(NegativeTable(ring).major[(j - k) % 12])
        && minorFill[j] == Some(NegativeTable(ring).minor[(j - k) % 12])
    {
      Recolour(ring, k);
      ghost var ms, ns := major, minor;
      SetDegrees(ring);
      assert ring == MajorRing ==> major[0].chord == ms[0].chord;
      assert ring == MinorRing ==> minor[0].chord == ns[0].chord;
      DegreesNameTheKey(ring);
    }

    /** `_on_bubble_hover_begin`: in AXIS mode show the bubble's degree, or hide it when it has none. */
    method HoverBegin(ring: RingKind, k: int)
      requires Valid() && 0 <= k < 12
      modifies this
      ensures Valid() && mode == old(mode) && major == old(major) && minor == old(minor)
      ensures majorFill == old(majorFill) && minorFill == old(minorFill) && offset == old(offset)
      ensures mode != Axis ==> shownDegree == old(shownDegree)
      ensures mode == Axis && Ring(ring)[k].degree.Some? && Ring(ring)[k].degree.value != "" ==> shownDegree == Ring(ring)[k].degree
      ensures mode == Axis && (Ring(ring)[k].degree.None? || Ring(ring)[k].degree.value == "") ==> shownDegree == None
    {
      if mode != Axis {
        return;
      }
      var d := Ring(ring)[k].degree;
      if d.Some? && d.value != "" {
        shownDegree := d;
      } else {
        shownDegree := None;
      }
    }

    /** `_on_bubble_hover_end`: in AXIS mode hide the degree. */
    method HoverEnd()
      requires Valid()
      modifies this
      ensures Valid() && mode == old(mode) && major == old(major) && minor == old(minor)
      ensures majorFill == old(majorFill) && minorFill == old(minorFill) && offset == old(offset)
      ensures shownDegree == if mode == Axis then None else old(shownDegree)
    {
      if mode != Axis {
        return;
      }
      shownDegree := None;
    }
  }
}
