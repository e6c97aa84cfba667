/**
 * The earlier widget of ui.py: the `Circle` control over the chords of
 * chord.py, without degrees, tooltips or highlighting. Its containers show a
 * name and are compared by value (the chords of a ring are all different).
 */
module ProtoUi {
  import opened Wrappers
  import opened Rings
  import opened Painting
  import opened Palette
  import opened CoreTone
  import opened CoreChord
  import opened Harmony
  import UiCircle
  import PC = ProtoChord

  /** `ChordContainer`: its chord and the text it shows. Its fill belongs to the slot it stands in (see `Circle`). */
  datatype Container = Container(chord: PC.Chord, text: string)

  /**
   * The triad a chord of chord.py names: its root spelling read as a pitch
   * class (a spelling no reading accepts is taken as C; such roots never reach
   * the rings).
   */
  function TriadOf(c: PC.Chord): Triad
  {
    var p := match PC.Spelled(c.root) case Some(v) => v case None => 0;
    if c.isMajor then Major(Tone(p)) else Minor(Tone(p))
  }

  /** Chord `p` of the list `Chord.all_triads()` gives for a ring. */
  function OnCircle(ring: RingKind, p: int): PC.Chord
    requires 0 <= p < 12
  {
    if ring == MajorRing then PC.AllTriads().0[p] else PC.AllTriads().1[p]
  }

  /** Chord `p` of a ring has a known root and names the triad at circle position `p`. */
  lemma OnCircleTriad(ring: RingKind, p: int)
    requires 0 <= p < 12
    ensures OnCircle(ring, p).root in PC.SharpTable && OnCircle(ring, p).isMajor == (ring == MajorRing)
    ensures TriadOf(OnCircle(ring, p)) == CircleAt(ring, p)
  {
    PC.RootsAt(p);
    PC.ModAddNine(5 * p);
  }

  /** The chord of the container at index `i`. */
  function ChordAt(cs: seq<Container>, i: int): PC.Chord
    requires 0 <= i < |cs|
  {
    cs[i].chord
  }

  /** Twelve containers holding a ring's `all_triads` list turned `o` places to the right. */
  ghost predicate Placed(cs: seq<Container>, ring: RingKind, o: int)
  {
    |cs| == 12 && forall i :: 0 <= i < 12 ==> ChordAt(cs, i) == OnCircle(ring, (i - o) % 12)
  }

  /** The chord a placed ring holds at index `i`: a known root, naming the triad at circle position `i - o`. */
  lemma PlacedAt(cs: seq<Container>, ring: RingKind, o: int, i: int)
    requires Placed(cs, ring, o) && 0 <= i < 12
    ensures cs[i].chord == OnCircle(ring, (i - o) % 12)
    ensures cs[i].chord.root in PC.SharpTable
    ensures TriadOf(cs[i].chord) == CircleAt(ring, i - o)
  {
    assert ChordAt(cs, i) == cs[i].chord;
    OnCircleTriad(ring, (i - o) % 12);
    CongruentResidue((i - o) % 12, i - o);
    ModUnique((i - o) % 12, 12, 0, (i - o) % 12);
    CircleAtSame(ring, (i - o) % 12, i - o);
  }

  /** Every chord of a placed ring has a known root. */
  predicate Known(cs: seq<Container>)
  {
    forall i :: 0 <= i < |cs| ==> cs[i].chord.root in PC.SharpTable
  }

  lemma PlacedKnown(cs: seq<Container>, ring: RingKind, o: int)
    requires Placed(cs, ring, o)
    ensures Known(cs)
  {
    forall i | 0 <= i < 12 ensures cs[i].chord.root in PC.SharpTable {
      PlacedAt(cs, ring, o, i);
    }
  }

  /** Changing anything but the chords keeps the placement. */
  lemma SameChordsPlaced(cs: seq<Container>, ds: seq<Container>, ring: RingKind, o: int)
    requires Placed(cs, ring, o) && |ds| == |cs|
    requires forall i :: 0 <= i < |cs| ==> ds[i].chord == cs[i].chord
    ensures Placed(ds, ring, o)
  {
    forall i | 0 <= i < 12 ensures ChordAt(ds, i) == OnCircle(ring, (i - o) % 12) {
      assert ChordAt(cs, i) == cs[i].chord;
    }
  }

  // ---------------------------------------------------------------------------
  // Names

  /** `chord.sharp_name` (`sharps`) or `chord.flat_name` of a chord with a known root. */
  function Name(c: PC.Chord, sharps: bool): string
    requires c.root in PC.SharpTable
  {
    PC.NamesAndSuffix(c);
    if sharps then PC.SharpName(c).value else PC.FlatName(c).value
  }

  /** `ChordContainer(c, ...)`: a container built shows the flat name. */
  function NewContainer(c: PC.Chord): Container
    requires c.root in PC.SharpTable
  {
    Container(c, Name(c, false))
  }

  /** `set_sharps` / `set_flats` on one ring: every text from the chord, the chords kept. */
  function Relabelled(cs: seq<Container>, sharps: bool): (r: seq<Container>)
    requires Known(cs)
    ensures |r| == |cs|
    ensures forall i :: 0 <= i < |cs| ==> r[i].chord == cs[i].chord
  {
    seq(|cs|, i requires 0 <= i < |cs| => cs[i].(text := Name(cs[i].chord, sharps)))
  }

  /**
   * A relabelled container shows its chord's name in the chosen spelling:
   * the dictionary entry of its root, with one "m" appended for a minor.
   * Only the last spelling chosen counts, and choosing flats gives back the
   * texts the containers were built with.
   */
  lemma RelabelledTexts(cs: seq<Container>, a: bool, b: bool)
    requires Known(cs)
    ensures forall i :: 0 <= i < |cs| ==>
      Relabelled(cs, a)[i].text
      == PC.Suffixed(if a then PC.SharpTable[cs[i].chord.root] else PC.FlatTable[cs[i].chord.root], cs[i].chord.isMajor)
    ensures Relabelled(Relabelled(cs, a), b) == Relabelled(cs, b)
    ensures (forall i :: 0 <= i < |cs| ==> cs[i] == NewContainer(cs[i].chord)) ==> Relabelled(cs, false) == cs
  {
    forall i | 0 <= i < |cs|
      ensures Relabelled(cs, a)[i].text ==
        PC.Suffixed(if a then PC.SharpTable[cs[i].chord.root] else PC.FlatTable[cs[i].chord.root], cs[i].chord.isMajor)
    {
      PC.NamesAndSuffix(cs[i].chord);
    }
    var r, s := Relabelled(Relabelled(cs, a), b), Relabelled(cs, b);
    forall i | 0 <= i < |cs| ensures r[i] == s[i] {
      assert Relabelled(cs, a)[i].chord == cs[i].chord;
    }
  }

  /** The relabelling loop of `set_sharps` / `set_flats` over one ring. */
  method Relabel(cs: seq<Container>, sharps: bool) returns (r: seq<Container>)
    requires Known(cs)
    ensures r == Relabelled(cs, sharps)
  {
    r := cs;
    for i := 0 to |cs|
      invariant |r| == |cs|
      invariant forall j :: 0 <= j < i ==> r[j] == Relabelled(cs, sharps)[j]
      invariant forall j :: i <= j < |cs| ==> r[j] == cs[j]
    {
      var c := r[i];
      r := r[i := c.(text := Name(c.chord, sharps))];
    }
  }

  /** The containers `Circle()` builds for a ring from `Chord.all_triads()`, in order. */
  function InitialRing(ring: RingKind): (r: seq<Container>)
    ensures |r| == 12
  {
    seq(12, p requires 0 <= p < 12 => OnCircleTriad(ring, p); NewContainer(OnCircle(ring, p)))
  }

  /** The initial ring is placed untouched, and each container shows the flat name of its chord. */
  lemma InitialRingPlaced(ring: RingKind)
    ensures Placed(InitialRing(ring), ring, 0)
    ensures forall i :: 0 <= i < 12 ==> InitialRing(ring)[i] == NewContainer(OnCircle(ring, i))
  {
    var r := InitialRing(ring);
    forall i | 0 <= i < 12 ensures ChordAt(r, i) == OnCircle(ring, (i - 0) % 12) {
      ModUnique(i - 0, 12, 0, i);
    }
  }

  // ---------------------------------------------------------------------------
  // The turning loop

  /** The containers of a placed ring hold twelve different chords. */
  lemma PlacedDistinct(cs: seq<Container>, ring: RingKind, o: int)
    requires Placed(cs, ring, o)
    ensures Distinct(cs)
  {
    forall p, q | 0 <= p < 12 && 0 <= q < 12 && cs[p] == cs[q] ensures p == q {
      PlacedAt(cs, ring, o, p);
      PlacedAt(cs, ring, o, q);
      CircleAtSame(ring, p - o, q - o);
      SameDifference(p - o, q - o, p, q);
      CongruentResidue(p, q);
      ModUnique(p, 12, 0, p);
      ModUnique(q, 12, 0, q);
    }
  }

  /** `_rotate_to` on the two rings: `TurnTo` led by the ring of the clicked container. */
  method TurnRings(ms: seq<Container>, ns: seq<Container>, ring: RingKind, ghost o: int, k: int)
    returns (ms': seq<Container>, ns': seq<Container>)
    requires Placed(ms, MajorRing, o) && Placed(ns, MinorRing, o) && 0 <= k < 12
    ensures ms' == Rotate(ms, (12 - k) % 12) && ns' == Rotate(ns, (12 - k) % 12)
  {
    if ring == MajorRing {
      PlacedDistinct(ms, MajorRing, o);
      ms', ns' := TurnTo(ms, ns, k);
    } else {
      PlacedDistinct(ns, MinorRing, o);
      ns', ms' := TurnTo(ns, ms, k);
    }
  }

  /** After the turns of `TurnTo`, index `i` holds the container from `(i + k) % 12`, and the ring is still placed. */
  lemma TurnedRing(cs: seq<Container>, ring: RingKind, o: int, k: int)
    requires Placed(cs, ring, o) && 0 <= k < 12
    ensures forall i {:trigger Rotate(cs, (12 - k) % 12)[i]} :: 0 <= i < 12 ==> Rotate(cs, (12 - k) % 12)[i] == cs[(i + k) % 12]
    ensures Placed(Rotate(cs, (12 - k) % 12), ring, (o + (12 - k) % 12) % 12)
  {
    var n := (12 - k) % 12;
    var r := Rotate(cs, n);
    forall i | 0 <= i < 12 ensures r[i] == cs[(i + k) % 12] {
      TurnedIndex(i, k, n);
    }
    forall i | 0 <= i < 12 ensures ChordAt(r, i) == OnCircle(ring, (i - (o + n) % 12) % 12) {
      var p := (i - n) % 12;
      assert ChordAt(cs, p) == OnCircle(ring, (p - o) % 12);
      UiCircle.TurnedLayout(i, n, o);
      CongruentResidue(p - o, i - (o + n) % 12);
      assert (p - o) % 12 == (i - (o + n) % 12) % 12;
    }
  }

  // ---------------------------------------------------------------------------
  // What the colours of a placed ring mean

  /** AXIS: slots `j` and `j'` get one colour exactly when their roots are a multiple of 3 semitones apart. */
  lemma AxisSlot(r1: RingKind, r2: RingKind, cs: seq<Container>, ds: seq<Container>, o: int, j: int, j': int)
    requires Placed(cs, r1, o) && Placed(ds, r2, o) && 0 <= j < 12 && 0 <= j' < 12
    ensures AxisCycle[j % 3] == AxisCycle[j' % 3]
        <==> (TriadOf(cs[j].chord).root.idx - TriadOf(ds[j'].chord).root.idx) % 3 == 0
  {
    PlacedAt(cs, r1, o, j);
    PlacedAt(ds, r2, o, j');
    AxisOnCircle(r1, r2, j - o, j' - o);
    assert (j - o) - (j' - o) == j - j';
    ModDiffZero(j, j', 3);
    UiCircle.AxisCycleDistinct(j % 3, j' % 3);
  }

  /** AXIS on two placed rings: two slots share a fill exactly when their roots are a multiple of a minor third apart. */
  lemma AxisRings(r1: RingKind, r2: RingKind, fs: seq<Option<Colour>>, gs: seq<Option<Colour>>, cs: seq<Container>, ds: seq<Container>, o: int)
    requires Placed(cs, r1, o) && Placed(ds, r2, o) && |fs| == 12 && |gs| == 12
    requires forall j :: 0 <= j < 12 ==> fs[j] == Some(AxisCycle[j % 3]) && gs[j] == Some(AxisCycle[j % 3])
    ensures forall j, j' :: 0 <= j < 12 && 0 <= j' < 12 ==>
      (fs[j] == gs[j'] <==> (TriadOf(cs[j].chord).root.idx - TriadOf(ds[j'].chord).root.idx) % 3 == 0)
  {
    forall j, j' | 0 <= j < 12 && 0 <= j' < 12
      ensures fs[j] == gs[j'] <==> (TriadOf(cs[j].chord).root.idx - TriadOf(ds[j'].chord).root.idx) % 3 == 0
    {
      AxisSlot(r1, r2, cs, ds, o, j, j');
    }
  }

  /** COMMON: the entry for slot `j` is the colour of the number of tones its triad shares with the one at `k`. */
  lemma CommonSlot(selected: RingKind, ring: RingKind, cs: seq<Container>, ds: seq<Container>, o: int, j: int, k: int)
    requires Placed(cs, ring, o) && Placed(ds, selected, o) && 0 <= j < 12 && 0 <= k < 12
    ensures CommonTable(selected, ring)[(j - k) % 12] == OverlapColour(Shared(TriadOf(cs[j].chord), TriadOf(ds[k].chord)))
  {
    PlacedAt(cs, ring, o, j);
    PlacedAt(ds, selected, o, k);
    UiCircle.CommonColouringTurned(selected, ring, j, k, o);
  }

  /** NEGATIVE: the major at `j` and the minor at `i` get one colour exactly when the minor is the major's negative. */
  lemma NegativeSlot(selected: RingKind, ms: seq<Container>, ns: seq<Container>, ds: seq<Container>, o: int, j: int, i: int, k: int)
    requires Placed(ms, MajorRing, o) && Placed(ns, MinorRing, o) && Placed(ds, selected, o)
    requires 0 <= j < 12 && 0 <= i < 12 && 0 <= k < 12
    ensures NegativeTable(selected).major[(j - k) % 12] == NegativeTable(selected).minor[(i - k) % 12]
        <==> TriadOf(ns[i].chord) == NegativeOf(TriadOf(ms[j].chord), TriadOf(ds[k].chord).root)
  {
    PlacedAt(ms, MajorRing, o, j);
    PlacedAt(ns, MinorRing, o, i);
    PlacedAt(ds, selected, o, k);
    UiCircle.NegativeColouringTurned(selected, j, i, k, o);
  }

  // ---------------------------------------------------------------------------
  // The widget

  /**
   * `Circle`. Index 0 of each deque is the top slot; `majorFill` / `minorFill`
   * hold the `bgcolor` of each slot (`None` before the first painting).
   * `offset` records how far the deques have been turned from the order of
   * `all_triads`.
   */
  class Circle {
    var mode: UiCircle.Mode
    var major: seq<Container>
    var minor: seq<Container>
    var majorFill: seq<Option<Colour>>
    var minorFill: seq<Option<Colour>>
    ghost var offset: int

    /** Twelve slots a ring, both turned by the same amount, so minor[i] stays the relative minor of major[i]. */
    ghost predicate Valid()
      reads this
    {
      && |majorFill| == 12 && |minorFill| == 12 && 0 <= offset < 12
      && Placed(major, MajorRing, offset) && Placed(minor, MinorRing, offset)
    }

    function Ring(ring: RingKind): seq<Container>
      reads this
    {
      if ring == MajorRing then major else minor
    }

    function Fills(ring: RingKind): seq<Option<Colour>>
      reads this
    {
      if ring == MajorRing then majorFill else minorFill
    }

    /**
     * `Circle()`: the containers of `Chord.all_triads()` in order, showing
     * flat names, unpainted; the minor at each index is the relative minor
     * (9 semitones above) of the major there.
     */
    constructor ()
      ensures Valid() && offset == 0 && mode == UiCircle.Axis
      ensures forall i :: 0 <= i < 12 ==>
        major[i] == NewContainer(PC.AllTriads().0[i]) && minor[i] == NewContainer(PC.AllTriads().1[i])
      ensures forall i :: 0 <= i < 12 ==> majorFill[i] == None && minorFill[i] == None
      ensures forall i :: 0 <= i < 12 ==>
        PC.Spelled(major[i].chord.root).Some?
        && PC.Spelled(minor[i].chord.root) == Some((PC.Spelled(major[i].chord.root).value + 9) % 12)
    {
      InitialRingPlaced(MajorRing);
      InitialRingPlaced(MinorRing);
      var ms := InitialRing(MajorRing);
      var ns := InitialRing(MinorRing);
      PC.AllTriadsCircle();
      mode := UiCircle.Axis;
      major := ms;
      minor := ns;
      majorFill := seq(12, _ => None);
      minorFill := seq(12, _ => None);
      offset := 0;
    }

    /** The colours of AXIS mode follow the functional axes of the circle. */
    lemma AxisFillsAreAxes()
      requires Valid()
      requires forall j :: 0 <= j < 12 ==> majorFill[j] == Some(AxisCycle[j % 3]) && minorFill[j] == Some(AxisCycle[j % 3])
      ensures forall r1, r2, j, j' :: 0 <= j < 12 && 0 <= j' < 12 ==>
        (Fills(r1)[j] == Fills(r2)[j'] <==> (TriadOf(Ring(r1)[j].chord).root.idx - TriadOf(Ring(r2)[j'].chord).root.idx) % 3 == 0)
    {
      forall r1, r2 ensures forall j, j' :: 0 <= j < 12 && 0 <= j' < 12 ==>
        (Fills(r1)[j] == Fills(r2)[j'] <==> (TriadOf(Ring(r1)[j].chord).root.idx - TriadOf(Ring(r2)[j'].chord).root.idx) % 3 == 0)
      {
        AxisRings(r1, r2, Fills(r1), Fills(r2), Ring(r1), Ring(r2), offset);
      }
    }

    /**
     * `paint_axis`: slot `j` of either deque gets the `j % 3`-th colour of the
     * cycle, so two containers share a colour exactly when their roots are a
     * multiple of a minor third apart.
     */
    method PaintAxis()
      requires Valid()
      modifies this
      ensures Valid() && mode == old(mode) && major == old(major) && minor == old(minor) && offset == old(offset)
      ensures forall j :: 0 <= j < 12 ==> majorFill[j] == Some(AxisCycle[j % 3]) && minorFill[j] == Some(AxisCycle[j % 3])
      ensures forall r1, r2, j, j' :: 0 <= j < 12 && 0 <= j' < 12 ==>
        (Fills(r1)[j] == Fills(r2)[j'] <==> (TriadOf(Ring(r1)[j].chord).root.idx - TriadOf(Ring(r2)[j'].chord).root.idx) % 3 == 0)
    {
      majorFill := PaintInOrder(majorFill, AxisCycle);
      minorFill := PaintInOrder(minorFill, AxisCycle);
      AxisFillsAreAxes();
    }

    /** `paint_grey`: every slot of both deques is BLUE_GREY_200. */
    method PaintGrey()
      requires Valid()
      modifies this
      ensures Valid() && mode == old(mode) && major == old(major) && minor == old(minor) && offset == old(offset)
      ensures forall j :: 0 <= j < 12 ==> majorFill[j] == Some(Grey) && minorFill[j] == Some(Grey)
    {
      majorFill := PaintAll(majorFill, Grey);
      minorFill := PaintAll(minorFill, Grey);
    }

    /**
     * `paint_common` for the container at index `k` of `selected`: slot `j`
     * gets entry `(j - k) % 12` of the table, which is the colour of the
     * number of tones its triad shares with the clicked one; the clicked
     * container is black.
     */
    method PaintCommon(selected: RingKind, k: int)
      requires Valid() && 0 <= k < 12
      modifies this
      ensures Valid() && mode == old(mode) && major == old(major) && minor == old(minor) && offset == old(offset)
      ensures forall j :: 0 <= j < 12 ==>
        majorFill[j] == Some(CommonTable(selected, MajorRing)[(j - k) % 12])
        && minorFill[j] == Some(CommonTable(selected, MinorRing)[(j - k) % 12])
      ensures forall r, j :: 0 <= j < 12 ==>
        Fills(r)[j] == Some(OverlapColour(Shared(TriadOf(Ring(r)[j].chord), TriadOf(Ring(selected)[k].chord))))
      ensures Fills(selected)[k] == Some(Black)
    {
      majorFill := PaintInOrder(majorFill, Rotate(CommonTable(selected, MajorRing), k));
      minorFill := PaintInOrder(minorFill, Rotate(CommonTable(selected, MinorRing), k));
      RotatedPaint(majorFill, CommonTable(selected, MajorRing), k);
      RotatedPaint(minorFill, CommonTable(selected, MinorRing), k);
      forall r, j | 0 <= j < 12
        ensures Fills(r)[j] == Some(OverlapColour(Shared(TriadOf(Ring(r)[j].chord), TriadOf(Ring(selected)[k].chord))))
      {
        CommonSlot(selected, r, Ring(r), Ring(selected), offset, j, k);
      }
    }

    /**
     * `paint_negative` for the container at index `k` of `selected`: slot `j`
     * gets entry `(j - k) % 12` of the table. No colour repeats within a
     * ring, and a major and a minor share their colour exactly when the minor
     * is the negative of the major in the key of the clicked triad.
     */
    method PaintNegative(selected: RingKind, k: int)
      requires Valid() && 0 <= k < 12
      modifies this
      ensures Valid() && mode == old(mode) && major == old(major) && minor == old(minor) && offset == old(offset)
      ensures forall j :: 0 <= j < 12 ==>
        majorFill[j] == Some(NegativeTable(selected).major[(j - k) % 12])
        && minorFill[j] == Some(NegativeTable(selected).minor[(j - k) % 12])
      ensures forall j, i :: 0 <= j < 12 && 0 <= i < 12 ==>
        (majorFill[j] == minorFill[i] <==>
          TriadOf(minor[i].chord) == NegativeOf(TriadOf(major[j].chord), TriadOf(Ring(selected)[k].chord).root))
      ensures forall j, j' :: 0 <= j < 12 && 0 <= j' < 12 ==> (majorFill[j] == majorFill[j'] <==> j == j')
      ensures forall i, i' :: 0 <= i < 12 && 0 <= i' < 12 ==> (minorFill[i] == minorFill[i'] <==> i == i')
      ensures Fills(selected)[k] == Some(Black)
    {
      var t := NegativeTable(selected);
      majorFill := PaintInOrder(majorFill, Rotate(t.major, k));
      minorFill := PaintInOrder(minorFill, Rotate(t.minor, k));
      RotatedPaint(majorFill, t.major, k);
      RotatedPaint(minorFill, t.minor, k);
      forall j, i | 0 <= j < 12 && 0 <= i < 12
        ensures majorFill[j] == minorFill[i] <==>
          TriadOf(minor[i].chord) == NegativeOf(TriadOf(major[j].chord), TriadOf(Ring(selected)[k].chord).root)
      {
        NegativeSlot(selected, major, minor, Ring(selected), offset, j, i, k);
      }
      forall j, j' | 0 <= j < 12 && 0 <= j' < 12
        ensures majorFill[j] == majorFill[j'] <==> j == j'
        ensures minorFill[j] == minorFill[j'] <==> j == j'
      {
        UiCircle.NegativeRowsDistinct(selected, j, j', k);
      }
    }

    /** `set_mode`: AXIS repaints the axis colours, the other modes paint every slot grey. */
    method SetMode(m: UiCircle.Mode)
      requires Valid()
      modifies this
      ensures Valid() && mode == m && major == old(major) && minor == old(minor) && offset == old(offset)
      ensures m == UiCircle.Axis ==> forall j :: 0 <= j < 12 ==>
        majorFill[j] == Some(AxisCycle[j % 3]) && minorFill[j] == Some(AxisCycle[j % 3])
      ensures m != UiCircle.Axis ==> forall j :: 0 <= j < 12 ==> majorFill[j] == Some(Grey) && minorFill[j] == Some(Grey)
    {
      mode := m;
      if m == UiCircle.Axis {
        PaintAxis();
      } else {
        PaintGrey();
      }
    }

    /** `set_sharps` (`sharps`) and `set_flats`: only the texts change. */
    method SetSpelling(sharps: bool)
      requires Valid()
      modifies this
      ensures Valid() && mode == old(mode) && majorFill == old(majorFill) && minorFill == old(minorFill)
      ensures offset == old(offset)
      ensures Known(old(major)) && Known(old(minor))
      ensures major == Relabelled(old(major), sharps) && minor == Relabelled(old(minor), sharps)
    {
      PlacedKnown(major, MajorRing, offset);
      PlacedKnown(minor, MinorRing, offset);
      var ms, ns := major, minor;
      major := Relabel(ms, sharps);
      minor := Relabel(ns, sharps);
      SameChordsPlaced(ms, major, MajorRing, offset);
      SameChordsPlaced(ns, minor, MinorRing, offset);
    }

    /**
     * `_rotate_to` the container at index `k` of `ring`: both deques turn
     * right one step at a time, together, until that container is on top.
     * Each slot gets back the fill it had; the container from index
     * `(i + k) % 12` now stands at `i`.
     */
    method RotateTo(ring: RingKind, k: int)
      requires Valid() && 0 <= k < 12
      modifies this
      ensures Valid() && mode == old(mode) && majorFill == old(majorFill) && minorFill == old(minorFill)
      ensures major == Rotate(old(major), (12 - k) % 12) && minor == Rotate(old(minor), (12 - k) % 12)
      ensures Ring(ring)[0] == old(Ring(ring)[k])
      ensures forall i :: 0 <= i < 12 ==> major[i] == old(major[(i + k) % 12]) && minor[i] == old(minor[(i + k) % 12])
      ensures k == 0 ==> major == old(major) && minor == old(minor)
    {
      var ms, ns := major, minor;
      ghost var o := offset;
      major, minor := TurnRings(ms, ns, ring, o, k);
      TurnedRing(ms, MajorRing, o, k);
      TurnedRing(ns, MinorRing, o, k);
      offset := (o + (12 - k) % 12) % 12;
      assert (0 + k) % 12 == k;
      if k == 0 {
        NoTurn(ms);
        NoTurn(ns);
      }
    }

    /**
     * `_on_container_click` on the container at index `k` of `ring`: in AXIS
     * mode the deques turn it to the top and are repainted; in COMMON and
     * NEGATIVE mode they never turn and are only recoloured.
     */
    method OnContainerClick(ring: RingKind, k: int)
      requires Valid() && 0 <= k < 12
      modifies this
      ensures Valid() && mode == old(mode)
      ensures mode == UiCircle.Axis ==> Ring(ring)[0] == old(Ring(ring)[k])
      ensures mode == UiCircle.Axis ==> major == Rotate(old(major), (12 - k) % 12) && minor == Rotate(old(minor), (12 - k) % 12)
      ensures mode == UiCircle.Axis ==> forall i :: 0 <= i < 12 ==>
        major[i] == old(major[(i + k) % 12]) && minor[i] == old(minor[(i + k) % 12])
      ensures mode == UiCircle.Axis ==> forall j :: 0 <= j < 12 ==>
        majorFill[j] == Some(AxisCycle[j % 3]) && minorFill[j] == Some(AxisCycle[j % 3])
      ensures mode != UiCircle.Axis ==> major == old(major) && minor == old(minor)
      ensures mode == UiCircle.Common ==> forall j :: 0 <= j < 12 ==>
        majorFill[j] == Some(CommonTable(ring, MajorRing)[(j - k) % 12])
        && minorFill[j] == Some(CommonTable(ring, MinorRing)[(j - k) % 12])
      ensures mode == UiCircle.Negative ==> forall j :: 0 <= j < 12 ==>
        majorFill[j] == Some(NegativeTable(ring).major[(j - k) % 12])
        && minorFill[j] == Some(NegativeTable(ring).minor[(j - k) % 12])
      ensures mode == UiCircle.Common ==> forall r, j :: 0 <= j < 12 ==>
        Fills(r)[j] == Some(OverlapColour(Shared(TriadOf(Ring(r)[j].chord), TriadOf(Ring(ring)[k].chord))))
      ensures mode == UiCircle.Negative ==> forall j, i :: 0 <= j < 12 && 0 <= i < 12 ==>
        (majorFill[j] == minorFill[i] <==>
          TriadOf(minor[i].chord) == NegativeOf(TriadOf(major[j].chord), TriadOf(Ring(ring)[k].chord).root))
    {
      if mode == UiCircle.Axis {
        RotateTo(ring, k);
        PaintAxis();
      } else if mode == UiCircle.Common {
        PaintCommon(ring, k);
      } else {
        PaintNegative(ring, k);
      }
    }
  }
}
