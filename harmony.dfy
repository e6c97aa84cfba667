/**
 * What the colour tables of the widgets encode. The tables are literal data in
 * the source; this module gives each one an independent music-theoretic
 * meaning (how many tones a triad shares with the clicked one, which of the
 * clicked triad's tones it contains, the negative-harmony reflection) and
 * proves the tables agree with it at every ring offset.
 */
module Harmony {
  import opened CoreTone
  import opened CoreChord
  import opened Palette
  import Rings

  /** The two rings of the circle: outer (major triads) and inner (minor triads). */
  datatype RingKind = MajorRing | MinorRing

  /** The third of the triads a ring holds, in semitones. */
  function RingThird(ring: RingKind): nat
  {
    if ring == MajorRing then 4 else 3
  }

  /** The root of the triad at position 0 of a ring, in semitones above C (C major, A minor). */
  function RingShift(ring: RingKind): int
  {
    if ring == MajorRing then 0 else 9
  }

  /** Two integers name the same pitch class. */
  predicate Congruent(x: int, y: int)
  {
    (x - y) % 12 == 0
  }

  /**
   * The triad a ring holds at circle position `i` (any integer, taken round
   * the ring): majors ascend by fourths from C, and each minor is the relative
   * minor of the major at the same position.
   */
  function CircleAt(ring: RingKind, i: int): (r: Triad)
    ensures r.Major? <==> ring == MajorRing
    ensures ThirdInterval(r) == RingThird(ring)
    ensures Congruent(5 * i + RingShift(ring), r.root.idx)
  {
    match ring
    case MajorRing => Major(ByIdx(5 * i))
    case MinorRing => Minor(ByIdx(5 * i + 9))
  }

  /** The triad moved up by `t` semitones. */
  function Transpose(c: Triad, t: int): (r: Triad)
    ensures r.Major? == c.Major?
    ensures Congruent(c.root.idx + t, r.root.idx)
  {
    match c
    case Major(p) => Major(ByIdx(p.idx + t))
    case Minor(p) => Minor(ByIdx(p.idx + t))
  }

  /** Whether `x` is one of the three tones of `c`. */
  predicate Has(c: Triad, x: Tone)
  {
    var t := Tones(c);
    x == t[0] || x == t[1] || x == t[2]
  }

  /** How many of the tones of `a` are also tones of `b`. */
  function Shared(a: Triad, b: Triad): nat
  {
    var ta := Tones(a);
    (if Has(b, ta[0]) then 1 else 0) + (if Has(b, ta[1]) then 1 else 0) + (if Has(b, ta[2]) then 1 else 0)
  }

  // ---------------------------------------------------------------------------
  // Pitch-class arithmetic, each step with its whole number of octaves

  lemma Octaves(x: int, y: int, q: int)
    requires x - y == 12 * q
    ensures Congruent(x, y)
  {
    Rings.ModUnique(x - y, 12, q, 0);
  }

  lemma OctaveCount(x: int, y: int)
    requires Congruent(x, y)
    ensures x - y == 12 * ((x - y) / 12)
  {
    assert x - y == 12 * ((x - y) / 12) + (x - y) % 12;
  }

  lemma CongruentSym(x: int, y: int)
    requires Congruent(x, y)
    ensures Congruent(y, x)
  {
    OctaveCount(x, y);
    Octaves(y, x, -((x - y) / 12));
  }

  lemma CongruentTrans(x: int, y: int, z: int)
    requires Congruent(x, y) && Congruent(y, z)
    ensures Congruent(x, z)
  {
    OctaveCount(x, y);
    OctaveCount(y, z);
    Octaves(x, z, (x - y) / 12 + (y - z) / 12);
  }

  /** Congruent to the same thing, or not, together. */
  lemma CongruentSwap(x: int, y: int, c: int)
    requires Congruent(x, y)
    ensures Congruent(x, c) <==> Congruent(y, c)
  {
    CongruentSym(x, y);
    if Congruent(x, c) {
      CongruentTrans(y, x, c);
    }
    if Congruent(y, c) {
      CongruentTrans(x, y, c);
    }
  }

  /** Congruence only sees the difference of its two sides. */
  lemma SameDifference(x: int, y: int, x': int, y': int)
    requires x - y == x' - y'
    ensures Congruent(x, y) <==> Congruent(x', y')
  {
  }

  /** Moving the right side by whole octaves keeps a congruence. */
  lemma CongruentOffset(x: int, y: int, z: int, w: int)
    requires y - z == 12 * w
    ensures Congruent(x, y) <==> Congruent(x, z)
  {
    if Congruent(x, y) {
      OctaveCount(x, y);
      Octaves(x, z, (x - y) / 12 + w);
    }
    if Congruent(x, z) {
      OctaveCount(x, z);
      Octaves(x, y, (x - z) / 12 - w);
    }
  }

  lemma CongruentShift(x: int, y: int, a: int, b: int)
    requires Congruent(x, y) && Congruent(a, b)
    ensures Congruent(x + a, y + b) && Congruent(x - a, y - b)
  {
    OctaveCount(x, y);
    OctaveCount(a, b);
    Octaves(x + a, y + b, (x - y) / 12 + (a - b) / 12);
    Octaves(x - a, y - b, (x - y) / 12 - (a - b) / 12);
  }

  lemma CongruentScale(x: int, y: int, k: int)
    requires Congruent(x, y)
    ensures Congruent(k * x, k * y)
  {
    var q := (x - y) / 12;
    OctaveCount(x, y);
    assert k * x - k * y == k * (x - y);
    assert k * (x - y) == 12 * (k * q);
    Octaves(k * x, k * y, k * q);
  }

  /** Reflecting both sides about the same point keeps a congruence. */
  lemma CongruentNegate(x: int, y: int, c: int)
    ensures Congruent(x, y) <==> Congruent(c - x, c - y)
  {
    if Congruent(x, y) {
      OctaveCount(x, y);
      Octaves(c - x, c - y, -((x - y) / 12));
    }
    if Congruent(c - x, c - y) {
      OctaveCount(c - x, c - y);
      Octaves(x, y, -((c - x - (c - y)) / 12));
    }
  }

  lemma CongruentResidue(x: int, y: int)
    ensures Congruent(x, y) <==> x % 12 == y % 12
  {
    if Congruent(x, y) {
      OctaveCount(x, y);
      Rings.ModUnique(x, 12, y / 12 + (x - y) / 12, y % 12);
    }
    if x % 12 == y % 12 {
      Octaves(x, y, x / 12 - y / 12);
    }
  }

  /** Two tones are equal exactly when their indices are congruent. */
  lemma ByIdxCongruent(x: int, y: int)
    ensures ByIdx(x) == ByIdx(y) <==> Congruent(x, y)
  {
    CongruentResidue(x, y);
  }

  lemma SamePitch(x: Tone, y: Tone)
    requires Congruent(x.idx, y.idx)
    ensures x == y
  {
    CongruentResidue(x.idx, y.idx);
    Rings.ModUnique(x.idx, 12, 0, x.idx);
    Rings.ModUnique(y.idx, 12, 0, y.idx);
  }

  /** Five semitones (a fourth) generate the twelve pitch classes: 5 is its own inverse modulo 12. */
  lemma FourthsInverse(x: int, y: int)
    ensures Congruent(5 * x, y) <==> Congruent(x, 5 * y)
  {
    if Congruent(5 * x, y) {
      var q := (5 * x - y) / 12;
      OctaveCount(5 * x, y);
      Octaves(x, 5 * y, 5 * q - 2 * x);
    }
    if Congruent(x, 5 * y) {
      var q := (x - 5 * y) / 12;
      OctaveCount(x, 5 * y);
      Octaves(5 * x, y, 2 * y + 5 * q);
    }
  }

  // ---------------------------------------------------------------------------
  // Triads seen as intervals above a root

  /**
   * Whether the pitch `x` semitones above a root belongs to the triad on that
   * root whose third lies `third` semitones up.
   */
  predicate InTriadAbove(third: int, x: int)
  {
    var y := x % 12;
    y == 0 || y == third || y == 7
  }

  /**
   * How many tones a triad with third `ta`, rooted `delta` semitones above the
   * root of a triad with third `tb`, shares with it.
   */
  function SharedAbove(ta: int, tb: int, delta: int): nat
  {
    (if InTriadAbove(tb, delta) then 1 else 0)
    + (if InTriadAbove(tb, delta + ta) then 1 else 0)
    + (if InTriadAbove(tb, delta + 7) then 1 else 0)
  }

  lemma InTriadAboveCongruent(third: int, x: int, y: int)
    requires Congruent(x, y)
    ensures InTriadAbove(third, x) == InTriadAbove(third, y)
  {
    CongruentResidue(x, y);
  }

  /** For a third below the octave, `InTriadAbove` asks for one of three congruences. */
  lemma InTriadAboveMeans(third: int, x: int)
    requires 0 <= third < 12
    ensures InTriadAbove(third, x) <==> Congruent(x, 0) || Congruent(x, third) || Congruent(x, 7)
  {
    CongruentResidue(x, 0);
    CongruentResidue(x, third);
    CongruentResidue(x, 7);
    Rings.ModUnique(third, 12, 0, third);
  }

  /** The tones of a triad are its root and the pitches a third and a fifth above it. */
  lemma TonesAbove(c: Triad)
    ensures Tones(c)[0] == ByIdx(c.root.idx + 0)
    ensures Tones(c)[1] == ByIdx(c.root.idx + ThirdInterval(c))
    ensures Tones(c)[2] == ByIdx(c.root.idx + 7)
  {
    match c
    case Major(p) =>
    case Minor(p) =>
  }

  /** A tone is the pitch `o` semitones above `p` exactly when it lies `o` above `p` modulo the octave. */
  lemma ToneAbove(x: Tone, p: int, o: int)
    ensures x == ByIdx(p + o) <==> Congruent(x.idx - p, o)
  {
    assert ByIdx(x.idx) == x;
    ByIdxCongruent(x.idx, p + o);
    SameDifference(x.idx, p + o, x.idx - p, o);
  }

  /** How far a tone `o` above `p` lies above `q`, modulo the octave. */
  lemma RootOffset(t: Tone, p: int, o: int, q: int)
    requires t == ByIdx(p + o)
    ensures Congruent(t.idx - q, p - q + o)
  {
    CongruentSym(p + o, t.idx);
    OctaveCount(t.idx, p + o);
    Octaves(t.idx - q, p - q + o, (t.idx - (p + o)) / 12);
  }

  /** Membership in a triad only depends on the interval above its root. */
  lemma HasAbove(c: Triad, x: Tone)
    ensures Has(c, x) <==> InTriadAbove(ThirdInterval(c), x.idx - c.root.idx)
  {
    var p := c.root.idx;
    TonesAbove(c);
    InTriadAboveMeans(ThirdInterval(c), x.idx - p);
    ToneAbove(x, p, 0);
    ToneAbove(x, p, ThirdInterval(c));
    ToneAbove(x, p, 7);
  }

  /** Whether the tone `o` semitones above `p` belongs to `b` depends on its interval `x` above the root of `b`. */
  lemma HasToneAbove(b: Triad, p: int, o: int, x: int)
    requires x == p - b.root.idx + o
    ensures Has(b, ByIdx(p + o)) == InTriadAbove(ThirdInterval(b), x)
  {
    var t := ByIdx(p + o);
    HasAbove(b, t);
    RootOffset(t, p, o, b.root.idx);
    InTriadAboveCongruent(ThirdInterval(b), t.idx - b.root.idx, x);
  }

  /** Each tone of `a` is in `b` exactly when its interval above the root of `b` is in the triad shape of `b`. */
  lemma TonesOfAIn(a: Triad, b: Triad)
    ensures Has(b, Tones(a)[0]) == InTriadAbove(ThirdInterval(b), a.root.idx - b.root.idx)
    ensures Has(b, Tones(a)[1]) == InTriadAbove(ThirdInterval(b), a.root.idx - b.root.idx + ThirdInterval(a))
    ensures Has(b, Tones(a)[2]) == InTriadAbove(ThirdInterval(b), a.root.idx - b.root.idx + 7)
  {
    var p: int, d: int := a.root.idx, a.root.idx - b.root.idx;
    TonesAbove(a);
    HasToneAbove(b, p, 0, d);
    HasToneAbove(b, p, ThirdInterval(a), d + ThirdInterval(a));
    HasToneAbove(b, p, 7, d + 7);
  }

  /** The shared-tone count of `a` and `b`, given whether each tone of `a` is in `b`. */
  lemma SharedCounts(a: Triad, b: Triad, y0: bool, y1: bool, y2: bool)
    requires Has(b, Tones(a)[0]) == y0 && Has(b, Tones(a)[1]) == y1 && Has(b, Tones(a)[2]) == y2
    ensures Shared(a, b) == (if y0 then 1 else 0) + (if y1 then 1 else 0) + (if y2 then 1 else 0)
  {
  }

  /** The shared-tone count of two triads, as intervals above their roots. */
  lemma SharedIntervals(a: Triad, b: Triad)
    ensures Shared(a, b) == SharedAbove(ThirdInterval(a), ThirdInterval(b), a.root.idx - b.root.idx)
  {
    TonesOfAIn(a, b);
    SharedCounts(a, b, InTriadAbove(ThirdInterval(b), a.root.idx - b.root.idx),
                 InTriadAbove(ThirdInterval(b), a.root.idx - b.root.idx + ThirdInterval(a)),
                 InTriadAbove(ThirdInterval(b), a.root.idx - b.root.idx + 7));
  }

  lemma SharedAboveCongruent(ta: int, tb: int, x: int, y: int)
    requires Congruent(x, y)
    ensures SharedAbove(ta, tb, x) == SharedAbove(ta, tb, y)
  {
    InTriadAboveCongruent(tb, x, y);
    CongruentShift(x, y, ta, ta);
    InTriadAboveCongruent(tb, x + ta, y + ta);
    CongruentShift(x, y, 7, 7);
    InTriadAboveCongruent(tb, x + 7, y + 7);
  }

  /** The number of shared tones does not depend on the key. */
  lemma SharedTranspose(a: Triad, b: Triad, t: int)
    ensures Shared(Transpose(a, t), Transpose(b, t)) == Shared(a, b)
  {
    var a', b' := Transpose(a, t), Transpose(b, t);
    TransposedRoots(a, b, t);
    SharedByShape(a', b', a, b);
  }

  /** Two pairs of triads with the same shapes and congruent root distances share as many tones. */
  lemma SharedByShape(a: Triad, b: Triad, c: Triad, d: Triad)
    requires ThirdInterval(a) == ThirdInterval(c) && ThirdInterval(b) == ThirdInterval(d)
    requires Congruent(a.root.idx - b.root.idx, c.root.idx - d.root.idx)
    ensures Shared(a, b) == Shared(c, d)
  {
    calc {
      Shared(a, b);
    == { SharedIntervals(a, b); }
      SharedAbove(ThirdInterval(a), ThirdInterval(b), a.root.idx - b.root.idx);
    == { SharedAboveCongruent(ThirdInterval(a), ThirdInterval(b), a.root.idx - b.root.idx, c.root.idx - d.root.idx); }
      SharedAbove(ThirdInterval(c), ThirdInterval(d), c.root.idx - d.root.idx);
    == { SharedIntervals(c, d); }
      Shared(c, d);
    }
  }

  /** Transposing two triads keeps their shapes and, modulo the octave, the distance between their roots. */
  lemma TransposedRoots(a: Triad, b: Triad, t: int)
    ensures ThirdInterval(Transpose(a, t)) == ThirdInterval(a) && ThirdInterval(Transpose(b, t)) == ThirdInterval(b)
    ensures Congruent(Transpose(a, t).root.idx - Transpose(b, t).root.idx, a.root.idx - b.root.idx)
  {
    var x: int, y: int := Transpose(a, t).root.idx, Transpose(b, t).root.idx;
    OctaveCount(a.root.idx + t, x);
    OctaveCount(b.root.idx + t, y);
    Octaves(x - y, a.root.idx - b.root.idx, (b.root.idx + t - y) / 12 - (a.root.idx + t - x) / 12);
  }

  /**
   * The root of the triad at position `i` of `r1` lies, modulo the octave,
   * as far above the root at position `k` of `r2` as the root at position
   * `(i - k) % 12` lies above the root at position 0.
   */
  lemma RootDistanceOnCircle(r1: RingKind, r2: RingKind, i: int, k: int)
    ensures Congruent(CircleAt(r1, i).root.idx - CircleAt(r2, k).root.idx,
                      5 * ((i - k) % 12) + RingShift(r1) - RingShift(r2))
  {
    var a: int, b: int := CircleAt(r1, i).root.idx, CircleAt(r2, k).root.idx;
    var s1, s2 := RingShift(r1), RingShift(r2);
    OctaveCount(5 * i + s1, a);
    OctaveCount(5 * k + s2, b);
    var d, q := (i - k) % 12, (i - k) / 12;
    assert i - k == 12 * q + d;
    Octaves(a - b, 5 * d + s1 - s2, (5 * k + s2 - b) / 12 - (5 * i + s1 - a) / 12 + 5 * q);
  }

  /** The shared-tone count of two triads on the circle depends only on how far apart they sit. */
  lemma SharedOnCircle(r1: RingKind, r2: RingKind, i: int, k: int, d: int)
    requires d == (i - k) % 12
    ensures Shared(CircleAt(r1, i), CircleAt(r2, k))
         == SharedAbove(RingThird(r1), RingThird(r2), 5 * d + RingShift(r1) - RingShift(r2))
  {
    var a, b := CircleAt(r1, i), CircleAt(r2, k);
    SharedIntervals(a, b);
    RootDistanceOnCircle(r1, r2, i, k);
    SharedAboveCongruent(RingThird(r1), RingThird(r2), a.root.idx - b.root.idx,
                         5 * d + RingShift(r1) - RingShift(r2));
  }

  // ---------------------------------------------------------------------------
  // COMMON mode, src/ui/circle.py and ui.py: how many tones are shared

  /** The fill a shared-tone count gets: the clicked chord black, then 2, 1 and 0 shared tones. */
  function OverlapColour(n: nat): Colour
  {
    if n >= 3 then Black else if n == 2 then Red600 else if n == 1 then Red300 else BlueGrey200
  }

  /** The COMMON table for the ring `ring` when a triad of ring `selected` was clicked. */
  function CommonTable(selected: RingKind, ring: RingKind): (t: seq<Colour>)
    ensures |t| == 12
  {
    var pair := if selected == MajorRing then CommonMajorSelected else CommonMinorSelected;
    if ring == MajorRing then pair.major else pair.minor
  }

  // Each table checked entry by entry against the interval count.

  lemma CommonMajorSelectedMajorRing(d: int)
    requires 0 <= d < 12
    ensures CommonTable(MajorRing, MajorRing)[d] == OverlapColour(SharedAbove(4, 4, 5 * d))
  {
    if d == 0 {} else if d == 1 {} else if d == 2 {} else if d == 3 {} else if d == 4 {} else if d == 5 {} else if d == 6 {} else if d == 7 {} else if d == 8 {} else if d == 9 {} else if d == 10 {} else {}
  }

  lemma CommonMajorSelectedMinorRing(d: int)
    requires 0 <= d < 12
    ensures CommonTable(MajorRing, MinorRing)[d] == OverlapColour(SharedAbove(3, 4, 5 * d + 9))
  {
    if d == 0 {} else if d == 1 {} else if d == 2 {} else if d == 3 {} else if d == 4 {} else if d == 5 {} else if d == 6 {} else if d == 7 {} else if d == 8 {} else if d == 9 {} else if d == 10 {} else {}
  }

  lemma CommonMinorSelectedMajorRing(d: int)
    requires 0 <= d < 12
    ensures CommonTable(MinorRing, MajorRing)[d] == OverlapColour(SharedAbove(4, 3, 5 * d - 9))
  {
    if d == 0 {} else if d == 1 {} else if d == 2 {} else if d == 3 {} else if d == 4 {} else if d == 5 {} else if d == 6 {} else if d == 7 {} else if d == 8 {} else if d == 9 {} else if d == 10 {} else {}
  }

  lemma CommonMinorSelectedMinorRing(d: int)
    requires 0 <= d < 12
    ensures CommonTable(MinorRing, MinorRing)[d] == OverlapColour(SharedAbove(3, 3, 5 * d))
  {
    if d == 0 {} else if d == 1 {} else if d == 2 {} else if d == 3 {} else if d == 4 {} else if d == 5 {} else if d == 6 {} else if d == 7 {} else if d == 8 {} else if d == 9 {} else if d == 10 {} else {}
  }

  /**
   * Each of the four literal COMMON tables colours the triad `d` positions past
   * the clicked one by the interval count.
   */
  lemma CommonTableEntries(selected: RingKind, ring: RingKind, d: int)
    requires 0 <= d < 12
    ensures CommonTable(selected, ring)[d]
         == OverlapColour(SharedAbove(RingThird(ring), RingThird(selected), 5 * d + RingShift(ring) - RingShift(selected)))
  {
    if selected == MajorRing && ring == MajorRing {
      CommonMajorSelectedMajorRing(d);
      assert 5 * d + RingShift(ring) - RingShift(selected) == 5 * d;
    } else if selected == MajorRing && ring == MinorRing {
      CommonMajorSelectedMinorRing(d);
      assert 5 * d + RingShift(ring) - RingShift(selected) == 5 * d + 9;
    } else if selected == MinorRing && ring == MajorRing {
      CommonMinorSelectedMajorRing(d);
      assert 5 * d + RingShift(ring) - RingShift(selected) == 5 * d - 9;
    } else if selected == MinorRing && ring == MinorRing {
      CommonMinorSelectedMinorRing(d);
      assert 5 * d + RingShift(ring) - RingShift(selected) == 5 * d;
    }
  }

  /**
   * On a circle turned by any amount, the entry the COMMON painting gives the
   * triad at position `j` when the triad at position `k` was clicked is the
   * colour of the number of tones the two share: black for all three (the
   * clicked triad itself), then RED_600, RED_300 and BLUE_GREY_200.
   */
  lemma CommonColouring(selected: RingKind, ring: RingKind, j: int, k: int, d: int)
    requires d == (j - k) % 12
    ensures CommonTable(selected, ring)[d]
         == OverlapColour(Shared(CircleAt(ring, j), CircleAt(selected, k)))
  {
    SharedOnCircle(ring, selected, j, k, d);
    CommonTableEntries(selected, ring, d);
  }

  // ---------------------------------------------------------------------------
  // COMMON mode, circle.py: which tones of the clicked triad are shared

  /** Which of the root, third and fifth of a clicked triad another triad contains. */
  datatype ToneMask = ToneMask(root: bool, third: bool, fifth: bool)

  function SharedMask(a: Triad, selected: Triad): ToneMask
  {
    var ts := Tones(selected);
    ToneMask(Has(a, ts[0]), Has(a, ts[1]), Has(a, ts[2]))
  }

  /**
   * The same mask for a triad with third `ta` rooted `delta` semitones above
   * the root of a clicked triad with third `ts`.
   */
  function MaskAbove(ta: int, ts: int, delta: int): ToneMask
  {
    ToneMask(InTriadAbove(ta, 0 - delta), InTriadAbove(ta, ts - delta), InTriadAbove(ta, 7 - delta))
  }

  /** Each tone of the clicked triad is in `a` exactly when its interval above the root of `a` is in the triad shape of `a`. */
  lemma TonesOfSelectedIn(a: Triad, selected: Triad)
    ensures Has(a, Tones(selected)[0]) == InTriadAbove(ThirdInterval(a), 0 - (a.root.idx - selected.root.idx))
    ensures Has(a, Tones(selected)[1])
         == InTriadAbove(ThirdInterval(a), ThirdInterval(selected) - (a.root.idx - selected.root.idx))
    ensures Has(a, Tones(selected)[2]) == InTriadAbove(ThirdInterval(a), 7 - (a.root.idx - selected.root.idx))
  {
    var s: int, d: int, t: int := selected.root.idx, a.root.idx - selected.root.idx, ThirdInterval(selected);
    TonesAbove(selected);
    HasToneAbove(a, s, 0, 0 - d);
    HasToneAbove(a, s, t, t - d);
    HasToneAbove(a, s, 7, 7 - d);
    assert Tones(selected)[0] == ByIdx(s + 0) && Tones(selected)[1] == ByIdx(s + t) && Tones(selected)[2] == ByIdx(s + 7);
  }

  /** The interval mask of two triads, as intervals above their roots. */
  lemma MaskIntervals(a: Triad, selected: Triad)
    ensures SharedMask(a, selected) == MaskAbove(ThirdInterval(a), ThirdInterval(selected), a.root.idx - selected.root.idx)
  {
    TonesOfSelectedIn(a, selected);
  }

  lemma MaskAboveCongruent(ta: int, ts: int, x: int, y: int)
    requires Congruent(x, y)
    ensures MaskAbove(ta, ts, x) == MaskAbove(ta, ts, y)
  {
    CongruentNegate(x, y, 0);
    InTriadAboveCongruent(ta, 0 - x, 0 - y);
    CongruentNegate(x, y, ts);
    InTriadAboveCongruent(ta, ts - x, ts - y);
    CongruentNegate(x, y, 7);
    InTriadAboveCongruent(ta, 7 - x, 7 - y);
  }

  lemma MaskOnCircle(r1: RingKind, r2: RingKind, i: int, k: int, d: int)
    requires d == (i - k) % 12
    ensures SharedMask(CircleAt(r1, i), CircleAt(r2, k))
         == MaskAbove(RingThird(r1), RingThird(r2), 5 * d + RingShift(r1) - RingShift(r2))
  {
    var a, b := CircleAt(r1, i), CircleAt(r2, k);
    MaskIntervals(a, b);
    RootDistanceOnCircle(r1, r2, i, k);
    MaskAboveCongruent(RingThird(r1), RingThird(r2), a.root.idx - b.root.idx,
                       5 * d + RingShift(r1) - RingShift(r2));
  }

  /**
   * The fill for a mask: a colour per shared tone (root red, third blue,
   * fifth green), a darker one per pair, the selected colour when all three
   * are shared and the weak colour when none is.
   */
  function NotesColour(m: ToneMask): Colour
  {
    match m
    case ToneMask(true, true, true) => DefaultSelected
    case ToneMask(true, true, false) => NotesRootThird
    case ToneMask(true, false, true) => NotesRootFifth
    case ToneMask(false, true, true) => NotesThirdFifth
    case ToneMask(true, false, false) => NotesRoot
    case ToneMask(false, true, false) => NotesThird
    case ToneMask(false, false, true) => NotesFifth
    case ToneMask(false, false, false) => NotesNo
  }

  /** The `CommonNotesColors` table for ring `ring` when a triad of ring `selected` was clicked. */
  function NotesTable(selected: RingKind, ring: RingKind): (t: seq<Colour>)
    ensures |t| == 12
  {
    var pair := if selected == MajorRing then NotesMajorSelected else NotesMinorSelected;
    if ring == MajorRing then pair.major else pair.minor
  }

  lemma NotesMajorSelectedMajorRing(d: int)
    requires 0 <= d < 12
    ensures NotesTable(MajorRing, MajorRing)[d] == NotesColour(MaskAbove(4, 4, 5 * d))
  {
    if d == 0 {} else if d == 1 {} else if d == 2 {} else if d == 3 {} else if d == 4 {} else if d == 5 {} else if d == 6 {} else if d == 7 {} else if d == 8 {} else if d == 9 {} else if d == 10 {} else {}
  }

  lemma NotesMajorSelectedMinorRing(d: int)
    requires 0 <= d < 12
    ensures NotesTable(MajorRing, MinorRing)[d] == NotesColour(MaskAbove(3, 4, 5 * d + 9))
  {
    if d == 0 {} else if d == 1 {} else if d == 2 {} else if d == 3 {} else if d == 4 {} else if d == 5 {} else if d == 6 {} else if d == 7 {} else if d == 8 {} else if d == 9 {} else if d == 10 {} else {}
  }

  lemma NotesMinorSelectedMajorRing(d: int)
    requires 0 <= d < 12
    ensures NotesTable(MinorRing, MajorRing)[d] == NotesColour(MaskAbove(4, 3, 5 * d - 9))
  {
    if d == 0 {} else if d == 1 {} else if d == 2 {} else if d == 3 {} else if d == 4 {} else if d == 5 {} else if d == 6 {} else if d == 7 {} else if d == 8 {} else if d == 9 {} else if d == 10 {} else {}
  }

  lemma NotesMinorSelectedMinorRing(d: int)
    requires 0 <= d < 12
    ensures NotesTable(MinorRing, MinorRing)[d] == NotesColour(MaskAbove(3, 3, 5 * d))
  {
    if d == 0 {} else if d == 1 {} else if d == 2 {} else if d == 3 {} else if d == 4 {} else if d == 5 {} else if d == 6 {} else if d == 7 {} else if d == 8 {} else if d == 9 {} else if d == 10 {} else {}
  }

  /**
   * Each of the four literal `CommonNotesColors` tables colours the triad `d`
   * positions past the clicked one by the interval mask.
   */
  lemma NotesTableEntries(selected: RingKind, ring: RingKind, d: int)
    requires 0 <= d < 12
    ensures NotesTable(selected, ring)[d]
         == NotesColour(MaskAbove(RingThird(ring), RingThird(selected), 5 * d + RingShift(ring) - RingShift(selected)))
  {
    if selected == MajorRing && ring == MajorRing {
      NotesMajorSelectedMajorRing(d);
      assert 5 * d + RingShift(ring) - RingShift(selected) == 5 * d;
    } else if selected == MajorRing && ring == MinorRing {
      NotesMajorSelectedMinorRing(d);
      assert 5 * d + RingShift(ring) - RingShift(selected) == 5 * d + 9;
    } else if selected == MinorRing && ring == MajorRing {
      NotesMinorSelectedMajorRing(d);
      assert 5 * d + RingShift(ring) - RingShift(selected) == 5 * d - 9;
    } else if selected == MinorRing && ring == MinorRing {
      NotesMinorSelectedMinorRing(d);
      assert 5 * d + RingShift(ring) - RingShift(selected) == 5 * d;
    }
  }

  /**
   * On a circle turned by any amount, the entry the circle.py COMMON painting
   * gives the triad at position `j` when the triad at position `k` was
   * clicked names which of the clicked triad's tones it contains.
   */
  lemma NotesColouring(selected: RingKind, ring: RingKind, j: int, k: int)
    ensures NotesTable(selected, ring)[(j - k) % 12]
         == NotesColour(SharedMask(CircleAt(ring, j), CircleAt(selected, k)))
  {
    var d := (j - k) % 12;
    MaskOnCircle(ring, selected, j, k, d);
    NotesTableEntries(selected, ring, d);
  }

  // ---------------------------------------------------------------------------
  // NEGATIVE mode: the negative-harmony reflection

  /** The tone `x` reflected about the axis of the key of `tonic`, halfway between its third and its fifth. */
  function Reflect(x: Tone, tonic: Tone): Tone
  {
    ByIdx(2 * tonic.idx + 7 - x.idx)
  }

  /** The negative of a triad in the key of `tonic`: majors and minors swap, the root moves to `2 * tonic - root`. */
  function NegativeOf(c: Triad, tonic: Tone): (r: Triad)
    ensures r.Major? <==> c.Minor?
    ensures ThirdInterval(r) == 7 - ThirdInterval(c)
    ensures Congruent(2 * tonic.idx - c.root.idx, r.root.idx)
  {
    match c
    case Major(p) => Minor(ByIdx(2 * tonic.idx - p.idx))
    case Minor(p) => Major(ByIdx(2 * tonic.idx - p.idx))
  }

  /** Mirroring a pitch about the fifth of a triad turns its shape upside down. */
  lemma InTriadAboveMirror(third: int, y: int)
    requires 0 <= third <= 7
    ensures InTriadAbove(7 - third, 7 - y) == InTriadAbove(third, y)
  {
    InTriadAboveMeans(third, y);
    InTriadAboveMeans(7 - third, 7 - y);
    CongruentNegate(y, 7, 7);
    CongruentNegate(y, third, 7);
    CongruentNegate(y, 0, 7);
  }

  /** A reflected tone lies above the negative's root as far as the fifth lies above the tone's interval. */
  lemma ReflectInterval(c: Triad, tonic: Tone, x: Tone)
    ensures Congruent(Reflect(x, tonic).idx - NegativeOf(c, tonic).root.idx, 7 - (x.idx - c.root.idx))
  {
    var n, rx := NegativeOf(c, tonic), Reflect(x, tonic);
    var r: int, p: int := tonic.idx, c.root.idx;
    OctaveCount(2 * r + 7 - x.idx, rx.idx);
    OctaveCount(2 * r - p, n.root.idx);
    Octaves(rx.idx - n.root.idx, 7 - (x.idx - p),
            (2 * r - p - n.root.idx) / 12 - (2 * r + 7 - x.idx - rx.idx) / 12);
  }

  /** The negative triad is made of exactly the reflections of the tones of the triad. */
  lemma NegativeReflectsTones(c: Triad, tonic: Tone, x: Tone)
    ensures Has(NegativeOf(c, tonic), Reflect(x, tonic)) <==> Has(c, x)
  {
    var n, rx := NegativeOf(c, tonic), Reflect(x, tonic);
    var y: int := x.idx - c.root.idx;
    HasAbove(c, x);
    HasAbove(n, rx);
    ReflectInterval(c, tonic, x);
    InTriadAboveCongruent(7 - ThirdInterval(c), rx.idx - n.root.idx, 7 - y);
    InTriadAboveMirror(ThirdInterval(c), y);
  }

  /** Taking the negative twice gives back the triad. */
  lemma NegativeInvolution(c: Triad, tonic: Tone)
    ensures NegativeOf(NegativeOf(c, tonic), tonic) == c
  {
    var n := NegativeOf(c, tonic);
    var m := NegativeOf(n, tonic);
    var r: int, p: int := tonic.idx, c.root.idx;
    OctaveCount(2 * r - p, n.root.idx);
    OctaveCount(2 * r - n.root.idx, m.root.idx);
    Octaves(m.root.idx, p, (2 * r - p - n.root.idx) / 12 - (2 * r - n.root.idx - m.root.idx) / 12);
    SamePitch(m.root, c.root);
  }

  /** The NEGATIVE table ring pair for a triad of ring `selected`. */
  function NegativeTable(selected: RingKind): TablePair
  {
    if selected == MajorRing then NegativeMajorSelected else NegativeMinorSelected
  }

  /**
   * With the clicked triad at position 0, the major at position `d` and the
   * minor at position `e` are negatives of each other when `d + e` is this
   * number modulo 12.
   */
  function NegativePair(selected: RingKind): int
  {
    if selected == MajorRing then 3 else 9
  }

  /**
   * The minor at position `e` is the negative of the major at position `d`,
   * in the key of the triad at position `k` of `selected`, exactly when
   * `d + e` and `2 * k + NegativePair(selected)` name the same pitch class.
   */
  lemma NegativeOnCircle(selected: RingKind, d: int, e: int, k: int)
    ensures CircleAt(MinorRing, e) == NegativeOf(CircleAt(MajorRing, d), CircleAt(selected, k).root)
        <==> Congruent(d + e, 2 * k + NegativePair(selected))
  {
    var s: int := CircleAt(selected, k).root.idx;
    var m: int := CircleAt(MajorRing, d).root.idx;
    var sh := RingShift(selected);
    ByIdxCongruent(5 * e + 9, 2 * s - m);
    OctaveCount(5 * k + sh, s);
    OctaveCount(5 * d, m);
    CongruentOffset(5 * e + 9, 2 * s - m, 10 * k + 2 * sh - 5 * d, (5 * d - m) / 12 - 2 * ((5 * k + sh - s) / 12));
    SameDifference(5 * e + 9, 10 * k + 2 * sh - 5 * d, 5 * (d + e - 2 * k), 2 * sh - 9);
    FourthsInverse(d + e - 2 * k, 2 * sh - 9);
    CongruentOffset(d + e - 2 * k, 5 * (2 * sh - 9), NegativePair(selected), if selected == MajorRing then -4 else 3);
    SameDifference(d + e - 2 * k, NegativePair(selected), d + e, 2 * k + NegativePair(selected));
  }

  /**
   * The place of a colour in the NEGATIVE major-ring table for a clicked
   * major triad, or -1 for a colour that table does not use; the other three
   * NEGATIVE tables list the same twelve colours in other orders.
   */
  function NegativeRank(c: Colour): int
  {
    match c
    case Black => 0
    case Blue800 => 1
    case Blue400 => 2
    case Grey700 => 3
    case Green400 => 4
    case Red400 => 5
    case Purple400 => 6
    case Orange400 => 7
    case Orange800 => 8
    case Purple800 => 9
    case Red800 => 10
    case Green800 => 11
    case _ => -1
  }

  /** A NEGATIVE colour is recovered from its rank. */
  lemma NegativeRankInverse(c: Colour)
    requires 0 <= NegativeRank(c)
    ensures NegativeRank(c) < 12 && NegativeMajorSelected.major[NegativeRank(c)] == c
  {
  }

  lemma NegativeMajorSelectedRanks(d: int)
    requires 0 <= d < 12
    ensures NegativeRank(NegativeMajorSelected.major[d]) == (d + 0) % 12
    ensures NegativeRank(NegativeMajorSelected.minor[d]) == (3 - d) % 12
  {
    if d == 0 {} else if d == 1 {} else if d == 2 {} else if d == 3 {} else if d == 4 {} else if d == 5 {} else if d == 6 {} else if d == 7 {} else if d == 8 {} else if d == 9 {} else if d == 10 {} else {}
  }

  lemma NegativeMinorSelectedRanks(d: int)
    requires 0 <= d < 12
    ensures NegativeRank(NegativeMinorSelected.major[d]) == (d + 3) % 12
    ensures NegativeRank(NegativeMinorSelected.minor[d]) == (0 - d) % 12
  {
    if d == 0 {} else if d == 1 {} else if d == 2 {} else if d == 3 {} else if d == 4 {} else if d == 5 {} else if d == 6 {} else if d == 7 {} else if d == 8 {} else if d == 9 {} else if d == 10 {} else {}
  }

  /** How far the ranks of a NEGATIVE table's major ring run ahead of the positions. */
  function MajorRankShift(selected: RingKind): int
  {
    if selected == MajorRing then 0 else 3
  }

  /** The positions of a NEGATIVE table's minor ring run backwards from this rank. */
  function MinorRankStart(selected: RingKind): int
  {
    if selected == MajorRing then 3 else 0
  }

  /** The ranks of the colours of the NEGATIVE tables, as positions round the ring. */
  lemma NegativeTableRanks(selected: RingKind, d: int)
    requires 0 <= d < 12
    ensures NegativeRank(NegativeTable(selected).major[d]) == (d + MajorRankShift(selected)) % 12
    ensures NegativeRank(NegativeTable(selected).minor[d]) == (MinorRankStart(selected) - d) % 12
  {
    if selected == MajorRing { NegativeMajorSelectedRanks(d); } else { NegativeMinorSelectedRanks(d); }
  }

  /** Two NEGATIVE colours are equal exactly when their ranks are. */
  lemma NegativeRankEqual(a: Colour, b: Colour)
    requires 0 <= NegativeRank(a) && 0 <= NegativeRank(b)
    ensures a == b <==> NegativeRank(a) == NegativeRank(b)
  {
    NegativeRankInverse(a);
    NegativeRankInverse(b);
  }

  /** Two colours ranked `x` and `y` round the ring are equal exactly when `x` and `y` are congruent. */
  lemma RanksCongruent(a: Colour, b: Colour, x: int, y: int)
    requires NegativeRank(a) == x % 12 && NegativeRank(b) == y % 12
    ensures a == b <==> Congruent(x, y)
  {
    NegativeRankEqual(a, b);
    CongruentResidue(x, y);
  }

  /** Two positions of one ring are congruent only when they are the same position. */
  lemma CongruentPositions(d: int, e: int)
    requires 0 <= d < 12 && 0 <= e < 12
    ensures Congruent(d, e) <==> d == e
  {
    CongruentResidue(d, e);
    Rings.ModUnique(d, 12, 0, d);
    Rings.ModUnique(e, 12, 0, e);
  }

  /** A major and a minor entry ranked ahead of and back from their positions agree when the positions sum to `b - a`. */
  lemma AcrossByRank(t: TablePair, d: int, e: int, a: int, b: int)
    requires 0 <= d < |t.major| && 0 <= e < |t.minor|
    requires NegativeRank(t.major[d]) == (d + a) % 12 && NegativeRank(t.minor[e]) == (b - e) % 12
    ensures t.major[d] == t.minor[e] <==> Congruent(d + e, b - a)
  {
    RanksCongruent(t.major[d], t.minor[e], d + a, b - e);
    SameDifference(d + a, b - e, d + e, b - a);
  }

  /** Colours whose ranks rise by one per position repeat only at the same position. */
  lemma RingByRankUp(c: seq<Colour>, d: int, e: int, x: int)
    requires 0 <= d < 12 && 0 <= e < 12 && d < |c| && e < |c|
    requires NegativeRank(c[d]) == (d + x) % 12 && NegativeRank(c[e]) == (e + x) % 12
    ensures c[d] == c[e] <==> d == e
  {
    RanksCongruent(c[d], c[e], d + x, e + x);
    SameDifference(d + x, e + x, d, e);
    CongruentPositions(d, e);
  }

  /** Colours whose ranks fall by one per position repeat only at the same position. */
  lemma RingByRankDown(c: seq<Colour>, d: int, e: int, x: int)
    requires 0 <= d < 12 && 0 <= e < 12 && d < |c| && e < |c|
    requires NegativeRank(c[d]) == (x - d) % 12 && NegativeRank(c[e]) == (x - e) % 12
    ensures c[d] == c[e] <==> d == e
  {
    RanksCongruent(c[d], c[e], x - d, x - e);
    SameDifference(x - d, x - e, e, d);
    CongruentPositions(e, d);
  }


  /**
   * With the clicked triad at position 0, a NEGATIVE table gives the major at
   * position `d` and the minor at position `e` the same colour exactly when
   * `d + e` is `NegativePair(selected)` modulo 12.
   */
  lemma NegativeAcrossRings(selected: RingKind, d: int, e: int)
    requires 0 <= d < 12 && 0 <= e < 12
    ensures NegativeTable(selected).major[d] == NegativeTable(selected).minor[e]
        <==> Congruent(d + e, NegativePair(selected))
  {
    assert |NegativeTable(selected).major| == 12 && |NegativeTable(selected).minor| == 12;
    NegativeTableRanks(selected, d);
    NegativeTableRanks(selected, e);
    AcrossByRank(NegativeTable(selected), d, e, MajorRankShift(selected), MinorRankStart(selected));
    CongruentOffset(d + e, MinorRankStart(selected) - MajorRankShift(selected), NegativePair(selected),
                    if selected == MajorRing then 0 else -1);
  }

  /** In the major ring of a NEGATIVE table no colour repeats. */
  lemma NegativeMajorRingDistinct(selected: RingKind, d: int, e: int)
    requires 0 <= d < 12 && 0 <= e < 12
    ensures NegativeTable(selected).major[d] == NegativeTable(selected).major[e] <==> d == e
  {
    var c, x := NegativeTable(selected).major, MajorRankShift(selected);
    MajorRanks(selected, d);
    MajorRanks(selected, e);
    RingByRankUp(c, d, e, x);
  }

  /** The major half of `NegativeTableRanks`. */
  lemma MajorRanks(selected: RingKind, d: int)
    requires 0 <= d < 12
    ensures NegativeRank(NegativeTable(selected).major[d]) == (d + MajorRankShift(selected)) % 12
  {
    NegativeTableRanks(selected, d);
  }

  /** In the minor ring of a NEGATIVE table no colour repeats. */
  lemma NegativeMinorRingDistinct(selected: RingKind, d: int, e: int)
    requires 0 <= d < 12 && 0 <= e < 12
    ensures NegativeTable(selected).minor[d] == NegativeTable(selected).minor[e] <==> d == e
  {
    var c, x := NegativeTable(selected).minor, MinorRankStart(selected);
    MinorRanks(selected, d);
    MinorRanks(selected, e);
    RingByRankDown(c, d, e, x);
  }

  /** The minor half of `NegativeTableRanks`. */
  lemma MinorRanks(selected: RingKind, d: int)
    requires 0 <= d < 12
    ensures NegativeRank(NegativeTable(selected).minor[d]) == (MinorRankStart(selected) - d) % 12
  {
    NegativeTableRanks(selected, d);
  }

  /**
   * On a circle turned by any amount, the NEGATIVE painting gives the major at
   * position `j` and the minor at position `i` the same colour exactly when
   * the minor is the negative of the major in the key of the clicked triad at
   * position `k`.
   */
  lemma NegativeColouring(selected: RingKind, j: int, i: int, k: int, d: int, e: int)
    requires d == (j - k) % 12 && e == (i - k) % 12
    ensures NegativeTable(selected).major[d] == NegativeTable(selected).minor[e]
        <==> CircleAt(MinorRing, i) == NegativeOf(CircleAt(MajorRing, j), CircleAt(selected, k).root)
  {
    NegativeAcrossRings(selected, d, e);
    NegativeOnCircle(selected, j, i, k);
    assert j - k == 12 * ((j - k) / 12) + d;
    assert i - k == 12 * ((i - k) / 12) + e;
    CongruentOffset(d + e, NegativePair(selected), 2 * k + NegativePair(selected) + (d + e) - (j + i), (j - k) / 12 + (i - k) / 12);
    SameDifference(d + e, 2 * k + NegativePair(selected) + (d + e) - (j + i), j + i, 2 * k + NegativePair(selected));
  }

  // ---------------------------------------------------------------------------
  // Positions on the circle

  /** Two positions of a ring hold the same triad exactly when they are a whole number of turns apart. */
  lemma CircleAtSame(ring: RingKind, i: int, j: int)
    ensures CircleAt(ring, i) == CircleAt(ring, j) <==> Congruent(i, j)
  {
    var s := RingShift(ring);
    ByIdxCongruent(5 * i + s, 5 * j + s);
    SameDifference(5 * i + s, 5 * j + s, 5 * (i - j), 0);
    FourthsInverse(i - j, 0);
    SameDifference(i - j, 5 * 0, i, j);
  }

  /** `MajorTriad.circle()` lists the major triads at positions 0 to 11. */
  lemma MajorCirclePositions()
    ensures MajorCircle().Ok? && |MajorCircle().value| == 12
    ensures forall i :: 0 <= i < 12 ==> MajorCircle().value[i] == CircleAt(MajorRing, i)
  {
    MajorCircleOfFifths();
    var cs := Majors(FifthsOrder());
    forall i | 0 <= i < 12 ensures cs[i] == CircleAt(MajorRing, i) {
    }
  }

  /** `MinorTriad.circle()` lists the minor triads at positions 0 to 11. */
  lemma MinorCirclePositions()
    ensures MinorCircle().Ok? && |MinorCircle().value| == 12
    ensures forall i :: 0 <= i < 12 ==> MinorCircle().value[i] == CircleAt(MinorRing, i)
  {
    MinorCircleIsRelative();
    forall i | 0 <= i < 12 ensures Minors(RelativeOrder())[i] == CircleAt(MinorRing, i) {
      RelativeAt(i);
    }
  }

  lemma RelativeAt(i: int)
    requires 0 <= i < 12
    ensures Minors(RelativeOrder())[i] == CircleAt(MinorRing, i)
  {
    assert RelativeOrder()[i] == ByIdx(5 * i + 9);
  }

  /**
   * `s` positions further round, in ring `other`, lies the root `a` semitones
   * above the root at position `k` of `ring`, when `a` is what `s` fourths and
   * the shift between the rings add up to.
   */
  lemma RootStep(ring: RingKind, k: int, other: RingKind, s: int, a: int)
    requires Congruent(5 * s + RingShift(other) - RingShift(ring), a)
    ensures CircleAt(other, k + s).root == ByIdx(CircleAt(ring, k).root.idx + a)
  {
    var t: int := CircleAt(ring, k).root.idx;
    var x := 5 * (k + s) + RingShift(other);
    OctaveCount(5 * k + RingShift(ring), t);
    OctaveCount(5 * s + RingShift(other) - RingShift(ring), a);
    Octaves(x, t + a, (5 * k + RingShift(ring) - t) / 12 + (5 * s + RingShift(other) - RingShift(ring) - a) / 12);
    ByIdxCongruent(x, t + a);
  }

  /**
   * The six degrees written for a major tonic at position `k`: the majors one
   * step either side are IV (a fourth up) and V (a fifth up), the minors at
   * `k`, `k + 1` and `k - 1` are vi, ii and iii (9, 2 and 4 semitones up).
   */
  lemma MajorKeyDegrees(k: int)
    ensures var t: int := CircleAt(MajorRing, k).root.idx;
      && CircleAt(MajorRing, k + 1) == Major(ByIdx(t + 5))
      && CircleAt(MajorRing, k - 1) == Major(ByIdx(t + 7))
      && CircleAt(MinorRing, k) == Minor(ByIdx(t + 9))
      && CircleAt(MinorRing, k + 1) == Minor(ByIdx(t + 2))
      && CircleAt(MinorRing, k - 1) == Minor(ByIdx(t + 4))
  {
    RootStep(MajorRing, k, MajorRing, 1, 5);
    RootStep(MajorRing, k, MajorRing, -1, 7);
    RootStep(MajorRing, k, MinorRing, 0, 9);
    RootStep(MajorRing, k, MinorRing, 1, 2);
    RootStep(MajorRing, k, MinorRing, -1, 4);
  }

  /**
   * The six degrees written for a minor tonic at position `k`: the majors at
   * `k`, `k + 1` and `k - 1` are III, VI and VII (3, 8 and 10 semitones up),
   * the minors one step either side are iv (a fourth up) and v (a fifth up).
   */
  lemma MinorKeyDegrees(k: int)
    ensures var t: int := CircleAt(MinorRing, k).root.idx;
      && CircleAt(MajorRing, k) == Major(ByIdx(t + 3))
      && CircleAt(MajorRing, k + 1) == Major(ByIdx(t + 8))
      && CircleAt(MajorRing, k - 1) == Major(ByIdx(t + 10))
      && CircleAt(MinorRing, k + 1) == Minor(ByIdx(t + 5))
      && CircleAt(MinorRing, k - 1) == Minor(ByIdx(t + 7))
  {
    RootStep(MinorRing, k, MajorRing, 0, 3);
    RootStep(MinorRing, k, MajorRing, 1, 8);
    RootStep(MinorRing, k, MajorRing, -1, 10);
    RootStep(MinorRing, k, MinorRing, 1, 5);
    RootStep(MinorRing, k, MinorRing, -1, 7);
  }

  // ---------------------------------------------------------------------------
  // Functional axes and triads as tone sets

  /**
   * Positions a multiple of three apart, in either ring, hold triads whose
   * roots are a multiple of a minor third (3 semitones) apart, and only those:
   * the three functional axes of the circle.
   */
  lemma AxisOnCircle(r1: RingKind, r2: RingKind, a: int, b: int)
    ensures (CircleAt(r1, a).root.idx - CircleAt(r2, b).root.idx) % 3 == 0 <==> (a - b) % 3 == 0
  {
    var x: int, y: int := CircleAt(r1, a).root.idx, CircleAt(r2, b).root.idx;
    var s1, s2 := RingShift(r1), RingShift(r2);
    OctaveCount(5 * a + s1, x);
    OctaveCount(5 * b + s2, y);
    var p, q := (5 * a + s1 - x) / 12, (5 * b + s2 - y) / 12;
    var c := (s1 - s2) / 3;
    assert 3 * c == s1 - s2;
    var w := 2 * (a - b) + c - 4 * (p - q);
    assert x - y == -(a - b) + 3 * w;
    Rings.ModAddMultiple(-(a - b), w, 3);
    Rings.ModDiffZero(0, a - b, 3);
  }

  /** Three pitches spaced like a triad fit inside a triad shape only when the spacing and the shape coincide. */
  lemma ShapeInside(y: int, tc: int, td: int)
    requires 0 <= y < 12 && (tc == 3 || tc == 4) && (td == 3 || td == 4)
    requires InTriadAbove(td, y) && InTriadAbove(td, y + tc) && InTriadAbove(td, y + 7)
    ensures y == 0 && tc == td
  {
    if y == 0 {} else if y == 1 {} else if y == 2 {} else if y == 3 {} else if y == 4 {} else if y == 5 {} else if y == 6 {} else if y == 7 {} else if y == 8 {} else if y == 9 {} else if y == 10 {} else {}
  }

  /** A triad is determined by its tones: `d` contains all three tones of `c` exactly when `d` is `c`. */
  lemma TriadDeterminedByTones(c: Triad, d: Triad)
    ensures (Has(d, Tones(c)[0]) && Has(d, Tones(c)[1]) && Has(d, Tones(c)[2])) <==> d == c
  {
    if Has(d, Tones(c)[0]) && Has(d, Tones(c)[1]) && Has(d, Tones(c)[2]) {
      var p: int, r: int := c.root.idx, d.root.idx;
      var y := (p - r) % 12;
      TonesOfAIn(c, d);
      CongruentResidue(p - r, y);
      Rings.ModUnique(y, 12, 0, y);
      InTriadAboveCongruent(ThirdInterval(d), p - r, y);
      InTriadAboveCongruent(ThirdInterval(d), p - r + ThirdInterval(c), y + ThirdInterval(c));
      InTriadAboveCongruent(ThirdInterval(d), p - r + 7, y + 7);
      ShapeInside(y, ThirdInterval(c), ThirdInterval(d));
      CongruentResidue(p, r);
      SamePitch(c.root, d.root);
    }
  }
}
