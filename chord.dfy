/**
 * Triads (src/core/chord.py): a major or minor triad on a root tone, its three
 * tones by interval transposition, its spellings, and the two fixed
 * circle-of-fifths root orders.
 */
module CoreChord {
  import opened Wrappers
  import opened CoreTone

  /** `MajorTriad(root)` and `MinorTriad(root)`: the variant is a tag instead of a subclass. */
  datatype Triad = Major(root: Tone) | Minor(root: Tone)

  /** Semitones from the root to the third of the triad. */
  function ThirdInterval(c: Triad): nat
  {
    match c
    case Major(_) => 4
    case Minor(_) => 3
  }

  /** `tones()`: root, third and fifth, each reduced modulo 12. */
  function Tones(c: Triad): (r: seq<Tone>)
    ensures |r| == 3 && r[0] == c.root
    ensures (r[1].idx - c.root.idx) % 12 == ThirdInterval(c)
    ensures (r[2].idx - c.root.idx) % 12 == 7
  {
    match c
    case Major(root) => [root, ByIdx(root.idx + 4), ByIdx(root.idx + 7)]
    case Minor(root) => [root, ByIdx(root.idx + 3), ByIdx(root.idx + 7)]
  }

  function TriadSharpName(c: Triad): string
  {
    match c
    case Major(root) => SharpName(root)
    case Minor(root) => SharpName(root) + "m"
  }

  function TriadFlatName(c: Triad): string
  {
    match c
    case Major(root) => FlatName(root)
    case Minor(root) => FlatName(root) + "m"
  }

  /** The root list of `MajorTriad.circle()`. */
  function MajorRoots(): seq<string>
  {
    ["C", "F", "A♯", "D♯", "G♯", "C♯", "F♯", "B", "E", "A", "D", "G"]
  }

  /** The root list of `MinorTriad.circle()`. */
  function MinorRoots(): seq<string>
  {
    ["A", "D", "G", "C", "F", "A♯", "D♯", "G♯", "C♯", "F♯", "B", "E"]
  }

  /**
   * `[Tone.by_name(n) for n in names]`: the first unknown name raises. It
   * resolves through the corrected `ByName`; on the sharp-row names that the
   * circles pass it, that agrees with `ByNameAsWritten` (see `ByName`'s last
   * `ensures`).
   */
  function ResolveAll(names: seq<string>): (r: Result<seq<Tone>, ToneError>)
    ensures r.Ok? <==> forall i :: 0 <= i < |names| ==> ByName(names[i]).Ok?
    ensures r.Ok? ==> |r.value| == |names|
    ensures r.Ok? ==> forall i :: 0 <= i < |names| ==> ByName(names[i]) == Ok(r.value[i])
  {
    if |names| == 0 then Ok([])
    else
      var rest := names[1..];
      assert forall i :: 0 <= i < |rest| ==> rest[i] == names[i + 1];
      var head, tail := ByName(names[0]), ResolveAll(rest);
      if head.Err? then
        Err(head.error)
      else if tail.Err? then
        assert exists i :: 0 <= i < |rest| && !ByName(rest[i]).Ok?;
        Err(tail.error)
      else
        var r := [head.value] + tail.value;
        assert forall i :: 0 < i < |names| ==> r[i] == tail.value[i - 1] && names[i] == rest[i - 1];
        assert forall i :: 0 <= i < |names| ==> ByName(names[i]) == Ok(r[i]);
        Ok(r)
  }

  /** `[cls(root) for root in roots]` for `MajorTriad`. */
  function Majors(roots: seq<Tone>): (cs: seq<Triad>)
    ensures |cs| == |roots|
    ensures forall i :: 0 <= i < |roots| ==> cs[i] == Major(roots[i])
  {
    seq(|roots|, i requires 0 <= i < |roots| => Major(roots[i]))
  }

  /** `[cls(root) for root in roots]` for `MinorTriad`. */
  function Minors(roots: seq<Tone>): (cs: seq<Triad>)
    ensures |cs| == |roots|
    ensures forall i :: 0 <= i < |roots| ==> cs[i] == Minor(roots[i])
  {
    seq(|roots|, i requires 0 <= i < |roots| => Minor(roots[i]))
  }

  /** `MajorTriad.circle()`. */
  function MajorCircle(): Result<seq<Triad>, ToneError>
  {
    match ResolveAll(MajorRoots())
    case Err(e) => Err(e)
    case Ok(ts) => Ok(Majors(ts))
  }

  /** `MinorTriad.circle()`. */
  function MinorCircle(): Result<seq<Triad>, ToneError>
  {
    match ResolveAll(MinorRoots())
    case Err(e) => Err(e)
    case Ok(ts) => Ok(Minors(ts))
  }

  /** Both triads on a root share root and fifth and differ in the third. */
  lemma SameRootTriads(r: Tone)
    ensures Tones(Major(r))[0] == Tones(Minor(r))[0]
    ensures Tones(Major(r))[2] == Tones(Minor(r))[2]
    ensures Tones(Major(r))[1] != Tones(Minor(r))[1]
    ensures (Tones(Major(r))[1].idx - Tones(Minor(r))[1].idx) % 12 == 1
  {
  }

  /** No spelling of a tone ends in the minor suffix "m". */
  lemma {:induction false} ToneNamesUnsuffixed(t: Tone)
    ensures |SharpName(t)| > 0 && SharpName(t)[|SharpName(t)| - 1] != 'm'
    ensures |FlatName(t)| > 0 && FlatName(t)[|FlatName(t)| - 1] != 'm'
  {
    var i := t.idx;
    if i == 0 {} else if i == 1 {} else if i == 2 {} else if i == 3 {} else if i == 4 {} else if i == 5 {}
    else if i == 6 {} else if i == 7 {} else if i == 8 {} else if i == 9 {} else if i == 10 {} else {}
  }

  /**
   * A triad's sharp name determines the triad: it ends in "m" exactly when
   * the triad is minor, and what precedes the suffix names the root.
   */
  lemma TriadSharpNamesInjective(c: Triad, d: Triad)
    ensures var n := TriadSharpName(c); |n| > 0 && (n[|n| - 1] == 'm' <==> c.Minor?)
    ensures TriadSharpName(c) == TriadSharpName(d) <==> c == d
  {
    var x, y := SharpName(c.root), SharpName(d.root);
    assert x == y <==> c.root == d.root by {
      SharpRoundTrip(c.root);
      SharpRoundTrip(d.root);
    }
    ToneNamesUnsuffixed(c.root);
    ToneNamesUnsuffixed(d.root);
    SuffixKeepsApart(x, y);
  }

  /** The same for the flat name. */
  lemma TriadFlatNamesInjective(c: Triad, d: Triad)
    ensures var n := TriadFlatName(c); |n| > 0 && (n[|n| - 1] == 'm' <==> c.Minor?)
    ensures TriadFlatName(c) == TriadFlatName(d) <==> c == d
  {
    var u, v := FlatName(c.root), FlatName(d.root);
    assert u == v <==> c.root == d.root by {
      FlatRoundTrip(c.root);
      FlatRoundTrip(d.root);
    }
    ToneNamesUnsuffixed(c.root);
    ToneNamesUnsuffixed(d.root);
    SuffixKeepsApart(u, v);
  }

  /** Appending "m" to two unsuffixed names keeps them apart from each other and from the names themselves. */
  lemma SuffixKeepsApart(x: string, y: string)
    requires |x| > 0 && x[|x| - 1] != 'm' && |y| > 0 && y[|y| - 1] != 'm'
    ensures (x + "m")[|x + "m"| - 1] == 'm'
    ensures x + "m" != y && y + "m" != x
    ensures x + "m" == y + "m" <==> x == y
  {
    assert (x + "m")[|x + "m"| - 1] == 'm' && (y + "m")[|y + "m"| - 1] == 'm';
    if x + "m" == y + "m" {
      assert x == (x + "m")[..|x|];
      assert y == (y + "m")[..|y|];
    }
  }

  /** Resolving names that each resolve gives exactly their tones. */
  lemma {:induction false} ResolveAllOk(names: seq<string>, ts: seq<Tone>)
    requires |names| == |ts|
    requires forall i :: 0 <= i < |names| ==> ByName(names[i]) == Ok(ts[i])
    ensures ResolveAll(names) == Ok(ts)
  {
    if |names| > 0 {
      ResolveAllOk(names[1..], ts[1..]);
      assert [ts[0]] + ts[1..] == ts;
    }
  }

  /** The major root list spells the tones 5·i semitones above C. */
  lemma MajorRootSpellings()
    ensures |MajorRoots()| == 12
    ensures forall i :: 0 <= i < 12 ==> MajorRoots()[i] == SharpName(ByIdx(5 * i))
  {
    forall i | 0 <= i < 12 ensures MajorRoots()[i] == SharpName(ByIdx(5 * i)) {
      if i == 0 {} else if i == 1 {} else if i == 2 {} else if i == 3 {} else if i == 4 {} else if i == 5 {} else if i == 6 {} else if i == 7 {} else if i == 8 {} else if i == 9 {} else if i == 10 {} else {}
    }
  }

  /** The minor root list spells the tones 5·i + 9 semitones above C. */
  lemma MinorRootSpellings()
    ensures |MinorRoots()| == 12
    ensures forall i :: 0 <= i < 12 ==> MinorRoots()[i] == SharpName(ByIdx(5 * i + 9))
  {
    forall i | 0 <= i < 12 ensures MinorRoots()[i] == SharpName(ByIdx(5 * i + 9)) {
      if i < 6 {
        MinorRootsLow(i);
      } else {
        MinorRootsHigh(i);
      }
    }
  }

  /** The first six places of the minor root list. */
  lemma MinorRootsLow(i: int)
    requires 0 <= i < 6
    ensures MinorRoots()[i] == SharpName(ByIdx(5 * i + 9))
  {
    if i == 0 {} else if i == 1 {} else if i == 2 {} else if i == 3 {} else if i == 4 {} else {}
  }

  /** The last six places of the minor root list. */
  lemma MinorRootsHigh(i: int)
    requires 6 <= i < 12
    ensures MinorRoots()[i] == SharpName(ByIdx(5 * i + 9))
  {
    if i == 6 {} else if i == 7 {} else if i == 8 {} else if i == 9 {} else if i == 10 {} else {}
  }

  /** Every root of both circles names a known tone. */
  lemma RootsResolve()
    ensures ResolveAll(MajorRoots()) == Ok(seq(12, i => ByIdx(5 * i)))
    ensures ResolveAll(MinorRoots()) == Ok(seq(12, i => ByIdx(5 * i + 9)))
  {
    MajorRootSpellings();
    MinorRootSpellings();
    var ms := seq(12, i => ByIdx(5 * i));
    var ns := seq(12, i => ByIdx(5 * i + 9));
    forall i | 0 <= i < 12
      ensures ByName(MajorRoots()[i]) == Ok(ms[i]) && ByName(MinorRoots()[i]) == Ok(ns[i])
    {
      SharpRoundTrip(ms[i]);
      SharpRoundTrip(ns[i]);
    }
    ResolveAllOk(MajorRoots(), ms);
    ResolveAllOk(MinorRoots(), ns);
  }

  /** The roots of the circle of fifths: C, then ascending a fourth (5 semitones) at a time. */
  function FifthsOrder(): seq<Tone>
  {
    seq(12, i => ByIdx(5 * i))
  }

  /** Consecutive roots of the circle are 5 semitones apart, and every tone occurs exactly once. */
  lemma FifthsOrderCovers()
    ensures |FifthsOrder()| == 12
    ensures forall i :: 0 <= i < 11 ==> (FifthsOrder()[i + 1].idx - FifthsOrder()[i].idx) % 12 == 5
    ensures forall t: Tone :: FifthsOrder()[(5 * t.idx) % 12] == t
    ensures forall i, j :: 0 <= i < j < 12 ==> FifthsOrder()[i] != FifthsOrder()[j]
  {
    var ts := FifthsOrder();
    forall i | 0 <= i < 11 ensures (ts[i + 1].idx - ts[i].idx) % 12 == 5 {
      ByIdxInterval(5 * i, 5);
    }
    forall t: Tone ensures ts[(5 * t.idx) % 12] == t {
      FifthsInverse(t.idx);
    }
    forall i, j | 0 <= i < j < 12 ensures ts[i] != ts[j] {
      FifthsInverse(i);
      FifthsInverse(j);
    }
  }

  /**
   * `MajorTriad.circle()` succeeds and gives the twelve major triads in
   * circle-of-fifths order: consecutive roots are 5 semitones apart and every
   * root occurs exactly once.
   */
  lemma MajorCircleOfFifths()
    ensures MajorCircle() == Ok(Majors(FifthsOrder()))
  {
    RootsResolve();
    assert seq(12, i => ByIdx(5 * i)) == FifthsOrder();
  }

  /**
   * Over the rows as src/core/tone.py stores them, `MajorTriad.circle()` and
   * `MinorTriad.circle()` raise: the third major root and the sixth minor
   * root, "A♯", is found in neither stored row, while the roots before them are.
   */
  lemma StoredRowsBreakCircles()
    ensures MajorRoots()[2] == "A♯" && ByNameStored(MajorRoots()[2]) == Err(ValueError)
    ensures forall i :: 0 <= i < 2 ==> ByNameStored(MajorRoots()[i]).Ok?
    ensures MinorRoots()[5] == "A♯" && ByNameStored(MinorRoots()[5]) == Err(ValueError)
    ensures forall i :: 0 <= i < 5 ==> ByNameStored(MinorRoots()[i]).Ok?
  {
    StoredRowsRejectRealSharp();
    StoredLettersFound();
    RootsUpToASharp();
  }

  /** The roots each circle passes up to its first "A♯". */
  lemma RootsUpToASharp()
    ensures MajorRoots()[0] == "C" && MajorRoots()[1] == "F" && MajorRoots()[2] == "A♯"
    ensures MinorRoots()[0] == "A" && MinorRoots()[1] == "D" && MinorRoots()[2] == "G"
    ensures MinorRoots()[3] == "C" && MinorRoots()[4] == "F" && MinorRoots()[5] == "A♯"
  {
  }

  /** The roots of the minor circle: A, then ascending a fourth at a time. */
  function RelativeOrder(): seq<Tone>
  {
    seq(12, i => ByIdx(5 * i + 9))
  }

  /**
   * `MinorTriad.circle()` succeeds, and its triad at i is the relative minor
   * (a major sixth, 9 semitones, above) of the major triad at i.
   */
  lemma MinorCircleIsRelative()
    ensures MinorCircle() == Ok(Minors(RelativeOrder()))
    ensures MinorCircle().Ok? && |MinorCircle().value| == 12
    ensures forall i :: 0 <= i < 12 ==> MinorCircle().value[i] == Minor(ByIdx(FifthsOrder()[i].idx + 9))
  {
    RelativeOfFifths();
    RootsResolve();
    assert seq(12, i => ByIdx(5 * i + 9)) == RelativeOrder();
  }

  /** Each root of the minor circle is 9 semitones above the major root at the same place. */
  lemma RelativeOfFifths()
    ensures forall i :: 0 <= i < 12 ==> RelativeOrder()[i] == ByIdx(FifthsOrder()[i].idx + 9)
  {
    forall i | 0 <= i < 12 ensures RelativeOrder()[i] == ByIdx(FifthsOrder()[i].idx + 9) {
      ReducedSum(5 * i, 9);
    }
  }

  /** Adding `c` semitones to a tone lands where adding them to any of its octaves does. */
  lemma ReducedSum(x: int, c: int)
    ensures ByIdx(x + c) == ByIdx(ByIdx(x).idx + c)
  {
    var q := x / 12;
    assert ByIdx(x).idx + c + 12 * q == x + c;
    ByIdxOctaves(ByIdx(x).idx + c, q);
  }

  /** Five is its own inverse modulo 12: stepping 5·(5·t) lands back on t. */
  lemma FifthsInverse(t: PitchIndex)
    ensures ByIdx(5 * ((5 * t) % 12)) == Tone(t)
  {
    var q := (5 * t) / 12;
    assert 5 * ((5 * t) % 12) == t + 12 * (2 * t - 5 * q);
    ByIdxOctaves(t, 2 * t - 5 * q);
  }
}
