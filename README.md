# circle_of_fifths in Dafny

circle_of_fifths is a small desktop program that draws the circle of fifths.
It has two rings of twelve buttons: the outer ring holds the twelve major
triads in fifths order, and the inner ring holds each one's relative minor.
Clicking a triad colours the rings by one of three relations to it. The user
chooses the relation with a radio group:

- AXIS: the tonic, subdominant and dominant functions, rotated so the clicked triad is on top.
- COMMON: how many tones each triad shares with the clicked one, or which tones it shares.
- NEGATIVE: the negative-harmony partner of every triad in the key of the clicked one.

A switch spells the labels with sharps or with flats.

The repository holds three versions of this program, and the model covers all three:

- `src/`: the current version. `src/core/tone.py` holds pitch classes and
  their names. `src/core/chord.py` holds major and minor triads and the two
  circles. `src/ui/circle.py` holds the widget with its two deques of chord
  bubbles.
- `chord.py` and `ui.py` at the top level: an earlier widget built on a
  string-keyed chord record.
- `circle.py` at the top level: a standalone page that keeps chord names in
  the containers and renames them through two dictionaries.

The modules follow that structure:

| module | models |
|---|---|
| `CoreTone` (tone.dfy) | `src/core/tone.py`: `Tone`, the two twelve-tone rows, `by_idx`, `by_name`, `twelve_tone_row` |
| `CoreChord` (chord.dfy) | `src/core/chord.py`: `MajorTriad`, `MinorTriad`, `tones()`, names, `circle()` |
| `Harmony` (harmony.dfy) | what the widgets' colour tables encode: positions on the circle, shared tones, shared-tone masks, negative harmony, the key's degrees |
| `Palette` (palette.dfy) | the literal colour tables of the three widgets, entry by entry |
| `Rings` (rings.dfy) | `collections.deque.rotate` on a twelve-slot ring, and the "rotate until it is on top" loops |
| `Painting` (painting.dfy) | the three colour-writing loop shapes the widgets share |
| `UiCircle` (ui_circle.dfy) | `src/ui/circle.py`: class `Circle` with its deques, fills, degrees and hover state |
| `ProtoChord` (proto_chord.dfy) | `chord.py`: the `Chord` record, `sharp_name`, `flat_name`, `__str__`, `all_triads` |
| `ProtoUi` (proto_ui.dfy) | `ui.py`: class `Circle` over `ChordContainer`s |
| `ProtoCircle` (proto_circle.dfy) | `circle.py`: the page's state, the renaming dictionaries and every handler |
| `Wrappers` (wrappers.dfy) | `Option` and `Result` |

The widgets are classes whose methods update fields: the deques, the fills,
the mode and the spelling. Their loops are methods with loop invariants. Each
method is proved against functions over the old state. The music each colour
table encodes is proved separately, in `Harmony`, for every position and every
turn of the rings. For example:

- COMMON gives each triad the colour of the number of tones it shares with the clicked one.
- NEGATIVE gives a major and a minor the same colour exactly when one is the
  other's negative in the clicked key.
- AXIS gives two triads one shade exactly when their roots are a multiple of
  three semitones apart.

## Model

| member | source | states |
|---|---|---|
| CoreTone.ByIdx | src/core/tone.py:11-12 | the tone built from any integer is that integer modulo 12, and indices 0..11 are kept as they are |
| CoreTone.ByIdxPeriodic | src/core/tone.py:17-19 | `by_idx` is periodic with period 12 |
| CoreTone.ByIdxOctaves | src/core/tone.py:17-19 | adding any whole number of octaves gives the same tone |
| CoreTone.ByIdxInterval | src/core/tone.py:17-19 | the tone `d` semitones above `x` lies `d` (mod 12) above the tone of `x` |
| CoreTone.IndexOf | src/core/tone.py:24 | `list.index`: found exactly when present, at the first position holding the value |
| CoreTone.IndexOfDistinct | src/core/tone.py:24 | in a list without repeats, `index` of the element at `k` is `k` |
| CoreTone.RowsDistinct | src/core/tone.py:5-6 | neither twelve-tone row repeats a name |
| CoreTone.TwelveToneRow | src/core/tone.py:29-31 | twelve tones, the one at `i` being pitch class `i`, and every tone at its own index |
| CoreTone.ByNameAsWritten | src/core/tone.py:21-27 | the code as written succeeds exactly on sharp-row names, and the tone it returns has that sharp name |
| CoreTone.ByName | src/core/tone.py:21-27 | the corrected lookup succeeds exactly on names of either row, returns a tone spelled by the name, and agrees with the code as written on sharp names |
| CoreTone.SharpRoundTrip | src/core/tone.py:37-39 | looking up a tone's sharp name gives the tone back, in both versions |
| CoreTone.FlatRoundTrip | src/core/tone.py:41-43 | looking up a tone's flat name gives the tone back (corrected version) |
| CoreTone.SpellingsCoincide | src/core/tone.py:5-6 | the sharp and flat names agree exactly on the seven naturals |
| CoreTone.SharpName | src/core/tone.py:37-39 | definition: the sharp row's entry; its meaning is stated by CoreTone.SharpRoundTrip |
| CoreTone.FlatName | src/core/tone.py:41-43 | definition: the flat row's entry; its meaning is stated by CoreTone.FlatRoundTrip |
| CoreTone.ByNameStored | src/core/tone.py:21-27 | the code as written over the rows as the file stores them succeeds exactly on the stored sharp-row names, and the tone it returns stands at that name's place |
| CoreTone.StoredRowsRejectRealSharp | src/core/tone.py:5-6 | as stored, "A♯" spelled with the real sign is in neither row and `by_name` raises `ValueError`; the stored spelling is found as pitch class 10, and so is "A♯" in the rows spelled with ♯ and ♭ |
| CoreTone.FlatOnlyNameRejected | src/core/tone.py:25-26 | "D♭" raises `ValueError` as written, and so does the flat row's "D‚ô≠" over the rows as stored; once corrected, "D♭" is C♯/D♭ |
| CoreChord.Tones | src/core/chord.py:37-41 | a triad's tones are its root, the third above it (4 or 3 semitones) and the fifth (7 semitones) |
| CoreChord.SameRootTriads | src/core/chord.py:59-63 | a major and a minor on one root share root and fifth, and their thirds differ by one semitone |
| CoreChord.TriadSharpName | src/core/chord.py:29-53 | definition: the root's sharp name, with "m" for a minor; see CoreChord.TriadSharpNamesInjective |
| CoreChord.TriadFlatName | src/core/chord.py:33-57 | definition: the root's flat name, with "m" for a minor; see CoreChord.TriadFlatNamesInjective |
| CoreChord.TriadSharpNamesInjective | src/core/chord.py:29-53 | a sharp name ends in "m" exactly for a minor, and two triads have the same sharp name exactly when they are equal |
| CoreChord.TriadFlatNamesInjective | src/core/chord.py:33-57 | a flat name ends in "m" exactly for a minor, and two triads have the same flat name exactly when they are equal |
| CoreChord.ResolveAll | src/core/chord.py:45 | resolving a list of names succeeds exactly when every name resolves, pointwise and in order |
| CoreChord.ResolveAllOk | src/core/chord.py:45 | names that resolve one by one resolve as a list to those tones |
| CoreChord.MajorRootSpellings | src/core/chord.py:45 | the major-circle root names are the sharp names of 0, 5, 10, … semitones: fifths order |
| CoreChord.MinorRootSpellings | src/core/chord.py:67 | the minor-circle root names are the sharp names of those roots plus 9 semitones |
| CoreChord.MinorRootsLow | src/core/chord.py:67 | the first six minor-circle roots, as above |
| CoreChord.MinorRootsHigh | src/core/chord.py:67 | the last six minor-circle roots, as above |
| CoreChord.RootsResolve | src/core/chord.py:43-46 | both root lists resolve, to the fifths order and to the fifths order plus 9 |
| CoreChord.FifthsOrderCovers | src/core/chord.py:45 | the circle's roots climb by fourths, hold every pitch class once and never repeat |
| CoreChord.MajorCircleOfFifths | src/core/chord.py:43-46 | `MajorTriad.circle()` succeeds with the majors on the fifths order |
| CoreChord.MinorCircleIsRelative | src/core/chord.py:65-68 | `MinorTriad.circle()` succeeds with twelve minors, the one at `i` being the relative minor of the major at `i` |
| CoreChord.Majors | src/core/chord.py:46 | one major triad per root, in order |
| CoreChord.Minors | src/core/chord.py:68 | one minor triad per root, in order |
| CoreChord.MajorCircle | src/core/chord.py:43-46 | definition; its result is stated by CoreChord.MajorCircleOfFifths |
| CoreChord.StoredRowsBreakCircles | src/core/chord.py:43-68 | over the rows as stored, both `circle()` calls raise at their first "A♯" root (the third major, the sixth minor), after the roots before it resolve |
| CoreChord.MinorCircle | src/core/chord.py:65-68 | definition; its result is stated by CoreChord.MinorCircleIsRelative |
| CoreChord.RelativeOfFifths | src/core/chord.py:67 | the minor roots are the major roots moved up 9 semitones |
| Harmony.CircleAt | src/core/chord.py:43-68 | the triad at position `i` of a ring has that ring's quality and a root 5i semitones (plus 9 for minors) above C, for any `i` |
| Harmony.CircleAtSame | src/core/chord.py:43-68 | two positions of a ring hold the same triad exactly when they are whole turns apart |
| Harmony.MajorCirclePositions | src/core/chord.py:43-46 | `MajorTriad.circle()[i]` is the triad at position `i` of the major ring |
| Harmony.MinorCirclePositions | src/core/chord.py:65-68 | `MinorTriad.circle()[i]` is the triad at position `i` of the minor ring |
| Harmony.RelativeAt | src/core/chord.py:65-68 | the relative minors in circle order fill the minor ring |
| Harmony.Transpose | src/core/chord.py:37-41 | transposing keeps a triad's quality and moves its root by the interval |
| Harmony.Shared | src/ui/circle.py:174-247 | definition: the number of the first triad's tones that the second holds, the count the COMMON tables encode; see Harmony.CommonColouring |
| Harmony.SharedTranspose | src/ui/circle.py:205-206 | transposing two triads together keeps their shared-tone count, which is why one table rotated to the click serves every triad |
| Harmony.SharedOnCircle | src/ui/circle.py:174-247 | the shared-tone count of two circle triads depends only on their rings and their distance round the circle |
| Harmony.CommonTable | src/ui/circle.py:174-247 | each COMMON table has twelve entries |
| Harmony.CommonMajorSelectedMajorRing | src/ui/circle.py:177-190 | entry `d` of this table is the colour for the tones a major shares with the major `d` places on |
| Harmony.CommonMajorSelectedMinorRing | src/ui/circle.py:191-204 | entry `d` is the colour for the tones the minor `d` places on shares with that major |
| Harmony.CommonMinorSelectedMajorRing | src/ui/circle.py:208-221 | entry `d` is the colour for the tones the major `d` places on shares with a clicked minor |
| Harmony.CommonMinorSelectedMinorRing | src/ui/circle.py:222-235 | entry `d` is the colour for the tones a minor shares with the minor `d` places on |
| Harmony.CommonTableEntries | src/ui/circle.py:174-247 | all four COMMON tables at once, by ring |
| Harmony.CommonColouring | src/ui/circle.py:239-246 | after rotating by the clicked index, slot `j` gets the COMMON colour of the number of tones its triad shares with the clicked triad: black for itself, red for two, pale red for one, grey for none |
| Harmony.MaskOnCircle | circle.py:196-212 | which tones of the clicked triad a circle triad holds depends only on rings and distance |
| Harmony.NotesTable | circle.py:65-97 | each common-notes table has twelve entries |
| Harmony.NotesMajorSelectedMajorRing | circle.py:65-80 | entry `d` is the colour naming which tones (root, third, fifth) of the clicked major the major `d` places on holds |
| Harmony.NotesMajorSelectedMinorRing | circle.py:65-80 | the same for the minor ring |
| Harmony.NotesMinorSelectedMajorRing | circle.py:82-97 | the same for a clicked minor and the major ring |
| Harmony.NotesMinorSelectedMinorRing | circle.py:82-97 | the same for a clicked minor and the minor ring |
| Harmony.NotesTableEntries | circle.py:56-97 | all four common-notes tables at once, by ring |
| Harmony.NotesColouring | circle.py:196-212 | after rotating by the clicked index, slot `j` gets the colour naming exactly the tones of the clicked triad its own triad holds |
| Harmony.NegativeOf | src/ui/circle.py:249-322 | the negative of a triad in a key swaps major and minor, swaps the sizes of the two thirds, and has its root at `2 * tonic - root` |
| Harmony.NegativeReflectsTones | src/ui/circle.py:249-322 | a tone is in a triad exactly when its mirror image is in the negative triad |
| Harmony.NegativeInvolution | src/ui/circle.py:249-322 | taking the negative twice gives the triad back |
| Harmony.NegativeOnCircle | src/ui/circle.py:249-322 | on the circle, the minor at `e` is the negative of the major at `d` in the key of the triad at `k` exactly when `d + e` is congruent to `2k` plus a constant of the clicked ring |
| Harmony.NegativeRankInverse | circle.py:118-131 | every NEGATIVE palette colour is found at its own rank in the table |
| Harmony.NegativeMajorSelectedRanks | src/ui/circle.py:252-279 | the major-clicked NEGATIVE tables run forward through the palette on the major ring and backward from 3 on the minor ring |
| Harmony.NegativeMinorSelectedRanks | src/ui/circle.py:283-310 | the minor-clicked NEGATIVE tables run forward from 3 on the major ring and backward on the minor ring |
| Harmony.NegativeTable | src/ui/circle.py:249-322 | definition: the NEGATIVE table pair for the clicked ring; see Harmony.NegativeTableRanks and Harmony.NegativeColouring |
| Harmony.NegativeTableRanks | src/ui/circle.py:249-322 | both NEGATIVE tables as rank progressions, by clicked ring |
| Harmony.NegativeAcrossRings | src/ui/circle.py:249-322 | a major and a minor entry share a colour exactly when their positions add up to the clicked ring's constant |
| Harmony.NegativeMajorRingDistinct | src/ui/circle.py:252-265 | no colour repeats within the major ring of a NEGATIVE table |
| Harmony.NegativeMinorRingDistinct | src/ui/circle.py:266-279 | no colour repeats within the minor ring of a NEGATIVE table |
| Harmony.NegativeColouring | src/ui/circle.py:314-321 | after rotating by the clicked index, the major at `j` and the minor at `i` share a colour exactly when the minor is the negative of the major in the clicked triad's key |
| Harmony.MajorKeyDegrees | src/ui/circle.py:338-346 | around a major at `k` lie its IV, V, vi, ii and iii: 5, 7, 9, 2 and 4 semitones up |
| Harmony.MinorKeyDegrees | src/ui/circle.py:348-356 | around a minor at `k` lie its III, VI, VII, iv and v: 3, 8, 10, 5 and 7 semitones up |
| Harmony.AxisOnCircle | src/ui/circle.py:152-172 | two circle triads have roots a multiple of 3 semitones apart exactly when their positions are |
| Harmony.TriadDeterminedByTones | src/ui/circle.py:324-336 | a triad holds all three tones of another exactly when they are the same triad |
| Rings.RotateRight1At | src/ui/circle.py:362-368 | one `rotate()` moves every element one slot on, the last to the front |
| Rings.RotateLeft1At | src/ui/circle.py:239-246 | one `rotate(-1)` moves every element one slot back, the front to the end |
| Rings.RotateRight1IsRotate | src/ui/circle.py:362-368 | one `rotate()` is a rotation by 1 |
| Rings.RotateLeft1IsRotate | src/ui/circle.py:239-246 | one `rotate(-1)` is a rotation by -1 |
| Rings.RotateCompose | src/ui/circle.py:205-206 | two rotations are one by the sum |
| Rings.RotateFullTurn | src/ui/circle.py:362-368 | a whole number of turns changes nothing |
| Rings.RotateZero | src/ui/circle.py:205-206 | rotating by 0 changes nothing |
| Rings.RotateInverse | src/ui/circle.py:239-246 | rotating by `n` then by `-n` gives the ring back |
| Rings.LeftStepsFront | src/ui/circle.py:239-246 | after `j` left steps the front of the deque is its element `j`, counted round |
| Rings.RightStep | src/ui/circle.py:362-368 | one more `rotate()` adds one to the rotation |
| Rings.FrontAfterTurns | src/ui/circle.py:361-368 | in a ring without repeats, after `n` right turns element `k` is on top exactly when `n` is `12 - k` modulo 12 |
| Rings.TurnTo | src/ui/circle.py:358-368 | `_rotate_to`'s loop ends with element `k` of the leading ring on top, both rings rotated by the same `(12 - k) % 12` |
| Rings.TurnedAt | src/ui/circle.py:358-368 | after that turn, slot `i` holds what slot `i + k` held |
| Rings.NoTurn | src/ui/circle.py:358-368 | turning to the element already on top changes nothing |
| Painting.PaintInOrder | src/ui/circle.py:239-246 | painting from a deque rotated left each step gives slot `j` the colour `j` places round from the front |
| Painting.PaintAll | src/ui/circle.py:147-150 | every slot gets the one colour |
| Painting.PaintAlong | circle.py:207-211 | `zip` painting: the first slots get the colours in order, the rest keep theirs |
| Painting.RotatedPaint | src/ui/circle.py:205-206 | painting a table rotated by `k` gives slot `j` the table entry `j - k` round |
| UiCircle.NewBubble | src/ui/circle.py:28-45 | definition: a new bubble shows its triad's flat name, with no tooltip, highlight or degree; see UiCircle.Built and UiCircle.FlatsKeepBuiltLabels |
| UiCircle.Built | src/ui/circle.py:28-45 | one fresh bubble per triad, in order |
| UiCircle.Label | src/ui/circle.py:135-145 | definition: the triad's sharp or flat name; see UiCircle.Relabelled and CoreChord.TriadSharpNamesInjective |
| UiCircle.Tooltip | src/ui/circle.py:138-144 | definition; its text is stated by UiCircle.TooltipWords |
| UiCircle.TooltipWords | src/ui/circle.py:135-145 | the tooltip is the three tone names of the triad joined by single spaces, and no tone name holds a space |
| UiCircle.EFlatMajorTooltip | src/ui/circle.py:141-145 | with flats, E♭ major's tooltip is "E♭ G B♭" |
| UiCircle.Relabelled | src/ui/circle.py:135-145 | each bubble's text becomes its triad's name and its tooltip the names of its three tones, in the chosen spelling; its triad, highlight and degree are kept |
| UiCircle.RelabelLastWins | src/ui/circle.py:135-145 | relabelling twice is the same as relabelling once with the second spelling |
| UiCircle.FlatsKeepBuiltLabels | src/ui/circle.py:141-145 | fresh bubbles already show the flat labels |
| UiCircle.Relabel | src/ui/circle.py:135-145 | the loop relabels every bubble |
| UiCircle.ContainsAllThree | src/ui/circle.py:332 | the `all(...)` test holds exactly when the triad holds each of the three tones |
| UiCircle.Highlighted | src/ui/circle.py:324-336 | with no tone chosen every flag is off; otherwise a bubble is highlighted exactly when its triad holds every chosen tone; nothing else about a bubble changes |
| UiCircle.HighlightTriadTones | src/ui/circle.py:324-336 | highlighting by a triad's tones lights exactly the bubbles of that triad |
| UiCircle.Highlight | src/ui/circle.py:324-336 | the loop sets every bubble's highlight |
| UiCircle.AxisCycleDistinct | src/ui/circle.py:152-172 | the three AXIS shades differ |
| UiCircle.NumeralsFitCircle | src/ui/circle.py:338-356 | the six numerals written round the tonic are well formed, upper-case exactly on the major ring, and name the degree their slot lies on |
| UiCircle.WriteDegrees | src/ui/circle.py:338-356 | the degree loop clears every bubble's degree, then writes the six numerals at slots 0, 1 and 11 |
| UiCircle.ClearDegrees | src/ui/circle.py:339-340 | every degree is cleared, nothing else changes |
| UiCircle.SameChordsLaid | src/ui/circle.py:135-145 | relabelling or highlighting keeps the layout |
| UiCircle.BuiltLaid | src/ui/circle.py:28-45 | the bubbles built from `circle()` are laid out at turn 0 |
| UiCircle.LaidDistinct | src/ui/circle.py:358-368 | no two bubbles of a ring hold the same triad, so `is` finds one bubble |
| UiCircle.InitialRing | src/ui/circle.py:28-45 | the constructor's ring building gives fresh bubbles at turn 0 |
| UiCircle.TurnRings | src/ui/circle.py:358-368 | turning brings slot `k` to the top, both rings by the same rotation |
| UiCircle.TurnedRing | src/ui/circle.py:358-368 | a turned ring is laid out at the turn plus the rotation |
| UiCircle.AxisSlot | src/ui/circle.py:152-172 | two slots get the same AXIS shade exactly when their triads' roots are a multiple of 3 semitones apart |
| UiCircle.AxisRings | src/ui/circle.py:152-172 | the same, for the painted rings |
| UiCircle.CommonColouringTurned | src/ui/circle.py:174-247 | on rings turned by `o`, COMMON entry `j - k` is the colour of the tones slot `j` shares with slot `k` |
| UiCircle.NegativeColouringTurned | src/ui/circle.py:249-322 | on rings turned by `o`, NEGATIVE entries match exactly on negatives |
| UiCircle.CommonSlot | src/ui/circle.py:174-247 | COMMON in terms of the bubbles' triads |
| UiCircle.NegativeSlot | src/ui/circle.py:249-322 | NEGATIVE in terms of the bubbles' triads |
| UiCircle.NegativeRowsDistinct | src/ui/circle.py:249-322 | a rotated NEGATIVE ring never repeats a colour |
| UiCircle.SlotPosition | src/ui/circle.py:338-356 | slots 0, 1 and 11 are the top position and its two neighbours |
| UiCircle.DegreeOnCircle | src/ui/circle.py:338-356 | each numeral names exactly the triad at its slot, relative to the top triad of the tonic's ring |
| UiCircle.DegreeSlot | src/ui/circle.py:338-356 | the same, for the bubbles |
| UiCircle.Circle.constructor | src/ui/circle.py:20-45 | AXIS mode, no degree shown, both rings in circle order from the top, unpainted |
| UiCircle.Circle.AxisFillsAreAxes | src/ui/circle.py:152-172 | AXIS fills match exactly on roots a multiple of 3 semitones apart |
| UiCircle.Circle.PaintAxis | src/ui/circle.py:152-172 | the three shades repeat round both rings, and match exactly on roots a multiple of 3 apart |
| UiCircle.Circle.PaintGrey | src/ui/circle.py:147-150 | every bubble turns grey |
| UiCircle.Circle.PaintCommon | src/ui/circle.py:174-247 | every bubble gets the colour of its shared-tone count with the clicked one, and the clicked one is black |
| UiCircle.Circle.PaintNegative | src/ui/circle.py:249-322 | a major and a minor share a colour exactly when they are negatives, no ring repeats a colour, and the clicked one is black |
| UiCircle.Circle.SetMode | src/ui/circle.py:128-133 | the new mode, painted AXIS or grey |
| UiCircle.Circle.SetSpelling | src/ui/circle.py:135-145 | both rings relabelled, nothing else changed |
| UiCircle.Circle.HighlightByTones | src/ui/circle.py:324-336 | both rings highlighted by the tones |
| UiCircle.Circle.DegreesNameTheKey | src/ui/circle.py:338-356 | every written numeral names the triad in its bubble, relative to the tonic on top |
| UiCircle.Circle.SetDegrees | src/ui/circle.py:338-356 | the numerals for the tonic's ring are written, nothing else changed |
| UiCircle.Circle.RotateTo | src/ui/circle.py:358-376 | the clicked bubble comes to the top, both rings turn together, fills stay with their slots |
| UiCircle.Circle.Recolour | src/ui/circle.py:390-396 | the mode's repaint. AXIS turns both rings so that bubble `(i + k) % 12` stands at `i` and paints the axis cycle. COMMON and NEGATIVE keep the bubbles and paint the tables shifted to the clicked bubble, with the meaning of each colour |
| UiCircle.Circle.OnBubbleClick | src/ui/circle.py:388-401 | the mode branch runs, then the numerals are written round the top slots of the clicked kind's ring. Each bubble afterwards is the one from `(i + k) % 12` (AXIS) or from `i` (otherwise) with only its degree replaced. The fills are those of the mode branch: the axis cycle, or the common or negative table shifted to the click. After an AXIS click each numeral names its bubble's triad in the clicked triad's key |
| UiCircle.Circle.HoverBegin | src/ui/circle.py:403-409 | in AXIS mode a bubble with a non-empty degree shows it, and one without hides the display |
| UiCircle.Circle.HoverEnd | src/ui/circle.py:411-414 | in AXIS mode the degree display is hidden |
| ProtoChord.SharpName | chord.py:13-31 | an unknown root raises `KeyError` with that root |
| ProtoChord.FlatName | chord.py:33-51 | an unknown root raises `KeyError` with that root |
| ProtoChord.Spelled | chord.py:15-28 | a spelling read as a pitch class gives 0..11 |
| ProtoChord.RowsSpellPitches | chord.py:15-28 | both spellings of each pitch class read as that class |
| ProtoChord.KnownRoots | chord.py:15-48 | both dictionaries know exactly the 17 sharp and flat spellings |
| ProtoChord.SharpTableByPitch | chord.py:15-28 | both spellings of a pitch class map to its sharp spelling |
| ProtoChord.FlatTableByPitch | chord.py:35-48 | both spellings of a pitch class map to its flat spelling |
| ProtoChord.RowsDistinct | chord.py:15-48 | no spelling row repeats a name |
| ProtoChord.TablesFollowSpelling | chord.py:15-48 | each dictionary maps a root to the spelling of its pitch class |
| ProtoChord.SuffixInjective | chord.py:29-30 | adding the "m" suffix keeps names apart |
| ProtoChord.SameEnharmonicClasses | chord.py:13-51 | two known roots get the same sharp (or flat) name exactly when they are one pitch class |
| ProtoChord.EnharmonicExamples | chord.py:13-51 | an illustration of ProtoChord.SameEnharmonicClasses on three chords: D♭ and C♯ majors are both "C#"; A♯ and B♭ majors are both "Bb"; E♭ minor is "D#m" |
| ProtoChord.NamesAndSuffix | chord.py:13-51 | naming succeeds exactly on known roots, gives a major the dictionary spelling and a minor that plus "m", and otherwise raises `KeyError` |
| ProtoChord.NamingIdempotent | chord.py:13-51 | renaming an already renamed chord changes nothing |
| ProtoChord.Str | chord.py:10-11 | definition: the sharp name; its meaning is stated by ProtoChord.StrReadsBack |
| ProtoChord.StrReadsBack | chord.py:10-11 | `str(chord)` succeeds exactly on the seventeen known roots and raises `KeyError` for the root otherwise; its text ends in "m" exactly for a minor, and the text before that suffix is a sharp spelling of the root's pitch class |
| ProtoChord.MajorRootAt | chord.py:56-69 | the majors' roots are the sharp spellings in fifths order |
| ProtoChord.MinorRootAt | chord.py:70-83 | the minors' roots are the sharp spellings of those roots plus 9 |
| ProtoChord.RootsAt | chord.py:53-84 | both roots at each index are known, and the minor's is 9 semitones above the major's |
| ProtoChord.SharpRootAt | chord.py:15-28 | a sharp spelling is a known root reading as its own pitch class |
| ProtoChord.AllTriads | chord.py:53-84 | definition; its lists are stated by ProtoChord.AllTriadsCircle |
| ProtoChord.AllTriadsCircle | chord.py:53-84 | `all_triads` gives twelve majors on the fifths order and twelve known relative minors |
| ProtoChord.RootsApart | chord.py:53-84 | no root repeats within either list |
| ProtoChord.SharpRowApart | chord.py:15-28 | different pitch classes have different sharp spellings |
| ProtoChord.AllTriadsDistinct | chord.py:53-84 | no chord repeats within either list |
| ProtoUi.OnCircleTriad | ui.py:112-120 | that chord is known, has the ring's quality and is the triad at that circle position |
| ProtoUi.PlacedAt | ui.py:112-120 | a ring laid out at turn `o` holds at slot `i` the chord at circle position `i - o` |
| ProtoUi.PlacedKnown | ui.py:12-40 | every laid-out container holds a known root |
| ProtoUi.SameChordsPlaced | ui.py:191-199 | relabelling keeps the layout |
| ProtoUi.Relabelled | ui.py:191-199 | relabelling keeps every container's chord |
| ProtoUi.RelabelledTexts | ui.py:191-199 | each text is the chord's name in the chosen spelling, the second relabelling wins, and fresh containers already show flats |
| ProtoUi.Relabel | ui.py:191-199 | the loop relabels every container |
| ProtoUi.NewContainer | ui.py:14-37 | definition: a new container holds its chord and shows the flat name; see ProtoUi.Circle.constructor |
| ProtoUi.InitialRingPlaced | ui.py:112-120 | the constructor's rings are laid out at turn 0 with fresh containers |
| ProtoUi.PlacedDistinct | ui.py:387-404 | no two containers of a ring hold the same chord, so `is` finds one container |
| ProtoUi.TurnRings | ui.py:387-398 | the turning loop brings slot `k` to the top, both rings by one rotation |
| ProtoUi.TurnedRing | ui.py:387-404 | a turned ring is laid out at the turn plus the rotation |
| ProtoUi.AxisSlot | ui.py:206-226 | two slots get one AXIS shade exactly when their roots are a multiple of 3 semitones apart |
| ProtoUi.AxisRings | ui.py:206-226 | the same, for the painted rings |
| ProtoUi.CommonSlot | ui.py:228-301 | COMMON in terms of the containers' chords |
| ProtoUi.NegativeSlot | ui.py:303-376 | NEGATIVE in terms of the containers' chords |
| ProtoUi.Circle.constructor | ui.py:112-120 | AXIS mode, both rings in `all_triads` order showing flat names, unpainted, each minor the relative of the major beside it |
| ProtoUi.Circle.AxisFillsAreAxes | ui.py:206-226 | AXIS fills match exactly on roots a multiple of 3 apart |
| ProtoUi.Circle.PaintAxis | ui.py:206-226 | the three shades repeat round both rings, matching exactly on roots a multiple of 3 apart |
| ProtoUi.Circle.PaintGrey | ui.py:201-204 | every container turns grey |
| ProtoUi.Circle.PaintCommon | ui.py:228-301 | every container gets the colour of its shared-tone count with the clicked one, and the clicked one is black |
| ProtoUi.Circle.PaintNegative | ui.py:303-376 | a major and a minor share a colour exactly when they are negatives, no ring repeats a colour, and the clicked one is black |
| ProtoUi.Circle.SetMode | ui.py:184-189 | the new mode, painted AXIS or grey |
| ProtoUi.Circle.SetSpelling | ui.py:191-199 | both rings relabelled, nothing else changed |
| ProtoUi.Circle.RotateTo | ui.py:387-404 | the clicked container comes to the top, both rings turn together, fills stay with their slots |
| ProtoUi.Circle.OnContainerClick | ui.py:378-385 | AXIS turns both deques so that container `(i + k) % 12` stands at `i` and paints the axis cycle. COMMON and NEGATIVE keep the containers and paint the tables shifted to the clicked one, with the meaning of each colour |
| ProtoCircle.DictZip | circle.py:170-171 | `dict(zip(keys, values))` has exactly the keys |
| ProtoCircle.DictZipAt | circle.py:170-171 | a key that does not recur maps to the value beside it |
| ProtoCircle.FlatNameAt | circle.py:168 | the flat names are the flat spellings in fifths order |
| ProtoCircle.NamePitch | circle.py:168-169 | the name at `i`, in either spelling, reads as pitch class 5i mod 12 |
| ProtoCircle.NamesDistinct | circle.py:168-169 | neither name tuple repeats a name |
| ProtoCircle.TableAt | circle.py:170-171 | each dictionary maps the name at `i` in one spelling to the name at `i` in the other |
| ProtoCircle.TableKeys | circle.py:170-171 | each dictionary's keys are exactly the names of the spelling it converts from |
| ProtoCircle.SpellingRoundTrip | circle.py:170-171 | the two dictionaries undo each other and keep the pitch class |
| ProtoCircle.NaturalsFixed | circle.py:170-171 | a name spelled the same both ways maps to itself |
| ProtoCircle.TablesAgreeWithChord | circle.py:170-171 | where they are defined, the two dictionaries agree with those of chord.py |
| ProtoCircle.DropLast | circle.py:276 | `name[:-1]` drops exactly one character |
| ProtoCircle.SpelledNotMinor | circle.py:236 | no root spelling ends in "m", so `endswith("m")` tells the rings apart |
| ProtoCircle.MinorName | circle.py:373-374 | a minor's name ends in "m", and dropping it gives the root back |
| ProtoCircle.TriadOfName | circle.py:236 | the triad a container's name stands for: minor exactly when the name ends in "m", as the click handler reads it; see ProtoCircle.NameOnCircleTriad |
| ProtoCircle.NameOnCircleTriad | circle.py:336-380 | the name at circle position `p` ends in "m" exactly on the minor ring, and reads as the triad there |
| ProtoCircle.NamedTriad | circle.py:336-380 | that name reads as the triad at that position |
| ProtoCircle.NamedDistinct | circle.py:239 | no name repeats within a ring, so `is` and `index` find one container |
| ProtoCircle.NamedUnique | circle.py:336-380 | a ring's spelling and turn fix all its names |
| ProtoCircle.RelativeSlots | circle.py:359-380 | the minor beside each major is its relative minor |
| ProtoCircle.TopNames | circle.py:255 | only slot 0 of either ring is one of the two top containers |
| ProtoCircle.TurnRings | circle.py:239-241 | the turning loop brings slot `k` to the top, both rings by one rotation |
| ProtoCircle.TurnedNamed | circle.py:239-241 | a turned ring is named at the turn plus the rotation |
| ProtoCircle.Respell | circle.py:268-293 | a renaming loop converts names in order, stops at the first missing key raising `KeyError` with it, and leaves the rest as they were |
| ProtoCircle.OtherSpellingFound | circle.py:268-293 | every name of a ring is a key of the other spelling's dictionary, and renaming gives the ring in that spelling |
| ProtoCircle.OtherSpellingAt | circle.py:268-293 | the same, for one circle position |
| ProtoCircle.RespelledNamed | circle.py:268-293 | a fully renamed ring is named in the other spelling at the same turn |
| ProtoCircle.SameSpellingMissing | circle.py:268-293 | renaming to the spelling already shown hits a missing key, and every key it does find maps a name to itself |
| ProtoCircle.AxisShades | circle.py:17-23 | the six AXIS shades fall into tonic, subdominant and dominant |
| ProtoCircle.AxisChordsRole | circle.py:25-38 | the AXIS fills cycle tonic, subdominant, dominant round the ring |
| ProtoCircle.AxisChordsStrong | circle.py:25-38 | the strong shades sit exactly at slots 0, 1 and 11 |
| ProtoCircle.AxisBordersByDistance | circle.py:40-53 | each AXIS border colour is given by the slot's distance in fifths from the top |
| ProtoCircle.AxisRolesOnCircle | circle.py:186-194 | two slots get fills of one function exactly when their roots are a multiple of 3 semitones apart |
| ProtoCircle.AxisNamedSlots | circle.py:186-194 | the same, for the named rings |
| ProtoCircle.RootAboveTop | circle.py:186-194 | slot `j`'s root lies 5j semitones above the top root, whatever the turn |
| ProtoCircle.FifthsNearTop | circle.py:25-38 | slots 0, 1 and 11 are exactly those a unison, fourth or fifth from the top |
| ProtoCircle.AxisStrongOnCircle | circle.py:186-194 | a slot gets a strong fill exactly when its root is 0, 5 or 7 semitones above the top root |
| ProtoCircle.AxisStrongSlots | circle.py:186-194 | the same, for the named rings |
| ProtoCircle.NotesColouringTurned | circle.py:196-212 | on turned rings, common-notes entry `j - k` names the tones of slot `k`'s triad that slot `j` holds |
| ProtoCircle.NegativeColouringTop | circle.py:214-233 | on turned rings, the unshifted NEGATIVE entries match exactly on negatives in the top triad's key |
| ProtoCircle.NotesNamedSlot | circle.py:196-212 | common notes in terms of the named rings |
| ProtoCircle.NotesClickedSelected | circle.py:65-97 | the clicked container itself gets the "selected" colour |
| ProtoCircle.NegativeNamedSlots | circle.py:214-233 | NEGATIVE in terms of the named rings and the top name of the clicked ring |
| ProtoCircle.AxisBorderList | circle.py:186-194 | the AXIS borders are width-4 borders in the table's colours |
| ProtoCircle.BuildRing | circle.py:336-380 | the ring-building loop names chords with the right suffix, in order |
| ProtoCircle.InitialNamed | circle.py:336-380 | the built rings are named with flats at turn 0 |
| ProtoCircle.SwitchSpelling | circle.py:268-293 | switching to the other spelling renames both rings through the dictionary; switching to the same one raises `KeyError` with every name unchanged |
| ProtoCircle.Circle.constructor | circle.py:336-406 | flats, AXIS, the rings in circle order from the top, painted AXIS by the initial call |
| ProtoCircle.Circle.PaintDefault | circle.py:176-184 | default fills and width-2 default borders everywhere |
| ProtoCircle.Circle.PaintAxis | circle.py:186-194 | the AXIS fills and borders, slot by slot |
| ProtoCircle.Circle.PaintCommonNotes | circle.py:196-212 | both rings painted from the common-notes tables rotated by the shift |
| ProtoCircle.Circle.PaintNegative | circle.py:214-233 | the NEGATIVE tables unshifted, a width-8 top border on the clicked ring and a width-2 one on the other |
| ProtoCircle.Circle.RotateTo | circle.py:239-249 | the clicked container comes to the top and both rings turn together; each container's fill and border travel with it, by the same rotation |
| ProtoCircle.Circle.CarryPaint | circle.py:239-241 | the fills and borders rotate with the containers, and nothing else changes |
| ProtoCircle.Circle.OnContainerClick | circle.py:235-260 | AXIS turns both rings so that container `(i + k) % 12` stands at `i` and repaints. COMMON paints the notes tables shifted to the click and keeps the borders. NEGATIVE changes nothing off the top; on a top container it paints the negative tables, gives the clicked ring's top the wide negative-root border and the other top the default border, and keeps the other ten borders |
| ProtoCircle.Circle.OnRadioGroupChange | circle.py:262-266 | the chosen mode, painted AXIS or in default colours |
| ProtoCircle.Circle.OnSwitchSignChange | circle.py:268-293 | the other spelling renames both rings and updates the label; the same spelling raises `KeyError` and changes nothing |

## Left out

- Drawing is not part of this model: flet controls, `update()`, coordinates, `Trigonometry`, and the top/left placement loops. Slot geometry is the slot index.
- `main.py` and `src/main.py` only create the page. `src/ui/chord_bubble.py`, `options_group.py`, `sign_switch.py` and `tone_column.py` are not part of this model beyond each bubble's chord, text, tooltip, degree and highlight flag.
- Object identity (`is`, `in`, `deque.index`) is modelled by slot indices. Proofs that no ring repeats an element justify this.
- The degree display in `src/ui/circle.py` is modelled as the degree it shows (`shownDegree`), or none.
- UiCircle.Circle.HoverBegin: models only which degree is shown, not the visibility flag's redraw.
- ProtoUi.Relabel: requires every root to be known, because the rings only ever hold `all_triads` roots. An unknown root would raise `KeyError` in `ui.py`.
- ProtoUi.Relabelled: the same requirement as `ProtoUi.Relabel`.
- ProtoUi.NewContainer: the same requirement: `flat_name` would raise `KeyError` for an unknown root, and the constructor only builds containers for `all_triads` roots.
- ProtoUi.TriadOf: reads an unknown root as C. Such roots never reach the rings.
- Rings.TurnTo: requires a ring without repeats and the index of the clicked element, in place of the identity test of the `while` loop.
- Rings.RotateRight1, Rings.RotateLeft1, Rings.Rotate: the functions state only the length. Their element-wise meaning is in the `…At` and `Rotate…` lemmas.
- Harmony.CommonTable, Harmony.NotesTable: the functions state only the length. The entries are stated in the per-table lemmas.
- In `circle.py`, the radio group only offers "a", "c" and "n", so the handler's final `pass` branch cannot run. It is not modelled.
- The page's first `on_radio_group_change(None)` is folded into `ProtoCircle.Circle.constructor`.
- In `circle.py`, the text shown in each container is always its `data`. The model keeps one name per container.
- Colours are tokens, not flet colour strings.
- CoreTone.SharpRow, CoreTone.FlatRow: spelled with the real signs "♯" and "♭", not with the mis-decoded text the file stores. The rest of the model uses these corrected rows. The stored rows are CoreTone.StoredSharpRow and CoreTone.StoredFlatRow, and what they break is under "## Findings".

## Findings

| source | as written | input that shows it | evidently intended | confidence | as-written member | corrected member |
|---|---|---|---|---|---|---|
| src/core/tone.py:25-26 | a name found in `TTR_FLAT` is looked up with `TTR_SHARP.index(name)` | `Tone.by_name("D‚ô≠")`, the flat row's second entry as the file stores it (see the next row), or "D♭" in the rows spelled with ♭: the name is in the flat row but not in the sharp row, so `index` raises `ValueError` | `TTR_FLAT.index(name)`, returning C♯/D♭ (pitch class 1) | not executed | CoreTone.ByNameAsWritten, with CoreTone.FlatOnlyNameRejected | CoreTone.ByName, with CoreTone.FlatRoundTrip |
| src/core/tone.py:5-6 | the rows store each accidental as the mis-decoded text "‚ôØ" (sharp) or "‚ô≠" (flat), while `src/core/chord.py:45` and `:67` pass roots spelled with the real sign "♯" | `MajorTriad.circle()`: its third root "A♯" is in neither row, so `Tone.by_name` raises `ValueError`; `MinorTriad.circle()` fails at its sixth root the same way, and the labels read "C‚ôØ" and so on | the rows spelled with "♯" and "♭" | not executed | CoreTone.StoredSharpRow and CoreTone.StoredFlatRow with CoreTone.ByNameStored, CoreTone.StoredRowsRejectRealSharp and CoreChord.StoredRowsBreakCircles | CoreTone.SharpRow and CoreTone.FlatRow, with CoreChord.RootsResolve and CoreChord.MajorCircleOfFifths |
