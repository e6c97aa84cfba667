/**
 * Colour tokens and the literal colour tables of the three circle widgets
 * (src/ui/circle.py, ui.py, circle.py). The tables are copied entry by entry;
 * module Harmony proves what they encode.
 */
module Palette {

  /** The toolkit colour constants the widgets use, as tokens. */
  datatype Colour =
    | Black | Black87 | White | Red | Orange | Yellow | YellowAccent200
    | Grey600 | Grey700 | BlueGrey200 | BlueGrey700 | BlueGrey900
    | Red300 | Red400 | Red600 | Red800 | Red900
    | Blue400 | Blue600 | Blue800 | Blue900
    | Green400 | Green700 | Green800 | Green900
    | Purple400 | Purple800 | Orange400 | Orange800

  /** A 12-entry table for the major ring and one for the minor ring. */
  datatype TablePair = TablePair(major: seq<Colour>, minor: seq<Colour>)

  /** The three-colour cycle of `paint_axis` (src/ui/circle.py, ui.py). */
  const AxisCycle: seq<Colour> := [BlueGrey900, BlueGrey700, Grey600]

  /** The fill of every bubble outside AXIS mode (`paint_grey`). */
  const Grey: Colour := BlueGrey200

  /** `paint_common` when the clicked chord is major (src/ui/circle.py, ui.py). */
  const CommonMajorSelected: TablePair := TablePair(
    [Black, Red300, BlueGrey200, Red300, Red300, BlueGrey200,
     BlueGrey200, BlueGrey200, Red300, Red300, BlueGrey200, Red300],
    [Red600, BlueGrey200, Red300, Red600, Red300, BlueGrey200,
     BlueGrey200, BlueGrey200, Red300, BlueGrey200, BlueGrey200, Red600])

  /** `paint_common` when the clicked chord is minor (src/ui/circle.py, ui.py). */
  const CommonMinorSelected: TablePair := TablePair(
    [Red600, Red600, BlueGrey200, BlueGrey200, Red300, BlueGrey200,
     BlueGrey200, BlueGrey200, Red300, Red600, Red300, BlueGrey200],
    [Black, Red300, BlueGrey200, Red300, Red300, BlueGrey200,
     BlueGrey200, BlueGrey200, Red300, Red300, BlueGrey200, Red300])

  /**
   * `paint_negative` when the clicked chord is major (src/ui/circle.py, ui.py);
   * the same sequence of colours as `NegativeColors.major_selected` in circle.py.
   */
  const NegativeMajorSelected: TablePair := TablePair(
    [Black, Blue800, Blue400, Grey700, Green400, Red400,
     Purple400, Orange400, Orange800, Purple800, Red800, Green800],
    [Grey700, Blue400, Blue800, Black, Green800, Red800,
     Purple800, Orange800, Orange400, Purple400, Red400, Green400])

  /**
   * `paint_negative` when the clicked chord is minor (src/ui/circle.py, ui.py);
   * the same sequence of colours as `NegativeColors.minor_selected` in circle.py.
   */
  const NegativeMinorSelected: TablePair := TablePair(
    [Grey700, Green400, Red400, Purple400, Orange400, Orange800,
     Purple800, Red800, Green800, Black, Blue800, Blue400],
    [Black, Green800, Red800, Purple800, Orange800, Orange400,
     Purple400, Red400, Green400, Grey700, Blue400, Blue800])

  // circle.py: `DefaultColors`
  const DefaultChord: Colour := BlueGrey700
  const DefaultBorder: Colour := White
  const DefaultSelected: Colour := Black87
  const DefaultWeak: Colour := BlueGrey200

  // circle.py: `AxisColors`
  const TonicStrong: Colour := BlueGrey900
  const DominantStrong: Colour := Green700
  const SubdominantStrong: Colour := Blue600
  const TonicWeak: Colour := BlueGrey700
  const DominantWeak: Colour := Green400
  const SubdominantWeak: Colour := Blue400

  /** `AxisColors.chords`: one fill per slot, the same for both rings. */
  const AxisChords: seq<Colour> := [
    TonicStrong, SubdominantStrong, DominantWeak, TonicWeak, SubdominantWeak, DominantWeak,
    TonicWeak, SubdominantWeak, DominantWeak, TonicWeak, SubdominantWeak, DominantStrong]

  /** `AxisColors.borders`: one border colour per slot, the same for both rings. */
  const AxisBorders: seq<Colour> := [
    Red, Red, Orange, Yellow, Yellow, White, White, White, Yellow, Yellow, Orange, Red]

  // circle.py: `CommonNotesColors`
  const NotesNo: Colour := DefaultWeak
  const NotesRoot: Colour := Red400
  const NotesThird: Colour := Blue400
  const NotesFifth: Colour := Green400
  const NotesRootThird: Colour := Blue900
  const NotesRootFifth: Colour := Red900
  const NotesThirdFifth: Colour := Green900

  /** `CommonNotesColors.major_selected`. */
  const NotesMajorSelected: TablePair := TablePair(
    [DefaultSelected, NotesRoot, NotesNo, NotesFifth, NotesRoot, NotesNo,
     NotesNo, NotesNo, NotesThird, NotesThird, NotesNo, NotesFifth],
    [NotesRootThird, NotesNo, NotesFifth, NotesRootFifth, NotesRoot, NotesNo,
     NotesNo, NotesNo, NotesThird, NotesNo, NotesNo, NotesThirdFifth])

  /** `CommonNotesColors.minor_selected`. */
  const NotesMinorSelected: TablePair := TablePair(
    [NotesThirdFifth, NotesRootThird, NotesNo, NotesNo, NotesThird, NotesNo,
     NotesNo, NotesNo, NotesFifth, NotesRootFifth, NotesRoot, NotesNo],
    [DefaultSelected, NotesRoot, NotesNo, NotesThird, NotesThird, NotesNo,
     NotesNo, NotesNo, NotesFifth, NotesRoot, NotesNo, NotesFifth])

  /** `NegativeColors.border_root`. */
  const NegativeBorderRoot: Colour := YellowAccent200
}
