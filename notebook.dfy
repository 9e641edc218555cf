/**
 * Turning spell checking on and off across a notebook:
 * `toggle_spell_check` and `apply_spell_check`
 * (calysto/spell-check/main.js, lines 33-64).
 */
module Notebook {
  import opened Wrappers

  /** A CodeMirror mode, by name. */
  type Mode = string

  const SpellCheckMarkdown: Mode := "spell-check-markdown"
  const SpellCheckHeading: Mode := "spell-check-heading"

  datatype CellType = Markdown | Heading | Code | Raw

  /**
   * A notebook cell as the extension sees it: its type, the mode of its
   * editor (`None` once it has been set to `undefined`), and how many
   * times the spell overlay is installed on its editor.
   */
  datatype Cell = Cell(cellType: CellType, mode: Option<Mode>, spellOverlays: nat)

  /** Whether `spelling_mode` is on; `None` stands for a flag never set. */
  predicate IsOn(flag: Option<bool>) {
    flag == Some(true)
  }

  /** The flag `toggle_spell_check` stores: `!(spelling_mode == true)`. */
  function Toggled(flag: Option<bool>): (r: Option<bool>)
    ensures r.Some?
  {
    Some(!IsOn(flag))
  }

  /** A flag never set is switched on; a set flag is flipped, so two toggles restore it. */
  lemma ToggleFlips(flag: Option<bool>)
    ensures IsOn(Toggled(flag)) <==> !IsOn(flag)
    ensures flag == None ==> Toggled(flag) == Some(true)
    ensures flag.Some? ==> Toggled(Toggled(flag)) == flag
  {
    match flag
    case None =>
    case Some(b) =>
      assert IsOn(Toggled(flag)) == !b;
  }

  /** CodeMirror's `removeOverlay` takes off one installation of the overlay, if there is one. */
  function RemoveOverlay(n: nat): (r: nat)
    ensures n > 0 ==> r + 1 == n
    ensures n == 0 ==> r == 0
  {
    if n > 0 then n - 1 else 0
  }

  /** What one pass of the loop in `apply_spell_check` does to one cell. */
  function ApplyCell(c: Cell, on: bool, markdownMode: Mode, headingMode: Option<Mode>): Cell {
    match c.cellType
    case Markdown => c.(mode := Some(if on then SpellCheckMarkdown else markdownMode))
    case Heading => c.(mode := if on then Some(SpellCheckHeading) else headingMode)
    case Code => c.(spellOverlays := RemoveOverlay(c.spellOverlays) + if on then 1 else 0)
    case Raw => c
  }

  function ApplyCells(cs: seq<Cell>, on: bool, markdownMode: Mode, headingMode: Option<Mode>): (r: seq<Cell>)
    ensures |r| == |cs|
  {
    seq(|cs|, i requires 0 <= i < |cs| => ApplyCell(cs[i], on, markdownMode, headingMode))
  }

  predicate AtMostOneOverlay(cs: seq<Cell>) {
    forall i :: 0 <= i < |cs| ==> cs[i].spellOverlays <= 1
  }

  /**
   * After one application, prose cells show the spell-check mode when on
   * and the recorded original mode when off; a code cell that had the
   * overlay at most once has it exactly once when on and not at all when
   * off; raw cells are untouched and no cell changes type.
   */
  lemma ApplyCellsOutcome(cs: seq<Cell>, on: bool, markdownMode: Mode, headingMode: Option<Mode>, i: nat)
    requires i < |cs|
    ensures var c, r := cs[i], ApplyCells(cs, on, markdownMode, headingMode)[i];
      && r.cellType == c.cellType
      && (c.cellType == Markdown ==> r.mode == Some(if on then SpellCheckMarkdown else markdownMode))
      && (c.cellType == Heading ==> r.mode == if on then Some(SpellCheckHeading) else headingMode)
      && (c.cellType != Code ==> r.spellOverlays == c.spellOverlays)
      && (c.cellType == Code ==> r.mode == c.mode)
      && (c.cellType == Code && c.spellOverlays <= 1 ==> r.spellOverlays == if on then 1 else 0)
      && (c.cellType == Raw ==> r == c)
  {
  }

  /**
   * Only the last application counts, unless it follows a switched-off
   * application on a cell that carried the overlay more than once.
   */
  lemma ApplyCellLastWins(c: Cell, first: bool, second: bool, markdownMode: Mode, headingMode: Option<Mode>)
    requires first || c.spellOverlays <= 1
    ensures ApplyCell(ApplyCell(c, first, markdownMode, headingMode), second, markdownMode, headingMode)
         == ApplyCell(c, second, markdownMode, headingMode)
  {
  }

  lemma ApplyCellsLastWins(cs: seq<Cell>, first: bool, second: bool, markdownMode: Mode, headingMode: Option<Mode>)
    requires first || AtMostOneOverlay(cs)
    ensures ApplyCells(ApplyCells(cs, first, markdownMode, headingMode), second, markdownMode, headingMode)
         == ApplyCells(cs, second, markdownMode, headingMode)
  {
    var once := ApplyCells(cs, first, markdownMode, headingMode);
    forall i | 0 <= i < |cs|
      ensures ApplyCells(once, second, markdownMode, headingMode)[i] == ApplyCells(cs, second, markdownMode, headingMode)[i]
    {
      ApplyCellLastWins(cs[i], first, second, markdownMode, headingMode);
    }
  }

  /** Applying twice is applying once, given at most one overlay per cell or the flag on. */
  lemma ApplyCellsIdempotent(cs: seq<Cell>, on: bool, markdownMode: Mode, headingMode: Option<Mode>)
    requires on || AtMostOneOverlay(cs)
    ensures ApplyCells(ApplyCells(cs, on, markdownMode, headingMode), on, markdownMode, headingMode)
         == ApplyCells(cs, on, markdownMode, headingMode)
  {
    ApplyCellsLastWins(cs, on, on, markdownMode, headingMode);
  }

  /** An application never leaves a cell with the overlay twice, if none had it twice before. */
  lemma ApplyCellsKeepsAtMostOne(cs: seq<Cell>, on: bool, markdownMode: Mode, headingMode: Option<Mode>)
    requires AtMostOneOverlay(cs)
    ensures AtMostOneOverlay(ApplyCells(cs, on, markdownMode, headingMode))
  {
    var r := ApplyCells(cs, on, markdownMode, headingMode);
    forall i | 0 <= i < |r|
      ensures r[i].spellOverlays <= 1
    {
      ApplyCellsOutcome(cs, on, markdownMode, headingMode, i);
    }
  }

  /**
   * Off, on, off: every markdown and heading cell ends in the exact
   * original mode of its type, and without doubled overlays the notebook
   * is as after the first switch-off.
   */
  lemma OffOnOffRestores(cs: seq<Cell>, markdownMode: Mode, headingMode: Option<Mode>)
    ensures var off := ApplyCells(cs, false, markdownMode, headingMode);
      var r := ApplyCells(ApplyCells(off, true, markdownMode, headingMode), false, markdownMode, headingMode);
      && (forall i :: 0 <= i < |r| && r[i].cellType == Markdown ==> r[i].mode == Some(markdownMode))
      && (forall i :: 0 <= i < |r| && r[i].cellType == Heading ==> r[i].mode == headingMode)
      && (AtMostOneOverlay(cs) ==> r == off)
  {
    var off := ApplyCells(cs, false, markdownMode, headingMode);
    var on := ApplyCells(off, true, markdownMode, headingMode);
    var r := ApplyCells(on, false, markdownMode, headingMode);
    forall i | 0 <= i < |r| && r[i].cellType in {Markdown, Heading}
      ensures r[i].cellType == Markdown ==> r[i].mode == Some(markdownMode)
      ensures r[i].cellType == Heading ==> r[i].mode == headingMode
    {
      ApplyCellsOutcome(cs, false, markdownMode, headingMode, i);
      ApplyCellsOutcome(off, true, markdownMode, headingMode, i);
      ApplyCellsOutcome(on, false, markdownMode, headingMode, i);
    }
    if AtMostOneOverlay(cs) {
      ApplyCellsLastWins(off, true, false, markdownMode, headingMode);
      ApplyCellsKeepsAtMostOne(cs, false, markdownMode, headingMode);
      ApplyCellsIdempotent(cs, false, markdownMode, headingMode);
    }
  }

  /** `removeOverlay` takes off only one installation, so a doubled overlay needs two switch-offs. */
  lemma DoubledOverlaySurvivesOneSwitchOff(m: Option<Mode>, markdownMode: Mode, headingMode: Option<Mode>)
    ensures var c := Cell(Code, m, 2);
      ApplyCell(c, false, markdownMode, headingMode).spellOverlays == 1
      && ApplyCell(ApplyCell(c, false, markdownMode, headingMode), false, markdownMode, headingMode).spellOverlays == 0
  {
  }

  /**
   * The notebook state the extension reads and writes: the configuration
   * flag, the modes recorded when the extension loaded, the default modes
   * of new cells, and the cells with their editors.
   */
  class Notebook {
    /** `IPython.notebook.config.data.spelling_mode`. */
    var spellingMode: Option<bool>
    /** `document.original_markdown_mode`. */
    const originalMarkdownMode: Mode
    /** `document.original_heading_mode`; `None` when the notebook has no heading cells. */
    const originalHeadingMode: Option<Mode>
    /** The mode of new markdown cells (`MarkdownCell.options_default.cm_config.mode`). */
    var markdownDefault: Mode
    /** The mode of new heading cells (`HeadingCell.options_default.cm_config.mode`). */
    var headingDefault: Option<Mode>
    const cells: array<Cell>

    /**
     * No editor carries the overlay twice. The overlay object is private
     * to the extension, so no cell has it when the extension loads, and
     * it is only ever added straight after being removed; the constructor
     * establishes this and every operation keeps it.
     */
    ghost predicate Valid()
      reads this, cells
    {
      AtMostOneOverlay(cells[..])
    }

    /**
     * The notebook as the extension finds it on loading: the stored flag
     * (`None` when never set), the modes recorded as the originals, which
     * are also the defaults of new cells, and the existing cells.
     */
    constructor (flag: Option<bool>, markdownMode: Mode, headingMode: Option<Mode>, initial: seq<Cell>)
      requires forall i :: 0 <= i < |initial| ==> initial[i].spellOverlays == 0
      ensures Valid()
      ensures spellingMode == flag
      ensures originalMarkdownMode == markdownMode && originalHeadingMode == headingMode
      ensures markdownDefault == markdownMode && headingDefault == headingMode
      ensures fresh(cells) && cells[..] == initial
    {
      spellingMode := flag;
      originalMarkdownMode, originalHeadingMode := markdownMode, headingMode;
      markdownDefault, headingDefault := markdownMode, headingMode;
      cells := new Cell[|initial|](i requires 0 <= i < |initial| => initial[i]);
    }

    /**
     * `apply_spell_check`: sets the default modes of new cells and walks
     * the cells, resetting each markdown and heading cell's mode and
     * re-installing the overlay on each code cell.
     */
    method Apply()
      requires Valid()
      modifies this`markdownDefault, this`headingDefault, cells
      ensures markdownDefault == if IsOn(spellingMode) then SpellCheckMarkdown else originalMarkdownMode
      ensures headingDefault == if originalHeadingMode.None? then old(headingDefault)
                                else Some(if IsOn(spellingMode) then SpellCheckHeading else originalHeadingMode.value)
      ensures cells[..] == ApplyCells(old(cells[..]), IsOn(spellingMode), originalMarkdownMode, originalHeadingMode)
      ensures Valid()
    {
      var on := IsOn(spellingMode);
      markdownDefault := if on then SpellCheckMarkdown else originalMarkdownMode;
      if originalHeadingMode.Some? {
        headingDefault := Some(if on then SpellCheckHeading else originalHeadingMode.value);
      }
      for i := 0 to cells.Length
        modifies cells
        invariant forall j :: 0 <= j < i ==> cells[j] == ApplyCell(old(cells[j]), on, originalMarkdownMode, originalHeadingMode)
        invariant forall j :: i <= j < cells.Length ==> cells[j] == old(cells[j])
      {
        var cell := cells[i];
        match cell.cellType {
          case Markdown =>
            cells[i] := cell.(mode := Some(if on then SpellCheckMarkdown else originalMarkdownMode));
          case Heading =>
            cells[i] := cell.(mode := if on then Some(SpellCheckHeading) else originalHeadingMode);
          case Code =>
            var n := RemoveOverlay(cell.spellOverlays);
            if on {
              n := n + 1;
            }
            cells[i] := cell.(spellOverlays := n);
          case Raw =>
        }
      }
      ApplyCellsKeepsAtMostOne(old(cells[..]), on, originalMarkdownMode, originalHeadingMode);
    }

    /** `toggle_spell_check`: flips the flag, then applies it. */
    method Toggle()
      requires Valid()
      modifies this`spellingMode, this`markdownDefault, this`headingDefault, cells
      ensures spellingMode == Toggled(old(spellingMode))
      ensures markdownDefault == if IsOn(spellingMode) then SpellCheckMarkdown else originalMarkdownMode
      ensures headingDefault == if originalHeadingMode.None? then old(headingDefault)
                                else Some(if IsOn(spellingMode) then SpellCheckHeading else originalHeadingMode.value)
      ensures cells[..] == ApplyCells(old(cells[..]), IsOn(spellingMode), originalMarkdownMode, originalHeadingMode)
      ensures Valid()
    {
      spellingMode := Some(!(spellingMode == Some(true)));
      Apply();
    }
  }

  /** Two toggles from a set flag restore the flag and leave the cells as one application of it. */
  method ToggleTwice(nb: Notebook)
    requires nb.spellingMode.Some? && nb.Valid()
    modifies nb`spellingMode, nb`markdownDefault, nb`headingDefault, nb.cells
    ensures nb.Valid()
    ensures nb.spellingMode == old(nb.spellingMode)
    ensures nb.markdownDefault == if IsOn(nb.spellingMode) then SpellCheckMarkdown else nb.originalMarkdownMode
    ensures nb.headingDefault == if nb.originalHeadingMode.None? then old(nb.headingDefault)
                                 else Some(if IsOn(nb.spellingMode) then SpellCheckHeading else nb.originalHeadingMode.value)
    ensures nb.cells[..] == ApplyCells(old(nb.cells[..]), IsOn(nb.spellingMode), nb.originalMarkdownMode, nb.originalHeadingMode)
  {
    ghost var before := nb.cells[..];
    nb.Toggle();
    nb.Toggle();
    ToggleFlips(old(nb.spellingMode));
    ApplyCellsLastWins(before, !IsOn(nb.spellingMode), IsOn(nb.spellingMode), nb.originalMarkdownMode, nb.originalHeadingMode);
  }
}
