/**
 * Screen geometry and the character grid of the terminal: colour indexes,
 * grid positions and their order, the cell record, and the screen buffer
 * with its scrollback ("back screen"), erase character and snapshot slot.
 */
module TermScreen {
  import opened Base

  // ---------------------------------------------------------------------------
  // Colours and cells
  // ---------------------------------------------------------------------------

  /** The sixteen ANSI colours, their bright variants, and the default colour. */
  datatype ScreenColor =
    | Black | Red | Green | Yellow | Blue | Magenta | Cyan | White
    | BlackHi | RedHi | GreenHi | YellowHi | BlueHi | MagentaHi | CyanHi | WhiteHi
    | Default

  /** A 5-bit unsigned bit-field, as the colour fields of a cell are declared. */
  type ColorField = x: int | 0 <= x < 32

  /** The index of a colour; every index fits the 5-bit fields of a cell. */
  function ColorIndex(c: ScreenColor): (r: ColorField)
    ensures r <= 16
    ensures r == 16 <==> c == Default
  {
    match c
    case Black => 0
    case Red => 1
    case Green => 2
    case Yellow => 3
    case Blue => 4
    case Magenta => 5
    case Cyan => 6
    case White => 7
    case BlackHi => 8
    case RedHi => 9
    case GreenHi => 10
    case YellowHi => 11
    case BlueHi => 12
    case MagentaHi => 13
    case CyanHi => 14
    case WhiteHi => 15
    case Default => 16
  }

  /** No two colours share an index. */
  lemma ColorIndexInjective(c: ScreenColor, d: ScreenColor)
    requires ColorIndex(c) == ColorIndex(d)
    ensures c == d
  {
  }

  type uint32 = x: int | 0 <= x < 0x1_0000_0000
  type uint16 = x: int | 0 <= x < 0x1_0000

  /**
   * One screen cell: a base code point (possibly outside the BMP), two
   * combining BMP code points (0 when absent), colours and attribute bits.
   */
  datatype Space = Space(
    l: uint32,
    c1: uint16,
    c2: uint16,
    foreground: ColorField,
    background: ColorField,
    intensity: bool,
    underline: bool,
    reverse: bool)

  /** The code point that marks the second half of a wide glyph. */
  const MultiCellGlyph: uint16 := 0xFFFE

  /** The erase character a buffer starts with: no letter, default colours, no attributes. */
  function DefaultEraseChar(): (r: Space)
    ensures r.l == 0 && r.c1 == 0 && r.c2 == 0
    ensures r.foreground == ColorIndex(Default) && r.background == ColorIndex(Default)
    ensures !r.intensity && !r.underline && !r.reverse
  {
    Space(0, 0, 0, 16, 16, false, false, false)
  }

  // ---------------------------------------------------------------------------
  // Grid positions
  // ---------------------------------------------------------------------------

  /** A position on the grid: column `x`, row `y`. Rows are compared first. */
  datatype ScreenPoint = ScreenPoint(x: int, y: int) {
    predicate Greater(r: ScreenPoint) { y > r.y || (y == r.y && x > r.x) }
    predicate GreaterEq(r: ScreenPoint) { y > r.y || (y == r.y && x >= r.x) }
    predicate Less(r: ScreenPoint) { !GreaterEq(r) }
    predicate LessEq(r: ScreenPoint) { !Greater(r) }
    predicate Equal(r: ScreenPoint) { y == r.y && x == r.x }
    predicate NotEqual(r: ScreenPoint) { y != r.y || x != r.x }
  }

  /** `<` and `<=`, defined as negations, are the lexicographic order on (y, x). */
  lemma PointOrderIsLexicographic(p: ScreenPoint, q: ScreenPoint)
    ensures p.Less(q) <==> p.y < q.y || (p.y == q.y && p.x < q.x)
    ensures p.LessEq(q) <==> p.y < q.y || (p.y == q.y && p.x <= q.x)
    ensures p.Less(q) <==> q.Greater(p)
    ensures p.LessEq(q) <==> q.GreaterEq(p)
  {
  }

  /** For any two points exactly one of `<`, `==`, `>` holds. */
  lemma PointTrichotomy(p: ScreenPoint, q: ScreenPoint)
    ensures p.Less(q) || p.Equal(q) || p.Greater(q)
    ensures !(p.Less(q) && p.Equal(q)) && !(p.Less(q) && p.Greater(q)) && !(p.Equal(q) && p.Greater(q))
  {
  }

  /** `==` compares both coordinates, so it is value equality, and `!=` is its negation. */
  lemma PointEqualityIsValueEquality(p: ScreenPoint, q: ScreenPoint)
    ensures p.Equal(q) <==> p == q
    ensures p.NotEqual(q) <==> !p.Equal(q)
  {
  }

  lemma PointOrderTransitive(p: ScreenPoint, q: ScreenPoint, r: ScreenPoint)
    requires p.Less(q) && q.Less(r)
    ensures p.Less(r)
  {
  }

  // ---------------------------------------------------------------------------
  // Rows of cells
  // ---------------------------------------------------------------------------

  /** A grid of `height` rows of `width` cells each. */
  ghost predicate IsGrid(rows: seq<seq<Space>>, width: nat, height: nat)
  {
    |rows| == height && forall y :: 0 <= y < |rows| ==> |rows[y]| == width
  }

  /** A grid filled with one character. */
  function Filled(width: nat, height: nat, ch: Space): (rows: seq<seq<Space>>)
    ensures IsGrid(rows, width, height)
    ensures forall y, x :: 0 <= y < height && 0 <= x < width ==> rows[y][x] == ch
  {
    seq(height, _ => seq(width, _ => ch))
  }

  /**
   * The length of a line up to and including its last occupied cell; a cell is
   * occupied when its letter is non-zero (a space, 32, counts as occupied).
   */
  function OccupiedChars(line: seq<Space>): (k: nat)
    ensures k <= |line|
    ensures forall i :: k <= i < |line| ==> line[i].l == 0
    ensures k > 0 ==> line[k - 1].l != 0
  {
    if line == [] then 0
    else if line[|line| - 1].l != 0 then |line|
    else OccupiedChars(line[..|line| - 1])
  }

  /** True when some cell of the line is occupied. */
  predicate HasOccupiedChars(line: seq<Space>)
  {
    exists i :: 0 <= i < |line| && line[i].l != 0
  }

  /** The two occupancy queries agree: a line has occupied cells iff its occupied length is positive. */
  lemma HasOccupiedCharsIffOccupiedLength(line: seq<Space>)
    ensures HasOccupiedChars(line) <==> OccupiedChars(line) > 0
  {
  }

  // ---------------------------------------------------------------------------
  // Screen dump
  // ---------------------------------------------------------------------------

  /** The character a cell is dumped as: its letter, or a space when the cell is blank. */
  function RenderCell(s: Space): int
  {
    if s.l == 0 then 32 else s.l
  }

  function RenderLine(line: seq<Space>): (r: seq<int>)
    ensures |r| == |line|
    ensures forall x :: 0 <= x < |line| ==> r[x] == RenderCell(line[x])
  {
    seq(|line|, x requires 0 <= x < |line| => RenderCell(line[x]))
  }

  /** All rows, top to bottom, each rendered cell by cell. */
  function DumpRows(rows: seq<seq<Space>>): seq<int>
  {
    if rows == [] then [] else RenderLine(rows[0]) + DumpRows(rows[1..])
  }

  lemma MulSucc(a: nat, w: nat)
    ensures (a + 1) * w == a * w + w
  {
  }

  lemma {:induction false} DumpRowsLength(rows: seq<seq<Space>>, width: nat, height: nat)
    requires IsGrid(rows, width, height)
    ensures |DumpRows(rows)| == width * height
  {
    if height > 0 {
      DumpRowsLength(rows[1..], width, height - 1);
      MulSucc(height - 1, width);
    }
  }

  /** Position of cell (x, y) in a row-major dump of rows `width` wide. */
  function CellIndex(y: int, x: int, width: int): int
  {
    y * width + x
  }

  /** Cell (x, y) of the grid is character y × width + x of the dump. */
  lemma {:induction false} DumpRowsAt(rows: seq<seq<Space>>, width: nat, height: nat, y: int, x: int)
    requires IsGrid(rows, width, height) && 0 <= y < height && 0 <= x < width
    ensures 0 <= CellIndex(y, x, width) < |DumpRows(rows)|
    ensures DumpRows(rows)[CellIndex(y, x, width)] == RenderCell(rows[y][x])
  {
    var first := RenderLine(rows[0]);
    var rest := rows[1..];
    assert DumpRows(rows) == first + DumpRows(rest);
    if y > 0 {
      DumpRowsAt(rest, width, height - 1, y - 1, x);
      MulSucc(y - 1, width);
      assert rest[y - 1] == rows[y];
    }
  }

  /** The dump is row-major with exactly width × height characters. */
  lemma {:induction false} DumpRowsLayout(rows: seq<seq<Space>>, width: nat, height: nat)
    requires IsGrid(rows, width, height)
    ensures |DumpRows(rows)| == width * height
    ensures forall y, x :: 0 <= y < height && 0 <= x < width ==>
              0 <= CellIndex(y, x, width) < |DumpRows(rows)| &&
              DumpRows(rows)[CellIndex(y, x, width)] == RenderCell(rows[y][x])
  {
    DumpRowsLength(rows, width, height);
    forall y, x | 0 <= y < height && 0 <= x < width
      ensures 0 <= CellIndex(y, x, width) < |DumpRows(rows)|
      ensures DumpRows(rows)[CellIndex(y, x, width)] == RenderCell(rows[y][x])
    {
      DumpRowsAt(rows, width, height, y, x);
    }
  }

  lemma RowOfIndex(k: nat, width: nat, height: nat)
    requires k < width * height
    ensures k / width < height && k == (k / width) * width + k % width
  {
  }

  /** A clean screen of width × height dumps as width × height spaces. */
  lemma CleanScreenDump(width: nat, height: nat)
    ensures DumpRows(Filled(width, height, DefaultEraseChar())) == seq(width * height, _ => 32)
  {
    var rows := Filled(width, height, DefaultEraseChar());
    DumpRowsLength(rows, width, height);
    var d := DumpRows(rows);
    forall k | 0 <= k < width * height
      ensures d[k] == 32
    {
      var y, x := k / width, k % width;
      RowOfIndex(k, width, height);
      assert k == CellIndex(y, x, width);
      DumpRowsAt(rows, width, height, y, x);
    }
  }

  // ---------------------------------------------------------------------------
  // The screen buffer
  // ---------------------------------------------------------------------------

  /** A copy of the on-screen grid with its dimensions. */
  datatype Snapshot = Snapshot(width: nat, height: nat, chars: seq<seq<Space>>)

  /**
   * The grid of a terminal: `height` on-screen rows of `width` cells, and a
   * growing back screen of lines that scrolled off, each line with its
   * "wrapped" flag. Line numbers form one signed axis: 0 .. height-1 are the
   * on-screen rows top to bottom, -1 is the most recent back-screen line and
   * -BackScreenLines() the oldest.
   */
  class ScreenBuffer {
    var width: nat
    var height: nat
    var onScreen: seq<seq<Space>>
    var onScreenWrapped: seq<bool>
    var backScreen: seq<seq<Space>>
    var backScreenWrapped: seq<bool>
    var eraseChar: Space
    var snapshot: Option<Snapshot>

    ghost predicate Valid()
      reads this
    {
      && IsGrid(onScreen, width, height)
      && |onScreenWrapped| == height
      && |backScreenWrapped| == |backScreen|
      && (snapshot.Some? ==> IsGrid(snapshot.value.chars, snapshot.value.width, snapshot.value.height))
    }

    /** A clean screen of the given size with an empty back screen and no snapshot. */
    constructor (w: nat, h: nat)
      ensures Valid()
      ensures width == w && height == h
      ensures onScreen == Filled(w, h, DefaultEraseChar())
      ensures onScreenWrapped == seq(h, _ => false)
      ensures backScreen == [] && backScreenWrapped == []
      ensures eraseChar == DefaultEraseChar()
      ensures snapshot == None
    {
      width, height := w, h;
      onScreen := Filled(w, h, DefaultEraseChar());
      onScreenWrapped := seq(h, _ => false);
      backScreen, backScreenWrapped := [], [];
      eraseChar := DefaultEraseChar();
      snapshot := None;
    }

    function Width(): nat
      reads this
    {
      width
    }

    function Height(): nat
      reads this
    {
      height
    }

    function BackScreenLines(): nat
      reads this
    {
      |backScreen|
    }

    /** True when `n` names a line: [-BackScreenLines(), -1] or [0, Height()). */
    predicate IsLineNo(n: int)
      reads this
    {
      -|backScreen| <= n < height
    }

    /**
     * The cells of line `n`, or None (the null range) when `n` is not a line
     * number. On-screen lines always have `width` cells.
     */
    function LineFromNo(n: int): (r: Option<seq<Space>>)
      reads this
      requires Valid()
      ensures r.Some? <==> IsLineNo(n)
      ensures 0 <= n < height ==> r == Some(onScreen[n]) && |r.value| == width
      ensures -|backScreen| <= n < 0 ==> r == Some(backScreen[|backScreen| + n])
    {
      if 0 <= n < height then Some(onScreen[n])
      else if -|backScreen| <= n < 0 then Some(backScreen[|backScreen| + n])
      else None
    }

    /** The wrapped flag of line `n`; false for a number that names no line. */
    function LineWrapped(n: int): (w: bool)
      reads this
      requires Valid()
      ensures !IsLineNo(n) ==> !w
    {
      if 0 <= n < height then onScreenWrapped[n]
      else if -|backScreen| <= n < 0 then backScreenWrapped[|backScreen| + n]
      else false
    }

    /** Sets the wrapped flag of line `n`; a number that names no line changes nothing. */
    method SetLineWrapped(n: int, wrapped: bool)
      requires Valid()
      modifies this
      ensures Valid()
      ensures IsLineNo(n) ==> LineWrapped(n) == wrapped
      ensures forall m :: m != n ==> LineWrapped(m) == old(LineWrapped(m))
      ensures width == old(width) && height == old(height)
      ensures onScreen == old(onScreen) && backScreen == old(backScreen)
      ensures eraseChar == old(eraseChar) && snapshot == old(snapshot)
    {
      if 0 <= n < height {
        onScreenWrapped := onScreenWrapped[n := wrapped];
      } else if -|backScreen| <= n < 0 {
        backScreenWrapped := backScreenWrapped[|backScreen| + n := wrapped];
      }
    }

    /** Appends one line to the back screen; it becomes line -1 and older lines move down by one. */
    method FeedBackscreen(line: seq<Space>, wrapped: bool)
      requires Valid()
      modifies this
      ensures Valid()
      ensures backScreen == old(backScreen) + [line]
      ensures backScreenWrapped == old(backScreenWrapped) + [wrapped]
      ensures LineFromNo(-1) == Some(line) && LineWrapped(-1) == wrapped
      ensures forall n :: -old(|backScreen|) <= n < 0 ==> LineFromNo(n - 1) == old(LineFromNo(n))
      ensures width == old(width) && height == old(height)
      ensures onScreen == old(onScreen) && onScreenWrapped == old(onScreenWrapped)
      ensures eraseChar == old(eraseChar) && snapshot == old(snapshot)
    {
      backScreen := backScreen + [line];
      backScreenWrapped := backScreenWrapped + [wrapped];
    }

    function EraseChar(): Space
      reads this
    {
      eraseChar
    }

    method SetEraseChar(ch: Space)
      modifies this`eraseChar
      ensures EraseChar() == ch
    {
      eraseChar := ch;
    }

    /** The number of occupied cells of line `n` counted up to the last one; 0 for no line. */
    function OccupiedCharsOfLine(n: int): (k: nat)
      reads this
      requires Valid()
      ensures IsLineNo(n) ==> k == OccupiedChars(LineFromNo(n).value)
      ensures !IsLineNo(n) ==> k == 0
    {
      match LineFromNo(n)
      case Some(line) => OccupiedChars(line)
      case None => 0
    }

    /**
     * The half-open range [first, last) of on-screen rows from the first to the
     * last row holding an occupied cell; None when the screen is entirely clean.
     */
    method OccupiedOnScreenLines() returns (r: Option<(int, int)>)
      requires Valid()
      ensures r.None? <==> forall y :: 0 <= y < height ==> !HasOccupiedChars(onScreen[y])
      ensures r.Some? ==> 0 <= r.value.0 < r.value.1 <= height
      ensures r.Some? ==> HasOccupiedChars(onScreen[r.value.0]) && HasOccupiedChars(onScreen[r.value.1 - 1])
      ensures r.Some? ==> forall y :: (0 <= y < r.value.0 || r.value.1 <= y < height) ==> !HasOccupiedChars(onScreen[y])
    {
      var first := 0;
      while first < height && !HasOccupiedChars(onScreen[first])
        invariant 0 <= first <= height
        invariant forall y :: 0 <= y < first ==> !HasOccupiedChars(onScreen[y])
      {
        first := first + 1;
      }
      if first == height {
        return None;
      }
      var last := height;
      while !HasOccupiedChars(onScreen[last - 1])
        invariant first < last <= height
        invariant forall y :: last <= y < height ==> !HasOccupiedChars(onScreen[y])
        decreases last
      {
        last := last - 1;
      }
      return Some((first, last));
    }

    /** The on-screen grid rendered row-major, a blank cell as a space. */
    function DumpScreen(): (r: seq<int>)
      reads this
      requires Valid()
      ensures |r| == width * height
      ensures forall y, x :: 0 <= y < height && 0 <= x < width ==>
                0 <= CellIndex(y, x, width) < |r| && r[CellIndex(y, x, width)] == RenderCell(onScreen[y][x])
    {
      DumpRowsLayout(onScreen, width, height);
      DumpRows(onScreen)
    }

    predicate HasSnapshot()
      reads this
    {
      snapshot.Some?
    }

    /** Takes a copy of the on-screen grid, replacing any snapshot held before. */
    method MakeSnapshot()
      requires Valid()
      modifies this`snapshot
      ensures Valid()
      ensures HasSnapshot()
      ensures snapshot == Some(Snapshot(width, height, onScreen))
    {
      snapshot := Some(Snapshot(width, height, onScreen));
    }

    /** Releases the snapshot. */
    method DropSnapshot()
      requires Valid()
      modifies this`snapshot
      ensures Valid()
      ensures !HasSnapshot()
    {
      snapshot := None;
    }

    /**
     * Restores the on-screen cells from the snapshot when one is held and its
     * dimensions are the current ones; otherwise nothing changes. The snapshot
     * is kept.
     */
    method RevertToSnapshot()
      requires Valid()
      modifies this`onScreen
      ensures Valid()
      ensures old(snapshot).Some? && old(snapshot).value.width == width && old(snapshot).value.height == height
              ==> onScreen == old(snapshot).value.chars
      ensures !(old(snapshot).Some? && old(snapshot).value.width == width && old(snapshot).value.height == height)
              ==> onScreen == old(onScreen)
    {
      if snapshot.Some? && snapshot.value.width == width && snapshot.value.height == height {
        onScreen := snapshot.value.chars;
      }
    }
  }

  /** Taking a snapshot and reverting to it at once leaves the grid as it was. */
  method SnapshotRoundTrip(b: ScreenBuffer)
    requires b.Valid()
    modifies b
    ensures b.Valid() && b.HasSnapshot()
    ensures b.onScreen == old(b.onScreen)
  {
    b.MakeSnapshot();
    b.RevertToSnapshot();
  }
}
