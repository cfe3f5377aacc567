/** What the text screen shows: 25 rows of 80 characters and a cursor, and the unbounded log of the
    output that the 25 rows are a window of. */
module Screen {
  import opened Bytes

  const NUM_COLS := 80
  const NUM_ROWS := 25
  const CELLS := 2000
  const SPACE: Byte := 32
  const LF: Byte := 10
  const CR: Byte := 13

  datatype View = View(cells: seq<Byte>, x: nat, y: nat)

  predicate ValidView(v: View) {
    |v.cells| == CELLS && v.x < NUM_COLS && v.y < NUM_ROWS
  }

  /** The cell of the cursor. */
  function Pos(v: View): nat {
    NUM_COLS * v.y + v.x
  }

  /** All rows move up by one; the last row is blank. */
  function Scrolled(cells: seq<Byte>): (r: seq<Byte>)
    requires |cells| == CELLS
    ensures |r| == CELLS
    ensures forall i :: 0 <= i < CELLS ==> r[i] == if i + NUM_COLS < CELLS then cells[i + NUM_COLS] else SPACE
  {
    cells[NUM_COLS..] + Repeat(SPACE, NUM_COLS)
  }

  /** new_line. */
  function NewLineView(v: View): (r: View)
    requires ValidView(v)
    ensures ValidView(r)
  {
    if v.y == NUM_ROWS - 1 then View(Scrolled(v.cells), 0, v.y) else View(v.cells, 0, v.y + 1)
  }

  /** putc of a character that takes a cell. */
  function PutView(v: View, c: Byte): (r: View)
    requires ValidView(v)
    ensures ValidView(r)
  {
    var cells := v.cells[Pos(v) := c];
    if v.x == NUM_COLS - 1 then NewLineView(View(cells, v.x, v.y)) else View(cells, v.x + 1, v.y)
  }

  predicate Breaks(c: Byte) {
    c == LF || c == CR
  }

  /** putc. */
  function PutcView(v: View, c: Byte): (r: View)
    requires ValidView(v)
    ensures ValidView(r)
  {
    if Breaks(c) then NewLineView(v) else PutView(v, c)
  }

  /** The cursor one cell back. */
  function SteppedBack(v: View): (r: View)
    requires ValidView(v) && Pos(v) > 0
    ensures ValidView(r) && Pos(r) == Pos(v) - 1
  {
    if v.x == 0 then View(v.cells, NUM_COLS - 1, v.y - 1) else View(v.cells, v.x - 1, v.y)
  }

  /** del_last_char. At the top left there is no cell before the cursor. */
  function DelView(v: View): (r: View)
    requires ValidView(v) && Pos(v) > 0
    ensures ValidView(r) && Pos(r) == Pos(v) - 1
  {
    var w := SteppedBack(v);
    View(w.cells[Pos(w) := SPACE], w.x, w.y)
  }

  const BLANK_VIEW := View(Repeat(SPACE, CELLS), 0, 0)

  // ------------------------------------------------------------------ the log

  /** Everything printed so far, with lines padded to whole rows, and the first row that still shows. */
  datatype Log = Log(text: seq<Byte>, top: nat)

  function Row(l: Log): nat {
    |l.text| / NUM_COLS
  }

  /** The row in which output goes on shows. */
  predicate ValidLog(l: Log) {
    l.top <= Row(l) < l.top + NUM_ROWS
  }

  /** The text grows and the window follows its last row. */
  function Grow(l: Log, more: seq<Byte>): (r: Log)
    requires ValidLog(l) && |more| <= NUM_COLS
    ensures ValidLog(r)
  {
    var t := l.text + more;
    Log(t, if |t| / NUM_COLS >= l.top + NUM_ROWS then |t| / NUM_COLS - (NUM_ROWS - 1) else l.top)
  }

  /** The blanks up to the next multiple of 80: a whole row when the text ends at one. */
  function Padding(l: Log): (r: seq<Byte>) {
    Repeat(SPACE, NUM_COLS - |l.text| % NUM_COLS)
  }

  /** What can be done to a screen. */
  datatype Output = Char(c: Byte) | Break | Erase

  /** How the log changes: a character or a padded line is appended, or the last character dropped. */
  function LogAfter(l: Log, o: Output): (r: Log)
    requires ValidLog(l) && (o.Erase? ==> |l.text| > NUM_COLS * l.top)
    ensures ValidLog(r)
  {
    match o
    case Char(c) => Grow(l, [c])
    case Break => Grow(l, Padding(l))
    case Erase => Log(l.text[..|l.text| - 1], l.top)
  }

  function ViewAfter(v: View, o: Output): (r: View)
    requires ValidView(v) && (o.Erase? ==> Pos(v) > 0)
    ensures ValidView(r)
  {
    match o
    case Char(c) => PutView(v, c)
    case Break => NewLineView(v)
    case Erase => DelView(v)
  }

  /** The character of the log at a place, blank behind its end. */
  function At(text: seq<Byte>, i: nat): Byte {
    if i < |text| then text[i] else SPACE
  }

  /** The screen is the 25-row window of the log from its top row; the cursor is where the log ends. */
  ghost predicate Shows(v: View, l: Log)
    requires ValidView(v)
  {
    && |l.text| == NUM_COLS * l.top + Pos(v)
    && forall i {:trigger v.cells[i]} :: 0 <= i < CELLS ==> v.cells[i] == At(l.text, NUM_COLS * l.top + i)
  }

  lemma CharShows(v: View, l: Log, c: Byte)
    requires ValidView(v) && ValidLog(l) && Shows(v, l)
    ensures Shows(PutView(v, c), Grow(l, [c]))
  {
  }

  lemma BreakShows(v: View, l: Log)
    requires ValidView(v) && ValidLog(l) && Shows(v, l)
    ensures Shows(NewLineView(v), Grow(l, Padding(l)))
  {
  }

  lemma EraseShows(v: View, l: Log)
    requires ValidView(v) && ValidLog(l) && Shows(v, l) && Pos(v) > 0
    ensures Shows(DelView(v), LogAfter(l, Erase))
  {
  }

  // ------------------------------------------------------------------ runs

  /** A run erases only while there is a cell before the cursor. */
  ghost predicate CanPrint(v: View, os: seq<Output>)
    requires ValidView(v)
    decreases |os|
  {
    os == [] || ((os[0].Erase? ==> Pos(v) > 0) && CanPrint(ViewAfter(v, os[0]), os[1..]))
  }

  ghost function Printed(v: View, os: seq<Output>): (r: View)
    requires ValidView(v) && CanPrint(v, os)
    ensures ValidView(r)
    decreases |os|
  {
    if os == [] then v else Printed(ViewAfter(v, os[0]), os[1..])
  }

  ghost predicate CanLog(l: Log, os: seq<Output>)
    requires ValidLog(l)
    decreases |os|
  {
    os == [] || ((os[0].Erase? ==> |l.text| > NUM_COLS * l.top) && CanLog(LogAfter(l, os[0]), os[1..]))
  }

  ghost function Logged(l: Log, os: seq<Output>): (r: Log)
    requires ValidLog(l) && CanLog(l, os)
    ensures ValidLog(r)
    decreases |os|
  {
    if os == [] then l else Logged(LogAfter(l, os[0]), os[1..])
  }

  lemma OutputShows(v: View, l: Log, o: Output)
    requires ValidView(v) && ValidLog(l) && Shows(v, l) && (o.Erase? ==> Pos(v) > 0)
    ensures Shows(ViewAfter(v, o), LogAfter(l, o))
  {
    match o
    case Char(c) => CharShows(v, l, c);
    case Break => BreakShows(v, l);
    case Erase => EraseShows(v, l);
  }

  /** The screen, scrolled in place, stays the window of a log that only grows and drops at its end. */
  lemma {:induction false} RunShows(v: View, l: Log, os: seq<Output>)
    requires ValidView(v) && ValidLog(l) && Shows(v, l) && CanPrint(v, os)
    ensures CanLog(l, os) && Shows(Printed(v, os), Logged(l, os))
    decreases |os|
  {
    if os != [] {
      OutputShows(v, l, os[0]);
      RunShows(ViewAfter(v, os[0]), LogAfter(l, os[0]), os[1..]);
    }
  }

  /** From a cleared screen: whatever is printed, the screen is a window of the log of all of it, and
      every cell from the cursor on is blank. */
  lemma ScreenIsWindow(os: seq<Output>)
    requires CanPrint(BLANK_VIEW, os)
    ensures CanLog(Log([], 0), os) && Shows(Printed(BLANK_VIEW, os), Logged(Log([], 0), os))
    ensures forall i :: Pos(Printed(BLANK_VIEW, os)) <= i < CELLS ==> Printed(BLANK_VIEW, os).cells[i] == SPACE
  {
    RunShows(BLANK_VIEW, Log([], 0), os);
  }

  /** A screen is the window of some log exactly when it is blank from the cursor on. */
  lemma WindowExactlyWhen(v: View)
    requires ValidView(v)
    ensures (exists l :: ValidLog(l) && Shows(v, l)) <==> forall i :: Pos(v) <= i < CELLS ==> v.cells[i] == SPACE
  {
    if forall i :: Pos(v) <= i < CELLS ==> v.cells[i] == SPACE {
      var l := Log(v.cells[..Pos(v)], 0);
      assert ValidLog(l) && Shows(v, l);
    }
  }

  /** Erasing undoes a character in the log always, but on the screen exactly when the character did
      not fill the last cell: then the rows have moved up for good. */
  lemma EraseUndoes(v: View, l: Log, c: Byte)
    requires ValidView(v) && ValidLog(l) && Shows(v, l)
    ensures LogAfter(LogAfter(l, Char(c)), Erase).text == l.text
    ensures DelView(PutView(v, c)) == v <==> Pos(v) < CELLS - 1
  {
    CharShows(v, l, c);
    var w := DelView(PutView(v, c));
    if Pos(v) < CELLS - 1 {
      assert w.cells == v.cells;
    }
  }
}
