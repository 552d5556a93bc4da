/** The 80x25 text screen of lib/conio.c is a window onto an unbounded transcript. */
module Terminal {
  import opened Machine
  import opened Memory

  const WIDTH: nat := 80
  const HEIGHT: nat := 25

  /** One screen position: the character byte and the attribute byte. */
  datatype Cell = Cell(glyph: u8, attrib: u8)

  const ATTRIB: u8 := 0x0f
  const CLEARED: Cell := Cell(0, ATTRIB)
  const BLANK: Cell := Cell(0x20, ATTRIB)

  type Row = seq<Cell>

  // --- The transcript: everything ever printed, never scrolled ---

  /** `rows` reaches down to the cursor row `y`, and to row 24 at least. */
  datatype Transcript = Transcript(rows: seq<Row>, x: nat, y: nat) {
    ghost predicate Valid() {
      && |rows| == (if y < 25 then 25 else y + 1)
      && x < WIDTH
      && forall r :: 0 <= r < |rows| ==> |rows[r]| == WIDTH
    }

    /** The first transcript row on the screen. */
    function Top(): nat {
      if y < 25 then 0 else y - 24
    }
  }

  function ClearedRow(): Row {
    seq(80, _ => CLEARED)
  }

  function BlankRow(): Row {
    seq(80, _ => BLANK)
  }

  function Fresh(): Transcript {
    Transcript(seq(25, _ => ClearedRow()), 0, 0)
  }

  /** The cursor goes to the start of the next row, which exists from now on. */
  function NewLine(t: Transcript): (r: Transcript)
    requires t.Valid()
    ensures r.Valid()
  {
    Transcript(if t.y + 1 < 25 then t.rows else t.rows + [BlankRow()], 0, t.y + 1)
  }

  /** The cursor moves right; past the last column it wraps to the next row. */
  function MoveTo(t: Transcript, x: nat): (r: Transcript)
    requires t.Valid()
    ensures r.Valid()
  {
    if x < WIDTH then t.(x := x) else NewLine(t)
  }

  /** What one character does to the transcript. */
  function Print(t: Transcript, c: u8): (r: Transcript)
    requires t.Valid()
    ensures r.Valid()
  {
    if c == 0x08 then t.(x := if t.x > 0 then t.x - 1 else 0)
    else if c == 0x09 then MoveTo(t, (t.x / 8 + 1) * 8)
    else if c == 0x0d then t.(x := 0)
    else if c == 0x0a then NewLine(t)
    else if c >= 0x20 then
      MoveTo(t.(rows := t.rows[t.y := t.rows[t.y][t.x := Cell(c, ATTRIB)]]), t.x + 1)
    else t
  }

  function PrintAll(t: Transcript, text: seq<u8>): (r: Transcript)
    requires t.Valid()
    ensures r.Valid()
    decreases |text|
  {
    if text == [] then t else PrintAll(Print(t, text[0]), text[1..])
  }

  // --- The screen ---

  /** Video memory: two bytes a position, row by row. */
  function CellAt(video: seq<u8>, k: nat): Cell
    requires |video| == 4000 && k < 2000
  {
    Cell(video[2 * k], video[2 * k + 1])
  }

  function At(video: seq<u8>, row: nat, x: nat): Cell
    requires |video| == 4000 && row < 25 && x < 80
  {
    CellAt(video, 80 * row + x)
  }

  /** Row by row, the screen shows the 25 transcript rows from `top` on. */
  ghost predicate ShowsFrom(video: seq<u8>, rows: seq<Row>, top: nat)
    requires |video| == 4000 && top + 25 <= |rows| && forall r :: 0 <= r < |rows| ==> |rows[r]| == WIDTH
  {
    forall row, x :: 0 <= row < 25 && 0 <= x < 80 ==> At(video, row, x) == rows[top + row][x]
  }

  /** Moving the bytes up by one row and blanking the last one shows the next row of the transcript. */
  lemma ScrolledUp(before: seq<u8>, moved: seq<u8>, after: seq<u8>, rows: seq<Row>, top: nat)
    requires |before| == |moved| == |after| == 4000 && top + 26 <= |rows|
    requires forall r :: 0 <= r < |rows| ==> |rows[r]| == WIDTH
    requires ShowsFrom(before, rows, top) && rows[top + 25] == BlankRow()
    requires forall b :: 0 <= b < 3840 ==> moved[b] == before[b + 160]
    requires forall k :: 0 <= k < 2000 ==>
      CellAt(after, k) == if 1920 <= k then BLANK else CellAt(moved, k)
    ensures ShowsFrom(after, rows, top + 1)
  {
    forall row, x | 0 <= row < 25 && 0 <= x < 80 ensures At(after, row, x) == rows[top + 1 + row][x] {
      if row < 24 {
        assert At(moved, row, x) == At(before, row + 1, x);
        assert At(after, row, x) == At(moved, row, x);
      } else {
        assert At(after, row, x) == BLANK == BlankRow()[x];
      }
    }
  }

  lemma OneCellWritten(before: seq<u8>, after: seq<u8>, rows: seq<Row>, top: nat, row: nat, x: nat, cell: Cell)
    requires |before| == |after| == 4000 && top + 25 <= |rows| && row < 25 && x < 80
    requires forall r :: 0 <= r < |rows| ==> |rows[r]| == WIDTH
    requires ShowsFrom(before, rows, top)
    requires after == before[2 * (row * 80 + x) := cell.glyph][2 * (row * 80 + x) + 1 := cell.attrib]
    ensures ShowsFrom(after, rows[top + row := rows[top + row][x := cell]], top)
  {
    forall r, c | 0 <= r < 25 && 0 <= c < 80
      ensures At(after, r, c) == rows[top + row := rows[top + row][x := cell]][top + r][c]
    {
      assert At(before, r, c) == rows[top + r][c];
      if r == row && c == x {
      } else {
        assert At(after, r, c) == At(before, r, c);
      }
    }
  }

  class Console {
    const video: array<u8>
    var csrX: nat
    var csrY: nat

    ghost var transcript: Transcript

    ghost predicate Shape()
      reads this
    {
      video.Length == 4000
    }

    /** The screen shows the transcript from row `top` on, and the cursor is where it is there. */
    ghost predicate Tracks(top: nat)
      reads this, video
    {
      && Shape() && transcript.Valid()
      && csrX == transcript.x && csrY == transcript.y - top
      && top + 25 <= |transcript.rows|
      && ShowsFrom(video[..], transcript.rows, top)
    }

    /** The screen is the window of the transcript. */
    ghost predicate Valid()
      reads this, video
    {
      Tracks(transcript.Top()) && csrX < WIDTH && csrY < HEIGHT
    }

    constructor ()
      ensures Shape() && fresh(video)
    {
      video := new u8[4000](_ => 0);
      csrX, csrY := 0, 0;
      transcript := Fresh();
    }

    /** memsetw: n words with low byte lo and high byte hi, from word position at. */
    method MemSetW(at: nat, lo: u8, hi: u8, n: nat)
      requires Shape() && at + n <= 2000
      modifies video
      ensures forall k :: 0 <= k < 2000 ==>
        CellAt(video[..], k) == if at <= k < at + n then Cell(lo, hi) else CellAt(old(video[..]), k)
    {
      for i := 0 to n
        invariant forall b :: 0 <= b < 4000 ==>
          video[b] == if 2 * at <= b < 2 * (at + i) then (if b % 2 == 0 then lo else hi) else old(video[b])
      {
        video[2 * (at + i)] := lo;
        video[2 * (at + i) + 1] := hi;
      }
    }

    method Cls()
      requires Shape()
      modifies this, video
      ensures Valid() && transcript == Fresh() && csrX == 0 && csrY == 0
      ensures forall k :: 0 <= k < 2000 ==> video[2 * k] == 0 && video[2 * k + 1] == 0x0f
    {
      MemSetW(0, 0, ATTRIB, 2000);
      csrX, csrY := 0, 0;
      transcript := Fresh();
      forall k | 0 <= k < 2000 ensures video[2 * k] == 0 && video[2 * k + 1] == 0x0f {
        assert CellAt(video[..], k) == Cell(0, ATTRIB);
      }
    }

    /** When the cursor has left the last row, the rows move up and a blank one appears below. */
    method Scroll(ghost top: nat)
      requires Tracks(top) && csrX < WIDTH && csrY <= HEIGHT && top <= transcript.Top()
      requires csrY == HEIGHT ==> transcript.rows[transcript.y] == BlankRow()
      modifies this`csrY, video
      ensures Valid()
    {
      if csrY >= 25 {
        var temp := csrY - 25 + 1;
        ghost var before := video[..];
        RepMovsb(video, 0, 2 * (temp * 80), (25 - temp) * 80 * 2);
        ghost var moved := video[..];
        MemSetW((25 - temp) * 80, 0x20, ATTRIB, 80);
        csrY := 25 - 1;
        ScrolledUp(before, moved, video[..], transcript.rows, top);
      }
    }

    /** A printable character goes into video memory and the cursor moves on. */
    method PutGlyph(c: u8)
      requires Valid()
      modifies this`csrX, video
      ensures csrX == old(csrX) + 1
      ensures var t := transcript;
        ShowsFrom(video[..], t.rows[t.y := t.rows[t.y][t.x := Cell(c, ATTRIB)]], t.Top())
    {
      var where := csrY * 80 + csrX;
      ghost var before := video[..];
      video[2 * where] := c;
      video[2 * where + 1] := ATTRIB;
      OneCellWritten(before, video[..], transcript.rows, transcript.Top(), csrY, csrX, Cell(c, ATTRIB));
      csrX := csrX + 1;
    }

    /** Every character does to the screen what it does to the transcript. */
    method Putch(c: u8)
      requires Valid()
      modifies this, video
      ensures Valid() && transcript == Print(old(transcript), c)
    {
      ghost var top := transcript.Top();
      ghost var after := Print(transcript, c);
      if c == 0x08 {
        if csrX != 0 {
          csrX := csrX - 1;
        }
      } else if c == 0x09 {
        csrX := (csrX + 8) / 8 * 8;
      } else if c == 0x0d {
        csrX := 0;
      } else if c == 0x0a {
        csrX := 0;
        csrY := csrY + 1;
      } else if c >= 0x20 {
        PutGlyph(c);
      }
      if csrX >= 80 {
        csrX := 0;
        csrY := csrY + 1;
      }
      transcript := after;
      Scroll(top);
    }

    method Puts(text: seq<u8>)
      requires Valid()
      modifies this, video
      ensures Valid() && transcript == PrintAll(old(transcript), text)
    {
      for i := 0 to |text|
        invariant Valid() && transcript == PrintAll(old(transcript), text[..i])
      {
        Putch(text[i]);
        PrintAllSnoc(old(transcript), text[..i], text[i]);
        assert text[..i + 1] == text[..i] + [text[i]];
      }
      assert text[..|text|] == text;
    }
  }

  lemma {:induction false} PrintAllSnoc(t: Transcript, text: seq<u8>, c: u8)
    requires t.Valid()
    ensures PrintAll(t, text + [c]) == Print(PrintAll(t, text), c)
    decreases |text|
  {
    if text == [] {
      assert (text + [c])[1..] == [];
    } else {
      assert (text + [c])[1..] == text[1..] + [c];
      PrintAllSnoc(Print(t, text[0]), text[1..], c);
    }
  }

  /** The text fills the transcript from its origin on, 80 to a row. */
  ghost predicate Flows(t: Transcript, text: seq<u8>) {
    && t.Valid() && t.x == |text| % 80 && t.y == |text| / 80
    && forall k :: 0 <= k < |text| ==> t.rows[k / 80][k % 80] == Cell(text[k], ATTRIB)
  }

  lemma FlowsOn(t: Transcript, text: seq<u8>, c: u8)
    requires Flows(t, text) && c >= 0x20
    ensures Flows(Print(t, c), text + [c])
  {
    var more := text + [c];
    forall k | 0 <= k < |more| ensures Print(t, c).rows[k / 80][k % 80] == Cell(more[k], ATTRIB) {
      if k < |text| {
        assert t.rows[k / 80][k % 80] == Cell(text[k], ATTRIB);
      }
    }
  }

  /** Printable text after cls fills the transcript in reading order, 80 to a row, however long. */
  lemma {:induction false} PlainTextFlows(text: seq<u8>)
    requires forall k :: 0 <= k < |text| ==> text[k] >= 0x20
    ensures Flows(PrintAll(Fresh(), text), text)
    decreases |text|
  {
    if text != [] {
      var last := |text| - 1;
      PlainTextFlows(text[..last]);
      PrintAllSnoc(Fresh(), text[..last], text[last]);
      FlowsOn(PrintAll(Fresh(), text[..last]), text[..last], text[last]);
      assert text == text[..last] + [text[last]];
    }
  }

  // --- What single bytes do ---

  /** A row of spaces in the kernel's colour. */
  ghost predicate Blank(row: Row) {
    |row| == 80 && forall j :: 0 <= j < 80 ==> row[j] == Cell(0x20, 0x0f)
  }

  /** What is in the transcript stays, and rows that come into being are blank. */
  ghost predicate KeepsRows(t: Transcript, r: Transcript) {
    && |t.rows| <= |r.rows| && (forall i :: 0 <= i < |t.rows| ==> r.rows[i] == t.rows[i])
    && (forall i :: |t.rows| <= i < |r.rows| ==> Blank(r.rows[i]))
  }

  /** Bytes below 0x20 move the cursor at most: newline to the start of the next row, return to the
      start of this one, tab to the next multiple of 8, backspace one back, the others not at all. */
  lemma ControlBytes(t: Transcript, c: u8)
    requires t.Valid() && c < 0x20
    ensures var r := Print(t, c);
      && KeepsRows(t, r)
      && (c == 0x0a ==> r.x == 0 && r.y == t.y + 1)
      && (c == 0x0d ==> r.x == 0 && r.y == t.y)
      && (c == 0x09 && t.x < 72 ==> r.x % 8 == 0 && t.x < r.x <= t.x + 8 && r.y == t.y)
      && (c == 0x09 && t.x >= 72 ==> r.x == 0 && r.y == t.y + 1)
      && (c == 0x08 && t.x > 0 ==> r.x == t.x - 1 && r.y == t.y)
      && (c == 0x08 && t.x == 0 ==> r.x == 0 && r.y == t.y)
      && (c != 0x08 && c != 0x09 && c != 0x0a && c != 0x0d ==> r == t)
  {
  }

  /** The byte stands at column x of row y, in the kernel's colour; all other cells are as before, and
      rows that come into being are blank. */
  ghost predicate Put(t: Transcript, r: Transcript, y: nat, x: nat, c: u8)
    requires t.Valid() && r.Valid() && y < |t.rows| && x < 80
  {
    && |t.rows| <= |r.rows| && r.rows[y][x] == Cell(c, 0x0f)
    && (forall j :: 0 <= j < 80 && j != x ==> r.rows[y][j] == t.rows[y][j])
    && (forall i :: 0 <= i < |t.rows| && i != y ==> r.rows[i] == t.rows[i])
    && (forall i :: |t.rows| <= i < |r.rows| ==> Blank(r.rows[i]))
  }

  /** A printable byte goes where the cursor is, and the cursor one on, or to the next row from the
      last column. */
  lemma PrintableBytes(t: Transcript, c: u8)
    requires t.Valid() && c >= 0x20
    ensures var r := Print(t, c);
      && Put(t, r, t.y, t.x, c)
      && (if t.x < 79 then r.x == t.x + 1 && r.y == t.y else r.x == 0 && r.y == t.y + 1)
  {
  }

  /** A fresh transcript has 25 rows of NULs in the kernel's colour and the cursor at its origin. */
  lemma FreshIsCleared()
    ensures Fresh().x == 0 && Fresh().y == 0 && |Fresh().rows| == 25
    ensures forall i, j :: 0 <= i < 25 && 0 <= j < 80 ==> |Fresh().rows[i]| == 80 && Fresh().rows[i][j] == Cell(0, 0x0f)
  {
  }

  /** Where the screen shows a row: 160 bytes each, byte and attribute in turn. */
  lemma ShownInBytes(video: seq<u8>, rows: seq<Row>, top: nat)
    requires |video| == 4000 && top + 25 <= |rows| && forall r :: 0 <= r < |rows| ==> |rows[r]| == 80
    ensures ShowsFrom(video, rows, top) <==>
      forall i, j :: 0 <= i < 25 && 0 <= j < 80 ==>
        video[160 * i + 2 * j] == rows[top + i][j].glyph && video[160 * i + 2 * j + 1] == rows[top + i][j].attrib
  {
    if ShowsFrom(video, rows, top) {
      forall i, j | 0 <= i < 25 && 0 <= j < 80
        ensures video[160 * i + 2 * j] == rows[top + i][j].glyph && video[160 * i + 2 * j + 1] == rows[top + i][j].attrib
      {
        assert At(video, i, j) == rows[top + i][j];
      }
    } else {
      var i, j :| 0 <= i < 25 && 0 <= j < 80 && At(video, i, j) != rows[top + i][j];
      assert video[160 * i + 2 * j] != rows[top + i][j].glyph || video[160 * i + 2 * j + 1] != rows[top + i][j].attrib;
    }
  }

  // --- Lines of text ---

  lemma {:induction false} PrintAllJoins(t: Transcript, a: seq<u8>, b: seq<u8>)
    requires t.Valid()
    ensures PrintAll(t, a + b) == PrintAll(PrintAll(t, a), b)
    decreases |a|
  {
    if a == [] {
      assert a + b == b;
    } else {
      assert (a + b)[1..] == a[1..] + b;
      PrintAllJoins(Print(t, a[0]), a[1..], b);
    }
  }

  /** Bytes from 0x20 up, fewer than 80 of them. */
  predicate ShortLine(line: seq<u8>) {
    |line| < 80 && forall k :: 0 <= k < |line| ==> line[k] >= 0x20
  }

  /** The lines with a newline between each and the next. */
  function JoinLines(lines: seq<seq<u8>>): seq<u8>
    requires lines != []
  {
    var n := |lines| - 1;
    if n == 0 then lines[0] else JoinLines(lines[..n]) + ([0x0a] + lines[n])
  }

  /** The row starts with these bytes. */
  ghost predicate RowShows(row: Row, line: seq<u8>) {
    |line| <= |row| == 80 && forall j :: 0 <= j < |line| ==> row[j] == Cell(line[j], 0x0f)
  }

  /** A short line typed at the start of a row stands in that row; other rows stay. */
  lemma {:induction false} LineTyped(t: Transcript, line: seq<u8>)
    requires t.Valid() && t.x == 0 && ShortLine(line)
    ensures var r := PrintAll(t, line);
      && r.y == t.y && r.x == |line| && |r.rows| == |t.rows| && RowShows(r.rows[t.y], line)
      && forall i :: 0 <= i < |t.rows| && i != t.y ==> r.rows[i] == t.rows[i]
    decreases |line|
  {
    if line != [] {
      var last := |line| - 1;
      LineTyped(t, line[..last]);
      PrintAllSnoc(t, line[..last], line[last]);
      assert line == line[..last] + [line[last]];
    }
  }

  /** Lines of printable text shorter than a row, joined by newlines: line i stands in row i. */
  lemma {:induction false} LinesStandInRows(lines: seq<seq<u8>>)
    requires lines != [] && forall i :: 0 <= i < |lines| ==> ShortLine(lines[i])
    ensures var t := PrintAll(Fresh(), JoinLines(lines));
      && t.y == |lines| - 1 && t.x == |lines[t.y]|
      && forall i :: 0 <= i < |lines| ==> RowShows(t.rows[i], lines[i])
    decreases |lines|
  {
    var n := |lines| - 1;
    if n == 0 {
      LineTyped(Fresh(), lines[0]);
    } else {
      LinesStandInRows(lines[..n]);
      var before := PrintAll(Fresh(), JoinLines(lines[..n]));
      PrintAllJoins(Fresh(), JoinLines(lines[..n]), [0x0a] + lines[n]);
      PrintAllJoins(before, [0x0a], lines[n]);
      var fed := NewLineFed(before);
      LineTyped(fed, lines[n]);
      LinesStay(before, fed, PrintAll(fed, lines[n]), lines);
    }
  }

  lemma LinesStay(before: Transcript, fed: Transcript, after: Transcript, lines: seq<seq<u8>>)
    requires before.Valid() && lines != [] && before.y == |lines| - 2 && KeepsRows(before, fed)
    requires forall i :: 0 <= i < |lines| - 1 ==> RowShows(before.rows[i], lines[i])
    requires |after.rows| == |fed.rows| > |lines| - 1 && RowShows(after.rows[|lines| - 1], lines[|lines| - 1])
    requires forall i :: 0 <= i < |fed.rows| && i != |lines| - 1 ==> after.rows[i] == fed.rows[i]
    ensures forall i :: 0 <= i < |lines| ==> RowShows(after.rows[i], lines[i])
  {
    forall i | 0 <= i < |lines| ensures RowShows(after.rows[i], lines[i]) {
      if i < |lines| - 1 {
        assert after.rows[i] == fed.rows[i] == before.rows[i];
      }
    }
  }

  lemma NewLineFed(t: Transcript) returns (r: Transcript)
    requires t.Valid()
    ensures r == PrintAll(t, [0x0a]) && r.Valid() && r.x == 0 && r.y == t.y + 1 && KeepsRows(t, r)
  {
    r := Print(t, 0x0a);
    ControlBytes(t, 0x0a);
    assert PrintAll(r, [0x0a][1..]) == r;
  }
}
