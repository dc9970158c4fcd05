/** SEdit's rows of C strings and its cursor, updated in place by each key
    (programs/sedit/SEdit.c). */
module SEdit {
  import opened EditorText

  const SCREEN_ROWS := 24
  const SCREEN_COLS := 80

  type Cells = seq<char>

  // ----- One row --------------------------------------------------------------------

  /** A row that holds the C string s. */
  ghost predicate Holds(cells: Cells, s: Line) {
    |cells| == MAX_LINE_LEN && |s| < MAX_LINE_LEN && cells[..|s|] == s && cells[|s|] == '\0' && '\0' !in s
  }

  /** Writing t and a terminator at k. */
  function Over(cells: Cells, k: nat, t: Line): (c: Cells)
    requires k + |t| < |cells|
    ensures |c| == |cells|
  {
    cells[..k] + t + ['\0'] + cells[k + |t| + 1..]
  }

  lemma StringAt(cells: Cells, s: Line, k: nat)
    requires Holds(cells, s) && k <= |s|
    ensures cells[k] == '\0' <==> k == |s|
    ensures k < |s| ==> cells[k] == s[k]
  {
    if k < |s| {
      assert cells[..|s|][k] == cells[k];
      assert s[k] in s;
    }
  }

  /** Half way through a copy: t[..k] written from position `at` on. */
  function Partly(cells: Cells, at: nat, t: Line, k: nat): (c: Cells)
    requires k <= |t| && at + k <= |cells|
    ensures |c| == |cells|
  {
    cells[..at] + t[..k] + cells[at + k..]
  }

  lemma PartlyNext(cells: Cells, at: nat, t: Line, k: nat)
    requires k <= |t| && at + k < |cells|
    ensures Partly(cells, at, t, 0) == cells
    ensures k < |t| ==> Partly(cells, at, t, k)[at + k := t[k]] == Partly(cells, at, t, k + 1)
    ensures k == |t| ==> Partly(cells, at, t, k)[at + k := '\0'] == Over(cells, at, t)
  {
  }

  lemma OverHolds(cells: Cells, s: Line, k: nat, t: Line)
    requires Holds(cells, s) && k <= |s| && k + |t| < MAX_LINE_LEN && '\0' !in t
    ensures Holds(Over(cells, k, t), s[..k] + t)
  {
    var o := Over(cells, k, t);
    assert o[..k + |t|] == s[..k] + t;
  }

  lemma CopyHolds(cells: Cells, from: Cells, t: Line, k: nat)
    requires |cells| == MAX_LINE_LEN && Holds(from, t) && k <= |t|
    ensures |t| < MAX_LINE_LEN && Holds(Over(cells, 0, t[k..]), t[k..])
  {
  }

  /** Half way through a shift by one: cells i to n are one to the right. */
  function MovedRight(cells: Cells, i: nat, n: nat): (c: Cells)
    requires i <= n + 1 && n + 2 <= |cells|
    ensures |c| == |cells|
  {
    cells[..i + 1] + cells[i..n + 1] + cells[n + 2..]
  }

  lemma MovedRightNext(cells: Cells, i: nat, n: nat)
    requires i <= n + 1 && n + 2 <= |cells|
    ensures i == n + 1 ==> MovedRight(cells, i, n) == cells
    ensures i > 0 ==>
      && MovedRight(cells, i, n)[i - 1] == cells[i - 1]
      && MovedRight(cells, i, n)[i := cells[i - 1]] == MovedRight(cells, i - 1, n)
  {
  }

  /** Cells k to i are one to the left. */
  function MovedLeft(cells: Cells, k: nat, i: nat): (c: Cells)
    requires 0 < k <= i + 1 && i < |cells|
    ensures |c| == |cells|
  {
    cells[..k - 1] + cells[k..i + 1] + cells[i..]
  }

  lemma MovedLeftNext(cells: Cells, k: nat, i: nat)
    requires 0 < k <= i + 1 && i < |cells|
    ensures i == k - 1 ==> MovedLeft(cells, k, i) == cells
    ensures i + 1 < |cells| ==>
      && MovedLeft(cells, k, i)[i + 1] == cells[i + 1]
      && MovedLeft(cells, k, i)[i := cells[i + 1]] == MovedLeft(cells, k, i + 1)
  {
  }

  lemma InsertHolds(cells: Cells, s: Line, k: nat, c: char)
    requires Holds(cells, s) && k <= |s| < MAX_LINE_LEN - 1 && c != '\0'
    ensures Holds(MovedRight(cells, k, |s|)[k := c], s[..k] + [c] + s[k..])
  {
    var o := MovedRight(cells, k, |s|)[k := c];
    assert o[..|s| + 1] == s[..k] + [c] + s[k..];
  }

  lemma RemoveHolds(cells: Cells, s: Line, k: nat)
    requires Holds(cells, s) && 0 < k <= |s|
    ensures Holds(MovedLeft(cells, k, |s|), s[..k - 1] + s[k..])
  {
    var o := MovedLeft(cells, k, |s|);
    assert o[..|s| - 1] == s[..k - 1] + s[k..];
  }

  // ----- All rows -------------------------------------------------------------------

  ghost predicate RowsHold(rows: seq<Cells>, text: seq<Line>) {
    |text| <= |rows| && forall i :: 0 <= i < |text| ==> Holds(rows[i], text[i])
  }

  lemma Overwritten(rows: seq<Cells>, r: nat, a: Cells, b: Cells)
    requires r < |rows|
    ensures rows[r := a][r := b] == rows[r := b]
  {
  }

  lemma OneRow(rows: seq<Cells>, text: seq<Line>, r: nat, cells: Cells, s: Line)
    requires RowsHold(rows, text) && r < |text| && Holds(cells, s)
    ensures RowsHold(rows[r := cells], text[r := s])
  {
  }

  /** Lines i and up are one row further down, with row i still in place, too. */
  ghost predicate MovedDown(rows: seq<Cells>, text: seq<Line>, i: nat) {
    && |text| < |rows|
    && (forall j :: 0 <= j <= i && j < |text| ==> Holds(rows[j], text[j]))
    && (forall j :: i < j <= |text| ==> Holds(rows[j], text[j - 1]))
  }

  lemma MovedDownNext(rows: seq<Cells>, text: seq<Line>, i: nat)
    requires MovedDown(rows, text, i) && 0 < i <= |text| && |rows[i]| == MAX_LINE_LEN
    ensures Holds(rows[i - 1], text[i - 1]) && |text[i - 1]| < MAX_LINE_LEN
    ensures MovedDown(rows[i := Over(rows[i], 0, text[i - 1][0..])], text, i - 1)
  {
    hide Over;
    CopyHolds(rows[i], rows[i - 1], text[i - 1], 0);
    assert text[i - 1][0..] == text[i - 1];
  }

  lemma SplitRows(rows: seq<Cells>, text: seq<Line>, r: nat, a: Cells, s: Line, b: Cells, t: Line)
    requires MovedDown(rows, text, r + 1) && r < |text| && Holds(a, s) && Holds(b, t)
    ensures RowsHold(rows[r + 1 := b][r := a], text[..r] + [s, t] + text[r + 1..])
  {
    var now, list := rows[r + 1 := b][r := a], text[..r] + [s, t] + text[r + 1..];
    forall j | 0 <= j < |list| ensures Holds(now[j], list[j]) {
      if j > r + 1 { assert list[j] == text[j - 1]; }
    }
  }

  lemma AtRow(rows: seq<Cells>, text: seq<Line>, r: nat)
    requires MovedDown(rows, text, r + 1) && r < |text|
    ensures Holds(rows[r], text[r]) && |text| < |rows|
  {
  }

  lemma CutHolds(cells: Cells, s: Line, k: nat)
    requires Holds(cells, s) && k <= |s|
    ensures Holds(cells[k := '\0'], s[..k])
  {
  }

  /** What Enter does to the line and the free row below it. */
  lemma SplitFacts(rows: seq<Cells>, text: seq<Line>, r: nat, k: nat)
    requires MovedDown(rows, text, r + 1) && r < |text| && k <= |text[r]|
    requires |rows[r + 1]| == MAX_LINE_LEN
    ensures var s := text[r];
            && Holds(rows[r], s) && |s| < MAX_LINE_LEN
            && RowsHold(rows[r + 1 := Over(rows[r + 1], 0, s[k..])][r := rows[r][k := '\0']],
                        text[..r] + [s[..k], s[k..]] + text[r + 1..])
  {
    hide RowsHold, MovedDown, Over;
    var s := text[r];
    AtRow(rows, text, r);
    CopyHolds(rows[r + 1], rows[r], s, k);
    CutHolds(rows[r], s, k);
    SplitRows(rows, text, r, rows[r][k := '\0'], s[..k], Over(rows[r + 1], 0, s[k..]), s[k..]);
  }

  /** Rows r up to i hold the line that was one further down. */
  ghost predicate MovedUp(rows: seq<Cells>, text: seq<Line>, r: nat, i: nat) {
    && r <= i < |text| <= |rows|
    && (forall j :: 0 <= j < r ==> Holds(rows[j], text[j]))
    && (forall j :: r <= j < i ==> Holds(rows[j], text[j + 1]))
    && (forall j :: i <= j < |text| ==> Holds(rows[j], text[j]))
  }

  lemma MovedUpNext(rows: seq<Cells>, text: seq<Line>, r: nat, i: nat)
    requires MovedUp(rows, text, r, i) && i < |text| - 1 && |rows[i]| == MAX_LINE_LEN
    ensures Holds(rows[i + 1], text[i + 1]) && |text[i + 1]| < MAX_LINE_LEN
    ensures MovedUp(rows[i := Over(rows[i], 0, text[i + 1][0..])], text, r, i + 1)
  {
    hide Over;
    CopyHolds(rows[i], rows[i + 1], text[i + 1], 0);
    assert text[i + 1][0..] == text[i + 1];
  }

  lemma ClosedRows(rows: seq<Cells>, text: seq<Line>, r: nat, last: Cells)
    requires 0 <= r < |text| && MovedUp(rows, text, r, |text| - 1)
    ensures RowsHold(rows[|text| - 1 := last], text[..r] + text[r + 1..])
  {
    var now, list := rows[|text| - 1 := last], text[..r] + text[r + 1..];
    forall j | 0 <= j < |list| ensures Holds(now[j], list[j]) {
      if j >= r { assert list[j] == text[j + 1]; }
    }
  }

  /** What appending row r to the one above gives. */
  lemma JoinFacts(rows: seq<Cells>, text: seq<Line>, r: nat)
    requires RowsHold(rows, text) && 0 < r < |text| && |text[r - 1]| + |text[r]| < MAX_LINE_LEN
    ensures var p, s := text[r - 1], text[r];
            && Holds(rows[r - 1], p) && Holds(rows[r], s) && |rows[r - 1]| == MAX_LINE_LEN
            && MovedUp(rows[r - 1 := Over(rows[r - 1], |p|, s[0..])], text[r - 1 := p + s], r, r)
            && text[r - 1 := p + s][..r] + text[r - 1 := p + s][r + 1..] == text[..r - 1] + [p + s] + text[r + 1..]
  {
    hide Over;
    var p, s := text[r - 1], text[r];
    OverHolds(rows[r - 1], p, |p|, s);
    assert s[0..] == s && p[..|p|] == p;
  }

  // ----- Rows while a file is loaded -------------------------------------------------

  /** A finished row: the bytes of the file's line and a terminator. */
  ghost predicate Ends(cells: Cells, s: Line) {
    |cells| == MAX_LINE_LEN && |s| < MAX_LINE_LEN && cells[..|s|] == s && cells[|s|] == '\0'
  }

  ghost predicate LoadRows(rows: seq<Cells>, l: Loading) {
    && |rows| == MAX_LINES && (forall r :: 0 <= r < |rows| ==> |rows[r]| == MAX_LINE_LEN)
    && |l.done| <= MAX_LINES && |l.part| < MAX_LINE_LEN
    && (forall i :: 0 <= i < |l.done| ==> Ends(rows[i], l.done[i]))
    && (|l.done| < MAX_LINES ==> rows[|l.done|][..|l.part|] == l.part)
  }

  lemma LoadRowsNext(rows: seq<Cells>, l: Loading, c: char)
    requires LoadRows(rows, l) && |l.done| < MAX_LINES
    ensures |l.part| < MAX_LINE_LEN && |Fed(l, c).done| == |l.done| + (if c == '\n' then 1 else 0)
    ensures |Fed(l, c).part| ==
      if c == '\n' then 0 else if c != '\r' && |l.part| < MAX_LINE_LEN - 1 then |l.part| + 1 else |l.part|
    ensures var n, k := |l.done|, |l.part|;
            && (c == '\n' ==> LoadRows(rows[n := rows[n][k := '\0']], Fed(l, c)))
            && (c != '\n' && c != '\r' && k < MAX_LINE_LEN - 1 ==> LoadRows(rows[n := rows[n][k := c]], Fed(l, c)))
            && (c == '\r' || (c != '\n' && k == MAX_LINE_LEN - 1) ==> Fed(l, c) == l)
  {
    var n, k := |l.done|, |l.part|;
    assert rows[n][k := c][..k + 1] == l.part + [c];
    assert rows[n][k := '\0'][..k] == l.part;
  }

  lemma EndsHolds(cells: Cells, s: Line)
    requires Ends(cells, s)
    ensures Holds(cells, Cut(s))
  {
    var c := Cut(s);
    assert cells[..|s|][..|c|] == c;
    if |c| < |s| { assert cells[|c|] == cells[..|s|][|c|]; }
  }

  lemma LoadedRows(rows: seq<Cells>, text: seq<Line>)
    requires |text| <= |rows| && forall i :: 0 <= i < |text| ==> Ends(rows[i], text[i])
    ensures RowsHold(rows, CutAll(text))
  {
    forall i | 0 <= i < |text| ensures Holds(rows[i], CutAll(text)[i]) { EndsHolds(rows[i], text[i]); }
  }

  /** What load_file does to the row it was filling when the file ends. */
  lemma LastRow(rows: seq<Cells>, file: seq<char>)
    requires var l := LoadState(file); LoadRows(rows, l)
    requires Newlines(file) < MAX_LINES || !EndsInNewline(file)
    ensures var l := LoadState(file);
            var more := l.part != [] || EndsInNewline(file);
            && (more ==>
                  && |l.done| < MAX_LINES
                  && RowsHold(rows[|l.done| := rows[|l.done|][|l.part| := '\0']], CutAll(Loaded(file))))
            && (!more && l.done != [] ==> RowsHold(rows, CutAll(Loaded(file))))
            && (!more && l.done == [] ==> RowsHold(rows[0 := rows[0][0 := '\0']], CutAll(Loaded(file))))
            && |l.part| < MAX_LINE_LEN
            && |Loaded(file)| == if more then |l.done| + 1 else if l.done != [] then |l.done| else 1
  {
    LoadCounts(file);
    var l := LoadState(file);
    var n, k := |l.done|, |l.part|;
    if k > 0 || EndsInNewline(file) {
      LoadedRows(rows[n := rows[n][k := '\0']], Loaded(file));
    } else if n == 0 {
      LoadedRows(rows[0 := rows[0][0 := '\0']], Loaded(file));
    } else {
      LoadedRows(rows, Loaded(file));
    }
  }

  // ----- The viewport -----------------------------------------------------------------

  /** Where the viewport starts after ensure_cursor_visible, in one direction. */
  function Scrolled(cursor: nat, scroll: nat, size: nat): nat
    requires size > 2
  {
    var s := if cursor < scroll then cursor else scroll;
    if cursor >= s + size - 1 then cursor - size + 2 else s
  }

  predicate Shows(scroll: nat, cursor: nat, size: nat) {
    scroll <= cursor < scroll + size - 1
  }

  /** The cursor is in view, and the viewport has moved no further than it had to. */
  lemma ScrolledLeast(cursor: nat, scroll: nat, size: nat, other: nat)
    requires size > 2
    ensures var s := Scrolled(cursor, scroll, size);
            && Shows(s, cursor, size)
            && (Shows(other, cursor, size) ==>
                  (if s < scroll then scroll - s else s - scroll)
                  <= (if other < scroll then scroll - other else other - scroll))
  {
  }

  // ----- The editor ---------------------------------------------------------------------

  class Editor {
    const lines: array2<char>
    var lineCount: nat
    var row: nat
    var col: nat
    var scrollRow: nat
    var scrollCol: nat
    var modified: bool
    ghost var text: seq<Line>

    ghost function Rows(): (rows: seq<Cells>)
      reads lines
      ensures |rows| == lines.Length0 && forall r :: 0 <= r < |rows| ==> |rows[r]| == lines.Length1
    {
      seq(lines.Length0, r requires 0 <= r < lines.Length0 reads lines =>
        seq(lines.Length1, k requires 0 <= k < lines.Length1 reads lines => lines[r, k]))
    }

    ghost function Edited(): Doc
      reads this
    {
      Doc(text, row, col)
    }

    ghost predicate Sized() {
      lines.Length0 == MAX_LINES && lines.Length1 == MAX_LINE_LEN
    }

    /** The rows hold the lines, the cursor is on one of them, and in view. */
    ghost predicate Valid()
      reads this, lines
    {
      && Sized()
      && lineCount == |text| && RowsHold(Rows(), text)
      && Edited().Valid()
      && Shows(scrollRow, row, SCREEN_ROWS) && Shows(scrollCol, col, SCREEN_COLS)
    }

    constructor ()
      ensures Valid() && Edited() == Doc([[]], 0, 0) && !modified
      ensures fresh(lines)
    {
      lines := new char[1000, 256]((i, j) => '\0');
      lineCount, row, col, scrollRow, scrollCol, modified := 1, 0, 0, 0, 0, false;
      text := [[]];
    }

    // ----- The C strings ----------------------------------------------------------------

    method Put(r: nat, k: nat, c: char)
      requires Sized() && r < MAX_LINES && k < MAX_LINE_LEN
      modifies lines
      ensures Rows() == old(Rows())[r := old(Rows())[r][k := c]]
    {
      lines[r, k] := c;
      assert forall i :: 0 <= i < MAX_LINES ==> Rows()[i] == old(Rows())[r := old(Rows())[r][k := c]][i];
    }

    lemma InString(r: nat, s: Line, k: nat)
      requires Sized() && r < MAX_LINES && Holds(Rows()[r], s) && k <= |s|
      ensures |s| < MAX_LINE_LEN && lines[r, k] == Rows()[r][k]
      ensures lines[r, k] == '\0' <==> k == |s|
      ensures k < |s| ==> lines[r, k] == s[k]
    {
      StringAt(Rows()[r], s, k);
    }

    method StrLen(r: nat, ghost s: Line) returns (n: nat)
      requires Sized() && r < MAX_LINES && Holds(Rows()[r], s)
      ensures n == |s|
    {
      hide Holds;
      n := 0;
      InString(r, s, 0);
      while lines[r, n] != '\0'
        invariant n <= |s| < MAX_LINE_LEN
        invariant lines[r, n] == '\0' <==> n == |s|
        decreases |s| - n
      {
        n := n + 1;
        InString(r, s, n);
      }
    }

    /** strcpy(&lines[dr][dk], &lines[sr][sk]). */
    method StrCpy(dr: nat, dk: nat, sr: nat, sk: nat, ghost s: Line)
      requires Sized() && dr < MAX_LINES && sr < MAX_LINES && dr != sr
      requires Holds(Rows()[sr], s) && sk <= |s| && dk + |s| - sk < MAX_LINE_LEN
      modifies lines
      ensures Rows() == old(Rows())[dr := Over(old(Rows())[dr], dk, s[sk..])]
    {
      hide Holds, Rows, Partly, Over;
      ghost var was, t := Rows(), s[sk..];
      var k := 0;
      InString(sr, s, sk);
      PartlyNext(was[dr], dk, t, 0);
      while lines[sr, sk + k] != '\0'
        invariant sk + k <= |s| < MAX_LINE_LEN
        invariant lines[sr, sk + k] == '\0' <==> sk + k == |s|
        invariant Rows() == was[dr := Partly(was[dr], dk, t, k)]
        decreases |s| - k
      {
        InString(sr, s, sk + k);
        PartlyNext(was[dr], dk, t, k);
        Put(dr, dk + k, lines[sr, sk + k]);
        k := k + 1;
        InString(sr, s, sk + k);
      }
      PartlyNext(was[dr], dk, t, k);
      Put(dr, dk + k, '\0');
    }

    lemma RowOf(r: nat)
      requires Valid() && r < |text|
      ensures Holds(Rows()[r], text[r]) && |text[r]| < MAX_LINE_LEN && |text| <= MAX_LINES
    {
    }

    // ----- The keys ------------------------------------------------------------------------

    method EnsureCursorVisible()
      modifies this`scrollRow, this`scrollCol
      ensures scrollRow == Scrolled(row, old(scrollRow), SCREEN_ROWS)
      ensures scrollCol == Scrolled(col, old(scrollCol), SCREEN_COLS)
    {
      if row < scrollRow { scrollRow := row; }
      if row >= scrollRow + SCREEN_ROWS - 1 { scrollRow := row - SCREEN_ROWS + 2; }
      if col < scrollCol { scrollCol := col; }
      if col >= scrollCol + SCREEN_COLS - 1 { scrollCol := col - SCREEN_COLS + 2; }
    }

    lemma CellOf(r: nat, k: nat)
      requires Sized() && r < MAX_LINES && k < MAX_LINE_LEN
      ensures lines[r, k] == Rows()[r][k]
    {
    }

    /** A printable character. */
    method TypeKey(c: char)
      requires Valid() && Printable(c)
      modifies this, lines
      ensures Valid() && Edited() == Typed(old(Edited()), c)
      ensures modified == (old(modified) || Edited() != old(Edited()))
    {
      hide Holds, RowsHold, Rows, MovedRight, View, EditorText.Put;
      ghost var s, was := text[row], Rows();
      RowOf(row);
      TypedInserts(Edited(), c);
      var len := StrLen(row, s);
      if len < MAX_LINE_LEN - 1 {
        var i := len + 1;
        MovedRightNext(was[row], i, len);
        while i > col
          modifies lines
          invariant col <= i <= len + 1
          invariant Rows() == was[row := MovedRight(was[row], i, len)]
        {
          MovedRightNext(was[row], i, len);
          CellOf(row, i - 1);
          Put(row, i, lines[row, i - 1]);
          i := i - 1;
        }
        Put(row, col, c);
        InsertHolds(was[row], s, col, c);
        OneRow(was, text, row, MovedRight(was[row], col, len)[col := c], s[..col] + [c] + s[col..]);
        Overwritten(was, row, MovedRight(was[row], col, len), MovedRight(was[row], col, len)[col := c]);
        text := text[row := s[..col] + [c] + s[col..]];
        col := col + 1;
        modified := true;
        EnsureCursorVisible();
      }
    }

    lemma StartDown(rows: seq<Cells>, lines: seq<Line>)
      requires RowsHold(rows, lines) && |lines| < |rows|
      ensures MovedDown(rows, lines, |lines|)
    {
    }

    /** Enter: the lines below move down one row, the line splits at the cursor. */
    method EnterKey()
      requires Valid()
      modifies this, lines
      ensures Valid() && Edited() == Entered(old(Edited()))
      ensures modified == (old(modified) || Edited() != old(Edited()))
    {
      hide Holds, RowsHold, Rows, MovedDown, Over, View, EditorText.Put;
      EnteredInserts(Edited());
      if lineCount < MAX_LINES {
        ghost var s := text[row];
        var i := lineCount;
        StartDown(Rows(), text);
        while i > row + 1
          modifies lines
          invariant row + 1 <= i <= lineCount
          invariant MovedDown(Rows(), text, i)
        {
          MovedDownNext(Rows(), text, i);
          StrCpy(i, 0, i - 1, 0, text[i - 1]);
          i := i - 1;
        }
        lineCount := lineCount + 1;
        ghost var was := Rows();
        SplitFacts(was, text, row, col);
        StrCpy(row + 1, 0, row, col, s);
        Put(row, col, '\0');
        text := text[..row] + [s[..col], s[col..]] + text[row + 1..];
        row := row + 1;
        col := 0;
        modified := true;
        EnsureCursorVisible();
      }
    }

    /** Backspace inside a line. */
    method EraseInLine()
      requires Valid() && col > 0
      modifies this, lines
      ensures Valid() && Edited() == Erased(old(Edited())) && modified
    {
      hide Holds, RowsHold, Rows, MovedLeft, View, EditorText.Take;
      ghost var s, was := text[row], Rows();
      RowOf(row);
      ErasedDeletes(Edited());
      var len := StrLen(row, s);
      var i := col - 1;
      MovedLeftNext(was[row], col, i);
      while i < len
        modifies lines
        invariant col - 1 <= i <= len
        invariant Rows() == was[row := MovedLeft(was[row], col, i)]
      {
        MovedLeftNext(was[row], col, i);
        CellOf(row, i + 1);
        Put(row, i, lines[row, i + 1]);
        i := i + 1;
      }
      RemoveHolds(was[row], s, col);
      OneRow(was, text, row, MovedLeft(was[row], col, len), s[..col - 1] + s[col..]);
      text := text[row := s[..col - 1] + s[col..]];
      col := col - 1;
      modified := true;
      EnsureCursorVisible();
    }

    /** Backspace at the start of a line. */
    method EraseAcrossLines()
      requires Valid() && col == 0 && row > 0
      modifies this, lines
      ensures Valid() && Edited() == Erased(old(Edited()))
      ensures modified == (old(modified) || Edited() != old(Edited()))
    {
      hide Holds, RowsHold, Rows, MovedUp, Over, View, EditorText.Take;
      ghost var p, s := text[row - 1], text[row];
      RowOf(row - 1);
      RowOf(row);
      ErasedDeletes(Edited());
      var prevLen := StrLen(row - 1, p);
      var curLen := StrLen(row, s);
      if prevLen + curLen < MAX_LINE_LEN {
        JoinFacts(Rows(), text, row);
        StrCpy(row - 1, prevLen, row, 0, s);
        ghost var list := text[row - 1 := p + s];
        var i := row;
        while i < lineCount - 1
          modifies lines
          invariant row <= i <= lineCount - 1
          invariant MovedUp(Rows(), list, row, i)
        {
          MovedUpNext(Rows(), list, row, i);
          StrCpy(i, 0, i + 1, 0, list[i + 1]);
          i := i + 1;
        }
        lineCount := lineCount - 1;
        ClosedRows(Rows(), list, row, Rows()[lineCount][0 := '\0']);
        Put(lineCount, 0, '\0');
        text := Erased(Edited()).text;
        row := row - 1;
        col := prevLen;
        modified := true;
        EnsureCursorVisible();
      }
    }

    /** Backspace. */
    method BackspaceKey()
      requires Valid()
      modifies this, lines
      ensures Valid() && Edited() == Erased(old(Edited()))
      ensures modified == (old(modified) || Edited() != old(Edited()))
    {
      hide Holds, RowsHold, Rows;
      if col > 0 {
        EraseInLine();
      } else if row > 0 {
        EraseAcrossLines();
      }
    }

    method ClampCursorCol()
      requires Sized() && lineCount == |text| && RowsHold(Rows(), text) && row < |text| <= MAX_LINES
      modifies this`col
      ensures col == if old(col) > |text[row]| then |text[row]| else old(col)
    {
      var len := StrLen(row, text[row]);
      if col > len { col := len; }
    }

    method UpKey()
      requires Valid()
      modifies this
      ensures Valid() && Edited() == WentUp(old(Edited())) && modified == old(modified)
    {
      hide Holds, RowsHold, Rows;
      if row > 0 {
        row := row - 1;
        ClampCursorCol();
        EnsureCursorVisible();
      }
    }

    method DownKey()
      requires Valid()
      modifies this
      ensures Valid() && Edited() == WentDown(old(Edited())) && modified == old(modified)
    {
      hide Holds, RowsHold, Rows;
      if row < lineCount - 1 {
        row := row + 1;
        ClampCursorCol();
        EnsureCursorVisible();
      }
    }

    method LeftKey()
      requires Valid()
      modifies this
      ensures Valid() && Edited() == WentLeft(old(Edited())) && modified == old(modified)
    {
      hide Holds, RowsHold, Rows;
      if col > 0 {
        col := col - 1;
        EnsureCursorVisible();
      } else if row > 0 {
        RowOf(row - 1);
        row := row - 1;
        col := StrLen(row, text[row]);
        EnsureCursorVisible();
      }
    }

    method RightKey()
      requires Valid()
      modifies this
      ensures Valid() && Edited() == WentRight(old(Edited())) && modified == old(modified)
    {
      hide Holds, RowsHold, Rows;
      RowOf(row);
      var len := StrLen(row, text[row]);
      if col < len {
        col := col + 1;
        EnsureCursorVisible();
      } else if row < lineCount - 1 {
        row := row + 1;
        col := 0;
        EnsureCursorVisible();
      }
    }

    /** The key loop's dispatch. */
    method Press(k: Key)
      requires Valid() && (k.Type? ==> Printable(k.c))
      modifies this, lines
      ensures Valid() && Edited() == After(old(Edited()), k)
      ensures old(modified) ==> modified
      ensures Edited().text != old(Edited()).text ==> modified
    {
      hide Holds, RowsHold, Rows;
      match k
      case Type(c) => TypeKey(c);
      case Enter => EnterKey();
      case Backspace => BackspaceKey();
      case Left => LeftKey();
      case Right => RightKey();
      case Up => UpKey();
      case Down => DownKey();
    }

    // ----- Files ----------------------------------------------------------------------------

    lemma StartLoad()
      requires Sized()
      ensures LoadRows(Rows(), Loading([], []))
    {
    }

    /** load_file, before any key is read. The file must not run over the rows. */
    method LoadFile(file: seq<char>)
      requires Valid() && row == 0 && col == 0
      requires Newlines(file) < MAX_LINES || !EndsInNewline(file)
      modifies this, lines
      ensures Valid() && Edited() == Doc(CutAll(Loaded(file)), 0, 0) && modified == old(modified)
    {
      hide RowsHold, LoadRows, Rows, Loaded, CutAll, Newlines, Fed;
      LoadedValid(file);
      assert LoadState(file[..0]) == Loading([], []);
      StartLoad();
      lineCount := 0;
      var at, i := 0, 0;
      while i < |file| && lineCount < MAX_LINES
        modifies this`lineCount, lines
        invariant 0 <= i <= |file| && LoadRows(Rows(), LoadState(file[..i]))
        invariant lineCount == |LoadState(file[..i]).done| && at == |LoadState(file[..i]).part|
      {
        LoadNext(file, i);
        LoadRowsNext(Rows(), LoadState(file[..i]), file[i]);
        if file[i] == '\n' {
          Put(lineCount, at, '\0');
          lineCount := lineCount + 1;
          at := 0;
        } else if file[i] == '\r' {
        } else if at < MAX_LINE_LEN - 1 {
          Put(lineCount, at, file[i]);
          at := at + 1;
        }
        i := i + 1;
      }
      if i < |file| { LoadStops(file, i); } else { assert file[..i] == file; }
      LastRow(Rows(), file);
      if at > 0 || (|file| > 0 && file[|file| - 1] == '\n') {
        Put(lineCount, at, '\0');
        lineCount := lineCount + 1;
      }
      if lineCount == 0 {
        Put(0, 0, '\0');
        lineCount := 1;
      }
      text := CutAll(Loaded(file));
    }

    /** The inner loop of save_file: as much of row i as the buffer takes. */
    method SaveLine(buf: array<char>, from: nat, i: nat) returns (pos: nat)
      requires Valid() && buf.Length == 32768 && i < |text| && from < SAVE_LIMIT
      modifies buf
      ensures from <= pos <= SAVE_LIMIT
      ensures buf[..pos] == old(buf[..from]) + Fitting(text[i], SAVE_LIMIT - from)
    {
      hide RowsHold, Rows, Holds;
      RowOf(i);
      var len := StrLen(i, text[i]);
      pos := from;
      var j := 0;
      while j < len && pos < buf.Length - 2
        invariant 0 <= j <= len && pos == from + j <= SAVE_LIMIT
        invariant buf[..pos] == old(buf[..from]) + text[i][..j]
      {
        InString(i, text[i], j);
        buf[pos] := lines[i, j];
        pos := pos + 1;
        j := j + 1;
      }
      assert text[i][..j] == Fitting(text[i], SAVE_LIMIT - from);
    }

    lemma SaveDone(i: nat, pos: nat)
      requires i <= |text| && pos == |SavedUpTo(text, i)| && (i == |text| || pos >= SAVE_LIMIT)
      ensures Saved(text) == SavedUpTo(text, i)
    {
      if i < |text| { SaveStops(text, i); }
    }

    /** save_file, up to the write. */
    method SaveFile(buf: array<char>) returns (pos: nat)
      requires Valid() && buf.Length == 32768
      modifies buf
      ensures pos < buf.Length && buf[..pos] == Saved(text)
    {
      hide RowsHold, Rows, Holds, Saved, Fitting;
      pos := 0;
      var i := 0;
      while i < lineCount && pos < buf.Length - 2
        invariant 0 <= i <= lineCount && pos < buf.Length
        invariant buf[..pos] == SavedUpTo(text, i)
      {
        pos := SaveLine(buf, pos, i);
        buf[pos] := '\n';
        pos := pos + 1;
        i := i + 1;
      }
      SaveDone(i, pos);
    }
  }
}
