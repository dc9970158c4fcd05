/** What editing means (programs/sedit/SEdit.c): lines with a row and a column,
    seen as one flat text with one cursor. */
module EditorText {

  const MAX_LINES := 1000
  const MAX_LINE_LEN := 256

  type Line = seq<char>

  predicate LineOk(s: Line) {
    |s| < MAX_LINE_LEN && '\0' !in s && '\n' !in s
  }

  datatype Doc = Doc(text: seq<Line>, row: nat, col: nat) {
    predicate Valid() {
      && 1 <= |text| <= MAX_LINES
      && (forall i :: 0 <= i < |text| ==> LineOk(text[i]))
      && row < |text| && col <= |text[row]|
    }
  }

  // ----- The flat text ------------------------------------------------------------

  /** Lines that come before another one, each ended by a newline. */
  function Lead(pre: seq<Line>): seq<char> {
    if pre == [] then [] else pre[0] + ['\n'] + Lead(pre[1..])
  }

  /** Lines that come after another one, each started by a newline. */
  function Trail(post: seq<Line>): seq<char> {
    if post == [] then [] else ['\n'] + post[0] + Trail(post[1..])
  }

  /** The lines joined by newlines. */
  function Join(text: seq<Line>): seq<char>
    requires text != []
  {
    text[0] + Trail(text[1..])
  }

  /** The cursor as one offset into the joined lines. */
  function Offset(text: seq<Line>, row: nat, col: nat): nat
    requires row <= |text|
  {
    |Lead(text[..row])| + col
  }

  lemma {:induction false} LeadSnoc(pre: seq<Line>, s: Line)
    ensures Lead(pre + [s]) == Lead(pre) + s + ['\n']
  {
    if pre == [] {
      assert ([] + [s])[1..] == [];
    } else {
      LeadSnoc(pre[1..], s);
      assert (pre + [s])[1..] == pre[1..] + [s];
    }
  }

  lemma JoinCons(text: seq<Line>)
    requires |text| >= 2
    ensures Join(text) == text[0] + ['\n'] + Join(text[1..])
  {
  }

  /** The joined lines around any one of them. */
  lemma {:induction false} JoinAround(pre: seq<Line>, s: Line, post: seq<Line>)
    ensures Join(pre + [s] + post) == Lead(pre) + s + Trail(post)
  {
    var all := pre + [s] + post;
    if pre == [] {
      assert all[1..] == post;
    } else {
      assert all[1..] == pre[1..] + [s] + post;
      JoinAround(pre[1..], s, post);
      JoinCons(all);
    }
  }

  /** The flat text before the cursor, and from the cursor on. */
  function Before(d: Doc): seq<char>
    requires d.Valid()
  {
    Lead(d.text[..d.row]) + d.text[d.row][..d.col]
  }

  function Behind(d: Doc): seq<char>
    requires d.Valid()
  {
    d.text[d.row][d.col..] + Trail(d.text[d.row + 1..])
  }

  datatype Flat = Flat(text: seq<char>, at: nat)

  /** The document as one text with one cursor. */
  function View(d: Doc): Flat
    requires d.Valid()
  {
    Flat(Join(d.text), Offset(d.text, d.row, d.col))
  }

  lemma Halves(d: Doc)
    requires d.Valid()
    ensures View(d).text == Before(d) + Behind(d) && View(d).at == |Before(d)|
  {
    var s := d.text[d.row];
    assert d.text == d.text[..d.row] + [s] + d.text[d.row + 1..];
    JoinAround(d.text[..d.row], s, d.text[d.row + 1..]);
    assert s == s[..d.col] + s[d.col..];
  }

  // ----- The keys -------------------------------------------------------------------

  function Typed(d: Doc, c: char): Doc
    requires d.Valid()
  {
    var s := d.text[d.row];
    if |s| < MAX_LINE_LEN - 1 then Doc(d.text[d.row := s[..d.col] + [c] + s[d.col..]], d.row, d.col + 1)
    else d
  }

  function Entered(d: Doc): Doc
    requires d.Valid()
  {
    var s := d.text[d.row];
    if |d.text| < MAX_LINES then
      Doc(d.text[..d.row] + [s[..d.col], s[d.col..]] + d.text[d.row + 1..], d.row + 1, 0)
    else d
  }

  /** The lines of row and the one before do not fit into one. */
  predicate MergeBlocked(d: Doc)
    requires d.Valid()
  {
    d.col == 0 && d.row > 0 && |d.text[d.row - 1]| + |d.text[d.row]| >= MAX_LINE_LEN
  }

  function Erased(d: Doc): Doc
    requires d.Valid()
  {
    var s := d.text[d.row];
    if d.col > 0 then Doc(d.text[d.row := s[..d.col - 1] + s[d.col..]], d.row, d.col - 1)
    else if d.row > 0 && !MergeBlocked(d) then
      var p := d.text[d.row - 1];
      Doc(d.text[..d.row - 1] + [p + s] + d.text[d.row + 1..], d.row - 1, |p|)
    else d
  }

  function WentLeft(d: Doc): Doc
    requires d.Valid()
  {
    if d.col > 0 then d.(col := d.col - 1)
    else if d.row > 0 then d.(row := d.row - 1, col := |d.text[d.row - 1]|)
    else d
  }

  function WentRight(d: Doc): Doc
    requires d.Valid()
  {
    if d.col < |d.text[d.row]| then d.(col := d.col + 1)
    else if d.row < |d.text| - 1 then d.(row := d.row + 1, col := 0)
    else d
  }

  function Clamped(d: Doc, row: nat): Doc
    requires row < |d.text|
  {
    d.(row := row, col := if d.col > |d.text[row]| then |d.text[row]| else d.col)
  }

  function WentUp(d: Doc): Doc
    requires d.Valid()
  {
    if d.row > 0 then Clamped(d, d.row - 1) else d
  }

  function WentDown(d: Doc): Doc
    requires d.Valid()
  {
    if d.row < |d.text| - 1 then Clamped(d, d.row + 1) else d
  }

  // ----- Each key on the flat text -----------------------------------------------------

  /** The flat editor: one character in, the one before the cursor out, or a step. */
  function Put(f: Flat, c: char): Flat
    requires f.at <= |f.text|
  {
    Flat(f.text[..f.at] + [c] + f.text[f.at..], f.at + 1)
  }

  function Take(f: Flat): Flat
    requires 0 < f.at <= |f.text|
  {
    Flat(f.text[..f.at - 1] + f.text[f.at..], f.at - 1)
  }

  /** A printable character goes in at the cursor, unless the line is full. */
  lemma TypedInserts(d: Doc, c: char)
    requires d.Valid() && c != '\0' && c != '\n'
    ensures Typed(d, c).Valid() && View(d).at <= |View(d).text|
    ensures if |d.text[d.row]| < MAX_LINE_LEN - 1 then View(Typed(d, c)) == Put(View(d), c) else Typed(d, c) == d
  {
    hide Join, Offset, Lead, Trail;
    var e := Typed(d, c);
    Halves(d);
    if e != d {
      assert e.text[..d.row] == d.text[..d.row] && e.text[d.row + 1..] == d.text[d.row + 1..];
      assert Before(e) == Before(d) + [c];
      assert Behind(e) == Behind(d);
      Halves(e);
    }
  }

  /** Enter puts in a newline, unless all lines are taken. */
  lemma EnteredInserts(d: Doc)
    requires d.Valid()
    ensures Entered(d).Valid() && View(d).at <= |View(d).text|
    ensures if |d.text| < MAX_LINES then View(Entered(d)) == Put(View(d), '\n') else Entered(d) == d
  {
    hide Join, Offset, Lead, Trail;
    var e := Entered(d);
    Halves(d);
    if e != d {
      var s := d.text[d.row];
      LeadSnoc(d.text[..d.row], s[..d.col]);
      assert e.text[..e.row] == d.text[..d.row] + [s[..d.col]] && e.text[e.row + 1..] == d.text[d.row + 1..];
      assert Before(e) == Before(d) + ['\n'];
      assert Behind(e) == Behind(d);
      Halves(e);
    }
  }

  lemma TopLeft(d: Doc)
    requires d.Valid() && d.row == 0 && d.col == 0
    ensures Before(d) == []
  {
  }

  lemma ErasedInLine(d: Doc)
    requires d.Valid() && d.col > 0
    ensures var e := Erased(d);
            && e.Valid() && !MergeBlocked(d)
            && Before(d) == Before(e) + [d.text[d.row][d.col - 1]] && Behind(e) == Behind(d)
  {
    hide Lead, Trail;
    var e := Erased(d);
    assert e.text[..d.row] == d.text[..d.row] && e.text[d.row + 1..] == d.text[d.row + 1..];
  }

  lemma ErasedAcrossLines(d: Doc)
    requires d.Valid() && d.col == 0 && d.row > 0
    ensures Before(d) != []
    ensures var e := Erased(d);
            if MergeBlocked(d) then e == d
            else e.Valid() && Before(d) == Before(e) + ['\n'] && Behind(e) == Behind(d)
  {
    hide Lead, Trail;
    var e := Erased(d);
    LeadSnoc(d.text[..d.row - 1], d.text[d.row - 1]);
    assert d.text[..d.row] == d.text[..d.row - 1] + [d.text[d.row - 1]];
    if !MergeBlocked(d) {
      assert e.text[..e.row] == d.text[..d.row - 1] && e.text[e.row + 1..] == d.text[d.row + 1..];
    }
  }

  /** Backspace takes out the character or newline before the cursor; at the start
      of the text, or when the two lines do not fit into one, it does nothing. */
  lemma ErasedDeletes(d: Doc)
    requires d.Valid()
    ensures Erased(d).Valid() && View(d).at <= |View(d).text|
    ensures View(d).at == 0 <==> d.row == 0 && d.col == 0
    ensures if View(d).at == 0 || MergeBlocked(d) then Erased(d) == d else View(Erased(d)) == Take(View(d))
  {
    hide Join, Offset, Lead, Trail, Before, Behind, MergeBlocked;
    Halves(d);
    if d.col > 0 {
      ErasedInLine(d);
      Halves(Erased(d));
    } else if d.row > 0 {
      ErasedAcrossLines(d);
      if !MergeBlocked(d) { Halves(Erased(d)); }
    } else {
      TopLeft(d);
    }
  }

  /** Left steps over one character or newline. */
  lemma LeftSteps(d: Doc)
    requires d.Valid()
    ensures WentLeft(d).Valid() && WentLeft(d).text == d.text
    ensures View(WentLeft(d)).at == if View(d).at == 0 then 0 else View(d).at - 1
  {
    hide Join, Offset, Trail;
    var e := WentLeft(d);
    Halves(d);
    Halves(e);
    if d.col == 0 && d.row > 0 {
      LeadSnoc(d.text[..d.row - 1], d.text[d.row - 1]);
      assert d.text[..d.row] == d.text[..d.row - 1] + [d.text[d.row - 1]];
    }
  }

  /** Right steps over one character or newline, up to the end. */
  lemma RightSteps(d: Doc)
    requires d.Valid()
    ensures WentRight(d).Valid() && WentRight(d).text == d.text
    ensures View(WentRight(d)).at == if View(d).at == |View(d).text| then View(d).at else View(d).at + 1
  {
    hide Join, Offset, Lead;
    var e := WentRight(d);
    Halves(d);
    Halves(e);
    if e == d {
      assert d.text[d.row + 1..] == [];
    } else {
      LeftSteps(e);
    }
  }

  /** The same column, or the end of a line that is shorter. */
  predicate IsColumnIn(s: Line, col: nat, c: nat) {
    c <= col && c <= |s| && (c < col ==> c == |s|)
  }

  lemma NextRow(text: seq<Line>, row: nat)
    requires row < |text|
    ensures Offset(text, row + 1, 0) == Offset(text, row, |text[row]|) + 1
  {
    LeadSnoc(text[..row], text[row]);
    assert text[..row + 1] == text[..row] + [text[row]];
  }

  /** Up and Down go to the neighbouring row, to the same column or the line's end. */
  lemma RowSteps(d: Doc)
    requires d.Valid()
    ensures WentUp(d).Valid() && WentUp(d).text == d.text && View(WentUp(d)).at <= View(d).at
    ensures WentDown(d).Valid() && WentDown(d).text == d.text && View(d).at <= View(WentDown(d)).at
    ensures d.row > 0 ==> IsColumnIn(d.text[d.row - 1], d.col, WentUp(d).col) && WentUp(d).row == d.row - 1
    ensures d.row < |d.text| - 1 ==>
      IsColumnIn(d.text[d.row + 1], d.col, WentDown(d).col) && WentDown(d).row == d.row + 1
    ensures d.row > 0 && WentUp(d).col == d.col ==> WentDown(WentUp(d)) == d
    ensures d.row < |d.text| - 1 && WentDown(d).col == d.col ==> WentUp(WentDown(d)) == d
  {
    if d.row > 0 { NextRow(d.text, d.row - 1); }
    if d.row < |d.text| - 1 { NextRow(d.text, d.row); }
  }

  // ----- Undo ---------------------------------------------------------------------------

  lemma EraseUndoesType(d: Doc, c: char)
    requires d.Valid() && c != '\0' && c != '\n' && Typed(d, c) != d
    ensures Typed(d, c).Valid() && Erased(Typed(d, c)) == d
  {
    var s := d.text[d.row];
    var t := s[..d.col] + [c] + s[d.col..];
    assert t[..d.col] + t[d.col + 1..] == s;
    assert d.text[d.row := t][d.row := s] == d.text;
  }

  lemma EraseUndoesEnter(d: Doc)
    requires d.Valid() && Entered(d) != d
    ensures Entered(d).Valid() && Erased(Entered(d)) == d
  {
    var s, e := d.text[d.row], Entered(d);
    assert e.text[..e.row - 1] == d.text[..d.row] && e.text[e.row + 1..] == d.text[d.row + 1..];
    assert s[..d.col] + s[d.col..] == s;
    assert d.text == d.text[..d.row] + [s] + d.text[d.row + 1..];
  }

  // ----- Nothing is lost in the flat view --------------------------------------------------

  /** The first line ends at the first newline. */
  lemma FirstLineEnds(t: seq<Line>, u: seq<Line>)
    requires t != [] && u != [] && Join(t) == Join(u)
    requires forall s :: s in t || s in u ==> '\n' !in s
    ensures |u[0]| <= |t[0]|
  {
    assert forall i :: 0 <= i < |u[0]| ==> Join(u)[i] == u[0][i] && u[0][i] in u[0];
    assert |Join(t)| > |t[0]| ==> Join(t)[|t[0]|] == '\n';
  }

  lemma {:induction false} JoinDetermines(t: seq<Line>, u: seq<Line>)
    requires t != [] && u != [] && Join(t) == Join(u)
    requires forall s :: s in t || s in u ==> '\n' !in s
    ensures t == u
  {
    FirstLineEnds(t, u);
    FirstLineEnds(u, t);
    assert t[0] == Join(t)[..|t[0]|] && u[0] == Join(u)[..|u[0]|];
    assert Trail(t[1..]) == Join(t)[|t[0]|..] && Trail(u[1..]) == Join(u)[|u[0]|..];
    if |t| > 1 && |u| > 1 {
      JoinCons(t);
      JoinCons(u);
      assert Join(t[1..]) == Join(t)[|t[0]| + 1..] && Join(u[1..]) == Join(u)[|u[0]| + 1..];
      JoinDetermines(t[1..], u[1..]);
    }
    assert t == [t[0]] + t[1..] && u == [u[0]] + u[1..];
  }

  lemma {:induction false} RowsApart(text: seq<Line>, i: nat, j: nat)
    requires i < j < |text|
    ensures Offset(text, i, |text[i]|) < Offset(text, j, 0)
  {
    NextRow(text, j - 1);
    if i < j - 1 { RowsApart(text, i, j - 1); }
  }

  /** Two documents with the same flat text and cursor are the same. */
  lemma ViewDetermines(d: Doc, e: Doc)
    requires d.Valid() && e.Valid() && View(d) == View(e)
    ensures d == e
  {
    JoinDetermines(d.text, e.text);
    if d.row < e.row { RowsApart(d.text, d.row, e.row); }
    if e.row < d.row { RowsApart(d.text, e.row, d.row); }
  }

  // ----- Keys -----------------------------------------------------------------------------

  datatype Key = Type(c: char) | Enter | Backspace | Left | Right | Up | Down

  predicate Printable(c: char) { ' ' <= c <= '~' }

  function After(d: Doc, k: Key): Doc
    requires d.Valid() && (k.Type? ==> Printable(k.c))
  {
    match k
    case Type(c) => Typed(d, c)
    case Enter => Entered(d)
    case Backspace => Erased(d)
    case Left => WentLeft(d)
    case Right => WentRight(d)
    case Up => WentUp(d)
    case Down => WentDown(d)
  }

  // ----- The flat editor ------------------------------------------------------------------

  /** What follows the last newline, and what comes before the first. */
  function LastLine(t: seq<char>): (s: Line)
    ensures |s| <= |t|
  {
    if t == [] || t[|t| - 1] == '\n' then [] else LastLine(t[..|t| - 1]) + [t[|t| - 1]]
  }

  function FirstLine(t: seq<char>): (s: Line)
    ensures |s| <= |t|
  {
    if t == [] || t[0] == '\n' then [] else [t[0]] + FirstLine(t[1..])
  }

  function Newlines(file: seq<char>): nat {
    if file == [] then 0
    else Newlines(file[..|file| - 1]) + if file[|file| - 1] == '\n' then 1 else 0
  }

  function Least(a: nat, b: nat): nat { if a < b then a else b }

  /** What each key does to a text with one cursor, said without any lines: a
      character goes in while the stretch between two newlines has room, a newline
      while there are fewer than 999, and the newline before the cursor goes
      unless the stretches around it are too long for one. */
  function FlatAfter(f: Flat, k: Key): (g: Flat)
    requires f.at <= |f.text|
    ensures g.at <= |g.text|
  {
    var a, b := f.text[..f.at], f.text[f.at..];
    var left, right := |LastLine(a)|, |FirstLine(b)|;
    match k
    case Type(c) => if left + right < MAX_LINE_LEN - 1 then Put(f, c) else f
    case Enter => if Newlines(f.text) < MAX_LINES - 1 then Put(f, '\n') else f
    case Backspace =>
      if f.at == 0 then f
      else if f.text[f.at - 1] == '\n' && |LastLine(a[..f.at - 1])| + right >= MAX_LINE_LEN then f
      else Take(f)
    case Left => if f.at == 0 then f else Flat(f.text, f.at - 1)
    case Right => if f.at == |f.text| then f else Flat(f.text, f.at + 1)
    case Up =>
      if left == f.at then f
      else
        var before := |LastLine(a[..f.at - left - 1])|;
        Flat(f.text, f.at - left - 1 - before + Least(left, before))
    case Down =>
      if right == |b| then f
      else
        Flat(f.text, f.at + right + 1 + Least(left, |FirstLine(b[right + 1..])|))
  }

  lemma {:induction false} LastLineOf(lead: seq<char>, s: Line)
    requires '\n' !in s && (lead == [] || lead[|lead| - 1] == '\n')
    ensures LastLine(lead + s) == s
  {
    if s != [] {
      var n := |s| - 1;
      LastLineOf(lead, s[..n]);
      assert (lead + s)[..|lead + s| - 1] == lead + s[..n];
      assert s[n] in s;
    } else {
      assert lead + s == lead;
    }
  }

  lemma {:induction false} FirstLineOf(s: Line, trail: seq<char>)
    requires '\n' !in s && (trail == [] || trail[0] == '\n')
    ensures FirstLine(s + trail) == s
  {
    if s != [] {
      FirstLineOf(s[1..], trail);
      assert (s + trail)[1..] == s[1..] + trail;
      assert s[0] in s;
    } else {
      assert s + trail == trail;
    }
  }

  lemma {:induction false} LeadEnds(pre: seq<Line>)
    ensures Lead(pre) == [] || Lead(pre)[|Lead(pre)| - 1] == '\n'
  {
    if pre != [] { LeadEnds(pre[1..]); }
  }

  /** The line of the cursor, read off the flat text. */
  lemma CursorLine(d: Doc)
    requires d.Valid()
    ensures var s := d.text[d.row];
            LastLine(Before(d)) == s[..d.col] && FirstLine(Behind(d)) == s[d.col..]
  {
    var s := d.text[d.row];
    LeadEnds(d.text[..d.row]);
    LastLineOf(Lead(d.text[..d.row]), s[..d.col]);
    FirstLineOf(s[d.col..], Trail(d.text[d.row + 1..]));
  }

  /** And the lines above and below it. */
  lemma LineAbove(d: Doc)
    requires d.Valid() && d.row > 0
    ensures var p, lead := d.text[d.row - 1], Lead(d.text[..d.row - 1]);
            && Before(d) == lead + p + ['\n'] + d.text[d.row][..d.col]
            && LastLine(lead + p) == p
  {
    var p := d.text[d.row - 1];
    LeadSnoc(d.text[..d.row - 1], p);
    assert d.text[..d.row] == d.text[..d.row - 1] + [p];
    LeadEnds(d.text[..d.row - 1]);
    LastLineOf(Lead(d.text[..d.row - 1]), p);
  }

  lemma LineBelow(d: Doc)
    requires d.Valid() && d.row < |d.text| - 1
    ensures var n, trail := d.text[d.row + 1], Trail(d.text[d.row + 2..]);
            && Behind(d) == d.text[d.row][d.col..] + (['\n'] + (n + trail))
            && FirstLine(n + trail) == n
  {
    var n := d.text[d.row + 1];
    assert d.text[d.row + 1..][1..] == d.text[d.row + 2..];
    FirstLineOf(n, Trail(d.text[d.row + 2..]));
  }

  lemma {:induction false} NewlinesJoined(a: seq<char>, b: seq<char>)
    ensures Newlines(a + b) == Newlines(a) + Newlines(b)
  {
    if b == [] {
      assert a + b == a;
    } else {
      NewlinesJoined(a, b[..|b| - 1]);
      assert (a + b)[..|a + b| - 1] == a + b[..|b| - 1];
    }
  }

  lemma {:induction false} NoNewlines(s: Line)
    requires '\n' !in s
    ensures Newlines(s) == 0
  {
    if s != [] {
      NoNewlines(s[..|s| - 1]);
      assert s[|s| - 1] in s;
    }
  }

  /** One newline less than there are lines. */
  lemma {:induction false} NewlinesOfLines(text: seq<Line>)
    requires text != [] && forall i :: 0 <= i < |text| ==> '\n' !in text[i]
    ensures Newlines(Join(text)) == |text| - 1
  {
    NoNewlines(text[0]);
    if |text| == 1 {
      assert Join(text) == text[0];
    } else {
      JoinCons(text);
      NewlinesOfLines(text[1..]);
      NewlinesJoined(text[0] + ['\n'], Join(text[1..]));
      NewlinesJoined(text[0], ['\n']);
      assert ['\n'][..0] == [] && Newlines(['\n']) == 1;
    }
  }

  // ----- Every key is a step of the flat editor ------------------------------------------

  lemma TypeIsFlat(d: Doc, c: char)
    requires d.Valid() && Printable(c)
    ensures Typed(d, c).Valid() && View(d).at <= |View(d).text|
    ensures View(Typed(d, c)) == FlatAfter(View(d), Type(c))
  {
    hide Join, Offset, Lead, Trail, LastLine, FirstLine, Before, Behind;
    Halves(d);
    CursorLine(d);
    TypedInserts(d, c);
  }

  lemma EnterIsFlat(d: Doc)
    requires d.Valid()
    ensures Entered(d).Valid() && View(d).at <= |View(d).text|
    ensures View(Entered(d)) == FlatAfter(View(d), Enter)
  {
    hide Join, Offset, Lead, Trail, LastLine, FirstLine, Newlines;
    EnteredInserts(d);
    NewlinesOfLines(d.text);
  }

  lemma BackspaceIsFlat(d: Doc)
    requires d.Valid()
    ensures Erased(d).Valid() && View(d).at <= |View(d).text|
    ensures View(Erased(d)) == FlatAfter(View(d), Backspace)
  {
    hide Join, Offset, Lead, Trail, LastLine, FirstLine, Before, Behind, Take;
    Halves(d);
    CursorLine(d);
    ErasedDeletes(d);
    var s, f := d.text[d.row], View(d);
    if d.col > 0 {
      ErasedInLine(d);
      assert s[d.col - 1] in s;
    } else if d.row > 0 {
      LineAbove(d);
      assert f.text[..f.at][..f.at - 1] == Lead(d.text[..d.row - 1]) + d.text[d.row - 1];
    }
  }

  lemma TopRow(d: Doc)
    requires d.Valid() && d.row == 0
    ensures |Before(d)| == d.col
  {
  }

  lemma UpIsFlat(d: Doc)
    requires d.Valid()
    ensures WentUp(d).Valid() && View(d).at <= |View(d).text|
    ensures View(WentUp(d)) == FlatAfter(View(d), Up)
  {
    hide Join, Lead, Trail, LastLine, FirstLine, Before, Behind;
    var f := View(d);
    Halves(d);
    CursorLine(d);
    RowSteps(d);
    if d.row > 0 {
      LineAbove(d);
      var p, lead := d.text[d.row - 1], Lead(d.text[..d.row - 1]);
      assert f.text[..f.at][..f.at - d.col - 1] == lead + p;
    } else {
      TopRow(d);
    }
  }

  lemma BottomRow(d: Doc)
    requires d.Valid() && d.row == |d.text| - 1
    ensures Behind(d) == d.text[d.row][d.col..]
  {
    assert d.text[d.row + 1..] == [];
  }

  lemma DownIsFlat(d: Doc)
    requires d.Valid()
    ensures WentDown(d).Valid() && View(d).at <= |View(d).text|
    ensures View(WentDown(d)) == FlatAfter(View(d), Down)
  {
    hide Join, Lead, Trail, LastLine, FirstLine, Before, Behind;
    var f, s := View(d), d.text[d.row];
    Halves(d);
    CursorLine(d);
    RowSteps(d);
    assert f.text[f.at..] == Behind(d) && f.text[..f.at] == Before(d);
    if d.row < |d.text| - 1 {
      LineBelow(d);
      var n, trail := d.text[d.row + 1], Trail(d.text[d.row + 2..]);
      assert Behind(d)[|s| - d.col + 1..] == n + trail;
      NextRow(d.text, d.row);
    } else {
      BottomRow(d);
    }
  }

  lemma KeyRefines(d: Doc, k: Key)
    requires d.Valid() && (k.Type? ==> Printable(k.c))
    ensures After(d, k).Valid() && View(d).at <= |View(d).text| && View(After(d, k)) == FlatAfter(View(d), k)
  {
    hide Join, Offset, Put, Take, Typed, Entered, Erased, WentLeft, WentRight, WentUp, WentDown, LastLine, FirstLine,
         Newlines;
    Halves(d);
    match k
    case Type(c) => TypeIsFlat(d, c);
    case Enter => EnterIsFlat(d);
    case Backspace => BackspaceIsFlat(d);
    case Left => LeftSteps(d);
    case Right => RightSteps(d);
    case Up => UpIsFlat(d);
    case Down => DownIsFlat(d);
  }

  // ----- Runs -----------------------------------------------------------------------------

  ghost predicate IsStep(d: Doc, k: Key, e: Doc) {
    && (k.Type? ==> Printable(k.c))
    && (d.Valid() ==> e == After(d, k))
  }

  function FlatRun(f: Flat, keys: seq<Key>): (g: Flat)
    requires f.at <= |f.text|
    ensures g.at <= |g.text|
  {
    if keys == [] then f else FlatAfter(FlatRun(f, keys[..|keys| - 1]), keys[|keys| - 1])
  }

  lemma CursorInside(d: Doc)
    requires d.Valid()
    ensures View(d).at <= |View(d).text|
  {
    Halves(d);
  }

  /** Along any run of keys every document is well formed, and the flat texts are
      exactly those of the flat editor. */
  lemma {:induction false} RunsRefine(docs: seq<Doc>, keys: seq<Key>, n: nat)
    requires |docs| == |keys| + 1 && docs[0].Valid() && n < |docs|
    requires forall i :: 0 <= i < |keys| ==> IsStep(docs[i], keys[i], docs[i + 1])
    ensures docs[n].Valid() && View(docs[0]).at <= |View(docs[0]).text|
    ensures FlatRun(View(docs[0]), keys[..n]) == View(docs[n])
  {
    hide After, View, FlatAfter;
    CursorInside(docs[0]);
    if n > 0 {
      assert keys[..n][..n - 1] == keys[..n - 1] && keys[..n][n - 1] == keys[n - 1];
      RunsRefine(docs, keys, n - 1);
      assert IsStep(docs[n - 1], keys[n - 1], docs[n - 1 + 1]);
      KeyRefines(docs[n - 1], keys[n - 1]);
    }
  }

  // ----- Loading --------------------------------------------------------------------------

  /** The lines that load_file has ended so far, and the one it is filling. */
  datatype Loading = Loading(done: seq<Line>, part: Line)

  /** One byte of the file; after the thousandth line the loop has stopped. */
  function Fed(l: Loading, c: char): Loading {
    if |l.done| >= MAX_LINES then l
    else if c == '\n' then Loading(l.done + [l.part], [])
    else if c != '\r' && |l.part| < MAX_LINE_LEN - 1 then l.(part := l.part + [c])
    else l
  }

  function LoadState(file: seq<char>): Loading {
    if file == [] then Loading([], []) else Fed(LoadState(file[..|file| - 1]), file[|file| - 1])
  }

  predicate EndsInNewline(file: seq<char>) {
    file != [] && file[|file| - 1] == '\n'
  }

  function Loaded(file: seq<char>): (text: seq<Line>)
    ensures text != []
  {
    var l := LoadState(file);
    var text := if l.part != [] || EndsInNewline(file) then l.done + [l.part] else l.done;
    if text == [] then [[]] else text
  }

  lemma {:induction false} LoadCounts(file: seq<char>)
    ensures var l := LoadState(file);
            && |l.done| == (if Newlines(file) < MAX_LINES then Newlines(file) else MAX_LINES)
            && (|l.done| == MAX_LINES ==> l.part == [])
  {
    if file != [] { LoadCounts(file[..|file| - 1]); }
  }

  /** load_file stays within its thousand rows exactly when the file has fewer than
      a thousand newlines or does not end in one. */
  lemma LoadFits(file: seq<char>)
    ensures |Loaded(file)| <= MAX_LINES <==> Newlines(file) < MAX_LINES || !EndsInNewline(file)
  {
    LoadCounts(file);
  }

  lemma LoadNext(file: seq<char>, i: nat)
    requires i < |file|
    ensures LoadState(file[..i + 1]) == Fed(LoadState(file[..i]), file[i])
  {
    assert file[..i + 1][..i] == file[..i];
  }

  /** Once the rows are full the rest of the file does not matter. */
  lemma {:induction false} LoadStops(file: seq<char>, i: nat)
    requires i <= |file| && |LoadState(file[..i]).done| >= MAX_LINES
    ensures LoadState(file) == LoadState(file[..i])
    decreases |file| - i
  {
    if i == |file| {
      assert file[..i] == file;
    } else {
      LoadNext(file, i);
      LoadStops(file, i + 1);
    }
  }

  /** A C string ends at its first null character. */
  function Cut(s: Line): (c: Line)
    ensures c <= s && '\0' !in c && (|c| < |s| ==> s[|c|] == '\0')
  {
    if s == [] || s[0] == '\0' then [] else [s[0]] + Cut(s[1..])
  }

  function CutAll(text: seq<Line>): (cut: seq<Line>)
    ensures |cut| == |text|
  {
    seq(|text|, i requires 0 <= i < |text| => Cut(text[i]))
  }

  predicate Short(s: Line) { |s| < MAX_LINE_LEN && '\n' !in s }

  lemma {:induction false} LoadedShort(file: seq<char>)
    ensures var l := LoadState(file); Short(l.part) && forall i :: 0 <= i < |l.done| ==> Short(l.done[i])
  {
    if file != [] {
      LoadedShort(file[..|file| - 1]);
    }
  }

  /** Whatever was loaded can be edited, if it fits the rows. */
  lemma LoadedValid(file: seq<char>)
    requires Newlines(file) < MAX_LINES || !EndsInNewline(file)
    ensures Doc(CutAll(Loaded(file)), 0, 0).Valid()
  {
    LoadFits(file);
    LoadedShort(file);
    var text := Loaded(file);
    forall i | 0 <= i < |text| ensures LineOk(Cut(text[i])) {
      assert Short(text[i]);
      var c := Cut(text[i]);
      assert forall x :: x in c ==> x in text[i];
    }
  }

  predicate LineLoads(s: Line) {
    |s| < MAX_LINE_LEN && '\n' !in s && '\r' !in s
  }

  predicate Loadable(text: seq<Line>) {
    forall i :: 0 <= i < |text| ==> LineLoads(text[i])
  }

  /** A line without its carriage returns. */
  function WithoutReturns(s: Line): (t: Line)
    ensures '\r' !in t && (forall c :: c in t <==> c in s && c != '\r')
    ensures '\r' !in s ==> t == s
  {
    if s == [] then []
    else
      var n := |s| - 1;
      assert forall c :: c in s <==> c in s[..n] || c == s[n];
      WithoutReturns(s[..n]) + if s[n] == '\r' then [] else [s[n]]
  }

  function Fitting(s: Line, room: nat): Line {
    if |s| <= room then s else s[..room]
  }

  /** What load_file keeps of a line: the first 255 of its other characters. */
  function Kept(s: Line): Line {
    Fitting(WithoutReturns(s), MAX_LINE_LEN - 1)
  }

  function KeptAll(text: seq<Line>): (kept: seq<Line>)
    ensures |kept| == |text|
  {
    seq(|text|, i requires 0 <= i < |text| => Kept(text[i]))
  }

  lemma KeptNext(s: Line)
    requires s != []
    ensures var n := |s| - 1;
            Kept(s) == if s[n] != '\r' && |Kept(s[..n])| < MAX_LINE_LEN - 1 then Kept(s[..n]) + [s[n]] else Kept(s[..n])
  {
  }

  lemma {:induction false} OneMoreCharacter(lead: seq<char>, kept: seq<Line>, s: Line)
    requires '\n' !in s && s != [] && |kept| < MAX_LINES
    requires LoadState(lead + s[..|s| - 1]) == Loading(kept, Kept(s[..|s| - 1]))
    ensures LoadState(lead + s) == Loading(kept, Kept(s))
  {
    hide Kept;
    var n := |s| - 1;
    KeptNext(s);
    assert (lead + s)[..|lead + s| - 1] == lead + s[..n];
    assert s[n] in s && s[..n] + [s[n]] == s;
  }

  predicate NoNewline(text: seq<Line>) {
    forall i :: 0 <= i < |text| ==> '\n' !in text[i]
  }

  lemma {:induction false} LoadedSoFar(pre: seq<Line>, s: Line)
    requires NoNewline(pre) && '\n' !in s && (|pre| < MAX_LINES || (|pre| == MAX_LINES && s == []))
    ensures LoadState(Lead(pre) + s) == Loading(KeptAll(pre), Kept(s))
    decreases |pre|, |s|
  {
    if s != [] {
      assert forall c :: c in s[..|s| - 1] ==> c in s;
      LoadedSoFar(pre, s[..|s| - 1]);
      OneMoreCharacter(Lead(pre), KeptAll(pre), s);
    } else if pre != [] {
      var n := |pre| - 1;
      LoadedSoFar(pre[..n], pre[n]);
      LeadSnoc(pre[..n], pre[n]);
      assert pre == pre[..n] + [pre[n]];
      assert KeptAll(pre) == KeptAll(pre[..n]) + [Kept(pre[n])];
      assert (Lead(pre) + s)[..|Lead(pre) + s| - 1] == Lead(pre[..n]) + pre[n];
    }
  }

  lemma NothingKept()
    ensures Kept([]) == []
  {
  }

  /** What any file of up to a thousand lines loads as: of every line the first 255
      characters other than carriage returns. Only a last line of nothing but
      carriage returns is dropped, if it is not the only one. */
  lemma LoadsLines(text: seq<Line>)
    requires text != [] && NoNewline(text)
    requires |text| <= MAX_LINES || (|text| == MAX_LINES + 1 && text[MAX_LINES] == [])
    ensures var n := |text| - 1;
            Loaded(Join(text)) ==
            if n > 0 && text[n] != [] && Kept(text[n]) == [] then KeptAll(text[..n]) else KeptAll(text)
  {
    hide Kept;
    var n := |text| - 1;
    var pre, s := text[..n], text[n];
    assert text == pre + [s] == pre + [s] + [];
    JoinAround(pre, s, []);
    LoadedSoFar(pre, s);
    assert Join(text) == Lead(pre) + s;
    assert KeptAll(text) == KeptAll(pre) + [Kept(s)];
    if n > 0 {
      LeadSnoc(pre[..n - 1], pre[n - 1]);
      assert pre == pre[..n - 1] + [pre[n - 1]];
    }
    if s != [] { assert s[|s| - 1] in s; }
    NothingKept();
  }

  lemma KeptWhole(text: seq<Line>)
    requires Loadable(text)
    ensures NoNewline(text) && KeptAll(text) == text
  {
    forall i | 0 <= i < |text| ensures Kept(text[i]) == text[i] {
      assert LineLoads(text[i]);
    }
  }

  /** Loading undoes joining: up to a thousand lines, each short enough, come back
      as they were. */
  lemma LoadInvertsJoin(text: seq<Line>)
    requires text != [] && Loadable(text) && (|text| <= MAX_LINES || (|text| == MAX_LINES + 1 && text[MAX_LINES] == []))
    ensures Loaded(Join(text)) == text
  {
    hide Kept, Loaded;
    KeptWhole(text);
    LoadsLines(text);
    assert KeptAll(text)[|text| - 1] == text[|text| - 1];
  }

  // ----- Saving ---------------------------------------------------------------------------

  const SAVE_LIMIT := 32766

  /** What save_file has put into its buffer after the first i lines. */
  function SavedUpTo(text: seq<Line>, i: nat): seq<char>
    requires i <= |text|
  {
    if i == 0 then []
    else
      var prev := SavedUpTo(text, i - 1);
      if |prev| < SAVE_LIMIT then prev + Fitting(text[i - 1], SAVE_LIMIT - |prev|) + ['\n'] else prev
  }

  function Saved(text: seq<Line>): seq<char> { SavedUpTo(text, |text|) }

  lemma NextLead(text: seq<Line>, i: nat)
    requires i < |text|
    ensures Lead(text[..i + 1]) == Lead(text[..i]) + text[i] + ['\n']
  {
    LeadSnoc(text[..i], text[i]);
    assert text[..i + 1] == text[..i] + [text[i]];
  }

  lemma {:induction false} SavedWhole(text: seq<Line>, i: nat)
    requires i <= |text|
    ensures |SavedUpTo(text, i)| <= SAVE_LIMIT + 1
    ensures SavedUpTo(text, i) == Lead(text[..i]) <==>
      i == 0 || (|Lead(text[..i - 1])| < SAVE_LIMIT && |Lead(text[..i])| <= SAVE_LIMIT + 1)
  {
    if i > 0 {
      SavedWhole(text, i - 1);
      NextLead(text, i - 1);
      if i > 1 { NextLead(text, i - 2); }
    }
  }

  /** What fits into the buffer of `all`, cut behind SAVE_LIMIT characters and ended
      in a newline. */
  function CutOff(all: seq<char>): seq<char> {
    if |all| <= SAVE_LIMIT then all
    else if all[SAVE_LIMIT - 1] == '\n' then all[..SAVE_LIMIT]
    else all[..SAVE_LIMIT] + ['\n']
  }

  lemma LeadEndsInNewline(text: seq<Line>, i: nat)
    requires 0 < i <= |text|
    ensures var l := Lead(text[..i]); l != [] && l[|l| - 1] == '\n'
  {
    NextLead(text, i - 1);
  }

  lemma NextCutOff(lead: seq<char>, s: Line)
    requires '\n' !in s && (lead != [] ==> lead[|lead| - 1] == '\n')
    ensures CutOff(lead + s + ['\n'])
         == if |CutOff(lead)| < SAVE_LIMIT then lead + Fitting(s, SAVE_LIMIT - |lead|) + ['\n'] else CutOff(lead)
    ensures |CutOff(lead)| < SAVE_LIMIT ==> CutOff(lead) == lead
  {
    var all := lead + s + ['\n'];
    if |lead| < SAVE_LIMIT {
      var room := SAVE_LIMIT - |lead|;
      if |s| >= room {
        assert s[room - 1] in s && all[SAVE_LIMIT - 1] == s[room - 1];
        assert all[..SAVE_LIMIT] == lead + s[..room];
        assert s[..room] == Fitting(s, room);
      }
    } else {
      assert all[..SAVE_LIMIT] == lead[..SAVE_LIMIT] && all[SAVE_LIMIT - 1] == lead[SAVE_LIMIT - 1];
    }
  }

  lemma {:induction false} SavedCutOff(text: seq<Line>, i: nat)
    requires i <= |text| && NoNewline(text)
    ensures SavedUpTo(text, i) == CutOff(Lead(text[..i]))
  {
    if i > 0 {
      SavedCutOff(text, i - 1);
      NextLead(text, i - 1);
      if i > 1 { LeadEndsInNewline(text, i - 1); }
      NextCutOff(Lead(text[..i - 1]), text[i - 1]);
    }
  }

  /** What is saved of any document: all of it with a newline at the end, or its
      first 32766 characters, with a newline at the end. */
  lemma SavedExact(text: seq<Line>)
    requires text != [] && NoNewline(text)
    ensures var all := Join(text) + ['\n'];
            Saved(text) == if |all| <= 32766 then all
                           else if all[32765] == '\n' then all[..32766] else all[..32766] + ['\n']
  {
    var n := |text| - 1;
    SavedCutOff(text, n + 1);
    NextLead(text, n);
    JoinAround(text[..n], text[n], []);
    assert text[..n + 1] == text == text[..n] + [text[n]] + [];
  }

  /** Once the buffer is full no further line goes in. */
  lemma {:induction false} SaveStops(text: seq<Line>, i: nat)
    requires i <= |text| && |SavedUpTo(text, i)| >= SAVE_LIMIT
    ensures Saved(text) == SavedUpTo(text, i)
    decreases |text| - i
  {
    if i < |text| { SaveStops(text, i + 1); }
  }

  /** Saving keeps the whole text, and ends it in a newline, exactly when it fits
      the buffer; anything longer is cut off without an error. */
  lemma SaveComplete(text: seq<Line>)
    requires text != []
    ensures Saved(text) == Join(text) + ['\n'] <==>
      |Join(text)| < SAVE_LIMIT || (|Join(text)| == SAVE_LIMIT && text[|text| - 1] != [])
  {
    var n := |text| - 1;
    SavedWhole(text, n + 1);
    NextLead(text, n);
    JoinAround(text[..n], text[n], []);
    assert text[..n + 1] == text == text[..n] + [text[n]] + [];
  }

  lemma SavedIsJoin(text: seq<Line>)
    requires text != []
    ensures Join(text) + ['\n'] == Join(text + [[]])
  {
    var n := |text| - 1;
    JoinAround(text, [], []);
    JoinAround(text[..n], text[n], []);
    NextLead(text, n);
    assert text[..n + 1] == text == text[..n] + [text[n]] + [];
    assert text + [[]] + [] == text + [[]];
  }

  /** Saving and loading again: the same lines and one empty line more. With all
      thousand lines in use the reload runs over the end of the rows. */
  lemma SaveThenLoad(text: seq<Line>)
    requires text != [] && Loadable(text) && |text| <= MAX_LINES && Saved(text) == Join(text) + ['\n']
    ensures Loaded(Saved(text)) == text + [[]]
    ensures Newlines(Saved(text)) < MAX_LINES || !EndsInNewline(Saved(text)) <==> |text| < MAX_LINES
  {
    hide Saved, Loaded, Newlines, EndsInNewline;
    SavedIsJoin(text);
    LoadInvertsJoin(text + [[]]);
    LoadFits(Saved(text));
  }
}
