/** The editor's line buffer as it is stored: fixed rows of characters, each ended by a
    NUL, that the keys change in place. */
module Editor {
  import opened EditorText

  const NUL: char := '\0'

  // --------------------------------------------------------------------- rows

  /** The place of the first NUL, the length if there is none. */
  ghost function Len(row: seq<char>): (n: nat)
    ensures n <= |row| && (n < |row| ==> row[n] == NUL)
    ensures forall j :: 0 <= j < n ==> row[j] != NUL
  {
    if row == [] || row[0] == NUL then 0 else 1 + Len(row[1..])
  }

  ghost predicate IsRow(row: seq<char>) {
    |row| == MAX_COLS && Len(row) < MAX_COLS
  }

  ghost function Line(row: seq<char>): (l: string)
    ensures |l| == Len(row)
  {
    row[..Len(row)]
  }

  /** A row is known by its line: the characters up to a NUL. */
  lemma RowIs(row: seq<char>, l: string)
    requires |row| == MAX_COLS && |l| < MAX_COLS && row[..|l|] == l && row[|l|] == NUL
    requires forall j :: 0 <= j < |l| ==> l[j] != NUL
    ensures IsRow(row) && Line(row) == l
  {
    forall j | 0 <= j < |l| ensures row[j] != NUL {
      assert row[j] == row[..|l|][j];
    }
    assert Len(row) == |l|;
  }

  method StrLen(row: seq<char>) returns (n: nat)
    requires IsRow(row)
    ensures n == Len(row)
  {
    n := 0;
    while row[n] != NUL
      invariant n <= Len(row)
      decreases |row| - n
    {
      n := n + 1;
    }
  }

  /** The shift right of an insertion, NUL included, and the store of the character. */
  method OpenGap(row: seq<char>, at: nat, c: char) returns (r: seq<char>)
    requires IsRow(row) && at <= Len(row) < MAX_COLS - 1 && c != NUL
    ensures IsRow(r) && Line(r) == Line(row)[..at] + [c] + Line(row)[at..]
  {
    var len := StrLen(row);
    r := row;
    var i: int := len;
    while i >= at
      invariant at - 1 <= i <= len && |r| == |row|
      invariant forall j :: 0 <= j <= i ==> r[j] == row[j]
      invariant forall j :: i + 1 < j <= len + 1 ==> r[j] == row[j - 1]
      invariant forall j :: 0 <= j < at ==> r[j] == row[j]
    {
      r := r[i + 1 := r[i]];
      i := i - 1;
    }
    r := r[at := c];
    RowIs(r, Line(row)[..at] + [c] + Line(row)[at..]);
  }

  /** The shift left of a deletion, NUL included. */
  method CloseGap(row: seq<char>, at: nat) returns (r: seq<char>)
    requires IsRow(row) && 0 < at <= Len(row)
    ensures IsRow(r) && Line(r) == Line(row)[..at - 1] + Line(row)[at..]
  {
    var len := StrLen(row);
    r := row;
    var i: int := at - 1;
    while i < len
      invariant at - 1 <= i <= len && |r| == |row|
      invariant forall j :: 0 <= j < at - 1 ==> r[j] == row[j]
      invariant forall j :: at - 1 <= j < i ==> r[j] == row[j + 1]
      invariant forall j :: i <= j < |row| ==> r[j] == row[j]
    {
      r := r[i := r[i + 1]];
      i := i + 1;
    }
    RowIs(r, Line(row)[..at - 1] + Line(row)[at..]);
  }

  /** Copy a string with its NUL to place `at` of a row; what stood before stays. */
  method CopyTo(row: seq<char>, at: nat, src: seq<char>) returns (r: seq<char>)
    requires |row| == MAX_COLS && IsRow(src) && at + Len(src) < MAX_COLS
    requires forall j :: 0 <= j < at ==> row[j] != NUL
    ensures IsRow(r) && Line(r) == row[..at] + Line(src)
  {
    r := row;
    var i := 0;
    var len := StrLen(src);
    while i <= len
      invariant i <= len + 1 && |r| == |row|
      invariant forall j :: 0 <= j < at ==> r[j] == row[j]
      invariant forall j :: 0 <= j < i ==> r[at + j] == src[j]
    {
      r := r[at + i := src[i]];
      i := i + 1;
    }
    RowIs(r, row[..at] + Line(src));
  }

  // --------------------------------------------------------------------- lines

  ghost function LinesOf(rows: seq<seq<char>>, n: nat): (lines: seq<string>)
    requires n <= |rows|
    ensures |lines| == n && forall i :: 0 <= i < n ==> lines[i] == Line(rows[i])
  {
    seq(n, i requires 0 <= i < n => Line(rows[i]))
  }

  ghost predicate AllRows(rows: seq<seq<char>>) {
    |rows| == MAX_LINES && forall i :: 0 <= i < |rows| ==> IsRow(rows[i])
  }

  /** Copy every line from `at + 1` on to the row above it. */
  method ShiftUp(rows: seq<seq<char>>, at: nat, n: nat) returns (r: seq<seq<char>>)
    requires AllRows(rows) && at < n <= MAX_LINES
    ensures AllRows(r) && LinesOf(r, n - 1) == LinesOf(rows, n)[..at] + LinesOf(rows, n)[at + 1..]
  {
    r := rows;
    var i := at;
    while i < n - 1
      invariant at <= i <= n - 1 && AllRows(r)
      invariant forall j :: 0 <= j < |r| && !(at <= j < i) ==> r[j] == rows[j]
      invariant forall j :: at <= j < i ==> Line(r[j]) == Line(rows[j + 1])
    {
      var row := CopyTo(r[i], 0, r[i + 1]);
      assert r[i][..0] + Line(r[i + 1]) == Line(r[i + 1]);
      r := r[i := row];
      i := i + 1;
    }
  }

  /** Copy every line from `at` on to the row below it. */
  method ShiftDown(rows: seq<seq<char>>, at: nat, n: nat) returns (r: seq<seq<char>>)
    requires AllRows(rows) && at <= n < MAX_LINES
    ensures AllRows(r)
    ensures forall j :: 0 <= j <= at ==> r[j] == rows[j]
    ensures forall j :: at < j <= n ==> Line(r[j]) == Line(rows[j - 1])
  {
    r := rows;
    var i := n;
    while i > at
      invariant at <= i <= n && AllRows(r)
      invariant forall j :: 0 <= j <= i ==> r[j] == rows[j]
      invariant forall j :: i < j <= n ==> Line(r[j]) == Line(rows[j - 1])
    {
      var row := CopyTo(r[i], 0, r[i - 1]);
      assert r[i][..0] + Line(r[i - 1]) == Line(r[i - 1]);
      r := r[i := row];
      i := i - 1;
    }
  }

  /** A row with the characters of `row` from `x` on. */
  method Rest(row: seq<char>, x: nat) returns (r: seq<char>)
    requires IsRow(row) && x <= Len(row)
    ensures IsRow(r) && Line(r) == Line(row)[x..]
  {
    var len := StrLen(row);
    r := seq(MAX_COLS, _ => NUL);
    var i := 0;
    while i < len - x
      invariant 0 <= i <= len - x && |r| == MAX_COLS
      invariant forall j :: 0 <= j < i ==> r[j] == row[x + j]
    {
      r := r[i := row[x + i]];
      i := i + 1;
    }
    r := r[len - x := NUL];
    RowIs(r, Line(row)[x..]);
  }

  lemma CutRow(row: seq<char>, x: nat)
    requires IsRow(row) && x <= Len(row)
    ensures IsRow(row[x := NUL]) && Line(row[x := NUL]) == Line(row)[..x]
  {
    RowIs(row[x := NUL], Line(row)[..x]);
  }

  /** Break row `y` of `n` rows at `x`, the rows below it moving down. */
  method SplitRow(rows: seq<seq<char>>, n: nat, y: nat, x: nat) returns (r: seq<seq<char>>)
    requires AllRows(rows) && y < n < MAX_LINES && x <= Len(rows[y])
    ensures AllRows(r)
    ensures var lines := LinesOf(rows, n);
            LinesOf(r, n + 1) == lines[..y] + [lines[y][..x]] + [lines[y][x..]] + lines[y + 1..]
  {
    var row := rows[y];
    var rest := Rest(row, x);
    CutRow(row, x);
    r := rows[y := row[x := NUL]];
    r := ShiftDown(r, y + 1, n);
    var below := CopyTo(r[y + 1], 0, rest);
    assert r[y + 1][..0] + Line(rest) == Line(rest);
    r := r[y + 1 := below];
    ghost var lines := LinesOf(rows, n);
    SplitLines(rows, r, n, y, lines[y][..x], lines[y][x..]);
  }

  lemma SplitLines(rows: seq<seq<char>>, r: seq<seq<char>>, n: nat, y: nat, l: string, m: string)
    requires y < n < |rows| == |r| && Line(r[y]) == l && Line(r[y + 1]) == m
    requires forall j :: 0 <= j < y ==> Line(r[j]) == Line(rows[j])
    requires forall j :: y + 1 < j <= n ==> Line(r[j]) == Line(rows[j - 1])
    ensures LinesOf(r, n + 1) == LinesOf(rows, n)[..y] + [l] + [m] + LinesOf(rows, n)[y + 1..]
  {
    var lines, all := LinesOf(rows, n), LinesOf(r, n + 1);
    var goal := lines[..y] + [l] + [m] + lines[y + 1..];
    forall j | 0 <= j <= n ensures all[j] == goal[j] {
      if y + 1 < j { assert goal[j] == lines[j - 1]; }
    }
  }

  lemma RowReplaced(rows: seq<seq<char>>, n: nat, k: nat, row: seq<char>)
    requires k < n <= |rows|
    ensures LinesOf(rows[k := row], n) == LinesOf(rows, n)[k := Line(row)]
  {
  }

  /** Join row `y` of `n` rows to the one above, of length `plen`, the rows below it moving up. */
  method JoinRows(rows: seq<seq<char>>, n: nat, y: nat, plen: nat) returns (r: seq<seq<char>>)
    requires AllRows(rows) && 0 < y < n <= MAX_LINES && plen == Len(rows[y - 1]) && plen + Len(rows[y]) < MAX_COLS
    ensures AllRows(r)
    ensures var lines := LinesOf(rows, n);
            LinesOf(r, n - 1) == lines[..y - 1] + [lines[y - 1] + lines[y]] + lines[y + 1..]
  {
    var row := CopyTo(rows[y - 1], plen, rows[y]);
    RowReplaced(rows, n, y - 1, row);
    r := ShiftUp(rows[y - 1 := row], y, n);
    MergedLines(LinesOf(rows, n), y, Line(row));
  }

  /** Lines with `m` in the place of two of them. */
  lemma MergedLines(lines: seq<string>, y: nat, m: string)
    requires 0 < y < |lines|
    ensures lines[y - 1 := m][..y] + lines[y - 1 := m][y + 1..] == lines[..y - 1] + [m] + lines[y + 1..]
  {
  }

  // ------------------------------------------------------------------- loading

  /** A line at the start of an otherwise blank row. */
  function Padded(l: string): (r: seq<char>)
    requires |l| < MAX_COLS
    ensures |r| == MAX_COLS
  {
    l + seq(MAX_COLS - |l|, _ => NUL)
  }

  /** Short enough for a row. */
  predicate Fits(l: string) {
    |l| < MAX_COLS
  }

  lemma PaddedLine(l: string)
    requires Fits(l)
    ensures IsRow(Padded(l)) && Line(Padded(l)) == UpToNul(l)
  {
    RowIs(Padded(l), UpToNul(l));
  }

  /** The rows hold the finished lines, then the line being read, then nothing. */
  ghost predicate Loaded(rows: seq<seq<char>>, done: seq<string>, cur: string) {
    && |rows| == MAX_LINES && |done| < MAX_LINES && Fits(cur) && rows[|done|] == Padded(cur)
    && (forall j :: 0 <= j < |done| ==> Fits(done[j]) && rows[j] == Padded(done[j]))
    && (forall j :: |done| < j < MAX_LINES ==> rows[j] == Padded([]))
  }

  lemma LoadedChar(rows: seq<seq<char>>, done: seq<string>, cur: string, c: char)
    requires Loaded(rows, done, cur) && |cur| < MAX_COLS - 1
    ensures Loaded(rows[|done| := rows[|done|][|cur| := c]], done, cur + [c])
  {
    assert Padded(cur)[|cur| := c] == Padded(cur + [c]);
  }

  /** A finished line is already ended by a NUL. */
  lemma LoadedLine(rows: seq<seq<char>>, done: seq<string>, cur: string)
    requires Loaded(rows, done, cur)
    ensures rows[|done|][|cur| := NUL] == rows[|done|] && rows[|done| := rows[|done|]] == rows
    ensures |done| + 1 < MAX_LINES ==> Loaded(rows, done + [cur], [])
    ensures AllRows(rows) && LinesOf(rows, |done| + 1) == Shown(done + [cur])
  {
    forall j | 0 <= j < MAX_LINES
      ensures IsRow(rows[j]) && (j <= |done| ==> Line(rows[j]) == UpToNul((done + [cur])[j]))
    {
      PaddedLine(if j < |done| then done[j] else if j == |done| then cur else []);
    }
  }

  /** The reading of a text on its way: `rest` is still to be read. */
  ghost predicate Reading(rows: seq<seq<char>>, done: seq<string>, cur: string, rest: string, text: string) {
    Loaded(rows, done, cur) && Parse(rest, done, cur) == Parse(text, [], [])
  }

  lemma ReadChar(rows: seq<seq<char>>, done: seq<string>, cur: string, rest: string, text: string)
    requires Reading(rows, done, cur, rest, text) && rest != [] && rest[0] != '\r' && rest[0] != '\n'
    ensures if |cur| < MAX_COLS - 1
            then Reading(rows[|done| := rows[|done|][|cur| := rest[0]]], done, cur + [rest[0]], rest[1..], text)
            else Reading(rows, done, cur, rest[1..], text)
  {
    if |cur| < MAX_COLS - 1 { LoadedChar(rows, done, cur, rest[0]); }
  }

  /** All rows are full: the text has more lines, and the rows show the first ones. */
  ghost predicate Overrun(rows: seq<seq<char>>, text: string) {
    AllRows(rows) && Newlines(text) >= MAX_LINES && LinesOf(rows, MAX_LINES) == Loads(text)
  }

  /** The text has been read: the rows show its lines, the last of which is `last`. */
  ghost predicate ReadAll(rows: seq<seq<char>>, n: nat, last: string, text: string) {
    && AllRows(rows) && n < MAX_LINES && Newlines(text) == n && LinesOf(rows, n + 1) == Loads(text)
    && Fits(last) && rows[n][|last| := NUL] == rows[n]
  }

  lemma ReadNewline(rows: seq<seq<char>>, done: seq<string>, cur: string, rest: string, text: string)
    requires Reading(rows, done, cur, rest, text) && rest != [] && rest[0] == '\n'
    ensures rows[|done| := rows[|done|][|cur| := NUL]] == rows
    ensures if |done| + 1 < MAX_LINES then Reading(rows, done + [cur], [], rest[1..], text) else Overrun(rows, text)
  {
    LoadedLine(rows, done, cur);
    ParseGrows(rest[1..], done + [cur], []);
    ParseGrows(text, [], []);
  }

  lemma ReadEnd(rows: seq<seq<char>>, done: seq<string>, cur: string, text: string)
    requires Reading(rows, done, cur, [], text)
    ensures ReadAll(rows, |done|, cur, text)
  {
    LoadedLine(rows, done, cur);
    ParseGrows(text, [], []);
  }

  // -------------------------------------------------------------------- editor

  class Editor {
    var rows: seq<seq<char>>
    var count: nat
    var x: nat
    var y: nat
    var modified: bool

    ghost function View(): Buffer
      reads this
      requires count <= |rows|
    {
      Buffer(LinesOf(rows, count), y, x)
    }

    ghost predicate Valid()
      reads this
    {
      AllRows(rows) && count <= MAX_LINES && InText(View())
    }

    /** `editor_init`: one empty line. */
    constructor ()
      ensures Valid() && View() == Buffer([[]], 0, 0) && !modified && forall i :: 0 <= i < MAX_LINES ==> rows[i] == Padded([])
    {
      rows := seq(MAX_LINES, _ => Padded([]));
      count, x, y, modified := 1, 0, 0, false;
      new;
      RowIs(Padded([]), []);
    }

    method InsertChar(c: char)
      requires Valid() && c != NUL
      modifies this
      ensures Valid() && View() == Insert(old(View()), c)
      ensures modified == (old(modified) || View() != old(View()))
    {
      var len := StrLen(rows[y]);
      if len >= MAX_COLS - 1 { return; }
      var row := OpenGap(rows[y], x, c);
      rows := rows[y := row];
      x := x + 1;
      modified := true;
      assert LinesOf(rows, count) == old(LinesOf(rows, count))[y := Line(row)];
    }

    method BackspaceKey()
      requires Valid()
      modifies this
      ensures Valid() && View() == Backspace(old(View()))
      ensures modified == (old(modified) || View() != old(View()))
    {
      if x > 0 {
        var row := CloseGap(rows[y], x);
        rows := rows[y := row];
        x := x - 1;
        modified := true;
        assert LinesOf(rows, count) == old(LinesOf(rows, count))[y := Line(row)];
      } else if y > 0 {
        MergeUp();
      }
    }

    /** The part of `editor_backspace` that joins a line to the one above. */
    method MergeUp()
      requires Valid() && x == 0 && y > 0
      modifies this
      ensures Valid() && View() == Backspace(old(View()))
      ensures modified == (old(modified) || View() != old(View()))
    {
      var plen := StrLen(rows[y - 1]);
      var clen := StrLen(rows[y]);
      if plen + clen >= MAX_COLS - 1 { return; }
      rows := JoinRows(rows, count, y, plen);
      count := count - 1;
      y := y - 1;
      x := plen;
      modified := true;
    }

    method NewlineKey()
      requires Valid()
      modifies this
      ensures Valid() && View() == Newline(old(View()))
      ensures modified == (old(modified) || View() != old(View()))
    {
      if count >= MAX_LINES - 1 { return; }
      rows := SplitRow(rows, count, y, x);
      count := count + 1;
      y := y + 1;
      x := 0;
      modified := true;
    }

    /** The buffer `editor_save` writes out. */
    method SaveBuffer() returns (out: string)
      requires Valid()
      ensures out == Saved(LinesOf(rows, count), [])
    {
      ghost var lines := LinesOf(rows, count);
      out := [];
      var i := 0;
      assert lines[0..] == lines;
      while i < count
        invariant 0 <= i <= count
        invariant i < count ==> Saved(lines[i..], out) == Saved(lines, [])
        invariant i == count ==> out == Saved(lines, [])
      {
        var len := StrLen(rows[i]);
        if |out| + len + 1 >= MAX_FILE { break; }
        assert lines[i..][1..] == lines[i + 1..];
        out := out + rows[i][..len];
        if i < count - 1 { out := out + ['\n']; }
        i := i + 1;
      }
    }

    /** The loop of `editor_load`, which ends early when the rows are full. */
    method ReadLines(text: string) returns (line: nat, col: nat, ghost last: string)
      requires |rows| == MAX_LINES && forall i :: 0 <= i < MAX_LINES ==> rows[i] == Padded([])
      modifies `rows
      ensures if line == MAX_LINES then col == 0 && Overrun(rows, text)
              else ReadAll(rows, line, last, text) && col == |last|
    {
      line, col, last := 0, 0, [];
      ghost var done: seq<string> := [];
      var i := 0;
      assert text[0..] == text;
      while i < |text|
        invariant 0 <= i <= |text| && Reading(rows, done, last, text[i..], text) && line == |done| && col == |last|
      {
        var c := text[i];
        assert text[i..][1..] == text[i + 1..];
        if c == '\n' {
          ReadNewline(rows, done, last, text[i..], text);
          rows := rows[line := rows[line][col := NUL]];
          done, last := done + [last], [];
          line, col := line + 1, 0;
          if line >= MAX_LINES { return; }
        } else if c != '\r' {
          ReadChar(rows, done, last, text[i..], text);
          if col < MAX_COLS - 1 {
            rows := rows[line := rows[line][col := c]];
            last := last + [c];
            col := col + 1;
          }
        }
        i := i + 1;
      }
      assert text[i..] == [];
      ReadEnd(rows, done, last, text);
    }

    /** The parsing part of `editor_load`, into a buffer whose rows are blank. `stray` tells
        whether it has stored a NUL behind its last row. */
    method LoadText(text: string) returns (stray: bool)
      requires |rows| == MAX_LINES && forall i :: 0 <= i < MAX_LINES ==> rows[i] == Padded([])
      modifies this
      ensures Valid() && View() == Buffer(Loads(text), 0, 0) && !modified
      ensures stray <==> Newlines(text) >= MAX_LINES
    {
      stray := false;
      var line, col, last := ReadLines(text);
      count := if col > 0 || line == 0 then line + 1 else 0;
      if count == 0 {
        if line < MAX_LINES {
          rows := rows[line := rows[line][col := NUL]];
        } else {
          stray := true;
        }
        count := line + 1;
      }
      if count > MAX_LINES { count := MAX_LINES; }
      x, y, modified := 0, 0, false;
    }

    method LeftKey()
      requires Valid()
      modifies `x, `y
      ensures Valid() && View() == Left(old(View()))
    {
      if x > 0 {
        x := x - 1;
      } else if y > 0 {
        y := y - 1;
        x := StrLen(rows[y]);
      }
    }

    method RightKey()
      requires Valid()
      modifies `x, `y
      ensures Valid() && View() == Right(old(View()))
    {
      var len := StrLen(rows[y]);
      if x < len {
        x := x + 1;
      } else if y < count - 1 {
        y := y + 1;
        x := 0;
      }
    }

    /** The up and down keys. */
    method VerticalKey(down: bool)
      requires Valid()
      modifies `x, `y
      ensures Valid() && View() == Vertical(old(View()), down)
    {
      if y == (if down then count - 1 else 0) { return; }
      y := if down then y + 1 else y - 1;
      var len := StrLen(rows[y]);
      if x > len { x := len; }
    }

    /** One key, as the main loop passes it on. */
    method PressKey(k: Key)
      requires Valid() && (k.Char? ==> k.c != NUL)
      modifies this
      ensures Valid() && View() == Press(old(View()), k)
    {
      match k
      case Char(c) => InsertChar(c);
      case Erase => BackspaceKey();
      case Enter => NewlineKey();
      case GoLeft => LeftKey();
      case GoRight => RightKey();
      case GoUp => VerticalKey(false);
      case GoDown => VerticalKey(true);
    }

    /** The keys of a session. */
    method TypeKeys(keys: seq<Key>)
      requires Valid() && Good(View()) && forall i :: 0 <= i < |keys| ==> Printable(keys[i])
      modifies this
      ensures Valid() && View() == Typed(old(View()), keys)
    {
      var i := 0;
      while i < |keys|
        invariant i <= |keys| && Valid() && Good(View()) && Typed(View(), keys[i..]) == Typed(old(View()), keys)
      {
        ghost var was := View();
        assert keys[i..][0] == keys[i] && keys[i..][1..] == keys[i + 1..];
        PressKeeps(was, keys[i]);
        PressKey(keys[i]);
        i := i + 1;
      }
    }
  }
}
