/** The text an editor buffer stands for: its lines joined by newlines, and the cursor as
    an offset into it. */
module EditorText {

  const MAX_LINES: nat := 256
  const MAX_COLS: nat := 256
  const MAX_FILE: nat := 4096

  datatype Buffer = Buffer(lines: seq<string>, y: nat, x: nat)

  /** The cursor is in a line, at most behind its last character. */
  ghost predicate InText(b: Buffer) {
    b.y < |b.lines| && b.x <= |b.lines[b.y]|
  }

  // ---------------------------------------------------------------- flat text

  /** Lines with a newline behind each. */
  ghost function Before(lines: seq<string>): string {
    if lines == [] then [] else lines[0] + ['\n'] + Before(lines[1..])
  }

  /** Lines with a newline in front of each. */
  ghost function Behind(lines: seq<string>): string {
    if lines == [] then [] else ['\n'] + lines[0] + Behind(lines[1..])
  }

  ghost function Join(lines: seq<string>): string
    requires lines != []
  {
    lines[0] + Behind(lines[1..])
  }

  ghost function Text(b: Buffer): string
    requires b.lines != []
  {
    Join(b.lines)
  }

  ghost function Offset(b: Buffer): nat
    requires InText(b)
  {
    |Before(b.lines[..b.y])| + b.x
  }

  lemma {:induction false} BeforeMore(a: seq<string>, l: string)
    ensures Before(a + [l]) == Before(a) + l + ['\n']
  {
    if a == [] {
      assert (a + [l])[1..] == [];
    } else {
      BeforeMore(a[1..], l);
      assert (a + [l])[1..] == a[1..] + [l];
    }
  }

  /** The text around one line. */
  lemma {:induction false} JoinAround(a: seq<string>, l: string, z: seq<string>)
    ensures Join(a + [l] + z) == Before(a) + l + Behind(z)
  {
    if a == [] {
      JoinFirst(l, z);
      assert a + [l] + z == [l] + z;
    } else {
      var rest := a[1..] + [l] + z;
      JoinAround(a[1..], l, z);
      JoinFirst(a[0], rest);
      assert a + [l] + z == [a[0]] + rest;
      RegroupLines(Before(a[1..]), a[0], l, Behind(z));
    }
  }

  lemma JoinFirst(l: string, rest: seq<string>)
    ensures Join([l] + rest) == l + if rest == [] then [] else ['\n'] + Join(rest)
  {
    assert ([l] + rest)[1..] == rest;
    if rest != [] { Regroup3(['\n'], rest[0], Behind(rest[1..])); }
  }

  lemma Regroup3(a: string, b: string, c: string)
    ensures a + b + c == a + (b + c)
  {
  }

  /** The text of a buffer, taken apart at its cursor. */
  lemma TextAround(b: Buffer)
    requires InText(b)
    ensures Text(b) == Before(b.lines[..b.y]) + b.lines[b.y] + Behind(b.lines[b.y + 1..])
    ensures Offset(b) <= |Text(b)|
  {
    JoinAround(b.lines[..b.y], b.lines[b.y], b.lines[b.y + 1..]);
    assert b.lines == b.lines[..b.y] + [b.lines[b.y]] + b.lines[b.y + 1..];
  }

  /** A text cut inside its middle part. */
  lemma CutInside(a: string, l: string, z: string, x: nat)
    requires x <= |l|
    ensures (a + l + z)[..|a| + x] == a + l[..x] && (a + l + z)[|a| + x..] == l[x..] + z
  {
  }

  lemma Regroup(a: string, l: string, m: string, l': string, z: string)
    ensures a + (l + m + l') + z == (a + l) + m + (l' + z)
  {
  }

  lemma RegroupLines(a: string, p: string, l: string, z: string)
    ensures a + p + ['\n'] + l + z == (a + p) + ['\n'] + (l + z)
    ensures p + ['\n'] + a + l + z == p + (['\n'] + (a + l + z))
  {
  }

  /** A text without the newline between two of its parts. */
  lemma CutBetween(a: string, p: string, l: string, z: string)
    ensures var t, n := a + p + ['\n'] + l + z, |a| + |p|; t[..n] + t[n + 1..] == a + (p + l) + z
  {
  }

  // ---------------------------------------------------------------- operations

  /** `editor_insert_char`. */
  ghost function Insert(b: Buffer, c: char): Buffer
    requires InText(b)
  {
    var l := b.lines[b.y];
    if |l| >= MAX_COLS - 1 then b
    else b.(lines := b.lines[b.y := l[..b.x] + [c] + l[b.x..]], x := b.x + 1)
  }

  /** `editor_backspace`. */
  ghost function Backspace(b: Buffer): Buffer
    requires InText(b)
  {
    var l := b.lines[b.y];
    if b.x > 0 then b.(lines := b.lines[b.y := l[..b.x - 1] + l[b.x..]], x := b.x - 1)
    else if b.y == 0 then b
    else
      var p := b.lines[b.y - 1];
      if |p| + |l| >= MAX_COLS - 1 then b
      else Buffer(b.lines[..b.y - 1] + [p + l] + b.lines[b.y + 1..], b.y - 1, |p|)
  }

  /** `editor_newline`. */
  ghost function Newline(b: Buffer): Buffer
    requires InText(b)
  {
    var l := b.lines[b.y];
    if |b.lines| >= MAX_LINES - 1 then b
    else Buffer(b.lines[..b.y] + [l[..b.x]] + [l[b.x..]] + b.lines[b.y + 1..], b.y + 1, 0)
  }

  /** The left arrow key. */
  ghost function Left(b: Buffer): Buffer
    requires InText(b)
  {
    if b.x > 0 then b.(x := b.x - 1)
    else if b.y > 0 then b.(y := b.y - 1, x := |b.lines[b.y - 1]|)
    else b
  }

  /** The right arrow key. */
  ghost function Right(b: Buffer): Buffer
    requires InText(b)
  {
    if b.x < |b.lines[b.y]| then b.(x := b.x + 1)
    else if b.y < |b.lines| - 1 then b.(y := b.y + 1, x := 0)
    else b
  }

  /** The up and down arrow keys. */
  ghost function Vertical(b: Buffer, down: bool): Buffer
    requires InText(b)
  {
    if b.y == (if down then |b.lines| - 1 else 0) then b
    else
      var y := if down then b.y + 1 else b.y - 1;
      b.(y := y, x := if b.x > |b.lines[y]| then |b.lines[y]| else b.x)
  }

  // ----------------------------------------------------------------- refinement

  /** Typing a character is inserting it at the cursor's offset, unless the line is full. */
  lemma InsertIsEdit(b: Buffer, c: char)
    requires InText(b)
    ensures var r, at := Insert(b, c), Offset(b);
            && InText(r)
            && (|b.lines[b.y]| >= MAX_COLS - 1 ==> r == b)
            && (|b.lines[b.y]| < MAX_COLS - 1 ==>
                  at <= |Text(b)| && Text(r) == Text(b)[..at] + [c] + Text(b)[at..] && Offset(r) == at + 1)
  {
    var r := Insert(b, c);
    TextAround(b);
    if |b.lines[b.y]| < MAX_COLS - 1 {
      TextAround(r);
      assert r.lines[..r.y] == b.lines[..b.y] && r.lines[r.y + 1..] == b.lines[b.y + 1..];
      var a, l, z := Before(b.lines[..b.y]), b.lines[b.y], Behind(b.lines[b.y + 1..]);
      CutInside(a, l, z, b.x);
      Regroup(a, l[..b.x], [c], l[b.x..], z);
    }
  }

  /** Backspace is deleting the character in front of the cursor's offset, unless there is
      none or the joined line would not fit. */
  lemma BackspaceIsEdit(b: Buffer)
    requires InText(b)
    ensures var r, at := Backspace(b), Offset(b);
            && InText(r)
            && (r == b || (0 < at <= |Text(b)| && Text(r) == Text(b)[..at - 1] + Text(b)[at..] && Offset(r) == at - 1))
            && (r == b <==> at == 0 || (b.x == 0 && |b.lines[b.y - 1]| + |b.lines[b.y]| >= MAX_COLS - 1))
  {
    TextAround(b);
    if b.x > 0 { EraseInLine(b); } else if b.y > 0 { EraseNewline(b); }
  }

  lemma EraseInLine(b: Buffer)
    requires InText(b) && b.x > 0
    ensures var r, at := Backspace(b), Offset(b);
            InText(r) && 0 < at <= |Text(b)| && Text(r) == Text(b)[..at - 1] + Text(b)[at..] && Offset(r) == at - 1
  {
    var r := Backspace(b);
    TextAround(b);
    TextAround(r);
    assert r.lines[..r.y] == b.lines[..b.y] && r.lines[r.y + 1..] == b.lines[b.y + 1..];
    var a, l, z := Before(b.lines[..b.y]), b.lines[b.y], Behind(b.lines[b.y + 1..]);
    ErasedText(a, l, z, b.x);
  }

  lemma ErasedText(a: string, l: string, z: string, x: nat)
    requires 0 < x <= |l|
    ensures a + (l[..x - 1] + l[x..]) + z == (a + l + z)[..|a| + x - 1] + (a + l + z)[|a| + x..]
  {
    CutInside(a, l, z, x - 1);
    CutInside(a, l, z, x);
    Rejoined(a, l[..x - 1], l[x..], z);
  }

  lemma Rejoined(a: string, p: string, q: string, z: string)
    ensures (a + p) + (q + z) == a + (p + q) + z
  {
  }

  /** The text around the boundary between two lines. */
  lemma TwoLines(lines: seq<string>, y: nat)
    requires 0 < y < |lines|
    ensures Join(lines) == Before(lines[..y - 1]) + lines[y - 1] + ['\n'] + lines[y] + Behind(lines[y + 1..])
    ensures Before(lines[..y]) == Before(lines[..y - 1]) + lines[y - 1] + ['\n']
  {
    TextAround(Buffer(lines, y, 0));
    BeforeMore(lines[..y - 1], lines[y - 1]);
    assert lines[..y - 1] + [lines[y - 1]] == lines[..y];
  }

  lemma EraseNewline(b: Buffer)
    requires InText(b) && b.x == 0 && b.y > 0
    ensures var r, at := Backspace(b), Offset(b);
            && InText(r) && 0 < at <= |Text(b)|
            && (|b.lines[b.y - 1]| + |b.lines[b.y]| >= MAX_COLS - 1 ==> r == b)
            && (|b.lines[b.y - 1]| + |b.lines[b.y]| < MAX_COLS - 1 ==>
                  Text(r) == Text(b)[..at - 1] + Text(b)[at..] && Offset(r) == at - 1)
  {
    var r := Backspace(b);
    TextAround(b);
    TwoLines(b.lines, b.y);
    var p, l := b.lines[b.y - 1], b.lines[b.y];
    if |p| + |l| < MAX_COLS - 1 {
      TextAround(r);
      assert r.lines[..r.y] == b.lines[..b.y - 1] && r.lines[r.y + 1..] == b.lines[b.y + 1..];
      var a, z := Before(b.lines[..b.y - 1]), Behind(b.lines[b.y + 1..]);
      CutBetween(a, p, l, z);
    }
  }

  /** Enter is inserting a newline at the cursor's offset, unless the buffer is full. */
  lemma NewlineIsEdit(b: Buffer)
    requires InText(b)
    ensures var r, at := Newline(b), Offset(b);
            && InText(r)
            && (|b.lines| >= MAX_LINES - 1 ==> r == b)
            && (|b.lines| < MAX_LINES - 1 ==>
                  at <= |Text(b)| && Text(r) == Text(b)[..at] + ['\n'] + Text(b)[at..] && Offset(r) == at + 1)
  {
    TextAround(b);
    if |b.lines| < MAX_LINES - 1 {
      NewlineText(b);
      var a, l, z := Before(b.lines[..b.y]), b.lines[b.y], Behind(b.lines[b.y + 1..]);
      CutInside(a, l, z, b.x);
      RegroupLines(a, l[..b.x], l[b.x..], z);
    }
  }

  /** The left and right keys move the offset by one, as far as the text goes. */
  lemma LeftIsMove(b: Buffer)
    requires InText(b)
    ensures var r, at := Left(b), Offset(b); InText(r) && Text(r) == Text(b) && Offset(r) == if at == 0 then 0 else at - 1
  {
    if b.x == 0 && b.y > 0 { TwoLines(b.lines, b.y); }
  }

  lemma RightIsMove(b: Buffer)
    requires InText(b)
    ensures var r, at := Right(b), Offset(b);
            InText(r) && Text(r) == Text(b) && Offset(r) == if at == |Text(b)| then at else at + 1
  {
    TextAround(b);
    if b.x == |b.lines[b.y]| && b.y < |b.lines| - 1 {
      TwoLines(b.lines, b.y + 1);
    }
  }

  lemma VerticalInText(b: Buffer, down: bool)
    requires InText(b)
    ensures InText(Vertical(b, down)) && Text(Vertical(b, down)) == Text(b)
  {
  }

  /** The up and down keys move the cursor one line, if there is one, and as far to the left
      as that line ends. */
  lemma VerticalIsMove(b: Buffer, down: bool)
    requires InText(b)
    ensures var r := Vertical(b, down);
            && r.lines == b.lines
            && (down ==> r.y == if b.y + 1 < |b.lines| then b.y + 1 else b.y)
            && (!down ==> r.y == if b.y > 0 then b.y - 1 else 0)
            && r.x == (if r.y == b.y || b.x <= |b.lines[r.y]| then b.x else |b.lines[r.y]|)
  {
  }

  /** Backspace takes back a character just typed. */
  lemma BackspaceUndoesInsert(b: Buffer, c: char)
    requires InText(b) && |b.lines[b.y]| < MAX_COLS - 1
    ensures InText(Insert(b, c)) && Backspace(Insert(b, c)) == b
  {
    var l, m := b.lines[b.y], Insert(b, c).lines[b.y];
    assert m[..b.x] == l[..b.x] && m[b.x + 1..] == l[b.x..];
    assert l[..b.x] + l[b.x..] == l;
  }

  /** Backspace takes back a newline just typed exactly if the line was not full. */
  lemma BackspaceUndoesNewline(b: Buffer)
    requires InText(b) && |b.lines| < MAX_LINES - 1 && |b.lines[b.y]| <= MAX_COLS - 1
    ensures InText(Newline(b)) && (Backspace(Newline(b)) == b <==> |b.lines[b.y]| < MAX_COLS - 1)
  {
    var l, n := b.lines[b.y], Newline(b);
    assert n.lines[b.y] == l[..b.x] && n.lines[b.y + 1] == l[b.x..];
    assert l[..b.x] + l[b.x..] == l;
    assert n.lines[..b.y] == b.lines[..b.y] && n.lines[b.y + 2..] == b.lines[b.y + 1..];
    assert b.lines[..b.y] + [l] + b.lines[b.y + 1..] == b.lines;
  }

  /** The text around a new line break. */
  lemma NewlineText(b: Buffer)
    requires InText(b) && |b.lines| < MAX_LINES - 1
    ensures var r, a, l := Newline(b), Before(b.lines[..b.y]), b.lines[b.y];
            && InText(r) && Text(r) == a + l[..b.x] + ['\n'] + l[b.x..] + Behind(b.lines[b.y + 1..])
            && Offset(r) == |a + l[..b.x]| + 1
  {
    var r := Newline(b);
    TwoLines(r.lines, r.y);
    assert r.lines[..r.y - 1] == b.lines[..b.y] && r.lines[r.y + 1..] == b.lines[b.y + 1..];
  }

  // ------------------------------------------------------------ saving, loading

  /** The lines the loader makes of a text: carriage returns are dropped, newlines end
      lines, and a line keeps its first 255 characters. */
  ghost function Parse(text: string, done: seq<string>, cur: string): (r: seq<string>)
    ensures r != []
  {
    if text == [] then done + [cur]
    else if text[0] == '\r' then Parse(text[1..], done, cur)
    else if text[0] == '\n' then Parse(text[1..], done + [cur], [])
    else Parse(text[1..], done, if |cur| < MAX_COLS - 1 then cur + [text[0]] else cur)
  }

  ghost function Newlines(text: string): nat {
    if text == [] then 0 else Newlines(text[1..]) + if text[0] == '\n' then 1 else 0
  }

  /** Lines once made stay, and every newline makes another. */
  lemma {:induction false} ParseGrows(text: string, done: seq<string>, cur: string)
    ensures var r := Parse(text, done, cur);
            |r| == |done| + Newlines(text) + 1 && r[..|done|] == done
    decreases |text|
  {
    if text == [] {
    } else if text[0] == '\r' {
      ParseGrows(text[1..], done, cur);
    } else if text[0] == '\n' {
      ParseGrows(text[1..], done + [cur], []);
      var r := Parse(text, done, cur);
      assert r[..|done|] == r[..|done| + 1][..|done|];
    } else {
      ParseGrows(text[1..], done, if |cur| < MAX_COLS - 1 then cur + [text[0]] else cur);
    }
  }

  /** What a C string shows of a line. */
  ghost function UpToNul(l: string): (r: string)
    ensures |r| <= |l| && r == l[..|r|] && (|r| < |l| ==> l[|r|] == '\0')
    ensures forall i :: 0 <= i < |r| ==> r[i] != '\0'
  {
    if l == [] || l[0] == '\0' then [] else [l[0]] + UpToNul(l[1..])
  }

  ghost function Shown(lines: seq<string>): (r: seq<string>)
    ensures |r| == |lines| && forall i :: 0 <= i < |r| ==> r[i] == UpToNul(lines[i])
  {
    seq(|lines|, i requires 0 <= i < |lines| => UpToNul(lines[i]))
  }

  /** The lines of a buffer loaded from a text: the first 256, each up to a NUL. */
  ghost function Loads(text: string): (lines: seq<string>)
    ensures 0 < |lines| <= MAX_LINES
  {
    var all := Parse(text, [], []);
    Shown(if |all| <= MAX_LINES then all else all[..MAX_LINES])
  }

  ghost predicate Clean(l: string) {
    |l| <= MAX_COLS - 1 && forall i :: 0 <= i < |l| ==> l[i] != '\n' && l[i] != '\r' && l[i] != '\0'
  }

  lemma {:induction false} ParseLine(l: string, rest: string, done: seq<string>, cur: string)
    requires Clean(cur + l)
    ensures Parse(l + rest, done, cur) == Parse(rest, done, cur + l)
    decreases |l|
  {
    if l == [] {
      assert l + rest == rest && cur + l == cur;
    } else {
      assert (cur + l)[|cur|] == l[0];
      assert (l + rest)[1..] == l[1..] + rest;
      assert cur + [l[0]] + l[1..] == cur + l;
      ParseLine(l[1..], rest, done, cur + [l[0]]);
    }
  }

  /** Loading what was saved gives the lines back. */
  lemma {:induction false} ParseJoin(lines: seq<string>, done: seq<string>)
    requires lines != [] && forall i :: 0 <= i < |lines| ==> Clean(lines[i])
    ensures Parse(Join(lines), done, []) == done + lines
    decreases |lines|
  {
    var l, rest := lines[0], lines[1..];
    assert [] + l == l;
    ParseLine(l, Behind(rest), done, []);
    if rest == [] {
      assert Behind(rest) == [];
      assert done + [l] == done + lines;
    } else {
      assert Behind(rest)[1..] == Join(rest);
      ParseJoin(rest, done + [l]);
      assert done + [l] + rest == done + lines;
    }
  }

  /** The longest start of the text the file buffer takes, line by line. */
  ghost function Saved(lines: seq<string>, out: string): string
    requires lines != []
    decreases |lines|
  {
    if |out| + |lines[0]| + 1 >= MAX_FILE then out
    else if |lines| == 1 then out + lines[0]
    else Saved(lines[1..], out + lines[0] + ['\n'])
  }

  /** The whole text is saved exactly if it is short enough; an empty last line may still
      follow a text that fills the buffer. */
  lemma {:induction false} SavedAll(lines: seq<string>, out: string)
    requires lines != [] && |out| < MAX_FILE
    ensures Saved(lines, out) == out + Join(lines) <==>
            |out + Join(lines)| < MAX_FILE - 1 || (|out + Join(lines)| == MAX_FILE - 1 && lines[|lines| - 1] == [])
    decreases |lines|
  {
    var l, rest := lines[0], lines[1..];
    assert |Join(lines)| == |l| + |Behind(rest)|;
    if |out| + |l| + 1 >= MAX_FILE {
      assert out + Join(lines) == out <==> |Join(lines)| == 0;
      if rest != [] { assert |Behind(rest)| > 0; }
    } else if rest == [] {
      assert out + l == out + Join(lines);
    } else {
      var out' := out + l + ['\n'];
      assert Behind(rest) == ['\n'] + Join(rest);
      assert out' + Join(rest) == out + Join(lines);
      SavedAll(rest, out');
    }
  }

  /** The line leaves room for a byte behind it when it is saved behind those before it. */
  ghost predicate Leaves(done: seq<string>, lines: seq<string>, j: nat)
    requires j < |lines|
  {
    |Before(done + lines[..j])| + |lines[j]| + 1 < MAX_FILE
  }

  ghost predicate AllLeave(done: seq<string>, lines: seq<string>, k: nat) {
    k <= |lines| && forall j :: 0 <= j < k ==> Leaves(done, lines, j)
  }

  /** The first `k` lines are saved: all, or those in front of the first that leaves no room. */
  ghost predicate SavedUpTo(done: seq<string>, lines: seq<string>, k: nat) {
    && lines != [] && AllLeave(done, lines, k) && (k < |lines| ==> !Leaves(done, lines, k))
    && Saved(lines, Before(done)) == if k == |lines| then Join(done + lines) else Before(done + lines[..k])
  }

  lemma NextBefore(done: seq<string>, l: string, rest: seq<string>, j: nat)
    requires j <= |rest|
    ensures done + [l] + rest[..j] == done + ([l] + rest)[..j + 1]
  {
  }

  lemma NextLeaves(done: seq<string>, l: string, rest: seq<string>, j: nat)
    requires j < |rest|
    ensures Leaves(done + [l], rest, j) == Leaves(done, [l] + rest, j + 1)
  {
    NextBefore(done, l, rest, j);
  }

  lemma SavedNext(done: seq<string>, l: string, rest: seq<string>)
    requires rest != [] && Leaves(done, [l] + rest, 0)
    ensures Saved([l] + rest, Before(done)) == Saved(rest, Before(done + [l]))
  {
    assert done + ([l] + rest)[..0] == done && ([l] + rest)[1..] == rest;
    BeforeMore(done, l);
  }

  lemma MoreLeave(done: seq<string>, l: string, rest: seq<string>, k: nat)
    requires AllLeave(done + [l], rest, k) && Leaves(done, [l] + rest, 0)
    ensures AllLeave(done, [l] + rest, k + 1) && (k < |rest| ==> Leaves(done + [l], rest, k) == Leaves(done, [l] + rest, k + 1))
  {
    forall j | 0 <= j < k + 1 ensures Leaves(done, [l] + rest, j) {
      if j > 0 { NextLeaves(done, l, rest, j - 1); }
    }
    if k < |rest| { NextLeaves(done, l, rest, k); }
  }

  lemma SavedMore(done: seq<string>, l: string, rest: seq<string>, k: nat)
    requires SavedUpTo(done + [l], rest, k) && Leaves(done, [l] + rest, 0)
    ensures SavedUpTo(done, [l] + rest, k + 1)
  {
    var lines := [l] + rest;
    SavedNext(done, l, rest);
    MoreLeave(done, l, rest, k);
    NextBefore(done, l, rest, k);
    assert done + [l] + rest == done + lines;
  }

  lemma SavedLast(done: seq<string>, l: string)
    requires Leaves(done, [l], 0)
    ensures SavedUpTo(done, [l], 1)
  {
    assert done + [l][..0] == done;
    JoinAround(done, l, []);
    assert done + [l] + [] == done + [l];
  }

  /** What is saved is the first lines, all or as many as leave room for a byte behind each. */
  lemma {:induction false} SavedMeans(done: seq<string>, lines: seq<string>) returns (k: nat)
    requires lines != []
    ensures SavedUpTo(done, lines, k)
    decreases |lines|
  {
    var l, rest := lines[0], lines[1..];
    assert lines == [l] + rest && done + lines[..0] == done;
    if !Leaves(done, lines, 0) {
      k := 0;
    } else if rest == [] {
      k := 1;
      assert lines == [l];
      SavedLast(done, l);
    } else {
      var n := SavedMeans(done + [l], rest);
      SavedMore(done, l, rest, n);
      k := n + 1;
    }
  }

  /** A text without its carriage returns. */
  ghost function Returnless(text: string): string {
    if text == [] then [] else (if text[0] == '\r' then [] else [text[0]]) + Returnless(text[1..])
  }

  /** The first 255 characters of a line. */
  ghost function CutLine(l: string): string {
    if |l| <= 255 then l else l[..255]
  }

  ghost function Cut(lines: seq<string>): seq<string> {
    if lines == [] then [] else [CutLine(lines[0])] + Cut(lines[1..])
  }

  lemma CutLineOn(l: string, c: char)
    ensures CutLine(l + [c]) == if |CutLine(l)| < 255 then CutLine(l) + [c] else CutLine(l)
  {
    if |l| >= 255 { assert (l + [c])[..255] == l[..255]; }
  }

  lemma CutFirst(l: string, rest: seq<string>)
    ensures Cut([l] + rest) == [CutLine(l)] + Cut(rest)
  {
    assert ([l] + rest)[1..] == rest;
  }

  lemma RegroupCut(done: seq<string>, l: string, rest: seq<string>)
    ensures done + [l] + rest == done + ([l] + rest)
  {
  }

  ghost predicate OneLine(l: string) {
    forall i :: 0 <= i < |l| ==> l[i] != '\n'
  }

  ghost predicate OneLineEach(lines: seq<string>) {
    forall i :: 0 <= i < |lines| ==> OneLine(lines[i])
  }

  /** `lines` are the lines of `cur` and then `text`, and what parsing makes of them. */
  ghost predicate ParsedAs(text: string, done: seq<string>, cur: string, lines: seq<string>) {
    && lines != [] && OneLineEach(lines) && Join(lines) == cur + Returnless(text)
    && Parse(text, done, CutLine(cur)) == done + Cut(lines)
  }

  lemma ParsedEnd(done: seq<string>, cur: string)
    requires OneLine(cur)
    ensures ParsedAs([], done, cur, [cur])
  {
    JoinFirst(cur, []);
    CutFirst(cur, []);
    assert [cur] + [] == [cur] && cur + [] == cur && [CutLine(cur)] + [] == [CutLine(cur)];
  }

  lemma ParsedNewline(text: string, done: seq<string>, cur: string, rest: seq<string>)
    requires OneLine(cur) && text != [] && text[0] == '\n' && ParsedAs(text[1..], done + [CutLine(cur)], [], rest)
    ensures ParsedAs(text, done, cur, [cur] + rest)
  {
    JoinFirst(cur, rest);
    CutFirst(cur, rest);
    RegroupCut(done, CutLine(cur), Cut(rest));
    assert [] + Returnless(text[1..]) == Returnless(text[1..]);
  }

  lemma ParsedChar(text: string, done: seq<string>, cur: string, lines: seq<string>)
    requires text != [] && text[0] != '\n' && text[0] != '\r' && ParsedAs(text[1..], done, cur + [text[0]], lines)
    ensures ParsedAs(text, done, cur, lines)
  {
    CutLineOn(cur, text[0]);
    Regroup3(cur, [text[0]], Returnless(text[1..]));
  }

  /** The lines a text parses to are its lines, that is, what newlines separate once carriage
      returns are dropped, each cut to 255 characters. */
  lemma {:induction false} ParseMeans(text: string, done: seq<string>, cur: string) returns (lines: seq<string>)
    requires OneLine(cur)
    ensures ParsedAs(text, done, cur, lines)
    decreases |text|
  {
    if text == [] {
      lines := [cur];
      ParsedEnd(done, cur);
    } else if text[0] == '\r' {
      lines := ParseMeans(text[1..], done, cur);
      assert [] + Returnless(text[1..]) == Returnless(text[1..]);
    } else if text[0] == '\n' {
      var rest := ParseMeans(text[1..], done + [CutLine(cur)], []);
      lines := [cur] + rest;
      ParsedNewline(text, done, cur, rest);
    } else {
      lines := ParseMeans(text[1..], done, cur + [text[0]]);
      ParsedChar(text, done, cur, lines);
    }
  }

  // --------------------------------------------------------------------- runs

  datatype Key = Char(c: char) | Erase | Enter | GoLeft | GoRight | GoUp | GoDown

  /** The keys the main loop passes on: characters from the space to the tilde. */
  ghost predicate Printable(k: Key) {
    k.Char? ==> ' ' <= k.c <= '~'
  }

  ghost function Press(b: Buffer, k: Key): Buffer
    requires InText(b)
  {
    match k
    case Char(c) => Insert(b, c)
    case Erase => Backspace(b)
    case Enter => Newline(b)
    case GoLeft => Left(b)
    case GoRight => Right(b)
    case GoUp => Vertical(b, false)
    case GoDown => Vertical(b, true)
  }

  ghost predicate Good(b: Buffer) {
    && InText(b) && |b.lines| <= MAX_LINES
    && forall i :: 0 <= i < |b.lines| ==> Clean(b.lines[i])
  }

  lemma PressKeeps(b: Buffer, k: Key)
    requires Good(b) && Printable(k)
    ensures Good(Press(b, k))
  {
    match k
    case Char(c) => InsertGood(b, c);
    case Erase => BackspaceGood(b);
    case Enter => NewlineGood(b);
    case GoLeft =>
    case GoRight =>
    case GoUp =>
    case GoDown =>
  }

  lemma InsertGood(b: Buffer, c: char)
    requires Good(b) && ' ' <= c <= '~'
    ensures Good(Insert(b, c))
  {
    assert Clean(b.lines[b.y]);
  }

  lemma BackspaceGood(b: Buffer)
    requires Good(b)
    ensures Good(Backspace(b))
  {
    var r := Backspace(b);
    assert Clean(b.lines[b.y]);
    if b.y > 0 { assert Clean(b.lines[b.y - 1]); }
    if b.x == 0 && r != b {
      forall i | 0 <= i < |r.lines| ensures Clean(r.lines[i]) {
        if i >= b.y { assert r.lines[i] == b.lines[i + 1]; }
      }
    }
  }

  lemma NewlineGood(b: Buffer)
    requires Good(b)
    ensures Good(Newline(b))
  {
    var r := Newline(b);
    assert Clean(b.lines[b.y]);
    if r != b {
      forall i | 0 <= i < |r.lines| ensures Clean(r.lines[i]) {
        if i > b.y + 1 { assert r.lines[i] == b.lines[i - 1]; }
      }
    }
  }

  /** The buffer after a sequence of keys: the cursor is in the text, and the lines fit. */
  ghost function Typed(b: Buffer, keys: seq<Key>): (r: Buffer)
    requires Good(b) && forall i :: 0 <= i < |keys| ==> Printable(keys[i])
    ensures Good(r)
    decreases |keys|
  {
    if keys == [] then b
    else
      PressKeeps(b, keys[0]);
      Typed(Press(b, keys[0]), keys[1..])
  }

  /** What a key does to the text and to the cursor's offset in it. */
  ghost predicate Edits(b: Buffer, k: Key, r: Buffer) {
    && InText(b) && InText(r)
    && var at, text, line := Offset(b), Text(b), |b.lines[b.y]|;
    && at <= |text|
    && match k {
         case Char(c) =>
           if line >= 255 then r == b else Text(r) == text[..at] + [c] + text[at..] && Offset(r) == at + 1
         case Enter =>
           if |b.lines| >= 255 then r == b else Text(r) == text[..at] + "\n" + text[at..] && Offset(r) == at + 1
         case Erase =>
           if at == 0 || (b.x == 0 && |b.lines[b.y - 1]| + line >= 255) then r == b
           else Text(r) == text[..at - 1] + text[at..] && Offset(r) == at - 1
         case GoLeft => Text(r) == text && Offset(r) == if at == 0 then 0 else at - 1
         case GoRight => Text(r) == text && Offset(r) == if at == |text| then at else at + 1
         case GoUp => r.lines == b.lines && r.y == (if b.y == 0 then 0 else b.y - 1) && SameColumn(b, r)
         case GoDown => r.lines == b.lines && r.y == (if b.y + 1 == |b.lines| then b.y else b.y + 1) && SameColumn(b, r)
       }
  }

  /** The cursor is in the same column, or at the end of a line that is shorter. */
  ghost predicate SameColumn(b: Buffer, r: Buffer)
    requires InText(r)
  {
    r.x == if b.x <= |r.lines[r.y]| then b.x else |r.lines[r.y]|
  }

  lemma PressEdits(b: Buffer, k: Key)
    requires InText(b)
    ensures Edits(b, k, Press(b, k))
  {
    TextAround(b);
    match k
    case Char(c) => InsertIsEdit(b, c);
    case Erase => BackspaceIsEdit(b);
    case Enter => NewlineIsEdit(b);
    case GoLeft => LeftIsMove(b);
    case GoRight => RightIsMove(b);
    case GoUp => VerticalIsMove(b, false);
    case GoDown => VerticalIsMove(b, true);
  }

  /** Buffers `bs` that begin with `b`, each the edit of the one before by the next key. */
  ghost predicate Edited(b: Buffer, keys: seq<Key>, bs: seq<Buffer>) {
    |bs| == |keys| + 1 && bs[0] == b && forall i :: 0 <= i < |keys| ==> Edits(bs[i], keys[i], bs[i + 1])
  }

  /** Whatever keys are typed, the buffer is edited key by key. */
  lemma {:induction false} TypedEdits(b: Buffer, keys: seq<Key>) returns (bs: seq<Buffer>)
    requires Good(b) && forall i :: 0 <= i < |keys| ==> Printable(keys[i])
    ensures Edited(b, keys, bs) && bs[|keys|] == Typed(b, keys)
    decreases |keys|
  {
    if keys == [] {
      bs := [b];
    } else {
      PressKeeps(b, keys[0]);
      PressEdits(b, keys[0]);
      var rest := TypedEdits(Press(b, keys[0]), keys[1..]);
      bs := [b] + rest;
      forall i | 0 <= i < |keys| ensures Edits(bs[i], keys[i], bs[i + 1]) {
        if i > 0 { assert Edits(rest[i - 1], keys[1..][i - 1], rest[i]); }
      }
    }
  }

  /** What is saved is the text of some lines: all of them, or the first ones and an empty one. */
  lemma {:induction false} SavedIsText(lines: seq<string>, done: seq<string>) returns (ls: seq<string>)
    requires lines != [] && forall l :: l in done + lines ==> Clean(l)
    ensures ls != [] && |ls| <= |done| + |lines| && (forall l :: l in ls ==> Clean(l)) && Saved(lines, Before(done)) == Join(ls)
    decreases |lines|
  {
    var l, out := lines[0], Before(done);
    if |out| + |l| + 1 >= MAX_FILE {
      ls := done + [[]];
      JoinAround(done, [], []);
      assert done + [[]] + [] == ls;
    } else if |lines| == 1 {
      ls := done + [l];
      JoinAround(done, l, []);
      assert done + [l] + [] == ls;
    } else {
      BeforeMore(done, l);
      assert done + [l] + lines[1..] == done + lines;
      ls := SavedIsText(lines[1..], done + [l]);
    }
  }

  lemma LoadsText(ls: seq<string>)
    requires ls != [] && |ls| <= MAX_LINES && forall l :: l in ls ==> Clean(l)
    ensures Loads(Join(ls)) == ls
  {
    ParseJoin(ls, []);
    assert [] + ls == ls;
    forall i | 0 <= i < |ls| ensures UpToNul(ls[i]) == ls[i] {
      assert ls[i] in ls;
    }
  }

  /** The text fits the file buffer; an empty last line may still follow a text that fills it. */
  ghost predicate FitsFile(lines: seq<string>)
    requires lines != []
  {
    |Join(lines)| < MAX_FILE - 1 || (|Join(lines)| == MAX_FILE - 1 && lines[|lines| - 1] == [])
  }

  lemma SavedWhole(lines: seq<string>)
    requires lines != []
    ensures Saved(lines, []) == Join(lines) <==> FitsFile(lines)
  {
    SavedAll(lines, []);
    assert [] + Join(lines) == Join(lines);
  }

  lemma LoadsSaved(lines: seq<string>)
    requires 0 < |lines| <= MAX_LINES && forall l :: l in lines ==> Clean(l)
    ensures Loads(Saved(lines, [])) == lines <==> Saved(lines, []) == Join(lines)
  {
    assert [] + lines == lines;
    var ls := SavedIsText(lines, []);
    LoadsText(ls);
    LoadsText(lines);
  }

  /** Whatever was typed, saving and loading gives the lines back exactly if the text fits. */
  lemma TypeSaveLoad(b: Buffer, keys: seq<Key>)
    requires Good(b) && forall i :: 0 <= i < |keys| ==> Printable(keys[i])
    ensures var lines := Typed(b, keys).lines; Loads(Saved(lines, [])) == lines <==> FitsFile(lines)
  {
    SavedWhole(Typed(b, keys).lines);
    LoadsSaved(Typed(b, keys).lines);
  }

  // ------------------------------------------------------------- a text that is lost

  /** The key that makes the text longer: a character, or a new line if the line is full. */
  ghost function NextKey(b: Buffer): Key
    requires InText(b)
  {
    if |b.lines[b.y]| < MAX_COLS - 1 then Char('a') else Enter
  }

  /** The cursor is at the end of a text whose lines are full, up to the last. */
  ghost predicate Filling(b: Buffer) {
    && Good(b) && b.y == |b.lines| - 1 && b.x == |b.lines[b.y]| && |Text(b)| == 256 * b.y + |b.lines[b.y]|
  }

  lemma FillOn(b: Buffer)
    requires Filling(b) && |b.lines| < MAX_LINES - 1
    ensures var r := Press(b, NextKey(b)); Filling(r) && |Text(r)| == |Text(b)| + 1
  {
    PressKeeps(b, NextKey(b));
    InsertIsEdit(b, 'a');
    NewlineIsEdit(b);
  }

  ghost function FillKeys(b: Buffer, n: nat): (keys: seq<Key>)
    requires Good(b)
    ensures forall i :: 0 <= i < |keys| ==> Printable(keys[i])
    decreases n
  {
    if n == 0 then []
    else
      PressKeeps(b, NextKey(b));
      [NextKey(b)] + FillKeys(Press(b, NextKey(b)), n - 1)
  }

  lemma {:induction false} FilledBy(b: Buffer, n: nat)
    requires Filling(b) && |Text(b)| + n <= MAX_FILE
    ensures var r := Typed(b, FillKeys(b, n)); Filling(r) && |Text(r)| == |Text(b)| + n
    decreases n
  {
    if n == 0 {
    } else {
      var k := NextKey(b);
      FillOn(b);
      assert FillKeys(b, n)[1..] == FillKeys(Press(b, k), n - 1);
      FilledBy(Press(b, k), n - 1);
    }
  }

  /** Keys typed into an empty buffer after which saving loses the end of the text. */
  lemma EndIsLost() returns (keys: seq<Key>)
    ensures forall i :: 0 <= i < |keys| ==> Printable(keys[i])
    ensures Good(Buffer([[]], 0, 0))
    ensures var lines := Typed(Buffer([[]], 0, 0), keys).lines;
            |Join(lines)| == MAX_FILE && Saved(lines, []) != Join(lines) && Loads(Saved(lines, [])) != lines
  {
    var b := Buffer([[]], 0, 0);
    assert b.lines[1..] == [];
    assert Good(b) && Text(b) == [];
    keys := FillKeys(b, MAX_FILE);
    FilledBy(b, MAX_FILE);
    SavedWhole(Typed(b, keys).lines);
    TypeSaveLoad(b, keys);
  }

  lemma {:induction false} OnlyNewlines(text: string)
    requires forall i :: 0 <= i < |text| ==> text[i] == '\n'
    ensures Newlines(text) == |text|
  {
    if text == [] {
    } else {
      OnlyNewlines(text[1..]);
    }
  }

  /** A text that the file buffer holds and that has more lines than the editor has rows. */
  lemma TooManyLines() returns (text: string)
    ensures |text| < MAX_FILE && Newlines(text) == MAX_LINES
  {
    text := seq(MAX_LINES, _ => '\n');
    OnlyNewlines(text);
  }
}
