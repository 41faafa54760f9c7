/** The line loop of the graphics driver, against the ideal line. */
module LineDrawing {

  datatype Pixel = Pixel(x: int, y: int)

  function Abs(a: int): nat {
    if a < 0 then -a else a
  }

  function Max(a: nat, b: nat): nat {
    if a < b then b else a
  }

  ghost predicate Between(a: int, b: int, c: int) {
    a <= c <= b || b <= c <= a
  }

  /** `p` is the `i`-th pixel of a line: inside the box of its end points, `i` steps along
      the longer axis, and within half a pixel of the ideal line along the shorter one. */
  ghost predicate OnLine(from: Pixel, to: Pixel, i: nat, p: Pixel) {
    var dx, dy := Abs(to.x - from.x), Abs(to.y - from.y);
    var mx, my := Abs(p.x - from.x), Abs(p.y - from.y);
    && Between(from.x, to.x, p.x) && Between(from.y, to.y, p.y)
    && i == (if dx >= dy then mx else my)
    && Abs(2 * (my * dx - mx * dy)) <= Max(dx, dy)
  }

  /** The state of the loop after `mx` and `my` steps along the axes: `d` is twice the
      distance from the ideal line, scaled by the length of the longer axis. */
  ghost predicate Stepping(dx: nat, dy: nat, mx: nat, my: nat, err: int, d: int) {
    && d == 2 * (my * dx) - 2 * (mx * dy) && 2 * err == 2 * dx - 2 * dy + d
    && mx <= dx && my <= dy
    && (dx >= dy ==> 0 <= d + dx < 2 * dx && (dx == dy ==> d == 0))
    && (dx < dy ==> 0 < d + dy <= 2 * dy)
  }

  /** A product of counts stays below the product of their limits. */
  lemma Product(m: nat, n: nat, k: nat)
    requires m < n
    ensures m * k + k <= n * k
  {
    assert n * k == m * k + k + (n - m - 1) * k;
    assert (n - m - 1) * k >= 0;
  }

  /** Along the longer axis every turn steps; where it ends, the other axis has arrived. */
  lemma Arrives(dx: nat, dy: nat, mx: nat, my: nat, err: int, d: int)
    requires dx > 0 && dy > 0 && Stepping(dx, dy, mx, my, err, d)
    ensures mx == dx && dx >= dy ==> my == dy
    ensures my == dy && dx < dy ==> mx == dx
    ensures dx >= dy && my == dy && mx < dx ==> d >= 2 * dy - dx
    ensures dx < dy && mx == dx && my < dy ==> d <= dy - 2 * dx
  {
    if mx == dx && my < dy { Product(my, dy, dx); }
    if my == dy && mx < dx { Product(mx, dx, dy); }
  }

  /** One turn of the loop keeps its state. */
  lemma Steps(dx: nat, dy: nat, mx: nat, my: nat, err: int, d: int)
    requires dx > 0 && dy > 0 && Stepping(dx, dy, mx, my, err, d) && !(mx == dx && my == dy)
    ensures var stepX, stepY := 2 * err + dy > 0, 2 * err < dx;
            var mx', my' := if stepX then mx + 1 else mx, if stepY then my + 1 else my;
            && (dx >= dy ==> stepX) && (dx < dy ==> stepY)
            && Stepping(dx, dy, mx', my', err - (if stepX then dy else 0) + (if stepY then dx else 0),
                        d - (if stepX then 2 * dy else 0) + (if stepY then 2 * dx else 0))
  {
    Arrives(dx, dy, mx, my, err, d);
    assert (mx + 1) * dy == mx * dy + dy;
    assert (my + 1) * dx == my * dx + dx;
  }

  /** The coordinate `m` steps from `a` towards `b`. */
  function Along(a: int, b: int, m: nat): int {
    if a < b then a + m else a - m
  }

  /** A pixel in such a state is on the line. */
  lemma DrawnOnLine(from: Pixel, to: Pixel, mx: nat, my: nat, err: int, d: int)
    requires from.x != to.x && from.y != to.y
    requires Stepping(Abs(to.x - from.x), Abs(to.y - from.y), mx, my, err, d)
    ensures var dx, dy := Abs(to.x - from.x), Abs(to.y - from.y);
            var p := Pixel(Along(from.x, to.x, mx), Along(from.y, to.y, my));
            && OnLine(from, to, if dx >= dy then mx else my, p)
            && (p == to <==> mx == dx && my == dy)
            && (mx == dx && dx >= dy ==> my == dy) && (my == dy && dx < dy ==> mx == dx)
  {
    Arrives(Abs(to.x - from.x), Abs(to.y - from.y), mx, my, err, d);
  }

  ghost predicate AllOnLine(from: Pixel, to: Pixel, pixels: seq<Pixel>) {
    forall i :: 0 <= i < |pixels| ==> OnLine(from, to, i, pixels[i])
  }

  /** The loop about to draw `p`, after `mx` and `my` steps along the axes. */
  ghost predicate Drawing(from: Pixel, to: Pixel, pixels: seq<Pixel>, p: Pixel, err: int, mx: nat, my: nat, d: int) {
    var dx, dy := Abs(to.x - from.x), Abs(to.y - from.y);
    && dx > 0 && dy > 0 && Stepping(dx, dy, mx, my, err, d)
    && p == Pixel(Along(from.x, to.x, mx), Along(from.y, to.y, my))
    && |pixels| == (if dx >= dy then mx else my)
    && (if pixels == [] then p else pixels[0]) == from
    && AllOnLine(from, to, pixels)
  }

  /** The point drawn is on the line, and is the end point exactly at the end. */
  lemma Drawn(from: Pixel, to: Pixel, pixels: seq<Pixel>, p: Pixel, err: int, mx: nat, my: nat, d: int)
    requires Drawing(from, to, pixels, p, err, mx, my, d)
    ensures AllOnLine(from, to, pixels + [p]) && (pixels + [p])[0] == from
    ensures p == to ==> |pixels| == Max(Abs(to.x - from.x), Abs(to.y - from.y))
    ensures p != to ==> |pixels| < Max(Abs(to.x - from.x), Abs(to.y - from.y))
  {
    DrawnOnLine(from, to, mx, my, err, d);
  }

  ghost predicate Turned(from: Pixel, to: Pixel, err: int, p: Pixel, err': int, p': Pixel) {
    var dx, dy := Abs(to.x - from.x), Abs(to.y - from.y);
    && err' == err - (if 2 * err + dy > 0 then dy else 0) + (if 2 * err < dx then dx else 0)
    && p'.x == (if 2 * err + dy > 0 then Along(p.x, p.x + to.x - from.x, 1) else p.x)
    && p'.y == (if 2 * err < dx then Along(p.y, p.y + to.y - from.y, 1) else p.y)
  }

  lemma NextTurn(from: Pixel, to: Pixel, pixels: seq<Pixel>, p: Pixel, err: int, mx: nat, my: nat, d: int,
                 err': int, p': Pixel)
    returns (mx': nat, my': nat, d': int)
    requires Drawing(from, to, pixels, p, err, mx, my, d) && p != to && Turned(from, to, err, p, err', p')
    ensures Drawing(from, to, pixels + [p], p', err', mx', my', d')
  {
    var dx, dy := Abs(to.x - from.x), Abs(to.y - from.y);
    DrawnOnLine(from, to, mx, my, err, d);
    Drawn(from, to, pixels, p, err, mx, my, d);
    Steps(dx, dy, mx, my, err, d);
    d' := d - (if 2 * err + dy > 0 then 2 * dy else 0) + (if 2 * err < dx then 2 * dx else 0);
    mx' := if 2 * err + dy > 0 then mx + 1 else mx;
    my' := if 2 * err < dx then my + 1 else my;
    TurnedAlong(from, to, err, p, err', p', mx, my);
  }

  /** The pixel moves along by what was stepped. */
  lemma TurnedAlong(from: Pixel, to: Pixel, err: int, p: Pixel, err': int, p': Pixel, mx: nat, my: nat)
    requires Turned(from, to, err, p, err', p') && p == Pixel(Along(from.x, to.x, mx), Along(from.y, to.y, my))
    ensures var dx, dy := Abs(to.x - from.x), Abs(to.y - from.y);
            p' == Pixel(Along(from.x, to.x, if 2 * err + dy > 0 then mx + 1 else mx),
                        Along(from.y, to.y, if 2 * err < dx then my + 1 else my))
  {
  }

  /** The general loop of `vga_draw_line`: the pixels in the order they are drawn. */
  method DrawLine(from: Pixel, to: Pixel) returns (pixels: seq<Pixel>)
    requires from.x != to.x && from.y != to.y
    ensures |pixels| == Max(Abs(to.x - from.x), Abs(to.y - from.y)) + 1
    ensures pixels[0] == from && pixels[|pixels| - 1] == to
    ensures forall i :: 0 <= i < |pixels| ==> OnLine(from, to, i, pixels[i])
  {
    var dx, dy := Abs(to.x - from.x), Abs(to.y - from.y);
    var err: int := dx;
    err := err - dy;
    var p := from;
    ghost var mx: nat, my: nat, d: int := 0, 0, 0;
    pixels := [];
    while true
      invariant Drawing(from, to, pixels, p, err, mx, my, d)
      decreases Max(dx, dy) - |pixels|
    {
      Drawn(from, to, pixels, p, err, mx, my, d);
      ghost var drawn := pixels;
      pixels := pixels + [p];
      if p == to { break; }
      var err', p' := Step(from, to, dx, dy, err, p);
      mx, my, d := NextTurn(from, to, drawn, p, err, mx, my, d, err', p');
      err, p := err', p';
    }
  }

  /** The error and the point after one turn. */
  method Step(from: Pixel, to: Pixel, dx: nat, dy: nat, err: int, p: Pixel) returns (err': int, p': Pixel)
    requires dx == Abs(to.x - from.x) && dy == Abs(to.y - from.y)
    ensures Turned(from, to, err, p, err', p')
  {
    var sx := if from.x < to.x then 1 else -1;
    var sy := if from.y < to.y then 1 else -1;
    var e2 := 2 * err;
    err', p' := err, p;
    if e2 > 0 - dy {
      err' := err' - dy;
      p' := p'.(x := p'.x + sx);
    }
    if e2 < dx {
      err' := err' + dx;
      p' := p'.(y := p'.y + sy);
    }
  }
}
