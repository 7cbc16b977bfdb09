/**
 * ProgressBar from argparser.h: the state update() keeps and the line it
 * draws, as data. The float fill fraction current/total is modelled by C's
 * integer division, which truncates toward zero.
 */
module Progress {
  import opened Wrappers

  /** Number of spinner frames. */
  const FrameCount := 10

  /** Division truncating toward zero, as static_cast<int> of a quotient does. */
  function TruncDiv(a: int, b: int): (q: int)
    requires b != 0
    ensures a >= 0 && b > 0 ==> q == a / b
  {
    var m := Abs(a) / Abs(b);
    if (a < 0) == (b < 0) then m else -m
  }

  /**
   * TruncDiv truncates: the remainder is zero or has the dividend's sign, and
   * is smaller in magnitude than the divisor.
   */
  lemma TruncDivTruncates(a: int, b: int)
    requires b != 0
    ensures var rem := a - TruncDiv(a, b) * b;
            (rem == 0 || (rem > 0) == (a > 0)) && -Abs(b) < rem < Abs(b)
  {
    TruncRemainder(a, b);
    var r := Abs(a) % Abs(b);
    assert 0 <= r < Abs(b);
    if a == 0 {
      assert r == 0 % Abs(b) == 0;
    }
  }

  /** The remainder left by TruncDiv is the magnitude's remainder, carrying the dividend's sign. */
  lemma TruncRemainder(a: int, b: int)
    requires b != 0
    ensures a - TruncDiv(a, b) * b == if a < 0 then -(Abs(a) % Abs(b)) else Abs(a) % Abs(b)
  {
    var m := Abs(a) / Abs(b);
    var r := Abs(a) % Abs(b);
    assert Abs(a) == m * Abs(b) + r;
    if (a < 0) == (b < 0) {
      SignedRemainder(a, b, m, r);
    } else {
      assert Abs(b) == Abs(-b);
      SignedRemainder(a, -b, m, r);
      assert TruncDiv(a, b) * b == m * (-b);
    }
  }

  lemma SignedRemainder(a: int, c: int, m: int, r: int)
    requires Abs(a) == m * Abs(c) + r && 0 <= r < Abs(c)
    requires (a < 0) == (c < 0)
    ensures a - m * c == if a < 0 then -r else r
  {
    if a < 0 {
      assert m * Abs(c) == -(m * c);
    }
  }

  function Abs(x: int): int
  {
    if x < 0 then -x else x
  }

  /** The three glyphs of a bar cell: filled, the boundary cell, empty. */
  datatype Cell = Filled | Boundary | Empty

  /** One drawn line: spinner frame, optional ETA in seconds, bar cells, percentage and counts. */
  datatype Line = Line(spinner: nat, eta: Option<real>, cells: seq<Cell>, percent: int, current: int, total: int)

  /** The position of the boundary cell, int(barWidth * (current / total)). */
  function FillPosition(current: int, total: int, barWidth: int): int
    requires total != 0
  {
    TruncDiv(barWidth * current, total)
  }

  /**
   * The line update() draws for `current` out of `total`, with spinner counter
   * `spinnerIndex` and `elapsedMs` milliseconds since the first update.
   */
  function Draw(current: int, total: int, barWidth: int, spinnerIndex: nat, elapsedMs: int): (line: Line)
    requires total != 0
    ensures line.spinner == spinnerIndex % FrameCount
    ensures line.eta.Some? <==> 0 < current < total
    ensures |line.cells| == if barWidth < 0 then 0 else barWidth
    ensures forall i :: 0 <= i < |line.cells| ==>
      (line.cells[i] == Filled <==> i < FillPosition(current, total, barWidth)) &&
      (line.cells[i] == Boundary <==> i == FillPosition(current, total, barWidth))
    ensures line.current == current && line.total == total
  {
    var pos := FillPosition(current, total, barWidth);
    var width := if barWidth < 0 then 0 else barWidth;
    var elapsed := elapsedMs as real / 1000.0;
    var eta := if 0 < current < total then Some(elapsed / current as real * (total - current) as real) else None;
    Line(spinnerIndex % FrameCount, eta,
         seq(width, i => if i < pos then Filled else if i == pos then Boundary else Empty),
         TruncDiv(current * 100, total), current, total)
  }

  /** The estimate is never negative while time runs forward. */
  lemma EtaNonNegative(current: int, total: int, barWidth: int, spinnerIndex: nat, elapsedMs: int)
    requires total != 0 && elapsedMs >= 0
    ensures var line := Draw(current, total, barWidth, spinnerIndex, elapsedMs);
            line.eta.Some? ==> line.eta.value >= 0.0
  {
    if 0 < current < total {
      var elapsed := elapsedMs as real / 1000.0;
      assert elapsed / current as real >= 0.0;
    }
  }

  /** Multiplying by a positive y moves a non-zero d at least y away from zero. */
  lemma {:induction false} MulMono(d: int, y: int)
    requires y > 0
    ensures d >= 1 ==> d * y >= y
    ensures d <= -1 ==> d * y <= -y
    decreases if d < 0 then -d else d
  {
    if d > 1 {
      MulMono(d - 1, y);
      assert d * y == (d - 1) * y + y;
    } else if d < -1 {
      MulMono(d + 1, y);
      assert d * y == (d + 1) * y - y;
    }
  }

  lemma MulDivCancel(x: nat, y: int)
    requires y > 0
    ensures x * y / y == x
  {
    var d := x * y / y - x;
    assert d * y == -(x * y % y);
    MulMono(d, y);
  }

  lemma TruncDivExact(k: int, b: int)
    requires b != 0
    ensures TruncDiv(k * b, b) == k
  {
    var ak := if k < 0 then -k else k;
    var ab := if b < 0 then -b else b;
    assert (if k * b < 0 then -(k * b) else k * b) == ak * ab by {
      if k < 0 && b < 0 {
        assert k * b == ak * ab;
      } else if k < 0 {
        assert k * b == -(ak * ab);
      } else if b < 0 {
        assert k * b == -(ak * ab);
      } else {
        assert k * b == ak * ab;
      }
    }
    MulDivCancel(ak, ab);
    if k == 0 {
      assert k * b == 0;
    } else {
      assert (k * b < 0) == ((k < 0) != (b < 0));
    }
  }

  /** At completion every cell is filled, there is no estimate and the percentage is 100. */
  lemma DrawComplete(total: int, barWidth: int, spinnerIndex: nat, elapsedMs: int)
    requires total != 0
    ensures var line := Draw(total, total, barWidth, spinnerIndex, elapsedMs);
            line.eta == None && line.percent == 100 &&
            forall i :: 0 <= i < |line.cells| ==> line.cells[i] == Filled
  {
    TruncDivExact(barWidth, total);
    TruncDivExact(100, total);
    assert total * 100 == 100 * total;
  }

  /** Before any progress the first cell is the boundary, the rest empty, at 0%. */
  lemma DrawAtZero(total: int, barWidth: int, spinnerIndex: nat, elapsedMs: int)
    requires total != 0
    ensures var line := Draw(0, total, barWidth, spinnerIndex, elapsedMs);
            line.eta == None && line.percent == 0 &&
            (|line.cells| > 0 ==> line.cells[0] == Boundary) &&
            forall i :: 0 < i < |line.cells| ==> line.cells[i] == Empty
  {
  }

  lemma DivMonotone(a1: nat, a2: nat, b: int)
    requires a1 <= a2 && b > 0
    ensures a1 / b <= a2 / b
  {
    var d := a1 / b - a2 / b;
    assert d * b == (a1 - a1 % b) - (a2 - a2 % b);
    assert d * b < b;
    MulMono(d, b);
  }

  /** Within 0..total, more progress never empties a filled cell, and the bar stays in bounds. */
  lemma FillMonotone(c1: int, c2: int, total: int, barWidth: int)
    requires 0 <= c1 <= c2 <= total && 0 < total && barWidth >= 0
    ensures 0 <= FillPosition(c1, total, barWidth) <= FillPosition(c2, total, barWidth) <= barWidth
  {
    var p1 := FillNumerator(c1, total, barWidth);
    var p2 := FillNumerator(c2, total, barWidth);
    var pt := barWidth * total;
    assert p1 <= p2 <= pt by {
      ScaleMonotone(barWidth, c1, c2);
      ScaleMonotone(barWidth, c2, total);
    }
    MulDivCancel(barWidth, total);
    QuotientChain(p1, p2, pt, total, barWidth);
  }

  /** For non-negative operands the fill position is the plain quotient of barWidth * current. */
  lemma FillNumerator(c: int, total: int, barWidth: int) returns (p: int)
    requires 0 <= c && 0 < total && barWidth >= 0
    ensures p == barWidth * c && 0 <= p && FillPosition(c, total, barWidth) == p / total
  {
    p := barWidth * c;
    ScaleMonotone(barWidth, 0, c);
  }

  /** Dividing an ordered chain of naturals by the same positive divisor keeps it ordered. */
  lemma QuotientChain(p1: int, p2: int, pt: int, total: int, w: int)
    requires 0 <= p1 <= p2 <= pt && 0 < total && pt / total == w
    ensures 0 <= p1 / total <= p2 / total <= w
  {
    DivMonotone(p1, p2, total);
    DivMonotone(p2, pt, total);
  }

  /** Scaling by k >= 0 keeps the order. */
  lemma ScaleMonotone(k: int, x: int, y: int)
    requires k >= 0 && x <= y
    ensures k * x <= k * y
  {
    var d := y - x;
    assert k * y - k * x == k * d;
    if k >= 1 && d >= 1 {
      MulMono(k, d);
    }
  }

  /** The live progress line: its spinner counter, start time and last value. */
  class ProgressBar {
    const total: int
    const barWidth: int
    var current: int
    var spinnerIndex: nat
    var started: bool
    var startTime: int

    /** ProgressBar(total, barWidth): nothing drawn yet, clock not yet read. */
    constructor(total: int, barWidth: int)
      requires total != 0
      ensures this.total == total && this.barWidth == barWidth
      ensures current == 0 && spinnerIndex == 0 && !started
    {
      this.total := total;
      this.barWidth := barWidth;
      current := 0;
      spinnerIndex := 0;
      started := false;
      startTime := 0;
    }

    /**
     * update(value) at clock reading `now` (nanoseconds): the first call fixes
     * the start time, every call advances the spinner by one and draws.
     */
    method Update(value: int, now: int) returns (line: Line)
      requires total != 0
      modifies this
      ensures started
      ensures startTime == if old(started) then old(startTime) else now
      ensures current == value
      ensures spinnerIndex == old(spinnerIndex) + 1
      ensures line == Draw(value, total, barWidth, old(spinnerIndex), TruncDiv(now - startTime, 1000000))
    {
      if !started {
        startTime := now;
        started := true;
      }
      current := value;
      var elapsedMs := TruncDiv(now - startTime, 1000000);
      line := Draw(current, total, barWidth, spinnerIndex, elapsedMs);
      spinnerIndex := spinnerIndex + 1;
    }

    /** finish(): update(total), which draws a full bar at 100% with no estimate. */
    method Finish(now: int) returns (line: Line)
      requires total != 0
      modifies this
      ensures started && current == total
      ensures spinnerIndex == old(spinnerIndex) + 1
      ensures startTime == if old(started) then old(startTime) else now
      ensures line == Draw(total, total, barWidth, old(spinnerIndex), TruncDiv(now - startTime, 1000000))
      ensures line.eta == None && line.percent == 100
      ensures forall i :: 0 <= i < |line.cells| ==> line.cells[i] == Filled
    {
      line := Update(total, now);
      DrawComplete(total, barWidth, old(spinnerIndex), TruncDiv(now - startTime, 1000000));
    }
  }
}
