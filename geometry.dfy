/** Grid geometry shared by the three revisions of the snake game: cells,
    headings, the shift-and-advance movement rule, growth at the tail, the
    guarded heading change and rejection-sampled placement. The classes of
    each revision are proved against these definitions. */
module Geometry {

  /** A cell of the terminal grid as (row, column). */
  type Pos = (int, int)

  /** The four keys the game accepts as headings. */
  predicate IsHeading(c: char) {
    c == 'w' || c == 'a' || c == 's' || c == 'd'
  }

  /** Two cells one step apart along one axis. */
  predicate Adjacent(p: Pos, q: Pos) {
    (p.0 == q.0 && (p.1 - q.1 == 1 || q.1 - p.1 == 1)) ||
    (p.1 == q.1 && (p.0 - q.0 == 1 || q.0 - p.0 == 1))
  }

  function Step(p: Pos, d: Pos): Pos {
    (p.0 + d.0, p.1 + d.1)
  }

  /** The unit step taken by `move` for heading `h`; the switch in the
      source leaves both offsets at 0 for any other character. */
  function Offset(h: char): (d: Pos)
    ensures IsHeading(h) ==> Adjacent((0, 0), d)
    ensures !IsHeading(h) ==> d == (0, 0)
    ensures h == 'a' ==> d == (0, -1)
    ensures h == 'd' ==> d == (0, 1)
    ensures h == 'w' ==> d == (-1, 0)
    ensures h == 's' ==> d == (1, 0)
  {
    if h == 'a' then (0, -1)
    else if h == 'd' then (0, 1)
    else if h == 'w' then (-1, 0)
    else if h == 's' then (1, 0)
    else (0, 0)
  }

  /** The offset `grow` applies to the tail: the reverse of the heading. */
  function Behind(h: char): (d: Pos)
    ensures Step(Offset(h), d) == (0, 0)
  {
    (-Offset(h).0, -Offset(h).1)
  }

  /** The body after one `move`: every segment takes its predecessor's cell
      and the head advances by the heading's offset. */
  function Moved(body: seq<Pos>, h: char): (r: seq<Pos>)
    requires |body| >= 1
    ensures |r| == |body|
    ensures r[0] == Step(body[0], Offset(h))
    ensures forall i :: 1 <= i < |r| ==> r[i] == body[i - 1]
  {
    [Step(body[0], Offset(h))] + body[..|body| - 1]
  }

  /** The body after one `grow`: the old body unchanged, followed by a cell
      next to the old tail on the side opposite to the heading. */
  function Grown(body: seq<Pos>, h: char): (r: seq<Pos>)
    requires |body| >= 1
    ensures |r| == |body| + 1
    ensures r[..|body|] == body
    ensures IsHeading(h) ==> Adjacent(body[|body| - 1], r[|body|])
    ensures IsHeading(h) ==> Step(r[|body|], Offset(h)) == body[|body| - 1]
    ensures !IsHeading(h) ==> r[|body|] == body[|body| - 1]
  {
    body + [Step(body[|body| - 1], Behind(h))]
  }

  /** A body built segment by segment as a move prescribes is `Moved`. */
  lemma ShiftedIsMoved(before: seq<Pos>, after: seq<Pos>, h: char)
    requires |before| >= 1 && |after| == |before|
    requires after[0] == Step(before[0], Offset(h))
    requires forall k :: 1 <= k < |after| ==> after[k] == before[k - 1]
    ensures after == Moved(before, h)
  {
  }

  /** Consecutive segments are one cell apart along one axis. */
  predicate Connected(body: seq<Pos>) {
    forall i :: 0 <= i < |body| - 1 ==> Adjacent(body[i], body[i + 1])
  }

  /** The head lies on some non-head segment. */
  predicate HitsSelf(body: seq<Pos>)
    requires |body| >= 1
  {
    exists i :: 1 <= i < |body| && body[i] == body[0]
  }

  /** The exact 180-degree reversals that the guarded `changeDirection`
      rejects. */
  predicate Opposite(current: char, requested: char) {
    (requested == 'w' && current == 's') || (requested == 's' && current == 'w') ||
    (requested == 'a' && current == 'd') || (requested == 'd' && current == 'a')
  }

  /** The guarded heading rule: a reversal keeps the current heading, any
      other character (a repeat included) becomes the heading. */
  function Turned(current: char, requested: char): (r: char)
    ensures Opposite(current, requested) ==> r == current
    ensures !Opposite(current, requested) ==> r == requested
  {
    if Opposite(current, requested) then current else requested
  }

  /** Opposite headings have offsets that cancel. */
  lemma OppositeOffsetsCancel(current: char, requested: char)
    requires Opposite(current, requested)
    ensures Step(Offset(current), Offset(requested)) == (0, 0)
  {
  }

  lemma TurnedNeverReverses(current: char, requested: char)
    ensures !Opposite(current, Turned(current, requested))
    ensures IsHeading(current) && IsHeading(requested) ==> IsHeading(Turned(current, requested))
  {
  }

  lemma {:induction false} MovedConnected(body: seq<Pos>, h: char)
    requires |body| >= 1 && Connected(body) && IsHeading(h)
    ensures Connected(Moved(body, h))
  {
    var r := Moved(body, h);
    forall i | 0 <= i < |r| - 1
      ensures Adjacent(r[i], r[i + 1])
    {
      if i == 0 {
        assert r[1] == body[0];
        assert Adjacent((0, 0), Offset(h));
      } else {
        assert r[i] == body[i - 1] && r[i + 1] == body[i];
        assert Adjacent(body[i - 1], body[i - 1 + 1]);
      }
    }
  }

  lemma {:induction false} GrownConnected(body: seq<Pos>, h: char)
    requires |body| >= 1 && Connected(body) && IsHeading(h)
    ensures Connected(Grown(body, h))
  {
    var r := Grown(body, h);
    forall i | 0 <= i < |r| - 1
      ensures Adjacent(r[i], r[i + 1])
    {
      assert r[i] == r[..|body|][i] == body[i];
      if i < |body| - 1 {
        assert r[i + 1] == r[..|body|][i + 1] == body[i + 1];
      }
    }
  }

  // ---------------------------------------------------------------------
  // Placement by rejection sampling

  /** The interior of the bordered playfield whose bottom-right border
      corner is `b`; the rows above row 4 hold the scoreboard and the top
      border. */
  predicate InPlayfield(b: Pos, p: Pos) {
    4 <= p.0 < b.0 && 1 <= p.1 < b.1
  }

  /** The four border lines drawn for bottom-right corner `b`: rows 3 and
      `b.0`, columns 0 and `b.1`. */
  predicate OnBorderLine(b: Pos, p: Pos) {
    p.0 == 3 || p.0 == b.0 || p.1 == 0 || p.1 == b.1
  }

  /** The rectangle the border lines enclose, border included. */
  predicate InFrameBox(b: Pos, p: Pos) {
    3 <= p.0 <= b.0 && 0 <= p.1 <= b.1
  }

  /** Inside the frame, a cell is on a border line exactly when it is not in
      the playfield. */
  lemma BorderLinesEnclosePlayfield(b: Pos, p: Pos)
    requires InFrameBox(b, p)
    ensures OnBorderLine(b, p) <==> !InPlayfield(b, p)
  {
  }

  /** The cell chosen by one iteration of a spawn loop from the two values
      `rand()` returned. For a non-negative draw, C++ `%` and Dafny `%`
      agree for every non-zero divisor. */
  function Candidate(b: Pos, rowDraw: nat, colDraw: nat): (p: Pos)
    requires b.0 != 4 && b.1 != 1
    ensures b.0 > 4 && b.1 > 1 ==> InPlayfield(b, p)
  {
    (rowDraw % (b.0 - 4) + 4, colDraw % (b.1 - 1) + 1)
  }

  /** The candidate cells of a food spawn loop, one per iteration. */
  function FoodCells(b: Pos, draws: seq<(nat, nat)>): (cells: seq<Pos>)
    requires b.0 != 4 && b.1 != 1
    ensures |cells| == |draws|
    ensures forall i :: 0 <= i < |draws| ==> cells[i] == Candidate(b, draws[i].0, draws[i].1)
  {
    seq(|draws|, i requires 0 <= i < |draws| => Candidate(b, draws[i].0, draws[i].1))
  }

  /** The candidate cells of a powerup spawn loop, whose iterations draw
      row, column and type: the food candidates of the row and column
      draws. */
  function PowerupCells(b: Pos, draws: seq<(nat, nat, nat)>): (cells: seq<Pos>)
    requires b.0 != 4 && b.1 != 1
    ensures |cells| == |draws|
    ensures forall i :: 0 <= i < |draws| ==> cells[i] == Candidate(b, draws[i].0, draws[i].1)
  {
    FoodCells(b, seq(|draws|, i requires 0 <= i < |draws| => (draws[i].0, draws[i].1)))
  }

  /** The number of candidates a spawn loop rejects before it finds one on
      no snake segment; `|cells|` when every candidate is occupied. */
  function FirstFree(cells: seq<Pos>, body: seq<Pos>): (k: nat)
    ensures k <= |cells|
    ensures forall j :: 0 <= j < k ==> cells[j] in body
    ensures k < |cells| ==> cells[k] !in body
    decreases |cells|
  {
    if cells == [] then 0
    else if cells[0] in body then 1 + FirstFree(cells[1..], body)
    else 0
  }

  /** The contract of FirstFree determines it. */
  lemma FirstFreeUnique(cells: seq<Pos>, body: seq<Pos>, k: nat)
    requires k <= |cells|
    requires forall j :: 0 <= j < k ==> cells[j] in body
    requires k < |cells| ==> cells[k] !in body
    ensures FirstFree(cells, body) == k
  {
  }

  /** Rejection sampling never places on the snake, and places in the
      playfield whenever some draw is free. */
  lemma PlacementIsSafe(b: Pos, draws: seq<(nat, nat)>, body: seq<Pos>)
    requires b.0 > 4 && b.1 > 1
    ensures var cells := FoodCells(b, draws);
            var k := FirstFree(cells, body);
            k < |cells| ==> InPlayfield(b, cells[k]) && cells[k] !in body
    ensures (exists i :: 0 <= i < |draws| && Candidate(b, draws[i].0, draws[i].1) !in body)
            ==> FirstFree(FoodCells(b, draws), body) < |draws|
  {
  }

  // ---------------------------------------------------------------------
  // Scenarios

  /** A one-segment snake heading right at (10,10) moves to (10,11). */
  lemma SingleSegmentMoves()
    ensures Moved([(10, 10)], 'd') == [(10, 11)]
  {
  }

  /** Moving onto food and growing: the tail segment dropped by the move is
      the cell the new segment takes, so the snake ends four long. */
  lemma EatScenario()
    ensures Moved([(5, 5), (5, 4), (5, 3)], 'd') == [(5, 6), (5, 5), (5, 4)]
    ensures Grown(Moved([(5, 5), (5, 4), (5, 3)], 'd'), 'd') == [(5, 6), (5, 5), (5, 4), (5, 3)]
  {
  }
}
