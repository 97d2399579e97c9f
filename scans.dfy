/**
 * Attack patterns of the three player colours of the newer engine generation
 * (src/game/players/RedPlayer.java, BluePlayer.java, GreenPlayer.java).
 *
 * Each `attack()` of the source walks a colour-specific list of cells and
 * engages each one in turn.  Here each list is a pure function of the
 * attacker's position (x, y) and the field size (w, h); the player methods in
 * module Paintball are proved to visit exactly these cells, in this order.
 * Coordinates are 1-based, x is the column and y the row.
 */
module Scans {
  import opened Rosters

  datatype Coord = Coord(x: int, y: int)

  /** The cell lies on a w-by-h field. */
  predicate OnField(c: Coord, w: int, h: int) {
    1 <= c.x <= w && 1 <= c.y <= h
  }

  // ---------------------------------------------------------------------------
  // Arithmetic facts about Euclidean division by a positive divisor
  // ---------------------------------------------------------------------------

  lemma MulAtLeast(a: int, d: int)
    requires a > 0 && d >= 1
    ensures a * d >= a
  {
    assert a * d == a * (d - 1) + a;
    assert a * (d - 1) >= 0;
  }

  /** Quotient and remainder are determined by n == a * q + r, 0 <= r < a. */
  lemma DivModUnique(n: int, a: int, q: int, r: int)
    requires a > 0 && 0 <= r < a && n == a * q + r
    ensures n / a == q && n % a == r
  {
    var q', r' := n / a, n % a;
    assert n == a * q' + r';
    if q' > q {
      assert a * q' == a * q + a * (q' - q);
      MulAtLeast(a, q' - q);
    } else if q' < q {
      assert a * q == a * q' + a * (q - q');
      MulAtLeast(a, q - q');
    }
  }

  /** An index below a * b has a row number below b. */
  lemma DivBelow(i: int, a: int, b: int)
    requires a > 0 && 0 <= i < a * b
    ensures 0 <= i / a < b
  {
    if i / a >= b {
      MulAtLeast(a, i / a - b + 1);
    }
  }

  // ---------------------------------------------------------------------------
  // Red: the rectangle from the attacker to the bottom-right corner, row-major
  // ---------------------------------------------------------------------------

  /** The i-th cell of the red rectangle whose width is aw (RedPlayer.java:19). */
  function RedCell(x: int, y: int, aw: int, i: int): Coord
    requires aw > 0
  {
    Coord(x + i % aw, y + i / aw)
  }

  /**
   * The cells a red player at (x, y) attacks, in order: indices 1 .. aw*ah - 1
   * of the rectangle, so every cell of it except the attacker's own.
   */
  function RedScan(x: int, y: int, w: int, h: int): (s: seq<Coord>)
    requires 1 <= x <= w && 1 <= y <= h
    ensures |s| == (w - x + 1) * (h - y + 1) - 1
  {
    var aw, ah := w - x + 1, h - y + 1;
    assert aw * ah >= 1 by { MulAtLeast(aw, ah); }
    seq(aw * ah - 1, k requires 0 <= k < aw * ah - 1 => RedCell(x, y, aw, k + 1))
  }

  /** Every attacked cell lies in [x, w] x [y, h] and is not the attacker's. */
  lemma RedScanInRectangle(x: int, y: int, w: int, h: int, k: int)
    requires 1 <= x <= w && 1 <= y <= h
    requires 0 <= k < |RedScan(x, y, w, h)|
    ensures x <= RedScan(x, y, w, h)[k].x <= w && y <= RedScan(x, y, w, h)[k].y <= h
    ensures RedScan(x, y, w, h)[k] != Coord(x, y)
  {
    var aw, ah := w - x + 1, h - y + 1;
    var i := k + 1;
    DivBelow(i, aw, ah);
    assert i == aw * (i / aw) + i % aw;
  }

  /** The scan is strictly row-major: by row, then by column within a row. */
  lemma {:induction false} RedScanRowMajor(x: int, y: int, w: int, h: int, k: int, l: int)
    requires 1 <= x <= w && 1 <= y <= h
    requires 0 <= k < l < |RedScan(x, y, w, h)|
    ensures var s := RedScan(x, y, w, h);
      s[k].y < s[l].y || (s[k].y == s[l].y && s[k].x < s[l].x)
  {
    var aw := w - x + 1;
    var i, j := k + 1, l + 1;
    assert i == aw * (i / aw) + i % aw;
    assert j == aw * (j / aw) + j % aw;
    if i / aw > j / aw {
      assert aw * (i / aw) == aw * (j / aw) + aw * (i / aw - j / aw);
      MulAtLeast(aw, i / aw - j / aw);
    } else if i / aw == j / aw {
      assert i % aw < j % aw;
    }
  }

  /** No cell is attacked twice. */
  lemma RedScanDistinct(x: int, y: int, w: int, h: int)
    requires 1 <= x <= w && 1 <= y <= h
    ensures Distinct(RedScan(x, y, w, h))
  {
    var s := RedScan(x, y, w, h);
    forall k, l | 0 <= k < l < |s| ensures s[k] != s[l] {
      RedScanRowMajor(x, y, w, h, k, l);
    }
  }

  /** Every cell of the rectangle other than the attacker's own is attacked. */
  lemma RedScanCovers(x: int, y: int, w: int, h: int, c: Coord)
    requires 1 <= x <= w && 1 <= y <= h
    requires x <= c.x <= w && y <= c.y <= h && c != Coord(x, y)
    ensures c in RedScan(x, y, w, h)
  {
    var aw, ah := w - x + 1, h - y + 1;
    var i := aw * (c.y - y) + (c.x - x);
    DivModUnique(i, aw, c.y - y, c.x - x);
    assert i >= 1;
    assert i < aw * ah by {
      assert aw * ah == aw * (c.y - y) + aw * (ah - (c.y - y));
      MulAtLeast(aw, ah - (c.y - y));
    }
    assert RedScan(x, y, w, h)[i - 1] == c;
  }

  // ---------------------------------------------------------------------------
  // Blue: the attacker's own row, alternating left and right
  // ---------------------------------------------------------------------------

  /** The column of the i-th attack of a blue player in column x (BluePlayer.java:19-28). */
  function BlueColumn(x: int, w: int, i: int): int
  {
    var offset := (i - 1) / 2 + 1;
    if x + offset > w then w - i
    else if x - offset <= 0 then i + 1
    else if i % 2 != 0 then x - offset
    else x + offset
  }

  /** The cells a blue player at (x, y) attacks, in order (attack numbers 1 .. w-1). */
  function BlueScan(x: int, y: int, w: int): (s: seq<Coord>)
    requires 1 <= x <= w
    ensures |s| == w - 1
    ensures forall k :: 0 <= k < |s| ==> s[k].y == y
  {
    seq(w - 1, k => Coord(BlueColumn(x, w, k + 1), y))
  }

  /** While both sides still have cells: x-1, x+1, x-2, x+2, ... (left first). */
  lemma BlueAlternates(x: int, w: int, i: int)
    requires 1 <= x <= w && i >= 1
    requires (i + 1) / 2 <= x - 1 && (i + 1) / 2 <= w - x
    ensures BlueColumn(x, w, i) == if i % 2 == 1 then x - (i + 1) / 2 else x + i / 2
  {
  }

  /** Right side used up first: the scan goes on leftwards, one cell further each time. */
  lemma BlueRightExhausted(x: int, w: int, i: int)
    requires 1 <= x <= w && w - x < x - 1
    requires 2 * (w - x) < i <= w - 1
    ensures BlueColumn(x, w, i) == w - i == x - (i - (w - x))
  {
  }

  /** Left side used up first: the scan goes on rightwards, one cell further each time. */
  lemma BlueLeftExhausted(x: int, w: int, i: int)
    requires 1 <= x <= w && x - 1 < w - x
    requires 2 * (x - 1) < i <= w - 1
    ensures BlueColumn(x, w, i) == i + 1 == x + (i - (x - 1))
  {
  }

  /** The attack number at which a blue player in column x reaches column c. */
  function BlueIndex(x: int, w: int, c: int): int
  {
    var left, right := x - 1, w - x;
    var m := if left < right then left else right;
    if c < x && x - c <= m then 2 * (x - c) - 1
    else if c > x && c - x <= m then 2 * (c - x)
    else if c < x then right + (x - c)
    else left + (c - x)
  }

  /** Attack number i hits a column of the row other than x, and BlueIndex recovers i. */
  lemma BlueColumnInverse(x: int, w: int, i: int)
    requires 1 <= x <= w && 1 <= i <= w - 1
    ensures 1 <= BlueColumn(x, w, i) <= w && BlueColumn(x, w, i) != x
    ensures BlueIndex(x, w, BlueColumn(x, w, i)) == i
  {
  }

  /** Every column of the row other than x is hit, by attack number BlueIndex. */
  lemma BlueIndexInverse(x: int, w: int, c: int)
    requires 1 <= x <= w && 1 <= c <= w && c != x
    ensures 1 <= BlueIndex(x, w, c) <= w - 1
    ensures BlueColumn(x, w, BlueIndex(x, w, c)) == c
  {
  }

  /**
   * The blue scan is a permutation of the row minus the attacker's cell: every
   * attacked cell is on the field and not the attacker's, no cell is attacked
   * twice, and every other cell of the row is attacked.
   */
  lemma BlueScanPermutation(x: int, y: int, w: int, h: int)
    requires 1 <= x <= w && 1 <= y <= h
    ensures forall k :: 0 <= k < w - 1 ==>
      OnField(BlueScan(x, y, w)[k], w, h) && BlueScan(x, y, w)[k] != Coord(x, y)
    ensures Distinct(BlueScan(x, y, w))
    ensures forall c :: 1 <= c <= w && c != x ==> Coord(c, y) in BlueScan(x, y, w)
  {
    var s := BlueScan(x, y, w);
    forall k | 0 <= k < w - 1
      ensures OnField(s[k], w, h) && s[k] != Coord(x, y)
    {
      BlueColumnInverse(x, w, k + 1);
    }
    forall k, l | 0 <= k < l < |s| ensures s[k] != s[l] {
      BlueColumnInverse(x, w, k + 1);
      BlueColumnInverse(x, w, l + 1);
    }
    forall c | 1 <= c <= w && c != x ensures Coord(c, y) in s {
      BlueIndexInverse(x, w, c);
      assert s[BlueIndex(x, w, c) - 1] == Coord(c, y);
    }
  }

  // ---------------------------------------------------------------------------
  // Green: both diagonals, the four rays taken round-robin
  // ---------------------------------------------------------------------------

  function Min(a: int, b: int): int {
    if a < b then a else b
  }

  /**
   * Number of cells on each diagonal ray from (x, y): ray 0 goes north-west,
   * 1 north-east, 2 south-west and 3 south-east (GreenPlayer.java:18-21).
   */
  function RayLengths(x: int, y: int, w: int, h: int): (lens: seq<int>)
    ensures |lens| == 4
  {
    [Min(x - 1, y - 1), Min(w - x, y - 1), Min(x - 1, h - y), Min(w - x, h - y)]
  }

  function Sum(lens: seq<int>): int
    requires |lens| == 4
  {
    lens[0] + lens[1] + lens[2] + lens[3]
  }

  /**
   * The cell at distance k from (x, y) on ray d: columns decrease on the even
   * rays and rows decrease on rays 0 and 1 (GreenPlayer.java:31-33).
   */
  function RayCell(x: int, y: int, d: int, k: int): Coord {
    Coord(if d % 2 == 0 then x - k else x + k, if d / 2 == 0 then y - k else y + k)
  }

  /** One attack of a green player: the ray taken and the distance reached on it. */
  datatype Visit = Visit(ray: int, dist: int)

  /** The place of a visit within its round: round dist-1 starts at ray (dist-1) mod 4. */
  function Rank(v: Visit): int {
    (v.ray - (v.dist - 1)) % 4
  }

  /**
   * The visits of round r over its first j tries: try j' takes ray (r + j') mod 4
   * and goes one cell further on it if the ray is longer than r (GreenPlayer.java:27-30).
   */
  function RoundPart(lens: seq<int>, r: nat, j: nat): seq<Visit>
    requires |lens| == 4 && j <= 4
  {
    if j == 0 then []
    else
      var d := (r + j - 1) % 4;
      RoundPart(lens, r, j - 1) + (if r < lens[d] then [Visit(d, r + 1)] else [])
  }

  /** The visits of rounds 0 .. n-1. */
  function Rounds(lens: seq<int>, n: nat): seq<Visit>
    requires |lens| == 4
  {
    if n == 0 then [] else Rounds(lens, n - 1) + RoundPart(lens, n - 1, 4)
  }

  /** The lengths of the first n rays added up. */
  function SumPrefix(lens: seq<int>, n: nat): int
    requires n <= |lens|
  {
    if n == 0 then 0 else SumPrefix(lens, n - 1) + lens[n - 1]
  }

  /** The rounds completed so far, then part of the current round, come first in the full list. */
  lemma {:induction false} RoundsPrefix(lens: seq<int>, i: nat, u: seq<Visit>, n: nat)
    requires |lens| == 4 && i < n && u <= RoundPart(lens, i, 4)
    ensures Rounds(lens, i) + u <= Rounds(lens, n)
    decreases n
  {
    if n == i + 1 {
      PrefixAppend(Rounds(lens, i), u, RoundPart(lens, i, 4));
    } else {
      RoundsPrefix(lens, i, u, n - 1);
      PrefixExtend(Rounds(lens, i) + u, Rounds(lens, n - 1), RoundPart(lens, n - 1, 4));
    }
  }


  /** A prefix stays a prefix behind a common front. */
  lemma PrefixExtend<T>(a: seq<T>, b: seq<T>, c: seq<T>)
    requires a <= b
    ensures a <= b + c
  {
    assert (b + c)[..|a|] == a;
  }

  lemma PrefixAppend<T>(a: seq<T>, u: seq<T>, w: seq<T>)
    requires u <= w
    ensures a + u <= a + w
  {
    assert (a + w)[..|a + u|] == a + u;
  }

  lemma {:induction false} RoundPartPrefix(lens: seq<int>, r: nat, j: nat)
    requires |lens| == 4 && j <= 4
    ensures RoundPart(lens, r, j) <= RoundPart(lens, r, 4)
  {
    var m := j;
    while m < 4
      invariant j <= m <= 4
      invariant RoundPart(lens, r, j) <= RoundPart(lens, r, m)
    {
      var d := (r + m) % 4;
      PrefixExtend(RoundPart(lens, r, j), RoundPart(lens, r, m), if r < lens[d] then [Visit(d, r + 1)] else []);
      m := m + 1;
    }
  }

  /**
   * How far each ray has been followed after the first j tries of round i:
   * min(length, i), plus one for the rays of this round tried so far that are
   * longer than i.
   */
  function Reached(lens: seq<int>, i: nat, j: nat): (r: seq<int>)
    requires |lens| == 4
    ensures |r| == 4
  {
    [ReachedOn(lens, i, j, 0), ReachedOn(lens, i, j, 1), ReachedOn(lens, i, j, 2), ReachedOn(lens, i, j, 3)]
  }

  /** The counter of ray d in Reached. */
  function ReachedOn(lens: seq<int>, i: nat, j: nat, d: int): int
    requires |lens| == 4 && 0 <= d < 4
  {
    Min(lens[d], i) + (if (d - i) % 4 < j && i < lens[d] then 1 else 0)
  }

  /**
   * Try j of round i takes ray (i + j) mod 4: the ray is followed one cell
   * further exactly when it is longer than i, and that cell is at distance
   * i + 1.  After the four tries of round i the rays stand where round i + 1
   * starts.
   */
  lemma ReachedStep(lens: seq<int>, i: nat, j: nat)
    requires |lens| == 4 && j < 4
    ensures var d := (i + j) % 4;
      Reached(lens, i, j)[d] == Min(lens[d], i) &&
      (Reached(lens, i, j)[d] < lens[d] <==> i < lens[d]) &&
      (forall e :: 0 <= e < 4 ==>
        Reached(lens, i, j + 1)[e] == Reached(lens, i, j)[e] + (if e == d && i < lens[d] then 1 else 0)) &&
      RoundPart(lens, i, j + 1) ==
        RoundPart(lens, i, j) + (if i < lens[d] then [Visit(d, i + 1)] else []) &&
      Reached(lens, i, j + 1) ==
        (if i < lens[d] then Reached(lens, i, j)[d := Reached(lens, i, j)[d] + 1] else Reached(lens, i, j))
  {
    var d := (i + j) % 4;
    SlotOfTry(i, j, d);
    forall e | 0 <= e < 4
      ensures Reached(lens, i, j + 1)[e] == Reached(lens, i, j)[e] + (if e == d && i < lens[d] then 1 else 0)
    {
      SlotOfTry(i, j, e);
    }
  }

  /** Ray e has slot j in round i exactly when try j of round i takes ray e. */
  lemma SlotOfTry(i: int, j: int, e: int)
    requires 0 <= j < 4 && 0 <= e < 4
    ensures (e - i) % 4 == j <==> e == (i + j) % 4
  {
    SlotShift(e, i);
    var m := i % 4 + j;
    assert i + j == 4 * (i / 4) + m;
    DivModUnique(i + j, 4, i / 4 + m / 4, m % 4);
  }

  /** The slot of ray e in round i depends only on i mod 4. */
  lemma SlotShift(e: int, i: int)
    ensures (e - i) % 4 == (e - i % 4 + 4) % 4
  {
    var m := e - i % 4 + 4;
    assert m == 4 * (m / 4) + m % 4;
    assert i == 4 * (i / 4) + i % 4;
    DivModUnique(e - i, 4, m / 4 - i / 4 - 1, m % 4);
  }

  lemma ReachedRound(lens: seq<int>, i: nat)
    requires |lens| == 4
    ensures Reached(lens, i, 4) == Reached(lens, i + 1, 0)
    ensures (forall d :: 0 <= d < 4 ==> lens[d] >= 0) ==> Reached(lens, 0, 0) == [0, 0, 0, 0]
  {
  }

  /** The visits of a green player at (x, y): as many rounds as there are diagonal cells. */
  function GreenVisits(x: int, y: int, w: int, h: int): seq<Visit>
    requires 1 <= x <= w && 1 <= y <= h
  {
    var lens := RayLengths(x, y, w, h);
    Rounds(lens, Sum(lens))
  }

  /** The cells that a list of visits from (x, y) reaches, in order. */
  function VisitCells(x: int, y: int, v: seq<Visit>): (s: seq<Coord>)
    ensures |s| == |v|
    ensures forall k :: 0 <= k < |v| ==> s[k] == RayCell(x, y, v[k].ray, v[k].dist)
  {
    if v == [] then [] else VisitCells(x, y, v[..|v| - 1]) + [RayCell(x, y, v[|v| - 1].ray, v[|v| - 1].dist)]
  }

  /** The cells of two lists of visits, one after the other. */
  lemma VisitCellsAppend(x: int, y: int, u: seq<Visit>, v: seq<Visit>)
    ensures VisitCells(x, y, u + v) == VisitCells(x, y, u) + VisitCells(x, y, v)
  {
    var a, b := VisitCells(x, y, u + v), VisitCells(x, y, u) + VisitCells(x, y, v);
    assert |a| == |b|;
    forall k | 0 <= k < |a|
      ensures a[k] == b[k]
    {
      if k < |u| {
        assert (u + v)[k] == u[k];
      } else {
        assert (u + v)[k] == v[k - |u|];
      }
    }
  }

  /** A prefix of the visits reaches a prefix of the cells. */
  lemma VisitCellsPrefix(x: int, y: int, u: seq<Visit>, v: seq<Visit>)
    requires u <= v
    ensures VisitCells(x, y, u) <= VisitCells(x, y, v)
  {
  }

  /** The cells a green player at (x, y) attacks, in order. */
  function GreenScan(x: int, y: int, w: int, h: int): (s: seq<Coord>)
    requires 1 <= x <= w && 1 <= y <= h
    ensures |s| == |GreenVisits(x, y, w, h)|
  {
    VisitCells(x, y, GreenVisits(x, y, w, h))
  }

  /**
   * Try j of round i, on a ray longer than i, adds one visit to the round and
   * the cell it reaches to the cells engaged after `before`.
   */
  lemma RoundStep(x: int, y: int, lens: seq<int>, i: nat, j: nat, round: seq<Visit>, before: seq<Coord>)
    requires |lens| == 4 && j < 4 && i < lens[(i + j) % 4] && round == RoundPart(lens, i, j)
    ensures var d := (i + j) % 4;
      var round' := round + [Visit(d, i + 1)];
      var done := before + VisitCells(x, y, round);
      round' == RoundPart(lens, i, j + 1) &&
      before + VisitCells(x, y, round') == done + [RayCell(x, y, d, i + 1)] &&
      (done + [RayCell(x, y, d, i + 1)])[..|done|] == done
  {
    ReachedStep(lens, i, j);
    var d := (i + j) % 4;
    assert (round + [Visit(d, i + 1)])[..|round|] == round;
  }

  /**
   * The cells reached by the rounds before round i, then by part of round
   * i, come first in the green attack.
   */
  lemma GreenScanPrefix(x: int, y: int, w: int, h: int, i: nat, u: seq<Visit>)
    requires 1 <= x <= w && 1 <= y <= h
    requires i < Sum(RayLengths(x, y, w, h)) && u <= RoundPart(RayLengths(x, y, w, h), i, 4)
    ensures VisitCells(x, y, Rounds(RayLengths(x, y, w, h), i) + u) <= GreenScan(x, y, w, h)
  {
    var lens := RayLengths(x, y, w, h);
    RoundsPrefix(lens, i, u, Sum(lens));
    VisitCellsPrefix(x, y, Rounds(lens, i) + u, Rounds(lens, Sum(lens)));
  }

  /** Try j' of round r takes the ray whose rank in that round is j'. */
  lemma RankOfTry(r: nat, j: nat)
    requires j < 4
    ensures Rank(Visit((r + j) % 4, r + 1)) == j
  {
  }

  /**
   * Round r, up to try j: it holds exactly the visits at distance r + 1 on the
   * rays longer than r whose rank is below j, in increasing rank.
   */
  lemma {:induction false} RoundPartFacts(lens: seq<int>, r: nat, j: nat)
    requires |lens| == 4 && j <= 4
    ensures forall v: Visit :: v in RoundPart(lens, r, j) <==>
      0 <= v.ray < 4 && v.dist == r + 1 && r < lens[v.ray] && Rank(v) < j
    ensures forall a, b :: 0 <= a < b < |RoundPart(lens, r, j)| ==>
      Rank(RoundPart(lens, r, j)[a]) < Rank(RoundPart(lens, r, j)[b])
  {
    if j > 0 {
      RoundPartFacts(lens, r, j - 1);
      RankOfTry(r, j - 1);
      var d := (r + j - 1) % 4;
      forall v: Visit | 0 <= v.ray < 4 && v.dist == r + 1 && Rank(v) == j - 1
        ensures v == Visit(d, r + 1)
      {
      }
    }
  }

  /** The number of visits in round r is the number of rays longer than r. */
  lemma RoundSize(lens: seq<int>, r: nat)
    requires |lens| == 4
    ensures |RoundPart(lens, r, 4)| ==
      (if r < lens[0] then 1 else 0) + (if r < lens[1] then 1 else 0) +
      (if r < lens[2] then 1 else 0) + (if r < lens[3] then 1 else 0)
  {
    assert RoundPart(lens, r, 1) == (if r < lens[r % 4] then [Visit(r % 4, r + 1)] else []);
    assert |RoundPart(lens, r, 2)| == |RoundPart(lens, r, 1)| + (if r < lens[(r + 1) % 4] then 1 else 0);
    assert |RoundPart(lens, r, 3)| == |RoundPart(lens, r, 2)| + (if r < lens[(r + 2) % 4] then 1 else 0);
    assert |RoundPart(lens, r, 4)| == |RoundPart(lens, r, 3)| + (if r < lens[(r + 3) % 4] then 1 else 0);
  }

  /**
   * Rounds 0 .. n-1 hold exactly the visits (d, k) with 1 <= k <= n and k no
   * longer than ray d, ordered by distance and, within a round, by rank.
   */
  lemma RoundsFacts(lens: seq<int>, n: nat)
    requires |lens| == 4
    ensures forall v: Visit :: v in Rounds(lens, n) <==>
      0 <= v.ray < 4 && 1 <= v.dist <= n && v.dist <= lens[v.ray]
    ensures forall a, b :: 0 <= a < b < |Rounds(lens, n)| ==>
      var va, vb := Rounds(lens, n)[a], Rounds(lens, n)[b];
      va.dist < vb.dist || (va.dist == vb.dist && Rank(va) < Rank(vb))
  {
    RoundsMembers(lens, n);
    RoundsOrdered(lens, n);
  }

  /** The membership half of RoundsFacts. */
  lemma {:induction false} RoundsMembers(lens: seq<int>, n: nat)
    requires |lens| == 4
    ensures forall v: Visit :: v in Rounds(lens, n) <==>
      0 <= v.ray < 4 && 1 <= v.dist <= n && v.dist <= lens[v.ray]
  {
    if n > 0 {
      RoundsMembers(lens, n - 1);
      RoundPartFacts(lens, n - 1, 4);
      var p: seq<Visit>, q: seq<Visit> := Rounds(lens, n - 1), RoundPart(lens, n - 1, 4);
      assert Rounds(lens, n) == p + q;
    }
  }

  /** Visits ordered by distance and, at equal distance, by rank. */
  predicate VisitOrdered(s: seq<Visit>) {
    forall a, b :: 0 <= a < b < |s| ==>
      s[a].dist < s[b].dist || (s[a].dist == s[b].dist && Rank(s[a]) < Rank(s[b]))
  }

  /** The ordering half of RoundsFacts. */
  lemma {:induction false} RoundsOrdered(lens: seq<int>, n: nat)
    requires |lens| == 4
    ensures VisitOrdered(Rounds(lens, n))
  {
    if n > 0 {
      RoundsOrdered(lens, n - 1);
      RoundsMembers(lens, n - 1);
      RoundPartFacts(lens, n - 1, 4);
      var p: seq<Visit>, q: seq<Visit> := Rounds(lens, n - 1), RoundPart(lens, n - 1, 4);
      assert Rounds(lens, n) == p + q;
      forall k | 0 <= k < |q| ensures q[k].dist == n {
        assert q[k] in q;
      }
      OrderedConcat(p, q, n);
    }
  }

  /**
   * Ordered visits closer than n, followed by visits at distance n in
   * increasing rank, are ordered.
   */
  lemma OrderedConcat(p: seq<Visit>, q: seq<Visit>, n: int)
    requires VisitOrdered(p) && forall v :: v in p ==> v.dist < n
    requires forall k :: 0 <= k < |q| ==> q[k].dist == n
    requires forall a, b :: 0 <= a < b < |q| ==> Rank(q[a]) < Rank(q[b])
    ensures VisitOrdered(p + q)
  {
    forall a, b | 0 <= a < b < |p + q|
      ensures (p + q)[a].dist < (p + q)[b].dist ||
        ((p + q)[a].dist == (p + q)[b].dist && Rank((p + q)[a]) < Rank((p + q)[b]))
    {
      if b < |p| {
      } else if a < |p| {
        assert (p + q)[a] in p && (p + q)[b] == q[b - |p|];
      } else {
        assert (p + q)[a] == q[a - |p|] && (p + q)[b] == q[b - |p|];
      }
    }
  }

  /** The number of visits in rounds 0 .. n-1 is the sum of min(length, n) over the rays. */
  lemma {:induction false} RoundsSize(lens: seq<int>, n: nat)
    requires |lens| == 4 && forall d :: 0 <= d < 4 ==> lens[d] >= 0
    ensures |Rounds(lens, n)| ==
      Min(lens[0], n) + Min(lens[1], n) + Min(lens[2], n) + Min(lens[3], n)
  {
    if n > 0 {
      RoundsSize(lens, n - 1);
      RoundSize(lens, n - 1);
    }
  }

  /** Distinct visits lead to distinct cells, none of them the attacker's own. */
  lemma RayCellInjective(x: int, y: int, v: Visit, u: Visit)
    requires 0 <= v.ray < 4 && 0 <= u.ray < 4 && v.dist >= 1 && u.dist >= 1
    ensures RayCell(x, y, v.ray, v.dist) != Coord(x, y)
    ensures RayCell(x, y, v.ray, v.dist) == RayCell(x, y, u.ray, u.dist) ==> v == u
  {
  }

  /** A cell no further out on its ray than the ray's length lies on the field. */
  lemma RayCellOnField(x: int, y: int, w: int, h: int, d: int, k: int)
    requires 1 <= x <= w && 1 <= y <= h
    requires 0 <= d < 4 && 1 <= k <= RayLengths(x, y, w, h)[d]
    ensures OnField(RayCell(x, y, d, k), w, h)
  {
    if d == 0 {
    } else if d == 1 {
    } else if d == 2 {
    } else {
    }
  }

  /**
   * The green scan: as many attacks as the four ray lengths add up to, each
   * on the field and not the attacker's own cell, no cell twice, no ray
   * beyond its length, and round after round in cyclic order of the rays.
   */
  lemma GreenScanFacts(x: int, y: int, w: int, h: int)
    requires 1 <= x <= w && 1 <= y <= h
    ensures |GreenScan(x, y, w, h)| == Sum(RayLengths(x, y, w, h))
    ensures forall k :: 0 <= k < |GreenScan(x, y, w, h)| ==>
      OnField(GreenScan(x, y, w, h)[k], w, h) && GreenScan(x, y, w, h)[k] != Coord(x, y)
    ensures Distinct(GreenScan(x, y, w, h))
    ensures forall v: Visit :: v in GreenVisits(x, y, w, h) ==>
      0 <= v.ray < 4 && 1 <= v.dist <= RayLengths(x, y, w, h)[v.ray]
  {
    var lens := RayLengths(x, y, w, h);
    var n := Sum(lens);
    var vs := GreenVisits(x, y, w, h);
    var s := GreenScan(x, y, w, h);
    RoundsSize(lens, n);
    RoundsFacts(lens, n);
    forall k | 0 <= k < |s| ensures OnField(s[k], w, h) && s[k] != Coord(x, y) {
      assert vs[k] in vs;
      RayCellOnField(x, y, w, h, vs[k].ray, vs[k].dist);
      RayCellInjective(x, y, vs[k], vs[k]);
    }
    forall a, b | 0 <= a < b < |s| ensures s[a] != s[b] {
      assert vs[a] in vs && vs[b] in vs;
      RayCellInjective(x, y, vs[a], vs[b]);
    }
  }

  /** Every cell on a diagonal through (x, y), other than (x, y) itself, is attacked. */
  lemma GreenScanCovers(x: int, y: int, w: int, h: int, c: Coord)
    requires 1 <= x <= w && 1 <= y <= h
    requires OnField(c, w, h) && c != Coord(x, y)
    requires c.x - x == c.y - y || c.x - x == y - c.y
    ensures c in GreenScan(x, y, w, h)
  {
    var lens := RayLengths(x, y, w, h);
    var k := if c.x > x then c.x - x else x - c.x;
    var d := (if c.y > y then 2 else 0) + (if c.x > x then 1 else 0);
    var v := Visit(d, k);
    assert RayCell(x, y, d, k) == c;
    RoundsFacts(lens, Sum(lens));
    assert v in GreenVisits(x, y, w, h);
    var vs := GreenVisits(x, y, w, h);
    var i :| 0 <= i < |vs| && vs[i] == v;
    assert GreenScan(x, y, w, h)[i] == c;
  }
}
