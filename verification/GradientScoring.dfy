// Byzantine-robust gradient scoring (savitri-core/src/fl_robust.rs): gradients pass a chain of gates,
// the survivors' coordinate-wise lower median is the baseline, and each survivor is scored by its
// direction against it. Finite floats are reals here; the norm is any function with norm(v)^2 = sum of v_i^2.
module GradientScoring {
  import opened Permutations
  import Quorum

  datatype Coordinate = Finite(value: real) | NonFinite

  datatype Client = Client(peer: string, gradient: seq<Coordinate>)

  datatype Scored = Scored(peer: string, permille: int, included: bool)

  type Vector = seq<real>

  const NORM_CLIP := 10.0
  const THRESHOLD := 200

  // ---------- Norm and dot product ----------

  function Dot(a: Vector, b: Vector): real
    requires |a| == |b|
  {
    if a == [] then 0.0 else Dot(a[..|a| - 1], b[..|b| - 1]) + a[|a| - 1] * b[|b| - 1]
  }

  function SumSquares(v: Vector): real {
    Dot(v, v)
  }

  ghost predicate IsNorm(norm: Vector -> real) {
    forall v :: norm(v) >= 0.0 && norm(v) * norm(v) == SumSquares(v)
  }

  lemma {:induction false} SquaresNonNegative(v: Vector)
    ensures SumSquares(v) >= 0.0
  {
    if v != [] {
      SquaresNonNegative(v[..|v| - 1]);
    }
  }

  /** x * a - y * b, coordinate by coordinate. */
  function Combine(x: real, a: Vector, y: real, b: Vector): (c: Vector)
    requires |a| == |b|
    ensures |c| == |a|
  {
    if a == [] then [] else Combine(x, a[..|a| - 1], y, b[..|b| - 1]) + [x * a[|a| - 1] - y * b[|b| - 1]]
  }

  lemma {:induction false} CombineSquares(x: real, a: Vector, y: real, b: Vector)
    requires |a| == |b|
    ensures SumSquares(Combine(x, a, y, b)) == x * x * SumSquares(a) - 2.0 * x * y * Dot(a, b) + y * y * SumSquares(b)
  {
    if a != [] {
      var n := |a| - 1;
      CombineSquares(x, a[..n], y, b[..n]);
      var c := Combine(x, a, y, b);
      assert c[..n] == Combine(x, a[..n], y, b[..n]);
      Expand(x, SumSquares(a[..n]), a[n], y, SumSquares(b[..n]), b[n], Dot(a[..n], b[..n]));
    }
  }

  lemma Expand(x: real, A: real, p: real, y: real, B: real, q: real, D: real)
    ensures x * x * A - 2.0 * x * y * D + y * y * B + (x * p - y * q) * (x * p - y * q) ==
            x * x * (A + p * p) - 2.0 * x * y * (D + p * q) + y * y * (B + q * q)
  {
  }

  lemma ProductPositive(x: real, y: real)
    requires x > 0.0 && y > 0.0
    ensures x * y > 0.0
  {
  }

  lemma SquarePositive(x: real)
    requires x != 0.0
    ensures x * x > 0.0
  {
    if x > 0.0 {
      ProductPositive(x, x);
    } else {
      ProductPositive(-x, -x);
    }
  }

  lemma {:induction false} ZeroSquares(v: Vector, w: Vector)
    requires |v| == |w| && SumSquares(v) == 0.0
    ensures Dot(v, w) == 0.0
  {
    if v != [] {
      var n := |v| - 1;
      SquaresNonNegative(v[..n]);
      if v[n] != 0.0 {
        SquarePositive(v[n]);
      }
      ZeroSquares(v[..n], w[..n]);
    }
  }

  lemma CauchySchwarz(a: Vector, b: Vector)
    requires |a| == |b|
    ensures Dot(a, b) * Dot(a, b) <= SumSquares(a) * SumSquares(b)
  {
    var A, B, D := SumSquares(a), SumSquares(b), Dot(a, b);
    SquaresNonNegative(a);
    SquaresNonNegative(b);
    if A == 0.0 {
      ZeroSquares(a, b);
    } else {
      // The square sum of D * a - A * b is A * (A * B - D * D).
      CombineSquares(D, a, A, b);
      SquaresNonNegative(Combine(D, a, A, b));
      Discriminant(A, B, D);
    }
  }

  lemma Discriminant(A: real, B: real, D: real)
    requires A > 0.0 && D * D * A - 2.0 * D * A * D + A * A * B >= 0.0
    ensures D * D <= A * B
  {
    assert D * D * A - 2.0 * D * A * D + A * A * B == A * (A * B - D * D);
  }

  lemma SquareBeyond(c: real, q: real)
    requires (c > 1.0 || c < -1.0) && q > 0.0
    ensures (c * c) * q > q
  {
    if c > 1.0 {
      ProductPositive(c - 1.0, c + 1.0);
    } else {
      ProductPositive(-c - 1.0, -c + 1.0);
    }
    assert c * c > 1.0;
    ProductPositive(c * c - 1.0, q);
  }

  lemma WithinRoot(d: real, p: real)
    requires p > 0.0 && d * d <= p * p
    ensures -1.0 <= d / p <= 1.0
  {
    var c := d / p;
    assert d == c * p;
    assert d * d == (c * c) * (p * p);
    ProductPositive(p, p);
    if c > 1.0 || c < -1.0 {
      SquareBeyond(c, p * p);
    }
  }

  /** The cosine of two vectors with norms n and m lies between -1 and 1. */
  lemma CosineRange(a: Vector, b: Vector, n: real, m: real)
    requires |a| == |b| && n > 0.0 && m > 0.0 && n * n == SumSquares(a) && m * m == SumSquares(b)
    ensures n * m > 0.0 && -1.0 <= Dot(a, b) / (n * m) <= 1.0
  {
    CauchySchwarz(a, b);
    ProductOfSquares(n, m);
    WithinRoot(Dot(a, b), n * m);
  }

  lemma ProductOfSquares(n: real, m: real)
    requires n > 0.0 && m > 0.0
    ensures n * m > 0.0 && (n * m) * (n * m) == (n * n) * (m * m)
  {
  }

  // ---------- Gates ----------

  function Values(g: seq<Coordinate>): (v: Vector)
    ensures |v| == |g|
  {
    seq(|g|, i requires 0 <= i < |g| => if g[i].Finite? then g[i].value else 0.0)
  }

  predicate Passes(norm: Vector -> real, dim: nat, g: seq<Coordinate>) {
    && |g| == dim
    && (forall i :: 0 <= i < |g| ==> g[i].Finite?)
    && norm(Values(g)) <= NORM_CLIP
  }

  lemma SquaresCompare(x: real, y: real)
    requires 0.0 <= x < y
    ensures x * x < y * y
  {
    ProductPositive(y - x, y + x);
    assert (y - x) * (y + x) == y * y - x * x;
  }

  lemma AtMostTen(n: real)
    requires n >= 0.0
    ensures n <= 10.0 <==> n * n <= 100.0
  {
    if n > 10.0 {
      SquaresCompare(10.0, n);
    } else if n < 10.0 {
      SquaresCompare(n, 10.0);
    }
  }

  /** A gradient passes exactly when it has the dimension, is finite, and its squares sum up to at most 100. */
  lemma PassesIff(norm: Vector -> real, dim: nat, g: seq<Coordinate>)
    requires IsNorm(norm)
    ensures Passes(norm, dim, g) <==>
            |g| == dim && (forall i :: 0 <= i < |g| ==> g[i] != NonFinite) && SumSquares(Values(g)) <= 100.0
  {
    AtMostTen(norm(Values(g)));
  }

  function Survivors(norm: Vector -> real, dim: nat, clients: seq<Client>): seq<Vector> {
    Flat((c: Client) => if Passes(norm, dim, c.gradient) then [Values(c.gradient)] else [], clients)
  }

  lemma {:induction false} SurvivorsPass(norm: Vector -> real, dim: nat, clients: seq<Client>)
    ensures forall i :: 0 <= i < |Survivors(norm, dim, clients)| ==>
              |Survivors(norm, dim, clients)[i]| == dim && norm(Survivors(norm, dim, clients)[i]) <= NORM_CLIP
  {
    if clients != [] {
      var n := |clients| - 1;
      SurvivorsPass(norm, dim, clients[..n]);
      var g := clients[n].gradient;
      assert Survivors(norm, dim, clients) ==
             Survivors(norm, dim, clients[..n]) + if Passes(norm, dim, g) then [Values(g)] else [];
    }
  }

  // ---------- Coordinate-wise lower median ----------

  function Column(vectors: seq<Vector>, i: nat): seq<real> {
    Flat((v: Vector) => if i < |v| then [v[i]] else [], vectors)
  }

  lemma {:induction false} ColumnIs(vectors: seq<Vector>, i: nat)
    requires forall k :: 0 <= k < |vectors| ==> i < |vectors[k]|
    ensures |Column(vectors, i)| == |vectors|
    ensures forall k :: 0 <= k < |vectors| ==> Column(vectors, i)[k] == vectors[k][i]
  {
    if vectors != [] {
      ColumnIs(vectors[..|vectors| - 1], i);
    }
  }

  function LowerMedian(column: seq<real>): real {
    if column == [] then 0.0
    else
      SortSorts(column);
      Sort(column)[(|column| - 1) / 2]
  }

  function Median(vectors: seq<Vector>, dim: nat): (m: Vector)
    ensures |m| == dim
  {
    seq(dim, i requires 0 <= i < dim => LowerMedian(Column(vectors, i)))
  }

  method SortColumn(column: seq<real>) returns (sorted: seq<real>)
    ensures sorted == Sort(column)
  {
    sorted := [];
    for i := 0 to |column|
      invariant sorted == Sort(column[..i])
    {
      assert column[..i + 1][..i] == column[..i];
      sorted := Insert(column[i], sorted);
    }
    assert column[..|column|] == column;
  }

  method CoordinateWiseMedian(survivors: seq<Vector>, dim: nat) returns (out: Vector)
    requires forall k :: 0 <= k < |survivors| ==> |survivors[k]| == dim
    ensures out == Median(survivors, dim)
  {
    out := seq(dim, _ => 0.0);
    if survivors == [] {
      return;
    }
    for i := 0 to dim
      invariant |out| == dim
      invariant forall k :: 0 <= k < i ==> out[k] == LowerMedian(Column(survivors, k))
    {
      var column := [];
      for k := 0 to |survivors|
        invariant column == Column(survivors[..k], i)
      {
        assert survivors[..k + 1][..k] == survivors[..k];
        column := column + [survivors[k][i]];
      }
      assert survivors[..|survivors|] == survivors;
      ColumnIs(survivors, i);
      var sorted := SortColumn(column);
      SortSorts(column);
      out := out[i := sorted[(|column| - 1) / 2]];
    }
  }

  ghost function Positions(p: real -> bool, s: seq<real>): set<int> {
    set i | 0 <= i < |s| && p(s[i])
  }

  lemma PositionsPermuted(p: real -> bool, s: seq<real>, t: seq<real>)
    requires multiset(s) == multiset(t)
    ensures |Positions(p, s)| == |Positions(p, t)|
  {
    KeepCounts(p, s);
    KeepCounts(p, t);
    KeepPermuted(p, s, t);
  }

  lemma PositionsCover(p: real -> bool, t: seq<real>, lo: nat, hi: nat)
    requires lo <= hi <= |t| && forall i :: lo <= i < hi ==> p(t[i])
    ensures |Positions(p, t)| >= hi - lo
  {
    Quorum.Smaller<int>(Quorum.Range(lo, hi), Positions(p, t));
  }

  lemma HalfBelow(s: seq<real>)
    requires s != []
    ensures |Positions(v => v <= LowerMedian(s), s)| >= (|s| + 1) / 2
  {
    var below := (v: real) => v <= LowerMedian(s);
    SortSorts(s);
    PositionsPermuted(below, s, Sort(s));
    PositionsCover(below, Sort(s), 0, (|s| - 1) / 2 + 1);
  }

  lemma HalfAbove(s: seq<real>)
    requires s != []
    ensures |Positions(v => v >= LowerMedian(s), s)| >= |s| / 2 + 1
  {
    var above := (v: real) => v >= LowerMedian(s);
    SortSorts(s);
    PositionsPermuted(above, s, Sort(s));
    PositionsCover(above, Sort(s), (|s| - 1) / 2, |s|);
  }

  /** At least half of the positions lie at or below the median, and more than half at or above it. */
  lemma MedianSplits(s: seq<real>)
    requires s != []
    ensures |Positions(v => v <= LowerMedian(s), s)| >= (|s| + 1) / 2
    ensures |Positions(v => v >= LowerMedian(s), s)| >= |s| / 2 + 1
  {
    HalfBelow(s);
    HalfAbove(s);
  }

  lemma SomeOutside(big: set<int>, small: set<int>) returns (i: int)
    requires |big| > |small|
    ensures i in big && i !in small
  {
    if forall x :: x in big ==> x in small {
      Quorum.Smaller(big, small);
    }
    i :| i in big && i !in small;
  }

  /** If fewer than half of the values are adversarial, the median lies between two honest values. */
  lemma MedianRobust(s: seq<real>, adversarial: set<int>) returns (i: int, j: int)
    requires 2 * |adversarial| < |s|
    ensures 0 <= i < |s| && i !in adversarial && 0 <= j < |s| && j !in adversarial
    ensures s[i] <= LowerMedian(s) <= s[j]
  {
    MedianSplits(s);
    i := SomeOutside(Positions(v => v <= LowerMedian(s), s), adversarial);
    j := SomeOutside(Positions(v => v >= LowerMedian(s), s), adversarial);
  }

  /** Every coordinate of the baseline lies between the values of two honest survivors. */
  lemma BaselineRobust(survivors: seq<Vector>, dim: nat, adversarial: set<int>, d: nat) returns (i: int, j: int)
    requires forall k :: 0 <= k < |survivors| ==> |survivors[k]| == dim
    requires d < dim && 2 * |adversarial| < |survivors|
    ensures 0 <= i < |survivors| && i !in adversarial && 0 <= j < |survivors| && j !in adversarial
    ensures survivors[i][d] <= Median(survivors, dim)[d] <= survivors[j][d]
  {
    ColumnIs(survivors, d);
    i, j := MedianRobust(Column(survivors, d), adversarial);
  }

  // ---------- Scores ----------

  /** Rounding to the nearest integer, halves away from zero. */
  function Round(x: real): int {
    if x >= 0.0 then (x + 0.5).Floor else -((0.5 - x).Floor)
  }

  function Clamp(n: int): int {
    if n < 0 then 0 else if n > 1000 then 1000 else n
  }

  function Cosine(norm: Vector -> real, v: Vector, median: Vector): real
    requires |v| == |median|
  {
    var p := norm(v) * norm(median);
    if p == 0.0 then 0.0 else Dot(v, median) / p
  }

  /** The score in permille before the final clamp. */
  function RawScore(norm: Vector -> real, v: Vector, median: Vector): int
    requires |v| == |median|
  {
    if norm(median) == 0.0 then
      var scaled := 1.0 - norm(v) / NORM_CLIP;
      Round((if scaled > 0.0 then scaled else 0.0) * 1000.0)
    else if norm(v) == 0.0 then 500
    else Round((Cosine(norm, v, median) + 1.0) * 500.0)
  }

  function ScoreOne(norm: Vector -> real, dim: nat, survivors: seq<Vector>, c: Client): Scored {
    if !Passes(norm, dim, c.gradient) then Scored(c.peer, 0, false)
    else if |survivors| == 1 then Scored(c.peer, 1000, true)
    else
      var score := Clamp(RawScore(norm, Values(c.gradient), Median(survivors, dim)));
      Scored(c.peer, score, score >= THRESHOLD)
  }

  function ScoreAll(norm: Vector -> real, dim: nat, clients: seq<Client>): seq<Scored> {
    var survivors := Survivors(norm, dim, clients);
    seq(|clients|, i requires 0 <= i < |clients| => ScoreOne(norm, dim, survivors, clients[i]))
  }

  lemma RoundRange(x: real)
    requires 0.0 <= x <= 1000.0
    ensures 0 <= Round(x) <= 1000
  {
  }

  /** The clamp never acts: by Cauchy-Schwarz in the cosine branch and by the norm gate in the other. */
  lemma RawScoreInRange(norm: Vector -> real, dim: nat, c: Client, median: Vector)
    requires IsNorm(norm) && Passes(norm, dim, c.gradient) && |median| == dim
    ensures 0 <= RawScore(norm, Values(c.gradient), median) <= 1000
  {
    var v := Values(c.gradient);
    if norm(median) == 0.0 {
      RoundRange((1.0 - norm(v) / NORM_CLIP) * 1000.0);
    } else if norm(v) != 0.0 {
      CosineRange(v, median, norm(v), norm(median));
      RoundRange((Cosine(norm, v, median) + 1.0) * 500.0);
    }
  }

  /** All scores are permille; what the gates stop gets nothing. */
  lemma ScoresInRange(norm: Vector -> real, dim: nat, clients: seq<Client>, i: nat)
    requires IsNorm(norm) && i < |clients|
    ensures
      var r := ScoreAll(norm, dim, clients)[i];
      && r.peer == clients[i].peer && 0 <= r.permille <= 1000
      && (!Passes(norm, dim, clients[i].gradient) ==> r.permille == 0 && !r.included)
      && (r.included <==> r.permille >= THRESHOLD)
  {
  }

  // ---------- What the scores mean ----------

  /** Client i passed, and so did another one. */
  ghost predicate Compared(norm: Vector -> real, dim: nat, clients: seq<Client>, i: nat) {
    IsNorm(norm) && i < |clients| && Passes(norm, dim, clients[i].gradient) && |Survivors(norm, dim, clients)| >= 2
  }

  ghost function Baseline(norm: Vector -> real, dim: nat, clients: seq<Client>): (m: Vector)
    ensures |m| == dim
  {
    Median(Survivors(norm, dim, clients), dim)
  }

  /** Its gradient and the baseline both point somewhere. */
  ghost predicate Directed(norm: Vector -> real, dim: nat, clients: seq<Client>, i: nat) {
    && Compared(norm, dim, clients, i)
    && norm(Values(clients[i].gradient)) > 0.0 && norm(Baseline(norm, dim, clients)) > 0.0
  }

  /** x lies within half a unit of its rounding. */
  lemma RoundNear(x: real)
    requires x >= 0.0
    ensures 2.0 * Round(x) as real - 1.0 <= 2.0 * x < 2.0 * Round(x) as real + 1.0
  {
  }

  /** The score of a client that is compared with others. */
  lemma ComparedScore(norm: Vector -> real, dim: nat, clients: seq<Client>, i: nat)
    requires Compared(norm, dim, clients, i)
    ensures
      var raw, r := RawScore(norm, Values(clients[i].gradient), Baseline(norm, dim, clients)), ScoreAll(norm, dim, clients)[i];
      r == Scored(clients[i].peer, raw, raw >= 200) && 0 <= raw <= 1000
  {
    RawScoreInRange(norm, dim, clients[i], Baseline(norm, dim, clients));
  }

  /** The cosine c of two vectors with norms a and b and dot product d, and the permille p that comes of it. */
  ghost predicate Angle(c: real, a: real, b: real, d: real, p: int) {
    a > 0.0 && b > 0.0 && d == c * (a * b) && -1.0 <= c <= 1.0 && p == Round((c + 1.0) * 500.0)
  }

  lemma AngleOf(v: Vector, m: Vector, norm: Vector -> real) returns (c: real)
    requires IsNorm(norm) && |v| == |m| && norm(v) > 0.0 && norm(m) > 0.0
    ensures Angle(c, norm(v), norm(m), Dot(v, m), RawScore(norm, v, m))
  {
    var q := norm(v) * norm(m);
    CosineRange(v, m, norm(v), norm(m));
    c := Cosine(norm, v, m);
    assert c == Dot(v, m) / q;
  }

  lemma DirectedScore(norm: Vector -> real, dim: nat, clients: seq<Client>, i: nat) returns (c: real, a: real, b: real, d: real, p: int)
    requires Directed(norm, dim, clients, i)
    ensures Angle(c, a, b, d, p) && ScoreAll(norm, dim, clients)[i] == Scored(clients[i].peer, p, p >= 200)
    ensures a == norm(Values(clients[i].gradient)) && b == norm(Baseline(norm, dim, clients))
    ensures d == Dot(Values(clients[i].gradient), Baseline(norm, dim, clients))
  {
    var v, m := Values(clients[i].gradient), Baseline(norm, dim, clients);
    a, b, d, p := norm(v), norm(m), Dot(v, m), RawScore(norm, v, m);
    ComparedScore(norm, dim, clients, i);
    c := AngleOf(v, m, norm);
  }

  /** p is the permille nearest to 500 * (1 + d / (a * b)), for positive a and b. */
  ghost predicate NearestPermille(p: int, a: real, b: real, d: real) {
    (2.0 * p as real - 1001.0) * (a * b) <= 1000.0 * d < (2.0 * p as real - 999.0) * (a * b)
  }

  lemma PermilleNear(c: real, a: real, b: real, d: real, p: int)
    requires Angle(c, a, b, d, p)
    ensures NearestPermille(p, a, b, d)
  {
    var r, q := p as real, a * b;
    ProductPositive(a, b);
    RoundNear((c + 1.0) * 500.0);
    assert 1000.0 * d == (1000.0 * c) * q;
    NoSmallerProduct(2.0 * r - 1001.0, 1000.0 * c, q);
    NoSmallerProduct(1000.0 * c, 2.0 * r - 999.0, q);
  }

  /** The score is the permille nearest to 500 * (1 + cos), where cos is the cosine of the angle between the gradient
      and the baseline. */
  lemma CosineScore(norm: Vector -> real, dim: nat, clients: seq<Client>, i: nat)
    requires Directed(norm, dim, clients, i)
    ensures
      var v, m := Values(clients[i].gradient), Baseline(norm, dim, clients);
      NearestPermille(ScoreAll(norm, dim, clients)[i].permille, norm(v), norm(m), Dot(v, m))
  {
    var c, a, b, d, p := DirectedScore(norm, dim, clients, i);
    PermilleNear(c, a, b, d, p);
  }

  lemma NoSmallerProduct(x: real, y: real, q: real)
    requires q > 0.0
    ensures x * q < y * q <==> x < y
    ensures x * q <= y * q <==> x <= y
  {
    if x < y {
      ProductPositive(y - x, q);
    } else if y < x {
      ProductPositive(x - y, q);
    }
  }

  /** The cosine d / (a * b) is 1, or -1. */
  ghost predicate Along(a: real, b: real, d: real) {
    d == a * b
  }

  ghost predicate Against(a: real, b: real, d: real) {
    d == -(a * b)
  }

  lemma SpecialAngles(c: real, a: real, b: real, d: real, p: int)
    requires Angle(c, a, b, d, p)
    ensures (Along(a, b, d) ==> p == 1000) && (Against(a, b, d) ==> p == 0) && (d == 0.0 ==> p == 500)
  {
    ProductPositive(a, b);
    NoSmallerProduct(c, 1.0, a * b);
    NoSmallerProduct(c, -1.0, a * b);
    NoSmallerProduct(c, 0.0, a * b);
  }

  /** The direction of the baseline scores 1000, the opposite one 0, and a right angle 500. */
  lemma DirectionScores(norm: Vector -> real, dim: nat, clients: seq<Client>, i: nat)
    requires Directed(norm, dim, clients, i)
    ensures
      var v, m, r := Values(clients[i].gradient), Baseline(norm, dim, clients), ScoreAll(norm, dim, clients)[i];
      && (Along(norm(v), norm(m), Dot(v, m)) ==> r.permille == 1000 && r.included)
      && (Against(norm(v), norm(m), Dot(v, m)) ==> r.permille == 0 && !r.included)
      && (Dot(v, m) == 0.0 ==> r.permille == 500 && r.included)
  {
    var c, a, b, d, p := DirectedScore(norm, dim, clients, i);
    SpecialAngles(c, a, b, d, p);
  }

  // ---------- Multiples of the baseline ----------

  ghost predicate IsMultiple(v: Vector, c: real, m: Vector) {
    |v| == |m| && forall k :: 0 <= k < |m| ==> v[k] == c * m[k]
  }

  ghost predicate Times(x: real, c: real, y: real) {
    x == c * y
  }

  ghost predicate Scaled(dot: real, squares: real, c: real, s: real) {
    dot == c * s && squares == (c * c) * s
  }

  lemma ScaledTwice(dot: real, squares: real, c: real, s: real)
    requires Times(dot, c, s) && Times(squares, c, dot)
    ensures Scaled(dot, squares, c, s)
  {
    assert c * (c * s) == (c * c) * s;
  }

  lemma {:induction false} DotSymmetric(a: Vector, b: Vector)
    requires |a| == |b|
    ensures Dot(a, b) == Dot(b, a)
  {
    if a != [] {
      DotSymmetric(a[..|a| - 1], b[..|b| - 1]);
    }
  }

  lemma Distributes(c: real, d: real, x: real, y: real)
    ensures c * d + (c * x) * y == c * (d + x * y)
  {
  }

  lemma {:induction false} DotMultiple(v: Vector, c: real, m: Vector, u: Vector)
    requires IsMultiple(v, c, m) && |u| == |m|
    ensures Times(Dot(v, u), c, Dot(m, u))
  {
    if m != [] {
      var n := |m| - 1;
      DotMultiple(v[..n], c, m[..n], u[..n]);
      Distributes(c, Dot(m[..n], u[..n]), m[n], u[n]);
    }
  }

  lemma MultipleDot(v: Vector, c: real, m: Vector)
    requires IsMultiple(v, c, m)
    ensures Scaled(Dot(v, m), Dot(v, v), c, Dot(m, m))
  {
    DotMultiple(v, c, m, m);
    DotMultiple(v, c, m, v);
    DotSymmetric(v, m);
    ScaledTwice(Dot(v, m), Dot(v, v), c, Dot(m, m));
  }

  lemma SameRoot(a: real, b: real)
    requires a >= 0.0 && b >= 0.0 && a * a == b * b
    ensures a == b
  {
    if a > b {
      SquaresCompare(b, a);
    } else if b > a {
      SquaresCompare(a, b);
    }
  }

  lemma MultipleNorm(a: real, c: real, b: real, squares: real)
    requires a >= 0.0 && b > 0.0 && c != 0.0 && squares == b * b && a * a == (c * c) * squares
    ensures a == (if c > 0.0 then c else -c) * b && a > 0.0
  {
    var d := if c > 0.0 then c else -c;
    ProductPositive(d, b);
    assert (d * b) * (d * b) == (c * c) * (b * b);
    SameRoot(a, d * b);
  }

  lemma MultipleProduct(c: real, d: real, a: real, b: real, squares: real)
    requires a == (if c > 0.0 then c else -c) * b && squares == b * b && d == c * squares && c != 0.0
    ensures d == if c > 0.0 then a * b else -(a * b)
  {
    assert c * (b * b) == (c * b) * b;
    assert -c * (b * b) == (-c * b) * b;
  }

  ghost predicate Root(a: real, squares: real) {
    a >= 0.0 && a * a == squares
  }

  ghost predicate Faces(c: real, a: real, b: real, d: real) {
    a > 0.0 && if c > 0.0 then Along(a, b, d) else Against(a, b, d)
  }

  lemma MultipleFaces(a: real, b: real, c: real, d: real, squares: real, s: real)
    requires Root(a, squares) && Root(b, s) && b > 0.0 && c != 0.0 && Scaled(d, squares, c, s)
    ensures Faces(c, a, b, d)
  {
    MultipleNorm(a, c, b, s);
    MultipleProduct(c, d, a, b, s);
  }

  lemma MultipleAngle(norm: Vector -> real, v: Vector, c: real, m: Vector)
    requires IsNorm(norm) && IsMultiple(v, c, m) && c != 0.0 && norm(m) > 0.0
    ensures Faces(c, norm(v), norm(m), Dot(v, m))
  {
    MultipleDot(v, c, m);
    assert Root(norm(v), SumSquares(v)) && Root(norm(m), SumSquares(m));
    MultipleFaces(norm(v), norm(m), c, Dot(v, m), Dot(v, v), Dot(m, m));
  }

  lemma FacingScores(norm: Vector -> real, dim: nat, clients: seq<Client>, i: nat, c: real)
    requires Compared(norm, dim, clients, i) && norm(Baseline(norm, dim, clients)) > 0.0
    requires
      var v, m := Values(clients[i].gradient), Baseline(norm, dim, clients);
      Faces(c, norm(v), norm(m), Dot(v, m))
    ensures
      var r := ScoreAll(norm, dim, clients)[i];
      if c > 0.0 then r.permille == 1000 && r.included else r.permille == 0 && !r.included
  {
    DirectionScores(norm, dim, clients, i);
  }

  /** Whoever sends a positive multiple of the baseline scores 1000, whoever sends a negative one 0. */
  lemma MultipleScores(norm: Vector -> real, dim: nat, clients: seq<Client>, i: nat, c: real)
    requires Compared(norm, dim, clients, i) && c != 0.0 && norm(Baseline(norm, dim, clients)) > 0.0
    requires IsMultiple(Values(clients[i].gradient), c, Baseline(norm, dim, clients))
    ensures
      var r := ScoreAll(norm, dim, clients)[i];
      if c > 0.0 then r.permille == 1000 && r.included else r.permille == 0 && !r.included
  {
    MultipleAngle(norm, Values(clients[i].gradient), c, Baseline(norm, dim, clients));
    FacingScores(norm, dim, clients, i, c);
  }

  // ---------- Comparing clients ----------

  lemma RoundMonotone(x: real, y: real)
    requires 0.0 <= x <= y
    ensures Round(x) <= Round(y)
  {
  }

  /** d / a <= e / b for positive a and b. */
  ghost predicate NoLarger(d: real, a: real, e: real, b: real) {
    d * b <= e * a
  }

  /** A smaller angle to the baseline never scores less. */
  lemma CloserScoresNoLess(norm: Vector -> real, dim: nat, clients: seq<Client>, i: nat, j: nat)
    requires Directed(norm, dim, clients, i) && Directed(norm, dim, clients, j)
    requires
      var v, u, m := Values(clients[i].gradient), Values(clients[j].gradient), Baseline(norm, dim, clients);
      NoLarger(Dot(v, m), norm(v), Dot(u, m), norm(u))
    ensures ScoreAll(norm, dim, clients)[i].permille <= ScoreAll(norm, dim, clients)[j].permille
  {
    var c, a, b, d, p := DirectedScore(norm, dim, clients, i);
    var c', a', b', d', p' := DirectedScore(norm, dim, clients, j);
    AnglesCompare(c, a, b, d, p, c', a', d', p');
  }

  lemma AnglesCompare(c: real, a: real, b: real, d: real, p: int, c': real, a': real, d': real, p': int)
    requires Angle(c, a, b, d, p) && Angle(c', a', b, d', p') && NoLarger(d, a, d', a')
    ensures p <= p'
  {
    CosinesCompare(c, d, a, c', d', a', b);
    RoundMonotone((c + 1.0) * 500.0, (c' + 1.0) * 500.0);
  }

  lemma CosinesCompare(c: real, d: real, a: real, c': real, d': real, b: real, m: real)
    requires a > 0.0 && b > 0.0 && m > 0.0 && d == c * (a * m) && d' == c' * (b * m) && d * b <= d' * a
    ensures c <= c'
  {
    ProductPositive(a, m);
    ProductPositive(a * m, b);
    Regrouped(c, a, m, b);
    Regrouped(c', b, m, a);
    assert (b * m) * a == (a * m) * b;
    NoSmallerProduct(c, c', (a * m) * b);
  }

  lemma Regrouped(c: real, a: real, m: real, b: real)
    ensures (c * (a * m)) * b == c * ((a * m) * b)
  {
  }

  /** The cosine d / (a * b) is at least -0.601, for positive a and b. */
  ghost predicate NearEnough(a: real, b: real, d: real) {
    1000.0 * d >= -601.0 * (a * b)
  }

  lemma ThresholdAngle(c: real, a: real, b: real, d: real, p: int)
    requires Angle(c, a, b, d, p)
    ensures p >= 200 <==> NearEnough(a, b, d)
  {
    ProductPositive(a, b);
    assert 1000.0 * d == (1000.0 * c) * (a * b);
    NoSmallerProduct(-601.0, 1000.0 * c, a * b);
    RoundNear((c + 1.0) * 500.0);
  }

  /** A gradient is included exactly when its cosine is at least -0.601. */
  lemma IncludedIff(norm: Vector -> real, dim: nat, clients: seq<Client>, i: nat)
    requires Directed(norm, dim, clients, i)
    ensures
      var v, m := Values(clients[i].gradient), Baseline(norm, dim, clients);
      ScoreAll(norm, dim, clients)[i].included <==> NearEnough(norm(v), norm(m), Dot(v, m))
  {
    var c, a, b, d, p := DirectedScore(norm, dim, clients, i);
    ThresholdAngle(c, a, b, d, p);
  }

  // ---------- Without a direction ----------

  /** A zero gradient scores 500 against a baseline with a direction, and a lone survivor 1000. */
  lemma EdgeScores(norm: Vector -> real, dim: nat, clients: seq<Client>, i: nat)
    requires IsNorm(norm) && i < |clients| && Passes(norm, dim, clients[i].gradient)
    ensures
      var r := ScoreAll(norm, dim, clients)[i];
      && (|Survivors(norm, dim, clients)| == 1 ==> r == Scored(clients[i].peer, 1000, true))
      && (Compared(norm, dim, clients, i) && norm(Values(clients[i].gradient)) == 0.0 && norm(Baseline(norm, dim, clients)) > 0.0
          ==> r == Scored(clients[i].peer, 500, true))
  {
  }

  /** Against a zero baseline the permille is the one nearest to 1000 - 100 |v|: 1000 for a zero gradient, less for a
      longer one. */
  lemma ZeroBaselineScore(norm: Vector -> real, dim: nat, clients: seq<Client>, i: nat)
    requires Compared(norm, dim, clients, i) && norm(Baseline(norm, dim, clients)) == 0.0
    ensures
      var n, p := norm(Values(clients[i].gradient)), ScoreAll(norm, dim, clients)[i].permille;
      && 2.0 * p as real - 1.0 <= 2000.0 - 200.0 * n < 2.0 * p as real + 1.0
      && (n == 0.0 ==> p == 1000)
  {
    var n := norm(Values(clients[i].gradient));
    ComparedScore(norm, dim, clients, i);
    assert n <= 10.0 && (1.0 - n / NORM_CLIP) * 1000.0 == 1000.0 - 100.0 * n;
    RoundNear(1000.0 - 100.0 * n);
  }

  lemma LongerScoresNoMore(norm: Vector -> real, dim: nat, clients: seq<Client>, i: nat, j: nat)
    requires Compared(norm, dim, clients, i) && Compared(norm, dim, clients, j) && norm(Baseline(norm, dim, clients)) == 0.0
    requires norm(Values(clients[i].gradient)) <= norm(Values(clients[j].gradient))
    ensures ScoreAll(norm, dim, clients)[i].permille >= ScoreAll(norm, dim, clients)[j].permille
  {
    ZeroBaselineScore(norm, dim, clients, i);
    ZeroBaselineScore(norm, dim, clients, j);
  }

  // ---------- Who influences a score ----------

  lemma MedianPermuted(a: seq<Vector>, b: seq<Vector>, dim: nat)
    requires multiset(a) == multiset(b)
    ensures Median(a, dim) == Median(b, dim)
  {
    forall i | 0 <= i < dim ensures LowerMedian(Column(a, i)) == LowerMedian(Column(b, i)) {
      FlatPermuted((v: Vector) => if i < |v| then [v[i]] else [], a, b);
      SameLength(Column(a, i), Column(b, i));
      SortPermuted(Column(a, i), Column(b, i));
    }
  }

  /** A client's score depends on its own gradient and on which gradients passed, in no order. */
  lemma ScoreDependsOn(norm: Vector -> real, dim: nat, clients: seq<Client>, others: seq<Client>, i: nat, j: nat)
    requires multiset(Survivors(norm, dim, clients)) == multiset(Survivors(norm, dim, others))
    requires i < |clients| && j < |others| && clients[i] == others[j]
    ensures ScoreAll(norm, dim, clients)[i] == ScoreAll(norm, dim, others)[j]
  {
    var a, b := Survivors(norm, dim, clients), Survivors(norm, dim, others);
    SameLength(a, b);
    MedianPermuted(a, b, dim);
  }

  /** Reordering the clients reorders the scores and nothing else. */
  lemma OrderIrrelevant(norm: Vector -> real, dim: nat, clients: seq<Client>, others: seq<Client>)
    requires multiset(clients) == multiset(others)
    ensures multiset(Survivors(norm, dim, clients)) == multiset(Survivors(norm, dim, others))
    ensures forall i, j :: 0 <= i < |clients| && 0 <= j < |others| && clients[i] == others[j] ==>
              ScoreAll(norm, dim, clients)[i] == ScoreAll(norm, dim, others)[j]
  {
    FlatPermuted((c: Client) => if Passes(norm, dim, c.gradient) then [Values(c.gradient)] else [], clients, others);
    forall i, j | 0 <= i < |clients| && 0 <= j < |others| && clients[i] == others[j]
      ensures ScoreAll(norm, dim, clients)[i] == ScoreAll(norm, dim, others)[j]
    {
      ScoreDependsOn(norm, dim, clients, others, i, j);
    }
  }

  /** What a stopped client sends, and whether it sends anything, changes nobody else's score. */
  lemma StoppedIrrelevant(norm: Vector -> real, dim: nat, a: seq<Client>, x: seq<Client>, y: seq<Client>, b: seq<Client>, i: nat, j: nat)
    requires forall k :: 0 <= k < |x| ==> !Passes(norm, dim, x[k].gradient)
    requires forall k :: 0 <= k < |y| ==> !Passes(norm, dim, y[k].gradient)
    requires i < |a + x + b| && j < |a + y + b| && (a + x + b)[i] == (a + y + b)[j]
    ensures ScoreAll(norm, dim, a + x + b)[i] == ScoreAll(norm, dim, a + y + b)[j]
  {
    StoppedVanish(norm, dim, a, x, b);
    StoppedVanish(norm, dim, a, y, b);
    ScoreDependsOn(norm, dim, a + x + b, a + y + b, i, j);
  }

  lemma StoppedVanish(norm: Vector -> real, dim: nat, a: seq<Client>, x: seq<Client>, b: seq<Client>)
    requires forall k :: 0 <= k < |x| ==> !Passes(norm, dim, x[k].gradient)
    ensures Survivors(norm, dim, a + x + b) == Survivors(norm, dim, a) + Survivors(norm, dim, b)
  {
    var f := (c: Client) => if Passes(norm, dim, c.gradient) then [Values(c.gradient)] else [];
    FlatConcat(f, a + x, b);
    FlatConcat(f, a, x);
    AllStopped(norm, dim, x);
  }

  lemma {:induction false} AllStopped(norm: Vector -> real, dim: nat, x: seq<Client>)
    requires forall k :: 0 <= k < |x| ==> !Passes(norm, dim, x[k].gradient)
    ensures Survivors(norm, dim, x) == []
  {
    if x != [] {
      AllStopped(norm, dim, x[..|x| - 1]);
    }
  }
}
