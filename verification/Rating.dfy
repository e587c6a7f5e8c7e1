/** Ratings of hw5/src/player.c: one rated game, and what happens to the total over any run of games. */
module Rating {
  import opened Prelude

  // ---------------------------------------------------------------------------
  // Arithmetic of the source
  // ---------------------------------------------------------------------------

  /** Conversion of a floating-point value to int. */
  function Truncate(x: real): int {
    if x >= 0.0 then x.Floor else -(-x).Floor
  }

  /** pow(10, k) */
  function Pow10(k: int): (p: real)
    ensures p > 0.0
    decreases if k < 0 then -k else k
  {
    if k == 0 then 1.0 else if k > 0 then 10.0 * Pow10(k - 1) else Pow10(k + 1) / 10.0
  }

  function Expected(own: int, other: int): real {
    1.0 / (1.0 + Pow10(Quotient(other - own, 400)))
  }

  /** The score of the first player: zero is a draw, one a win, anything else a loss. */
  function Score(result: int): real {
    if result == 0 then 0.5 else if result == 1 then 1.0 else 0.0
  }

  /** The rating of a player before it is stored as an int. */
  function Exact(own: int, other: int, score: real): real {
    own as real + 32.0 * (score - Expected(own, other))
  }

  function Updated(own: int, other: int, score: real): int {
    Truncate(Exact(own, other, score))
  }

  // ---------------------------------------------------------------------------
  // Expectations add up to one
  // ---------------------------------------------------------------------------

  lemma QuotientNegates(a: int, d: nat)
    requires d > 0
    ensures Quotient(-a, d) == -Quotient(a, d)
  {
  }

  lemma {:induction false} Pow10Inverse(k: int)
    requires k >= 0
    ensures Pow10(k) * Pow10(-k) == 1.0
    ensures Pow10(k) >= 1.0
    ensures k == 1 ==> Pow10(k) == 10.0
    ensures k >= 2 ==> Pow10(k) >= 100.0
    decreases k
  {
    if k > 0 {
      Pow10Inverse(k - 1);
      assert Pow10(-k) == Pow10(-(k - 1)) / 10.0;
      CancelTen(Pow10(k - 1), Pow10(-(k - 1)));
    }
  }

  lemma CancelTen(p: real, q: real)
    ensures (10.0 * p) * (q / 10.0) == p * q
  {
  }

  lemma CancelFactor(a: real, b: real, c: real)
    requires a * c == b * c && c > 0.0
    ensures a == b
  {
    assert (a - b) * c == 0.0;
  }

  lemma Complementary(p: real, q: real)
    requires p > 0.0 && q > 0.0 && p * q == 1.0
    ensures 1.0 / (1.0 + p) + 1.0 / (1.0 + q) == 1.0
  {
    var a, b := 1.0 / (1.0 + p), 1.0 / (1.0 + q);
    assert a * (1.0 + p) == 1.0 && b * (1.0 + q) == 1.0;
    assert p * a * (1.0 + q) == p * a + a * (p * q);
    CancelFactor(b, p * a, 1.0 + q);
  }

  /** What the two players expect adds up to one game. */
  lemma ExpectationsAddUp(R1: int, R2: int)
    ensures Expected(R1, R2) + Expected(R2, R1) == 1.0
    ensures 0.0 < Expected(R1, R2) < 1.0
  {
    var k := Quotient(R2 - R1, 400);
    QuotientNegates(R2 - R1, 400);
    Pow10Inverse(if k >= 0 then k else -k);
    Complementary(Pow10(k), Pow10(-k));
  }

  // ---------------------------------------------------------------------------
  // Who is expected to win
  // ---------------------------------------------------------------------------

  lemma {:induction false} Pow10Grows(j: int, k: int)
    requires j <= k
    ensures Pow10(j) <= Pow10(k)
    decreases k - j
  {
    if j < k {
      Pow10Grows(j, k - 1);
      Pow10Next(k - 1);
    }
  }

  lemma Pow10Next(k: int)
    ensures Pow10(0) == 1.0 && Pow10(k + 1) == 10.0 * Pow10(k)
  {
  }

  lemma QuotientGrows(a: int, b: int)
    requires a <= b
    ensures Quotient(a, 400) <= Quotient(b, 400)
  {
  }

  lemma InverseFalls(p: real, q: real)
    requires 0.0 < p <= q
    ensures 1.0 / q <= 1.0 / p
  {
    var a, b := 1.0 / p, 1.0 / q;
    assert a * p == 1.0 && b * q == 1.0;
    if a < b {
      ProductGrows(a, b, p, q);
    }
  }

  lemma ProductGrows(a: real, b: real, p: real, q: real)
    requires 0.0 < a < b && 0.0 < p <= q
    ensures a * p < b * q
  {
    assert a * p < b * p;
    assert b * p <= b * q;
  }

  /** The stronger a player, the more is expected of him. */
  lemma ExpectedGrows(own: int, better: int, other: int)
    requires own <= better
    ensures Expected(own, other) <= Expected(better, other)
  {
    QuotientGrows(other - better, other - own);
    var j, k := Quotient(other - better, 400), Quotient(other - own, 400);
    Pow10Grows(j, k);
    InverseFalls(1.0 + Pow10(j), 1.0 + Pow10(k));
  }

  lemma QuotientAt(d: int)
    ensures Quotient(d, 400) >= 1 <==> d >= 400
    ensures Quotient(d, 400) <= -1 <==> d <= -400
  {
  }

  /** More than half a game is expected of a player exactly from 400 points above on, and less from 400 below. */
  lemma FavouriteIff(own: int, other: int)
    ensures Expected(own, other) > 0.5 <==> own - other >= 400
    ensures Expected(own, other) < 0.5 <==> own - other <= -400
    ensures own - other >= 400 ==> Expected(own, other) >= 10.0 / 11.0
    ensures own - other <= -400 ==> Expected(own, other) <= 1.0 / 11.0
  {
    QuotientAt(other - own);
    var k := Quotient(other - own, 400);
    Pow10Next(0);
    Pow10Next(-1);
    if k >= 1 {
      Pow10Grows(1, k);
      InverseFalls(11.0, 1.0 + Pow10(k));
    } else if k <= -1 {
      Pow10Grows(k, -1);
      InverseFalls(1.0 + Pow10(k), 1.1);
    }
  }

  // ---------------------------------------------------------------------------
  // One game
  // ---------------------------------------------------------------------------

  predicate Whole(x: real) {
    x == x.Floor as real
  }

  lemma TruncatedSum(x: real, y: real, t: int)
    requires x + y == t as real
    ensures Truncate(x) + Truncate(y) ==
            t + if Whole(x) then 0 else if x > 0.0 && y > 0.0 then -1 else if x < 0.0 && y < 0.0 then 1 else 0
  {
  }

  /** The step of the first player is a whole number exactly when the ratings are less than 400 apart. */
  lemma StepWhole(R1: int, R2: int, result: int)
    ensures Whole(Exact(R1, R2, Score(result))) <==> -400 < R1 - R2 < 400
  {
    var k := Quotient(R2 - R1, 400);
    var e := 32.0 * Expected(R1, R2);
    var base := R1 + (if result == 0 then 16 else if result == 1 then 32 else 0);
    assert Exact(R1, R2, Score(result)) == base as real - e;
    WholeDifference(base, e);
    QuotientZero(R2 - R1);
    if k > 0 {
      Fraction(k);
    } else if k < 0 {
      QuotientNegates(R2 - R1, 400);
      ExpectationsAddUp(R1, R2);
      Fraction(-k);
      WholeDifference(32, 32.0 * Expected(R2, R1));
    }
  }

  lemma QuotientZero(a: int)
    ensures Quotient(a, 400) == 0 <==> -400 < a < 400
  {
  }

  lemma WholeDifference(n: int, e: real)
    ensures Whole(n as real - e) <==> Whole(e)
  {
    if Whole(e) {
      IsWhole(n as real - e, n - e.Floor);
    }
    if Whole(n as real - e) {
      IsWhole(e, n - (n as real - e).Floor);
    }
  }

  lemma IsWhole(x: real, m: int)
    requires x == m as real
    ensures Whole(x)
  {
  }

  lemma Fraction(k: int)
    requires k > 0
    ensures !Whole(32.0 * (1.0 / (1.0 + Pow10(k))))
  {
    Pow10Inverse(k);
    var p := Pow10(k);
    var a := 1.0 / (1.0 + p);
    assert a * (1.0 + p) == 1.0;
    if k == 1 {
      assert a * 11.0 == 1.0;
    } else {
      SmallInverse(a, 1.0 + p, 101.0);
    }
  }

  lemma SmallInverse(a: real, b: real, c: real)
    requires a * b == 1.0 && b >= c > 0.0
    ensures a > 0.0 && a * c <= 1.0
  {
  }

  /** What a game does to the total of the two ratings. */
  lemma GameDrift(R1: int, R2: int, result: int)
    ensures var x, y := Exact(R1, R2, Score(result)), Exact(R2, R1, 1.0 - Score(result));
            Updated(R1, R2, Score(result)) + Updated(R2, R1, 1.0 - Score(result)) == R1 + R2 +
              if -400 < R1 - R2 < 400 then 0 else if x > 0.0 && y > 0.0 then -1 else if x < 0.0 && y < 0.0 then 1 else 0
  {
    ExpectationsAddUp(R1, R2);
    StepWhole(R1, R2, result);
    hide Expected, Truncate, Whole;
    TruncatedSum(Exact(R1, R2, Score(result)), Exact(R2, R1, 1.0 - Score(result)), R1 + R2);
  }

  /** A win gains less than 32 points and a loss costs at most 32, if the updated rating is not negative. */
  lemma GameBounds(own: int, other: int)
    ensures Exact(own, other, 1.0) >= 0.0 ==> 0 <= Updated(own, other, 1.0) - own <= 31
    ensures Exact(own, other, 0.0) >= 0.0 ==> 1 <= own - Updated(own, other, 0.0) <= 32
    ensures Exact(own, other, 0.5) >= 0.0 ==> -16 <= Updated(own, other, 0.5) - own <= 15
  {
    ExpectationsAddUp(own, other);
    hide Expected;
  }

  /**
   * In points, when the updated rating is not negative: a win from 400 or more above gains at most two, one from 400 or
   * more below at least 29, and one in between 16; a loss costs accordingly.
   */
  lemma UpsetPoints(own: int, other: int)
    ensures Exact(own, other, 1.0) >= 0.0 ==>
              var gain := Updated(own, other, 1.0) - own;
              && (own - other >= 400 ==> 0 <= gain <= 2)
              && (own - other <= -400 ==> 29 <= gain <= 31)
              && (-400 < own - other < 400 ==> gain == 16)
    ensures Exact(own, other, 0.0) >= 0.0 ==>
              var cost := own - Updated(own, other, 0.0);
              && (own - other >= 400 ==> 30 <= cost <= 32)
              && (own - other <= -400 ==> 1 <= cost <= 3)
              && (-400 < own - other < 400 ==> cost == 16)
  {
    FavouriteIff(own, other);
    ExpectationsAddUp(own, other);
    var e := Expected(own, other);
    hide Expected;
    assert -400 < own - other < 400 ==> e == 0.5;
    if Exact(own, other, 1.0) >= 0.0 {
      Gain(own, 32.0 * (1.0 - e));
    }
    if Exact(own, other, 0.0) >= 0.0 {
      Gain(own, 32.0 * (0.0 - e));
    }
  }

  /** Truncation is toward zero. */
  lemma TruncateIs(x: real)
    ensures x >= 0.0 ==> 0.0 <= Truncate(x) as real <= x < Truncate(x) as real + 1.0
    ensures x <= 0.0 ==> Truncate(x) as real - 1.0 < x <= Truncate(x) as real <= 0.0
  {
  }

  lemma Gain(own: int, step: real)
    requires own as real + step >= 0.0
    ensures step - 1.0 < (Truncate(own as real + step) - own) as real <= step
  {
  }

  // ---------------------------------------------------------------------------
  // The players
  // ---------------------------------------------------------------------------

  class Player {
    var rating: int

    constructor (rating: int)
      ensures this.rating == rating
    {
      this.rating := rating;
    }
  }

  /** player_post_result */
  method PostResult(player1: Player, player2: Player, result: int)
    modifies player1`rating, player2`rating
    ensures player2.rating == Updated(old(player2.rating), old(player1.rating),
                                      if result == 0 then 0.5 else if result == 1 then 0.0 else 1.0)
    ensures player1 != player2 ==>
              player1.rating == Updated(old(player1.rating), old(player2.rating),
                                        if result == 0 then 0.5 else if result == 1 then 1.0 else 0.0)
  {
    var S1, S2;
    if result == 0 {
      S1, S2 := 0.5, 0.5;
    } else if result == 1 {
      S1, S2 := 1.0, 0.0;
    } else {
      S1, S2 := 0.0, 1.0;
    }
    var R1 := player1.rating;
    var R2 := player2.rating;
    var E1 := 1.0 + Pow10(Quotient(R2 - R1, 400));
    E1 := 1.0 / E1;
    var E2 := 1.0 + Pow10(Quotient(R1 - R2, 400));
    E2 := 1.0 / E2;
    var newR1 := Truncate(R1 as real + 32.0 * (S1 - E1));
    var newR2 := Truncate(R2 as real + 32.0 * (S2 - E2));
    player1.rating := newR1;
    player2.rating := newR2;
  }

  // ---------------------------------------------------------------------------
  // Runs of games
  // ---------------------------------------------------------------------------

  /** A game between two different players of a table of ratings. */
  datatype Game = Game(i: nat, j: nat, result: int)

  ghost predicate Playable(ratings: seq<int>, g: Game) {
    g.i < |ratings| && g.j < |ratings| && g.i != g.j
  }

  function Play(ratings: seq<int>, g: Game): (after: seq<int>)
    requires Playable(ratings, g)
    ensures |after| == |ratings|
  {
    var R1, R2 := ratings[g.i], ratings[g.j];
    ratings[g.i := Updated(R1, R2, Score(g.result))][g.j := Updated(R2, R1, 1.0 - Score(g.result))]
  }

  /** Neither updated value is negative before it is stored. */
  ghost predicate NotNegative(ratings: seq<int>, g: Game) {
    && Playable(ratings, g)
    && Exact(ratings[g.i], ratings[g.j], Score(g.result)) >= 0.0
    && Exact(ratings[g.j], ratings[g.i], 1.0 - Score(g.result)) >= 0.0
  }

  ghost predicate IsRun(ratings: seq<int>, games: seq<Game>)
    decreases |games|
  {
    games == [] || (NotNegative(ratings, games[0]) && IsRun(Play(ratings, games[0]), games[1..]))
  }

  ghost function Run(ratings: seq<int>, games: seq<Game>): seq<int>
    requires IsRun(ratings, games)
    decreases |games|
  {
    if games == [] then ratings else Run(Play(ratings, games[0]), games[1..])
  }

  /** The games between players at least 400 points apart. */
  ghost function Wide(ratings: seq<int>, games: seq<Game>): (w: nat)
    requires IsRun(ratings, games)
    ensures w <= |games|
    decreases |games|
  {
    if games == [] then 0
    else
      var gap := ratings[games[0].i] - ratings[games[0].j];
      (if -400 < gap < 400 then 0 else 1) + Wide(Play(ratings, games[0]), games[1..])
  }

  function Total(ratings: seq<int>): int {
    if ratings == [] then 0 else ratings[0] + Total(ratings[1..])
  }

  lemma {:induction false} TotalUpdate(ratings: seq<int>, i: nat, r: int)
    requires i < |ratings|
    ensures Total(ratings[i := r]) == Total(ratings) - ratings[i] + r
  {
    if i == 0 {
      assert ratings[i := r][1..] == ratings[1..];
    } else {
      assert ratings[i := r][1..] == ratings[1..][i - 1 := r];
      TotalUpdate(ratings[1..], i - 1, r);
    }
  }

  lemma PlayDrift(ratings: seq<int>, g: Game)
    requires NotNegative(ratings, g)
    ensures Total(Play(ratings, g)) == Total(ratings) - if -400 < ratings[g.i] - ratings[g.j] < 400 then 0 else 1
  {
    var R1, R2 := ratings[g.i], ratings[g.j];
    var x, y := Exact(R1, R2, Score(g.result)), Exact(R2, R1, 1.0 - Score(g.result));
    var mid := ratings[g.i := Updated(R1, R2, Score(g.result))];
    TotalUpdate(ratings, g.i, mid[g.i]);
    TotalUpdate(mid, g.j, Updated(R2, R1, 1.0 - Score(g.result)));
    GameDrift(R1, R2, g.result);
    ZeroIsWhole(R1, R2, g.result);
  }

  /** An updated value of zero means a whole step. */
  lemma ZeroIsWhole(R1: int, R2: int, result: int)
    ensures Exact(R1, R2, Score(result)) == 0.0 || Exact(R2, R1, 1.0 - Score(result)) == 0.0 ==> -400 < R1 - R2 < 400
  {
    ExpectationsAddUp(R1, R2);
    StepWhole(R1, R2, result);
    var x, y := Exact(R1, R2, Score(result)), Exact(R2, R1, 1.0 - Score(result));
    assert x + y == (R1 + R2) as real;
    if x == 0.0 {
      IsWhole(x, 0);
    } else if y == 0.0 {
      IsWhole(x, R1 + R2);
    }
  }

  /** The total falls by one point for each game between players at least 400 points apart, and by nothing else. */
  lemma {:induction false} RunDrift(ratings: seq<int>, games: seq<Game>)
    requires IsRun(ratings, games)
    ensures Total(Run(ratings, games)) == Total(ratings) - Wide(ratings, games)
    ensures Total(ratings) - |games| <= Total(Run(ratings, games)) <= Total(ratings)
    decreases |games|
  {
    if games != [] {
      PlayDrift(ratings, games[0]);
      RunDrift(Play(ratings, games[0]), games[1..]);
    }
  }

  ghost function Ratings(players: seq<Player>): seq<int>
    reads players
  {
    seq(|players|, k requires 0 <= k < |players| reads players => players[k].rating)
  }

  /** A run of games played with player_post_result. */
  method PlayAll(players: seq<Player>, games: seq<Game>)
    requires forall a, b | 0 <= a < b < |players| :: players[a] != players[b]
    requires IsRun(Ratings(players), games)
    modifies players
    ensures Ratings(players) == Run(old(Ratings(players)), games)
    ensures Total(Ratings(players)) == Total(old(Ratings(players))) - Wide(old(Ratings(players)), games)
  {
    hide Updated, Exact, Expected, Total;
    ghost var before := Ratings(players);
    RunDrift(before, games);
    for n := 0 to |games|
      invariant IsRun(Ratings(players), games[n..])
      invariant Run(Ratings(players), games[n..]) == Run(before, games)
    {
      var g := games[n];
      ghost var now := Ratings(players);
      assert games[n..][0] == g && games[n..][1..] == games[n + 1..];
      PostResult(players[g.i], players[g.j], g.result);
      assert Ratings(players) == Play(now, g);
    }
  }
}
