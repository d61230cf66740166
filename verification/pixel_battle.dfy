/**
 * Pixel Battle Arena: each gamer has a speed and a strength; the score adds
 * a speed term and a strength term, each chosen by cases, and the higher
 * score wins. Python's `%` floors, so `x % 2` is 0 or 1 for every integer x,
 * as Dafny's Euclidean `%` is.
 */
module PixelBattle {
  /** The speed part of `calculate_score`. */
  function SpeedTerm(speed: int): int
  {
    if speed > 0 && speed % 2 == 0 then speed * 3
    else if speed > 0 && speed % 2 != 0 then speed * 2
    else if speed < 0 then Abs(speed) * 2
    else 0
  }

  /** The strength part of `calculate_score`. */
  function StrengthTerm(strength: int): int
  {
    if strength % 2 == 0 then strength * 4 else strength * 3
  }

  /** `calculate_score(speed, strength)`. */
  function CalculateScore(speed: int, strength: int): int
  {
    SpeedTerm(speed) + StrengthTerm(strength)
  }

  function Abs(x: int): nat
  {
    if x < 0 then -x else x
  }

  /**
   * A positive even speed counts three times, a positive odd one twice, a
   * negative one twice its magnitude, and zero nothing: the speed term is
   * never negative, is zero exactly for a zero speed, and lies between two
   * and three times the magnitude.
   */
  lemma SpeedTermCases(speed: int)
    ensures speed > 0 && speed % 2 == 0 ==> SpeedTerm(speed) == 3 * speed
    ensures speed > 0 && speed % 2 == 1 ==> SpeedTerm(speed) == 2 * speed
    ensures speed < 0 ==> SpeedTerm(speed) == 2 * Abs(speed)
    ensures SpeedTerm(speed) >= 0 && (SpeedTerm(speed) == 0 <==> speed == 0)
    ensures 2 * Abs(speed) <= SpeedTerm(speed) <= 3 * Abs(speed)
  {
  }

  /** The speed term does not depend on the sign of an odd speed. */
  lemma SpeedTermOddSign(speed: int)
    requires speed % 2 == 1
    ensures SpeedTerm(speed) == SpeedTerm(-speed) == 2 * Abs(speed)
  {
  }

  /**
   * An even strength counts four times and an odd one three times, negative
   * strengths included: the term keeps the strength's sign and its parity.
   */
  lemma StrengthTermCases(strength: int)
    ensures strength % 2 == 0 ==> StrengthTerm(strength) == 4 * strength
    ensures strength % 2 == 1 ==> StrengthTerm(strength) == 3 * strength
    ensures StrengthTerm(strength) % 2 == strength % 2
    ensures (StrengthTerm(strength) < 0 <==> strength < 0) && (StrengthTerm(strength) == 0 <==> strength == 0)
  {
    if strength % 2 == 1 {
      var h := strength / 2;
      assert strength == 2 * h + 1;
      assert 3 * strength == 2 * (3 * h + 1) + 1;
    } else {
      var h := strength / 2;
      assert 4 * strength == 2 * (4 * h);
    }
  }

  /** The score is the sum of the two terms, so it is bounded below by the strength term. */
  lemma ScoreBounds(speed: int, strength: int)
    ensures CalculateScore(speed, strength) >= StrengthTerm(strength)
    ensures CalculateScore(speed, strength) <= 3 * Abs(speed) + StrengthTerm(strength)
    ensures speed == 0 ==> CalculateScore(speed, strength) == StrengthTerm(strength)
  {
    SpeedTermCases(speed);
  }

  /** The three outcomes printed. */
  const Gamer1Wins := "GAMER 1 WINS"
  const Gamer2Wins := "GAMER 2 WINS"
  const Draw := "DRAW"

  /** The outcome of a battle between two gamers, each a (speed, strength) pair. */
  function Winner(g1: (int, int), g2: (int, int)): (r: string)
    ensures r == Gamer1Wins <==> CalculateScore(g1.0, g1.1) > CalculateScore(g2.0, g2.1)
    ensures r == Gamer2Wins <==> CalculateScore(g2.0, g2.1) > CalculateScore(g1.0, g1.1)
    ensures r == Draw <==> CalculateScore(g1.0, g1.1) == CalculateScore(g2.0, g2.1)
  {
    var s1 := CalculateScore(g1.0, g1.1);
    var s2 := CalculateScore(g2.0, g2.1);
    if s1 > s2 then Gamer1Wins
    else if s2 > s1 then Gamer2Wins
    else Draw
  }

  /** Swapping the gamers swaps the winner and keeps a draw. */
  lemma WinnerSwap(g1: (int, int), g2: (int, int))
    ensures Winner(g1, g2) == Gamer1Wins <==> Winner(g2, g1) == Gamer2Wins
    ensures Winner(g1, g2) == Draw <==> Winner(g2, g1) == Draw
  {
  }

  /** A gamer never beats an identical gamer. */
  lemma WinnerSelf(g: (int, int))
    ensures Winner(g, g) == Draw
  {
  }
}
