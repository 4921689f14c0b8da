/** Day 2: score a strategy guide of rock-paper-scissors rounds
    (day-2/src/main.rs). The letters A/B/C and X/Y/Z arrive already decoded. */
module Day02RockPaperScissors {
  import opened Wrappers

  datatype Move = Rock | Paper | Scissors
  /** What the guide says the player must achieve in a round. */
  datatype PlayerMust = Lose | Draw | Win
  /** `GameResult`; its `Draw` is called `Tie` here to keep it apart from
      `PlayerMust::Draw`. */
  datatype GameResult = OpponentWins | PlayerWins | Tie
  datatype Round = Round(opponent: Move, requirement: PlayerMust)

  /** `Move::score`. */
  function Score(m: Move): (r: int)
    ensures 1 <= r <= 3
    ensures m == Rock <==> r == 1
    ensures m == Paper <==> r == 2
  {
    match m
    case Rock => 1
    case Paper => 2
    case Scissors => 3
  }

  /** The move that `m` defeats: an independent statement of the game's rule. */
  function Beats(m: Move): Move
  {
    match m
    case Rock => Scissors
    case Paper => Rock
    case Scissors => Paper
  }

  /** `shoot`: the outcome table, written out case by case as in the source. */
  function Shoot(opponent: Move, player: Move): (r: GameResult)
    ensures r == Tie <==> opponent == player
    ensures r == PlayerWins <==> Beats(player) == opponent
    ensures r == OpponentWins <==> Beats(opponent) == player
  {
    match (opponent, player)
    case (Paper, Paper) => Tie
    case (Paper, Rock) => OpponentWins
    case (Paper, Scissors) => PlayerWins
    case (Rock, Paper) => PlayerWins
    case (Rock, Rock) => Tie
    case (Rock, Scissors) => OpponentWins
    case (Scissors, Paper) => OpponentWins
    case (Scissors, Rock) => PlayerWins
    case (Scissors, Scissors) => Tie
  }

  /** Swapping the two hands swaps the winner. */
  lemma ShootAntisymmetric(a: Move, b: Move)
    ensures Shoot(a, a) == Tie
    ensures Shoot(a, b) == PlayerWins <==> Shoot(b, a) == OpponentWins
    ensures Shoot(a, b) == Tie <==> Shoot(b, a) == Tie
  {
  }

  /** The player's move chosen in `Round::play`. */
  function Choose(opponent: Move, requirement: PlayerMust): (player: Move)
    ensures requirement == Win ==> Shoot(opponent, player) == PlayerWins
    ensures requirement == Lose ==> Shoot(opponent, player) == OpponentWins
    ensures requirement == Draw ==> Shoot(opponent, player) == Tie
  {
    match (opponent, requirement)
    case (m, Draw) => m
    case (Rock, Lose) => Scissors
    case (Rock, Win) => Paper
    case (Paper, Lose) => Rock
    case (Paper, Win) => Scissors
    case (Scissors, Lose) => Paper
    case (Scissors, Win) => Rock
  }

  /** `Round::play`: (opponent score, player score). The winner gets 6, a
      draw gives 3 to each, and each side adds the score of its own move. */
  function Play(round: Round): (r: (int, int))
    ensures var player := Choose(round.opponent, round.requirement);
      r.0 + r.1 == Score(round.opponent) + Score(player) + 6
    ensures 1 <= r.1 <= 9
    ensures r.1 == Score(Choose(round.opponent, round.requirement))
                   + (match round.requirement case Lose => 0 case Draw => 3 case Win => 6)
  {
    var player := Choose(round.opponent, round.requirement);
    match Shoot(round.opponent, player)
    case PlayerWins => (Score(round.opponent), Score(player) + 6)
    case OpponentWins => (Score(round.opponent) + 6, Score(player))
    case Tie => (3 + Score(round.opponent), 3 + Score(player))
  }

  function SumPlayer(rounds: seq<Round>): int
  {
    if |rounds| == 0 then 0 else SumPlayer(rounds[..|rounds| - 1]) + Play(rounds[|rounds| - 1]).1
  }

  function SumOpponent(rounds: seq<Round>): int
  {
    if |rounds| == 0 then 0 else SumOpponent(rounds[..|rounds| - 1]) + Play(rounds[|rounds| - 1]).0
  }

  /** The `reduce` of `main`, folding component-wise sums from the left;
      `unwrap` panics when there are no rounds. */
  function Total(rounds: seq<Round>): (r: Option<(int, int)>)
    ensures r.None? <==> |rounds| == 0
  {
    if |rounds| == 0 then None
    else if |rounds| == 1 then Some(Play(rounds[0]))
    else
      var prev := Total(rounds[..|rounds| - 1]);
      var last := Play(rounds[|rounds| - 1]);
      Some((prev.value.0 + last.0, prev.value.1 + last.1))
  }

  /** The folded pair is the per-side sum of the round scores, and the
      player's total lies between one and nine points per round. */
  lemma {:induction false} TotalIsSum(rounds: seq<Round>)
    requires |rounds| > 0
    ensures Total(rounds) == Some((SumOpponent(rounds), SumPlayer(rounds)))
    ensures |rounds| <= SumPlayer(rounds) <= 9 * |rounds|
  {
    if |rounds| > 1 {
      TotalIsSum(rounds[..|rounds| - 1]);
    } else {
      assert rounds[..0] == [];
    }
  }
}
