/**
 * The score, level and pause record of the client's game store, and its
 * five actions.
 */
module GameState {

  datatype GameState = GameState(score: int, level: int, isPaused: bool, isGameOver: bool)

  const Initial := GameState(0, 1, false, false)

  function IncrementScore(g: GameState, points: int): (r: GameState)
    ensures r.score - g.score == points
    ensures r.level == g.level && r.isPaused == g.isPaused && r.isGameOver == g.isGameOver
  {
    g.(score := g.score + points)
  }

  function NextLevel(g: GameState): (r: GameState)
    ensures r.level == g.level + 1
    ensures r.score == g.score && r.isPaused == g.isPaused && r.isGameOver == g.isGameOver
  {
    g.(level := g.level + 1)
  }

  function TogglePause(g: GameState): (r: GameState)
    ensures r.isPaused != g.isPaused
    ensures r.score == g.score && r.level == g.level && r.isGameOver == g.isGameOver
  {
    g.(isPaused := !g.isPaused)
  }

  /** `resetGame`: the initial record, whatever came before. */
  function ResetGame(g: GameState): (r: GameState)
    ensures r.score == 0 && r.level == 1 && !r.isPaused && !r.isGameOver
  {
    Initial
  }

  function GameOver(g: GameState): (r: GameState)
    ensures r.isGameOver
    ensures r.score == g.score && r.level == g.level && r.isPaused == g.isPaused
  {
    g.(isGameOver := true)
  }

  /** Two increments add up; two toggles cancel; ending the game again changes nothing. */
  lemma ActionLaws(g: GameState, a: int, b: int)
    ensures IncrementScore(IncrementScore(g, a), b) == IncrementScore(g, a + b)
    ensures TogglePause(TogglePause(g)) == g
    ensures GameOver(GameOver(g)) == GameOver(g)
    ensures ResetGame(NextLevel(g)) == ResetGame(g)
  {
  }
}
