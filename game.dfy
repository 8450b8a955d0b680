/** The one notion every part of the tournament code shares. */
module Tournament {
  /** A game is an ordered pair of players, as a Python tuple is: `(a, b)` and `(b, a)` differ. */
  type Game<P> = (P, P)
}
