/** The house policy of the main request tree: the opponent always plays
    from deck 1, drawing at random among its rows that are not `descartado`.
    The random draw is the `pick` parameter.
 */
module HousePolicy {
  import opened Store

  /** The fixed id of the house deck. */
  const HouseDeck := 1

  /** The value returned when no card can be drawn. */
  const NoCard := -1

  /** `SELECT mc.carta_id FROM mazo_carta mc WHERE mc.mazo_id = 1 AND mc.estado != 'descartado'`. */
  function Candidates(m: map<(int, int), CardState>): set<int> {
    set k | k in m && k.0 == HouseDeck && m[k] != Descartado :: k.1
  }

  /** The draw is a genuine choice among the candidates whenever there is one. */
  predicate ValidPick(m: map<(int, int), CardState>, pick: int) {
    Candidates(m) != {} ==> pick in Candidates(m)
  }

  /** `jugadaServidor()`: returns a card of deck 1 that is not discarded, or
      -1 when there is none.  The signature has no store in its result: the
      policy reads and never writes. */
  function Draw(m: map<(int, int), CardState>, pick: int): (h: int)
    requires ValidPick(m, pick)
    ensures h == NoCard <==> Candidates(m) == {} || pick == NoCard
    ensures h != NoCard ==> (HouseDeck, h) in m && m[(HouseDeck, h)] != Descartado
    ensures Candidates(m) != {} ==> h in Candidates(m)
  {
    if Candidates(m) == {} then NoCard else pick
  }
}
