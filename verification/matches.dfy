/** Opening a match in the main request tree (`crearPartida`, `POST /partidas`). */
module Matches {
  import opened Store
  import HousePolicy

  /** The reply of a match opening: the new match id and the deck's cards. */
  datatype Opened = Opened(partida: int, cartas: set<int>)

  /** `SELECT * FROM partida WHERE mazo_id = ? AND estado = 'en_curso'` finds a row. */
  predicate HasActiveMatch(s: Store, d: int) {
    exists p :: p in s.partidas && s.partidas[p].mazo == d && s.partidas[p].estado == EnCurso
  }

  /** `crearPartida`: opens a match of `user` with deck `mazo` and deals every
      card of that deck and of the house deck into the hand. */
  function OpenMatch(s: Store, user: Option<int>, mazo: Option<int>): (r: (Reply<Opened>, Store))
    ensures !Truthy(user) ==> r == (Fail(401, NotAuthenticated), s)
    ensures Truthy(user) && mazo.None? ==> r == (Fail(400, MissingData), s)
    ensures Truthy(user) && mazo.Some? && !OwnsDeck(s, mazo.value, user) ==> r == (Fail(403, DeckNotOwned), s)
    ensures Truthy(user) && mazo.Some? && OwnsDeck(s, mazo.value, user) && HasActiveMatch(s, mazo.value)
            ==> r == (Fail(400, DeckInUse), s)
    ensures r.0.Ok? <==> Truthy(user) && mazo.Some? && OwnsDeck(s, mazo.value, user) && !HasActiveMatch(s, mazo.value)
    ensures r.0.Ok? ==>
              var d, p := mazo.value, s.nextPartida;
              && r.0 == Ok(200, Opened(p, DeckCardsShown(s, d)))
              && r.1.partidas == s.partidas[p := Match(user.value, d, EnCurso, None)]
              && r.1.nextPartida == s.nextPartida + 1
              && r.1.mazoCartas.Keys == s.mazoCartas.Keys
              && (forall k :: k in s.mazoCartas && (k.0 == d || k.0 == HousePolicy.HouseDeck) ==> r.1.mazoCartas[k] == EnMano)
              && (forall k :: k in s.mazoCartas && k.0 != d && k.0 != HousePolicy.HouseDeck ==> r.1.mazoCartas[k] == s.mazoCartas[k])
              && r.1 == s.(partidas := r.1.partidas, nextPartida := r.1.nextPartida, mazoCartas := r.1.mazoCartas)
    ensures r.0.Ok? && Wf(s) ==> Wf(r.1) && s.nextPartida !in s.partidas
  {
    if !Truthy(user) then (Fail(401, NotAuthenticated), s)
    else if mazo.None? then (Fail(400, MissingData), s)
    else
      var d := mazo.value;
      if !OwnsDeck(s, d, user) then (Fail(403, DeckNotOwned), s)
      else if HasActiveMatch(s, d) then (Fail(400, DeckInUse), s)
      else
        var p := s.nextPartida;
        var s1 := s.(partidas := s.partidas[p := Match(user.value, d, EnCurso, None)],
                     nextPartida := p + 1,
                     mazoCartas := Deal(s.mazoCartas, {d, HousePolicy.HouseDeck}));
        DeckCardsShownIgnoresStates(s, s1, d);
        (Ok(200, Opened(p, DeckCardsShown(s1, d))), s1)
  }
}
