/** Opening a match in the alternative request tree (`crearPartida` under
    src/config): no check for a match already in progress, and only the
    user's deck is dealt. */
module ConfigMatches {
  import opened Store
  import Matches

  /** `crearPartida` (alternative tree): opens a match of `user` with deck
      `mazo` and deals that deck only. */
  function OpenMatch(s: Store, user: Option<int>, mazo: Option<int>): (r: (Reply<Matches.Opened>, Store))
    ensures !Truthy(user) ==> r == (Fail(401, NotAuthenticated), s)
    ensures Truthy(user) && mazo.None? ==> r == (Fail(400, MissingData), s)
    ensures Truthy(user) && mazo.Some? && !OwnsDeck(s, mazo.value, user) ==> r == (Fail(403, DeckNotOwned), s)
    ensures r.0.Ok? <==> Truthy(user) && mazo.Some? && OwnsDeck(s, mazo.value, user)
    ensures r.0.Ok? ==>
              var d, p := mazo.value, s.nextPartida;
              && r.0 == Ok(200, Matches.Opened(p, DeckCardsShown(s, d)))
              && r.1.partidas == s.partidas[p := Match(user.value, d, EnCurso, None)]
              && r.1.nextPartida == s.nextPartida + 1
              && r.1.mazoCartas.Keys == s.mazoCartas.Keys
              && (forall k :: k in s.mazoCartas && k.0 == d ==> r.1.mazoCartas[k] == EnMano)
              && (forall k :: k in s.mazoCartas && k.0 != d ==> r.1.mazoCartas[k] == s.mazoCartas[k])
              && r.1 == s.(partidas := r.1.partidas, nextPartida := r.1.nextPartida, mazoCartas := r.1.mazoCartas)
    ensures r.0.Ok? && Wf(s) ==> Wf(r.1) && s.nextPartida !in s.partidas
  {
    if !Truthy(user) then (Fail(401, NotAuthenticated), s)
    else if mazo.None? then (Fail(400, MissingData), s)
    else
      var d := mazo.value;
      if !OwnsDeck(s, d, user) then (Fail(403, DeckNotOwned), s)
      else
        var p := s.nextPartida;
        var s1 := s.(partidas := s.partidas[p := Match(user.value, d, EnCurso, None)],
                     nextPartida := p + 1,
                     mazoCartas := Deal(s.mazoCartas, {d}));
        DeckCardsShownIgnoresStates(s, s1, d);
        (Ok(200, Matches.Opened(p, DeckCardsShown(s1, d))), s1)
  }

  /** Where the main tree refuses a deck that already has a match in
      progress, this tree opens another one on it. */
  lemma NoActiveMatchCheck(s: Store, user: Option<int>, d: int)
    requires Truthy(user) && OwnsDeck(s, d, user) && Matches.HasActiveMatch(s, d)
    ensures Matches.OpenMatch(s, user, Some(d)).0 == Fail(400, DeckInUse)
    ensures OpenMatch(s, user, Some(d)).0.Ok?
    ensures OpenMatch(s, user, Some(d)).1.partidas[s.nextPartida].estado == EnCurso
  {
  }
}
