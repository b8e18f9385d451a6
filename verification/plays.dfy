/** The play resolver of the main request tree (`POST /jugadas`) and the
    hand query (`GET /usuarios/{usuario}/partidas/{partida}/cartas`).

    The resolver is not transactional: it checks its guards, writes the play
    row, discards the user's card, and only then looks at whether the match
    had already finished.  Every step below happens in that order, and a
    later refusal keeps the writes already made.
 */
module Plays {
  import opened Store
  import Catalog
  import HousePolicy

  /** `ganador` in the reply. */
  datatype Winner = Usuario | Servidor | Empate | EnJuego

  /** The reply of a resolved play; attacks are scaled by ten. */
  datatype PlayResult = PlayResult(
    cartaServidor: int,
    ataqueUsuario: int,
    ataqueServidor: int,
    resultado: Outcome,
    ganador: Winner,
    numeroJugada: nat)

  /** The play count from which a match is finalized. */
  const PlaysPerMatch := 5

  /** The fixed number of user wins the final verdict is measured against. */
  const WinThreshold := 2

  /** The final verdict from the number of plays the user won: more than two
      is a win, fewer than two a loss, exactly two a draw, whatever the
      other plays were. */
  function ThresholdOutcome(ganadas: nat): (o: Outcome)
    ensures o == Gano <==> ganadas > WinThreshold
    ensures o == Perdio <==> ganadas < WinThreshold
    ensures o == Empato <==> ganadas == WinThreshold
  {
    if ganadas > WinThreshold then Gano
    else if ganadas < WinThreshold then Perdio
    else Empato
  }

  function WinnerOf(o: Outcome): Winner {
    match o
    case Gano => Usuario
    case Perdio => Servidor
    case Empato => Empate
  }

  /** The deck the match was opened with. */
  function DeckOf(s: Store, p: int): int
    requires p in s.partidas
  {
    s.partidas[p].mazo
  }

  /** The house card that survives both checks: `!$cartaServidorId` and the
      `SELECT COUNT(*) FROM carta WHERE id = ?` lookup. */
  predicate HouseCardUsable(s: Store, h: int) {
    h != 0 && h in s.cartas
  }

  /** Everything after the house card is known: score, insert the play,
      discard the user card, check for a finished match, finalize. */
  function Resolve(s: Store, p: int, c: int, h: int): (r: (Reply<PlayResult>, Store))
    requires p in s.partidas
    // the play row is written whatever happens next
    ensures r.1.jugadas == s.jugadas + [Jugada(p, c, h, Catalog.Score(s.cartas, s.ganaA, c, h).resultado)]
    ensures r.0.Ok? <==> s.partidas[p].estado == EnCurso
    ensures r.0.Fail? ==> r.0 == Fail(400, MatchFinished) && r.1.partidas == s.partidas
    ensures r.0.Ok? ==> var b := Catalog.Score(s.cartas, s.ganaA, c, h);
                        && r.0.status == 200
                        && r.0.value == PlayResult(h, b.ataqueUsuario, b.ataqueServidor, b.resultado,
                                                   r.0.value.ganador, r.0.value.numeroJugada)
                        && r.0.value.numeroJugada == CountPlays(s.jugadas, p) + 1
    ensures r.0.Ok? && r.0.value.numeroJugada >= PlaysPerMatch ==>
              r.1.partidas == s.partidas[p := s.partidas[p].(estado := Finalizada,
                                                             elUsuario := Some(ThresholdOutcome(CountWins(r.1.jugadas, p))))]
    ensures r.0.Ok? && r.0.value.numeroJugada < PlaysPerMatch ==> r.1.partidas == s.partidas
    // the user card is discarded; a house-owned deck is reset when the match closes
    ensures var m := if (DeckOf(s, p), c) in s.mazoCartas then s.mazoCartas[(DeckOf(s, p), c) := Descartado] else s.mazoCartas;
            r.1.mazoCartas == if r.0.Ok? && r.0.value.numeroJugada >= PlaysPerMatch
                                 && DeckOf(s, p) in s.mazos && s.mazos[DeckOf(s, p)].owner == Some(HouseUser)
                              then ResetDeck(m, DeckOf(s, p)) else m
    ensures r.1 == s.(jugadas := r.1.jugadas, mazoCartas := r.1.mazoCartas, partidas := r.1.partidas)
  {
    var d := DeckOf(s, p);
    var b := Catalog.Score(s.cartas, s.ganaA, c, h);
    var s1 := s.(jugadas := s.jugadas + [Jugada(p, c, h, b.resultado)],
                 mazoCartas := if (d, c) in s.mazoCartas then s.mazoCartas[(d, c) := Descartado] else s.mazoCartas);
    var n := CountPlays(s1.jugadas, p);
    if s.partidas[p].estado == Finalizada then
      (Fail(400, MatchFinished), s1)
    else
      assert s.partidas[p].estado == EnCurso;
      if n >= PlaysPerMatch then
        var o := ThresholdOutcome(CountWins(s1.jugadas, p));
        var reset := if d in s1.mazos && s1.mazos[d].owner == Some(HouseUser) then ResetDeck(s1.mazoCartas, d) else s1.mazoCartas;
        var s2 := s1.(partidas := s1.partidas[p := s1.partidas[p].(estado := Finalizada, elUsuario := Some(o))],
                      mazoCartas := reset);
        (Ok(200, PlayResult(h, b.ataqueUsuario, b.ataqueServidor, b.resultado, WinnerOf(o), n)), s2)
      else
        (Ok(200, PlayResult(h, b.ataqueUsuario, b.ataqueServidor, b.resultado, EnJuego, n)), s1)
  }

  /** All guards of `procesarJugada` that run before any write pass. */
  predicate Admissible(s: Store, user: Option<int>, carta: Option<int>, partida: Option<int>) {
    && Truthy(user) && Truthy(carta) && Truthy(partida)
    && OwnsMatch(s, partida.value, user)
    && (DeckOf(s, partida.value), carta.value) in s.mazoCartas
    && s.mazoCartas[(DeckOf(s, partida.value), carta.value)] == EnMano
  }

  /** `procesarJugada`: resolve user card `carta` in match `partida`; `pick`
      is the house policy's random draw. */
  function ProcessPlay(s: Store, user: Option<int>, carta: Option<int>, partida: Option<int>, pick: int): (r: (Reply<PlayResult>, Store))
    requires HousePolicy.ValidPick(s.mazoCartas, pick)
    // the guards, in order, each refusing before any write
    ensures !Truthy(user) ==> r == (Fail(401, NotAuthenticated), s)
    ensures Truthy(user) && (!Truthy(carta) || !Truthy(partida)) ==> r == (Fail(400, MissingData), s)
    ensures Truthy(user) && Truthy(carta) && Truthy(partida) && !OwnsMatch(s, partida.value, user)
            ==> r == (Fail(403, MatchNotOwned), s)
    ensures Truthy(user) && Truthy(carta) && Truthy(partida) && OwnsMatch(s, partida.value, user)
            && (DeckOf(s, partida.value), carta.value) !in s.mazoCartas
            ==> r == (Fail(400, InvalidCard), s)
    ensures Truthy(user) && Truthy(carta) && Truthy(partida) && OwnsMatch(s, partida.value, user)
            && (DeckOf(s, partida.value), carta.value) in s.mazoCartas
            && s.mazoCartas[(DeckOf(s, partida.value), carta.value)] != EnMano
            ==> r == (Fail(400, CardAlreadyPlayed), s)
    // a failed house draw (-1) or an unknown house card writes nothing
    ensures Admissible(s, user, carta, partida)
            && !HouseCardUsable(s, HousePolicy.Draw(s.mazoCartas, pick))
            ==> r == (Fail(400, HouseCardMissing), s)
    // past the guards: exactly one play row, the user card discarded
    ensures Admissible(s, user, carta, partida) && HouseCardUsable(s, HousePolicy.Draw(s.mazoCartas, pick)) ==>
              var p, c, h := partida.value, carta.value, HousePolicy.Draw(s.mazoCartas, pick);
              var d := DeckOf(s, p);
              && r.1.jugadas == s.jugadas + [Jugada(p, c, h, Catalog.Score(s.cartas, s.ganaA, c, h).resultado)]
              && (user.value != HouseUser ==> r.1.mazoCartas == s.mazoCartas[(d, c) := Descartado])
              && (forall k :: k in s.mazoCartas && k.0 != d ==> k in r.1.mazoCartas && r.1.mazoCartas[k] == s.mazoCartas[k])
              && r.1.mazoCartas.Keys == s.mazoCartas.Keys
              && r.1.mazos == s.mazos && r.1.cartas == s.cartas
              && r.1.partidas.Keys == s.partidas.Keys
              && (forall q :: q in s.partidas && q != p ==> r.1.partidas[q] == s.partidas[q])
    ensures Admissible(s, user, carta, partida) && HouseCardUsable(s, HousePolicy.Draw(s.mazoCartas, pick)) ==>
              var p, c := partida.value, carta.value;
              var d := DeckOf(s, p);
              r.1.mazoCartas == if r.0.Ok? && r.0.value.numeroJugada >= PlaysPerMatch
                                   && d in s.mazos && s.mazos[d].owner == Some(HouseUser)
                                then ResetDeck(s.mazoCartas[(d, c) := Descartado], d)
                                else s.mazoCartas[(d, c) := Descartado]
    ensures r.0.Ok? <==> Admissible(s, user, carta, partida) && HouseCardUsable(s, HousePolicy.Draw(s.mazoCartas, pick))
                         && s.partidas[partida.value].estado == EnCurso
    ensures r.1 == s.(jugadas := r.1.jugadas, mazoCartas := r.1.mazoCartas, partidas := r.1.partidas)
    // a finished match is noticed only after the writes, which stay
    ensures Admissible(s, user, carta, partida) && HouseCardUsable(s, HousePolicy.Draw(s.mazoCartas, pick))
            && s.partidas[partida.value].estado == Finalizada
            ==> r.0 == Fail(400, MatchFinished) && r.1.partidas == s.partidas
    // the reply reports the house card and the scored play
    ensures r.0.Ok? ==>
              var h := HousePolicy.Draw(s.mazoCartas, pick);
              var b := Catalog.Score(s.cartas, s.ganaA, carta.value, h);
              r.0.value == PlayResult(h, b.ataqueUsuario, b.ataqueServidor, b.resultado,
                                      r.0.value.ganador, r.0.value.numeroJugada)
    ensures r.0.Ok? ==>
              var p := partida.value;
              && r.0.status == 200
              && s.partidas[p].estado == EnCurso
              && r.0.value.numeroJugada == CountPlays(r.1.jugadas, p) == CountPlays(s.jugadas, p) + 1
    // fifth play or later: the threshold verdict closes the match
    ensures r.0.Ok? && r.0.value.numeroJugada >= PlaysPerMatch ==>
              var p := partida.value;
              var o := ThresholdOutcome(CountWins(r.1.jugadas, p));
              && r.1.partidas[p] == s.partidas[p].(estado := Finalizada, elUsuario := Some(o))
              && r.0.value.ganador == WinnerOf(o)
    // earlier plays leave the match as it was
    ensures r.0.Ok? && r.0.value.numeroJugada < PlaysPerMatch ==>
              r.1.partidas == s.partidas && r.0.value.ganador == EnJuego
  {
    if !Truthy(user) then (Fail(401, NotAuthenticated), s)
    else if !Truthy(carta) || !Truthy(partida) then (Fail(400, MissingData), s)
    else
      var u, c, p := user.value, carta.value, partida.value;
      if !OwnsMatch(s, p, user) then (Fail(403, MatchNotOwned), s)
      else if (DeckOf(s, p), c) !in s.mazoCartas then (Fail(400, InvalidCard), s)
      else if s.mazoCartas[(DeckOf(s, p), c)] != EnMano then (Fail(400, CardAlreadyPlayed), s)
      else
        var h := HousePolicy.Draw(s.mazoCartas, pick);
        if !HouseCardUsable(s, h) then (Fail(400, HouseCardMissing), s)
        else Resolve(s, p, c, h)
  }

  /** The reply of the hand query. */
  datatype Hand = Cards(ids: set<int>) | NoCardsInHand

  /** The `en_mano` cards of deck `d` that survive the joins with `carta`
      and `atributo`. */
  function InHand(s: Store, d: int): set<int> {
    set k | k in s.mazoCartas && k.0 == d && s.mazoCartas[k] == EnMano
                && k.1 in s.cartas && HasAttribute(s, s.cartas[k.1].atributo) :: k.1
  }

  /** `obtenerCartasEnMano`: the cards in hand for match `partida`, asked for
      by the user named `usuario` in the route and `token` in the JWT. */
  function HandQuery(s: Store, token: Option<int>, usuario: string, partida: int): (r: Reply<Hand>)
    ensures FindUser(s.usuarios, usuario).None? ==> r == Fail(404, UserNotFound)
    ensures FindUser(s.usuarios, usuario).Some? && token != FindUser(s.usuarios, usuario)
            ==> r == Fail(403, AccessDenied)
    ensures token == FindUser(s.usuarios, usuario) && token.Some? && !OwnsMatch(s, partida, token)
            ==> r == Fail(404, MatchNotFound)
    ensures token == FindUser(s.usuarios, usuario) && OwnsMatch(s, partida, token) && token == Some(HouseUser)
            ==> r == Fail(403, HouseDeckForbidden)
    ensures r.Ok? <==> FindUser(s.usuarios, usuario).Some? && token == FindUser(s.usuarios, usuario)
                       && OwnsMatch(s, partida, token) && token != Some(HouseUser)
    ensures r.Ok? ==> r.status == 200
    ensures r.Ok? && r.value.Cards? ==> r.value.ids != {}
    ensures r.Ok? && r.value.Cards? ==> forall c :: c in r.value.ids <==>
              && (DeckOf(s, partida), c) in s.mazoCartas
              && s.mazoCartas[(DeckOf(s, partida), c)] == EnMano
              && c in s.cartas && HasAttribute(s, s.cartas[c].atributo)
    ensures r.Ok? && r.value.NoCardsInHand? ==> forall c ::
              (DeckOf(s, partida), c) in s.mazoCartas && s.mazoCartas[(DeckOf(s, partida), c)] == EnMano
              ==> c !in s.cartas || !HasAttribute(s, s.cartas[c].atributo)
  {
    var routeUser := FindUser(s.usuarios, usuario);
    if routeUser.None? then Fail(404, UserNotFound)
    else if token != routeUser then Fail(403, AccessDenied)
    else if !OwnsMatch(s, partida, routeUser) then Fail(404, MatchNotFound)
    else if routeUser == Some(HouseUser) then Fail(403, HouseDeckForbidden)
    else
      var cards := InHand(s, DeckOf(s, partida));
      assert forall c :: ((DeckOf(s, partida), c) in s.mazoCartas && s.mazoCartas[(DeckOf(s, partida), c)] == EnMano
                          && c in s.cartas && HasAttribute(s, s.cartas[c].atributo)) ==> c in cards by {
        forall c | (DeckOf(s, partida), c) in s.mazoCartas && s.mazoCartas[(DeckOf(s, partida), c)] == EnMano
                   && c in s.cartas && HasAttribute(s, s.cartas[c].atributo)
          ensures c in cards
        {
          var k := (DeckOf(s, partida), c);
          assert k.1 == c;
        }
      }
      if cards == {} then Ok(200, NoCardsInHand) else Ok(200, Cards(cards))
  }
}
