/** The house policy of the alternative request tree
    (`jugadaServidor($partidaId)` in src/config/controllers/jugadaServidor.php).
    It plays from the deck of user 1, skips every card already recorded for
    the match, discards the drawn card and records the play itself.  Any
    failure is swallowed and reported as card 0.
 */
module ConfigHouse {
  import opened Store

  /** The value returned on every failure. */
  const Failed := 0

  /** The cards the house already played in match `p`:
      `SELECT carta_id FROM jugada WHERE partida_id = p`. */
  function PlayedCards(js: seq<Play>, p: int): set<int> {
    set i | 0 <= i < |js| && js[i].ServerJugada? && js[i].partida == p :: js[i].carta
  }

  /** Some play row of match `p` leaves `carta_id` NULL: the rows the main
      tree's resolver writes fill only the two per-side card columns. */
  predicate HasNullCard(js: seq<Play>, p: int) {
    exists i :: 0 <= i < |js| && js[i].Jugada? && js[i].partida == p
  }

  /** Rows of the house deck that are not discarded and whose card was not
      yet played in match `p`.  Under SQL's three-valued logic `x NOT IN (…)`
      is never true once the list holds a NULL, so a single NULL `carta_id`
      in the match leaves no candidate at all. */
  function Candidates(s: Store, house: int, p: int): set<int> {
    if HasNullCard(s.jugadas, p) then {}
    else
      set k | k in s.mazoCartas && k.0 == house && s.mazoCartas[k] != Descartado
                && k.1 !in PlayedCards(s.jugadas, p) :: k.1
  }

  /** `house` is the deck the lookup of user 1's deck returns, if any. */
  predicate HouseDeckOf(s: Store, house: Option<int>) {
    && (DecksOf(s, Some(HouseUser)) == {} ==> house.None?)
    && (house.Some? ==> OwnsDeck(s, house.value, Some(HouseUser)))
  }

  /** `array_rand` picks one of the candidates whenever there is one. */
  predicate ValidPick(s: Store, house: Option<int>, p: int, pick: int) {
    house.Some? && Candidates(s, house.value, p) != {} ==> pick in Candidates(s, house.value, p)
  }

  /** `jugadaServidor`: the house's card for match `partida`, or 0.  The
      discard is written before the play row, so when that insert fails
      (`insertFails`) the card stays discarded while the reply is 0. */
  function ServerPlay(s: Store, partida: int, house: Option<int>, pick: int, insertFails: bool): (r: (int, Store))
    requires HouseDeckOf(s, house) && ValidPick(s, house, partida, pick)
    ensures house.None? || Candidates(s, house.value, partida) == {} ==> r == (Failed, s)
    ensures HasNullCard(s.jugadas, partida) ==> r == (Failed, s)
    ensures house.Some? && Candidates(s, house.value, partida) != {} ==>
              && pick in Candidates(s, house.value, partida)
              && (house.value, pick) in s.mazoCartas
              && r.1.mazoCartas == s.mazoCartas[(house.value, pick) := Descartado]
              && r.1 == s.(mazoCartas := r.1.mazoCartas, jugadas := r.1.jugadas)
              && (insertFails ==> r.0 == Failed && r.1.jugadas == s.jugadas)
              && (!insertFails ==> r.0 == pick && r.1.jugadas == s.jugadas + [ServerJugada(partida, HouseUser, pick)])
    ensures r.0 != Failed ==> house.Some? && r.0 in Candidates(s, house.value, partida)
  {
    if house.None? then (Failed, s)
    else
      var d := house.value;
      if Candidates(s, d, partida) == {} then (Failed, s)
      else
        assert !HasNullCard(s.jugadas, partida);
        assert exists k :: k in s.mazoCartas && k.0 == d && s.mazoCartas[k] != Descartado
                             && k.1 !in PlayedCards(s.jugadas, partida) && k.1 == pick;
        var s1 := s.(mazoCartas := s.mazoCartas[(d, pick) := Descartado]);
        if insertFails then (Failed, s1)
        else (pick, s1.(jugadas := s.jugadas + [ServerJugada(partida, HouseUser, pick)]))
  }

  /** Appending a house play of card `c` in match `p` adds exactly `c` to the
      cards played in `p`, and nothing to any other match. */
  lemma PlayedCardsAppend(js: seq<Play>, p: int, q: int, c: int)
    ensures PlayedCards(js + [ServerJugada(p, HouseUser, c)], q)
            == PlayedCards(js, q) + (if q == p then {c} else {})
  {
    var js' := js + [ServerJugada(p, HouseUser, c)];
    assert forall i :: 0 <= i < |js| ==> js'[i] == js[i];
    if q == p {
      assert js'[|js|].carta == c;
    }
  }

  /** A house play never adds a NULL card to any match. */
  lemma NoNullAppend(js: seq<Play>, p: int, q: int, c: int)
    requires !HasNullCard(js, q)
    ensures !HasNullCard(js + [ServerJugada(p, HouseUser, c)], q)
  {
    var js' := js + [ServerJugada(p, HouseUser, c)];
    forall i | 0 <= i < |js'| && js'[i].Jugada?
      ensures js'[i].partida != q
    {
      assert i < |js| && js'[i] == js[i];
    }
  }

  /** A match the main tree's resolver has already played in offers the
      house no card at all. */
  lemma NullCardBlocks(s: Store, house: int, p: int, c: int, h: int, o: Outcome)
    ensures Candidates(s.(jugadas := s.jugadas + [Jugada(p, c, h, o)]), house, p) == {}
  {
    var js := s.jugadas + [Jugada(p, c, h, o)];
    assert js[|s.jugadas|].Jugada? && js[|s.jugadas|].partida == p;
  }

  /** A successful house play removes exactly the card played from the
      match's candidates: the house never plays a card twice in one match. */
  lemma {:induction false} CandidatesShrink(s: Store, partida: int, house: Option<int>, pick: int)
    requires HouseDeckOf(s, house) && ValidPick(s, house, partida, pick)
    requires ServerPlay(s, partida, house, pick, false).0 != Failed
    ensures house.Some?
    ensures var t := ServerPlay(s, partida, house, pick, false).1;
            Candidates(t, house.value, partida) == Candidates(s, house.value, partida) - {pick}
  {
    var t := ServerPlay(s, partida, house, pick, false).1;
    var d := house.value;
    PlayedCardsAppend(s.jugadas, partida, partida, pick);
    NoNullAppend(s.jugadas, partida, partida, pick);
    assert PlayedCards(t.jugadas, partida) == PlayedCards(s.jugadas, partida) + {pick};
    forall c | c in Candidates(s, d, partida) - {pick}
      ensures c in Candidates(t, d, partida)
    {
      var k :| k in s.mazoCartas && k.0 == d && s.mazoCartas[k] != Descartado
               && k.1 !in PlayedCards(s.jugadas, partida) && k.1 == c;
      assert k in t.mazoCartas && t.mazoCartas[k] != Descartado;
    }
  }

  /** House plays in one match never touch another match's candidates
      except through the shared discard of the drawn row. */
  lemma OtherMatchesKeepHistory(s: Store, partida: int, house: Option<int>, pick: int, q: int)
    requires HouseDeckOf(s, house) && ValidPick(s, house, partida, pick) && q != partida
    ensures var t := ServerPlay(s, partida, house, pick, false).1;
            PlayedCards(t.jugadas, q) == PlayedCards(s.jugadas, q)
  {
    if house.Some? && Candidates(s, house.value, partida) != {} {
      PlayedCardsAppend(s.jugadas, partida, q, pick);
    }
  }
}
