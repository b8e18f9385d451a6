/** Properties that relate several requests of the main request tree: how
    many plays a dealt hand allows, what opening a match makes playable,
    what a play removes from the hand, and what it leaves to the house.
 */
module PlayBounds {
  import opened Store
  import HousePolicy
  import Plays
  import Matches

  /** One `POST /jugadas` against a fixed match: the token's user, the
      posted card and the house policy's draw. */
  datatype PlayRequest = PlayRequest(user: Option<int>, carta: Option<int>, pick: int)

  /** The deck of match `p` does not belong to the house user (the only
      owner for whom a finishing play resets discarded cards). */
  predicate NotHouseMatch(s: Store, p: int)
    requires p in s.partidas
  {
    var d := s.partidas[p].mazo;
    !(d in s.mazos && s.mazos[d].owner == Some(HouseUser))
  }

  /** Requests for match `p` processed one after the other.  A run stops at
      the first draw the house policy could not have made. */
  function Run(s: Store, p: int, reqs: seq<PlayRequest>): Store
    decreases |reqs|
  {
    if reqs == [] || !HousePolicy.ValidPick(s.mazoCartas, reqs[0].pick) then s
    else Run(Plays.ProcessPlay(s, reqs[0].user, reqs[0].carta, Some(p), reqs[0].pick).1, p, reqs[1..])
  }

  /** Removing a present element shrinks a set by one. */
  lemma RemoveOne<T>(a: set<T>, x: T)
    requires x in a
    ensures |a - {x}| == |a| - 1
  {
    assert a == (a - {x}) + {x};
  }

  /** One play request either changes nothing at all, or appends exactly
      one play row and takes exactly the played card out of the hand. */
  lemma {:induction false} PlayConsumesHandCard(s: Store, req: PlayRequest, p: int)
    requires p in s.partidas && NotHouseMatch(s, p)
    requires HousePolicy.ValidPick(s.mazoCartas, req.pick)
    ensures var t := Plays.ProcessPlay(s, req.user, req.carta, Some(p), req.pick).1;
            var d := s.partidas[p].mazo;
            && t.mazos == s.mazos && p in t.partidas && t.partidas[p].mazo == d
            && (t == s
                || (&& |t.jugadas| == |s.jugadas| + 1
                    && req.carta.Some? && (d, req.carta.value) in HandRows(s.mazoCartas, d)
                    && HandRows(t.mazoCartas, d) == HandRows(s.mazoCartas, d) - {(d, req.carta.value)}))
  {
    var r := Plays.ProcessPlay(s, req.user, req.carta, Some(p), req.pick);
    var t := r.1;
    var d := s.partidas[p].mazo;
    var h := HousePolicy.Draw(s.mazoCartas, req.pick);
    if Plays.Admissible(s, req.user, req.carta, Some(p)) && Plays.HouseCardUsable(s, h) {
      var c := req.carta.value;
      assert req.user.value != HouseUser;
      assert t.mazoCartas == s.mazoCartas[(d, c) := Descartado];
      assert t.partidas[p].mazo == d by {
        if s.partidas[p].estado == Finalizada {
          assert t.partidas == s.partidas;
        } else if r.0.Ok? && r.0.value.numeroJugada >= Plays.PlaysPerMatch {
          assert t.partidas[p] == s.partidas[p].(estado := Finalizada, elUsuario := t.partidas[p].elUsuario);
        }
      }
      assert (d, c) in HandRows(s.mazoCartas, d);
      assert HandRows(t.mazoCartas, d) == HandRows(s.mazoCartas, d) - {(d, c)};
    }
  }

  /** However many requests arrive, each play row written for a match takes
      one card out of its hand: plays written plus cards left in hand stay
      equal to the cards in hand at the start. */
  lemma {:induction false} PlaysBoundedByHand(s: Store, p: int, reqs: seq<PlayRequest>)
    requires p in s.partidas && NotHouseMatch(s, p)
    ensures var t := Run(s, p, reqs);
            var d := s.partidas[p].mazo;
            && |t.jugadas| >= |s.jugadas|
            && |t.jugadas| - |s.jugadas| + |HandRows(t.mazoCartas, d)| == |HandRows(s.mazoCartas, d)|
    decreases |reqs|
  {
    if reqs != [] && HousePolicy.ValidPick(s.mazoCartas, reqs[0].pick) {
      var req := reqs[0];
      var s1 := Plays.ProcessPlay(s, req.user, req.carta, Some(p), req.pick).1;
      var d := s.partidas[p].mazo;
      PlayConsumesHandCard(s, req, p);
      if s1 != s {
        RemoveOne(HandRows(s.mazoCartas, d), (d, req.carta.value));
      }
      PlaysBoundedByHand(s1, p, reqs[1..]);
    }
  }

  /** Consequently a match whose deck holds `n` cards in hand can gain at
      most `n` play rows, whatever the requests. */
  lemma PlaysAtMostHand(s: Store, p: int, reqs: seq<PlayRequest>)
    requires p in s.partidas && NotHouseMatch(s, p)
    ensures |Run(s, p, reqs).jugadas| - |s.jugadas| <= |HandRows(s.mazoCartas, s.partidas[p].mazo)|
  {
    PlaysBoundedByHand(s, p, reqs);
  }

  /** After a successful opening every card of the deck is playable in the
      new match by its owner. */
  lemma OpenThenPlayable(s: Store, user: Option<int>, mazo: Option<int>, c: int)
    requires Wf(s) && Matches.OpenMatch(s, user, mazo).0.Ok?
    requires c != 0 && (mazo.value, c) in s.mazoCartas
    ensures var t := Matches.OpenMatch(s, user, mazo).1;
            Plays.Admissible(t, user, Some(c), Some(s.nextPartida))
  {
    var t := Matches.OpenMatch(s, user, mazo).1;
    assert OwnsDeck(t, mazo.value, user);
    assert Plays.DeckOf(t, s.nextPartida) == mazo.value;
  }

  /** After a successful play of card `c`, the hand query of that match no
      longer lists `c`. */
  lemma PlayedCardLeavesHand(s: Store, user: Option<int>, c: int, p: int, pick: int, name: string)
    requires HousePolicy.ValidPick(s.mazoCartas, pick)
    requires p in s.partidas && NotHouseMatch(s, p)
    requires Plays.ProcessPlay(s, user, Some(c), Some(p), pick).0.Ok?
    ensures var t := Plays.ProcessPlay(s, user, Some(c), Some(p), pick).1;
            var q := Plays.HandQuery(t, user, name, p);
            !(q.Ok? && q.value.Cards? && c in q.value.ids)
  {
    var t := Plays.ProcessPlay(s, user, Some(c), Some(p), pick).1;
    PlayConsumesHandCard(s, PlayRequest(user, Some(c), pick), p);
    var d := s.partidas[p].mazo;
    assert (d, c) !in HandRows(t.mazoCartas, d);
    assert Plays.DeckOf(t, p) == d;
  }

  /** The main tree's house policy never discards: after a play in a match
      whose deck is not the house deck, every house candidate, including
      the card just drawn, can be drawn again. */
  lemma HouseCardStaysAvailable(s: Store, user: Option<int>, carta: Option<int>, p: int, pick: int)
    requires HousePolicy.ValidPick(s.mazoCartas, pick)
    requires p in s.partidas && NotHouseMatch(s, p) && s.partidas[p].mazo != HousePolicy.HouseDeck
    ensures var t := Plays.ProcessPlay(s, user, carta, Some(p), pick).1;
            HousePolicy.Candidates(t.mazoCartas) == HousePolicy.Candidates(s.mazoCartas)
  {
    var t := Plays.ProcessPlay(s, user, carta, Some(p), pick).1;
    PlayConsumesHandCard(s, PlayRequest(user, carta, pick), p);
    if t != s {
      var d := s.partidas[p].mazo;
      assert t.mazoCartas == s.mazoCartas[(d, carta.value) := Descartado];
    }
  }

  /** The relative-majority verdict the fixed threshold stands in for. */
  function Majority(ganadas: nat, perdidas: nat): (o: Outcome)
    ensures o == Gano <==> ganadas > perdidas
    ensures o == Perdio <==> ganadas < perdidas
  {
    if ganadas > perdidas then Gano else if ganadas < perdidas then Perdio else Empato
  }

  /** Over five plays the fixed threshold agrees with the majority exactly
      when the user won three or more, won and lost two each, or won fewer
      than two and lost more than won.  In particular two wins and three
      losses finish as a draw, not a loss. */
  lemma ThresholdVersusMajority(ganadas: nat, perdidas: nat)
    requires ganadas + perdidas <= Plays.PlaysPerMatch
    ensures Plays.ThresholdOutcome(ganadas) == Majority(ganadas, perdidas)
            <==> ganadas >= 3 || (ganadas == 2 && perdidas == 2) || (ganadas < 2 && ganadas < perdidas)
  {
  }
}
