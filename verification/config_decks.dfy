/** Deck routes of the alternative request tree: `mazo()` in
    src/config/controllers/mazo.php, whose `POST /mazos` is the only handler
    of this module the tree's routes file registers, and the fuller `mazo()`
    in src/config/controllers/mazoController.php, whose handlers are
    modelled as written though no route reaches them; its `POST /mazos`
    performs the same steps. */
module ConfigDecks {
  import opened Store
  import Catalog
  import Decks

  /** At most this many cards per deck. */
  const MaxCards := 5

  /** `POST /mazos`: up to five distinct catalog cards, in state `en_mazo`.
      No authentication check runs: a request without a user id creates a
      deck with a NULL owner.  An empty card list reaches `IN ()`, which the
      database rejects as a syntax error (500). */
  function CreateDeck(s: Store, user: Option<int>, nombre: Option<string>, cartas: Option<seq<int>>): (r: (Reply<Decks.Created>, Store))
    ensures nombre.None? || cartas.None? ==> r == (Fail(400, InvalidData), s)
    ensures nombre.Some? && cartas.Some? && (|cartas.value| > MaxCards || !Distinct(cartas.value))
            ==> r == (Fail(400, BadCardList), s)
    ensures nombre.Some? && cartas.Some? && cartas.value == [] ==> r == (Fail(500, SqlError), s)
    ensures (nombre.Some? && cartas.Some? && 0 < |cartas.value| <= MaxCards && Distinct(cartas.value)
             && exists i :: 0 <= i < |cartas.value| && cartas.value[i] !in s.cartas)
            ==> r == (Fail(400, UnknownCards), s)
    ensures (nombre.Some? && cartas.Some? && 0 < |cartas.value| <= MaxCards && Distinct(cartas.value)
             && (forall i :: 0 <= i < |cartas.value| ==> cartas.value[i] in s.cartas)
             && DeckCount(s, user) >= Decks.MaxDecks)
            ==> r == (Fail(400, DeckLimit), s)
    ensures r.0.Ok? <==>
              && nombre.Some? && cartas.Some? && 0 < |cartas.value| <= MaxCards && Distinct(cartas.value)
              && (forall i :: 0 <= i < |cartas.value| ==> cartas.value[i] in s.cartas)
              && DeckCount(s, user) < Decks.MaxDecks
    ensures r.0.Fail? ==> r.1 == s
    ensures r.0.Ok? ==>
              var d := s.nextMazo;
              && r.0 == Ok(201, Decks.Created(d, nombre.value))
              && r.1.mazos == s.mazos[d := Deck(user, nombre.value)]
              && r.1.nextMazo == d + 1
              && (forall c :: c in cartas.value ==> (d, c) in r.1.mazoCartas && r.1.mazoCartas[(d, c)] == EnMazo)
              && (forall k: (int, int) :: k.0 != d ==> (k in r.1.mazoCartas <==> k in s.mazoCartas))
              && (forall k :: k in s.mazoCartas && k.0 != d ==> r.1.mazoCartas[k] == s.mazoCartas[k])
              && r.1 == s.(mazos := r.1.mazos, nextMazo := r.1.nextMazo, mazoCartas := r.1.mazoCartas)
    ensures r.0.Ok? && Wf(s) ==>
              && Wf(r.1)
              && (forall c :: (s.nextMazo, c) in r.1.mazoCartas <==> c in cartas.value)
              && (user.Some? ==> DeckCount(r.1, user) == DeckCount(s, user) + 1 <= Decks.MaxDecks)
  {
    if nombre.None? || cartas.None? then (Fail(400, InvalidData), s)
    else if |cartas.value| > MaxCards || !Distinct(cartas.value) then (Fail(400, BadCardList), s)
    else if cartas.value == [] then (Fail(500, SqlError), s)
    else if exists i :: 0 <= i < |cartas.value| && cartas.value[i] !in s.cartas then (Fail(400, UnknownCards), s)
    else if DeckCount(s, user) >= Decks.MaxDecks then (Fail(400, DeckLimit), s)
    else
      var d := s.nextMazo;
      var s1 := s.(mazos := s.mazos[d := Deck(user, nombre.value)],
                   nextMazo := d + 1,
                   mazoCartas := AddRows(s.mazoCartas, d, cartas.value, EnMazo));
      assert Wf(s) && user.Some? ==> DeckCount(s1, user) == DeckCount(s, user) + 1 by {
        if Wf(s) && user.Some? {
          Decks.DeckCountGrows(s, s1, d, Deck(user, nombre.value));
        }
      }
      (Ok(201, Decks.Created(d, nombre.value)), s1)
  }

  /** The two trees disagree on small decks: a single catalog card makes a
      deck here and is refused by the main tree. */
  lemma SmallDeckAccepted(s: Store, user: int, nombre: string, c: int)
    requires user != 0 && c in s.cartas && DeckCount(s, Some(user)) < Decks.MaxDecks
    ensures CreateDeck(s, Some(user), Some(nombre), Some([c])).0.Ok?
    ensures Decks.CreateDeck(s, Some(user), Some(nombre), Some([c])).0 == Fail(400, TooFewCards)
  {
  }

  /** `DELETE /mazos/{mazo}`: refused once any match used the deck;
      otherwise its card rows are deleted whoever asks, and the deck row only
      when the caller owns it. */
  function DeleteDeck(s: Store, user: Option<int>, mazo: int): (r: (Reply<Ack>, Store))
    ensures UsedInMatch(s, mazo) ==> r == (Fail(400, DeckUsed), s)
    ensures !UsedInMatch(s, mazo) ==>
              && r.0 == Ok(200, Ack)
              && (forall k :: k in r.1.mazoCartas <==> k in s.mazoCartas && k.0 != mazo)
              && (forall k :: k in r.1.mazoCartas ==> r.1.mazoCartas[k] == s.mazoCartas[k])
              && r.1.mazos == (if OwnsDeck(s, mazo, user) then s.mazos - {mazo} else s.mazos)
              && r.1 == s.(mazos := r.1.mazos, mazoCartas := r.1.mazoCartas)
    ensures Wf(s) ==> Wf(r.1)
  {
    if UsedInMatch(s, mazo) then (Fail(400, DeckUsed), s)
    else
      var rows := DropRows(s.mazoCartas, mazo);
      var decks := if OwnsDeck(s, mazo, user) then s.mazos - {mazo} else s.mazos;
      (Ok(200, Ack), s.(mazoCartas := rows, mazos := decks))
  }

  /** A stranger's delete of an unused deck empties it of cards and leaves
      the owner a deck with no rows. */
  lemma StrangerEmptiesDeck(s: Store, stranger: Option<int>, mazo: int)
    requires mazo in s.mazos && !OwnsDeck(s, mazo, stranger) && !UsedInMatch(s, mazo)
    ensures var t := DeleteDeck(s, stranger, mazo).1;
            && mazo in t.mazos && t.mazos[mazo] == s.mazos[mazo]
            && RowsOf(t.mazoCartas, mazo) == {}
  {
    var t := DeleteDeck(s, stranger, mazo).1;
    assert forall k :: k in RowsOf(t.mazoCartas, mazo) ==> false;
  }

  /** `GET /usuarios/{usuario}/mazos`: the decks of the token's user; the
      route's `usuario` takes no part. */
  function ListDecks(s: Store, user: Option<int>, usuario: string): (r: Reply<set<int>>)
    ensures r.Ok? && r.status == 200
    ensures forall d :: d in r.value <==> user.Some? && d in s.mazos && s.mazos[d].owner == user
  {
    Ok(200, DecksOf(s, user))
  }

  /** `PUT /mazos/{mazo}`: needs a `nombre`; renames only an owned deck but
      reports success either way. */
  function RenameDeck(s: Store, user: Option<int>, mazo: int, nombre: Option<string>): (r: (Reply<Ack>, Store))
    ensures nombre.None? ==> r == (Fail(400, MissingData), s)
    ensures nombre.Some? ==> r.0 == Ok(200, Ack)
    ensures nombre.Some? && !OwnsDeck(s, mazo, user) ==> r.1 == s
    ensures nombre.Some? && OwnsDeck(s, mazo, user) ==>
              && r.1.mazos.Keys == s.mazos.Keys
              && r.1.mazos[mazo] == Deck(s.mazos[mazo].owner, nombre.value)
              && (forall d :: d in s.mazos && d != mazo ==> r.1.mazos[d] == s.mazos[d])
              && r.1 == s.(mazos := r.1.mazos)
  {
    if nombre.None? then (Fail(400, MissingData), s)
    else if OwnsDeck(s, mazo, user) then (Ok(200, Ack), s.(mazos := s.mazos[mazo := s.mazos[mazo].(nombre := nombre.value)]))
    else (Ok(200, Ack), s)
  }

  /** A deck just created is listed for its owner. */
  lemma CreatedDeckListed(s: Store, user: Option<int>, nombre: Option<string>, cartas: Option<seq<int>>, usuario: string)
    requires user.Some? && CreateDeck(s, user, nombre, cartas).0.Ok?
    ensures s.nextMazo in ListDecks(CreateDeck(s, user, nombre, cartas).1, user, usuario).value
  {
  }

  /** After the owner deletes a deck it is no longer listed, and every
      other deck is listed exactly as before. */
  lemma DeletedDeckUnlisted(s: Store, user: Option<int>, mazo: int, usuario: string)
    requires OwnsDeck(s, mazo, user) && DeleteDeck(s, user, mazo).0.Ok?
    ensures var t := DeleteDeck(s, user, mazo).1;
            && mazo !in ListDecks(t, user, usuario).value
            && forall d :: d != mazo ==> (d in ListDecks(t, user, usuario).value <==> d in ListDecks(s, user, usuario).value)
  {
  }

  /** Renaming never changes which decks a user is listed with. */
  lemma RenameKeepsListing(s: Store, user: Option<int>, mazo: int, nombre: Option<string>, other: Option<int>, usuario: string)
    ensures ListDecks(RenameDeck(s, user, mazo, nombre).1, other, usuario) == ListDecks(s, other, usuario)
  {
    var t := RenameDeck(s, user, mazo, nombre).1;
    assert DecksOf(t, other) == DecksOf(s, other);
  }

  /** Renaming twice to the same name is renaming once. */
  lemma RenameIdempotent(s: Store, user: Option<int>, mazo: int, nombre: Option<string>)
    ensures var s1 := RenameDeck(s, user, mazo, nombre).1;
            RenameDeck(s1, user, mazo, nombre) == (RenameDeck(s, user, mazo, nombre).0, s1)
  {
    var s1 := RenameDeck(s, user, mazo, nombre).1;
    if nombre.Some? && OwnsDeck(s, mazo, user) {
      assert OwnsDeck(s1, mazo, user);
      assert s1.mazos[mazo := s1.mazos[mazo].(nombre := nombre.value)] == s1.mazos;
    }
  }

  /** `GET /cartas`: the attribute filter is an attribute id taken as given
      (no lookup, no 404); both filters are ANDed. */
  function ListCards(s: Store, atributo: Option<int>, nombre: Option<string>): (r: Reply<set<int>>)
    ensures r.Ok? && r.status == 200
    ensures forall c :: c in r.value <==>
              && c in s.cartas
              && (Truthy(atributo) ==> s.cartas[c].atributo == atributo.value)
              && (TruthyString(nombre) ==> Catalog.Contains(s.cartas[c].nombre, nombre.value))
  {
    var attr := if Truthy(atributo) then atributo else None;
    var name := if TruthyString(nombre) then nombre else None;
    Ok(200, Catalog.Matching(s.cartas, attr, name))
  }

  /** Given the id the main tree's name lookup finds, the two card listings
      agree: filtering by attribute id here is filtering by that attribute's
      name there. */
  lemma ListCardsAgrees(s: Store, atributo: string, nombre: Option<string>)
    requires TruthyString(Some(atributo)) && FindAttribute(s.atributos, atributo).Some?
    requires FindAttribute(s.atributos, atributo).value != 0
    ensures ListCards(s, FindAttribute(s.atributos, atributo), nombre) == Decks.ListCards(s, Some(atributo), nombre)
  {
    var here := ListCards(s, FindAttribute(s.atributos, atributo), nombre).value;
    var there := Decks.ListCards(s, Some(atributo), nombre).value;
    assert forall c :: c in here <==> c in there;
  }
}
