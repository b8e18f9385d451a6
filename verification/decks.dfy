/** Deck management and the card listing of the main request tree
    (`crearMazo`, `eliminarMazo`, `actualizarMazo`, `listarCartas`). */
module Decks {
  import opened Store
  import Catalog

  /** The most decks a user may own. */
  const MaxDecks := 3

  /** The number of cards a deck of the main tree must have. */
  const DeckSize := 5

  /** The reply of a deck creation. */
  datatype Created = Created(mazo: int, nombre: string)

  /** The JSON body of a rename: `Empty` when it decodes to something falsy
      (null, false, 0, "", an empty array) or to a scalar that is not an
      array; otherwise `Fields`, with the `nombre` field when it is set.  A
      non-empty JSON list such as `[1]` is an array and so is `Fields(None)`. */
  datatype RenameBody = Empty | Fields(nombre: Option<string>)

  /** Adding a fresh deck to its owner raises the owner's deck count by one. */
  lemma DeckCountGrows(s: Store, t: Store, d: int, deck: Deck)
    requires d !in s.mazos && deck.owner.Some? && t.mazos == s.mazos[d := deck]
    ensures DeckCount(t, deck.owner) == DeckCount(s, deck.owner) + 1
  {
    assert DecksOf(t, deck.owner) == DecksOf(s, deck.owner) + {d};
  }

  /** `crearMazo`: a deck of exactly five distinct cards, in state `activo`.
      The card ids are not looked up in the catalog. */
  function CreateDeck(s: Store, user: Option<int>, nombre: Option<string>, cartas: Option<seq<int>>): (r: (Reply<Created>, Store))
    ensures !Truthy(user) ==> r == (Fail(401, NotAuthenticated), s)
    ensures Truthy(user) && (nombre.None? || cartas.None?) ==> r == (Fail(400, InvalidData), s)
    ensures Truthy(user) && nombre.Some? && cartas.Some? && |cartas.value| > DeckSize ==> r == (Fail(400, TooManyCards), s)
    ensures Truthy(user) && nombre.Some? && cartas.Some? && |cartas.value| < DeckSize ==> r == (Fail(400, TooFewCards), s)
    ensures Truthy(user) && nombre.Some? && cartas.Some? && |cartas.value| == DeckSize && !Distinct(cartas.value)
            ==> r == (Fail(400, RepeatedCards), s)
    ensures (Truthy(user) && nombre.Some? && cartas.Some? && |cartas.value| == DeckSize && Distinct(cartas.value)
             && DeckCount(s, user) >= MaxDecks) ==> r == (Fail(400, DeckLimit), s)
    ensures r.0.Ok? <==> Truthy(user) && nombre.Some? && cartas.Some? && |cartas.value| == DeckSize
                         && Distinct(cartas.value) && DeckCount(s, user) < MaxDecks
    ensures r.0.Ok? ==>
              var d := s.nextMazo;
              && r.0 == Ok(201, Created(d, nombre.value))
              && r.1.mazos == s.mazos[d := Deck(user, nombre.value)]
              && r.1.nextMazo == d + 1
              && (forall c :: c in cartas.value ==> (d, c) in r.1.mazoCartas && r.1.mazoCartas[(d, c)] == Activo)
              && (forall k: (int, int) :: k.0 != d ==> (k in r.1.mazoCartas <==> k in s.mazoCartas))
              && (forall k :: k in s.mazoCartas && k.0 != d ==> r.1.mazoCartas[k] == s.mazoCartas[k])
              && r.1 == s.(mazos := r.1.mazos, nextMazo := r.1.nextMazo, mazoCartas := r.1.mazoCartas)
    ensures r.0.Ok? && Wf(s) ==>
              && Wf(r.1)
              && (forall c :: (s.nextMazo, c) in r.1.mazoCartas <==> c in cartas.value)
              && DeckCount(r.1, user) == DeckCount(s, user) + 1 <= MaxDecks
  {
    if !Truthy(user) then (Fail(401, NotAuthenticated), s)
    else if nombre.None? || cartas.None? then (Fail(400, InvalidData), s)
    else if |cartas.value| > DeckSize then (Fail(400, TooManyCards), s)
    else if |cartas.value| < DeckSize then (Fail(400, TooFewCards), s)
    else if !Distinct(cartas.value) then (Fail(400, RepeatedCards), s)
    else if DeckCount(s, user) >= MaxDecks then (Fail(400, DeckLimit), s)
    else
      var d := s.nextMazo;
      var s1 := s.(mazos := s.mazos[d := Deck(user, nombre.value)],
                   nextMazo := d + 1,
                   mazoCartas := AddRows(s.mazoCartas, d, cartas.value, Activo));
      assert Wf(s) ==> d !in s.mazos && DeckCount(s1, user) == DeckCount(s, user) + 1 by {
        if Wf(s) {
          DeckCountGrows(s, s1, d, Deck(user, nombre.value));
        }
      }
      (Ok(201, Created(d, nombre.value)), s1)
  }

  /** `eliminarMazo`: only the owner may delete, and only a deck that no
      match ever used; the card rows go first, then the deck. */
  function DeleteDeck(s: Store, user: Option<int>, mazo: int): (r: (Reply<Ack>, Store))
    ensures !OwnsDeck(s, mazo, user) ==> r == (Fail(403, DeckNotOwned), s)
    ensures OwnsDeck(s, mazo, user) && UsedInMatch(s, mazo) ==> r == (Fail(400, DeckUsed), s)
    ensures r.0.Ok? <==> OwnsDeck(s, mazo, user) && !UsedInMatch(s, mazo)
    ensures r.0.Ok? ==>
              && r.0 == Ok(200, Ack)
              && r.1.mazos == s.mazos - {mazo}
              && (forall k :: k in r.1.mazoCartas <==> k in s.mazoCartas && k.0 != mazo)
              && (forall k :: k in r.1.mazoCartas ==> r.1.mazoCartas[k] == s.mazoCartas[k])
              && r.1 == s.(mazos := r.1.mazos, mazoCartas := r.1.mazoCartas)
    ensures Wf(s) ==> Wf(r.1)
  {
    if !OwnsDeck(s, mazo, user) then (Fail(403, DeckNotOwned), s)
    else if UsedInMatch(s, mazo) then (Fail(400, DeckUsed), s)
    else (Ok(200, Ack), s.(mazoCartas := DropRows(s.mazoCartas, mazo), mazos := s.mazos - {mazo}))
  }

  /** Creating a deck and deleting it straight away restores every table;
      only the auto-increment counter has moved on. */
  lemma CreateThenDelete(s: Store, user: Option<int>, nombre: string, cartas: seq<int>)
    requires Wf(s)
    requires CreateDeck(s, user, Some(nombre), Some(cartas)).0.Ok?
    ensures var s1 := CreateDeck(s, user, Some(nombre), Some(cartas)).1;
            DeleteDeck(s1, user, s.nextMazo) == (Ok(200, Ack), s.(nextMazo := s.nextMazo + 1))
  {
    var d := s.nextMazo;
    var s1 := CreateDeck(s, user, Some(nombre), Some(cartas)).1;
    assert s1 == s.(mazos := s.mazos[d := Deck(user, nombre)], nextMazo := d + 1,
                    mazoCartas := AddRows(s.mazoCartas, d, cartas, Activo));
    assert OwnsDeck(s1, d, user);
    assert !UsedInMatch(s1, d);
    DropAddedRows(s.mazoCartas, d, cartas, Activo);
    assert s1.mazos - {d} == s.mazos;
  }

  /** Dropping the rows of a deck that had none before they were added
      restores the table. */
  lemma DropAddedRows(m: map<(int, int), CardState>, d: int, cards: seq<int>, st: CardState)
    requires forall k :: k in m ==> k.0 < d
    ensures DropRows(AddRows(m, d, cards, st), d) == m
  {
  }

  /** `actualizarMazo`: renames an owned deck when the body carries a
      `nombre`; an owned deck without one is reported as updated too. */
  function RenameDeck(s: Store, user: Option<int>, mazo: int, body: RenameBody): (r: (Reply<Ack>, Store))
    ensures body.Empty? ==> r == (Fail(400, InvalidData), s)
    ensures body.Fields? && !OwnsDeck(s, mazo, user) ==> r == (Fail(403, DeckNotOwned), s)
    ensures body.Fields? && OwnsDeck(s, mazo, user) ==> r.0 == Ok(200, Ack)
    ensures r.0.Ok? && body.nombre.None? ==> r.1 == s
    ensures r.0.Ok? && body.nombre.Some? ==>
              && r.1.mazos.Keys == s.mazos.Keys
              && r.1.mazos[mazo] == Deck(s.mazos[mazo].owner, body.nombre.value)
              && (forall d :: d in s.mazos && d != mazo ==> r.1.mazos[d] == s.mazos[d])
              && r.1 == s.(mazos := r.1.mazos)
  {
    if body.Empty? then (Fail(400, InvalidData), s)
    else if !OwnsDeck(s, mazo, user) then (Fail(403, DeckNotOwned), s)
    else if body.nombre.Some? then (Ok(200, Ack), s.(mazos := s.mazos[mazo := s.mazos[mazo].(nombre := body.nombre.value)]))
    else (Ok(200, Ack), s)
  }

  /** Renaming twice to the same name is renaming once. */
  lemma RenameIdempotent(s: Store, user: Option<int>, mazo: int, body: RenameBody)
    ensures var s1 := RenameDeck(s, user, mazo, body).1;
            RenameDeck(s1, user, mazo, body) == (RenameDeck(s, user, mazo, body).0, s1)
  {
    var s1 := RenameDeck(s, user, mazo, body).1;
    if body.Fields? && OwnsDeck(s, mazo, user) && body.nombre.Some? {
      assert OwnsDeck(s1, mazo, user);
      assert s1.mazos[mazo := s1.mazos[mazo].(nombre := body.nombre.value)] == s1.mazos;
    }
  }

  /** `listarCartas`: an attribute name, when given, is first resolved to its
      id (404 when unknown); the remaining filters are ANDed. */
  function ListCards(s: Store, atributo: Option<string>, nombre: Option<string>): (r: Reply<set<int>>)
    ensures TruthyString(atributo) && FindAttribute(s.atributos, atributo.value).None?
            ==> r == Fail(404, AttributeNotFound)
    ensures r.Fail? ==> r == Fail(404, AttributeNotFound)
    ensures r.Fail? <==> TruthyString(atributo) && FindAttribute(s.atributos, atributo.value).None?
    ensures r.Ok? ==> r.status == 200 && forall c :: c in r.value <==>
              && c in s.cartas
              && (TruthyString(atributo) ==> Some(s.cartas[c].atributo) == FindAttribute(s.atributos, atributo.value))
              && (TruthyString(nombre) ==> Catalog.Contains(s.cartas[c].nombre, nombre.value))
    ensures !TruthyString(atributo) && !TruthyString(nombre) ==> r == Ok(200, s.cartas.Keys)
  {
    var attr := if TruthyString(atributo) then FindAttribute(s.atributos, atributo.value) else None;
    if TruthyString(atributo) && attr.None? then Fail(404, AttributeNotFound)
    else
      var name := if TruthyString(nombre) then nombre else None;
      Catalog.MatchingNoFilter(s.cartas);
      Ok(200, Catalog.Matching(s.cartas, attr, name))
  }
}
