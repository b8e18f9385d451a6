/** The relational store shared by every request handler of the card-battle
    backend, as an immutable record of tables.  Each table keyed by a primary
    key is a `map`; tables whose scan order matters (lookups that take the
    first matching row, joins whose output order is visible) are `seq`s.
 */
module Store {

  datatype Option<+T> = None | Some(value: T)

  /** A row of `carta`: the attack value is a non-negative integer. */
  datatype Card = Card(nombre: string, ataque: nat, atributo: int)

  /** A row of `atributo`. */
  datatype Attribute = Attribute(id: int, nombre: string)

  /** A row of `usuario`, reduced to what the engine reads. */
  datatype User = User(id: int, usuario: string)

  /** A row of `mazo`.  The owner is nullable: one creation route inserts
      whatever user id the request carries, including none. */
  datatype Deck = Deck(owner: Option<int>, nombre: string)

  /** `mazo_carta.estado`: `activo` and `en_mazo` are the two spellings the
      two creation routes use for a freshly built deck. */
  datatype CardState = Activo | EnMazo | EnMano | Descartado

  datatype MatchState = EnCurso | Finalizada

  /** `gano` / `perdio` / `empato`, always from the user's point of view. */
  datatype Outcome = Gano | Perdio | Empato

  /** A row of `partida`; `elUsuario` is NULL until the match finishes. */
  datatype Match = Match(usuario: int, mazo: int, estado: MatchState, elUsuario: Option<Outcome>)

  /** A row of `jugada`.  The play resolver writes `Jugada` rows
      (partida, user card, house card, outcome); the alternative house policy
      writes `ServerJugada` rows (partida, usuario, carta). */
  datatype Play =
    | Jugada(partida: int, cartaA: int, cartaB: int, elUsuario: Outcome)
    | ServerJugada(partida: int, usuario: int, carta: int)

  datatype Store = Store(
    cartas: map<int, Card>,
    atributos: seq<Attribute>,
    ganaA: set<(int, int)>,
    usuarios: seq<User>,
    mazos: map<int, Deck>,
    mazoCartas: map<(int, int), CardState>,
    partidas: map<int, Match>,
    jugadas: seq<Play>,
    nextMazo: int,
    nextPartida: int)

  /** Why a request was refused. */
  datatype Why =
    | NotAuthenticated
    | MissingData
    | MatchNotOwned
    | InvalidCard
    | CardAlreadyPlayed
    | HouseCardMissing
    | MatchFinished
    | UserNotFound
    | AccessDenied
    | MatchNotFound
    | HouseDeckForbidden
    | DeckNotOwned
    | DeckInUse
    | DeckUsed
    | InvalidData
    | TooManyCards
    | TooFewCards
    | BadCardList
    | RepeatedCards
    | UnknownCards
    | DeckLimit
    | AttributeNotFound
    | SqlError

  /** An HTTP reply: a status code with either a payload or a reason. */
  datatype Reply<+T> = Ok(status: int, value: T) | Fail(status: int, why: Why)

  /** The payload of a reply that only carries a message. */
  datatype Ack = Ack

  /** The id of the house user; its deck is the opponent's deck. */
  const HouseUser := 1

  /** PHP truthiness of an optional integer: null and 0 are false. */
  predicate Truthy(v: Option<int>) {
    v.Some? && v.value != 0
  }

  /** PHP truthiness of an optional string: null, "" and "0" are false. */
  predicate TruthyString(v: Option<string>) {
    v.Some? && v.value != "" && v.value != "0"
  }

  /** No card id is repeated: `count(array_unique($cartas)) === count($cartas)`. */
  predicate Distinct(xs: seq<int>) {
    forall i, j :: 0 <= i < j < |xs| ==> xs[i] != xs[j]
  }

  /** `SELECT ... FROM mazo WHERE id = ? AND usuario_id = ?` finds a row;
      a NULL user id matches nothing. */
  predicate OwnsDeck(s: Store, d: int, user: Option<int>) {
    user.Some? && d in s.mazos && s.mazos[d].owner == user
  }

  /** The match exists and its deck belongs to `user`. */
  predicate OwnsMatch(s: Store, p: int, user: Option<int>) {
    p in s.partidas && OwnsDeck(s, s.partidas[p].mazo, user)
  }

  /** The ids of the decks owned by `user`. */
  function DecksOf(s: Store, user: Option<int>): set<int> {
    set d | d in s.mazos && OwnsDeck(s, d, user)
  }

  /** `SELECT COUNT(*) FROM mazo WHERE usuario_id = ?`. */
  function DeckCount(s: Store, user: Option<int>): nat {
    |DecksOf(s, user)|
  }

  /** Some match, finished or not, was opened with deck `d`. */
  predicate UsedInMatch(s: Store, d: int) {
    exists p :: p in s.partidas && s.partidas[p].mazo == d
  }

  /** The card rows of deck `d`. */
  function RowsOf(m: map<(int, int), CardState>, d: int): set<(int, int)> {
    set k | k in m && k.0 == d
  }

  /** The rows of deck `d` currently in the hand. */
  function HandRows(m: map<(int, int), CardState>, d: int): set<(int, int)> {
    set k | k in m && k.0 == d && m[k] == EnMano
  }

  /** `UPDATE mazo_carta SET estado = 'en_mano' WHERE mazo_id IN ds`. */
  function Deal(m: map<(int, int), CardState>, ds: set<int>): (r: map<(int, int), CardState>)
    ensures r.Keys == m.Keys
    ensures forall k :: k in m && k.0 in ds ==> r[k] == EnMano
    ensures forall k :: k in m && k.0 !in ds ==> r[k] == m[k]
  {
    map k | k in m :: if k.0 in ds then EnMano else m[k]
  }

  /** `UPDATE mazo_carta SET estado = 'en_mano' WHERE mazo_id = d AND estado = 'descartado'`. */
  function ResetDeck(m: map<(int, int), CardState>, d: int): (r: map<(int, int), CardState>)
    ensures r.Keys == m.Keys
    ensures forall k :: k in m && k.0 == d && m[k] == Descartado ==> r[k] == EnMano
    ensures forall k :: k in m && (k.0 != d || m[k] != Descartado) ==> r[k] == m[k]
  {
    map k | k in m :: if k.0 == d && m[k] == Descartado then EnMano else m[k]
  }

  /** The rows `INSERT INTO mazo_carta (mazo_id, carta_id, estado)` adds for
      a new deck `d`, one per card, on top of the existing rows. */
  function AddRows(m: map<(int, int), CardState>, d: int, cards: seq<int>, st: CardState): (r: map<(int, int), CardState>)
    ensures forall c :: (d, c) in r <==> (d, c) in m || c in cards
    ensures forall c :: c in cards ==> r[(d, c)] == st
    ensures forall k :: k in m && k.0 != d ==> k in r && r[k] == m[k]
    ensures forall k :: k in r && k.0 != d ==> k in m
  {
    m + map c | c in cards :: (d, c) := st
  }

  /** `DELETE FROM mazo_carta WHERE mazo_id = d`. */
  function DropRows(m: map<(int, int), CardState>, d: int): (r: map<(int, int), CardState>)
    ensures forall k :: k in r <==> k in m && k.0 != d
    ensures forall k :: k in r ==> r[k] == m[k]
  {
    map k | k in m && k.0 != d :: m[k]
  }

  /** The id of the first `usuario` row named `name`. */
  function FindUser(us: seq<User>, name: string): (r: Option<int>)
    ensures r.None? <==> forall i :: 0 <= i < |us| ==> us[i].usuario != name
    ensures r.Some? ==> exists i :: 0 <= i < |us| && us[i].usuario == name && us[i].id == r.value
                                 && forall j :: 0 <= j < i ==> us[j].usuario != name
  {
    if us == [] then None
    else if us[0].usuario == name then Some(us[0].id)
    else
      var r := FindUser(us[1..], name);
      assert forall i :: 1 <= i < |us| ==> us[i] == us[1..][i - 1];
      r
  }

  /** The id of the first `atributo` row named `name`. */
  function FindAttribute(attrs: seq<Attribute>, name: string): (r: Option<int>)
    ensures r.None? <==> forall i :: 0 <= i < |attrs| ==> attrs[i].nombre != name
    ensures r.Some? ==> exists i :: 0 <= i < |attrs| && attrs[i].nombre == name && attrs[i].id == r.value
                                 && forall j :: 0 <= j < i ==> attrs[j].nombre != name
  {
    if attrs == [] then None
    else if attrs[0].nombre == name then Some(attrs[0].id)
    else
      var r := FindAttribute(attrs[1..], name);
      assert forall i :: 1 <= i < |attrs| ==> attrs[i] == attrs[1..][i - 1];
      r
  }

  /** Some `atributo` row has this id (the inner join the card listings use). */
  predicate HasAttribute(s: Store, a: int) {
    exists i :: 0 <= i < |s.atributos| && s.atributos[i].id == a
  }

  /** Cards of deck `d` that survive the joins with `carta` and `atributo`,
      as returned when a match is opened. */
  function DeckCardsShown(s: Store, d: int): set<int> {
    set k | k in s.mazoCartas && k.0 == d && k.1 in s.cartas && HasAttribute(s, s.cartas[k.1].atributo) :: k.1
  }

  /** The cards a deck shows depend on which rows exist, not on their states. */
  lemma DeckCardsShownIgnoresStates(s: Store, t: Store, d: int)
    requires s.mazoCartas.Keys == t.mazoCartas.Keys && s.cartas == t.cartas && s.atributos == t.atributos
    ensures DeckCardsShown(s, d) == DeckCardsShown(t, d)
  {
  }

  /** The number of `jugada` rows of match `p`. */
  function CountPlays(js: seq<Play>, p: int): nat {
    if js == [] then 0
    else CountPlays(js[..|js| - 1], p) + (if js[|js| - 1].partida == p then 1 else 0)
  }

  /** The number of `jugada` rows of match `p` whose outcome is `gano`. */
  function CountWins(js: seq<Play>, p: int): nat {
    if js == [] then 0
    else CountWins(js[..|js| - 1], p) + (if js[|js| - 1].Jugada? && js[|js| - 1].partida == p && js[|js| - 1].elUsuario == Gano then 1 else 0)
  }

  /** Auto-increment counters start at 1 and every key is below them. */
  ghost predicate Wf(s: Store) {
    && s.nextMazo > 0 && s.nextPartida > 0
    && (forall d :: d in s.mazos ==> d < s.nextMazo)
    && (forall k :: k in s.mazoCartas ==> k.0 < s.nextMazo)
    && (forall p :: p in s.partidas ==> p < s.nextPartida && s.partidas[p].mazo < s.nextMazo)
  }

  /** Resetting a deck twice changes nothing the first reset did not. */
  lemma ResetIdempotent(m: map<(int, int), CardState>, d: int)
    ensures ResetDeck(ResetDeck(m, d), d) == ResetDeck(m, d)
    ensures forall k :: k in ResetDeck(m, d) && k.0 == d ==> ResetDeck(m, d)[k] != Descartado
  {
  }
}
