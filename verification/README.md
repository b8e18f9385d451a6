# Card-battle engine: a Dafny model

This project models the engine of a PHP/Slim card-battle backend. A user
builds a deck of catalog cards and opens a match against a fixed opponent,
the house (user 1). The user then posts plays one at a time. Each play sets
one user card against one house card. The attacks are compared after a
type-advantage boost, and the play is won (`gano`), lost (`perdio`) or
drawn (`empato`). From the fifth play on, the match is closed with a verdict.

The repository has two request trees, and both are modelled as separate
variants:

- **Main tree** (`src/controllers/...`):
  - `procesarJugada` resolves a play, and `obtenerCartasEnMano` answers the
    hand query;
  - `jugadaServidor()` draws the house card;
  - `crearPartida` opens a match;
  - `crearMazo`, `eliminarMazo`, `actualizarMazo` and `listarCartas` manage
    decks and list cards;
  - there are two `GET /estadisticas` reports.
- **Alternative tree** (`src/config/controllers/...`). Its routes file is
  the one the front controller loads, but that file registers only
  `POST /login`, `POST /registro` and the `POST /mazos` of `mazo.php`. The other handlers
  below are modelled as written, though no route reaches them:
  - the `mazo()` deck routes (only `POST /mazos` of `mazo.php` is routed);
  - `crearPartida`, which has no check for a match already in progress;
  - `jugadaServidor($partidaId)`, which avoids repeats, discards its card
    and records its own play.

The database is an immutable `Store` record (`store.dfy`):

- `cartas`: the catalog, card id to name, attack and attribute;
- `atributos`, `usuarios`: sequences, kept in table scan order;
- `ganaA`: the `gana_a` relation, a set of attribute pairs;
- `mazos`: deck id to owner and name;
- `mazoCartas`: the state of each (deck, card) row;
- `partidas`: match id to user, deck, `estado` and `el_usuario`;
- `jugadas`: the play rows, an append-only sequence;
- two auto-increment counters.

Every route is a pure function from a request and a store to a reply and a
new store. A reply is `Ok(status, value)` or `Fail(status, why)`. The
guards run in source order, and each refusal leaves the store unchanged.
Nothing is transactional. A request that fails part-way keeps the writes it
had already made, exactly as the PHP does.

Two encodings differ from the PHP on purpose:

- **Randomness becomes parameters.** `ORDER BY RAND()` and `array_rand`
  become a `pick` argument, constrained to be a candidate whenever one
  exists. The order in which the statistics queries return matches becomes
  an `order` argument. The all-users variant scans users in table order and
  each user's finished matches in that same `order`.
- **×1.3 becomes integer arithmetic.** The float multiplier is replaced by
  `13·atk` against `10·atk`, and `Catalog.ScalingIsExact` proves that this
  orders pairs of attacks exactly as ×1.3 over the reals does.

Three behaviours of the code shape the model:

- The final verdict uses a fixed threshold: more than two user wins is a
  win, fewer than two a loss, exactly two a draw. It does not compare wins
  with losses. `PlayBounds.ThresholdVersusMajority` states exactly where
  this differs from a relative-majority rule (more wins than losses wins).
- The main tree never discards the house card.
- A play against a finished match is refused only after its row has been
  written and the user card discarded.

Modules:

| file | module | models |
|---|---|---|
| store.dfy | Store | tables, PHP truthiness, row updates |
| catalog.dfy | Catalog | advantage, scoring, `LIKE '%x%'` filter |
| house_policy.dfy | HousePolicy | main-tree house draw |
| plays.dfy | Plays | play resolution, finalization, hand query |
| matches.dfy | Matches | main-tree match opening |
| decks.dfy | Decks | main-tree deck routes and card listing |
| config_matches.dfy | ConfigMatches | alternative match opening |
| config_decks.dfy | ConfigDecks | alternative deck routes |
| config_house.dfy | ConfigHouse | alternative house policy |
| stats.dfy | Stats | both statistics reports |
| play_bounds.dfy | PlayBounds | properties that span several requests |

## Model

| member | source | states |
|---|---|---|
| Store.Deal | src/controllers/partida/partidaController.php:83-84 | every row of the dealt decks is `en_mano` afterwards, even a `descartado` row; every other row keeps its state; no row is added or removed |
| Store.ResetDeck | src/controllers/jugadas/jugadaController.php:227-234 | exactly the `descartado` rows of the given deck become `en_mano`; every other row keeps its state |
| Store.ResetIdempotent | src/controllers/jugadas/jugadaController.php:227-234 | a second reset changes nothing, and after one reset no row of the deck is `descartado` |
| Store.AddRows | src/controllers/mazo/mazoController.php:86-92 | the new deck gains a row for exactly the given cards, each in the given state; rows of other decks are kept and none is added |
| Store.DropRows | src/controllers/mazo/mazoController.php:150-151 | exactly the rows of the deleted deck disappear; all remaining rows keep their state |
| Store.FindUser | src/controllers/jugadas/jugadaController.php:285-293 | the result is absent iff no user has the name; otherwise it is the id of the first user row with that name |
| Store.FindAttribute | src/controllers/mazo/mazoController.php:308-318 | the result is absent iff no attribute has the name; otherwise it is the id of the first such row |
| Store.DeckCardsShownIgnoresStates | src/controllers/partida/partidaController.php:86-99 | the card list returned when a match opens depends only on which rows exist, so dealing does not change it |
| Catalog.Advantage | src/controllers/jugadas/jugadaController.php:130-154 | the user side is boosted iff (user attribute, house attribute) is in `gana_a`; the house side iff the reverse pair is and the first is not; never both |
| Catalog.Compare | src/controllers/jugadas/jugadaController.php:158-165 | `gano` iff the user's adjusted attack is strictly greater, `perdio` iff strictly smaller, `empato` iff equal |
| Catalog.Score | src/controllers/jugadas/jugadaController.php:130-165 | the advantage is the one `Catalog.Advantage` decides, so the house side is boosted iff `gana_a` holds house over user and not user over house; each attack is scaled by 13 when its side is boosted and by 10 otherwise; the result follows the strict comparison of the scaled attacks |
| Catalog.ScoreMirror | src/controllers/jugadas/jugadaController.php:130-165 | when at most one direction of `gana_a` applies, swapping the two cards swaps the attacks and flips the result |
| Catalog.ScalingIsExact | src/controllers/jugadas/jugadaController.php:149-165 | comparing 13·a with 10·b decides exactly as comparing a·1.3 with b over the reals, and comparing 10·a with 13·b exactly as a with b·1.3, for `>`, `<` and `=` |
| Catalog.ContainsIsSubstring | src/controllers/mazo/mazoController.php:326-330 | the recursive name test holds iff the needle occurs at some offset of the name (`LIKE '%needle%'`) |
| Catalog.Matching | src/controllers/mazo/mazoController.php:326-341 | a card is listed iff it is in the catalog and passes every filter that is present |
| Catalog.MatchingIsConjunction | src/controllers/mazo/mazoController.php:332-341 | filtering by both attribute and name is the intersection of the two single filters |
| Catalog.MatchingNoFilter | src/controllers/mazo/mazoController.php:326-341 | with neither filter every catalog card is listed |
| HousePolicy.Draw | src/controllers/jugadas/jugadaServidor.php:18-56 | the draw is -1 when deck 1 has no row that is not `descartado`, and otherwise it is the id of such a row of deck 1, the random choice among them; the function returns no store, so it writes nothing |
| Plays.ThresholdOutcome | src/controllers/jugadas/jugadaController.php:209-219 | the verdict is `gano` iff the user won more than 2 plays, `perdio` iff fewer than 2, `empato` iff exactly 2 |
| Plays.Resolve | src/controllers/jugadas/jugadaController.php:104-247 | the play row is always appended and the user card discarded; it succeeds iff the match was `en_curso`, and otherwise answers 400 with the matches unchanged; the reply carries the house card, both scaled attacks and the play's result as scored; the reply numbers the play as one more than the match had; from the fifth play on the match is closed with the threshold verdict and a deck owned by user 1 has its discarded rows reset; only plays, rows and matches change |
| Plays.ProcessPlay | src/controllers/jugadas/jugadaController.php:31-247 | guards in order (401 no user, 400 missing ids, 403 match not owned, 400 card not in the deck, 400 card not `en_mano`, 400 unusable house card), each leaving the store unchanged; it succeeds iff every guard passes and the match is `en_curso`; past the guards exactly one play row is appended and the user card becomes `descartado`, and when a finishing play is on a deck owned by user 1 that deck's discarded rows return to `en_mano`; no other row changes and only plays, rows and matches are written; on a finished match the writes stay and 400 is returned; a successful reply carries the drawn house card, both scaled attacks and the result of scoring the user card against it, and counts this match's plays; from the fifth play on the match becomes `finalizada` with the threshold verdict, otherwise it is unchanged and the winner is "en juego" |
| Plays.HandQuery | src/controllers/jugadas/jugadaController.php:285-354 | 404 for an unknown route user, 403 when the token is someone else, 404 for a match the user does not own, 403 for the house user; it succeeds iff none of these applies, and then returns exactly the `en_mano` cards of the match's deck that survive the joins, or a 200 message when there are none |
| Matches.OpenMatch | src/controllers/partida/partidaController.php:32-100 | 401, 400 missing deck, 403 deck not owned, and 400 deck with a match `en_curso`, each with the store unchanged; it succeeds iff all pass, adding one `en_curso` match at the next id, dealing every row of the user's deck and of deck 1 and no other row, and listing the deck's cards; only matches, rows and the match counter change; well-formedness is preserved |
| ConfigMatches.OpenMatch | src/config/controllers/partidaController.php:31-87 | 401, 400 and 403 as in the main tree, but it succeeds iff the user owns the deck; only the user's deck is dealt, and deck 1 and all other rows are untouched; only matches, rows and the match counter change |
| ConfigMatches.NoActiveMatchCheck | src/config/controllers/partidaController.php:52-67 | a deck with a match in progress is refused by the main tree and accepted here, which opens a second `en_curso` match on it |
| Decks.DeckCountGrows | src/controllers/mazo/mazoController.php:69-82 | inserting a fresh deck raises its owner's deck count by exactly one |
| Decks.CreateDeck | src/controllers/mazo/mazoController.php:29-99 | 401, 400 missing fields, 400 more than five cards, 400 fewer than five, 400 repeated cards, and 400 at three decks, in that order and each with the store unchanged; it succeeds iff all pass, creating a deck at the next id whose rows are exactly the five cards, all `activo`; the owner's count grows by one and stays at most three; only decks, rows and the deck counter change; card ids are not checked against the catalog |
| Decks.DeleteDeck | src/controllers/mazo/mazoController.php:130-159 | 403 unless the user owns the deck, 400 once any match used it; it succeeds iff both checks pass, removing the deck and exactly its card rows; nothing else changes |
| Decks.CreateThenDelete | src/controllers/mazo/mazoController.php:80-155 | deleting a deck just created restores every table; only the deck counter has moved on |
| Decks.RenameDeck | src/controllers/mazo/mazoController.php:243-277 | 400 for an empty body and 403 for a deck not owned; otherwise 200, with the owned deck renamed when `nombre` is present and the store unchanged when it is not |
| Decks.RenameIdempotent | src/controllers/mazo/mazoController.php:257-277 | renaming twice with the same body is renaming once |
| Decks.ListCards | src/controllers/mazo/mazoController.php:293-346 | it fails iff a truthy attribute name matches no attribute, with 404; otherwise a card is listed iff its attribute id is the named one and its name contains the filter, each only when given; without filters all cards are listed |
| ConfigDecks.CreateDeck | src/config/controllers/mazo.php:27-77 | 400 missing fields, 400 more than five or repeated cards, 500 for an empty list, 400 for a card not in the catalog, 400 at three decks, each with the store unchanged; it succeeds iff all pass, adding one deck whose rows are exactly the given cards, all `en_mazo`, and the owner's count grows by one; only decks, rows and the deck counter change; there is no authentication check |
| ConfigDecks.SmallDeckAccepted | src/config/controllers/mazoController.php:34-37 | a one-card deck is created here while the main tree refuses it as too small |
| ConfigDecks.DeleteDeck | src/config/controllers/mazoController.php:94-106 | 400 once any match used the deck; otherwise 200, the deck's card rows are removed whoever asks, and the deck row only when the caller owns it; nothing else changes |
| ConfigDecks.StrangerEmptiesDeck | src/config/controllers/mazoController.php:102-103 | a stranger's delete of an unused deck leaves the owner's deck in place with no card rows |
| ConfigDecks.ListDecks | src/config/controllers/mazoController.php:118-130 | the listed decks are exactly those owned by the token's user; the route's user name plays no part |
| ConfigDecks.RenameDeck | src/config/controllers/mazoController.php:149-160 | 400 without `nombre`; otherwise 200 in every case, with only an owned deck renamed and the store otherwise unchanged |
| ConfigDecks.CreatedDeckListed | src/config/controllers/mazoController.php:118-130 | a deck the user just created appears in that user's deck list |
| ConfigDecks.DeletedDeckUnlisted | src/config/controllers/mazoController.php:94-130 | after the owner deletes a deck it is no longer listed, and every other deck's listing is unchanged |
| ConfigDecks.RenameKeepsListing | src/config/controllers/mazoController.php:118-160 | renaming never changes which decks any user is listed with |
| ConfigDecks.RenameIdempotent | src/config/controllers/mazoController.php:149-160 | renaming twice with the same name is renaming once |
| ConfigDecks.ListCards | src/config/controllers/mazoController.php:182-200 | a card is listed iff it passes the attribute-id filter and the name filter, each applied only when truthy |
| ConfigDecks.ListCardsAgrees | src/config/controllers/mazoController.php:182-200 | filtering by an attribute's id here lists exactly what the main tree lists when filtering by that attribute's name |
| ConfigHouse.ServerPlay | src/config/controllers/jugadaServidor.php:8-55 | 0 with no change when user 1 has no deck or no candidate is left, in particular whenever the match has a play row with a NULL `carta_id`; otherwise the drawn card is a candidate, exactly its house row becomes `descartado`, and one play row (match, user 1, card) is appended and the card returned; a failing insert returns 0 but keeps the discard; only rows and plays change |
| ConfigHouse.NullCardBlocks | src/config/controllers/jugadaServidor.php:20-28 | once the main-tree resolver has written a play row for a match, that row's NULL `carta_id` leaves the house no candidate in it |
| ConfigHouse.NoNullAppend | src/config/controllers/jugadaServidor.php:44-46 | a house play row never introduces a NULL `carta_id` |
| ConfigHouse.PlayedCardsAppend | src/config/controllers/jugadaServidor.php:20-28 | recording a house play adds exactly that card to its own match's history and nothing to any other match's |
| ConfigHouse.CandidatesShrink | src/config/controllers/jugadaServidor.php:20-46 | a successful house play removes exactly the drawn card from the match's candidates, so the house never repeats a card within a match |
| ConfigHouse.OtherMatchesKeepHistory | src/config/controllers/jugadaServidor.php:44-46 | a house play in one match leaves every other match's played cards unchanged |
| Stats.Bump | src/controllers/estadisticaController.php:54-67 | a row raises exactly the counter of its outcome by one, and a row without an outcome raises none |
| Stats.FirstAt | src/controllers/estadisticaController.php:44-51 | the position returned is a row of that user, or the end of the rows when there is none |
| Stats.FirstAtIsFirst | src/controllers/estadisticaController.php:44-51 | no row of the user comes before that position |
| Stats.Lookup | src/controllers/estadisticaController.php:44 | the index found holds that user's tally, and -1 means no tally has that user |
| Stats.Step | src/controllers/estadisticaController.php:39-68 | one row registers its user at the end when unseen, keeps every existing tally's user, and raises only its own user's counter for its own outcome, by one |
| Stats.Fold | src/controllers/estadisticaController.php:39-68 | at most one tally per row, and each global total counts exactly the rows with that outcome |
| Stats.FoldNames | src/controllers/estadisticaController.php:39-71 | the fold keeps one tally per user of the rows and none for anyone else, ordered by first appearance |
| Stats.OrderedDistinct | src/controllers/estadisticaController.php:44-51 | two tallies never belong to the same user |
| Stats.FoldCounts | src/controllers/estadisticaController.php:39-68 | each tally counts, per outcome, exactly the rows of its user with that outcome |
| Stats.FoldTotals | src/controllers/estadisticaController.php:54-80 | each global total counts every row with that outcome and equals the sum of the per-user counters |
| Stats.NullRowCountsNowhere | src/controllers/usuarios/estadisticaController.php:53-70 | a row without an outcome changes no counter of any tally, though it registers its user |
| Stats.CountNone | src/controllers/usuarios/estadisticaController.php:53-70 | a user none of whose rows carries an outcome counts zero for it |
| Stats.Report | src/controllers/estadisticaController.php:71-80 | one entry per tally followed by the totals entry last; each per-user entry's counters are its user's row counts, and the totals count all rows |
| Stats.ReportUsers | src/controllers/estadisticaController.php:44-51 | the report has an entry for a user iff some row is theirs, in order of first appearance |
| Stats.TotalsAreColumnSums | src/controllers/estadisticaController.php:54-80 | each global total equals the sum of that column over the per-user entries |
| Stats.MatchRows | src/controllers/estadisticaController.php:22-28 | every row comes from a match of the listing and a user with the match's user id, and each such pair yields a row |
| Stats.UserRows | src/controllers/usuarios/estadisticaController.php:22-28 | every user yields a row; every row belongs to a user, and any outcome it carries is that of one of the user's `finalizada` matches |
| Stats.Statistics | src/controllers/estadisticaController.php:16-84 | the totals entry is last, every other entry is a distinct user, and its counters are that user's counts over the joined rows |
| Stats.UserStatistics | src/controllers/usuarios/estadisticaController.php:16-87 | the same report shape, built over every user left-joined with the finished matches |
| Stats.StatisticsListsPlayers | src/controllers/estadisticaController.php:22-51 | with all matches listed, a user has an entry iff some match belongs to a user with that name |
| Stats.EveryUserListed | src/controllers/usuarios/estadisticaController.php:22-51 | every registered user has an entry, even one with no match |
| Stats.OnlyFinishedCount | src/controllers/usuarios/estadisticaController.php:22-24 | a user with no `finalizada` match ending in an outcome counts zero for it, whatever unfinished matches say |
| Stats.CountAppend | src/controllers/estadisticaController.php:39-68 | counting over concatenated rows adds the counts |
| Stats.UsersWithIdAtMostOne | src/controllers/estadisticaController.php:22-28 | with unique user ids the join finds at most one user per match |
| Stats.RowsOfMatchCount | src/controllers/estadisticaController.php:22-28 | one match contributes one row with its outcome to its owner's name, and nothing to anyone else |
| Stats.MatchRowsCount | src/controllers/estadisticaController.php:22-28 | the joined rows of a name and outcome are exactly as many as the listed matches of users with that name that ended so |
| Stats.FinishedRowsCount | src/controllers/usuarios/estadisticaController.php:22-28 | a user's left-joined rows count that user's finished matches of each outcome |
| Stats.RowsOfUserCount | src/controllers/usuarios/estadisticaController.php:22-28 | the NULL row of a user without finished matches counts nothing |
| Stats.MatchesWithSnoc | src/controllers/usuarios/estadisticaController.php:22-28 | one more user adds exactly that user's finished matches to the count of their name |
| Stats.UserRowsCount | src/controllers/usuarios/estadisticaController.php:22-28 | the left-joined rows of a name and outcome are exactly as many as the finished matches of users with that name that ended so |
| Stats.MatchesWithDistinct | src/controllers/estadisticaController.php:22-28 | over a listing without repeats the count equals the number of distinct qualifying matches listed |
| Stats.MatchesWithCovering | src/controllers/estadisticaController.php:22-28 | when the listing holds every match exactly once, the count equals the number of qualifying matches in the store |
| Stats.StatisticsCounts | src/controllers/estadisticaController.php:16-84 | each entry of the main report shows, per outcome, how many listed matches of users with that name ended so, finished or not; when the scan lists every match once, that is the number of such matches in the store |
| Stats.UserStatisticsCounts | src/controllers/usuarios/estadisticaController.php:16-87 | each entry of the all-users report shows, per outcome, how many finished matches of users with that name ended so; when the scan lists every match once, that is the number of such matches in the store |
| PlayBounds.PlayConsumesHandCard | src/controllers/jugadas/jugadaController.php:168-180 | a play request either changes nothing, or appends one play row and removes exactly the played card from the match deck's hand |
| PlayBounds.PlaysBoundedByHand | src/controllers/jugadas/jugadaController.php:81-84 | over any run of requests, plays written plus cards left in hand equals the cards in hand at the start |
| PlayBounds.PlaysAtMostHand | src/controllers/jugadas/jugadaController.php:168-180 | a match can gain at most as many play rows as its deck has cards in hand, so a dealt five-card deck allows at most five plays |
| PlayBounds.OpenThenPlayable | src/controllers/partida/partidaController.php:76-84 | after a successful opening every nonzero card of the deck passes all play guards in the new match |
| PlayBounds.PlayedCardLeavesHand | src/controllers/jugadas/jugadaController.php:332-350 | after a successful play of a card, the hand query of that match no longer lists it |
| PlayBounds.HouseCardStaysAvailable | src/controllers/jugadas/jugadaServidor.php:21-28 | a play leaves the house candidates unchanged, so the main tree's house card can repeat |
| PlayBounds.Majority | src/controllers/jugadas/jugadaController.php:203-219 | the relative-majority rule the threshold is compared with: win iff more wins than losses, loss iff fewer, draw iff equal |
| PlayBounds.ThresholdVersusMajority | src/controllers/jugadas/jugadaController.php:203-219 | over at most five plays the threshold and the majority agree iff there are 3+ wins, or 2 wins and 2 losses, or fewer than 2 wins and more losses than wins |

## Left out

- HTTP, JSON and routing: requests arrive as typed arguments. A missing
  field is `None`. A rename body that decodes to something falsy, or to a
  scalar that is not an array, is `RenameBody.Empty`; any other array,
  including a non-empty JSON list, is `RenameBody.Fields`.
- Authentication: the JWT `usuario_id` is a trusted `Option<int>` argument.
  Login, registration, password hashing and the middlewares are not part of
  this model.
- Connection setup and most 500 paths: storage failures are not modelled.
  There are two exceptions:
  - the alternative creation's empty list, which reaches `IN ()`;
  - the alternative house policy's failing play insert (`insertFails`).
- Randomness and row order: `ORDER BY RAND()`, `array_rand` and the
  statistics row order are parameters (`pick`, `order`). The alternative
  house deck, the first row the lookup of user 1's deck returns, is the
  `house` parameter.
- That lookup selects a `mazo_id` column, which the deck table used
  elsewhere does not have. `house = None` covers the query failing as well
  as user 1 having no deck: both return 0.
- Float ×1.3: scaling is exact integer arithmetic. PHP float rounding at
  boundaries is not modelled. Attacks are reported times ten.
- MySQL `LIKE`: the name filter is a case-sensitive substring test. Case
  folding, collations and `%`/`_` in the filter are not modelled.
- `listarMazos` (main tree): its access check compares a fetched row with an
  id under PHP loose comparison, so it is left out.
- The commented-out card-id advantage table is left out.
- PHP comparison subtleties:
  - the hand query's `=== 1` test assumes integer ids from the driver;
  - `array_unique` is modelled as integer distinctness;
  - numeric-string user names, which would become integer array keys, are
    treated as plain strings.
- The alternative query string `atributo` is taken as an integer id.
- The two trees write different column sets for a play row, so the
  main-tree resolver's rows (`Jugada`) and the alternative house policy's
  rows (`ServerJugada`) are separate constructors. A `Jugada` row leaves
  `carta_id` NULL, and the alternative house policy's `NOT IN` treats that
  as SQL does: no card qualifies.
- PlayBounds.Run: a run of requests stops at the first draw the house policy
  could not have made. The counting lemmas assume the match deck is not owned
  by user 1, because a finishing play on such a deck resets its discarded
  cards.
- Store.FindUser: user names compare exactly. The MySQL column collation
  would also match names differing only in letter case.
- Store.FindAttribute: attribute names compare exactly, for the same reason.
- Stats.StatisticsCounts, Stats.UserStatisticsCounts: these assume user ids
  are unique, as the primary key of `usuario` guarantees.
- Concurrency: requests are applied one at a time, in order.
