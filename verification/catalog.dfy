/** The card catalog: attack lookups, the attribute advantage relation
    `gana_a`, the scoring of one play, and the card-listing filter.

    PHP multiplies the advantaged attack by the float 1.3.  Here every attack
    is scaled by 10 and the advantaged one by 13, so that comparisons are
    exact integer comparisons of the same ratios.
 */
module Catalog {
  import opened Store

  /** Which side the attribute advantage boosts in a play. */
  datatype Side = UserSide | ServerSide | Neither

  /** The scored play: both adjusted attacks (times ten) and the result. */
  datatype Bout = Bout(ataqueUsuario: int, ataqueServidor: int, ventaja: Side, resultado: Outcome)

  /** `SELECT ataque FROM carta WHERE id = ?`.  A card id with no row fetches
      `false`, which PHP compares with a non-negative attack exactly as 0. */
  function Attack(cartas: map<int, Card>, c: int): nat {
    if c in cartas then cartas[c].ataque else 0
  }

  /** `SELECT COUNT(*) FROM gana_a JOIN carta c1 ... JOIN carta c2 ... > 0`:
      the attribute of card `a` beats the attribute of card `b`. */
  predicate Beats(cartas: map<int, Card>, ganaA: set<(int, int)>, a: int, b: int) {
    a in cartas && b in cartas && (cartas[a].atributo, cartas[b].atributo) in ganaA
  }

  /** The user's advantage is checked first; the server's only when the
      user has none. */
  function Advantage(cartas: map<int, Card>, ganaA: set<(int, int)>, c: int, h: int): (v: Side)
    ensures v == UserSide <==> Beats(cartas, ganaA, c, h)
    ensures v == ServerSide <==> !Beats(cartas, ganaA, c, h) && Beats(cartas, ganaA, h, c)
    ensures v == Neither <==> !Beats(cartas, ganaA, c, h) && !Beats(cartas, ganaA, h, c)
  {
    if Beats(cartas, ganaA, c, h) then UserSide
    else if Beats(cartas, ganaA, h, c) then ServerSide
    else Neither
  }

  /** An attack times ten, or times thirteen when boosted. */
  function Scaled(atk: nat, boosted: bool): nat {
    if boosted then 13 * atk else 10 * atk
  }

  /** The outcome of a strict comparison of two adjusted attacks. */
  function Compare(u: int, h: int): (o: Outcome)
    ensures o == Gano <==> u > h
    ensures o == Perdio <==> u < h
    ensures o == Empato <==> u == h
  {
    if u > h then Gano else if u < h then Perdio else Empato
  }

  /** Scores user card `c` against house card `h`. */
  function Score(cartas: map<int, Card>, ganaA: set<(int, int)>, c: int, h: int): (b: Bout)
    ensures b.ventaja == UserSide <==> Beats(cartas, ganaA, c, h)
    ensures b.ventaja == ServerSide <==> !Beats(cartas, ganaA, c, h) && Beats(cartas, ganaA, h, c)
    ensures b.ventaja == Advantage(cartas, ganaA, c, h)
    ensures b.ataqueUsuario == (if Beats(cartas, ganaA, c, h) then 13 else 10) * Attack(cartas, c)
    ensures b.ataqueServidor == (if b.ventaja == ServerSide then 13 else 10) * Attack(cartas, h)
    ensures b.resultado == Gano <==> b.ataqueUsuario > b.ataqueServidor
    ensures b.resultado == Perdio <==> b.ataqueUsuario < b.ataqueServidor
  {
    var v := Advantage(cartas, ganaA, c, h);
    var u := Scaled(Attack(cartas, c), v == UserSide);
    var s := Scaled(Attack(cartas, h), v == ServerSide);
    Bout(u, s, v, Compare(u, s))
  }

  /** Mirror a result: what the user wins the house loses. */
  function Flip(o: Outcome): Outcome {
    match o
    case Gano => Perdio
    case Perdio => Gano
    case Empato => Empato
  }

  /** When at most one direction of `gana_a` applies, scoring is symmetric:
      swapping the two cards flips the result.  When both directions apply the
      user's check wins the tie and the symmetry breaks. */
  lemma ScoreMirror(cartas: map<int, Card>, ganaA: set<(int, int)>, c: int, h: int)
    requires !(Beats(cartas, ganaA, c, h) && Beats(cartas, ganaA, h, c))
    ensures Score(cartas, ganaA, h, c).resultado == Flip(Score(cartas, ganaA, c, h).resultado)
    ensures Score(cartas, ganaA, h, c).ataqueUsuario == Score(cartas, ganaA, c, h).ataqueServidor
  {
  }

  /** The integer encoding decides exactly as the multiplication by 1.3 over
      the reals would: 13a against 10b orders the same way as 1.3a against b. */
  lemma ScalingIsExact(a: nat, b: nat)
    ensures (13 * a > 10 * b) <==> (a as real * 1.3 > b as real)
    ensures (13 * a < 10 * b) <==> (a as real * 1.3 < b as real)
    ensures (10 * a > 13 * b) <==> (a as real > b as real * 1.3)
    ensures (10 * a < 13 * b) <==> (a as real < b as real * 1.3)
  {
  }

  /** Substring test: `nombre LIKE '%needle%'`. */
  predicate Contains(hay: string, needle: string)
    decreases |hay|
  {
    |needle| <= |hay| && (needle == hay[..|needle|] || (|hay| > 0 && Contains(hay[1..], needle)))
  }

  /** `needle` occurs in `hay` at offset `i`. */
  predicate OccursAt(hay: string, needle: string, i: int) {
    0 <= i && i + |needle| <= |hay| && hay[i..i + |needle|] == needle
  }

  /** `Contains` is the substring relation: the needle occurs at some offset. */
  lemma {:induction false} ContainsIsSubstring(hay: string, needle: string)
    ensures Contains(hay, needle) <==> exists i :: OccursAt(hay, needle, i)
    decreases |hay|
  {
    if |needle| <= |hay| && needle == hay[..|needle|] {
      assert OccursAt(hay, needle, 0);
    } else if |needle| <= |hay| && |hay| > 0 {
      ContainsIsSubstring(hay[1..], needle);
      if exists i :: OccursAt(hay, needle, i) {
        var i :| OccursAt(hay, needle, i);
        assert i != 0;
        assert hay[1..][i - 1..i - 1 + |needle|] == hay[i..i + |needle|];
        assert OccursAt(hay[1..], needle, i - 1);
      }
      if exists j :: OccursAt(hay[1..], needle, j) {
        var j :| OccursAt(hay[1..], needle, j);
        assert hay[1..][j..j + |needle|] == hay[j + 1..j + 1 + |needle|];
        assert OccursAt(hay, needle, j + 1);
      }
    } else {
      assert forall i :: !OccursAt(hay, needle, i);
    }
  }

  /** The catalog cards whose attribute id and name pass the optional
      filters; an absent filter lets every card through. */
  function Matching(cartas: map<int, Card>, atributo: Option<int>, nombre: Option<string>): (r: set<int>)
    ensures forall c :: c in r <==>
      && c in cartas
      && (atributo.Some? ==> cartas[c].atributo == atributo.value)
      && (nombre.Some? ==> Contains(cartas[c].nombre, nombre.value))
  {
    set c | c in cartas
      && (atributo.None? || cartas[c].atributo == atributo.value)
      && (nombre.None? || Contains(cartas[c].nombre, nombre.value))
  }

  /** The two filters are joined with AND: filtering by both is the
      intersection of filtering by each. */
  lemma MatchingIsConjunction(cartas: map<int, Card>, a: int, n: string)
    ensures Matching(cartas, Some(a), Some(n)) == Matching(cartas, Some(a), None) * Matching(cartas, None, Some(n))
  {
  }

  /** Without filters every catalog card is listed. */
  lemma MatchingNoFilter(cartas: map<int, Card>)
    ensures Matching(cartas, None, None) == cartas.Keys
  {
  }
}
