/** The statistics report (`GET /estadisticas`): a fold over (user name,
    match outcome) rows into per-user counters, in order of first
    appearance, followed by one entry of global totals.

    Two variants build the rows differently.  The main one
    (src/controllers/estadisticaController.php) joins every match with its
    user; the other (src/controllers/usuarios/estadisticaController.php)
    left-joins every user with that user's finished matches.  The fold is
    the same; the second variant skips NULL outcomes explicitly, the first
    by falling through its `switch`.
 */
module Stats {
  import opened Store

  /** The three counters of one user or of the whole report. */
  datatype Counters = Counters(ganadas: nat, perdidas: nat, empatadas: nat)

  const Zero := Counters(0, 0, 0)

  /** One row of the query: the user's name and the match's `el_usuario`
      (NULL while a match is running, or when a user has no match). */
  datatype Row = Row(usuario: string, elUsuario: Option<Outcome>)

  /** The per-user entry while the fold runs. */
  datatype Tally = Tally(usuario: string, c: Counters)

  /** An entry of the JSON report. */
  datatype Entry =
    | PerUser(usuario: string, ganadas: nat, perdidas: nat, empatadas: nat)
    | TotalPartidas(ganadas: nat, perdidas: nat, empatadas: nat)

  /** The counter an outcome increments. */
  function Get(c: Counters, o: Outcome): nat {
    match o
    case Gano => c.ganadas
    case Perdio => c.perdidas
    case Empato => c.empatadas
  }

  /** The `switch` on `el_usuario`: one counter up for an outcome, none for
      NULL. */
  function Bump(c: Counters, o: Option<Outcome>): (r: Counters)
    ensures forall x :: Get(r, x) == Get(c, x) + (if o == Some(x) then 1 else 0)
  {
    match o
    case None => c
    case Some(Gano) => c.(ganadas := c.ganadas + 1)
    case Some(Perdio) => c.(perdidas := c.perdidas + 1)
    case Some(Empato) => c.(empatadas := c.empatadas + 1)
  }

  // ---------------------------------------------------------------------
  // Reference counts, independent of the fold

  /** How many rows of user `name` have outcome `o`. */
  function CountOf(rows: seq<Row>, name: string, o: Outcome): nat {
    if rows == [] then 0
    else CountOf(rows[..|rows| - 1], name, o)
         + (if rows[|rows| - 1].usuario == name && rows[|rows| - 1].elUsuario == Some(o) then 1 else 0)
  }

  /** How many rows have outcome `o`. */
  function CountAll(rows: seq<Row>, o: Outcome): nat {
    if rows == [] then 0
    else CountAll(rows[..|rows| - 1], o) + (if rows[|rows| - 1].elUsuario == Some(o) then 1 else 0)
  }

  /** The position of the first row of user `name`, or `|rows|` if none. */
  function FirstAt(rows: seq<Row>, name: string): (i: nat)
    ensures i <= |rows|
    ensures i < |rows| ==> rows[i].usuario == name
  {
    if rows == [] then 0
    else if rows[0].usuario == name then 0
    else 1 + FirstAt(rows[1..], name)
  }

  /** No row of user `name` comes before `FirstAt`. */
  lemma {:induction false} FirstAtIsFirst(rows: seq<Row>, name: string, j: int)
    requires 0 <= j < |rows| && rows[j].usuario == name
    ensures FirstAt(rows, name) <= j
  {
    if rows[0].usuario != name {
      FirstAtIsFirst(rows[1..], name, j - 1);
    }
  }

  /** Where a user first appears, once one more row follows. */
  lemma {:induction false} FirstAtSnoc(pre: seq<Row>, r: Row, n: string)
    ensures FirstAt(pre + [r], n) ==
              if FirstAt(pre, n) < |pre| then FirstAt(pre, n)
              else if r.usuario == n then |pre| else |pre| + 1
  {
    if pre != [] {
      assert (pre + [r])[0] == pre[0];
      assert (pre + [r])[1..] == pre[1..] + [r];
      FirstAtSnoc(pre[1..], r, n);
    }
  }

  /** The sum of one counter over all tallies. */
  function SumOf(ts: seq<Tally>, o: Outcome): nat {
    if ts == [] then 0 else SumOf(ts[..|ts| - 1], o) + Get(ts[|ts| - 1].c, o)
  }

  // ---------------------------------------------------------------------
  // The fold

  /** `isset($estadisticas[$usuario])`: the index of the user's tally, or -1. */
  function Lookup(ts: seq<Tally>, name: string): (r: int)
    ensures -1 <= r < |ts|
    ensures r >= 0 ==> ts[r].usuario == name
    ensures r < 0 ==> forall i :: 0 <= i < |ts| ==> ts[i].usuario != name
  {
    if ts == [] then -1
    else if ts[|ts| - 1].usuario == name then |ts| - 1
    else Lookup(ts[..|ts| - 1], name)
  }

  /** One iteration of the `foreach`: register the user on first sight,
      then bump the counter the row's outcome names. */
  function Step(ts: seq<Tally>, r: Row): (t: seq<Tally>)
    ensures |t| == if Lookup(ts, r.usuario) >= 0 then |ts| else |ts| + 1
    ensures forall i :: 0 <= i < |ts| ==> t[i].usuario == ts[i].usuario
    // only the row's own user moves, and only on the row's outcome
    ensures forall i, o :: 0 <= i < |ts| ==>
              Get(t[i].c, o) == Get(ts[i].c, o) + (if i == Lookup(ts, r.usuario) && r.elUsuario == Some(o) then 1 else 0)
    ensures |t| > |ts| ==> t[|ts|].usuario == r.usuario
                           && forall o :: Get(t[|ts|].c, o) == if r.elUsuario == Some(o) then 1 else 0
  {
    var i := Lookup(ts, r.usuario);
    if i >= 0 then ts[i := Tally(r.usuario, Bump(ts[i].c, r.elUsuario))]
    else ts + [Tally(r.usuario, Bump(Zero, r.elUsuario))]
  }

  /** The `foreach` over the rows: per-user tallies in order of first
      appearance, and the global totals. */
  function Fold(rows: seq<Row>): (f: (seq<Tally>, Counters))
    ensures |f.0| <= |rows|
    ensures forall o :: Get(f.1, o) == CountAll(rows, o)
  {
    if rows == [] then ([], Zero)
    else
      var pre, r := rows[..|rows| - 1], rows[|rows| - 1];
      var acc := Fold(pre);
      assert rows == pre + [r];
      forall o ensures CountAll(rows, o) == CountAll(pre, o) + (if r.elUsuario == Some(o) then 1 else 0) {
        CountSnoc(pre, r, r.usuario, o);
      }
      (Step(acc.0, r), Bump(acc.1, r.elUsuario))
  }

  /** The tallies are ordered by where their users first appear in `rows`. */
  predicate Ordered(rows: seq<Row>, ts: seq<Tally>) {
    forall i, j :: 0 <= i < j < |ts| ==> FirstAt(rows, ts[i].usuario) < FirstAt(rows, ts[j].usuario)
  }

  /** A user has a tally exactly when some row is theirs. */
  ghost predicate Registered(rows: seq<Row>, ts: seq<Tally>) {
    forall n :: Lookup(ts, n) >= 0 <==> FirstAt(rows, n) < |rows|
  }

  /** The tallies after one step: the same users when the row's user
      already had a tally, that user appended otherwise. */
  lemma StepNames(ts: seq<Tally>, r: Row)
    ensures Lookup(ts, r.usuario) >= 0 ==>
              |Step(ts, r)| == |ts| && forall i :: 0 <= i < |ts| ==> Step(ts, r)[i].usuario == ts[i].usuario
    ensures Lookup(ts, r.usuario) < 0 ==> Step(ts, r) == ts + [Tally(r.usuario, Bump(Zero, r.elUsuario))]
    ensures forall n :: Lookup(Step(ts, r), n) >= 0 <==> Lookup(ts, n) >= 0 || n == r.usuario
  {
    var ts' := Step(ts, r);
    forall n ensures Lookup(ts', n) >= 0 <==> Lookup(ts, n) >= 0 || n == r.usuario {
      var k, k' := Lookup(ts, n), Lookup(ts', n);
      if k >= 0 {
        assert ts'[k].usuario == n;
      }
      if n == r.usuario {
        assert ts'[if Lookup(ts, r.usuario) >= 0 then Lookup(ts, r.usuario) else |ts|].usuario == n;
      }
      if k' >= 0 && n != r.usuario {
        assert ts[k'].usuario == n;
      }
    }
  }

  /** One step keeps the tallies ordered by first appearance. */
  lemma OrderedStep(pre: seq<Row>, r: Row, ts0: seq<Tally>)
    requires Ordered(pre, ts0) && Registered(pre, ts0)
    ensures Ordered(pre + [r], Step(ts0, r))
  {
    var rows, ts := pre + [r], Step(ts0, r);
    StepNames(ts0, r);
    forall i | 0 <= i < |ts0| ensures FirstAt(rows, ts[i].usuario) == FirstAt(pre, ts0[i].usuario) < |pre| {
      assert Lookup(ts0, ts0[i].usuario) >= 0;
      FirstAtSnoc(pre, r, ts0[i].usuario);
    }
    if Lookup(ts0, r.usuario) < 0 {
      FirstAtSnoc(pre, r, r.usuario);
      assert FirstAt(rows, ts[|ts0|].usuario) == |pre|;
    }
  }

  /** One step keeps every user of the rows registered, and no one else. */
  lemma RegisteredStep(pre: seq<Row>, r: Row, ts0: seq<Tally>)
    requires Registered(pre, ts0)
    ensures Registered(pre + [r], Step(ts0, r))
  {
    StepNames(ts0, r);
    forall n ensures Lookup(Step(ts0, r), n) >= 0 <==> FirstAt(pre + [r], n) < |pre| + 1 {
      FirstAtSnoc(pre, r, n);
    }
  }

  /** The tallies name exactly the users of the rows, each once, in order
      of first appearance. */
  lemma {:induction false} FoldNames(rows: seq<Row>)
    ensures Ordered(rows, Fold(rows).0) && Registered(rows, Fold(rows).0)
  {
    if rows != [] {
      var pre, r := rows[..|rows| - 1], rows[|rows| - 1];
      assert rows == pre + [r];
      FoldNames(pre);
      OrderedStep(pre, r, Fold(pre).0);
      RegisteredStep(pre, r, Fold(pre).0);
    }
  }

  /** Distinct users never share a tally. */
  lemma OrderedDistinct(rows: seq<Row>, ts: seq<Tally>, i: int, j: int)
    requires Ordered(rows, ts) && 0 <= i < |ts| && 0 <= j < |ts| && i != j
    ensures ts[i].usuario != ts[j].usuario
  {
    if i < j {
      assert FirstAt(rows, ts[i].usuario) < FirstAt(rows, ts[j].usuario);
    } else {
      assert FirstAt(rows, ts[j].usuario) < FirstAt(rows, ts[i].usuario);
    }
  }

  /** One more row adds one to its own user's count of its own outcome. */
  lemma CountSnoc(pre: seq<Row>, r: Row, n: string, o: Outcome)
    ensures CountOf(pre + [r], n, o) == CountOf(pre, n, o) + (if r.usuario == n && r.elUsuario == Some(o) then 1 else 0)
    ensures CountAll(pre + [r], o) == CountAll(pre, o) + (if r.elUsuario == Some(o) then 1 else 0)
  {
    assert (pre + [r])[..|pre|] == pre;
  }

  /** A user none of whose rows is present counts zero. */
  lemma {:induction false} CountAbsent(rows: seq<Row>, n: string, o: Outcome)
    requires FirstAt(rows, n) == |rows|
    ensures CountOf(rows, n, o) == 0
  {
    if rows != [] {
      var pre, r := rows[..|rows| - 1], rows[|rows| - 1];
      assert pre + [r] == rows;
      FirstAtSnoc(pre, r, n);
      CountSnoc(pre, r, n, o);
      CountAbsent(pre, n, o);
    }
  }

  /** Each tally counts its user's rows, per outcome. */
  predicate Counted(rows: seq<Row>, ts: seq<Tally>) {
    forall i, o :: 0 <= i < |ts| ==> Get(ts[i].c, o) == CountOf(rows, ts[i].usuario, o)
  }

  /** One step keeps every tally counting its user's rows. */
  lemma CountsStep(pre: seq<Row>, r: Row, ts0: seq<Tally>)
    requires Counted(pre, ts0) && Ordered(pre, ts0) && Registered(pre, ts0)
    ensures Counted(pre + [r], Step(ts0, r))
  {
    var rows, ts := pre + [r], Step(ts0, r);
    var k := Lookup(ts0, r.usuario);
    StepNames(ts0, r);
    forall i, o | 0 <= i < |ts| ensures Get(ts[i].c, o) == CountOf(rows, ts[i].usuario, o) {
      CountSnoc(pre, r, ts[i].usuario, o);
      if k >= 0 && i != k {
        OrderedDistinct(pre, ts0, i, k);
      } else if k < 0 && i == |ts0| {
        CountAbsent(pre, r.usuario, o);
      }
    }
  }

  /** Each tally counts its user's rows, per outcome. */
  lemma {:induction false} FoldCounts(rows: seq<Row>)
    ensures Counted(rows, Fold(rows).0)
  {
    if rows != [] {
      var pre, r := rows[..|rows| - 1], rows[|rows| - 1];
      assert rows == pre + [r];
      FoldCounts(pre);
      FoldNames(pre);
      CountsStep(pre, r, Fold(pre).0);
    }
  }

  /** Replacing one tally changes the sum by the difference. */
  lemma {:induction false} SumUpdate(ts: seq<Tally>, i: int, t: Tally, o: Outcome)
    requires 0 <= i < |ts|
    ensures SumOf(ts[i := t], o) + Get(ts[i].c, o) == SumOf(ts, o) + Get(t.c, o)
  {
    var ts' := ts[i := t];
    assert ts'[..|ts'| - 1] == if i == |ts| - 1 then ts[..|ts| - 1] else ts[..|ts| - 1][i := t];
    if i < |ts| - 1 {
      SumUpdate(ts[..|ts| - 1], i, t, o);
    }
  }

  /** The totals count every row's outcome and are the sums of the per-user
      counters: each row bumps one user counter and the matching total. */
  lemma {:induction false} FoldTotals(rows: seq<Row>)
    ensures forall o :: Get(Fold(rows).1, o) == CountAll(rows, o) == SumOf(Fold(rows).0, o)
  {
    if rows != [] {
      var pre, r := rows[..|rows| - 1], rows[|rows| - 1];
      assert rows == pre + [r];
      FoldTotals(pre);
      var ts0 := Fold(pre).0;
      var ts := Step(ts0, r);
      var k := Lookup(ts0, r.usuario);
      forall o ensures Get(Fold(rows).1, o) == CountAll(rows, o) == SumOf(ts, o) {
        CountSnoc(pre, r, r.usuario, o);
        if k >= 0 {
          SumUpdate(ts0, k, ts[k], o);
        } else {
          assert ts[..|ts| - 1] == ts0;
        }
      }
    }
  }

  /** A row with a NULL outcome increments nothing: every counter already
      present keeps its value and the totals stay. */
  lemma NullRowCountsNowhere(rows: seq<Row>, n: string)
    ensures var ts, ts' := Fold(rows).0, Fold(rows + [Row(n, None)]).0;
            && Fold(rows + [Row(n, None)]).1 == Fold(rows).1
            && |ts| <= |ts'| <= |ts| + 1
            && (forall i :: 0 <= i < |ts| ==> ts'[i] == ts[i])
            && (forall i :: |ts| <= i < |ts'| ==> ts'[i] == Tally(n, Zero))
  {
    var rows' := rows + [Row(n, None)];
    assert rows'[..|rows'| - 1] == rows;
  }

  /** A tally as a JSON entry. */
  function ToEntry(t: Tally): Entry {
    PerUser(t.usuario, t.c.ganadas, t.c.perdidas, t.c.empatadas)
  }

  /** The counters of a per-user or totals entry. */
  function CountersOf(e: Entry): Counters {
    Counters(e.ganadas, e.perdidas, e.empatadas)
  }

  /** The JSON array: one entry per user, counting that user's rows per
      outcome, then the totals of all rows. */
  function Report(rows: seq<Row>): (r: seq<Entry>)
    ensures |r| == |Fold(rows).0| + 1
    ensures r[|r| - 1] == TotalPartidas(CountAll(rows, Gano), CountAll(rows, Perdio), CountAll(rows, Empato))
    ensures forall i :: 0 <= i < |r| - 1 ==> r[i] == ToEntry(Fold(rows).0[i])
    ensures forall i :: 0 <= i < |r| - 1 ==> r[i].PerUser?
    ensures forall i, o :: 0 <= i < |r| - 1 ==> Get(CountersOf(r[i]), o) == CountOf(rows, r[i].usuario, o)
  {
    var ts := Fold(rows).0;
    var tot := Fold(rows).1;
    FoldCounts(rows);
    var users := seq(|ts|, i requires 0 <= i < |ts| => ToEntry(ts[i]));
    users + [TotalPartidas(tot.ganadas, tot.perdidas, tot.empatadas)]
  }

  /** The report has one entry per user of the rows, none for anyone else,
      ordered by where each user first appears. */
  lemma ReportUsers(rows: seq<Row>)
    ensures var r := Report(rows);
            && (forall i, j :: 0 <= i < j < |r| - 1 ==> FirstAt(rows, r[i].usuario) < FirstAt(rows, r[j].usuario))
            && (forall n :: (exists i :: 0 <= i < |r| - 1 && r[i].usuario == n) <==> FirstAt(rows, n) < |rows|)
  {
    var r := Report(rows);
    var ts := Fold(rows).0;
    FoldNames(rows);
    forall n ensures (exists i :: 0 <= i < |r| - 1 && r[i].usuario == n) <==> Lookup(ts, n) >= 0 {
      var k := Lookup(ts, n);
      if k >= 0 {
        assert r[k].usuario == n;
      }
    }
  }

  /** The sum of one column over a list of entries. */
  function SumColumn(es: seq<Entry>, o: Outcome): nat {
    if es == [] then 0 else SumColumn(es[..|es| - 1], o) + Get(CountersOf(es[|es| - 1]), o)
  }

  lemma {:induction false} SumColumnOfTallies(ts: seq<Tally>, es: seq<Entry>, o: Outcome)
    requires |es| == |ts|
    requires forall i :: 0 <= i < |ts| ==> es[i] == ToEntry(ts[i])
    ensures SumColumn(es, o) == SumOf(ts, o)
  {
    if ts != [] {
      SumColumnOfTallies(ts[..|ts| - 1], es[..|es| - 1], o);
    }
  }

  /** Each global total equals the sum of the matching per-user counters. */
  lemma TotalsAreColumnSums(rows: seq<Row>)
    ensures var r := Report(rows);
            CountersOf(r[|r| - 1]) == Counters(SumColumn(r[..|r| - 1], Gano), SumColumn(r[..|r| - 1], Perdio),
                                               SumColumn(r[..|r| - 1], Empato))
  {
    var r := Report(rows);
    var ts := Fold(rows).0;
    FoldTotals(rows);
    var es := r[..|r| - 1];
    forall o { SumColumnOfTallies(ts, es, o); }
  }

  // ---------------------------------------------------------------------
  // The rows of the two variants

  /** Row `row` is what the inner join makes of some match in `order` and
      some user of that match. */
  predicate FromMatch(s: Store, order: seq<int>, row: Row) {
    exists p, u :: p in order && p in s.partidas && u in s.usuarios
                   && u.id == s.partidas[p].usuario && row == Row(u.usuario, s.partidas[p].elUsuario)
  }

  /** The users with id `id`, in table order (the inner join's matches). */
  function UsersWithId(us: seq<User>, id: int): (r: seq<User>)
    ensures forall u :: u in r <==> u in us && u.id == id
  {
    if us == [] then []
    else UsersWithId(us[..|us| - 1], id) + (if us[|us| - 1].id == id then [us[|us| - 1]] else [])
  }

  /** Rows of match `p`, one per user of the match. */
  function RowsOfMatch(s: Store, p: int): (rows: seq<Row>)
    requires p in s.partidas
    ensures forall row :: row in rows <==> exists u :: u in s.usuarios && u.id == s.partidas[p].usuario
                                                     && row == Row(u.usuario, s.partidas[p].elUsuario)
  {
    var m := s.partidas[p];
    var us := UsersWithId(s.usuarios, m.usuario);
    var rows := seq(|us|, k requires 0 <= k < |us| => Row(us[k].usuario, m.elUsuario));
    assert forall k :: 0 <= k < |us| ==> rows[k] == Row(us[k].usuario, m.elUsuario) && us[k] in us;
    assert forall u :: u in us ==> exists k :: 0 <= k < |us| && us[k] == u && rows[k] == Row(u.usuario, m.elUsuario);
    rows
  }

  /** `SELECT u.usuario, p.el_usuario FROM partida p JOIN usuario u ON u.id = p.usuario_id`,
      scanning matches in `order`: every row comes from a match and one of
      its users, and every such pair yields a row. */
  function MatchRows(s: Store, order: seq<int>): (rows: seq<Row>)
    requires forall i :: 0 <= i < |order| ==> order[i] in s.partidas
    ensures forall row :: row in rows ==> FromMatch(s, order, row)
    ensures forall p, u :: p in order && u in s.usuarios && u.id == s.partidas[p].usuario
              ==> Row(u.usuario, s.partidas[p].elUsuario) in rows
  {
    if order == [] then []
    else
      var pre, p := order[..|order| - 1], order[|order| - 1];
      var r0 := MatchRows(s, pre);
      var r1 := RowsOfMatch(s, p);
      assert order == pre + [p];
      assert forall row :: row in r0 ==> FromMatch(s, order, row) by {
        forall row | row in r0 ensures FromMatch(s, order, row) {
          var q, u :| q in pre && q in s.partidas && u in s.usuarios
                      && u.id == s.partidas[q].usuario && row == Row(u.usuario, s.partidas[q].elUsuario);
          assert q in order;
        }
      }
      assert forall row :: row in r1 ==> FromMatch(s, order, row) by {
        forall row | row in r1 ensures FromMatch(s, order, row) {
          var u :| u in s.usuarios && u.id == s.partidas[p].usuario && row == Row(u.usuario, s.partidas[p].elUsuario);
          assert p in order;
        }
      }
      assert forall q :: q in order ==> q in pre || q == p;
      r0 + r1
  }

  /** The finished matches of user `id`, in `order`. */
  function FinishedOf(s: Store, order: seq<int>, id: int): (ps: seq<int>)
    requires forall i :: 0 <= i < |order| ==> order[i] in s.partidas
    ensures forall i :: 0 <= i < |ps| ==> ps[i] in s.partidas
    ensures forall p :: p in ps <==> p in order && s.partidas[p].usuario == id && s.partidas[p].estado == Finalizada
  {
    if order == [] then []
    else
      var p := order[|order| - 1];
      assert forall q :: q in order ==> q in order[..|order| - 1] || q == p;
      FinishedOf(s, order[..|order| - 1], id)
      + (if s.partidas[p].usuario == id && s.partidas[p].estado == Finalizada then [p] else [])
  }

  /** One row per match of `ps`, all under the name `name`. */
  function RowsFor(s: Store, ps: seq<int>, name: string): (rows: seq<Row>)
    requires forall i :: 0 <= i < |ps| ==> ps[i] in s.partidas
    ensures |rows| == |ps|
    ensures forall k :: 0 <= k < |ps| ==> rows[k] == Row(name, s.partidas[ps[k]].elUsuario)
  {
    seq(|ps|, k requires 0 <= k < |ps| => Row(name, s.partidas[ps[k]].elUsuario))
  }

  /** Row `row`, if it carries an outcome, carries the outcome of a finished
      match in `order` of user `u`. */
  predicate FromFinished(s: Store, order: seq<int>, u: User, row: Row) {
    row.elUsuario.Some? ==>
      exists p :: p in order && p in s.partidas && s.partidas[p].usuario == u.id
                  && s.partidas[p].estado == Finalizada && row.elUsuario == s.partidas[p].elUsuario
  }

  /** Rows of user `u` under the left join: one per finished match, or a
      single NULL row when there is none. */
  function RowsOfUser(s: Store, order: seq<int>, u: User): (rows: seq<Row>)
    requires forall i :: 0 <= i < |order| ==> order[i] in s.partidas
    ensures |rows| >= 1
    ensures forall j :: 0 <= j < |rows| ==> rows[j].usuario == u.usuario && FromFinished(s, order, u, rows[j])
  {
    var ps := FinishedOf(s, order, u.id);
    if ps == [] then [Row(u.usuario, None)]
    else
      var rows := RowsFor(s, ps, u.usuario);
      assert forall j :: 0 <= j < |rows| ==> FromFinished(s, order, u, rows[j]) by {
        forall j | 0 <= j < |rows| ensures FromFinished(s, order, u, rows[j]) {
          var p := ps[j];
          assert p in ps;
          assert p in order && p in s.partidas && s.partidas[p].usuario == u.id
                 && s.partidas[p].estado == Finalizada && rows[j].elUsuario == s.partidas[p].elUsuario;
        }
      }
      rows
  }

  /** Row `row` belongs to a user of `us` and, if it carries an outcome,
      that of one of the user's finished matches. */
  predicate FromUser(s: Store, us: seq<User>, order: seq<int>, row: Row) {
    exists u :: u in us && row.usuario == u.usuario && FromFinished(s, order, u, row)
  }

  /** `SELECT u.usuario, p.el_usuario FROM usuario u LEFT JOIN partida p
      ON u.id = p.usuario_id AND p.estado = 'finalizada'`, users in table
      order, each user's matches in `order`. */
  function UserRows(s: Store, us: seq<User>, order: seq<int>): (rows: seq<Row>)
    requires forall i :: 0 <= i < |order| ==> order[i] in s.partidas
    ensures forall u :: u in us ==> FirstAt(rows, u.usuario) < |rows|
    ensures forall j :: 0 <= j < |rows| ==> FromUser(s, us, order, rows[j])
  {
    if us == [] then []
    else
      var pre, u := us[..|us| - 1], us[|us| - 1];
      var r0 := UserRows(s, pre, order);
      var r1 := RowsOfUser(s, order, u);
      UserRowsSnoc(s, us, order, r0, r1);
      r0 + r1
  }

  /** The rows of one more user keep every earlier user present and every
      row attributable. */
  lemma UserRowsSnoc(s: Store, us: seq<User>, order: seq<int>, r0: seq<Row>, r1: seq<Row>)
    requires |us| > 0
    requires forall v :: v in us[..|us| - 1] ==> FirstAt(r0, v.usuario) < |r0|
    requires forall j :: 0 <= j < |r0| ==> FromUser(s, us[..|us| - 1], order, r0[j])
    requires |r1| >= 1 && forall j :: 0 <= j < |r1| ==> r1[j].usuario == us[|us| - 1].usuario
                                                        && FromFinished(s, order, us[|us| - 1], r1[j])
    ensures forall v :: v in us ==> FirstAt(r0 + r1, v.usuario) < |r0 + r1|
    ensures forall j :: 0 <= j < |r0 + r1| ==> FromUser(s, us, order, (r0 + r1)[j])
  {
    var pre, u, rows := us[..|us| - 1], us[|us| - 1], r0 + r1;
    assert us == pre + [u];
    assert forall j :: 0 <= j < |r0| ==> rows[j] == r0[j];
    assert forall j :: |r0| <= j < |rows| ==> rows[j] == r1[j - |r0|];
    forall v | v in us ensures FirstAt(rows, v.usuario) < |rows| {
      if v in pre {
        assert rows[FirstAt(r0, v.usuario)].usuario == v.usuario;
        FirstAtIsFirst(rows, v.usuario, FirstAt(r0, v.usuario));
      } else {
        assert v == u;
        FirstAtIsFirst(rows, v.usuario, |r0|);
      }
    }
    forall j | 0 <= j < |rows| ensures FromUser(s, us, order, rows[j]) {
      if j < |r0| {
        var v :| v in pre && r0[j].usuario == v.usuario && FromFinished(s, order, v, r0[j]);
        assert v in us;
      } else {
        assert u in us && FromFinished(s, order, u, r1[j - |r0|]);
      }
    }
  }

  /** No two per-user entries name the same user. */
  lemma ReportDistinct(rows: seq<Row>)
    ensures var r := Report(rows);
            forall i, j :: 0 <= i < |r| - 1 && 0 <= j < |r| - 1 && i != j ==> r[i].usuario != r[j].usuario
  {
    var ts := Fold(rows).0;
    FoldNames(rows);
    forall i, j | 0 <= i < |ts| && 0 <= j < |ts| && i != j
      ensures ts[i].usuario != ts[j].usuario
    {
      OrderedDistinct(rows, ts, i, j);
    }
  }

  /** `GET /estadisticas`, main variant. */
  function Statistics(s: Store, order: seq<int>): (r: seq<Entry>)
    requires forall i :: 0 <= i < |order| ==> order[i] in s.partidas
    ensures |r| >= 1 && r[|r| - 1].TotalPartidas?
    ensures forall i :: 0 <= i < |r| - 1 ==> r[i].PerUser?
    ensures forall i, j :: 0 <= i < |r| - 1 && 0 <= j < |r| - 1 && i != j ==> r[i].usuario != r[j].usuario
    ensures forall i, o :: 0 <= i < |r| - 1 ==> Get(CountersOf(r[i]), o) == CountOf(MatchRows(s, order), r[i].usuario, o)
  {
    var rows := MatchRows(s, order);
    ReportDistinct(rows);
    Report(rows)
  }

  /** `GET /estadisticas`, all-users variant. */
  function UserStatistics(s: Store, order: seq<int>): (r: seq<Entry>)
    requires forall i :: 0 <= i < |order| ==> order[i] in s.partidas
    ensures |r| >= 1 && r[|r| - 1].TotalPartidas?
    ensures forall i :: 0 <= i < |r| - 1 ==> r[i].PerUser?
    ensures forall i, j :: 0 <= i < |r| - 1 && 0 <= j < |r| - 1 && i != j ==> r[i].usuario != r[j].usuario
    ensures forall i, o :: 0 <= i < |r| - 1 ==> Get(CountersOf(r[i]), o) == CountOf(UserRows(s, s.usuarios, order), r[i].usuario, o)
  {
    var rows := UserRows(s, s.usuarios, order);
    ReportDistinct(rows);
    Report(rows)
  }

  /** `order` lists every match. */
  predicate Covers(s: Store, order: seq<int>) {
    && (forall i :: 0 <= i < |order| ==> order[i] in s.partidas)
    && (forall p :: p in s.partidas ==> p in order)
  }

  /** Some match belongs to a user named `n`. */
  predicate Played(s: Store, n: string) {
    exists p, u :: p in s.partidas && u in s.usuarios && u.id == s.partidas[p].usuario && u.usuario == n
  }

  /** A user whose name starts some row of the main variant played a match. */
  lemma MatchRowsPlayed(s: Store, order: seq<int>, n: string)
    requires Covers(s, order)
    ensures FirstAt(MatchRows(s, order), n) < |MatchRows(s, order)| ==> Played(s, n)
  {
    var rows := MatchRows(s, order);
    if FirstAt(rows, n) < |rows| {
      var row := rows[FirstAt(rows, n)];
      assert row in rows;
      assert FromMatch(s, order, row);
      var p, u :| p in order && p in s.partidas && u in s.usuarios
                  && u.id == s.partidas[p].usuario && row == Row(u.usuario, s.partidas[p].elUsuario);
      assert u.usuario == n;
    }
  }

  /** A user who played a match has a row in the main variant. */
  lemma PlayedMatchRows(s: Store, order: seq<int>, n: string)
    requires Covers(s, order)
    ensures Played(s, n) ==> FirstAt(MatchRows(s, order), n) < |MatchRows(s, order)|
  {
    var rows := MatchRows(s, order);
    if Played(s, n) {
      var p, u :| p in s.partidas && u in s.usuarios && u.id == s.partidas[p].usuario && u.usuario == n;
      assert p in order;
      var row := Row(u.usuario, s.partidas[p].elUsuario);
      assert row in rows;
      var j :| 0 <= j < |rows| && rows[j] == row;
      FirstAtIsFirst(rows, n, j);
    }
  }

  /** Main variant: a user has an entry exactly when some match belongs to
      them, whatever its state. */
  lemma StatisticsListsPlayers(s: Store, order: seq<int>, n: string)
    requires Covers(s, order)
    ensures var r := Statistics(s, order);
            (exists i :: 0 <= i < |r| - 1 && r[i].usuario == n) <==> Played(s, n)
  {
    ReportUsers(MatchRows(s, order));
    MatchRowsPlayed(s, order, n);
    PlayedMatchRows(s, order, n);
  }

  /** Every user with a row has an entry. */
  lemma ReportHasUser(rows: seq<Row>, n: string) returns (k: int)
    requires FirstAt(rows, n) < |rows|
    ensures 0 <= k < |Report(rows)| - 1 && Report(rows)[k].usuario == n
  {
    FoldNames(rows);
    k := Lookup(Fold(rows).0, n);
  }

  /** All-users variant: every registered user has an entry. */
  lemma EveryUserListed(s: Store, order: seq<int>, u: User)
    requires Covers(s, order) && u in s.usuarios
    ensures var r := UserStatistics(s, order);
            exists i :: 0 <= i < |r| - 1 && r[i].usuario == u.usuario
  {
    var rows := UserRows(s, s.usuarios, order);
    var k := ReportHasUser(rows, u.usuario);
    assert UserStatistics(s, order)[k].usuario == u.usuario;
  }

  /** A user none of whose rows carries outcome `o` counts zero for `o`. */
  lemma {:induction false} CountNone(rows: seq<Row>, n: string, o: Outcome)
    requires forall j :: 0 <= j < |rows| && rows[j].usuario == n ==> rows[j].elUsuario != Some(o)
    ensures CountOf(rows, n, o) == 0
  {
    if rows != [] {
      var pre := rows[..|rows| - 1];
      assert forall j :: 0 <= j < |pre| ==> pre[j] == rows[j];
      CountNone(pre, n, o);
    }
  }

  /** No finished match of a user named `n` ended with outcome `o`. */
  predicate NeverFinishedWith(s: Store, n: string, o: Outcome) {
    forall p, u :: (p in s.partidas && u in s.usuarios && u.usuario == n && u.id == s.partidas[p].usuario
                    && s.partidas[p].estado == Finalizada) ==> s.partidas[p].elUsuario != Some(o)
  }

  /** All-users variant: only finished matches count, so a user none of
      whose finished matches ended with `o` shows zero for `o`; a user with
      no finished match shows zeros throughout. */
  lemma OnlyFinishedCount(s: Store, order: seq<int>, n: string, o: Outcome)
    requires Covers(s, order) && NeverFinishedWith(s, n, o)
    ensures var r := UserStatistics(s, order);
            forall i :: 0 <= i < |r| - 1 && r[i].usuario == n ==> Get(CountersOf(r[i]), o) == 0
  {
    var rows := UserRows(s, s.usuarios, order);
    forall j | 0 <= j < |rows| && rows[j].usuario == n
      ensures rows[j].elUsuario != Some(o)
    {
      assert FromUser(s, s.usuarios, order, rows[j]);
    }
    CountNone(rows, n, o);
  }

  // ---------------------------------------------------------------------
  // Counting: each entry counts matches, not rows

  /** User ids are the primary key of `usuario`. */
  predicate UniqueIds(us: seq<User>) {
    forall i, j :: 0 <= i < j < |us| ==> us[i].id != us[j].id
  }

  /** Match `p` belongs to a user of `us` named `n`. */
  predicate OwnedByName(s: Store, us: seq<User>, p: int, n: string)
    requires p in s.partidas
  {
    exists u :: u in us && u.id == s.partidas[p].usuario && u.usuario == n
  }

  /** How many matches of `order` belong to a user of `us` named `n` and
      ended with outcome `o` (counting only finished ones when
      `finishedOnly`): the number an entry is meant to show. */
  function MatchesWith(s: Store, us: seq<User>, order: seq<int>, n: string, o: Outcome, finishedOnly: bool): nat
    requires forall i :: 0 <= i < |order| ==> order[i] in s.partidas
  {
    if order == [] then 0
    else
      var p := order[|order| - 1];
      MatchesWith(s, us, order[..|order| - 1], n, o, finishedOnly)
      + (if Qualifies(s, us, p, n, o, finishedOnly) then 1 else 0)
  }

  /** Match `p` belongs to a user of `us` named `n` and ended with `o`
      (and is finished, when `finishedOnly`). */
  predicate Qualifies(s: Store, us: seq<User>, p: int, n: string, o: Outcome, finishedOnly: bool)
    requires p in s.partidas
  {
    OwnedByName(s, us, p, n) && s.partidas[p].elUsuario == Some(o)
    && (finishedOnly ==> s.partidas[p].estado == Finalizada)
  }

  /** The matches of the store an entry is meant to count. */
  function MatchesOf(s: Store, us: seq<User>, n: string, o: Outcome, finishedOnly: bool): set<int> {
    set p | p in s.partidas && Qualifies(s, us, p, n, o, finishedOnly)
  }

  /** The qualifying matches among those listed in `order`. */
  function ListedMatches(s: Store, us: seq<User>, order: seq<int>, n: string, o: Outcome, finishedOnly: bool): set<int> {
    set p | p in order && p in s.partidas && Qualifies(s, us, p, n, o, finishedOnly)
  }

  /** Dropping the last match of a listing without repeats leaves a listing
      without repeats that does not contain it. */
  lemma DistinctSnoc(order: seq<int>)
    requires |order| > 0 && Distinct(order)
    ensures Distinct(order[..|order| - 1]) && order[|order| - 1] !in order[..|order| - 1]
  {
    var pre := order[..|order| - 1];
    assert forall i :: 0 <= i < |pre| ==> pre[i] == order[i];
  }

  /** Listing one more match adds it to the qualifying set when it qualifies. */
  lemma ListedSnoc(s: Store, us: seq<User>, pre: seq<int>, p: int, n: string, o: Outcome, finishedOnly: bool)
    requires p in s.partidas
    ensures ListedMatches(s, us, pre + [p], n, o, finishedOnly)
            == ListedMatches(s, us, pre, n, o, finishedOnly) + (if Qualifies(s, us, p, n, o, finishedOnly) then {p} else {})
  {
    assert forall x :: x in pre + [p] <==> x in pre || x == p;
  }

  /** Over a listing without repeats, the count is the number of distinct
      qualifying matches listed. */
  lemma {:induction false} MatchesWithDistinct(s: Store, us: seq<User>, order: seq<int>, n: string, o: Outcome, finishedOnly: bool)
    requires forall i :: 0 <= i < |order| ==> order[i] in s.partidas
    requires Distinct(order)
    ensures MatchesWith(s, us, order, n, o, finishedOnly) == |ListedMatches(s, us, order, n, o, finishedOnly)|
  {
    if order == [] {
      assert ListedMatches(s, us, order, n, o, finishedOnly) == {};
    } else {
      var pre, p := order[..|order| - 1], order[|order| - 1];
      assert order == pre + [p];
      DistinctSnoc(order);
      MatchesWithDistinct(s, us, pre, n, o, finishedOnly);
      ListedSnoc(s, us, pre, p, n, o, finishedOnly);
      assert p !in ListedMatches(s, us, pre, n, o, finishedOnly);
    }
  }

  /** When `order` lists every match once, the count is the number of
      qualifying matches in the store. */
  lemma MatchesWithCovering(s: Store, us: seq<User>, order: seq<int>, n: string, o: Outcome, finishedOnly: bool)
    requires Covers(s, order) && Distinct(order)
    ensures MatchesWith(s, us, order, n, o, finishedOnly) == |MatchesOf(s, us, n, o, finishedOnly)|
  {
    MatchesWithDistinct(s, us, order, n, o, finishedOnly);
    assert ListedMatches(s, us, order, n, o, finishedOnly) == MatchesOf(s, us, n, o, finishedOnly);
  }

  /** Counting over a concatenation adds the counts. */
  lemma {:induction false} CountAppend(a: seq<Row>, b: seq<Row>, n: string, o: Outcome)
    ensures CountOf(a + b, n, o) == CountOf(a, n, o) + CountOf(b, n, o)
  {
    if b != [] {
      var pre, r := b[..|b| - 1], b[|b| - 1];
      assert b == pre + [r];
      assert a + b == (a + pre) + [r];
      CountAppend(a, pre, n, o);
      CountSnoc(a + pre, r, n, o);
      CountSnoc(pre, r, n, o);
    } else {
      assert a + b == a;
    }
  }

  /** A single row counts one when it is of user `n` and outcome `o`. */
  lemma CountOne(r: Row, n: string, o: Outcome)
    ensures CountOf([r], n, o) == if r.usuario == n && r.elUsuario == Some(o) then 1 else 0
  {
    assert [r][..0] == [];
  }

  /** With unique ids, the inner join finds at most one user per match. */
  lemma {:induction false} UsersWithIdAtMostOne(us: seq<User>, id: int)
    requires UniqueIds(us)
    ensures |UsersWithId(us, id)| <= 1
  {
    if us != [] {
      var pre, u := us[..|us| - 1], us[|us| - 1];
      var r0 := UsersWithId(pre, id);
      UsersWithIdAtMostOne(pre, id);
      forall v | v in pre ensures v.id != u.id {
        var k :| 0 <= k < |pre| && pre[k] == v;
        assert us[k].id != us[|us| - 1].id;
      }
      assert |r0| == 0 || r0[0] in r0;
    }
  }

  /** The rows of one match count it once for its owner's name and outcome. */
  lemma RowsOfMatchCount(s: Store, p: int, n: string, o: Outcome)
    requires p in s.partidas && UniqueIds(s.usuarios)
    ensures CountOf(RowsOfMatch(s, p), n, o)
            == if OwnedByName(s, s.usuarios, p, n) && s.partidas[p].elUsuario == Some(o) then 1 else 0
  {
    var m := s.partidas[p];
    var us := UsersWithId(s.usuarios, m.usuario);
    var rows := RowsOfMatch(s, p);
    UsersWithIdAtMostOne(s.usuarios, m.usuario);
    assert |rows| == |us|;
    if |us| == 1 {
      assert us[0] in us;
      assert rows == [] + [Row(us[0].usuario, m.elUsuario)];
      CountSnoc([], Row(us[0].usuario, m.elUsuario), n, o);
      assert OwnedByName(s, s.usuarios, p, n) ==> us[0].usuario == n by {
        if OwnedByName(s, s.usuarios, p, n) {
          var u :| u in s.usuarios && u.id == m.usuario && u.usuario == n;
          assert u in us;
        }
      }
    } else {
      assert forall u :: u in s.usuarios && u.id == m.usuario ==> u in us;
    }
  }

  /** Main variant: the rows of user name `n` with outcome `o` are exactly
      the matches of users so named that ended with `o`, finished or not. */
  lemma {:induction false} MatchRowsCount(s: Store, order: seq<int>, n: string, o: Outcome)
    requires forall i :: 0 <= i < |order| ==> order[i] in s.partidas
    requires UniqueIds(s.usuarios)
    ensures CountOf(MatchRows(s, order), n, o) == MatchesWith(s, s.usuarios, order, n, o, false)
  {
    if order != [] {
      var pre, p := order[..|order| - 1], order[|order| - 1];
      MatchRowsCount(s, pre, n, o);
      CountAppend(MatchRows(s, pre), RowsOfMatch(s, p), n, o);
      RowsOfMatchCount(s, p, n, o);
    }
  }

  /** How many finished matches of `order` belong to user id `id` and ended
      with outcome `o`. */
  function FinishedWith(s: Store, order: seq<int>, id: int, o: Outcome): nat
    requires forall i :: 0 <= i < |order| ==> order[i] in s.partidas
  {
    if order == [] then 0
    else
      var p := order[|order| - 1];
      FinishedWith(s, order[..|order| - 1], id, o)
      + (if s.partidas[p].usuario == id && s.partidas[p].estado == Finalizada && s.partidas[p].elUsuario == Some(o) then 1 else 0)
  }

  /** One more match adds its row to the count. */
  lemma RowsForCountSnoc(s: Store, ps: seq<int>, p: int, name: string, n: string, o: Outcome)
    requires forall i :: 0 <= i < |ps| ==> ps[i] in s.partidas
    requires p in s.partidas
    ensures CountOf(RowsFor(s, ps + [p], name), n, o)
            == CountOf(RowsFor(s, ps, name), n, o) + (if name == n && s.partidas[p].elUsuario == Some(o) then 1 else 0)
  {
    assert RowsFor(s, ps + [p], name) == RowsFor(s, ps, name) + [Row(name, s.partidas[p].elUsuario)];
    CountSnoc(RowsFor(s, ps, name), Row(name, s.partidas[p].elUsuario), n, o);
  }

  /** The left join's rows of one user count that user's finished matches. */
  lemma {:induction false} FinishedRowsCount(s: Store, order: seq<int>, u: User, n: string, o: Outcome)
    requires forall i :: 0 <= i < |order| ==> order[i] in s.partidas
    ensures CountOf(RowsFor(s, FinishedOf(s, order, u.id), u.usuario), n, o)
            == if u.usuario == n then FinishedWith(s, order, u.id, o) else 0
  {
    if order != [] {
      var pre, p := order[..|order| - 1], order[|order| - 1];
      var ps0 := FinishedOf(s, pre, u.id);
      FinishedRowsCount(s, pre, u, n, o);
      if s.partidas[p].usuario == u.id && s.partidas[p].estado == Finalizada {
        assert FinishedOf(s, order, u.id) == ps0 + [p];
        RowsForCountSnoc(s, ps0, p, u.usuario, n, o);
      } else {
        assert FinishedOf(s, order, u.id) == ps0;
      }
    } else {
      assert RowsFor(s, [], u.usuario) == [];
    }
  }

  /** All the rows of one user under the left join: the NULL row of a user
      without finished matches counts nothing. */
  lemma RowsOfUserCount(s: Store, order: seq<int>, u: User, n: string, o: Outcome)
    requires forall i :: 0 <= i < |order| ==> order[i] in s.partidas
    ensures CountOf(RowsOfUser(s, order, u), n, o) == if u.usuario == n then FinishedWith(s, order, u.id, o) else 0
  {
    var ps := FinishedOf(s, order, u.id);
    FinishedRowsCount(s, order, u, n, o);
    assert RowsOfUser(s, order, u) == if ps == [] then [Row(u.usuario, None)] else RowsFor(s, ps, u.usuario);
    if ps == [] {
      CountOne(Row(u.usuario, None), n, o);
      assert RowsFor(s, ps, u.usuario) == [];
    }
  }

  /** Adding one user to the table adds that user's matches, when the name
      matches: with unique ids no match is counted twice. */
  lemma {:induction false} MatchesWithSnoc(s: Store, pre: seq<User>, u: User, order: seq<int>, n: string, o: Outcome)
    requires forall i :: 0 <= i < |order| ==> order[i] in s.partidas
    requires UniqueIds(pre + [u])
    ensures MatchesWith(s, pre + [u], order, n, o, true)
            == MatchesWith(s, pre, order, n, o, true) + (if u.usuario == n then FinishedWith(s, order, u.id, o) else 0)
  {
    if order != [] {
      var front, p := order[..|order| - 1], order[|order| - 1];
      MatchesWithSnoc(s, pre, u, front, n, o);
      var us := pre + [u];
      assert OwnedByName(s, us, p, n) <==> OwnedByName(s, pre, p, n) || (u.id == s.partidas[p].usuario && u.usuario == n) by {
        if OwnedByName(s, us, p, n) {
          var v :| v in us && v.id == s.partidas[p].usuario && v.usuario == n;
          assert v in pre || v == u;
        }
        if OwnedByName(s, pre, p, n) {
          var v :| v in pre && v.id == s.partidas[p].usuario && v.usuario == n;
          assert v in us;
        }
        assert u in us;
      }
      forall v | v in pre ensures v.id != u.id {
        var k :| 0 <= k < |pre| && pre[k] == v;
        assert us[k].id != us[|pre|].id;
      }
    }
  }

  /** No user, no match counted. */
  lemma {:induction false} MatchesWithNoUsers(s: Store, order: seq<int>, n: string, o: Outcome)
    requires forall i :: 0 <= i < |order| ==> order[i] in s.partidas
    ensures MatchesWith(s, [], order, n, o, true) == 0
  {
    if order != [] {
      MatchesWithNoUsers(s, order[..|order| - 1], n, o);
    }
  }

  /** All-users variant: the rows of user name `n` with outcome `o` are
      exactly the finished matches of users so named that ended with `o`. */
  lemma {:induction false} UserRowsCount(s: Store, us: seq<User>, order: seq<int>, n: string, o: Outcome)
    requires forall i :: 0 <= i < |order| ==> order[i] in s.partidas
    requires UniqueIds(us)
    ensures CountOf(UserRows(s, us, order), n, o) == MatchesWith(s, us, order, n, o, true)
  {
    if us == [] {
      MatchesWithNoUsers(s, order, n, o);
    } else {
      var pre, u := us[..|us| - 1], us[|us| - 1];
      assert us == pre + [u];
      UserRowsCount(s, pre, order, n, o);
      CountAppend(UserRows(s, pre, order), RowsOfUser(s, order, u), n, o);
      RowsOfUserCount(s, order, u, n, o);
      MatchesWithSnoc(s, pre, u, order, n, o);
    }
  }

  /** Main variant, end to end: each user's entry shows, per outcome, how
      many matches of users with that name ended so, finished or not. */
  lemma StatisticsCounts(s: Store, order: seq<int>)
    requires forall i :: 0 <= i < |order| ==> order[i] in s.partidas
    requires UniqueIds(s.usuarios)
    ensures var r := Statistics(s, order);
            forall i, o :: 0 <= i < |r| - 1 ==> Get(CountersOf(r[i]), o) == MatchesWith(s, s.usuarios, order, r[i].usuario, o, false)
    ensures Covers(s, order) && Distinct(order) ==>
              var r := Statistics(s, order);
              forall i, o :: 0 <= i < |r| - 1 ==> Get(CountersOf(r[i]), o) == |MatchesOf(s, s.usuarios, r[i].usuario, o, false)|
  {
    var r := Statistics(s, order);
    forall i, o | 0 <= i < |r| - 1
      ensures Get(CountersOf(r[i]), o) == MatchesWith(s, s.usuarios, order, r[i].usuario, o, false)
    {
      MatchRowsCount(s, order, r[i].usuario, o);
    }
    if Covers(s, order) && Distinct(order) {
      forall i, o | 0 <= i < |r| - 1
        ensures MatchesWith(s, s.usuarios, order, r[i].usuario, o, false) == |MatchesOf(s, s.usuarios, r[i].usuario, o, false)|
      {
        MatchesWithCovering(s, s.usuarios, order, r[i].usuario, o, false);
      }
    }
  }

  /** All-users variant, end to end: each entry shows, per outcome, how many
      finished matches of users with that name ended so. */
  lemma UserStatisticsCounts(s: Store, order: seq<int>)
    requires forall i :: 0 <= i < |order| ==> order[i] in s.partidas
    requires UniqueIds(s.usuarios)
    ensures var r := UserStatistics(s, order);
            forall i, o :: 0 <= i < |r| - 1 ==> Get(CountersOf(r[i]), o) == MatchesWith(s, s.usuarios, order, r[i].usuario, o, true)
    ensures Covers(s, order) && Distinct(order) ==>
              var r := UserStatistics(s, order);
              forall i, o :: 0 <= i < |r| - 1 ==> Get(CountersOf(r[i]), o) == |MatchesOf(s, s.usuarios, r[i].usuario, o, true)|
  {
    var r := UserStatistics(s, order);
    forall i, o | 0 <= i < |r| - 1
      ensures Get(CountersOf(r[i]), o) == MatchesWith(s, s.usuarios, order, r[i].usuario, o, true)
    {
      UserRowsCount(s, s.usuarios, order, r[i].usuario, o);
    }
    if Covers(s, order) && Distinct(order) {
      forall i, o | 0 <= i < |r| - 1
        ensures MatchesWith(s, s.usuarios, order, r[i].usuario, o, true) == |MatchesOf(s, s.usuarios, r[i].usuario, o, true)|
      {
        MatchesWithCovering(s, s.usuarios, order, r[i].usuario, o, true);
      }
    }
  }
}
