/** The interpreter of compiled queries: its steps, what nested loops compute, and the proof that the
    steps of the emitted loops compute it. */
module Interp {
  import opened Expressions
  import opened ScanConditions
  import opened RowTest
  import opened Program
  import opened Options

  type Row = seq<Value>
  type Database = map<int, seq<Row>>

  // ---- Scan conditions over rows ----

  datatype Key = KNum(n: int) | KStr(s: string)

  predicate Less(a: Key, b: Key) {
    if a.KNum? && b.KNum? then a.n < b.n
    else if a.KStr? && b.KStr? then Compare(a.s, b.s) < 0
    else a.KNum?
  }

  function KeyOf(v: Value): Key { if v.kind == Num then KNum(v.num) else KStr(v.str) }

  function ConstantOf(r: Result<Value>): Constant<Key> {
    if r.Err? then Fault else if r.value.nl != Regular then NullConstant else Known(KeyOf(r.value))
  }

  function PredicateOf(p: Simple, env: Env): Predicate<Key>
    requires p.ColumnTest? ==> p.expr.Node?
  {
    match p
    case NullTest(negated) => if negated then IsNotNull else IsNull
    case ColumnTest(code, expr) => Comparison(code, ConstantOf(Run(expr, env)))
  }

  predicate WellFormed(ps: seq<Simple>) {
    forall i :: 0 <= i < |ps| && ps[i].ColumnTest? ==> ps[i].expr.Node?
  }

  function Predicates(ps: seq<Simple>, env: Env): (r: seq<Predicate<Key>>)
    requires WellFormed(ps)
    ensures |r| == |ps| && forall i :: 0 <= i < |r| ==> r[i] == PredicateOf(ps[i], env)
  {
    seq(|ps|, i requires 0 <= i < |ps| => PredicateOf(ps[i], env))
  }

  datatype Conditions = Fails | Nothing | Intervals(cs: seq<SpCond<Key>>)

  /** The intervals of all columns; the first column without one decides. */
  function ConditionsOf(list: seq<seq<Simple>>, env: Env): Conditions
    requires forall ps :: ps in list ==> WellFormed(ps)
  {
    if list == [] then Intervals([])
    else
      match Interval(Less, Predicates(list[0], env))
      case Failed => Fails
      case Incompatible => Nothing
      case Bounds(c) =>
        var r := ConditionsOf(list[1..], env);
        if r.Intervals? then Intervals([c] + r.cs) else r
  }

  function ColumnValue(row: Row, col: nat): Option<Key> {
    if col < |row| && row[col].nl == Regular then Some(KeyOf(row[col])) else None
  }

  function RowValues(row: Row, n: nat): (r: seq<Option<Key>>)
    ensures |r| == n && forall i :: 0 <= i < n ==> r[i] == ColumnValue(row, i)
  {
    seq(n, i requires 0 <= i => ColumnValue(row, i))
  }

  /** The engine's test of the row, with the bounds of the intervals in its buffer. */
  predicate RowAccepted(cs: seq<SpCond<Key>>, row: Row) {
    Passes(Less, cs, FrontStored(cs), RowValues(row, |cs|))
  }

  /** The rows that a scan delivers, in the order of the table. */
  function Selected(rows: seq<Row>, cs: seq<SpCond<Key>>): seq<Row> {
    if rows == [] then []
    else (if RowAccepted(cs, rows[0]) then [rows[0]] else []) + Selected(rows[1..], cs)
  }

  // ---- One step of the interpreter ----

  datatype Status = Running | Ended | Broken

  /** `cur` is the place in memory, `scans` the open scans with the rows still to come, `env` the current
      rows, `out` the rows given to the caller and `temp` those put into a temporary table; `clean` says
      that SQLCODE was 0 with each row given to the caller. */
  datatype State = State(cur: int, scans: map<int, seq<Row>>, env: Env, sqlcode: int, out: seq<Row>, temp: seq<Row>,
                         clean: bool, status: Status)

  function Outs(outs: seq<Node>, env: Env): Result<Row> {
    if outs == [] then Ok([])
    else if outs[0].Nil? then Err
    else
      var v := Run(outs[0], env);
      if v.Err? then Err
      else
        var r := Outs(outs[1..], env);
        if r.Err? then Err else Ok([v.value] + r.value)
  }

  /** Every value of the row is that of the expression in the same place. */
  ghost predicate IsRow(outs: seq<Node>, env: Env, row: Row) {
    |row| == |outs| && forall i :: 0 <= i < |outs| ==> outs[i].Node? && Run(outs[i], env) == Ok(row[i])
  }

  lemma {:induction false} OutsIff(outs: seq<Node>, env: Env, row: Row)
    ensures Outs(outs, env) == Ok(row) <==> IsRow(outs, env, row)
    decreases |outs|
  {
    hide Run;
    if outs != [] && outs[0].Node? {
      var tail := outs[1..];
      assert forall i :: 0 < i < |outs| ==> outs[i] == tail[i - 1];
      if row != [] {
        assert row == [row[0]] + row[1..];
        OutsIff(tail, env, row[1..]);
      }
      if Outs(tail, env).Ok? {
        OutsIff(tail, env, Outs(tail, env).value);
      }
    }
  }

  /** Whether the row goes on: the condition is neither NULL nor 0. */
  predicate Goes(v: Value) { v.nl == Regular && v.num != 0 }

  function Fail(s: State): State { s.(status := Broken) }

  /** The effect of the command `c` at `s.cur`. */
  function Exec(c: Cmd, db: Database, s: State): State {
    var next := s.cur + Len(c);
    match c
    case OPSCAN(scan, base, list, exit) =>
      if base !in db || exists ps :: ps in list && !WellFormed(ps) then Fail(s)
      else
        (match ConditionsOf(list, s.env)
         case Fails => Fail(s)
         case Nothing => s.(sqlcode := 100, cur := exit)
         case Intervals(cs) => s.(scans := s.scans[scan := Selected(db[base], cs)], cur := next))
    case FINDROW(scan, exit) =>
      if scan !in s.scans then Fail(s)
      else if s.scans[scan] == [] then s.(sqlcode := 100, cur := exit)
      else s.(sqlcode := 0, env := s.env[scan := s.scans[scan][0]], scans := s.scans[scan := s.scans[scan][1..]],
              cur := next)
    case SetHandle => s.(cur := next)
    case Until(cond, ret) =>
      if cond.Nil? then Fail(s)
      else
        var v := Run(cond, s.env);
        if v.Err? then Fail(s) else s.(cur := if Goes(v.value) then next else ret)
    case RetPar(outs) =>
      var r := Outs(outs, s.env);
      if r.Err? then Fail(s) else s.(out := s.out + [r.value], clean := s.clean && s.sqlcode == 0, cur := next)
    case INSROW(outs) =>
      var r := Outs(outs, s.env);
      if r.Err? then Fail(s) else s.(temp := s.temp + [r.value], cur := next)
    case GoTo(branch) => s.(cur := branch)
    case CLOSE(scan) => if scan in s.scans then s.(scans := s.scans - {scan}, cur := next) else Fail(s)
    case End => s.(status := Ended)
    case _ => Fail(s)
  }

  function OneStep(mem: Memory, db: Database, s: State): State {
    if s.cur in mem then Exec(mem[s.cur], db, s) else Fail(s)
  }

  ghost function Steps(n: nat, mem: Memory, db: Database, s: State): State {
    if n == 0 || s.status != Running then s else Steps(n - 1, mem, db, OneStep(mem, db, s))
  }

  lemma {:induction false} StepsAdd(m: nat, n: nat, mem: Memory, db: Database, s: State)
    ensures Steps(m + n, mem, db, s) == Steps(n, mem, db, Steps(m, mem, db, s))
  {
    hide OneStep;
    if m != 0 && s.status == Running {
      StepsAdd(m - 1, n, mem, db, OneStep(mem, db, s));
    }
  }

  /** A command is carried out where it is reached, over a chunk link or without one. */
  lemma AtRuns(mem: Memory, db: Database, a: int, f: int, c: Cmd, b: int, s: State) returns (n: nat)
    requires At(mem, a, f, c, b) && s.cur == a && s.status == Running
    ensures n > 0 && Steps(n, mem, db, s) == Exec(c, db, s.(cur := f)) && b == f + Len(c)
  {
    hide Len, KindOf;
    if f == a {
      n := 1;
      assert Steps(1, mem, db, s) == OneStep(mem, db, s) by {
        assert Steps(1, mem, db, s) == Steps(0, mem, db, OneStep(mem, db, s));
      }
      assert s.(cur := f) == s;
    } else {
      n := 2;
      assert OneStep(mem, db, s) == s.(cur := f);
      var t := s.(cur := f);
      assert Steps(2, mem, db, s) == Steps(1, mem, db, t) == Steps(0, mem, db, OneStep(mem, db, t));
    }
  }

  /** The place of a command is reached, over a chunk link or at once. */
  lemma Reached(mem: Memory, db: Database, a: int, f: int, c: Cmd, b: int, s: State) returns (n: nat)
    requires At(mem, a, f, c, b) && s.cur == a && s.status == Running
    ensures Steps(n, mem, db, s) == s.(cur := f)
  {
    hide Len, KindOf;
    if f == a {
      n := 0;
      assert s.(cur := f) == s;
    } else {
      n := 1;
      assert OneStep(mem, db, s) == s.(cur := f);
      assert Steps(1, mem, db, s) == Steps(0, mem, db, OneStep(mem, db, s));
    }
  }

  // ---- What nested loops compute ----

  /** The rows up to the end, or up to the first failure. */
  datatype Trace = Trace(rows: seq<Row>, ok: bool)

  predicate LevelsOk(lv: seq<Level>) {
    forall i :: 0 <= i < |lv| ==> (lv[i].cond.Some? ==> lv[i].cond.value.Node?)
                                  && forall ps :: ps in lv[i].table.list ==> WellFormed(ps)
  }

  function Nested(lv: seq<Level>, outs: seq<Node>, db: Database, env: Env): Trace
    requires LevelsOk(lv)
    decreases |lv|, 1, 0
  {
    if lv == [] then
      var r := Outs(outs, env);
      if r.Err? then Trace([], false) else Trace([r.value], true)
    else
      var t := lv[0].table;
      if t.base !in db then Trace([], false)
      else
        match ConditionsOf(t.list, env)
        case Fails => Trace([], false)
        case Nothing => Trace([], true)
        case Intervals(cs) => Over(lv, outs, db, env, Selected(db[t.base], cs))
  }

  function Over(lv: seq<Level>, outs: seq<Node>, db: Database, env: Env, rows: seq<Row>): Trace
    requires LevelsOk(lv) && lv != []
    decreases |lv|, 0, |rows|
  {
    if rows == [] then Trace([], true)
    else
      var first := ForRow(lv, outs, db, env[lv[0].table.hole := rows[0]]);
      if !first.ok then first
      else
        var rest := Over(lv, outs, db, env, rows[1..]);
        Trace(first.rows + rest.rows, rest.ok)
  }

  /** The level's current row is in `env`. */
  function ForRow(lv: seq<Level>, outs: seq<Node>, db: Database, env: Env): Trace
    requires LevelsOk(lv) && lv != []
    decreases |lv|, -1, 0
  {
    match Verdict(lv[0].cond, env)
    case Err => Trace([], false)
    case Ok(goes) => if goes then Nested(lv[1..], outs, db, env) else Trace([], true)
  }

  function Verdict(cond: Option<Node>, env: Env): Result<bool>
    requires cond.Some? ==> cond.value.Node?
  {
    if cond.None? then Ok(true)
    else
      var v := Run(cond.value, env);
      if v.Err? then Err else Ok(Goes(v.value))
  }

  // ---- Rows that are not current are not looked at ----

  ghost predicate Agree(d: Env, e: Env, known: set<int>) {
    forall h :: h in known ==> (h in d <==> h in e) && (h in d ==> d[h] == e[h])
  }

  lemma {:induction false} RunAgree(n: Node, d: Env, e: Env, known: set<int>)
    requires n.Node? && Deps(n) <= known && Agree(d, e, known)
    ensures Run(n, d) == Run(n, e)
    decreases n, 0
  {
    if !Leaf(n) {
      ArgsAgree(n.code, n.arity, Option.None, n.dn, d, e, known);
    }
  }

  lemma {:induction false} ArgsAgree(c: Code, arity: int, acc: Option<Value>, cur: Node, d: Env, e: Env,
                                     known: set<int>)
    requires cur.Node? && DepsAll(cur) <= known && Agree(d, e, known)
    ensures Args(c, arity, acc, cur, d) == Args(c, arity, acc, cur, e)
    decreases cur, 1
  {
    hide AfterOperand, Run, Deps, Agree;
    RunAgree(cur, d, e, known);
    var v := Run(cur, d);
    if v.Ok? {
      var s := AfterOperand(c, arity, acc, v.value, cur.rh.Node?);
      if s.Next? {
        ArgsAgree(c, arity, s.acc, cur.rh, d, e, known);
      }
    }
  }

  ghost predicate SimpleKnown(ps: seq<Simple>, known: set<int>) {
    forall i :: 0 <= i < |ps| && ps[i].ColumnTest? ==> Deps(ps[i].expr) <= known
  }

  ghost predicate OutsKnown(outs: seq<Node>, known: set<int>) {
    forall n :: n in outs ==> Deps(n) <= known
  }

  /** Every expression is evaluated when the rows it refers to are current. */
  ghost predicate Ready(lv: seq<Level>, outs: seq<Node>, known: set<int>) {
    if lv == [] then OutsKnown(outs, known)
    else
      var t := lv[0].table;
      && t.hole !in known
      && (forall ps :: ps in t.list ==> SimpleKnown(ps, known))
      && (lv[0].cond.Some? ==> Deps(lv[0].cond.value) <= known + {t.hole})
      && Ready(lv[1..], outs, known + {t.hole})
  }

  lemma ConditionsAgree(list: seq<seq<Simple>>, d: Env, e: Env, known: set<int>)
    requires (forall ps :: ps in list ==> WellFormed(ps) && SimpleKnown(ps, known)) && Agree(d, e, known)
    ensures ConditionsOf(list, d) == ConditionsOf(list, e)
  {
    if list != [] {
      var ps := list[0];
      assert ps in list;
      forall i | 0 <= i < |ps|
        ensures PredicateOf(ps[i], d) == PredicateOf(ps[i], e)
      {
        if ps[i].ColumnTest? {
          RunAgree(ps[i].expr, d, e, known);
        }
      }
      assert Predicates(ps, d) == Predicates(ps, e);
      ConditionsAgree(list[1..], d, e, known);
    }
  }

  lemma {:induction false} OutsAgree(outs: seq<Node>, d: Env, e: Env, known: set<int>)
    requires OutsKnown(outs, known) && Agree(d, e, known)
    ensures Outs(outs, d) == Outs(outs, e)
    decreases |outs|
  {
    if outs != [] {
      if outs[0].Node? {
        RunAgree(outs[0], d, e, known);
      }
      OutsAgree(outs[1..], d, e, known);
    }
  }

  lemma {:induction false} NestedAgree(lv: seq<Level>, outs: seq<Node>, db: Database, d: Env, e: Env, known: set<int>)
    requires LevelsOk(lv) && Ready(lv, outs, known) && Agree(d, e, known)
    ensures Nested(lv, outs, db, d) == Nested(lv, outs, db, e)
    decreases |lv|, 1, 0
  {
    if lv == [] {
      OutsAgree(outs, d, e, known);
    } else {
      var t := lv[0].table;
      ConditionsAgree(t.list, d, e, known);
      if t.base in db && ConditionsOf(t.list, d).Intervals? {
        OverAgree(lv, outs, db, d, e, Selected(db[t.base], ConditionsOf(t.list, d).cs), known);
      }
    }
  }

  lemma {:induction false} OverAgree(lv: seq<Level>, outs: seq<Node>, db: Database, d: Env, e: Env, rows: seq<Row>,
                                     known: set<int>)
    requires LevelsOk(lv) && lv != [] && Ready(lv, outs, known) && Agree(d, e, known)
    ensures Over(lv, outs, db, d, rows) == Over(lv, outs, db, e, rows)
    decreases |lv|, 0, |rows|
  {
    if rows != [] {
      hide Nested;
      var h := lv[0].table.hole;
      var d', e' := d[h := rows[0]], e[h := rows[0]];
      assert Agree(d', e', known + {h});
      if lv[0].cond.Some? {
        RunAgree(lv[0].cond.value, d', e', known + {h});
      }
      NestedAgree(lv[1..], outs, db, d', e', known + {h});
      OverAgree(lv, outs, db, d, e, rows[1..], known);
    }
  }

  // ---- The emitted loops compute it ----

  ghost predicate IsBody(body: Cmd, outs: seq<Node>) { body == RetPar(outs) || body == INSROW(outs) }

  ghost predicate NoScans(lv: seq<Level>, scans: map<int, seq<Row>>) {
    forall i :: 0 <= i < |lv| ==> lv[i].table.hole !in scans
  }

  /** From `s` the run has come to `t`: it has produced the rows of `tr`, and it is at `b` with the scans
      `scans`, or it has broken off. */
  ghost predicate Comes(t: State, s: State, tr: Trace, body: Cmd, b: int, scans: map<int, seq<Row>>, known: set<int>) {
    && (if body.RetPar? then t.out == s.out + tr.rows && t.temp == s.temp
        else t.out == s.out && t.temp == s.temp + tr.rows)
    && (s.clean ==> t.clean)
    && (if tr.ok then t.status == Running && t.cur == b && t.scans == scans && Agree(t.env, s.env, known)
        else t.status == Broken)
  }

  /** The body of the loops produces one row. */
  lemma BodyRuns(mem: Memory, db: Database, a: int, sh: Shape, outs: seq<Node>, body: Cmd, b: int, s: State)
    returns (n: nat)
    requires Loops(mem, a, sh, [], body, b) && IsBody(body, outs) && s.status == Running && s.cur == a && s.sqlcode == 0
    ensures var t, r := Steps(n, mem, db, s), Outs(outs, s.env);
            if r.Err? then t.status == Broken && t.out == s.out && t.temp == s.temp && t.clean == s.clean
            else t == if body.RetPar? then s.(out := s.out + [r.value], cur := b)
                      else s.(temp := s.temp + [r.value], cur := b)
  {
    hide At, Steps, Outs, Len;
    n := AtRuns(mem, db, a, sh.f, body, b, s);
  }

  lemma {:induction false} LoopRuns(mem: Memory, db: Database, a: int, sh: Shape, lv: seq<Level>, outs: seq<Node>,
                                    body: Cmd, b: int, known: set<int>, s: State) returns (n: nat)
    requires Loops(mem, a, sh, lv, body, b) && IsBody(body, outs) && LevelsOk(lv) && Ready(lv, outs, known)
    requires s.status == Running && s.cur == a && NoScans(lv, s.scans) && (lv == [] ==> s.sqlcode == 0)
    ensures Comes(Steps(n, mem, db, s), s, Nested(lv, outs, db, s.env), body, b, s.scans, known)
    ensures lv != [] && Nested(lv, outs, db, s.env).ok ==> Steps(n, mem, db, s).sqlcode == 100
    decreases |lv|, 1, 0
  {
    hide At, Steps, Outs, ConditionsOf, Selected, Len, Agree, Ready, LevelsOk, Exec, Loops, Over, Verdict;
    if lv == [] {
      n := BodyRuns(mem, db, a, sh, outs, body, b, s);
      AgreeRefl(s.env, known);
    } else {
      LevelOk(lv);
      InnerLoops(mem, a, sh, lv, body, b);
      var t := lv[0].table;
      var opscan := OPSCAN(t.hole, t.base, t.list, b);
      var n1 := AtRuns(mem, db, a, sh.op, opscan, sh.op + Len(opscan), s);
      var s1 := Steps(n1, mem, db, s);
      ExecOpscan(t, b, db, s.(cur := sh.op));
      AgreeRefl(s.env, known);
      if t.base !in db || !ConditionsOf(t.list, s.env).Intervals? {
        n := n1;
      } else {
        var findrow := FINDROW(t.hole, sh.gt + Len(GoTo(sh.fr)));
        var n2 := Reached(mem, db, s1.cur, sh.fr, findrow, sh.fr + Len(findrow), s1);
        var s2 := Steps(n2, mem, db, s1);
        NotLater(lv, outs, known);
        var n3 := OverRuns(mem, db, a, sh, lv, outs, body, b, known, s2, s2.scans[t.hole]);
        StepsAdd(n1, n2, mem, db, s);
        StepsAdd(n1 + n2, n3, mem, db, s);
        n := n1 + n2 + n3;
        assert s2.scans - {t.hole} == s.scans;
      }
    }
  }

  /** What follows one part of a run follows the whole. */
  lemma ComesAfter(r: State, s: State, t: State, first: Trace, tr: Trace, whole: Trace, body: Cmd, b0: int, b: int,
                   scans0: map<int, seq<Row>>, scans: map<int, seq<Row>>, known0: set<int>, known: set<int>)
    requires Comes(s, r, first, body, b0, scans0, known0) && first.ok && known <= known0
    requires Comes(t, s, tr, body, b, scans, known)
    requires whole == Trace(first.rows + tr.rows, tr.ok)
    ensures Comes(t, r, whole, body, b, scans, known)
  {
    assert Agree(s.env, r.env, known) by { assert forall h :: h in known ==> h in known0; }
    if tr.ok {
      AgreeTrans(t.env, s.env, r.env, known);
    }
    assert r.out + first.rows + tr.rows == r.out + whole.rows;
    assert r.temp + first.rows + tr.rows == r.temp + whole.rows;
  }

  lemma AgreeRefl(e: Env, known: set<int>)
    ensures Agree(e, e, known)
  {}

  lemma AgreeTrans(d: Env, e: Env, f: Env, known: set<int>)
    requires Agree(d, e, known) && Agree(e, f, known)
    ensures Agree(d, f, known)
  {}

  /** Knowing less, and after a row that was not known has come in. */
  lemma AgreeUpdated(d: Env, e: Env, h: int, row: Row, known: set<int>)
    requires h !in known && Agree(d, e[h := row], known + {h})
    ensures Agree(d, e, known)
  {
    assert forall k :: k in known ==> k in known + {h};
  }

  lemma LevelOk(lv: seq<Level>)
    requires LevelsOk(lv) && lv != []
    ensures LevelsOk(lv[1..]) && (lv[0].cond.Some? ==> lv[0].cond.value.Node?)
    ensures forall ps :: ps in lv[0].table.list ==> WellFormed(ps)
  {}

  lemma ReadyInner(lv: seq<Level>, outs: seq<Node>, known: set<int>)
    requires Ready(lv, outs, known) && lv != []
    ensures lv[0].table.hole !in known && Ready(lv[1..], outs, known + {lv[0].table.hole})
  {}

  lemma OverStep(lv: seq<Level>, outs: seq<Node>, db: Database, env: Env, rows: seq<Row>)
    requires LevelsOk(lv) && lv != [] && rows != []
    ensures var first := ForRow(lv, outs, db, env[lv[0].table.hole := rows[0]]);
            && (!first.ok ==> Over(lv, outs, db, env, rows) == first)
            && (first.ok ==>
                  var rest := Over(lv, outs, db, env, rows[1..]);
                  Over(lv, outs, db, env, rows) == Trace(first.rows + rest.rows, rest.ok))
  {
    hide ForRow;
  }

  /** The loop at its FINDROW when no row is left. */
  lemma ExitRuns(mem: Memory, db: Database, a: int, sh: Shape, lv: seq<Level>, body: Cmd, b: int, s: State)
    returns (n: nat)
    requires lv != [] && sh.Loop? && Loops(mem, a, sh, lv, body, b)
    requires s.status == Running && s.cur == sh.fr && lv[0].table.hole in s.scans && s.scans[lv[0].table.hole] == []
    ensures Steps(n, mem, db, s) == s.(sqlcode := 100, cur := b, scans := s.scans - {lv[0].table.hole})
  {
    hide At, Steps, Len, Exec, Loops;
    InnerLoops(mem, a, sh, lv, body, b);
    var h, ex := lv[0].table.hole, sh.gt + Len(GoTo(sh.fr));
    var findrow := FINDROW(h, ex);
    var m1 := AtItself(mem, db, sh.op + Len(OPSCAN(h, lv[0].table.base, lv[0].table.list, b)), sh.fr, findrow,
                       sh.fr + Len(findrow), s);
    ExecFindRow(h, ex, db, s);
    var s1 := Steps(m1, mem, db, s);
    var m2 := AtRuns(mem, db, ex, sh.cl, CLOSE(h), b, s1);
    ExecClose(h, db, s1.(cur := sh.cl));
    StepsAdd(m1, m2, mem, db, s);
    n := m1 + m2;
  }

  /** The FINDROW of a loop when there is a row. */
  lemma EnterRuns(mem: Memory, db: Database, a: int, sh: Shape, lv: seq<Level>, body: Cmd, b: int, s: State)
    returns (n: nat)
    requires lv != [] && sh.Loop? && Loops(mem, a, sh, lv, body, b)
    requires s.status == Running && s.cur == sh.fr && lv[0].table.hole in s.scans && s.scans[lv[0].table.hole] != []
    ensures var h := lv[0].table.hole;
            Steps(n, mem, db, s)
              == s.(sqlcode := 0, env := s.env[h := s.scans[h][0]], scans := s.scans[h := s.scans[h][1..]],
                                       cur := sh.fr + Len(FINDROW(h, sh.gt + Len(GoTo(sh.fr)))))
  {
    hide At, Steps, Len, Exec, Loops;
    InnerLoops(mem, a, sh, lv, body, b);
    var h, ex := lv[0].table.hole, sh.gt + Len(GoTo(sh.fr));
    var findrow := FINDROW(h, ex);
    n := AtItself(mem, db, sh.op + Len(OPSCAN(h, lv[0].table.base, lv[0].table.list, b)), sh.fr, findrow,
                  sh.fr + Len(findrow), s);
    ExecFindRow(h, ex, db, s);
  }

  lemma ComesAtOnce(s: State, t: State, body: Cmd, known: set<int>)
    requires t.out == s.out && t.temp == s.temp && t.clean == s.clean && t.status == Running && t.env == s.env
    ensures Comes(t, s, Trace([], true), body, t.cur, t.scans, known)
  {}

  /** A row that has just come in makes no difference to what is known without it. */
  lemma ComesWithRow(s: State, s1: State, t: State, tr: Trace, body: Cmd, b: int, scans: map<int, seq<Row>>, h: int,
                     row: Row, known: set<int>)
    requires h !in known && s1.env == s.env[h := row] && s1.out == s.out && s1.temp == s.temp && s1.clean == s.clean
    requires Comes(t, s1, tr, body, b, scans, known + {h})
    ensures Comes(t, s, tr, body, b, scans, known)
    ensures t.status == Running <==> tr.ok
    ensures tr.ok ==> t.cur == b && t.scans == scans && Agree(t.env, s.env, known)
  {
    if tr.ok {
      AgreeUpdated(t.env, s.env, h, row, known);
    }
  }

  /** The loop at its FINDROW, with `rows` still to come. */
  lemma {:induction false} OverRuns(mem: Memory, db: Database, a: int, sh: Shape, lv: seq<Level>, outs: seq<Node>,
                                    body: Cmd, b: int, known: set<int>, s: State, rows: seq<Row>) returns (n: nat)
    requires LevelsOk(lv) && lv != [] && sh.Loop? && Ready(lv, outs, known) && IsBody(body, outs)
             && Loops(mem, a, sh, lv, body, b)
    requires s.status == Running && s.cur == sh.fr && NoScans(lv[1..], s.scans)
    requires lv[0].table.hole in s.scans && s.scans[lv[0].table.hole] == rows
    ensures Comes(Steps(n, mem, db, s), s, Over(lv, outs, db, s.env, rows), body, b, s.scans - {lv[0].table.hole},
                  known)
    ensures Over(lv, outs, db, s.env, rows).ok ==> Steps(n, mem, db, s).sqlcode == 100
    decreases |lv|, 0, |rows|
  {
    hide Steps, Len, Agree, Ready, LevelsOk, ForRow, Loops, Comes;
    var h := lv[0].table.hole;
    if rows == [] {
      n := ExitRuns(mem, db, a, sh, lv, body, b, s);
      ComesAtOnce(s, Steps(n, mem, db, s), body, known);
    } else {
      hide Over;
      ReadyInner(lv, outs, known);
      OverStep(lv, outs, db, s.env, rows);
      var m1 := EnterRuns(mem, db, a, sh, lv, body, b, s);
      var s1 := Steps(m1, mem, db, s);
      NotLater(lv, outs, known);
      assert NoScans(lv[1..], s1.scans);
      var m2 := RowRuns(mem, db, a, sh, lv, outs, body, b, known, s1);
      var s2 := Steps(m2, mem, db, s1);
      var first := ForRow(lv, outs, db, s1.env);
      StepsAdd(m1, m2, mem, db, s);
      n := m1 + m2;
      ComesWithRow(s, s1, s2, first, body, sh.fr, s1.scans, h, rows[0], known);
      if first.ok {
        var m3 := OverRuns(mem, db, a, sh, lv, outs, body, b, known, s2, rows[1..]);
        OverAgree(lv, outs, db, s2.env, s.env, rows[1..], known);
        StepsAdd(n, m3, mem, db, s);
        n := n + m3;
        assert s1.scans - {h} == s.scans - {h};
        ComesAfter(s, s2, Steps(m3, mem, db, s2), first, Over(lv, outs, db, s.env, rows[1..]),
                   Over(lv, outs, db, s.env, rows), body, sh.fr, b, s1.scans, s.scans - {h}, known, known);
      } else {
        ComesBroken(s, s2, first, body, sh.fr, s1.scans, b, s.scans - {h}, known);
      }
    }
  }

  lemma ComesBroken(s: State, t: State, tr: Trace, body: Cmd, b0: int, scans0: map<int, seq<Row>>, b: int,
                    scans: map<int, seq<Row>>, known: set<int>)
    requires Comes(t, s, tr, body, b0, scans0, known) && !tr.ok
    ensures Comes(t, s, tr, body, b, scans, known)
  {}

  /** No later level has the place of the first one. */
  lemma NotLater(lv: seq<Level>, outs: seq<Node>, known: set<int>)
    requires Ready(lv, outs, known) && lv != []
    ensures forall i :: 0 < i < |lv| ==> lv[i].table.hole != lv[0].table.hole
    ensures forall i :: 0 <= i < |lv[1..]| ==> lv[1..][i].table.hole != lv[0].table.hole
  {
    Distinct(lv[1..], outs, known + {lv[0].table.hole});
    assert forall i :: 0 < i < |lv| ==> lv[i] == lv[1..][i - 1];
  }

  lemma {:induction false} Distinct(lv: seq<Level>, outs: seq<Node>, known: set<int>)
    requires Ready(lv, outs, known)
    ensures forall i :: 0 <= i < |lv| ==> lv[i].table.hole !in known
    decreases |lv|
  {
    if lv != [] {
      Distinct(lv[1..], outs, known + {lv[0].table.hole});
      assert forall i :: 0 < i < |lv| ==> lv[i] == lv[1..][i - 1];
    }
  }

  lemma AtItself(mem: Memory, db: Database, a: int, f: int, c: Cmd, b: int, s: State) returns (n: nat)
    requires At(mem, a, f, c, b) && s.cur == f && s.status == Running
    ensures n > 0 && Steps(n, mem, db, s) == Exec(c, db, s)
  {
    n := 1;
    assert Steps(1, mem, db, s) == Steps(0, mem, db, OneStep(mem, db, s));
  }

  /** The commands between FINDROW and the inner part test the row. */
  lemma TestRuns(mem: Memory, db: Database, a: int, sh: Shape, lv: seq<Level>, body: Cmd, b: int, s: State)
    returns (n: nat)
    requires lv != [] && sh.Loop? && Loops(mem, a, sh, lv, body, b) && (lv[0].cond.Some? ==> lv[0].cond.value.Node?)
    requires s.status == Running && s.cur == sh.fr + Len(FINDROW(lv[0].table.hole, sh.gt + Len(GoTo(sh.fr))))
    ensures var v := Verdict(lv[0].cond, s.env);
            var t := Steps(n, mem, db, s);
            if v.Err? then t.status == Broken && t.out == s.out && t.temp == s.temp && t.clean == s.clean
            else t == s.(cur := if v.value then InnerStart(sh, lv[0]) else sh.fr)
  {
    hide At, Steps, Len, Run, Goes;
    n := AtRuns(mem, db, s.cur, sh.sh, SetHandle, sh.sh + Len(SetHandle), s);
    var t := Steps(n, mem, db, s);
    if lv[0].cond.Some? {
      var c := Until(lv[0].cond.value, sh.fr);
      var m := AtRuns(mem, db, t.cur, sh.un, c, sh.un + Len(c), t);
      StepsAdd(n, m, mem, db, s);
      n := n + m;
    }
  }

  lemma InnerLoops(mem: Memory, a: int, sh: Shape, lv: seq<Level>, body: Cmd, b: int)
    requires lv != [] && Loops(mem, a, sh, lv, body, b)
    ensures sh.Loop? && Loops(mem, InnerStart(sh, lv[0]), sh.inner, lv[1..], body, sh.x)
    ensures At(mem, sh.x, sh.gt, GoTo(sh.fr), sh.gt + Len(GoTo(sh.fr)))
    ensures At(mem, sh.gt + Len(GoTo(sh.fr)), sh.cl, CLOSE(lv[0].table.hole), b)
    ensures var t := lv[0].table;
            var opscan, findrow := OPSCAN(t.hole, t.base, t.list, b), FINDROW(t.hole, sh.gt + Len(GoTo(sh.fr)));
            && At(mem, a, sh.op, opscan, sh.op + Len(opscan))
            && At(mem, sh.op + Len(opscan), sh.fr, findrow, sh.fr + Len(findrow))
  {
    hide At, Len;
  }

  /** One pass of the loop after its FINDROW has brought a row. */
  lemma {:induction false} RowRuns(mem: Memory, db: Database, a: int, sh: Shape, lv: seq<Level>, outs: seq<Node>,
                                   body: Cmd, b: int, known: set<int>, s: State) returns (n: nat)
    requires LevelsOk(lv) && lv != [] && sh.Loop? && Ready(lv, outs, known) && IsBody(body, outs)
             && Loops(mem, a, sh, lv, body, b)
    requires s.status == Running && s.sqlcode == 0
             && s.cur == sh.fr + Len(FINDROW(lv[0].table.hole, sh.gt + Len(GoTo(sh.fr)))) && NoScans(lv[1..], s.scans)
    ensures Comes(Steps(n, mem, db, s), s, ForRow(lv, outs, db, s.env), body, sh.fr, s.scans,
                  known + {lv[0].table.hole})
    decreases |lv|, -1, 0
  {
    hide At, Steps, Len, Agree, Ready, LevelsOk, Nested, Verdict, Exec, Loops, Comes, ForRow;
    LevelOk(lv);
    ReadyInner(lv, outs, known);
    InnerLoops(mem, a, sh, lv, body, b);
    ForRowStep(lv, outs, db, s.env);
    var k, v := known + {lv[0].table.hole}, Verdict(lv[0].cond, s.env);
    n := TestRuns(mem, db, a, sh, lv, body, b, s);
    var t := Steps(n, mem, db, s);
    if v.Err? {
      ComesFailed(s, t, body, sh.fr, s.scans, k);
    } else if !v.value {
      ComesAtOnce(s, t, body, k);
    } else {
      var m := LoopRuns(mem, db, t.cur, sh.inner, lv[1..], outs, body, sh.x, k, t);
      var u := Steps(m, mem, db, t);
      StepsAdd(n, m, mem, db, s);
      n := n + m;
      ComesFrom(s, t, u, Nested(lv[1..], outs, db, s.env), body, sh.x, sh.fr, s.scans, k);
      if u.status == Running {
        var p := AtRuns(mem, db, sh.x, sh.gt, GoTo(sh.fr), sh.gt + Len(GoTo(sh.fr)), u);
        ExecGoTo(sh.fr, db, u.(cur := sh.gt));
        StepsAdd(n, p, mem, db, s);
        n := n + p;
      }
    }
  }

  lemma ForRowStep(lv: seq<Level>, outs: seq<Node>, db: Database, env: Env)
    requires LevelsOk(lv) && lv != []
    ensures var v := Verdict(lv[0].cond, env);
            ForRow(lv, outs, db, env) == if v.Err? then Trace([], false)
                                         else if v.value then Nested(lv[1..], outs, db, env) else Trace([], true)
  {
    hide Nested, Verdict;
  }

  lemma ComesFailed(s: State, t: State, body: Cmd, b: int, scans: map<int, seq<Row>>, known: set<int>)
    requires t.status == Broken && t.out == s.out && t.temp == s.temp && t.clean == s.clean
    ensures Comes(t, s, Trace([], false), body, b, scans, known)
  {}

  /** A part that starts elsewhere in the same state and goes on with a jump to `b`. */
  lemma ComesFrom(r: State, s: State, t: State, tr: Trace, body: Cmd, x: int, b: int, scans: map<int, seq<Row>>,
                  known: set<int>)
    requires s == r.(cur := s.cur) && Comes(t, s, tr, body, x, scans, known)
    ensures t.status == Running <==> tr.ok
    ensures tr.ok ==> t.cur == x && Comes(t.(cur := b), r, tr, body, b, scans, known)
    ensures !tr.ok ==> Comes(t, r, tr, body, b, scans, known)
  {}

  lemma ExecGoTo(branch: int, db: Database, s: State)
    ensures Exec(GoTo(branch), db, s) == s.(cur := branch)
  {}

  lemma ExecFindRow(h: int, ex: int, db: Database, s: State)
    requires h in s.scans
    ensures Exec(FINDROW(h, ex), db, s) ==
            if s.scans[h] == [] then s.(sqlcode := 100, cur := ex)
            else s.(sqlcode := 0, env := s.env[h := s.scans[h][0]], scans := s.scans[h := s.scans[h][1..]],
                    cur := s.cur + Len(FINDROW(h, ex)))
  {
    hide Len;
  }

  lemma ExecClose(h: int, db: Database, s: State)
    requires h in s.scans
    ensures Exec(CLOSE(h), db, s) == s.(scans := s.scans - {h}, cur := s.cur + Len(CLOSE(h)))
  {
    hide Len;
  }

  lemma ExecOpscan(t: Table, exit: int, db: Database, s: State)
    requires forall ps :: ps in t.list ==> WellFormed(ps)
    ensures var c := OPSCAN(t.hole, t.base, t.list, exit);
            Exec(c, db, s) ==
            if t.base !in db then Fail(s)
            else match ConditionsOf(t.list, s.env)
                 case Fails => Fail(s)
                 case Nothing => s.(sqlcode := 100, cur := exit)
                 case Intervals(cs) => s.(scans := s.scans[t.hole := Selected(db[t.base], cs)], cur := s.cur + Len(c))
  {
    hide Len, ConditionsOf, WellFormed;
  }

  // ---- A compiled query runs its loops ----

  lemma DepsUnlinked(n: Node, rh: Node)
    requires n.Node?
    ensures Deps(n.(rh := rh)) == Deps(n)
  {}

  lemma {:induction false} ChainDeps(cs: seq<Node>, all: set<int>)
    requires forall c :: c in cs ==> c.Node? && Deps(c) <= all
    ensures DepsAll(Chain(cs)) <= all
  {
    if cs != [] {
      hide Deps;
      ChainDeps(cs[1..], all);
      DepsUnlinked(cs[0], Chain(cs[1..]));
    }
  }

  lemma UntilDeps(cs: seq<Node>, all: set<int>)
    requires forall c :: c in cs ==> c.Node? && Deps(c) <= all
    ensures UntilTree(cs).Some? ==> Deps(UntilTree(cs).value) <= all
  {
    if |cs| == 1 {
      DepsUnlinked(cs[0], Nil);
    } else if |cs| > 1 {
      ChainDeps(cs, all);
    }
  }

  lemma {:induction false} PickedDeps(ands: seq<Option<Node>>, masks: seq<set<int>>, all: set<int>)
    requires |ands| == |masks|
    requires forall i :: 0 <= i < |ands| && ands[i].Some? ==> ands[i].value.Node? && masks[i] == Deps(ands[i].value)
    ensures forall c :: c in Picked(ands, masks, all) ==> c.Node? && Deps(c) <= all
  {
    if ands != [] {
      var k := |ands| - 1;
      PickedDeps(ands[..k], masks[..k], all);
    }
  }

  /** The tables are scanned in an order in which the scan conditions of each refer to earlier ones. */
  ghost predicate Ordered(tables: seq<Table>, outs: seq<Node>, known: set<int>) {
    if tables == [] then OutsKnown(outs, known)
    else
      var t := tables[0];
      && t.hole !in known
      && (forall ps :: ps in t.list ==> WellFormed(ps) && SimpleKnown(ps, known))
      && Ordered(tables[1..], outs, known + {t.hole})
  }

  /** A conjunct is only tested when the rows it refers to are current. */
  lemma {:induction false} LevelsReady(tables: seq<Table>, ands: seq<Option<Node>>, masks: seq<set<int>>,
                                       done: set<int>, outs: seq<Node>, known: set<int>)
    requires |ands| == |masks|
    requires forall i :: 0 <= i < |ands| && ands[i].Some? ==> ands[i].value.Node? && masks[i] == Deps(ands[i].value)
    requires Ordered(tables, outs, known) && done <= known
    ensures LevelsOk(Levels(tables, ands, masks, done)) && Ready(Levels(tables, ands, masks, done), outs, known)
    decreases |tables|
  {
    hide Deps, Picked, Unused, UntilTree, OutsKnown;
    if tables != [] {
      var t, lv := tables[0], Levels(tables, ands, masks, done);
      var all := done + {t.hole};
      var us := Unused(ands, masks, all);
      LevelsReady(tables[1..], us, masks, all, outs, known + {t.hole});
      PickedDeps(ands, masks, all);
      UntilDeps(Picked(ands, masks, all), all);
      LevelsFirst(tables, ands, masks, done);
      assert lv[0].table == t;
    }
  }

  ghost function External(where: seq<Node>, tables: seq<Table>): set<int> { AllDeps(where) - Holes(tables) }

  /** Running the code of a query ends with the rows of its loops and SQLCODE 100, or breaks off at the
      first failure with the rows before it. */
  lemma QueryRuns(mem: Memory, db: Database, c: Compiled, body: Cmd, known: set<int>, s: State) returns (n: nat)
    requires Emitted(c, body, mem) && IsBody(body, c.outs)
    requires Ordered(c.tables, c.outs, known) && External(c.where, c.tables) <= known
    requires s.status == Running && s.cur == c.begin && s.scans == map[]
    ensures LevelsOk(Plan(c.tables, c.where))
    ensures var t, tr := Steps(n, mem, db, s), Nested(Plan(c.tables, c.where), c.outs, db, s.env);
            && (if body.RetPar? then t.out == s.out + tr.rows && t.temp == s.temp
                else t.out == s.out && t.temp == s.temp + tr.rows)
            && (s.clean ==> t.clean)
            && (if tr.ok then t.status == Ended && t.sqlcode == 100 else t.status == Broken)
  {
    hide Loops, At, Steps, Nested, Deps, Levels, Holes, AllDeps, Ready, LevelsOk, Ordered, Agree;
    var lv := Plan(c.tables, c.where);
    LevelsReady(c.tables, Ands(c.where), Masks(c.where), AllDeps(c.where) - Holes(c.tables), c.outs, known);
    n := LoopRuns(mem, db, c.begin, c.sh, lv, c.outs, body, c.x, known, s);
    var t := Steps(n, mem, db, s);
    if t.status == Running {
      var m := AtRuns(mem, db, c.x, c.f, End, c.e, t);
      StepsAdd(n, m, mem, db, s);
      n := n + m;
    }
  }
}
