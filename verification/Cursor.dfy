/** Running a compiled query: the interpreter's loop over the commands, and cursors that take one row at
    a time from it. */
module Cursor {
  import opened Expressions
  import opened Program
  import opened Interp

  datatype Return = RowReady | AtEnd | Error

  lemma {:induction false} StepsBound(k: nat, n: nat, mem: Memory, db: Database, s: State)
    requires Steps(k, mem, db, s).status == Running && Steps(n, mem, db, s).status != Running
    ensures k < n
    decreases k
  {
    hide OneStep;
    if n == 0 {
      if k > 0 && s.status != Running {
      }
    } else if k > 0 {
      StepsBound(k - 1, n - 1, mem, db, OneStep(mem, db, s));
    }
  }

  lemma StepsSucc(k: nat, mem: Memory, db: Database, s: State)
    requires Steps(k, mem, db, s).status == Running
    ensures Steps(k + 1, mem, db, s) == OneStep(mem, db, Steps(k, mem, db, s))
  {
    hide OneStep;
    StepsAdd(k, 1, mem, db, s);
    var t := Steps(k, mem, db, s);
    assert Steps(1, mem, db, t) == Steps(0, mem, db, OneStep(mem, db, t));
  }

  /** Rows that have been produced stay, and SQLCODE is 0 with every row only if it is with each. */
  lemma {:induction false} StepsGrow(n: nat, mem: Memory, db: Database, s: State)
    ensures var t := Steps(n, mem, db, s); s.out <= t.out && s.temp <= t.temp && (t.clean ==> s.clean)
  {
    if n != 0 && s.status == Running {
      ExecGrows(if s.cur in mem then mem[s.cur] else End, db, s);
      hide Exec;
      StepsGrow(n - 1, mem, db, OneStep(mem, db, s));
    }
  }

  lemma ExecGrows(c: Cmd, db: Database, s: State)
    ensures var t := Exec(c, db, s); s.out <= t.out && s.temp <= t.temp && (t.clean ==> s.clean)
  {
    hide Outs, ConditionsOf, Len, Run, WellFormed;
  }

  class Interpreter {
    const mem: Memory
    const db: Database
    var scans: map<int, seq<Row>>
    var env: Env
    var sqlcode: int
    var temp: seq<Row>
    var hole: Row            // res_hole
    ghost var out: seq<Row>
    ghost var clean: bool

    constructor (mem: Memory, db: Database, env: Env)
      ensures this.mem == mem && this.db == db && this.env == env
      ensures scans == map[] && sqlcode == 0 && temp == [] && out == [] && clean
    {
      this.mem, this.db, this.env := mem, db, env;
      scans, sqlcode, temp, hole, out, clean := map[], 0, [], [], [], true;
    }

    ghost function Now(cur: int): State
      reads this
    {
      State(cur, scans, env, sqlcode, out, temp, clean, Running)
    }

    /** Carries out the command `c` at `cur`; `ok` is false if it fails. */
    method Command(c: Cmd, cur: int) returns (ok: bool, next: int)
      requires !c.End?
      modifies this
      ensures var t := Exec(c, db, old(Now(cur)));
              if ok then t == Now(next) else t.status == Broken && Now(cur) == t.(status := Running)
      ensures out == old(out) + if ok && c.RetPar? then [hole] else []
      ensures ok && c.RetPar? && clean ==> sqlcode == 0
    {
      hide ConditionsOf, Outs, Run, Goes, Selected, WellFormed, Len;
      ok, next := true, cur + Len(c);
      match c
      case OPSCAN(scan, base, list, exit) =>
        if base !in db || exists ps :: ps in list && !WellFormed(ps) {
          return false, next;
        }
        match ConditionsOf(list, env) {
          case Fails => ok := false;
          case Nothing => sqlcode, next := 100, exit;
          case Intervals(cs) => scans := scans[scan := Selected(db[base], cs)];
        }
      case FINDROW(scan, exit) =>
        if scan !in scans {
          return false, next;
        }
        sqlcode := 0;
        if scans[scan] == [] {
          sqlcode, next := 100, exit;
        } else {
          env, scans := env[scan := scans[scan][0]], scans[scan := scans[scan][1..]];
        }
      case SetHandle =>
      case Until(cond, ret) =>
        if cond.Nil? {
          return false, next;
        }
        var v := Run(cond, env);
        if v.Err? {
          return false, next;
        }
        if !Goes(v.value) {
          next := ret;
        }
      case RetPar(outs) =>
        var done, row := Values(outs);
        if !done {
          return false, next;
        }
        hole := row;
        out, clean := out + [hole], clean && sqlcode == 0;
      case INSROW(outs) =>
        var done, row := Values(outs);
        if !done {
          return false, next;
        }
        temp := temp + [row];
      case GoTo(branch) => next := branch;
      case CLOSE(scan) =>
        if scan !in scans {
          return false, next;
        }
        scans := scans - {scan};
      case End =>
      case NextVmPiece => ok := false;
      case Reserved(_) => ok := false;
    }

    /** Computes the expressions one after the other, each into its place. */
    method Values(outs: seq<Node>) returns (done: bool, row: Row)
      ensures done <==> exists r :: IsRow(outs, env, r)
      ensures done ==> IsRow(outs, env, row) && Outs(outs, env) == Ok(row)
      ensures !done ==> Outs(outs, env).Err?
    {
      hide Run, Outs;
      row := [];
      var i := 0;
      if Outs(outs, env).Ok? {
        OutsIff(outs, env, Outs(outs, env).value);
      }
      while i < |outs|
        invariant 0 <= i <= |outs| && |row| == i
        invariant forall j :: 0 <= j < i ==> outs[j].Node? && Run(outs[j], env) == Ok(row[j])
      {
        if outs[i].Nil? {
          return false, row;
        }
        var v := Run(outs[i], env);
        if v.Err? {
          return false, row;
        }
        row := row + [v.value];
        i := i + 1;
      }
      done := true;
      assert IsRow(outs, env, row);
      OutsIff(outs, env, row);
    }

    /** Runs the commands from `begin` until a row is ready, the end is reached or a command fails.
        `left` bounds the number of steps that are still ahead. */
    method ProcWork(begin: int, ghost left: nat) returns (ret: Return, exi: int, ghost k: nat)
      requires Steps(left, mem, db, Now(begin)).status != Running
      modifies this
      ensures k <= left
      ensures ret == RowReady ==> Steps(k, mem, db, old(Now(begin))) == Now(exi) && out == old(out) + [hole]
                                  && (clean ==> sqlcode == 0)
      ensures ret == AtEnd ==> Steps(k, mem, db, old(Now(begin))) == Now(exi).(status := Ended) && out == old(out)
      ensures ret == Error ==> Steps(k, mem, db, old(Now(begin))) == Now(exi).(status := Broken) && out == old(out)
    {
      hide Steps, Exec;
      var cur := begin;
      ghost var s0 := Now(begin);
      k := 0;
      StepsNone(mem, db, s0);
      while true
        invariant Steps(k, mem, db, s0) == Now(cur) && out == old(out)
        invariant k <= left
        decreases left - k
      {
        StepsBound(k, left, mem, db, s0);
        StepsSucc(k, mem, db, s0);
        ghost var s := Now(cur);
        if cur !in mem {
          k := k + 1;
          return Error, cur, k;
        }
        var c := mem[cur];
        if c.End? {
          ExecEnd(db, s);
          k := k + 1;
          return AtEnd, cur, k;
        }
        var ok, next := Command(c, cur);
        k := k + 1;
        if !ok {
          return Error, cur, k;
        }
        cur := next;
        if c.RetPar? {
          return RowReady, cur, k;
        }
      }
    }
  }

  /** Runs a query whose rows go into a temporary table. */
  method FillTemp(it: Interpreter, ghost c: Compiled, begin: int, ghost known: set<int>) returns (ok: bool)
    requires InMemory(c, INSROW(c.outs), it.mem, known) && c.begin == begin && it.scans == map[]
    modifies it
    ensures var tr := Rows(c, it.db, old(it.env));
            && it.temp == old(it.temp) + tr.rows && ok == tr.ok && it.out == old(it.out) && (ok ==> it.sqlcode == 100)
  {
    hide Steps, Loops, At, Ordered, Nested, LevelsOk;
    ghost var s := it.Now(begin);
    ghost var n := QueryRuns(it.mem, it.db, c, INSROW(c.outs), known, s);
    var ret, exi, k := it.ProcWork(begin, n);
    Onward(k, n, it.mem, it.db, s);
    assert Steps(k, it.mem, it.db, s).out <= s.out;
    ok := ret == AtEnd;
  }

  lemma StepsNone(mem: Memory, db: Database, s: State)
    ensures Steps(0, mem, db, s) == s
  {}

  lemma ExecEnd(db: Database, s: State)
    ensures Exec(End, db, s) == s.(status := Ended)
  {}

  // ---- Cursors ----

  ghost predicate InMemory(c: Compiled, body: Cmd, mem: Memory, known: set<int>) {
    && Emitted(c, body, mem) && IsBody(body, c.outs)
    && Ordered(c.tables, c.outs, known) && External(c.where, c.tables) <= known
    && LevelsOk(Plan(c.tables, c.where))
  }

  ghost function Rows(c: Compiled, db: Database, env: Env): Trace
    requires (forall n :: n in c.where ==> n.Node?) && LevelsOk(Plan(c.tables, c.where))
  {
    Nested(Plan(c.tables, c.where), c.outs, db, env)
  }

  datatype Fetched = GotRow(row: Row) | NoMore | Broke | Refused

  class CursorHeader {
    const it: Interpreter
    const begin: int
    var opFl: int        // 0 closed, 1 opened, 2 used, 3 SQLCODE 100 was there
    var cur: int
    ghost var rest: seq<Row>
    ghost var ends: bool
    ghost var left: nat
    ghost var live: bool

    constructor (it: Interpreter, begin: int)
      requires it.scans == map[] && it.clean
      ensures this.it == it && this.begin == begin && opFl == 0 && Valid()
    {
      this.it, this.begin, this.cur := it, begin, begin;
      opFl, rest, ends, left, live := 0, [], true, 0, false;
    }

    /** Going on at `cur` would give `rest`, and then SQLCODE 100 if `ends`, or else a failure. */
    ghost predicate Valid()
      reads this, it
    {
      && 0 <= opFl <= 3
      && (opFl < 2 ==> it.scans == map[]) && it.clean
      && (opFl in {1, 2} && live ==>
            var t := Steps(left, it.mem, it.db, it.Now(cur));
            && t.status != Running && t.out == it.out + rest && t.clean
            && (if ends then t.status == Ended && t.sqlcode == 100 else t.status == Broken))
    }

    /** OPEN: from now on the cursor stands before the rows of its query. */
    method Open(ghost c: Compiled, ghost known: set<int>) returns (err: bool)
      requires Valid() && InMemory(c, RetPar(c.outs), it.mem, known) && c.begin == begin
      modifies this
      ensures Valid() && err == (old(opFl) != 0)
      ensures err ==> unchanged(this)
      ensures !err ==> opFl == 1 && live && Rows(c, it.db, it.env) == Trace(rest, ends)
    {
      hide Steps, Loops, At, Ordered, Nested, LevelsOk;
      if opFl != 0 {
        return true;
      }
      opFl := opFl + 1;
      cur := begin;
      ghost var s := it.Now(cur);
      left := QueryRuns(it.mem, it.db, c, RetPar(c.outs), known, s);
      ghost var tr := Rows(c, it.db, it.env);
      rest, ends, live := tr.rows, tr.ok, true;
      err := false;
    }

    /** FETCH: the next row, with SQLCODE 0; behind the last one SQLCODE 100. */
    method Fetch() returns (res: Fetched)
      requires Valid() && (opFl == 0 || (opFl in {1, 2} && live))
      modifies this, it
      ensures Valid()
      ensures old(opFl) == 0 ==> res == Refused && opFl == 0
      ensures old(opFl) != 0 && old(rest) != [] ==>
                res == GotRow(old(rest)[0]) && rest == old(rest)[1..] && ends == old(ends) && opFl == 2 && live
                && it.sqlcode == 0
      ensures old(opFl) != 0 && old(rest) == [] && old(ends) ==> res == NoMore && opFl == 3 && it.sqlcode == 100
      ensures old(opFl) != 0 && old(rest) == [] && !old(ends) ==> res == Broke && opFl == 2 && !live
    {
      hide Steps;
      if opFl == 0 {
        return Refused;
      }
      opFl := 2;
      ghost var s, n := it.Now(cur), left;
      ghost var t := Steps(n, it.mem, it.db, s);
      var ret, exi, k := it.ProcWork(cur, left);
      ghost var u := Steps(k, it.mem, it.db, s);
      Onward(k, n, it.mem, it.db, s);
      match ret
      case RowReady =>
        cur := exi;
        left := n - k;
        assert u.out == s.out + [it.hole];
        assert u.out <= t.out && t.out == s.out + rest;
        assert t.out[|s.out|] == it.hole == rest[0];
        rest := rest[1..];
        assert t.out == u.out + rest;
        res := GotRow(it.hole);
      case AtEnd =>
        cur := exi;
        assert rest == [];
        opFl := 3;
        res := NoMore;
      case Error =>
        assert rest == [];
        live := false;
        res := Broke;
    }

    /** FETCH until SQLCODE 100: the rows that come one by one are those of one uninterrupted run. */
    method FetchAll() returns (rows: seq<Row>)
      requires Valid() && opFl in {1, 2} && live && ends
      modifies this, it
      ensures Valid() && rows == old(rest) && opFl == 3 && it.sqlcode == 100
    {
      hide Valid;
      rows := [];
      ghost var all := rest;
      var more := true;
      while more
        invariant Valid() && (more ==> opFl in {1, 2} && live && ends && rows + rest == all)
        invariant !more ==> rows == all && opFl == 3 && it.sqlcode == 100
        decreases if more then 1 + |rest| else 0
      {
        var f := Fetch();
        if f.GotRow? {
          rows := rows + [f.row];
        } else {
          more := false;
        }
      }
    }

    /** CLOSE: all scans of the cursor are closed. */
    method Close() returns (err: bool)
      requires Valid()
      modifies this, it`scans
      ensures Valid() && opFl == 0 && err == (old(opFl) == 0)
    {
      if opFl == 0 {
        return true;
      }
      if opFl > 1 {
        it.scans := map[];
      }
      opFl := 0;
      err := false;
    }
  }

  /** A run that has come some way comes to the same end. */
  lemma Onward(k: nat, n: nat, mem: Memory, db: Database, s: State)
    requires k <= n
    ensures var t, u := Steps(n, mem, db, s), Steps(k, mem, db, s);
            && Steps(n - k, mem, db, u) == t && u.out <= t.out && (t.clean ==> u.clean)
            && (u.status != Running ==> t == u)
  {
    StepsAdd(k, n - k, mem, db, s);
    StepsGrow(n - k, mem, db, Steps(k, mem, db, s));
  }
}
