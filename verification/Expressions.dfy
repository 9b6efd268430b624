/** Expression trees of the interpreter: the operations on the data stack, the evaluation that the
    two explicit stacks carry out, and SQL's three-valued meaning of a tree. */
module Expressions {
  import Like
  import opened Options

  datatype Flag = Unknown | Regular | Null
  /** Whether the union holds a number (INT, LONG, truth values) or a character string. */
  datatype Kind = Num | Str
  datatype Value = Value(nl: Flag, kind: Kind, num: int, str: string)

  datatype Code =
    | AND | OR | NOT | ISNULL | ISNOTNULL | LIKE
    | EQU | NE | LE | GE | LT | GT
    | ADD | SUB | MULT | DIV | UMINUS | NOOP | OPERAND

  /** What a leaf refers to: a constant or a column hole that the current row of a table fills. */
  datatype Source = Const(v: Value) | Column(table: int, col: nat)
  type Env = map<int, seq<Value>>

  /** A tree in first-child, next-sibling form; `Nil` is the null reference. */
  datatype Node = Nil | Node(code: Code, arity: int, dn: Node, rh: Node, src: Source)

  datatype Result<T> = Ok(value: T) | Err

  predicate Leaf(n: Node) requires n.Node? { n.dn.Nil? }

  predicate IsComp(c: Code) { c in {EQU, NE, LE, GE, LT, GT} }
  predicate IsArithm(c: Code) { c in {ADD, SUB, MULT, DIV} }

  const HOLE := Value(Unknown, Num, 0, "")

  function Fetch(s: Source, env: Env): Value {
    match s
    case Const(v) => v
    case Column(t, c) => if t in env && c < |env[t]| then env[t][c] else HOLE
  }

  function Truth(b: bool): int { if b then 1 else 0 }

  /** Division of the implementation language: the quotient is cut off toward zero. */
  function Quotient(x: int, y: int): int
    requires y != 0
  {
    if (x >= 0) == (y > 0) then (if x >= 0 then x else -x) / (if y > 0 then y else -y)
    else -((if x >= 0 then x else -x) / (if y > 0 then y else -y))
  }

  /** Three-way comparison of strings, as `strncmp` over the longer length gives it. */
  function Compare(s: string, t: string): int {
    if s == [] then (if t == [] then 0 else -1)
    else if t == [] then 1
    else if s[0] < t[0] then -1
    else if s[0] > t[0] then 1
    else Compare(s[1..], t[1..])
  }

  /** The outcome of a comparison whose operands compare as `m` does to 0. */
  predicate Holds(c: Code, m: int)
    requires IsComp(c)
  {
    match c
    case EQU => m == 0
    case NE => m != 0
    case GT => m > 0
    case LT => m < 0
    case GE => m >= 0
    case LE => m <= 0
  }

  // 0 stands for NULL, 1 for FALSE, 2 for TRUE.
  const AND_TABLE: seq<seq<int>> := [[0, 1, 0], [1, 1, 1], [0, 1, 2]]
  const OR_TABLE: seq<seq<int>> := [[0, 0, 2], [0, 1, 2], [2, 2, 2]]

  function Unary(code: Code, v: Value): Result<Value> {
    match code
    case UMINUS => if v.kind == Num then Ok(v.(num := -v.num)) else Err
    case NOT => Ok(if v.nl == Regular then v.(num := Truth(v.num == 0)) else v)
    case ISNULL => Ok(Value(Regular, Num, Truth(v.nl == Null), v.str))
    case ISNOTNULL => Ok(Value(Regular, Num, Truth(v.nl == Regular), v.str))
    case NOOP => Ok(v)
    case _ => Err
  }

  /** The value of a binary operation, left on the stack in the place of its first operand `p`. */
  function Binary(code: Code, p: Value, v: Value): Result<Value> {
    if code == OR || code == AND then
      var i := if p.nl == Regular then p.num + 1 else 0;
      var j := if v.nl == Regular then v.num + 1 else 0;
      if !(0 <= i < 3 && 0 <= j < 3) then Err
      else
        var r := (if code == OR then OR_TABLE else AND_TABLE)[i][j];
        Ok(if r != 0 then Value(Regular, Num, r - 1, p.str) else p.(nl := Null))
    else if p.nl != Regular || v.nl != Regular then Ok(p.(nl := Null))
    else if p.kind == Str then
      if v.kind == Str && IsComp(code)
      then Ok(Value(Regular, Num, Truth(Holds(code, Compare(p.str, v.str))), p.str))
      else Err
    else if v.kind == Str then Err
    else if IsComp(code) then Ok(p.(num := Truth(Holds(code, p.num - v.num))))
    else match code
      case ADD => Ok(p.(num := p.num + v.num))
      case SUB => Ok(p.(num := p.num - v.num))
      case MULT => Ok(p.(num := p.num * v.num))
      case DIV => if v.num == 0 then Err else Ok(p.(num := Quotient(p.num, v.num)))
      case _ => Err
  }

  function LikeValue(p: Value, v: Value): Result<Value> {
    if p.nl != Regular || v.nl != Regular then Ok(p.(nl := Null))
    else if p.kind != Str || v.kind != Str then Err
    else Ok(Value(Regular, Num, Truth(Like.Match(p.str, Like.Tokens(v.str, None))), p.str))
  }

  /** A truth value that decides AND or OR on its own. */
  predicate Decides(code: Code, v: Value) {
    v.nl == Regular && ((code == OR && v.num == 1) || (code == AND && v.num == 0))
  }

  // ---- The evaluation as a recursive function over trees ----

  function Run(n: Node, env: Env): Result<Value>
    requires n.Node?
    decreases n, 0
  {
    if Leaf(n) then
      var v := Fetch(n.src, env);
      if v.nl == Unknown then Err else Ok(v)
    else Args(n.code, n.arity, None, n.dn, env)
  }

  /** Evaluates the operand `cur` and those right of it; `acc` is the value of the operands so far,
      if one is on the stack. */
  function Args(code: Code, arity: int, acc: Option<Value>, cur: Node, env: Env): Result<Value>
    requires cur.Node?
    decreases cur, 1
  {
    var v := Run(cur, env);
    if v.Err? then Err
    else
      var s := AfterOperand(code, arity, acc, v.value, cur.rh.Node?);
      if s.Up? then s.result else Args(code, arity, s.acc, cur.rh, env)
  }

  /** Either the operation is done, or the next operand is due. */
  datatype Step = Up(result: Result<Value>) | Next(acc: Option<Value>)

  function AfterOperand(code: Code, arity: int, acc: Option<Value>, v: Value, more: bool): (s: Step)
    ensures s.Next? ==> more
  {
    match acc
    case None =>
      if arity == 1 then Up(Unary(code, v))
      else if v.nl == Regular then
        if code == OR || code == AND then
          if Decides(code, v) || !more then Up(Ok(v)) else Next(None)
        else if more then Next(Some(v)) else Up(Ok(v))
      else if IsComp(code) || IsArithm(code) || !more then Up(Ok(v))
      else Next(Some(v))
    case Some(p) =>
      if code == LIKE then Up(LikeValue(p, v))
      else
        var r := Binary(code, p, v);
        if r.Err? || !more then Up(r) else Next(Some(r.value))
  }

  // ---- The evaluation with two explicit stacks ----

  type Operation = n: Node | n.Node? && n.dn.Node?
    witness Node(NOOP, 1, Node(OPERAND, 0, Nil, Nil, Const(HOLE)), Nil, Const(HOLE))

  /** An operation under way; `flg` is 1 once the value of its operands so far is on the data stack. */
  datatype Frame = Frame(tp: Operation, flg: int)

  datatype Situation = OPERN | LEAF | DONE

  /** The data-stack entries that the operations under way keep. */
  ghost function Pending(accs: seq<Option<Value>>): seq<Value> {
    if accs == [] then []
    else Pending(accs[..|accs| - 1]) + (if accs[|accs| - 1].Some? then [accs[|accs| - 1].value] else [])
  }

  ghost predicate FramesOk(fs: seq<Frame>, accs: seq<Option<Value>>, tr: Node) {
    && |fs| == |accs|
    && (forall i :: 0 <= i < |fs| ==>
          && (fs[i].flg != 0 <==> accs[i].Some?)
          && (if i == 0 then fs[i].tp == tr else fs[i].tp < tr))
  }

  /** What the operations under way make of the result `r` of the node `cur`. */
  ghost function Finish(fs: seq<Frame>, accs: seq<Option<Value>>, cur: Node, r: Result<Value>, env: Env): Result<Value>
    requires |fs| == |accs| && cur.Node?
    decreases |fs|
  {
    if fs == [] || r.Err? then r
    else
      var k := |fs| - 1;
      var p := fs[k].tp;
      var s := AfterOperand(p.code, p.arity, accs[k], r.value, cur.rh.Node?);
      var up := if s.Up? then s.result else Args(p.code, p.arity, s.acc, cur.rh, env);
      Finish(fs[..k], accs[..k], p, up, env)
  }

  function Weight(n: Node): nat {
    if n.Nil? then 0 else 1 + Weight(n.dn) + Weight(n.rh)
  }

  function Load(fs: seq<Frame>): nat {
    if fs == [] then 0
    else
      var p := fs[|fs| - 1].tp;
      1 + 3 * Weight(p.rh) + Load(fs[..|fs| - 1])
  }

  lemma PendingPush(accs: seq<Option<Value>>, a: Option<Value>)
    ensures Pending(accs + [a]) == Pending(accs) + if a.Some? then [a.value] else []
  {
    assert (accs + [a])[..|accs|] == accs;
  }

  lemma PendingTop(accs: seq<Option<Value>>)
    requires accs != []
    ensures var k := |accs| - 1;
            Pending(accs) == Pending(accs[..k]) + if accs[k].Some? then [accs[k].value] else []
  {}

  /** Starting on the operands of `cur`. */
  lemma PushFrame(fs: seq<Frame>, accs: seq<Option<Value>>, cur: Node, tr: Node, env: Env)
    requires FramesOk(fs, accs, tr) && cur.Node? && !Leaf(cur) && if fs == [] then cur == tr else cur < tr
    ensures var gs, bs := fs + [Frame(cur, 0)], accs + [None];
            && FramesOk(gs, bs, tr)
            && Finish(gs, bs, cur.dn, Run(cur.dn, env), env) == Finish(fs, accs, cur, Run(cur, env), env)
            && Load(gs) == Load(fs) + 1 + 3 * Weight(cur.rh)
            && Weight(cur) == 1 + Weight(cur.dn) + Weight(cur.rh)
  {
    hide AfterOperand;
    var gs, bs := fs + [Frame(cur, 0)], accs + [None];
    assert gs[..|fs|] == fs && bs[..|fs|] == accs;
  }

  /** The value of the topmost operation is known. */
  lemma GoUp(fs: seq<Frame>, accs: seq<Option<Value>>, cur: Node, tr: Node, v: Value, env: Env)
    requires FramesOk(fs, accs, tr) && cur.Node? && fs != []
    requires var k := |fs| - 1; AfterOperand(fs[k].tp.code, fs[k].tp.arity, accs[k], v, cur.rh.Node?).Up?
    ensures var k := |fs| - 1;
            var s := AfterOperand(fs[k].tp.code, fs[k].tp.arity, accs[k], v, cur.rh.Node?);
            && FramesOk(fs[..k], accs[..k], tr) && (if k == 0 then fs[k].tp == tr else fs[k].tp < tr)
            && Finish(fs, accs, cur, Ok(v), env) == Finish(fs[..k], accs[..k], fs[k].tp, s.result, env)
            && (s.result.Err? ==> Finish(fs, accs, cur, Ok(v), env) == Err)
            && Load(fs) == Load(fs[..k]) + 1 + 3 * Weight(fs[k].tp.rh)
  {
    hide AfterOperand, Run, Args;
  }

  /** The next operand of the topmost operation is due. */
  lemma GoOn(fs: seq<Frame>, accs: seq<Option<Value>>, cur: Node, tr: Node, v: Value, f: Frame, a: Option<Value>,
             env: Env)
    requires FramesOk(fs, accs, tr) && cur.Node? && fs != []
    requires var k := |fs| - 1;
             && AfterOperand(fs[k].tp.code, fs[k].tp.arity, accs[k], v, cur.rh.Node?) == Next(a)
             && f.tp == fs[k].tp && (f.flg != 0 <==> a.Some?)
    ensures var k := |fs| - 1;
            var gs, bs := fs[..k] + [f], accs[..k] + [a];
            && cur.rh.Node? && FramesOk(gs, bs, tr)
            && Finish(gs, bs, cur.rh, Run(cur.rh, env), env) == Finish(fs, accs, cur, Ok(v), env)
            && Load(gs) == Load(fs) && Weight(cur.rh) < Weight(cur)
  {
    hide AfterOperand;
    var k := |fs| - 1;
    var gs, bs := fs[..k] + [f], accs[..k] + [a];
    assert gs[..k] == fs[..k] && bs[..k] == accs[..k];
  }

  class Calculator {
    var dt: seq<Value>    // data_st
    var st: seq<Frame>    // stack

    /** Handles the value on top of the data stack, that of an operand of the operation on top of the
        other stack; `up` says that this value, or what was made of it, is the operation's own. */
    method Operand(more: bool) returns (err: bool, up: bool)
      requires st != [] && dt != [] && (st[|st| - 1].flg != 0 ==> |dt| >= 2)
      modifies this
      ensures var f, v := old(st)[|old(st)| - 1], old(dt)[|old(dt)| - 1];
              var k := |old(dt)| - if f.flg != 0 then 2 else 1;
              var s := AfterOperand(f.tp.code, f.tp.arity, if f.flg != 0 then Some(old(dt)[k]) else None, v, more);
              && (err <==> s == Up(Err))
              && (!err ==>
                    && (up <==> s.Up?)
                    && |st| == |old(st)| && st[..|st| - 1] == old(st)[..|st| - 1] && st[|st| - 1].tp == f.tp
                    && (up ==> dt == old(dt)[..k] + [s.result.value])
                    && (!up ==> (st[|st| - 1].flg != 0 <==> s.acc.Some?)
                                && dt == old(dt)[..k] + if s.acc.Some? then [s.acc.value] else []))
    {
      hide Unary, Binary, LikeValue;
      var n, k := |dt| - 1, |st| - 1;
      var f, v := st[k], dt[n];
      var code := f.tp.code;
      err, up := false, false;
      if f.flg == 0 {
        if f.tp.arity == 1 {
          var r := Unary(code, v);
          if r.Err? {
            return true, false;
          }
          dt := dt[..n] + [r.value];
          return false, true;
        }
        if v.nl == Regular {
          if code == OR || code == AND {
            if Decides(code, v) {
              return false, true;
            } else if more {
              dt := dt[..n];
            }
          } else {
            st := st[k := Frame(f.tp, f.flg + 1)];
          }
        } else {
          if IsComp(code) || IsArithm(code) {
            return false, true;
          } else {
            st := st[k := Frame(f.tp, f.flg + 1)];
          }
        }
      } else {
        var r := if code == LIKE then LikeValue(dt[n - 1], v) else Binary(code, dt[n - 1], v);
        if r.Err? {
          return true, false;
        }
        dt := dt[..n - 1] + [r.value];
        if code == LIKE {
          return false, true;
        }
      }
      up := !more;
    }

    /** Runs the tree `tr` on the two stacks. */
    method Calculate(tr: Node, env: Env) returns (res: Result<Value>)
      requires tr.Node?
      modifies this
      ensures res == Run(tr, env)
      ensures res.Ok? ==> dt == old(dt) && st == old(st)
    {
      hide AfterOperand, Finish, Pending, Args, Load, FramesOk, Run, Weight, Loop, Measure, Leaf;
      var cur, sit := tr, if Leaf(tr) then LEAF else OPERN;
      ghost var fs: seq<Frame>, accs: seq<Option<Value>> := [], [];
      ghost var d0, s0 := dt, st;
      Initially(d0, s0, tr, env);
      while true
        invariant cur.Node? && Loop(d0, s0, dt, st, fs, accs, cur, sit, tr, env)
        decreases Measure(fs, sit, cur)
      {
        ghost var d, s := dt, st;
        match sit
        case OPERN =>
          OnOperation(d0, s0, d, s, fs, accs, cur, tr, env);
          st := st + [Frame(cur, 0)];
          fs, accs := fs + [Frame(cur, 0)], accs + [None];
          cur := cur.dn;
          if Leaf(cur) {
            sit := LEAF;
          }
        case LEAF =>
          OnLeaf(d0, s0, d, s, fs, accs, cur, tr, env);
          var v := Fetch(cur.src, env);
          if v.nl == Unknown {
            return Err;
          }
          dt := dt + [v];
          sit := DONE;
        case DONE =>
          OnResult(d0, s0, d, s, fs, accs, cur, tr, env);
          if cur == tr {
            res := Ok(dt[|dt| - 1]);
            dt := dt[..|dt| - 1];
            return;
          }
          var err, up := Operand(cur.rh.Node?);
          if err {
            return Err;
          }
          if up {
            OnUp(d0, s0, d, s, fs, accs, cur, dt, tr, env);
            cur := st[|st| - 1].tp;
            st := st[..|st| - 1];
            fs, accs := fs[..|fs| - 1], accs[..|accs| - 1];
          } else {
            ghost var f := st[|st| - 1];
            ghost var a := if f.flg != 0 then Some(dt[|dt| - 1]) else None;
            OnNext(d0, s0, d, s, fs, accs, cur, f, a, dt, tr, env);
            assert st == st[..|st| - 1] + [f];
            fs, accs := fs[..|fs| - 1] + [f], accs[..|accs| - 1] + [a];
            cur := cur.rh;
            sit := if Leaf(cur) then LEAF else OPERN;
          }
      }
    }
  }

  /** What holds whenever the loop looks at `sit`: `d0` and `s0` are the stacks at the start, `d` and
      `s` the present ones, `fs` the operations under way and `accs` what they have put on the data stack. */
  ghost predicate Loop(d0: seq<Value>, s0: seq<Frame>, d: seq<Value>, s: seq<Frame>, fs: seq<Frame>,
                       accs: seq<Option<Value>>, cur: Node, sit: Situation, tr: Node, env: Env) {
    && cur.Node? && tr.Node? && FramesOk(fs, accs, tr)
    && (if fs == [] then cur == tr else cur < tr)
    && (sit == OPERN ==> !Leaf(cur))
    && (sit == LEAF ==> Leaf(cur))
    && s == s0 + fs
    && (sit != DONE ==> d == d0 + Pending(accs))
    && (sit == DONE ==> d != [] && d[..|d| - 1] == d0 + Pending(accs))
    && Run(tr, env) == Finish(fs, accs, cur, if sit == DONE then Ok(d[|d| - 1]) else Run(cur, env), env)
  }

  ghost function Measure(fs: seq<Frame>, sit: Situation, cur: Node): nat {
    Load(fs) + if sit == DONE && cur.Node? then 1 + 3 * Weight(cur.rh) else 3 * Weight(cur)
  }

  lemma Initially(d0: seq<Value>, s0: seq<Frame>, tr: Node, env: Env)
    requires tr.Node?
    ensures Loop(d0, s0, d0, s0, [], [], tr, if Leaf(tr) then LEAF else OPERN, tr, env)
  {}

  lemma OnOperation(d0: seq<Value>, s0: seq<Frame>, d: seq<Value>, s: seq<Frame>, fs: seq<Frame>,
                    accs: seq<Option<Value>>, cur: Node, tr: Node, env: Env)
    requires Loop(d0, s0, d, s, fs, accs, cur, OPERN, tr, env)
    ensures cur.Node? && cur.dn.Node?
    ensures var sit := if Leaf(cur.dn) then LEAF else OPERN;
            var gs, bs := fs + [Frame(cur, 0)], accs + [None];
            && Loop(d0, s0, d, s + [Frame(cur, 0)], gs, bs, cur.dn, sit, tr, env)
            && Measure(gs, sit, cur.dn) < Measure(fs, OPERN, cur)
  {
    hide AfterOperand, Finish, Pending, Args, Load, FramesOk, Run, Weight;
    PushFrame(fs, accs, cur, tr, env);
    PendingPush(accs, None);
  }

  lemma OnLeaf(d0: seq<Value>, s0: seq<Frame>, d: seq<Value>, s: seq<Frame>, fs: seq<Frame>,
               accs: seq<Option<Value>>, cur: Node, tr: Node, env: Env)
    requires Loop(d0, s0, d, s, fs, accs, cur, LEAF, tr, env)
    ensures cur.Node?
    ensures var v := Fetch(cur.src, env);
            if v.nl == Unknown then Run(tr, env) == Err
            else Loop(d0, s0, d + [v], s, fs, accs, cur, DONE, tr, env)
                 && Measure(fs, DONE, cur) < Measure(fs, LEAF, cur)
  {
    hide AfterOperand, Finish, Pending, Args, Load, FramesOk, Run, Weight, Fetch;
    var v := Fetch(cur.src, env);
    RunLeaf(cur, env);
    if v.nl == Unknown {
      FinishErr(fs, accs, cur, tr, env);
    } else {
      assert (d + [v])[..|d|] == d;
    }
  }

  /** Either the value of the whole tree is there, or that of an operand of the topmost operation. */
  lemma OnResult(d0: seq<Value>, s0: seq<Frame>, d: seq<Value>, s: seq<Frame>, fs: seq<Frame>,
                 accs: seq<Option<Value>>, cur: Node, tr: Node, env: Env)
    requires Loop(d0, s0, d, s, fs, accs, cur, DONE, tr, env)
    ensures d != [] && cur.Node?
    ensures cur == tr ==> Run(tr, env) == Ok(d[|d| - 1]) && d[..|d| - 1] == d0 && s == s0
    ensures cur != tr ==>
              && fs != [] && s != [] && |accs| == |fs| && s[|s| - 1] == fs[|fs| - 1]
              && (s[|s| - 1].flg != 0 ==> |d| >= 2)
              && var p := s[|s| - 1];
                 var c := if p.flg != 0 then Some(d[|d| - 2]) else None;
                 && c == accs[|accs| - 1]
                 && d[..|d| - if p.flg != 0 then 2 else 1] == d0 + Pending(accs[..|accs| - 1])
                 && (AfterOperand(p.tp.code, p.tp.arity, c, d[|d| - 1], cur.rh.Node?) == Up(Err)
                     ==> Run(tr, env) == Err)
  {
    hide AfterOperand, Finish, Pending, Args, Load, FramesOk, Run, Weight;
    if cur == tr {
      FrameSizes(fs, accs, tr);
      FinishTop(fs, accs, cur, env);
      PendingNone(accs);
      assert d[..|d| - 1] == d0 && s == s0;
    } else {
      FrameTop(fs, accs, tr);
      PendingTop(accs);
      var k, v := |fs| - 1, d[|d| - 1];
      var rest := d0 + Pending(accs[..k]);
      assert s[|s| - 1] == fs[k];
      if accs[k].Some? {
        assert d[..|d| - 1] == rest + [accs[k].value];
        assert d[..|d| - 1][|rest|] == accs[k].value;
        assert d[..|d| - 2] == d[..|d| - 1][..|d| - 2] == rest;
      }
      if AfterOperand(fs[k].tp.code, fs[k].tp.arity, accs[k], v, cur.rh.Node?) == Up(Err) {
        GoUp(fs, accs, cur, tr, v, env);
      }
    }
  }

  lemma OnUp(d0: seq<Value>, s0: seq<Frame>, d: seq<Value>, s: seq<Frame>, fs: seq<Frame>,
             accs: seq<Option<Value>>, cur: Node, e: seq<Value>, tr: Node, env: Env)
    requires Loop(d0, s0, d, s, fs, accs, cur, DONE, tr, env) && cur != tr
    requires |fs| == |accs| > 0
    requires var k := |fs| - 1;
             var r := AfterOperand(fs[k].tp.code, fs[k].tp.arity, accs[k], d[|d| - 1], cur.rh.Node?);
             r.Up? && r.result.Ok? && e == d0 + Pending(accs[..k]) + [r.result.value]
    ensures var k := |fs| - 1;
            && Loop(d0, s0, e, s[..|s| - 1], fs[..k], accs[..k], fs[k].tp, DONE, tr, env)
            && Measure(fs[..k], DONE, fs[k].tp) < Measure(fs, DONE, cur)
  {
    hide AfterOperand, Finish, Pending, Args, Load, FramesOk, Run, Weight;
    var k := |fs| - 1;
    GoUp(fs, accs, cur, tr, d[|d| - 1], env);
    assert e[..|e| - 1] == d0 + Pending(accs[..k]);
    assert s[..|s| - 1] == s0 + fs[..k];
  }

  lemma OnNext(d0: seq<Value>, s0: seq<Frame>, d: seq<Value>, s: seq<Frame>, fs: seq<Frame>,
               accs: seq<Option<Value>>, cur: Node, f: Frame, a: Option<Value>, e: seq<Value>, tr: Node, env: Env)
    requires Loop(d0, s0, d, s, fs, accs, cur, DONE, tr, env) && cur != tr
    requires |fs| == |accs| > 0
    requires var k := |fs| - 1;
             && AfterOperand(fs[k].tp.code, fs[k].tp.arity, accs[k], d[|d| - 1], cur.rh.Node?) == Next(a)
             && f.tp == fs[k].tp && (f.flg != 0 <==> a.Some?)
             && e == d0 + Pending(accs[..k]) + if a.Some? then [a.value] else []
    ensures var k := |fs| - 1;
            var gs, bs := fs[..k] + [f], accs[..k] + [a];
            && cur.rh.Node?
            && var sit := if Leaf(cur.rh) then LEAF else OPERN;
               && Loop(d0, s0, e, s[..|s| - 1] + [f], gs, bs, cur.rh, sit, tr, env)
               && Measure(gs, sit, cur.rh) < Measure(fs, DONE, cur)
  {
    hide AfterOperand, Finish, Pending, Args, Load, FramesOk, Run, Weight;
    var k := |fs| - 1;
    GoOn(fs, accs, cur, tr, d[|d| - 1], f, a, env);
    PendingPush(accs[..k], a);
    assert s[..|s| - 1] + [f] == s0 + (fs[..k] + [f]);
  }

  lemma RunLeaf(n: Node, env: Env)
    requires n.Node? && Leaf(n)
    ensures Run(n, env) == (if Fetch(n.src, env).nl == Unknown then Err else Ok(Fetch(n.src, env)))
    ensures Weight(n) == 1 + Weight(n.rh)
  {}

  lemma FinishErr(fs: seq<Frame>, accs: seq<Option<Value>>, cur: Node, tr: Node, env: Env)
    requires FramesOk(fs, accs, tr) && cur.Node?
    ensures Finish(fs, accs, cur, Err, env) == Err
  {}

  lemma FinishTop(fs: seq<Frame>, accs: seq<Option<Value>>, cur: Node, env: Env)
    requires fs == [] && accs == [] && cur.Node?
    ensures forall v :: Finish(fs, accs, cur, Ok(v), env) == Ok(v)
  {}

  lemma PendingNone(accs: seq<Option<Value>>)
    requires accs == []
    ensures Pending(accs) == []
  {}

  lemma FrameTop(fs: seq<Frame>, accs: seq<Option<Value>>, tr: Node)
    requires FramesOk(fs, accs, tr) && fs != []
    ensures var k := |fs| - 1; |accs| == |fs| && (fs[k].flg != 0 <==> accs[k].Some?)
  {}

  lemma FrameSizes(fs: seq<Frame>, accs: seq<Option<Value>>, tr: Node)
    requires FramesOk(fs, accs, tr)
    ensures |fs| == |accs|
  {}
}
