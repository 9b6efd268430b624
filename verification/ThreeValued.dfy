/** SQL's three-valued meaning of an expression tree, and the proof that the evaluator returns it. */
module ThreeValued {
  import opened Expressions
  import opened Options

  datatype Sql = Missing | Number(n: int) | Text(s: string)
  datatype Type = BOOL | NUMBER | TEXT

  const FALSE := Number(0)
  const TRUE := Number(1)

  function Logical(b: bool): Sql { if b then TRUE else FALSE }

  // ---- The meaning of a tree ----

  /** AND and OR by what occurs among the operands, in no particular order. */
  function Conjunction(vs: seq<Sql>): Sql {
    if FALSE in vs then FALSE else if Missing in vs then Missing else TRUE
  }

  function Disjunction(vs: seq<Sql>): Sql {
    if TRUE in vs then TRUE else if Missing in vs then Missing else FALSE
  }

  predicate NumbersRelate(c: Code, x: int, y: int)
    requires IsComp(c)
  {
    match c
    case EQU => x == y
    case NE => x != y
    case GT => x > y
    case LT => x < y
    case GE => x >= y
    case LE => x <= y
  }

  /** In a dictionary `s` stands before `t`: it is a proper prefix, or smaller where they first differ. */
  predicate Before(s: string, t: string) {
    s < t || exists k :: 0 <= k < |s| && k < |t| && s[..k] == t[..k] && s[k] < t[k]
  }

  predicate TextsRelate(c: Code, s: string, t: string)
    requires IsComp(c)
  {
    match c
    case EQU => s == t
    case NE => s != t
    case GT => Before(t, s)
    case LT => Before(s, t)
    case GE => !Before(s, t)
    case LE => !Before(t, s)
  }

  function Size(x: int): nat { if x < 0 then -x else x }

  /** `q` times `y` comes as near to `x` as it can without going past it. */
  predicate IsQuotient(x: int, y: int, q: int)
    requires y != 0
  {
    Size(q * y) <= Size(x) < Size(q * y) + Size(y) && (q != 0 ==> (q < 0 <==> (x < 0) != (y < 0)))
  }

  /** Division toward zero. */
  function Divided(x: int, y: int): (q: int)
    requires y != 0
    ensures IsQuotient(x, y, q)
  {
    var q := Size(x) / Size(y);
    QuotientSize(x, y);
    if (x < 0) == (y < 0) then q else -q
  }

  lemma QuotientSize(x: int, y: int)
    requires y != 0
    ensures var q := Size(x) / Size(y); IsQuotient(x, y, if (x < 0) == (y < 0) then q else -q)
  {
    var q, d := Size(x) / Size(y), Size(y);
    Division(Size(x), d);
    if y < 0 {
      Signs(q, d);
    } else {
      Signs(q, y);
    }
  }

  lemma Division(n: nat, d: nat)
    requires d > 0
    ensures 0 <= n / d * d <= n < n / d * d + d
  {}

  lemma Signs(q: int, d: int)
    requires q >= 0 && d >= 0
    ensures q * d >= 0 && (-q) * d == -(q * d) && q * (-d) == -(q * d) && (-q) * (-d) == q * d
  {}

  function Compared(c: Code, a: Sql, b: Sql): Option<Sql>
    requires IsComp(c)
  {
    match (a, b)
    case (Missing, _) => Some(Missing)
    case (_, Missing) => Some(Missing)
    case (Number(x), Number(y)) => Some(Logical(NumbersRelate(c, x, y)))
    case (Text(x), Text(y)) => Some(Logical(TextsRelate(c, x, y)))
    case _ => None
  }

  /** One arithmetic step; None is a division by zero. */
  function Combined(c: Code, a: Sql, b: Sql): Option<Sql>
    requires IsArithm(c)
  {
    if a.Missing? || b.Missing? then Some(Missing)
    else if a.Text? || b.Text? then None
    else if c == ADD then Some(Number(a.n + b.n))
    else if c == SUB then Some(Number(a.n - b.n))
    else if c == MULT then Some(Number(a.n * b.n))
    else if b.n == 0 then None
    else Some(Number(Divided(a.n, b.n)))
  }

  /** Arithmetic over any number of operands associates to the left. */
  function Total(c: Code, a: Sql, vs: seq<Sql>): Option<Sql>
    requires IsArithm(c)
    decreases |vs|
  {
    if vs == [] then Some(a)
    else
      var r := Combined(c, a, vs[0]);
      if r.None? then None else Total(c, r.value, vs[1..])
  }

  /** The evaluator's comparisons and its division are these. */
  lemma HoldsNumbers(c: Code, x: int, y: int)
    requires IsComp(c)
    ensures Holds(c, x - y) <==> NumbersRelate(c, x, y)
  {}

  lemma {:induction false} CompareBefore(s: string, t: string)
    ensures Compare(s, t) < 0 <==> Before(s, t)
    ensures Compare(s, t) > 0 <==> Before(t, s)
    ensures Compare(s, t) == 0 <==> s == t
  {
    if s != [] && t != [] {
      var u, v := s[1..], t[1..];
      CompareBefore(u, v);
      assert s == [s[0]] + u && t == [t[0]] + v;
      BeforeTail(s, t);
      BeforeTail(t, s);
    }
  }

  lemma BeforeTail(s: string, t: string)
    requires s != [] && t != []
    ensures Before(s, t) <==> s[0] < t[0] || (s[0] == t[0] && Before(s[1..], t[1..]))
  {
    var u, v := s[1..], t[1..];
    if k :| 0 <= k < |s| && k < |t| && s[..k] == t[..k] && s[k] < t[k] {
      if k > 0 {
        assert s[0] == s[..k][0] && t[0] == t[..k][0];
        assert u[..k - 1] == s[..k][1..] && v[..k - 1] == t[..k][1..];
        assert u[k - 1] < v[k - 1];
      }
    }
    if s[0] < t[0] {
      assert s[..0] == t[..0];
    }
    if s[0] == t[0] {
      assert s == [s[0]] + u && t == [t[0]] + v;
      if k :| 0 <= k < |u| && k < |v| && u[..k] == v[..k] && u[k] < v[k] {
        assert s[..k + 1] == [s[0]] + u[..k] && t[..k + 1] == [t[0]] + v[..k];
        assert s[k + 1] < t[k + 1];
      }
    }
  }

  lemma HoldsTexts(c: Code, s: string, t: string)
    requires IsComp(c)
    ensures Holds(c, Compare(s, t)) <==> TextsRelate(c, s, t)
  {
    hide Compare, Before;
    CompareBefore(s, t);
  }

  lemma QuotientIs(x: int, y: int)
    requires y != 0
    ensures Quotient(x, y) == Divided(x, y)
  {
    if x == 0 {
      assert 0 / Size(y) == 0;
    }
  }

  function Matched(a: Sql, b: Sql): Option<Sql> {
    match (a, b)
    case (Missing, _) => Some(Missing)
    case (_, Missing) => Some(Missing)
    case (Text(x), Text(y)) => Some(Logical(Like.Match(x, Like.Tokens(y, None))))
    case _ => None
  }

  function Meaning(c: Code, vs: seq<Sql>): Option<Sql> {
    if c == AND then Some(Conjunction(vs))
    else if c == OR then Some(Disjunction(vs))
    else if c == LIKE then if |vs| == 2 then Matched(vs[0], vs[1]) else None
    else if IsComp(c) then if |vs| == 2 then Compared(c, vs[0], vs[1]) else None
    else if IsArithm(c) then if |vs| >= 1 then Total(c, vs[0], vs[1..]) else None
    else if |vs| != 1 then None
    else match c
      case NOT => Some(if vs[0].Missing? then Missing else Logical(vs[0] == FALSE))
      case ISNULL => Some(Logical(vs[0].Missing?))
      case ISNOTNULL => Some(Logical(!vs[0].Missing?))
      case NOOP => Some(vs[0])
      case UMINUS => (match vs[0] case Missing => Some(Missing) case Number(x) => Some(Number(-x)) case Text(_) => None)
      case _ => None
  }

  function Abs(v: Value): Sql {
    if v.nl != Regular then Missing else if v.kind == Num then Number(v.num) else Text(v.str)
  }

  /** The value of a tree when every subtree has one: no column is without a row, nothing is divided by 0. */
  function Sem(n: Node, env: Env): Option<Sql>
    requires n.Node?
    decreases n, 0
  {
    if Leaf(n) then
      var v := Fetch(n.src, env);
      if v.nl == Unknown then None else Some(Abs(v))
    else
      var vs := SemAll(n.dn, env);
      if vs.None? then None else Meaning(n.code, vs.value)
  }

  /** The values of `cur` and of its right siblings. */
  function SemAll(cur: Node, env: Env): (r: Option<seq<Sql>>)
    ensures r.Some? && cur.Node? ==> |r.value| == Count(cur)
    decreases cur, 1
  {
    if cur.Nil? then Some([])
    else
      var v, vs := Sem(cur, env), SemAll(cur.rh, env);
      if v.Some? && vs.Some? then Some([v.value] + vs.value) else None
  }

  function Count(cur: Node): nat { if cur.Nil? then 0 else 1 + Count(cur.rh) }

  // ---- Typing ----

  predicate Fits(v: Value, t: Type) {
    && (t == NUMBER ==> v.kind == Num)
    && (t == TEXT ==> v.kind == Str)
    && (t == BOOL && v.nl == Regular ==> v.kind == Num && v.num in {0, 1})
  }

  predicate Typed(n: Node, t: Type, env: Env)
    requires n.Node?
    decreases n, 0
  {
    if Leaf(n) then Fits(Fetch(n.src, env), t)
    else
      && n.arity == Count(n.dn)
      && (if n.code == AND || n.code == OR then t == BOOL && n.arity >= 2 && AllTyped(n.dn, BOOL, env)
          else if n.code == LIKE then t == BOOL && n.arity == 2 && AllTyped(n.dn, TEXT, env)
          else if IsComp(n.code)
          then t == BOOL && n.arity == 2 && (AllTyped(n.dn, NUMBER, env) || AllTyped(n.dn, TEXT, env))
          else if IsArithm(n.code) then t == NUMBER && n.arity >= 2 && AllTyped(n.dn, NUMBER, env)
          else
            && n.arity == 1
            && match n.code
               case NOT => t == BOOL && AllTyped(n.dn, BOOL, env)
               case ISNULL =>
                 t == BOOL && (AllTyped(n.dn, BOOL, env) || AllTyped(n.dn, NUMBER, env) || AllTyped(n.dn, TEXT, env))
               case ISNOTNULL =>
                 t == BOOL && (AllTyped(n.dn, BOOL, env) || AllTyped(n.dn, NUMBER, env) || AllTyped(n.dn, TEXT, env))
               case UMINUS => t == NUMBER && AllTyped(n.dn, NUMBER, env)
               case NOOP => AllTyped(n.dn, t, env)
               case _ => false)
  }

  predicate AllTyped(cur: Node, t: Type, env: Env)
    decreases cur, 1
  {
    cur.Node? ==> Typed(cur, t, env) && AllTyped(cur.rh, t, env)
  }

  // ---- The evaluator computes the meaning ----

  /** `r` is a value of type `t` that stands for `s`. */
  predicate Stands(r: Result<Value>, t: Type, s: Sql) {
    r.Ok? && r.value.nl != Unknown && Fits(r.value, t) && Abs(r.value) == s
  }

  function Logic(c: Code, vs: seq<Sql>): Sql {
    if c == AND then Conjunction(vs) else Disjunction(vs)
  }

  /** One more operand changes the value as the two tables say. */
  lemma LogicSnoc(c: Code, vs: seq<Sql>, p: Value, v: Value)
    requires (c == AND || c == OR) && Fits(p, BOOL) && Fits(v, BOOL) && Abs(p) == Logic(c, vs)
    ensures Stands(Binary(c, p, v), BOOL, Logic(c, vs + [Abs(v)]))
  {
    var ws := vs + [Abs(v)];
    assert ws[|vs|] == Abs(v);
    assert forall x :: x in ws <==> x in vs || x == Abs(v);
  }

  /** An operand that decides does so whatever comes after it. */
  lemma Decided(c: Code, vs: seq<Sql>, v: Value, ws: seq<Sql>)
    requires (c == AND || c == OR) && Fits(v, BOOL) && Decides(c, v)
    ensures Logic(c, vs + [Abs(v)] + ws) == Abs(v)
  {
    assert (vs + [Abs(v)] + ws)[|vs|] == Abs(v);
  }

  lemma Neutral(c: Code, vs: seq<Sql>, v: Value)
    requires (c == AND || c == OR) && Fits(v, BOOL)
    requires forall x :: x in vs ==> x == Logical(c == AND)
    ensures Logic(c, vs + [Abs(v)]) == Abs(v)
    ensures v.nl == Regular && !Decides(c, v) ==> forall x :: x in vs + [Abs(v)] ==> x == Logical(c == AND)
  {
    var ws := vs + [Abs(v)];
    assert ws[|vs|] == Abs(v);
    assert forall x :: x in ws <==> x in vs || x == Abs(v);
  }

  lemma SemAllStep(cur: Node, env: Env)
    requires cur.Node? && SemAll(cur, env).Some?
    ensures Sem(cur, env).Some? && SemAll(cur.rh, env).Some?
    ensures SemAll(cur, env).value == [Sem(cur, env).value] + SemAll(cur.rh, env).value
    ensures cur.rh.Nil? ==> SemAll(cur, env).value == [Sem(cur, env).value]
  {}

  lemma ArgsStep(c: Code, arity: int, acc: Option<Value>, cur: Node, v: Value, env: Env)
    requires cur.Node? && Run(cur, env) == Ok(v)
    ensures Args(c, arity, acc, cur, env) ==
            var s := AfterOperand(c, arity, acc, v, cur.rh.Node?);
            if s.Up? then s.result else Args(c, arity, s.acc, cur.rh, env)
  {
    hide AfterOperand;
  }

  /** AND and OR over the operands from `cur` on, when the ones before had the values `done`: either
      these were all neutral and were dropped, or their value is on the stack. */
  lemma {:induction false} LogicMeans(c: Code, arity: int, acc: Option<Value>, cur: Node, done: seq<Sql>, env: Env)
    requires (c == AND || c == OR) && arity != 1 && cur.Node? && AllTyped(cur, BOOL, env) && SemAll(cur, env).Some?
    requires acc.Some? ==> acc.value.nl != Unknown && Fits(acc.value, BOOL) && Abs(acc.value) == Logic(c, done)
    requires acc.None? ==> forall x :: x in done ==> x == Logical(c == AND)
    ensures Stands(Args(c, arity, acc, cur, env), BOOL, Logic(c, done + SemAll(cur, env).value))
    decreases cur, 1, 0
  {
    hide Meaning, Logic, Binary, Args, Run, Sem, SemAll, Typed, LikeValue;
    SemAllStep(cur, env);
    RunMeans(cur, BOOL, env);
    var v := Run(cur, env).value;
    var x, vs := Abs(v), SemAll(cur.rh, env).value;
    ArgsStep(c, arity, acc, cur, v, env);
    assert done + SemAll(cur, env).value == done + [x] + vs;
    assert cur.rh.Nil? ==> done + [x] + [] == done + [x];
    if acc.Some? {
      LogicSnoc(c, done, acc.value, v);
      if cur.rh.Node? {
        LogicMeans(c, arity, Some(Binary(c, acc.value, v).value), cur.rh, done + [x], env);
      }
    } else {
      Neutral(c, done, v);
      if Decides(c, v) {
        Decided(c, done, v, vs);
      } else if cur.rh.Node? {
        LogicMeans(c, arity, if v.nl == Regular then None else Some(v), cur.rh, done + [x], env);
      }
    }
  }

  lemma {:induction false} TotalMissing(c: Code, vs: seq<Sql>)
    requires IsArithm(c)
    ensures Total(c, Missing, vs) == Some(Missing)
    decreases |vs|
  {
    if vs != [] {
      TotalMissing(c, vs[1..]);
    }
  }

  lemma CombinedMeans(c: Code, p: Value, v: Value)
    requires IsArithm(c) && Fits(p, NUMBER) && Fits(v, NUMBER) && Combined(c, Abs(p), Abs(v)).Some?
    ensures Stands(Binary(c, p, v), NUMBER, Combined(c, Abs(p), Abs(v)).value)
  {
    hide Quotient, Divided;
    if v.num != 0 {
      QuotientIs(p.num, v.num);
    }
  }

  lemma TotalStep(c: Code, a: Sql, x: Sql, vs: seq<Sql>)
    requires IsArithm(c) && Total(c, a, [x] + vs).Some?
    ensures Combined(c, a, x).Some? && Total(c, a, [x] + vs) == Total(c, Combined(c, a, x).value, vs)
    ensures vs == [] ==> Total(c, a, [x] + vs) == Combined(c, a, x)
  {
    assert ([x] + vs)[1..] == vs;
  }

  /** Arithmetic from the operand `cur` on, with the value so far on the stack. */
  lemma {:induction false} ArithmeticRest(c: Code, arity: int, p: Value, cur: Node, env: Env)
    requires IsArithm(c) && arity != 1 && cur.Node? && AllTyped(cur, NUMBER, env) && SemAll(cur, env).Some?
    requires p.nl != Unknown && Fits(p, NUMBER) && Total(c, Abs(p), SemAll(cur, env).value).Some?
    ensures Stands(Args(c, arity, Some(p), cur, env), NUMBER, Total(c, Abs(p), SemAll(cur, env).value).value)
    decreases cur, 1
  {
    hide Meaning, Total, Combined, Binary, Args, Run, Sem, SemAll, Typed, LikeValue;
    SemAllStep(cur, env);
    RunMeans(cur, NUMBER, env);
    var v := Run(cur, env).value;
    ArgsStep(c, arity, Some(p), cur, v, env);
    TotalStep(c, Abs(p), Abs(v), if cur.rh.Nil? then [] else SemAll(cur.rh, env).value);
    assert cur.rh.Nil? ==> [Abs(v)] + [] == [Abs(v)];
    CombinedMeans(c, p, v);
    if cur.rh.Node? {
      ArithmeticRest(c, arity, Binary(c, p, v).value, cur.rh, env);
    }
  }

  lemma {:induction false} ArithmeticMeans(c: Code, arity: int, cur: Node, env: Env)
    requires IsArithm(c) && arity != 1 && cur.Node? && cur.rh.Node? && AllTyped(cur, NUMBER, env)
             && SemAll(cur, env).Some?
    requires Meaning(c, SemAll(cur, env).value).Some?
    ensures Stands(Args(c, arity, None, cur, env), NUMBER, Meaning(c, SemAll(cur, env).value).value)
    decreases cur, 2
  {
    hide Total, Combined, Binary, Args, Run, Sem, SemAll, Typed, LikeValue, Unary;
    SemAllStep(cur, env);
    RunMeans(cur, NUMBER, env);
    var v, vs := Run(cur, env).value, SemAll(cur.rh, env).value;
    ArgsStep(c, arity, None, cur, v, env);
    assert ([Abs(v)] + vs)[1..] == vs;
    if v.nl == Regular {
      ArithmeticRest(c, arity, v, cur.rh, env);
    } else {
      TotalMissing(c, vs);
    }
  }

  lemma OneValue(cur: Node, env: Env)
    requires cur.Node? && Count(cur) == 1 && SemAll(cur, env).Some?
    ensures cur.rh.Nil? && Sem(cur, env).Some? && SemAll(cur, env).value == [Sem(cur, env).value]
  {
    SemAllStep(cur, env);
  }

  lemma UnaryMeans(c: Code, v: Value, u: Type)
    requires v.nl != Unknown && Fits(v, u) && Meaning(c, [Abs(v)]).Some?
    requires c in {NOT, UMINUS, ISNULL, ISNOTNULL, NOOP} && (c == NOT ==> u == BOOL) && (c == UMINUS ==> u == NUMBER)
    ensures Stands(Unary(c, v), if c == UMINUS || c == NOOP then u else BOOL, Meaning(c, [Abs(v)]).value)
  {
    assert [Abs(v)][0] == Abs(v);
  }

  /** The operations with one operand. */
  lemma {:induction false} OneMeans(n: Node, t: Type, env: Env)
    requires n.Node? && !Leaf(n) && n.arity == 1 && Typed(n, t, env) && Sem(n, env).Some?
    ensures Stands(Run(n, env), t, Sem(n, env).value)
    decreases n, 0, 0
  {
    hide Meaning, Unary, Binary, LikeValue, Stands, Fits;
    var u := if n.code == NOT then BOOL else if n.code == UMINUS then NUMBER else if n.code == NOOP then t
             else if AllTyped(n.dn, BOOL, env) then BOOL else if AllTyped(n.dn, NUMBER, env) then NUMBER else TEXT;
    assert AllTyped(n.dn, u, env);
    OneValue(n.dn, env);
    RunMeans(n.dn, u, env);
    var v := Standing(n.dn, u, env);
    ArgsStep(n.code, 1, None, n.dn, v, env);
    UnaryMeans(n.code, v, u);
  }

  lemma Standing(n: Node, t: Type, env: Env) returns (v: Value)
    requires n.Node? && Sem(n, env).Some? && Stands(Run(n, env), t, Sem(n, env).value)
    ensures Run(n, env) == Ok(v) && v.nl != Unknown && Fits(v, t) && Abs(v) == Sem(n, env).value
  {
    v := Run(n, env).value;
  }

  lemma PairMeans(c: Code, p: Value, v: Value, u: Type)
    requires p.nl != Unknown && v.nl != Unknown && Fits(p, u) && Fits(v, u)
    requires if c == LIKE then u == TEXT else IsComp(c) && u != BOOL
    requires Meaning(c, [Abs(p), Abs(v)]).Some?
    ensures Stands(if c == LIKE then LikeValue(p, v) else Binary(c, p, v), BOOL, Meaning(c, [Abs(p), Abs(v)]).value)
    ensures IsComp(c) && p.nl != Regular ==> Meaning(c, [Abs(p), Abs(v)]) == Some(Missing)
  {
    hide Compare, Like.Match, Like.Tokens, Holds, NumbersRelate, TextsRelate;
    if IsComp(c) {
      HoldsNumbers(c, p.num, v.num);
      HoldsTexts(c, p.str, v.str);
    }
  }

  lemma TwoValues(cur: Node, env: Env)
    requires cur.Node? && Count(cur) == 2 && SemAll(cur, env).Some?
    ensures cur.rh.Node? && cur.rh.rh.Nil? && Sem(cur, env).Some? && Sem(cur.rh, env).Some?
    ensures SemAll(cur, env).value == [Sem(cur, env).value, Sem(cur.rh, env).value]
  {
    SemAllStep(cur, env);
    OneValue(cur.rh, env);
  }

  /** Comparisons and LIKE. */
  lemma {:induction false} TwoMeans(n: Node, t: Type, env: Env)
    requires n.Node? && !Leaf(n) && (n.code == LIKE || IsComp(n.code)) && Typed(n, t, env) && Sem(n, env).Some?
    ensures Stands(Run(n, env), t, Sem(n, env).value)
    decreases n, 0, 0
  {
    hide Meaning, Unary, Binary, LikeValue, Stands, Fits;
    var u := if n.code == LIKE || AllTyped(n.dn, TEXT, env) then TEXT else NUMBER;
    TwoValues(n.dn, env);
    RunMeans(n.dn, u, env);
    assert AllTyped(n.dn.rh, u, env);
    RunMeans(n.dn.rh, u, env);
    var p := Standing(n.dn, u, env);
    var v := Standing(n.dn.rh, u, env);
    ArgsStep(n.code, n.arity, None, n.dn, p, env);
    ArgsStep(n.code, n.arity, Some(p), n.dn.rh, v, env);
    PairMeans(n.code, p, v, u);
    if p.nl == Null {
      MissingStands(p);
    }
  }

  lemma MissingStands(v: Value)
    requires v.nl == Null
    ensures Stands(Ok(v), BOOL, Missing)
  {}

  /** Whenever every subtree of a well-typed tree has a value, the evaluator returns the value of the
      tree: dropping neutral operands and stopping early never change it. */
  lemma {:induction false} RunMeans(n: Node, t: Type, env: Env)
    requires n.Node? && Typed(n, t, env) && Sem(n, env).Some?
    ensures Stands(Run(n, env), t, Sem(n, env).value)
    decreases n, 0, 1
  {
    if Leaf(n) {
      return;
    }
    hide Meaning, Stands, Args;
    if n.code == AND || n.code == OR {
      LogicMeans(n.code, n.arity, None, n.dn, [], env);
      assert [] + SemAll(n.dn, env).value == SemAll(n.dn, env).value;
      MeaningLogic(n.code, SemAll(n.dn, env).value);
    } else if n.arity == 1 {
      OneMeans(n, t, env);
    } else if IsArithm(n.code) {
      assert Count(n.dn) == 1 + Count(n.dn.rh);
      ArithmeticMeans(n.code, n.arity, n.dn, env);
    } else {
      TwoMeans(n, t, env);
    }
  }

  lemma MeaningLogic(c: Code, vs: seq<Sql>)
    requires c == AND || c == OR
    ensures Meaning(c, vs) == Some(Logic(c, vs))
  {}
}
