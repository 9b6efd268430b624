/** Compiled queries: the commands of the interpreter, their layout in chunks of module memory, and the
    emission of nested scan loops. */
module Program {
  import opened Expressions
  import opened TableMasks
  import opened Options

  /** A condition that the scan of a table tests itself, on one column. */
  datatype Simple = NullTest(negated: bool) | ColumnTest(code: Code, expr: Node)

  /** An element of FROM: the base table, the place its current row goes to (which is also its bit in
      the masks), and the conditions of its scan, a list for each column. */
  datatype Table = Table(hole: int, base: int, list: seq<seq<Simple>>)

  datatype Kind = KOPSCAN | KFINDROW | KSetHandle | KUntil | KRetPar | KINSROW | KGoTo | KCLOSE | KEnd | KNextVmPiece

  datatype Cmd =
    | OPSCAN(scan: int, base: int, list: seq<seq<Simple>>, exit: int)
    | FINDROW(scan: int, exit: int)
    | SetHandle
    | Until(cond: Node, ret: int)
    | RetPar(outs: seq<Node>)   // of a cursor: the call ends after each row
    | INSROW(outs: seq<Node>)
    | GoTo(branch: int)
    | CLOSE(scan: int)
    | End
    | NextVmPiece
    | Reserved(kind: Kind)   // the code of a command whose structure is still to be filled in

  function KindOf(c: Cmd): Kind {
    match c
    case OPSCAN(_, _, _, _) => KOPSCAN
    case FINDROW(_, _) => KFINDROW
    case SetHandle => KSetHandle
    case Until(_, _) => KUntil
    case RetPar(_) => KRetPar
    case INSROW(_) => KINSROW
    case GoTo(_) => KGoTo
    case CLOSE(_) => KCLOSE
    case End => KEnd
    case NextVmPiece => KNextVmPiece
    case Reserved(k) => k
  }

  // Sizes with words and references of four bytes.
  const ENUM_SZ := 4
  const DELTA := 512
  const MIN_REST := 3 * 4 + 8
  /** Room for the code and structure of a GoTo and the code of next_vm_piece. */
  const LINK := ENUM_SZ + 8 + ENUM_SZ

  function Size(k: Kind): (n: nat)
    ensures n % 4 == 0 && n <= 48
  {
    match k
    case KOPSCAN => 48
    case KFINDROW => 20
    case KSetHandle => 16
    case KUntil => 12
    case KRetPar => 12
    case KINSROW => 24
    case KGoTo => 8
    case KCLOSE => 4
    case KEnd => 0
    case KNextVmPiece => 0
  }

  /** The bytes of a command with its code. */
  function Len(c: Cmd): nat { ENUM_SZ + Size(KindOf(c)) }

  type Memory = map<int, Cmd>

  /** From `a`, perhaps over the link to a new chunk, comes the command `c` at `f`, and then `b`. */
  ghost predicate At(mem: Memory, a: int, f: int, c: Cmd, b: int) {
    && (f == a || (a in mem && mem[a] == GoTo(f)))
    && f in mem && mem[f] == c && !c.Reserved? && b == f + Len(c)
  }

  /** Everything filled in stays. */
  ghost predicate Kept(m: Memory, m': Memory) {
    forall a :: a in m && !m[a].Reserved? ==> a in m' && m'[a] == m[a]
  }

  // ---- The conjuncts that go to each level ----

  datatype Level = Level(table: Table, cond: Option<Node>)

  /** The operands of an AND, linked to each other. */
  function Chain(cs: seq<Node>): Node
    requires forall c :: c in cs ==> c.Node?
  {
    if cs == [] then Nil else cs[0].(rh := Chain(cs[1..]))
  }

  /** The tree that the loop tests: none, the only conjunct, or their AND. */
  function UntilTree(cs: seq<Node>): (r: Option<Node>)
    requires forall c :: c in cs ==> c.Node?
    ensures r.Some? ==> r.value.Node?
  {
    if cs == [] then None
    else if |cs| == 1 then Some(cs[0].(rh := Nil))
    else Some(Node(AND, |cs|, Chain(cs), Nil, Const(HOLE)))
  }

  /** The conjuncts not used yet are Some; those whose tables are all in `all` can be used. */
  function Picked(ands: seq<Option<Node>>, masks: seq<set<int>>, all: set<int>): (r: seq<Node>)
    requires |ands| == |masks|
    ensures forall c :: c in r ==> Some(c) in ands
  {
    if ands == [] then []
    else
      var k := |ands| - 1;
      Picked(ands[..k], masks[..k], all) + if ands[k].Some? && CanBeUsed(masks[k], all) then [ands[k].value] else []
  }

  lemma PickedSnoc(ands: seq<Option<Node>>, masks: seq<set<int>>, all: set<int>, k: nat)
    requires |ands| == |masks| && k <= |ands|
    ensures k < |ands| ==>
              Picked(ands[..k + 1], masks[..k + 1], all) ==
                Picked(ands[..k], masks[..k], all)
                  + if ands[k].Some? && CanBeUsed(masks[k], all) then [ands[k].value] else []
    ensures k == 0 ==> Picked(ands[..k], masks[..k], all) == []
  {
    if k < |ands| {
      assert ands[..k + 1][..k] == ands[..k] && masks[..k + 1][..k] == masks[..k];
    }
  }

  function Unused(ands: seq<Option<Node>>, masks: seq<set<int>>, all: set<int>): (r: seq<Option<Node>>)
    requires |ands| == |masks|
    ensures |r| == |ands| && forall i :: 0 <= i < |r| ==> r[i] == if CanBeUsed(masks[i], all) then None else ands[i]
  {
    seq(|ands|, i requires 0 <= i < |ands| => if CanBeUsed(masks[i], all) then None else ands[i])
  }

  ghost predicate Trees(ands: seq<Option<Node>>) {
    forall i :: 0 <= i < |ands| && ands[i].Some? ==> ands[i].value.Node?
  }

  /** The levels of the nested loops, outermost first; `done` has the tables whose rows are there. */
  function Levels(tables: seq<Table>, ands: seq<Option<Node>>, masks: seq<set<int>>, done: set<int>): (r: seq<Level>)
    requires |ands| == |masks| && Trees(ands)
    ensures |r| == |tables|
    ensures forall i :: 0 <= i < |r| ==> r[i].table == tables[i] && (r[i].cond.Some? ==> r[i].cond.value.Node?)
    decreases |tables|
  {
    if tables == [] then []
    else
      var all := done + {tables[0].hole};
      [Level(tables[0], UntilTree(Picked(ands, masks, all)))]
      + Levels(tables[1..], Unused(ands, masks, all), masks, all)
  }

  /** The conjuncts that are left when all tables are handled. */
  function Rest(tables: seq<Table>, ands: seq<Option<Node>>, masks: seq<set<int>>,
                done: set<int>): (r: seq<Option<Node>>)
    requires |ands| == |masks|
    ensures |r| == |ands|
    decreases |tables|
  {
    if tables == [] then ands
    else
      var all := done + {tables[0].hole};
      Rest(tables[1..], Unused(ands, masks, all), masks, all)
  }

  /** The places of rows that a tree refers to. */
  function Deps(n: Node): set<int>
    decreases n, 0
  {
    if n.Nil? then {}
    else if Leaf(n) then if n.src.Column? then {n.src.table} else {}
    else DepsAll(n.dn)
  }

  function DepsAll(cur: Node): set<int>
    decreases cur, 1
  {
    if cur.Nil? then {} else Deps(cur) + DepsAll(cur.rh)
  }

  function Holes(tables: seq<Table>): set<int> {
    if tables == [] then {} else {tables[0].hole} + Holes(tables[1..])
  }

  function Masks(where: seq<Node>): (r: seq<set<int>>)
    ensures |r| == |where| && forall i :: 0 <= i < |r| ==> r[i] == Deps(where[i])
  {
    seq(|where|, i requires 0 <= i < |where| => Deps(where[i]))
  }

  function AllDeps(where: seq<Node>): set<int> {
    if where == [] then {} else AllDeps(where[..|where| - 1]) + Deps(where[|where| - 1])
  }

  function Ands(where: seq<Node>): (r: seq<Option<Node>>)
    ensures |r| == |where| && forall i :: 0 <= i < |r| ==> r[i] == Some(where[i])
  {
    seq(|where|, i requires 0 <= i < |where| => Some(where[i]))
  }

  /** The levels of a query; tables outside of it have their rows from the start. */
  function Plan(tables: seq<Table>, where: seq<Node>): seq<Level>
    requires forall n :: n in where ==> n.Node?
  {
    Levels(tables, Ands(where), Masks(where), AllDeps(where) - Holes(tables))
  }

  // ---- The shape of nested loops in memory ----

  /** Where the commands of the loops are; `x` is where the code of the inner part ends. */
  datatype Shape =
    | Body(f: int)
    | Loop(op: int, fr: int, sh: int, un: int, inner: Shape, x: int, gt: int, cl: int)

  /** The memory from `a` to `b` holds the loops of the levels around `body`. */
  ghost predicate Loops(mem: Memory, a: int, s: Shape, lv: seq<Level>, body: Cmd, b: int)
    decreases |lv|
  {
    if lv == [] then s.Body? && At(mem, a, s.f, body, b)
    else
      && s.Loop?
      && var t := lv[0].table;
         var opscan, findrow := OPSCAN(t.hole, t.base, t.list, b), FINDROW(t.hole, s.gt + Len(GoTo(s.fr)));
         && At(mem, a, s.op, opscan, s.op + Len(opscan))
         && At(mem, s.op + Len(opscan), s.fr, findrow, s.fr + Len(findrow))
         && At(mem, s.fr + Len(findrow), s.sh, SetHandle, s.sh + Len(SetHandle))
         && (lv[0].cond.Some? ==>
               At(mem, s.sh + Len(SetHandle), s.un, Until(lv[0].cond.value, s.fr),
                  s.un + Len(Until(lv[0].cond.value, s.fr))))
         && Loops(mem, InnerStart(s, lv[0]), s.inner, lv[1..], body, s.x)
         && At(mem, s.x, s.gt, GoTo(s.fr), s.gt + Len(GoTo(s.fr)))
         && At(mem, s.gt + Len(GoTo(s.fr)), s.cl, CLOSE(t.hole), b)
  }

  ghost function InnerStart(s: Shape, l: Level): int
    requires s.Loop?
  {
    if l.cond.Some? then s.un + Len(Until(l.cond.value, s.fr)) else s.sh + Len(SetHandle)
  }

  lemma {:induction false} LoopsKept(m: Memory, m': Memory, a: int, s: Shape, lv: seq<Level>, body: Cmd, b: int)
    requires Loops(m, a, s, lv, body, b) && Kept(m, m')
    ensures Loops(m', a, s, lv, body, b)
    decreases |lv|
  {
    if lv != [] {
      LoopsKept(m, m', InnerStart(s, lv[0]), s.inner, lv[1..], body, s.x);
    }
  }

  /** Everything there stays, whether filled in or not. */
  ghost predicate Grown(m: Memory, m': Memory) {
    forall a :: a in m ==> a in m' && m'[a] == m[a]
  }

  lemma GrownTrans(m: Memory, m': Memory, m'': Memory)
    requires Grown(m, m') && Grown(m', m'')
    ensures Grown(m, m'')
  {}

  lemma GrownKept(m: Memory, m': Memory)
    requires Grown(m, m')
    ensures Kept(m, m')
  {}

  ghost predicate Linked(mem: Memory, a: int, f: int) {
    f == a || (a in mem && mem[a] == GoTo(f))
  }

  /** The beginning of a loop, with the scan commands still to be filled in. */
  ghost predicate Head(mem: Memory, a: int, s: Shape, cond: Option<Node>) {
    && s.Loop? && s.op != s.fr
    && Linked(mem, a, s.op) && s.op in mem && mem[s.op] == Reserved(KOPSCAN)
    && var a1 := s.op + Len(Reserved(KOPSCAN));
       var a2 := s.fr + Len(Reserved(KFINDROW));
       && Linked(mem, a1, s.fr) && s.fr in mem && mem[s.fr] == Reserved(KFINDROW)
       && At(mem, a2, s.sh, SetHandle, s.sh + Len(SetHandle))
       && (cond.Some? ==>
             At(mem, s.sh + Len(SetHandle), s.un, Until(cond.value, s.fr), s.un + Len(Until(cond.value, s.fr))))
  }

  /** The end of a loop: back to its FINDROW, and the end of its scan. */
  ghost predicate Tail(mem: Memory, s: Shape, hole: int, b: int) {
    && s.Loop?
    && At(mem, s.x, s.gt, GoTo(s.fr), s.gt + Len(GoTo(s.fr)))
    && At(mem, s.gt + Len(GoTo(s.fr)), s.cl, CLOSE(hole), b)
  }

  lemma HeadGrown(m: Memory, m': Memory, a: int, s: Shape, s': Shape, cond: Option<Node>)
    requires Head(m, a, s, cond) && Grown(m, m')
    requires s'.Loop? && s'.op == s.op && s'.fr == s.fr && s'.sh == s.sh && s'.un == s.un
    ensures Head(m', a, s', cond)
  {}

  /** Filling in the scan commands completes the loop. */
  lemma Complete(m: Memory, m': Memory, a: int, s: Shape, lv: seq<Level>, body: Cmd, b: int)
    requires lv != [] && Head(m, a, s, lv[0].cond) && Tail(m, s, lv[0].table.hole, b)
    requires Loops(m, InnerStart(s, lv[0]), s.inner, lv[1..], body, s.x)
    requires Kept(m, m') && s.op in m' && s.fr in m'
    requires m'[s.op] == OPSCAN(lv[0].table.hole, lv[0].table.base, lv[0].table.list, b)
    requires m'[s.fr] == FINDROW(lv[0].table.hole, s.gt + Len(GoTo(s.fr)))
    ensures Loops(m', a, s, lv, body, b)
  {
    hide At, Linked, Kept, Len, Size;
    LoopsKept(m, m', InnerStart(s, lv[0]), s.inner, lv[1..], body, s.x);
    HeadKept(m, m', a, s, lv[0].cond, m'[s.op], m'[s.fr]);
    TailKept(m, m', s, lv[0].table.hole, b);
  }

  lemma HeadKept(m: Memory, m': Memory, a: int, s: Shape, cond: Option<Node>, opscan: Cmd, findrow: Cmd)
    requires Head(m, a, s, cond) && Kept(m, m') && s.op in m' && s.fr in m' && m'[s.op] == opscan && m'[s.fr] == findrow
    requires opscan.OPSCAN? && findrow.FINDROW?
    ensures At(m', a, s.op, opscan, s.op + Len(opscan))
    ensures At(m', s.op + Len(opscan), s.fr, findrow, s.fr + Len(findrow))
    ensures At(m', s.fr + Len(findrow), s.sh, SetHandle, s.sh + Len(SetHandle))
    ensures cond.Some? ==> At(m', s.sh + Len(SetHandle), s.un, Until(cond.value, s.fr),
                              s.un + Len(Until(cond.value, s.fr)))
  {
    hide At, Linked, Kept, Len, Size;
    var a1, a2, a3 := s.op + Len(Reserved(KOPSCAN)), s.fr + Len(Reserved(KFINDROW)), s.sh + Len(SetHandle);
    LinkedAt(m, m', a, s.op, opscan);
    LinkedAt(m, m', a1, s.fr, findrow);
    AtKept(m, m', a2, s.sh, SetHandle, a3);
    if cond.Some? {
      AtKept(m, m', a3, s.un, Until(cond.value, s.fr), s.un + Len(Until(cond.value, s.fr)));
    }
  }

  lemma TailKept(m: Memory, m': Memory, s: Shape, hole: int, b: int)
    requires Tail(m, s, hole, b) && Kept(m, m')
    ensures Tail(m', s, hole, b)
  {
    hide At, Kept, Len;
    AtKept(m, m', s.x, s.gt, GoTo(s.fr), s.gt + Len(GoTo(s.fr)));
    AtKept(m, m', s.gt + Len(GoTo(s.fr)), s.cl, CLOSE(hole), b);
  }

  lemma AtKept(m: Memory, m': Memory, a: int, f: int, c: Cmd, b: int)
    requires At(m, a, f, c, b) && Kept(m, m')
    ensures At(m', a, f, c, b)
  {}

  /** A command that is filled in where its code has been. */
  lemma LinkedAt(m: Memory, m': Memory, a: int, f: int, c: Cmd)
    requires Linked(m, a, f) && Kept(m, m') && f in m && m[f] == Reserved(KindOf(c)) && f in m' && m'[f] == c
             && !c.Reserved?
    ensures At(m', a, f, c, f + Len(c)) && Len(c) == Len(m[f])
  {}

  function AlignUp(n: int): (r: int)
    ensures r % 4 == 0 && n <= r < n + 4
  {
    if n % 4 == 0 then n else n + 4 - n % 4
  }

  lemma LenLink()
    ensures forall b :: Len(GoTo(b)) == 12
    ensures Len(NextVmPiece) == 4
  {}

  /** The query whose code starts at `begin`, and where its parts are. */
  datatype Compiled = Compiled(begin: int, tables: seq<Table>, where: seq<Node>, outs: seq<Node>, sh: Shape, x: int,
                               f: int, e: int)

  /** The memory holds the code of the query around `body`. */
  ghost predicate Emitted(c: Compiled, body: Cmd, mem: Memory) {
    && c.tables != [] && (forall n :: n in c.where ==> n.Node?)
    && Loops(mem, c.begin, c.sh, Plan(c.tables, c.where), body, c.x) && At(mem, c.x, c.f, End, c.e)
  }

  // ---- Emission ----

  class Module {
    var mem: Memory
    var curPg: int
    var maxPg: int
    var top: int   // nothing is allocated from here on

    /** The commands lie without overlap before the current place, and this is inside the chunk. */
    ghost predicate Sane()
      reads this
    {
      && curPg % 4 == 0 && curPg <= maxPg <= top
      && (forall a :: a in mem ==> a % 4 == 0 && a + Len(mem[a]) <= curPg)
      && (forall a, b :: a in mem && b in mem && a < b ==> a + Len(mem[a]) <= b)
    }

    /** There is always room to link the next chunk. */
    ghost predicate Valid()
      reads this
    {
      Sane() && curPg + LINK <= maxPg
    }

    constructor (start: int)
      requires start % 4 == 0
      ensures Valid() && mem == map[] && curPg == start
    {
      mem, curPg, maxPg, top := map[], start, start + DELTA, start + DELTA;
    }

    /** Writes a command at the current place and goes past it. */
    method Put(c: Cmd)
      requires Sane() && curPg + Len(c) <= maxPg
      modifies this`mem, this`curPg
      ensures Sane() && old(curPg) !in old(mem) && mem == old(mem)[old(curPg) := c] && curPg == old(curPg) + Len(c)
    {
      mem := mem[curPg := c];
      curPg := curPg + Len(c);
    }

    /** Puts a command at the current place, after a link to a new chunk if the rest of this one is too
        small for it. */
    method SetCommand(c: Cmd) returns (adr: int)
      requires Valid()
      modifies this
      ensures Valid() && Grown(old(mem), mem)
      ensures var f := adr - ENUM_SZ;
              && Linked(mem, old(curPg), f)
              && f in mem && mem[f] == c && f !in old(mem) && curPg == f + Len(c)
    {
      hide KindOf, Size;
      var comSize := Size(KindOf(c));
      LenLink();
      if maxPg - curPg < MIN_REST + comSize {
        var room: int := *;
        var newPg := AlignUp(top) + if room > 0 then 4 * room else 0;
        assert newPg >= top && newPg % 4 == 0;
        Put(GoTo(newPg));
        Put(NextVmPiece);
        assert curPg <= newPg;
        top := newPg + DELTA;
        curPg := newPg;
        maxPg := curPg + DELTA;
      }
      adr := curPg + ENUM_SZ;
      Put(c);
    }

    /** Fills in the structure of a command whose code is there. */
    method PlaceCmd(adr: int, c: Cmd)
      requires Valid() && adr - ENUM_SZ in mem && mem[adr - ENUM_SZ] == Reserved(KindOf(c))
      modifies this`mem
      ensures Valid() && mem == old(mem)[adr - ENUM_SZ := c] && Kept(old(mem), mem)
    {
      mem := mem[adr - ENUM_SZ := c];
    }

    /** Takes out the conjuncts whose tables are all in `all`. */
    method UntilConjuncts(ands: array<Option<Node>>, masks: seq<set<int>>, all: set<int>) returns (cs: seq<Node>)
      requires |masks| == ands.Length
      modifies ands
      ensures cs == Picked(old(ands[..]), masks, all) && ands[..] == Unused(old(ands[..]), masks, all)
    {
      hide Picked, CanBeUsed;
      ghost var was := ands[..];
      cs := [];
      PickedSnoc(was, masks, all, 0);
      var i := 0;
      while i < ands.Length
        invariant 0 <= i <= ands.Length
        invariant cs == Picked(was[..i], masks[..i], all)
        invariant forall k :: 0 <= k < i ==> ands[k] == if CanBeUsed(masks[k], all) then None else was[k]
        invariant forall k :: i <= k < ands.Length ==> ands[k] == was[k]
      {
        PickedSnoc(was, masks, all, i);
        if ands[i].Some? && CanBeUsed(masks[i], all) {
          cs := cs + [ands[i].value];
          ands[i] := None;
        }
        i := i + 1;
      }
      assert was[..i] == was && masks[..i] == masks;
      assert ands[..] == Unused(was, masks, all);
    }

    /** The commands at the head of a loop, up to the test of its conjuncts. */
    method OpenLoop(ands: array<Option<Node>>, masks: seq<set<int>>, all: set<int>)
      returns (cond: Option<Node>, op: int, fr: int, ghost s: Shape)
      requires Valid() && |masks| == ands.Length && Trees(ands[..])
      modifies this, ands
      ensures Valid() && Grown(old(mem), mem)
      ensures ands[..] == Unused(old(ands[..]), masks, all)
      ensures forall c :: c in Picked(old(ands[..]), masks, all) ==> c.Node?
      ensures cond == UntilTree(Picked(old(ands[..]), masks, all))
      ensures s.Loop? && Head(mem, old(curPg), s, cond) && s.op == op - ENUM_SZ && s.fr == fr - ENUM_SZ
      ensures s.op !in old(mem) && s.fr !in old(mem)
      ensures curPg == if cond.Some? then s.un + Len(Until(cond.value, s.fr)) else s.sh + Len(SetHandle)
    {
      hide Valid, Picked, Unused, UntilTree;
      op := SetCommand(Reserved(KOPSCAN));
      fr := SetCommand(Reserved(KFINDROW));
      var sh := SetCommand(SetHandle);
      var un := 0;
      var cs := UntilConjuncts(ands, masks, all);
      cond := UntilTree(cs);
      if cond.Some? {
        un := SetCommand(Until(cond.value, fr - ENUM_SZ));
      }
      s := Loop(op - ENUM_SZ, fr - ENUM_SZ, sh - ENUM_SZ, un - ENUM_SZ, Body(0), 0, 0, 0);
    }

    /** The commands at the end of a loop; `x` follows them. */
    method CloseLoop(hole: int, fr: int) returns (ex: int, ghost gt: int, ghost cl: int)
      requires Valid()
      modifies this
      ensures Valid() && Grown(old(mem), mem)
      ensures At(mem, old(curPg), gt, GoTo(fr - ENUM_SZ), ex) && At(mem, ex, cl, CLOSE(hole), curPg)
      ensures ex == gt + Len(GoTo(fr - ENUM_SZ))
    {
      hide Valid, Len;
      var g := SetCommand(GoTo(fr - ENUM_SZ));
      ex := curPg;
      var c := SetCommand(CLOSE(hole));
      gt, cl := g - ENUM_SZ, c - ENUM_SZ;
    }

    /** Emits the loops over `tables` around `body`; a conjunct goes to the first level at which all its
        tables have rows. */
    method ScanTable(tables: seq<Table>, ands: array<Option<Node>>, masks: seq<set<int>>, done: set<int>, body: Cmd)
      returns (ghost s: Shape)
      requires Valid() && tables != [] && |masks| == ands.Length && Trees(ands[..]) && !body.Reserved?
      modifies this, ands
      ensures Valid() && Grown(old(mem), mem)
      ensures Loops(mem, old(curPg), s, Levels(tables, old(ands[..]), masks, done), body, curPg)
      ensures ands[..] == Rest(tables, old(ands[..]), masks, done)
      decreases |tables|
    {
      hide Valid, Grown, Picked, Unused, Loops, Head, Tail, Levels, Rest, UntilTree, At, Len, Linked;
      var t, all := tables[0], done + {tables[0].hole};
      ghost var a, m0, lv := curPg, mem, Levels(tables, ands[..], masks, done);
      LevelsFirst(tables, ands[..], masks, done);
      var cond, op, fr, h := OpenLoop(ands, masks, all);
      ghost var m1, start, inner := mem, curPg, Body(0);
      if |tables| > 1 {
        inner := ScanTable(tables[1..], ands, masks, all, body);
      } else {
        var f := SetCommand(body);
        inner := Body(f - ENUM_SZ);
        LoopsBody(mem, start, f - ENUM_SZ, body);
        assert tables[1..] == [];
      }
      ghost var m2, x := mem, curPg;
      var ex, gt, cl := CloseLoop(t.hole, fr);
      var exOp := curPg;
      ghost var m3 := mem;
      s := Loop(h.op, h.fr, h.sh, h.un, inner, x, gt, cl);
      GrownTrans(m1, m2, m3);
      GrownTrans(m0, m1, m3);
      HeadGrown(m1, m3, a, h, s, cond);
      GrownKept(m2, m3);
      LoopsKept(m2, m3, start, inner, lv[1..], body, x);
      assert InnerStart(s, lv[0]) == start;
      TailMade(m3, s, t.hole, exOp);
      HeadReserved(m3, a, s, cond);
      PlaceCmd(op, OPSCAN(t.hole, t.base, t.list, exOp));
      PlaceCmd(fr, FINDROW(t.hole, ex));
      Placed(m0, m3, s.op, OPSCAN(t.hole, t.base, t.list, exOp), s.fr, FINDROW(t.hole, ex));
      Complete(m3, mem, a, s, lv, body, exOp);
    }

    /** The conjuncts of WHERE, the places each refers to, and all of these together. */
    static method Conjuncts(where: seq<Node>)
      returns (ands: array<Option<Node>>, masks: seq<set<int>>, allTrDep: set<int>)
      ensures fresh(ands) && ands[..] == Ands(where) && masks == Masks(where) && allTrDep == AllDeps(where)
    {
      hide Deps, AllDeps;
      ands := new Option<Node>[|where|](_ => None);
      var i := 0;
      masks, allTrDep := [], {};
      AllDepsStep(where, 0);
      while i < |where|
        invariant 0 <= i <= |where| == ands.Length && |masks| == i
        invariant allTrDep == AllDeps(where[..i])
        invariant forall j :: 0 <= j < i ==> ands[j] == Some(where[j]) && masks[j] == Deps(where[j])
      {
        AllDepsStep(where, i);
        ands[i] := Some(where[i]);
        masks := masks + [Deps(where[i])];
        allTrDep := allTrDep + masks[i];
        i := i + 1;
      }
      assert where[..i] == where && ands[..] == Ands(where) && masks == Masks(where);
    }

    /** Compiles a query: its conjuncts with their masks, the loops and the end of the procedure. */
    method Query(tables: seq<Table>, where: seq<Node>, body: Cmd)
      returns (begin: int, ghost s: Shape, ghost x: int, ghost f: int)
      requires Valid() && tables != [] && (forall n :: n in where ==> n.Node?) && !body.Reserved?
      modifies this
      ensures Valid() && Grown(old(mem), mem) && begin == old(curPg)
      ensures Loops(mem, begin, s, Plan(tables, where), body, x) && At(mem, x, f, End, curPg)
    {
      hide Valid, Grown, Loops, Levels, Rest, Deps, Holes, AllDeps, Len;
      begin := curPg;
      var allMsk, k := {}, |tables|;
      HolesEnd(tables);
      while k > 0
        modifies {}
        invariant 0 <= k <= |tables| && allMsk == Holes(tables[k..])
      {
        k := k - 1;
        HolesStep(tables, k);
        allMsk := {tables[k].hole} + allMsk;
      }
      assert tables[0..] == tables;
      var ands, masks, allTrDep := Conjuncts(where);
      assert |masks| == |ands[..]| && Trees(ands[..]);
      s := ScanTable(tables, ands, masks, allTrDep - allMsk, body);
      ghost var m := mem;
      x := curPg;
      var e := SetCommand(End);
      f := e - ENUM_SZ;
      GrownTrans(old(mem), m, mem);
      LoopsGrown(m, mem, begin, s, Plan(tables, where), body, x);
    }
  }

  lemma HolesEnd(tables: seq<Table>)
    ensures Holes(tables[|tables|..]) == {}
  {}

  lemma HolesStep(tables: seq<Table>, k: nat)
    requires k < |tables|
    ensures Holes(tables[k..]) == {tables[k].hole} + Holes(tables[k + 1..])
  {
    assert tables[k..][1..] == tables[k + 1..];
  }

  lemma AllDepsStep(where: seq<Node>, k: nat)
    requires k <= |where|
    ensures k == 0 ==> AllDeps(where[..k]) == {}
    ensures k < |where| ==> AllDeps(where[..k + 1]) == AllDeps(where[..k]) + Deps(where[k])
  {
    if k < |where| {
      assert where[..k + 1][..k] == where[..k];
    }
  }

  lemma LoopsGrown(m: Memory, m': Memory, a: int, s: Shape, lv: seq<Level>, body: Cmd, b: int)
    requires Loops(m, a, s, lv, body, b) && Grown(m, m')
    ensures Loops(m', a, s, lv, body, b)
  {
    GrownKept(m, m');
    LoopsKept(m, m', a, s, lv, body, b);
  }

  lemma LevelsFirst(tables: seq<Table>, ands: seq<Option<Node>>, masks: seq<set<int>>, done: set<int>)
    requires |ands| == |masks| && Trees(ands) && tables != []
    ensures var all := done + {tables[0].hole};
            var us := Unused(ands, masks, all);
            && Trees(us)
            && (forall c :: c in Picked(ands, masks, all) ==> c.Node?)
            && Levels(tables, ands, masks, done)
               == [Level(tables[0], UntilTree(Picked(ands, masks, all)))] + Levels(tables[1..], us, masks, all)
            && Levels(tables, ands, masks, done)[1..] == Levels(tables[1..], us, masks, all)
            && Rest(tables, ands, masks, done) == Rest(tables[1..], us, masks, all)
            && (|tables| == 1 ==> Levels(tables[1..], us, masks, all) == [] && Rest(tables[1..], us, masks, all) == us)
  {}

  lemma LoopsBody(mem: Memory, a: int, f: int, body: Cmd)
    requires Linked(mem, a, f) && f in mem && mem[f] == body && !body.Reserved?
    ensures Loops(mem, a, Body(f), [], body, f + Len(body))
  {}

  lemma TailMade(mem: Memory, s: Shape, hole: int, b: int)
    requires s.Loop? && At(mem, s.x, s.gt, GoTo(s.fr), s.gt + Len(GoTo(s.fr)))
             && At(mem, s.gt + Len(GoTo(s.fr)), s.cl, CLOSE(hole), b)
    ensures Tail(mem, s, hole, b)
  {}

  lemma HeadReserved(mem: Memory, a: int, s: Shape, cond: Option<Node>)
    requires Head(mem, a, s, cond)
    ensures s.op in mem && mem[s.op] == Reserved(KOPSCAN) && s.fr in mem && mem[s.fr] == Reserved(KFINDROW)
            && s.op != s.fr
  {}

  lemma Placed(m0: Memory, m: Memory, f: int, c: Cmd, g: int, d: Cmd)
    requires Grown(m0, m) && f !in m0 && g !in m0
    requires f in m && g in m && m[f].Reserved? && m[g].Reserved?
    ensures Grown(m0, m[f := c][g := d]) && Kept(m, m[f := c][g := d])
  {}
}
