/** A SELECT from its conjuncts to its rows: compiled, opened as a cursor and fetched to the end. */
module Statement {
  import opened Expressions
  import opened Program
  import opened Interp
  import opened Answers
  import opened Joins
  import opened Cursor

  /** Compiles the query and fetches all its rows: they are its answer. */
  method SelectAll(tables: seq<Table>, where: seq<Node>, outs: seq<Node>, db: Database, env: Env, ghost cand: Database,
                   ghost known: set<int>)
    returns (rows: seq<Row>)
    requires QuerySound(tables, where, outs, cand, db, known) && Chosen(env, cand, known)
    ensures rows == Answer(tables, where, outs, db, env)
  {
    hide Loops, At, Steps, Ordered, Nested, LevelsOk, AllSound, Results, Answers.Product, Levels, Chosen, Holes,
         AllDeps, Deps, AlwaysSound;
    QueryAllSound(tables, where, outs, cand, db, known);
    LevelsReady(tables, Ands(where), Masks(where), External(where, tables), outs, known);
    NestedMeans(tables, Ands(where), Masks(where), External(where, tables), outs, cand, db, known, env);
    var m := new Module(0);
    var begin, s, x, f := m.Query(tables, where, RetPar(outs));
    ghost var c := Compiled(begin, tables, where, outs, s, x, f, m.curPg);
    var it := new Interpreter(m.mem, db, env);
    var cursor := new CursorHeader(it, begin);
    var err := cursor.Open(c, known);
    rows := cursor.FetchAll();
  }
}
