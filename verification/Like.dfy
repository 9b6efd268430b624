/** The LIKE predicate: the matcher with its mutual loop and recursion, and what it decides. */
module Like {
  import opened Concatenation
  import opened Options

  /** A pattern element: `%`, `_`, or a character to be met as it stands. The last one is what an
      escape character at the end of the pattern amounts to: nothing fits it. */
  datatype Token = Any | One | Lit(c: char) | Never

  /** The elements of the pattern `y` in the order the matcher looks at them: `%` and `_` first,
      only then the escape character. `None` stands for LIKE without ESCAPE. */
  function Tokens(y: string, escape: Option<char>): seq<Token> {
    if y == [] then []
    else if y[0] == '%' then [Any] + Tokens(y[1..], escape)
    else if y[0] == '_' then [One] + Tokens(y[1..], escape)
    else if escape == Some(y[0]) then
      if |y| == 1 then [Never] else [Lit(y[1])] + Tokens(y[2..], escape)
    else [Lit(y[0])] + Tokens(y[1..], escape)
  }

  /** A pattern element stands for the piece `s` of the string. */
  predicate Fits(t: Token, s: string) {
    match t
    case Any => true
    case One => |s| == 1
    case Lit(c) => s == [c]
    case Never => false
  }

  predicate AllFit(ts: seq<Token>, ss: seq<string>) {
    |ss| == |ts| && forall i :: 0 <= i < |ts| ==> Fits(ts[i], ss[i])
  }

  /** The string can be cut into one piece for each pattern element. */
  ghost predicate Partitioned(x: string, ts: seq<Token>) {
    exists ss: seq<string> :: Concat(ss) == x && AllFit(ts, ss)
  }

  /** The first element decides how much of the string may be taken. */
  predicate Match(x: string, ts: seq<Token>)
    decreases |ts|, |x|
  {
    if ts == [] then x == []
    else if ts[0] == Any then Match(x, ts[1..]) || (x != [] && Match(x[1..], ts))
    else x != [] && Fits(ts[0], x[..1]) && Match(x[1..], ts[1..])
  }

  lemma {:induction false} MatchPartitions(x: string, ts: seq<Token>)
    requires Match(x, ts)
    ensures Partitioned(x, ts)
    decreases |ts|, |x|
  {
    if ts == [] {
      var ss: seq<string> := [];
      assert Concat(ss) == x;
    } else if ts[0] == Any && !Match(x, ts[1..]) {
      MatchPartitions(x[1..], ts);
      var ss: seq<string> :| Concat(ss) == x[1..] && AllFit(ts, ss);
      ExtendFirst(x, ts, ss);
    } else {
      var p := if ts[0] == Any then "" else x[..1];
      MatchPartitions(x[|p|..], ts[1..]);
      var ss: seq<string> :| Concat(ss) == x[|p|..] && AllFit(ts[1..], ss);
      Extend(x, ts, [p] + ss);
    }
  }

  /** A `%` that already takes `ss[0]` takes one character more. */
  lemma ExtendFirst(x: string, ts: seq<Token>, ss: seq<string>)
    requires ts != [] && x != [] && Concat(ss) == x[1..] && ts[0] == Any && AllFit(ts, ss)
    ensures Partitioned(x, ts)
  {
    hide Concat;
    var first, rest := ss[0], ss[1..];
    assert ss == [first] + rest;
    ConcatFront(first, rest);
    assert x == [x[0]] + x[1..] == ([x[0]] + first) + Concat(rest);
    Extend(x, ts, [[x[0]] + first] + rest);
  }

  lemma Extend(x: string, ts: seq<Token>, ss: seq<string>)
    requires |ss| == |ts| > 0 && ss[0] + Concat(ss[1..]) == x
    requires Fits(ts[0], ss[0]) && forall i :: 0 < i < |ts| ==> Fits(ts[i], ss[i])
    ensures Partitioned(x, ts)
  {
    ConcatFront(ss[0], ss[1..]);
    assert ss == [ss[0]] + ss[1..];
  }

  lemma {:induction false} PartitionMatches(x: string, ts: seq<Token>, ss: seq<string>)
    requires Concat(ss) == x && AllFit(ts, ss)
    ensures Match(x, ts)
    decreases |ts|, |x|
  {
    if ts != [] {
      hide Concat;
      var rest := ss[1..];
      ConcatFront(ss[0], rest);
      assert ss == [ss[0]] + rest;
      if ts[0] == Any && ss[0] != [] {
        var shorter := [ss[0][1..]] + rest;
        ConcatFront(ss[0][1..], rest);
        assert x[1..] == ss[0][1..] + Concat(rest) == Concat(shorter);
        PartitionMatches(x[1..], ts, shorter);
      } else {
        assert x[|ss[0]|..] == Concat(rest);
        PartitionMatches(x[|ss[0]|..], ts[1..], rest);
      }
    }
  }

  /** Matching decides whether the string can be cut along the pattern. */
  lemma MatchIffPartitioned(x: string, ts: seq<Token>)
    ensures Match(x, ts) <==> Partitioned(x, ts)
  {
    if Match(x, ts) {
      MatchPartitions(x, ts);
    }
    if Partitioned(x, ts) {
      var ss: seq<string> :| Concat(ss) == x && AllFit(ts, ss);
      PartitionMatches(x, ts, ss);
    }
  }

  /** One step of the matcher over an element other than `%`; `w` is the element's width. */
  lemma StepOther(x: string, y: string, escape: Option<char>, w: nat)
    requires x != [] && y != [] && y[0] != '%' && w == (if y[0] != '_' && escape == Some(y[0]) then 2 else 1)
    ensures w <= |y| ==>
              (Match(x, Tokens(y, escape))
               <==> (y[0] == '_' || x[0] == y[w - 1]) && Match(x[1..], Tokens(y[w..], escape)))
    ensures w > |y| ==> !Match(x, Tokens(y, escape))
  {
    var ts := Tokens(y, escape);
    assert w <= |y| ==> ts[1..] == Tokens(y[w..], escape);
  }

  /** A `%` takes nothing, or one character and then more. */
  lemma StepAny(x: string, y: string, escape: Option<char>)
    requires y != [] && y[0] == '%'
    ensures Match(x, Tokens(y, escape)) <==>
              Match(x, Tokens(y[1..], escape)) || (x != [] && Match(x[1..], Tokens(y, escape)))
  {
    assert Tokens(y, escape)[1..] == Tokens(y[1..], escape);
  }

  lemma AtEnd(x: string, y: string, escape: Option<char>)
    requires x == [] || y == []
    requires y != [] ==> y[0] != '%'
    ensures Match(x, Tokens(y, escape)) <==> x == [] && y == []
  {}

  /** The matcher, on strings without their closing NUL. */
  method EvalLike(x: string, y: string, escape: Option<char>) returns (r: bool)
    ensures r <==> Match(x, Tokens(y, escape))
    decreases |y|, |x|
  {
    hide Match, Tokens;
    var px, py := 0, 0;
    while (px < |x| && py < |y|) || (py < |y| && y[py] == '%')
      invariant px <= |x| && py <= |y|
      invariant Match(x, Tokens(y, escape)) <==> Match(x[px..], Tokens(y[py..], escape))
      decreases |y| - py
    {
      if y[py] == '%' {
        ghost var z := y[py..];
        py := py + 1;
        assert z[1..] == y[py..];
        while true
          invariant px <= |x|
          invariant Match(x, Tokens(y, escape)) <==> Match(x[px..], Tokens(z, escape))
          decreases |x| - px
        {
          StepAny(x[px..], z, escape);
          var m := EvalLike(x[px..], y[py..], escape);
          if m {
            return true;
          }
          if px == |x| {
            return false;
          }
          assert x[px..][1..] == x[px + 1..];
          px := px + 1;
        }
      }
      ghost var w := if y[py] != '_' && escape == Some(y[py]) then 2 else 1;
      StepOther(x[px..], y[py..], escape, w);
      assert py + w <= |y| ==> y[py..][w..] == y[py + w..];
      assert x[px..][1..] == x[px + 1..];
      if y[py] != '_' {
        if escape == Some(y[py]) {
          py := py + 1;
        }
        if py == |y| || x[px] != y[py] {
          return false;
        }
      }
      px := px + 1;
      py := py + 1;
    }
    AtEnd(x[px..], y[py..], escape);
    r := px == |x| && py == |y|;
  }

  /** The piece `q` of a pattern is one element of it, and the piece `s` of the string fits it: `%` is met by
      anything, `_` by one character, and a character, or one behind the escape character, by itself. */
  predicate Meets(q: string, s: string, escape: Option<char>) {
    if q == "%" then true
    else if q == "_" then |s| == 1
    else if |q| == 1 then escape != Some(q[0]) && s == q
    else |q| == 2 && q[0] !in "%_" && escape == Some(q[0]) && s == q[1..]
  }

  /** String and pattern can be cut into equally many pieces that meet one by one. */
  ghost predicate Paired(x: string, y: string, escape: Option<char>, qs: seq<string>, ss: seq<string>) {
    |qs| == |ss| && Concat(qs) == y && Concat(ss) == x && forall i :: 0 <= i < |qs| ==> Meets(qs[i], ss[i], escape)
  }

  lemma AllFitTail(ts: seq<Token>, ss: seq<string>)
    requires AllFit(ts, ss) && ss != []
    ensures AllFit(ts[1..], ss[1..]) && ss == [ss[0]] + ss[1..]
  {}

  lemma AllFitFront(ts: seq<Token>, ss: seq<string>)
    requires ts != [] && ss != [] && Fits(ts[0], ss[0]) && AllFit(ts[1..], ss[1..])
    ensures AllFit(ts, ss)
  {
    assert forall i :: 0 < i < |ss| ==> ts[i] == ts[1..][i - 1] && ss[i] == ss[1..][i - 1];
  }

  lemma FirstPiece(y: string, s: string, escape: Option<char>) returns (w: nat)
    requires y != [] && Fits(Tokens(y, escape)[0], s)
    ensures 0 < w <= |y| && Meets(y[..w], s, escape) && Tokens(y, escape)[1..] == Tokens(y[w..], escape)
    ensures y == y[..w] + y[w..]
  {
    w := if y[0] !in "%_" && escape == Some(y[0]) then 2 else 1;
  }

  lemma PairedFront(q: string, s: string, x: string, z: string, escape: Option<char>, qs: seq<string>, ss: seq<string>)
    requires Meets(q, s, escape) && Paired(x, z, escape, qs, ss)
    ensures Paired(s + x, q + z, escape, [q] + qs, [s] + ss)
  {
    hide Concat, Meets;
    ConcatFront(q, qs);
    ConcatFront(s, ss);
  }

  lemma {:induction false} ElementsOf(y: string, escape: Option<char>, ts: seq<Token>, ss: seq<string>)
    returns (qs: seq<string>)
    requires ts == Tokens(y, escape) && AllFit(ts, ss)
    ensures Paired(Concat(ss), y, escape, qs, ss)
    decreases |y|
  {
    qs := [];
    if y != [] {
      var w := FirstPiece(y, ss[0], escape);
      hide *;
      AllFitTail(ts, ss);
      var rest := ElementsOf(y[w..], escape, ts[1..], ss[1..]);
      qs := [y[..w]] + rest;
      PairedFront(y[..w], ss[0], Concat(ss[1..]), y[w..], escape, rest, ss[1..]);
      ConcatFront(ss[0], ss[1..]);
    }
  }

  lemma FirstElement(q: string, z: string, s: string, escape: Option<char>)
    requires Meets(q, s, escape)
    ensures var ts := Tokens(q + z, escape); ts != [] && Fits(ts[0], s) && ts[1..] == Tokens(z, escape)
  {
    assert (q + z)[|q|..] == z;
  }

  lemma {:induction false} PiecesFit(x: string, y: string, escape: Option<char>, qs: seq<string>, ss: seq<string>)
    requires Paired(x, y, escape, qs, ss)
    ensures AllFit(Tokens(y, escape), ss)
    decreases |qs|
  {
    if qs != [] {
      hide Tokens, Meets, Fits, Concat, AllFit;
      var z := Concat(qs[1..]);
      assert qs == [qs[0]] + qs[1..];
      ConcatFront(qs[0], qs[1..]);
      FirstElement(qs[0], z, ss[0], escape);
      PiecesFit(Concat(ss[1..]), z, escape, qs[1..], ss[1..]);
      AllFitFront(Tokens(y, escape), ss);
    }
  }

  /** What LIKE decides, in the characters of the pattern. */
  lemma LikeIff(x: string, y: string, escape: Option<char>)
    ensures Match(x, Tokens(y, escape)) <==> exists qs, ss :: Paired(x, y, escape, qs, ss)
  {
    var ts := Tokens(y, escape);
    MatchIffPartitioned(x, ts);
    if Partitioned(x, ts) {
      var ss: seq<string> :| Concat(ss) == x && AllFit(ts, ss);
      var qs := ElementsOf(y, escape, ts, ss);
    }
    if qs, ss :| Paired(x, y, escape, qs, ss) {
      PiecesFit(x, y, escape, qs, ss);
      assert Concat(ss) == x && AllFit(ts, ss);
    }
  }

  /** The elements of a pattern as SQL-92 section 8.5 reads it: the escape character comes first and
      has to be followed by `%`, `_` or itself. */
  function StandardTokens(y: string, escape: Option<char>): Option<seq<Token>> {
    if y == [] then Some([])
    else if escape == Some(y[0]) then
      if |y| > 1 && (y[1] == '%' || y[1] == '_' || y[1] == y[0])
      then Prepend(Lit(y[1]), StandardTokens(y[2..], escape)) else None
    else Prepend(if y[0] == '%' then Any else if y[0] == '_' then One else Lit(y[0]), StandardTokens(y[1..], escape))
  }

  function Prepend(t: Token, ts: Option<seq<Token>>): Option<seq<Token>> {
    if ts.None? then None else Some([t] + ts.value)
  }

  lemma {:induction false} EscapeAgrees(y: string, escape: Option<char>)
    requires escape != Some('%') && escape != Some('_')
    ensures StandardTokens(y, escape).Some? ==> StandardTokens(y, escape).value == Tokens(y, escape)
  {
    if y != [] {
      EscapeAgrees(y[1..], escape);
      if |y| > 1 {
        EscapeAgrees(y[2..], escape);
      }
    }
  }

  /** The matcher reads all standard patterns as the standard does exactly when the escape character
      is neither `%` nor `_`. */
  lemma EscapeStandardIff(escape: Option<char>)
    ensures (forall y: string ::
               StandardTokens(y, escape).Some? ==> StandardTokens(y, escape).value == Tokens(y, escape))
            <==> escape != Some('%') && escape != Some('_')
  {
    if escape == Some('%') || escape == Some('_') {
      var y := [escape.value, escape.value];
      assert y[2..] == [];
      assert StandardTokens(y, escape) == Prepend(Lit(escape.value), StandardTokens(y[2..], escape));
      var none: seq<Token> := [];
      assert [Lit(escape.value)] + none == [Lit(escape.value)];
      assert Tokens(y, escape) != [Lit(escape.value)];
    } else {
      forall y: string
        ensures StandardTokens(y, escape).Some? ==> StandardTokens(y, escape).value == Tokens(y, escape) {
        EscapeAgrees(y, escape);
      }
    }
  }

  // ---- Patterns that the standard does not allow ----

  /** From `i` to `j` there are only escape characters, and none just before or behind. */
  predicate Run(y: string, e: char, i: nat, j: nat) {
    && i < j <= |y| && (forall k :: i <= k < j ==> y[k] == e)
    && (i == 0 || y[i - 1] != e) && (j == |y| || y[j] != e)
  }

  /** An odd number of escape characters, so that the last one is to change the meaning of what follows,
      and what follows is the end or an ordinary character. */
  predicate OddRun(y: string, e: char, i: nat, j: nat) {
    Run(y, e, i, j) && (j - i) % 2 == 1 && (j == |y| || (y[j] != '%' && y[j] != '_'))
  }

  ghost predicate HasOddRun(y: string, e: char) { exists i: nat, j: nat :: OddRun(y, e, i, j) }

  ghost predicate EndsOdd(y: string, e: char) { exists i: nat :: OddRun(y, e, i, |y|) }

  /** The runs of a pattern behind its first character or two. */
  lemma OddRunShift(y: string, e: char, w: nat)
    requires 0 < w <= |y| && w <= 2 && y[w - 1] != e
    ensures forall i: nat, j: nat :: OddRun(y[w..], e, i, j) <==> OddRun(y, e, i + w, j + w)
    ensures forall i: nat, j: nat :: OddRun(y, e, i, j) && i >= w ==> OddRun(y[w..], e, i - w, j - w)
  {
    var z := y[w..];
    forall i: nat, j: nat
      ensures OddRun(z, e, i, j) <==> OddRun(y, e, i + w, j + w)
    {
      if i < j <= |z| {
        assert forall k :: i <= k < j ==> z[k] == y[k + w];
        assert forall k :: i + w <= k < j + w ==> y[k] == z[k - w];
      }
    }
    forall i: nat, j: nat | OddRun(y, e, i, j) && i >= w
      ensures OddRun(z, e, i - w, j - w)
    {
      assert OddRun(y, e, (i - w) + w, (j - w) + w);
    }
  }

  /** Two escape characters at the front stand for one character and leave the parity of their run. */
  lemma OddRunPair(y: string, e: char)
    requires |y| >= 2 && y[0] == y[1] == e
    ensures HasOddRun(y[2..], e) <==> HasOddRun(y, e)
  {
    var z := y[2..];
    if i: nat, j: nat :| OddRun(z, e, i, j) {
      assert forall k :: i <= k < j ==> z[k] == y[k + 2];
      assert forall k :: i + 2 <= k < j + 2 ==> y[k] == z[k - 2];
      if i == 0 {
        assert OddRun(y, e, 0, j + 2);
      } else {
        assert OddRun(y, e, i + 2, j + 2);
      }
    }
    if i: nat, j: nat :| OddRun(y, e, i, j) {
      assert j > 2 by {
        if i == 0 {
          assert y[1] == e;
        } else {
          assert y[i] == e && y[i - 1] != e;
        }
      }
      assert i == 0 || i > 2;
      assert forall k :: 0 <= k < |z| ==> z[k] == y[k + 2];
      assert OddRun(z, e, if i == 0 then 0 else i - 2, j - 2);
    }
  }

  /** The standard does not allow a pattern if and only if an odd number of escape characters precedes its
      end or an ordinary character. */
  lemma {:induction false} NotAllowedIff(y: string, e: char)
    requires e != '%' && e != '_'
    ensures StandardTokens(y, Some(e)).None? <==> HasOddRun(y, e)
    decreases |y|
  {
    if y == [] {
    } else if y[0] != e {
      NotAllowedIff(y[1..], e);
      OddRunShift(y, e, 1);
      assert forall i: nat, j: nat :: OddRun(y, e, i, j) ==> i >= 1;
      OddRunMoved(y, e, 1);
    } else if |y| == 1 {
      assert OddRun(y, e, 0, 1);
    } else if y[1] == e {
      NotAllowedIff(y[2..], e);
      OddRunPair(y, e);
    } else if y[1] == '%' || y[1] == '_' {
      NotAllowedIff(y[2..], e);
      OddRunShift(y, e, 2);
      forall i: nat, j: nat | OddRun(y, e, i, j)
        ensures i >= 2
      {
        assert i == 0 ==> j == 1;
      }
      OddRunMoved(y, e, 2);
    } else {
      assert OddRun(y, e, 0, 1);
    }
  }

  lemma OddRunMoved(y: string, e: char, w: nat)
    requires 0 < w <= |y| && w <= 2 && y[w - 1] != e && forall i: nat, j: nat :: OddRun(y, e, i, j) ==> i >= w
    ensures HasOddRun(y[w..], e) <==> HasOddRun(y, e)
  {
    OddRunShift(y, e, w);
    if i: nat, j: nat :| OddRun(y[w..], e, i, j) {
      assert OddRun(y, e, i + w, j + w);
    }
    if i: nat, j: nat :| OddRun(y, e, i, j) {
      assert OddRun(y[w..], e, i - w, j - w);
    }
  }

  /** A string that the elements fit, if they fit any. */
  function Sample(ts: seq<Token>): string {
    if ts == [] then []
    else (match ts[0] case Lit(c) => [c] case One => "a" case _ => "") + Sample(ts[1..])
  }

  lemma {:induction false} MatchesSome(ts: seq<Token>, x: string)
    ensures Never in ts ==> !Match(x, ts)
    ensures Never !in ts ==> Match(Sample(ts), ts)
    decreases |ts|, |x|
  {
    if ts != [] {
      MatchesSome(ts[1..], x);
      if x != [] {
        MatchesSome(ts[1..], x[1..]);
        if ts[0] == Any {
          MatchesSome(ts, x[1..]);
        }
      }
      var w := if ts[0] == Any || ts[0] == Never then 0 else 1;
      assert Sample(ts)[w..] == Sample(ts[1..]);
    }
  }

  /** The matcher goes on where the standard stops: an escape character before an ordinary character makes
      that character stand for itself; only with an odd number of them at the end does nothing match. */
  lemma {:induction false} NeverIff(y: string, e: char)
    requires e != '%' && e != '_'
    ensures Never in Tokens(y, Some(e)) <==> EndsOdd(y, e)
    decreases |y|
  {
    var ts := Tokens(y, Some(e));
    if y != [] && y[0] != e {
      NeverIff(y[1..], e);
      assert ts[1..] == Tokens(y[1..], Some(e)) && ts == [ts[0]] + ts[1..];
      OddRunShift(y, e, 1);
      EndRunMoved(y, e, 1);
    } else if |y| == 1 {
      assert ts[0] == Never && OddRun(y, e, 0, |y|);
    } else if |y| > 1 {
      NeverIff(y[2..], e);
      assert ts[1..] == Tokens(y[2..], Some(e)) && ts == [ts[0]] + ts[1..];
      if y[1] == e {
        EndRunPair(y, e);
      } else {
        forall i: nat | OddRun(y, e, i, |y|)
          ensures i >= 2
        {
          assert y[i] == e && y[|y| - 1] == e;
        }
        EndRunMoved(y, e, 2);
      }
    }
  }

  lemma EndRunMoved(y: string, e: char, w: nat)
    requires 0 < w <= |y| && w <= 2 && y[w - 1] != e && forall i: nat :: OddRun(y, e, i, |y|) ==> i >= w
    ensures EndsOdd(y[w..], e) <==> EndsOdd(y, e)
  {
    OddRunShift(y, e, w);
    var z := y[w..];
    if i: nat :| OddRun(z, e, i, |z|) {
      assert OddRun(y, e, i + w, (|y| - w) + w);
    }
    if i: nat :| OddRun(y, e, i, |y|) {
      assert OddRun(y[w..], e, i - w, |y| - w);
    }
  }

  lemma EndRunPair(y: string, e: char)
    requires |y| >= 2 && y[0] == y[1] == e
    ensures EndsOdd(y[2..], e) <==> EndsOdd(y, e)
  {
    var z := y[2..];
    assert forall k :: 0 <= k < |z| ==> z[k] == y[k + 2];
    if i: nat :| OddRun(z, e, i, |z|) {
      assert forall k :: i + 2 <= k < |y| ==> y[k] == z[k - 2];
      assert OddRun(y, e, if i == 0 then 0 else i + 2, |y|);
    }
    if i: nat :| OddRun(y, e, i, |y|) {
      assert y[i] == e && (i == 0 || y[i - 1] != e);
      assert y[|y| - 1] == e && i != 1 && (i == 0 ==> |y| > 2) && i != 2;
      assert OddRun(z, e, if i == 0 then 0 else i - 2, |z|);
    }
  }

  /** Where the standard has no meaning for a pattern, the matcher still accepts some string, unless the
      pattern ends in an odd number of escape characters. */
  lemma AcceptsNotAllowed(y: string, e: char)
    requires e != '%' && e != '_' && StandardTokens(y, Some(e)).None?
    ensures HasOddRun(y, e)
    ensures (exists x :: Match(x, Tokens(y, Some(e)))) <==> !EndsOdd(y, e)
  {
    hide Match, Sample, EndsOdd, Tokens, StandardTokens;
    NotAllowedIff(y, e);
    NeverIff(y, e);
    var ts := Tokens(y, Some(e));
    if Never in ts {
      forall x ensures !Match(x, ts) {
        MatchesSome(ts, x);
      }
    } else {
      MatchesSome(ts, "");
      assert Match(Sample(ts), ts);
    }
  }
}
