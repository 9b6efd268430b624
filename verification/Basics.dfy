/** What several components share. */
module ByteType {
  type Byte = x: int | 0 <= x < 256
}

module Options {
  datatype Option<T> = None | Some(value: T)
}

module TableMasks {
  /** CAN_BE_USED: the mask adds nothing to the tables in `all`. */
  predicate CanBeUsed(mask: set<int>, all: set<int>) { all + mask == all }
}

module Concatenation {
  function Concat<T>(ss: seq<seq<T>>): seq<T> {
    if ss == [] then [] else Concat(ss[..|ss| - 1]) + ss[|ss| - 1]
  }

  lemma ConcatSnoc<T>(ss: seq<seq<T>>, s: seq<T>)
    ensures Concat(ss + [s]) == Concat(ss) + s
  {
    assert (ss + [s])[..|ss|] == ss;
  }

  lemma {:induction false} ConcatFront<T>(s: seq<T>, ss: seq<seq<T>>)
    ensures Concat([s] + ss) == s + Concat(ss)
    decreases |ss|
  {
    if ss == [] {
      assert [s] + ss == [s];
      assert [s][..0] == [];
    } else {
      var k := |ss| - 1;
      ConcatFront(s, ss[..k]);
      assert ([s] + ss)[..k + 1] == [s] + ss[..k];
      assert ([s] + ss)[k + 1] == ss[k];
      assert s + Concat(ss[..k]) + ss[k] == s + (Concat(ss[..k]) + ss[k]);
    }
  }

  lemma {:induction false} ConcatAppend<T>(ss: seq<seq<T>>, ts: seq<seq<T>>)
    ensures Concat(ss + ts) == Concat(ss) + Concat(ts)
    decreases |ts|
  {
    if ts == [] {
      assert ss + ts == ss;
    } else {
      var k := |ts| - 1;
      ConcatAppend(ss, ts[..k]);
      assert (ss + ts)[..|ss + ts| - 1] == ss + ts[..k] && (ss + ts)[|ss + ts| - 1] == ts[k];
      assert Concat(ss) + Concat(ts[..k]) + ts[k] == Concat(ss) + (Concat(ts[..k]) + ts[k]);
    }
  }

  /** What occurs in the whole occurs in one of the parts. */
  lemma {:induction false} ConcatIn<T>(ss: seq<seq<T>>, x: T)
    ensures x in Concat(ss) <==> exists i :: 0 <= i < |ss| && x in ss[i]
  {
    if ss != [] {
      var k := |ss| - 1;
      ConcatIn(ss[..k], x);
      assert forall i :: 0 <= i < k ==> ss[..k][i] == ss[i];
    }
  }
}

module Counting {
  /** A sequence around one of its elements. */
  lemma SplitAt<T>(us: seq<T>, k: nat)
    requires k < |us|
    ensures us == us[..k] + [us[k]] + us[k + 1..]
    ensures multiset(us) == multiset(us[..k]) + multiset{us[k]} + multiset(us[k + 1..])
  {
    assert us == us[..k] + [us[k]] + us[k + 1..];
  }

  /** An element at two places counts twice. */
  lemma Twice<T>(us: seq<T>, i: nat, j: nat)
    requires i < j < |us| && us[i] == us[j]
    ensures multiset(us)[us[i]] >= 2
  {
    assert us == us[..i] + [us[i]] + us[i + 1..j] + [us[j]] + us[j + 1..];
  }

  /** An element at one place only counts once. */
  lemma Once<T>(us: seq<T>, k: nat)
    requires k < |us| && forall i :: 0 <= i < |us| && i != k ==> us[i] != us[k]
    ensures multiset(us)[us[k]] == 1
  {
    assert us == us[..k] + [us[k]] + us[k + 1..];
    assert us[k] !in us[..k] && us[k] !in us[k + 1..];
  }
}
