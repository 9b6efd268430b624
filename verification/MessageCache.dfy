/** The buffer of a connection, and how its bytes are cut into messages. */
module MessageCache {
  import opened ByteType

  type Bytes = seq<Byte>

  /** The room of a message: half of what the system allows, or 512 bytes. */
  type MessageSize = n: int | n > 0 witness 512

  const MBUFSIZE: MessageSize

  function Min(a: int, b: int): int { if a < b then a else b }

  /** The `k`-th message of a transfer of `r`. */
  function Piece(r: Bytes, k: nat): (p: Bytes)
    ensures |p| == MBUFSIZE <==> MBUFSIZE * (k + 1) <= |r|
    ensures |p| <= MBUFSIZE
  {
    r[Min(MBUFSIZE * k, |r|)..Min(MBUFSIZE * (k + 1), |r|)]
  }

  /** How many messages carry `r`; an empty reply is one empty message. */
  function Pieces(r: Bytes): nat { if r == [] then 1 else (|r| + MBUFSIZE - 1) / MBUFSIZE }

  /** What the first `k` messages carry. */
  function Carried(r: Bytes, k: nat): Bytes { r[..Min(MBUFSIZE * k, |r|)] }

  lemma CarriedStep(r: Bytes, k: nat)
    ensures Carried(r, k) + Piece(r, k) == Carried(r, k + 1)
  {
    assert Carried(r, k) + Piece(r, k) == Carried(r, k + 1);
  }

  lemma {:induction false} Multiples(a: nat, b: nat)
    requires a <= b
    ensures MBUFSIZE * a <= MBUFSIZE * b
    decreases b - a
  {
    if a < b {
      Multiples(a, b - 1);
      assert MBUFSIZE * b == MBUFSIZE * (b - 1) + MBUFSIZE;
    }
  }

  lemma {:induction false} NoRest(q: nat)
    ensures (MBUFSIZE * q) % MBUFSIZE == 0
  {
    if q > 0 {
      NoRest(q - 1);
      assert MBUFSIZE * q == MBUFSIZE * (q - 1) + MBUFSIZE;
      OneMore(MBUFSIZE * (q - 1));
    }
  }

  lemma OneMore(x: int)
    ensures (x + MBUFSIZE) % MBUFSIZE == x % MBUFSIZE
  {
    var q, r := x / MBUFSIZE, x % MBUFSIZE;
    assert x + MBUFSIZE == MBUFSIZE * (q + 1) + r;
    Divided(x + MBUFSIZE, q + 1, r);
  }

  lemma Divided(x: int, q: int, r: int)
    requires x == MBUFSIZE * q + r && 0 <= r < MBUFSIZE
    ensures x / MBUFSIZE == q && x % MBUFSIZE == r
  {
    var p, t := x / MBUFSIZE, x % MBUFSIZE;
    assert x == MBUFSIZE * p + t;
    if p < q {
      Apart(q, p);
    } else if p > q {
      Apart(p, q);
    }
  }

  lemma Apart(p: int, q: int)
    requires p > q
    ensures MBUFSIZE * p >= MBUFSIZE * q + MBUFSIZE
  {
    Multiples(1, p - q);
    assert MBUFSIZE * p == MBUFSIZE * q + MBUFSIZE * (p - q);
  }

  /** How many messages there are is the length over the message size, rounded up. */
  lemma PiecesBounds(r: Bytes)
    ensures Pieces(r) >= 1 && |r| <= MBUFSIZE * Pieces(r) && (r == [] ==> Pieces(r) == 1)
    ensures r != [] ==> MBUFSIZE * (Pieces(r) - 1) < |r| && (|r| % MBUFSIZE == 0 <==> |r| == MBUFSIZE * Pieces(r))
  {
    var n, p := |r|, Pieces(r);
    if r != [] {
      assert n + MBUFSIZE - 1 == MBUFSIZE * p + (n + MBUFSIZE - 1) % MBUFSIZE;
      assert MBUFSIZE * (p - 1) == MBUFSIZE * p - MBUFSIZE;
      NoRest(p);
      if n % MBUFSIZE == 0 {
        var q := n / MBUFSIZE;
        assert n == MBUFSIZE * q;
        Divided(n + MBUFSIZE - 1, q, MBUFSIZE - 1);
      }
    } else {
      assert MBUFSIZE * 1 == MBUFSIZE;
    }
  }

  /** All messages together carry everything, and one less does not (unless there is nothing). */
  lemma CarriedAll(r: Bytes, k: nat)
    ensures k >= Pieces(r) ==> Carried(r, k) == r
    ensures k < Pieces(r) && r != [] ==> Carried(r, k) != r
    ensures k == Pieces(r) - 1 ==> (|Piece(r, k)| == MBUFSIZE <==> r != [] && |r| % MBUFSIZE == 0)
    ensures k < Pieces(r) - 1 ==> |Piece(r, k)| == MBUFSIZE
  {
    hide Pieces;
    PiecesBounds(r);
    if k >= Pieces(r) {
      Multiples(Pieces(r), k);
      assert r[..|r|] == r;
    } else if r != [] {
      Multiples(k, Pieces(r) - 1);
      if k + 1 < Pieces(r) {
        Multiples(k + 1, Pieces(r) - 1);
      }
    }
  }

  class Cache {
    var buf: array<Byte>
    var start: nat
    var stop: nat

    ghost predicate Valid()
      reads this
    {
      start <= stop <= buf.Length
    }

    constructor ()
      ensures Valid() && start == stop == 0 && fresh(buf)
    {
      buf, start, stop := new Byte[0], 0, 0;
    }

    ghost function Contents(): Bytes
      requires Valid()
      reads this, buf
    {
      buf[start..stop]
    }

    /** Takes up to `size` bytes; -1 if there are none. */
    method MsgRead(size: nat) returns (n: int, data: Bytes)
      requires Valid()
      modifies this`start
      ensures Valid() && stop == old(stop) && |data| <= |old(Contents())|
      ensures data == old(Contents())[..|data|] && Contents() == old(Contents())[|data|..]
      ensures if |old(Contents())| == 0 || size == 0 then n == -1 && data == []
              else n == |data| == Min(size, |old(Contents())|)
    {
      var k := if size > stop - start then stop - start else size;
      if k <= 0 {
        return -1, [];
      }
      data := buf[start..start + k];
      assert buf[start..stop][..k] == data && buf[start..stop][k..] == buf[start + k..stop];
      start := start + k;
      n := k;
    }

    /** Adds bytes at the end and starts from the beginning again; the buffer grows when it must. */
    method MsgWrite(data: Bytes)
      requires Valid()
      modifies this, buf
      ensures Valid() && start == 0 && Contents() == old(buf[..stop]) + data && (buf == old(buf) || fresh(buf))
    {
      var len := stop + |data|;
      ghost var was := buf[..stop];
      if buf.Length < len {
        var newLen := if 2 * buf.Length < len then len else 2 * buf.Length;
        var grown := new Byte[newLen](
          i requires 0 <= i < newLen reads this, buf => if i < buf.Length then buf[i] else 0);
        buf := grown;
        assert buf[..stop] == was;
      }
      forall k | stop <= k < len {
        buf[k] := data[k - stop];
      }
      start := 0;
      assert buf[..stop] == was;
      assert buf[0..len] == was + data;
      stop := len;
    }

    /** Cuts the contents into messages, as both sides do when they send. */
    method SendAll() returns (ms: seq<Bytes>)
      requires Valid()
      modifies this`start
      ensures Valid() && start == stop == old(stop)
      ensures
        var r := old(Contents());
        |ms| == (if r == [] then 0 else Pieces(r)) && forall k :: 0 <= k < |ms| ==> ms[k] == Piece(r, k)
    {
      hide Piece, Pieces;
      ghost var r := Contents();
      ms := [];
      PiecesNone(r);
      while stop > start
        invariant Valid() && stop == old(stop) && stop - start <= |r| && Contents() == r[|r| - (stop - start)..]
        invariant stop > start ==> |r| - (stop - start) == MBUFSIZE * |ms|
        invariant stop == start ==> |ms| == if r == [] then 0 else Pieces(r)
        invariant forall k :: 0 <= k < |ms| ==> ms[k] == Piece(r, k)
        decreases stop - start
      {
        ghost var c := Contents();
        var n, m := MsgRead(MBUFSIZE);
        PieceTaken(r, |ms|, c, m);
        ms := ms + [m];
      }
    }
  }

  lemma PiecesNone(r: Bytes)
    ensures r != [] ==> Pieces(r) > 0
    ensures r == r[0..] && MBUFSIZE * 0 == 0
  {
    PiecesBounds(r);
  }

  /** The next message of a transfer is its next piece. */
  lemma PieceTaken(r: Bytes, k: nat, c: Bytes, m: Bytes)
    requires MBUFSIZE * k < |r| && c == r[MBUFSIZE * k..] && |m| == Min(MBUFSIZE, |c|) && m == c[..|m|]
    ensures m == Piece(r, k)
    ensures c[|m|..] == r[MBUFSIZE * k + |m|..]
    ensures MBUFSIZE * (k + 1) == MBUFSIZE * k + MBUFSIZE
    ensures if |c| == |m| then k + 1 == Pieces(r) else |m| == MBUFSIZE
  {
    hide Pieces;
    Multiples(0, k);
    assert MBUFSIZE * (k + 1) == MBUFSIZE * k + MBUFSIZE;
    assert c[|m|..] == r[MBUFSIZE * k + |m|..];
    if |c| == |m| {
      LastPiece(r, k);
    }
  }

  lemma LastPiece(r: Bytes, k: nat)
    requires MBUFSIZE * k < |r| <= MBUFSIZE * (k + 1)
    ensures k + 1 == Pieces(r)
  {
    hide Pieces;
    PiecesBounds(r);
    if k + 1 < Pieces(r) {
      Multiples(k + 1, Pieces(r) - 1);
    } else if Pieces(r) <= k {
      Multiples(Pieces(r), k);
    }
  }
}
