/** The administrator of transactions: identifiers of modifying transactions that survive crashes, the
    table of running transactions and the least identifier in use. */
module Administrator {

  const FIR_TRN_NUM := 2

  /** An entry of the table: the identifier, 0 if the transaction modifies nothing; its process; when it
      was created. */
  datatype Slot = Slot(uid: int, pid: int, time: int)

  predicate Free(s: Slot) { s.time == 0 && s.pid == 0 }

  /** `disk` is the identifier ceiling in the administrator's file. */
  datatype Adm = Adm(slots: seq<Slot>, maxUse: int, numtr: int, uidt: int, idt: int, minid: int, uidConst: int,
                     disk: int)

  const NOBODY := Slot(0, 0, 0)

  // ---- The operations as functions ----

  function Slots(n: nat): (s: seq<Slot>)
    ensures |s| == n && forall i :: 0 <= i < n ==> s[i] == NOBODY
  {
    seq(n, i => NOBODY)
  }

  /** Start, or start again after a crash, from the ceiling on disk; slot 1 is the journal's. */
  function Ini(disk: nat, uidConst: nat, maxTrans: nat, journal: int): Adm
    requires maxTrans >= 4
  {
    var uidt := if disk == 0 then 1 else disk;
    Adm(Slots(maxTrans)[1 := Slot(0, journal, 1)], 3, 2, uidt, disk + uidConst, uidt, uidConst, disk + uidConst)
  }

  /** The next identifier goes to the transaction `num`. */
  function Iamm(a: Adm, num: int): Adm
    requires 0 <= num < |a.slots|
  {
    var b := a.(slots := a.slots[num := a.slots[num].(uid := a.uidt)], uidt := a.uidt + 1);
    if b.uidt == b.idt then b.(idt := b.idt + b.uidConst, disk := b.idt + b.uidConst) else b
  }

  /** The identifiers that the record of the end of `num` names. */
  function Record(slots: seq<Slot>, num: int, i: int, maxUse: int): seq<int>
    requires 0 <= i && maxUse < |slots|
    decreases maxUse - i
  {
    if i > maxUse then []
    else (if slots[i].uid != 0 && i != num then [slots[i].uid] else []) + Record(slots, num, i + 1, maxUse)
  }

  /** The first place from `i` on with an identifier; `maxUse + 1` if there is none. */
  function FirstId(slots: seq<Slot>, i: int, maxUse: int): (r: int)
    requires 0 <= i <= maxUse + 1 && maxUse < |slots|
    ensures i <= r <= maxUse + 1 && (r <= maxUse ==> slots[r].uid != 0) && forall j :: i <= j < r ==> slots[j].uid == 0
    decreases maxUse - i
  {
    if i > maxUse || slots[i].uid != 0 then i else FirstId(slots, i + 1, maxUse)
  }

  /** The least of `m` and what the places from `i` on hold, be it an identifier or 0. */
  function Least(slots: seq<Slot>, i: int, maxUse: int, m: int): (r: int)
    requires 0 <= i <= maxUse + 1 && maxUse < |slots|
    ensures r <= m && (forall j :: i <= j <= maxUse ==> r <= slots[j].uid)
    ensures r == m || exists j :: i <= j <= maxUse && r == slots[j].uid
    decreases maxUse - i
  {
    if i > maxUse then m else Least(slots, i + 1, maxUse, if slots[i].uid < m then slots[i].uid else m)
  }

  function NewMinid(slots: seq<Slot>, maxUse: int, uidt: int): int
    requires 1 <= maxUse < |slots|
  {
    var i := FirstId(slots, FIR_TRN_NUM, maxUse);
    if i > maxUse then uidt else Least(slots, i, maxUse, slots[i].uid)
  }

  /** The last place from `m` down with a process. */
  function Down(slots: seq<Slot>, m: int): (r: int)
    requires 1 <= m < |slots| && slots[1].pid != 0
    ensures 1 <= r <= m && slots[r].pid != 0 && forall j :: r < j <= m ==> slots[j].pid == 0
    decreases m
  {
    if slots[m].pid != 0 then m else Down(slots, m - 1)
  }

  /** The end of the transaction `num`. */
  function Endotr(a: Adm, num: int): Adm
    requires FIR_TRN_NUM <= num <= a.maxUse < |a.slots| && a.slots[1].pid != 0
  {
    var least := a.slots[num].uid == a.minid;
    var ss := if least then a.slots[num := a.slots[num].(uid := 0)] else a.slots;
    var minid := if least then NewMinid(ss, a.maxUse, a.uidt) else a.minid;
    var ts := ss[num := ss[num].(pid := 0)];
    var maxUse := if a.maxUse == a.numtr - 1 then Down(ts, a.maxUse) else a.maxUse;
    a.(slots := ts[num := ts[num].(time := 0)], minid := minid, numtr := a.numtr - 1, maxUse := maxUse)
  }

  function FirstFree(slots: seq<Slot>, i: int, maxUse: int): (r: int)
    requires 0 < i <= maxUse + 1 && maxUse < |slots|
    ensures r == 0 || i <= r <= maxUse
    ensures r != 0 ==> Free(slots[r]) && forall j :: i <= j < r ==> !Free(slots[j])
    ensures r == 0 ==> forall j :: i <= j <= maxUse ==> !Free(slots[j])
    decreases maxUse - i
  {
    if i > maxUse then 0 else if Free(slots[i]) then i else FirstFree(slots, i + 1, maxUse)
  }

  /** Where a new transaction goes. */
  function Place(a: Adm): int
    requires 1 <= a.maxUse < |a.slots|
  {
    var t := FirstFree(a.slots, FIR_TRN_NUM, a.maxUse);
    if t == 0 then a.maxUse + 1 else t
  }

  /** A new transaction; the table doubles when it is full. */
  function Creatr(a: Adm, pid: int, time: int): Adm
    requires Inv(a)
  {
    PlaceFits(a);
    var t := Place(a);
    var ss := if t > a.maxUse && a.numtr == |a.slots| then a.slots + Slots(|a.slots|) else a.slots;
    a.(slots := ss[t := Slot(0, pid, time)], maxUse := if t > a.maxUse then t else a.maxUse, numtr := a.numtr + 1)
  }

  // ---- What they do to the table ----

  /** The state after a start from the ceiling `disk`. */
  ghost predicate Started(a: Adm, disk: nat, uidConst: nat, maxTrans: nat, journal: int) {
    && |a.slots| == maxTrans && maxTrans > 1 && a.slots[1] == Slot(0, journal, 1)
    && (forall j :: 0 <= j < |a.slots| && j != 1 ==> a.slots[j] == NOBODY)
    && a.maxUse == 3 && a.numtr == 2 && a.uidConst == uidConst && a.disk == a.idt == disk + uidConst
    && a.uidt == a.minid == if disk == 0 then 1 else disk
  }

  ghost predicate OthersKept(a: Adm, b: Adm, num: int) {
    forall j :: 0 <= j < |a.slots| && j != num ==> j < |b.slots| && b.slots[j] == a.slots[j]
  }

  /** The transaction `num` has got the next identifier; when that reaches the ceiling, the ceiling is raised,
      on disk too. */
  ghost predicate Numbered(a: Adm, b: Adm, num: int) {
    && 0 <= num < |a.slots| == |b.slots| && OthersKept(a, b, num)
    && b.slots[num] == Slot(a.uidt, a.slots[num].pid, a.slots[num].time)
    && b.uidt == a.uidt + 1 && b.maxUse == a.maxUse && b.numtr == a.numtr && b.minid == a.minid
    && b.uidConst == a.uidConst
    && (if a.uidt + 1 == a.idt then b.idt == b.disk == a.idt + a.uidConst else b.idt == a.idt && b.disk == a.disk)
  }

  /** The transaction `num` has ended: its place is free and keeps its identifier unless this was the least one,
      nobody else is touched, and if the places in use were counted up to the last one, this goes down to the
      last place with a process. */
  ghost predicate Ended(a: Adm, b: Adm, num: int) {
    && 0 <= num < |a.slots| == |b.slots| && OthersKept(a, b, num)
    && b.slots[num] == Slot(if a.slots[num].uid == a.minid then 0 else a.slots[num].uid, 0, 0)
    && b.numtr == a.numtr - 1 && b.uidt == a.uidt && b.idt == a.idt && b.uidConst == a.uidConst && b.disk == a.disk
    && (if a.maxUse == a.numtr - 1 then
          && 1 <= b.maxUse <= a.maxUse < |b.slots| && b.slots[b.maxUse].pid != 0
          && forall j :: b.maxUse < j <= a.maxUse ==> b.slots[j].pid == 0
        else b.maxUse == a.maxUse)
    && (a.slots[num].uid != a.minid ==> b.minid == a.minid)
    && (a.slots[num].uid == a.minid ==> LeastFound(b.slots, a.maxUse, a.uidt, b.minid))
  }

  /** What the search for the least identifier comes to: the least entry from the first identifier on, or the
      next identifier if there is none. */
  ghost predicate LeastFound(slots: seq<Slot>, maxUse: int, uidt: int, m: int) {
    && maxUse < |slots|
    && if forall j :: FIR_TRN_NUM <= j <= maxUse ==> slots[j].uid == 0 then m == uidt
       else exists i :: FIR_TRN_NUM <= i <= maxUse && slots[i].uid != 0 && LeastFrom(slots, i, maxUse, m)
  }

  ghost predicate LeastFrom(slots: seq<Slot>, i: int, maxUse: int, m: int)
    requires 0 <= i <= maxUse < |slots|
  {
    && (forall j :: FIR_TRN_NUM <= j < i ==> slots[j].uid == 0)
    && (forall j :: i <= j <= maxUse ==> m <= slots[j].uid) && exists j :: i <= j <= maxUse && m == slots[j].uid
  }

  /** A transaction was created at `t`, the first free place, or the one behind those in use. */
  ghost predicate Created(a: Adm, b: Adm, t: int, pid: int, time: int) {
    && 1 <= a.maxUse < |a.slots| && FIR_TRN_NUM <= t <= a.maxUse + 1
    && (forall j :: FIR_TRN_NUM <= j < t ==> a.slots[j].time != 0 || a.slots[j].pid != 0)
    && (t <= a.maxUse ==> a.slots[t].time == 0 && a.slots[t].pid == 0)
    && b.maxUse == (if t > a.maxUse then t else a.maxUse) && b.numtr == a.numtr + 1
    && |b.slots| == (if t > a.maxUse && a.numtr == |a.slots| then 2 * |a.slots| else |a.slots|)
    && t < |b.slots| && b.slots[t] == Slot(0, pid, time) && OthersKept(a, b, t)
    && (forall j :: |a.slots| <= j < |b.slots| && j != t ==> b.slots[j] == NOBODY)
    && b.uidt == a.uidt && b.idt == a.idt && b.minid == a.minid && b.uidConst == a.uidConst && b.disk == a.disk
  }

  lemma IammNumbers(a: Adm, num: int)
    requires 0 <= num < |a.slots|
    ensures Numbered(a, Iamm(a, num), num)
  {}

  lemma EndotrEnds(a: Adm, num: int)
    requires Inv(a) && FIR_TRN_NUM <= num <= a.maxUse
    ensures Ended(a, Endotr(a, num), num)
  {
    var b := Endotr(a, num);
    if a.slots[num].uid == a.minid {
      var ss := a.slots[num := a.slots[num].(uid := 0)];
      assert forall j :: 0 <= j < |ss| ==> ss[j].uid == b.slots[j].uid;
      var i := FirstId(ss, FIR_TRN_NUM, a.maxUse);
      if i <= a.maxUse {
        assert LeastFrom(b.slots, i, a.maxUse, b.minid);
      }
    }
  }

  lemma CreatrCreates(a: Adm, pid: int, time: int)
    requires Inv(a)
    ensures Created(a, Creatr(a, pid, time), Place(a), pid, time)
  {
    PlaceFits(a);
  }

  // ---- What holds in every reachable state ----

  function Taken(slots: seq<Slot>, i: int, maxUse: int): (n: nat)
    requires 0 <= i && maxUse < |slots|
    ensures i <= maxUse + 1 ==> n <= maxUse + 1 - i
    decreases maxUse - i
  {
    if i > maxUse then 0 else (if Free(slots[i]) then 0 else 1) + Taken(slots, i + 1, maxUse)
  }

  /** Identifiers in the table lie between the least one and the next one; the ceiling on disk is ahead of
      the next one; the places in use are counted. */
  predicate Inv(a: Adm) {
    && 1 <= a.maxUse < |a.slots| && a.numtr <= |a.slots| && a.slots[1].pid != 0
    && a.numtr == 2 + Taken(a.slots, FIR_TRN_NUM, a.maxUse)
    && 0 <= a.minid <= a.uidt && 1 <= a.uidt
    && forall i :: FIR_TRN_NUM <= i <= a.maxUse ==>
         && (a.slots[i].pid == 0 <==> a.slots[i].time == 0)
         && (a.slots[i].uid != 0 ==> a.minid <= a.slots[i].uid < a.uidt)
         && 0 <= a.slots[i].uid
  }

  lemma {:induction false} AllTaken(slots: seq<Slot>, i: int, maxUse: int)
    requires 0 <= i <= maxUse + 1 && maxUse < |slots| && forall j :: i <= j <= maxUse ==> !Free(slots[j])
    ensures Taken(slots, i, maxUse) == maxUse + 1 - i
    decreases maxUse - i
  {
    if i <= maxUse {
      AllTaken(slots, i + 1, maxUse);
    }
  }

  lemma PlaceFits(a: Adm)
    requires Inv(a)
    ensures var t := Place(a);
            && FIR_TRN_NUM <= t < |a.slots| + (if t > a.maxUse && a.numtr == |a.slots| then |a.slots| else 0)
            && (t > a.maxUse ==> t == a.maxUse + 1 == a.numtr)
  {
    if FirstFree(a.slots, FIR_TRN_NUM, a.maxUse) == 0 {
      AllTaken(a.slots, FIR_TRN_NUM, a.maxUse);
    }
  }

  lemma {:induction false} TakenSame(ss: seq<Slot>, ts: seq<Slot>, i: int, maxUse: int)
    requires 0 <= i && maxUse < |ss| && maxUse < |ts| && forall j :: i <= j <= maxUse ==> (Free(ss[j]) <==> Free(ts[j]))
    ensures Taken(ss, i, maxUse) == Taken(ts, i, maxUse)
    decreases maxUse - i
  {
    if i <= maxUse {
      TakenSame(ss, ts, i + 1, maxUse);
    }
  }

  /** One place more or less. */
  lemma {:induction false} TakenUpdate(ss: seq<Slot>, ts: seq<Slot>, i: int, k: int, maxUse: int)
    requires 0 <= i <= k <= maxUse < |ss| && maxUse < |ts| && Free(ss[k]) && !Free(ts[k])
    requires forall j :: i <= j <= maxUse && j != k ==> (Free(ss[j]) <==> Free(ts[j]))
    ensures Taken(ts, i, maxUse) == Taken(ss, i, maxUse) + 1
    decreases maxUse - i
  {
    if i == k {
      TakenSame(ss, ts, i + 1, maxUse);
    } else {
      TakenUpdate(ss, ts, i + 1, k, maxUse);
    }
  }

  lemma {:induction false} TakenLonger(ss: seq<Slot>, i: int, m: int, n: int)
    requires 0 <= i <= m + 1 && m <= n < |ss| && forall j :: m < j <= n ==> Free(ss[j])
    ensures Taken(ss, i, n) == Taken(ss, i, m)
    decreases n - i
  {
    if i <= n {
      if i <= m {
        TakenLonger(ss, i + 1, m, n);
      } else {
        NoneTaken(ss, i, n);
      }
    }
  }

  lemma {:induction false} NoneTaken(ss: seq<Slot>, i: int, n: int)
    requires 0 <= i && n < |ss| && forall j :: i <= j <= n ==> Free(ss[j])
    ensures Taken(ss, i, n) == 0
    decreases n - i
  {
    if i <= n {
      NoneTaken(ss, i + 1, n);
    }
  }

  lemma IniInv(disk: nat, uidConst: nat, maxTrans: nat, journal: int)
    requires maxTrans >= 4 && journal != 0
    ensures Inv(Ini(disk, uidConst, maxTrans, journal))
  {
    NoneTaken(Ini(disk, uidConst, maxTrans, journal).slots, FIR_TRN_NUM, 3);
  }

  lemma IammInv(a: Adm, num: int)
    requires Inv(a) && FIR_TRN_NUM <= num <= a.maxUse
    ensures Inv(Iamm(a, num))
  {
    TakenSame(a.slots, Iamm(a, num).slots, FIR_TRN_NUM, a.maxUse);
  }

  lemma CreatrInv(a: Adm, pid: int, time: int)
    requires Inv(a) && pid != 0 && time != 0
    ensures Inv(Creatr(a, pid, time)) && Creatr(a, pid, time).minid == a.minid
  {
    PlaceFits(a);
    var t, b := Place(a), Creatr(a, pid, time);
    var ss := if t > a.maxUse && a.numtr == |a.slots| then a.slots + Slots(|a.slots|) else a.slots;
    var us := ss[t := NOBODY];
    TakenSame(a.slots, us, FIR_TRN_NUM, a.maxUse);
    TakenLonger(us, FIR_TRN_NUM, a.maxUse, b.maxUse);
    TakenUpdate(us, b.slots, FIR_TRN_NUM, t, b.maxUse);
  }

  lemma EndotrInv(a: Adm, num: int)
    requires Inv(a) && FIR_TRN_NUM <= num <= a.maxUse && !Free(a.slots[num])
    ensures Inv(Endotr(a, num))
  {
    var b := Endotr(a, num);
    var least := a.slots[num].uid == a.minid;
    var ss := if least then a.slots[num := a.slots[num].(uid := 0)] else a.slots;
    var ts := ss[num := ss[num].(pid := 0)];
    TakenUpdate(b.slots, a.slots, FIR_TRN_NUM, num, a.maxUse);
    if b.maxUse != a.maxUse {
      forall j | b.maxUse < j <= a.maxUse
        ensures Free(b.slots[j])
      {
        assert ts[j].pid == 0;
      }
      TakenLonger(b.slots, FIR_TRN_NUM, b.maxUse, a.maxUse);
    }
  }

  // ---- The least identifier ----

  /** Places in use behind the first identifier that hold none. */
  predicate Gap(slots: seq<Slot>, maxUse: int)
    requires maxUse < |slots|
  {
    exists i, j :: FIR_TRN_NUM <= i < j <= maxUse && slots[i].uid != 0 && slots[j].uid == 0
  }

  /** What the search for the new least identifier finds: 0 if there is a gap, or else the least one. */
  lemma NewMinidIs(slots: seq<Slot>, maxUse: int, uidt: int)
    requires 1 <= maxUse < |slots| && forall i :: FIR_TRN_NUM <= i <= maxUse ==> slots[i].uid >= 0
    ensures var m := NewMinid(slots, maxUse, uidt);
            if forall i :: FIR_TRN_NUM <= i <= maxUse ==> slots[i].uid == 0 then m == uidt
            else if Gap(slots, maxUse) then m == 0
            else m > 0 && (exists i :: FIR_TRN_NUM <= i <= maxUse && slots[i].uid == m)
                 && forall i :: FIR_TRN_NUM <= i <= maxUse && slots[i].uid != 0 ==> m <= slots[i].uid
  {
    var i := FirstId(slots, FIR_TRN_NUM, maxUse);
    if i <= maxUse {
      var m := Least(slots, i, maxUse, slots[i].uid);
      assert slots[i].uid != 0;
      if Gap(slots, maxUse) {
        var k, j :| FIR_TRN_NUM <= k < j <= maxUse && slots[k].uid != 0 && slots[j].uid == 0;
        assert m <= slots[j].uid;
      }
    }
  }

  /** The least identifier goes down, and then to 0, exactly when its holder ends and behind the first
      identifier left there is a place without one. */
  lemma MinidFallsIff(a: Adm, num: int)
    requires Inv(a) && FIR_TRN_NUM <= num <= a.maxUse && !Free(a.slots[num])
    ensures var b := Endotr(a, num);
            && (b.minid < a.minid <==>
                  a.minid > 0 && a.slots[num].uid == a.minid && Gap(a.slots[num := a.slots[num].(uid := 0)], a.maxUse))
            && (b.minid < a.minid ==> b.minid == 0)
  {
    var ss := a.slots[num := a.slots[num].(uid := 0)];
    if a.slots[num].uid == a.minid {
      NewMinidIs(ss, a.maxUse, a.uidt);
    }
  }

  // ---- The record of the end of a transaction ----

  lemma InvRange(a: Adm)
    requires Inv(a)
    ensures 1 <= a.maxUse < |a.slots|
  {}

  lemma RecordStep(slots: seq<Slot>, num: int, i: int, maxUse: int)
    requires 0 <= i && maxUse < |slots|
    ensures i > maxUse ==> Record(slots, num, i, maxUse) == []
    ensures i <= maxUse ==>
              Record(slots, num, i, maxUse) ==
              (if slots[i].uid != 0 && i != num then [slots[i].uid] else []) + Record(slots, num, i + 1, maxUse)
  {}

  /** `rec` is what the places `ps` hold, in this order. */
  ghost predicate Holding(ps: seq<int>, rec: seq<int>, slots: seq<Slot>) {
    |ps| == |rec| && forall k :: 0 <= k < |ps| ==> 0 <= ps[k] < |slots| && rec[k] == slots[ps[k]].uid
  }

  ghost predicate Increasing(ps: seq<int>) { forall k, l :: 0 <= k < l < |ps| ==> ps[k] < ps[l] }

  lemma IncreasingFront(i: int, ps: seq<int>)
    requires Increasing(ps) && forall p :: p in ps ==> i < p
    ensures Increasing([i] + ps) && forall p :: p in [i] + ps <==> p == i || p in ps
  {
    assert forall k :: 0 <= k < |ps| ==> ps[k] in ps;
  }

  lemma HoldingFront(i: int, ps: seq<int>, rec: seq<int>, slots: seq<Slot>)
    requires Holding(ps, rec, slots) && 0 <= i < |slots|
    ensures Holding([i] + ps, [slots[i].uid] + rec, slots)
  {}

  /** The record goes through the other places with an identifier, each once, in their order. */
  lemma {:induction false} RecordPlaces(slots: seq<Slot>, num: int, i: int, maxUse: int) returns (ps: seq<int>)
    requires 0 <= i && maxUse < |slots|
    ensures Holding(ps, Record(slots, num, i, maxUse), slots) && Increasing(ps)
    ensures forall j :: j in ps <==> i <= j <= maxUse && j != num && slots[j].uid != 0
    decreases maxUse - i
  {
    RecordStep(slots, num, i, maxUse);
    ps := [];
    if i <= maxUse {
      hide Record, Holding, Increasing;
      var rest := RecordPlaces(slots, num, i + 1, maxUse);
      var rec := Record(slots, num, i + 1, maxUse);
      ps := rest;
      if slots[i].uid != 0 && i != num {
        ps := [i] + rest;
        IncreasingFront(i, rest);
        HoldingFront(i, rest, rec, slots);
      } else {
        assert [] + rec == rec;
      }
    }
  }

  /** The record names exactly what the other places hold. */
  lemma {:induction false} RecordNames(slots: seq<Slot>, num: int, i: int, maxUse: int, uid: int)
    requires 0 <= i && maxUse < |slots|
    ensures uid in Record(slots, num, i, maxUse)
            <==> uid != 0 && exists j :: i <= j <= maxUse && j != num && slots[j].uid == uid
    decreases maxUse - i
  {
    if i <= maxUse {
      RecordNames(slots, num, i + 1, maxUse, uid);
    }
  }

  /** The identifier of every other running modifying transaction is in the record, and it is not below
      the least identifier. */
  lemma RecordComplete(a: Adm, num: int, i: int)
    requires Inv(a) && FIR_TRN_NUM <= i <= a.maxUse && i != num && !Free(a.slots[i]) && a.slots[i].uid != 0
    ensures a.slots[i].uid in Record(a.slots, num, FIR_TRN_NUM, a.maxUse) && a.minid <= a.slots[i].uid
  {
    RecordNames(a.slots, num, FIR_TRN_NUM, a.maxUse, a.slots[i].uid);
  }

  /** A transaction that ends without holding the least identifier leaves its own in its place: as long as
      the place is in range, later records name it. */
  lemma FinishedStillNamed(a: Adm, num: int, other: int)
    requires Inv(a) && FIR_TRN_NUM <= num <= a.maxUse && !Free(a.slots[num]) && other != num
    requires a.slots[num].uid != a.minid && a.slots[num].uid != 0 && num <= Endotr(a, num).maxUse
    ensures var b := Endotr(a, num);
            Free(b.slots[num]) && a.slots[num].uid in Record(b.slots, other, FIR_TRN_NUM, b.maxUse)
  {
    var b := Endotr(a, num);
    RecordNames(b.slots, other, FIR_TRN_NUM, b.maxUse, a.slots[num].uid);
    assert b.slots[num].uid == a.slots[num].uid;
  }

  // ---- Runs with crashes ----

  datatype Op = Begin(pid: int, time: int) | Modify(num: int) | Finish(num: int) | Crash(maxTrans: nat, journal: int)

  predicate Enabled(a: Adm, op: Op) {
    match op
    case Begin(pid, time) => pid != 0 && time != 0
    case Modify(num) => FIR_TRN_NUM <= num <= a.maxUse && num < |a.slots| && !Free(a.slots[num])
    case Finish(num) => FIR_TRN_NUM <= num <= a.maxUse && num < |a.slots| && !Free(a.slots[num])
    case Crash(maxTrans, journal) => maxTrans >= 4 && journal != 0 && a.disk >= 0 && a.uidConst >= 0
  }

  function Apply(a: Adm, op: Op): Adm
    requires Inv(a) && Enabled(a, op)
  {
    match op
    case Begin(pid, time) => Creatr(a, pid, time)
    case Modify(num) => Iamm(a, num)
    case Finish(num) => Endotr(a, num)
    case Crash(maxTrans, journal) => Ini(a.disk, a.uidConst, maxTrans, journal)
  }

  lemma ApplyInv(a: Adm, op: Op)
    requires Inv(a) && Enabled(a, op)
    ensures Inv(Apply(a, op))
  {
    hide Inv, Creatr, Iamm, Endotr, Ini;
    match op
    case Begin(pid, time) => CreatrInv(a, pid, time);
    case Modify(num) => IammInv(a, num);
    case Finish(num) => EndotrInv(a, num);
    case Crash(maxTrans, journal) => IniInv(a.disk, a.uidConst, maxTrans, journal);
  }

  ghost predicate Possible(a: Adm, ops: seq<Op>)
    decreases |ops|
  {
    ops == [] || (Inv(a) && Enabled(a, ops[0]) && Possible(Apply(a, ops[0]), ops[1..]))
  }

  /** The identifiers handed out in a run, over all crashes. */
  ghost function Handed(a: Adm, ops: seq<Op>): seq<int>
    requires Possible(a, ops)
    decreases |ops|
  {
    if ops == [] then []
    else (if ops[0].Modify? then [a.uidt] else []) + Handed(Apply(a, ops[0]), ops[1..])
  }

  /** The ceiling on disk is above every identifier handed out so far. */
  predicate Ahead(a: Adm) { a.uidConst >= 1 && a.disk == a.idt && 1 <= a.uidt < a.idt }

  lemma AheadKept(a: Adm, op: Op)
    requires Inv(a) && Enabled(a, op) && Ahead(a)
    ensures var b := Apply(a, op);
            Ahead(b) && b.uidt >= a.uidt && (op.Modify? ==> b.uidt == a.uidt + 1)
  {
    hide Inv, NewMinid, Down, Place;
  }

  /** Identifiers grow strictly from one transaction to the next, whatever crashes come between. */
  lemma {:induction false} IdsIncrease(a: Adm, ops: seq<Op>)
    requires Possible(a, ops) && Ahead(a)
    ensures var ids := Handed(a, ops);
            (forall i :: 0 <= i < |ids| ==> ids[i] >= a.uidt) && forall i, j :: 0 <= i < j < |ids| ==> ids[i] < ids[j]
    decreases |ops|
  {
    hide Inv, Apply, Enabled, Ahead;
    if ops != [] {
      var op, tail := ops[0], ops[1..];
      AheadKept(a, op);
      var b := Apply(a, op);
      IdsIncrease(b, tail);
      IdsFirst(a, ops, Handed(b, tail), b.uidt);
    }
  }

  lemma IdsFirst(a: Adm, ops: seq<Op>, rest: seq<int>, next: int)
    requires Possible(a, ops) && ops != [] && rest == Handed(Apply(a, ops[0]), ops[1..])
    requires next >= a.uidt && (ops[0].Modify? ==> next == a.uidt + 1)
    requires (forall i :: 0 <= i < |rest| ==> rest[i] >= next)
             && forall i, j :: 0 <= i < j < |rest| ==> rest[i] < rest[j]
    ensures var ids := Handed(a, ops);
            (forall i :: 0 <= i < |ids| ==> ids[i] >= a.uidt) && forall i, j :: 0 <= i < j < |ids| ==> ids[i] < ids[j]
  {
    hide Inv, Apply, Enabled;
    var ids := Handed(a, ops);
    if ops[0].Modify? {
      assert ids == [a.uidt] + rest;
    } else {
      assert ids == [] + rest == rest;
    }
  }

  predicate Sound(disk: nat, uidConst: nat) { uidConst >= 2 || (uidConst == 1 && disk != 0) }

  ghost predicate NeverRepeats(a: Adm) {
    forall ops | Possible(a, ops) ::
      forall i, j :: 0 <= i < j < |Handed(a, ops)| ==> Handed(a, ops)[i] != Handed(a, ops)[j]
  }

  /** Identifiers are never handed out twice if and only if the step of the ceiling is at least 2, or 1 with
      a ceiling on disk that is not 0. */
  lemma UniqueIff(disk: nat, uidConst: nat, maxTrans: nat, journal: int)
    requires maxTrans >= 4 && journal != 0
    ensures NeverRepeats(Ini(disk, uidConst, maxTrans, journal)) <==> Sound(disk, uidConst)
  {
    var a := Ini(disk, uidConst, maxTrans, journal);
    IniInv(disk, uidConst, maxTrans, journal);
    if Sound(disk, uidConst) {
      assert Ahead(a);
      forall ops | Possible(a, ops)
        ensures forall i, j :: 0 <= i < j < |Handed(a, ops)| ==> Handed(a, ops)[i] != Handed(a, ops)[j]
      {
        IdsIncrease(a, ops);
      }
    } else {
      var ops := RepeatingRun(disk, uidConst, maxTrans, journal);
      assert Handed(a, ops)[0] == Handed(a, ops)[1];
    }
  }

  /** One transaction modifies, the administrator crashes, another one modifies. */
  lemma RepeatingRun(disk: nat, uidConst: nat, maxTrans: nat, journal: int) returns (ops: seq<Op>)
    requires maxTrans >= 4 && journal != 0 && !Sound(disk, uidConst)
    ensures var a := Ini(disk, uidConst, maxTrans, journal); Possible(a, ops) && Handed(a, ops) == [a.uidt, a.uidt]
  {
    hide Inv, Taken;
    var a := Ini(disk, uidConst, maxTrans, journal);
    IniInv(disk, uidConst, maxTrans, journal);
    BeginModify(a);
    var b := Iamm(Creatr(a, 1, 1), 2);
    var c := Ini(b.disk, uidConst, maxTrans, journal);
    IniInv(b.disk, uidConst, maxTrans, journal);
    BeginModify(c);
    assert c.uidt == a.uidt;
    var last := [Begin(1, 1), Modify(2)];
    TwoSteps(c, []);
    var crash := [Crash(maxTrans, journal)] + last;
    assert crash[1..] == last;
    assert Possible(b, crash) && Handed(b, crash) == [a.uidt] by {
      assert Inv(b);
      assert Apply(b, crash[0]) == c;
    }
    TwoSteps(a, crash);
    ops := last + crash;
  }

  /** After a start the first transaction goes to place 2. */
  lemma BeginModify(a: Adm)
    requires Inv(a) && |a.slots| >= 4 && a.maxUse == 3 && Free(a.slots[2])
    ensures Place(a) == 2 && Inv(Creatr(a, 1, 1)) && Creatr(a, 1, 1).uidt == a.uidt && Creatr(a, 1, 1).disk == a.disk
            && Creatr(a, 1, 1).idt == a.idt
    ensures Creatr(a, 1, 1).uidConst == a.uidConst && Enabled(Creatr(a, 1, 1), Modify(2))
            && Inv(Iamm(Creatr(a, 1, 1), 2))
  {
    CreatrInv(a, 1, 1);
    IammInv(Creatr(a, 1, 1), 2);
  }

  lemma TwoSteps(a: Adm, rest: seq<Op>)
    requires Inv(a) && |a.slots| >= 4 && a.maxUse == 3 && Free(a.slots[2])
    requires Inv(Creatr(a, 1, 1)) && Enabled(Creatr(a, 1, 1), Modify(2)) && Creatr(a, 1, 1).uidt == a.uidt
    requires Possible(Iamm(Creatr(a, 1, 1), 2), rest)
    ensures var ops := [Begin(1, 1), Modify(2)] + rest;
            Possible(a, ops) && Handed(a, ops) == [a.uidt] + Handed(Iamm(Creatr(a, 1, 1), 2), rest)
  {
    hide Inv, Creatr, Iamm;
    var ops := [Begin(1, 1), Modify(2)] + rest;
    var tail := [Modify(2)] + rest;
    assert ops[1..] == tail && tail[1..] == rest;
    var b := Creatr(a, 1, 1);
    assert Apply(a, ops[0]) == b && Apply(b, tail[0]) == Iamm(b, 2);
    assert Possible(b, tail);
  }

  /** In every reachable state no running modifying transaction is below the least identifier. */
  lemma {:induction false} MinidBelowAll(a: Adm, ops: seq<Op>, i: int)
    requires Inv(a) && Possible(a, ops)
    ensures var b := Reached(a, ops);
            Inv(b) && (FIR_TRN_NUM <= i <= b.maxUse && b.slots[i].uid != 0 ==> b.minid <= b.slots[i].uid < b.uidt)
    decreases |ops|
  {
    hide Apply, Enabled;
    if ops != [] {
      hide Inv;
      ApplyInv(a, ops[0]);
      MinidBelowAll(Apply(a, ops[0]), ops[1..], i);
    }
  }

  ghost function Reached(a: Adm, ops: seq<Op>): Adm
    requires Possible(a, ops)
    decreases |ops|
  {
    if ops == [] then a else Reached(Apply(a, ops[0]), ops[1..])
  }

  /** A run that begins with `op`. */
  lemma RunOn(a: Adm, op: Op, rest: seq<Op>)
    requires Inv(a) && Enabled(a, op) && Possible(Apply(a, op), rest)
    ensures Possible(a, [op] + rest) && Reached(a, [op] + rest) == Reached(Apply(a, op), rest)
  {
    hide Inv, Enabled, Apply;
    assert ([op] + rest)[1..] == rest;
  }

  const TWO_MODIFY := [Begin(7, 1), Begin(8, 1), Modify(3), Modify(2)]

  /** Two transactions modify, the later one first, and so it has the lesser identifier. */
  lemma TwoModify()
    ensures var a := Ini(4, 6, 4, 9);
            Possible(a, TWO_MODIFY) && Reached(a, TWO_MODIFY) ==
              Adm([NOBODY, Slot(0, 9, 1), Slot(5, 7, 1), Slot(4, 8, 1)], 3, 4, 6, 10, 4, 6, 10)
  {
    hide Inv, Taken, Possible, Reached;
    var a := Ini(4, 6, 4, 9);
    IniInv(4, 6, 4, 9);
    assert a.slots == [NOBODY, Slot(0, 9, 1), NOBODY, NOBODY];
    var b := Creatr(a, 7, 1);
    CreatrInv(a, 7, 1);
    assert b.slots == [NOBODY, Slot(0, 9, 1), Slot(0, 7, 1), NOBODY];
    var c := Creatr(b, 8, 1);
    CreatrInv(b, 8, 1);
    assert c.slots == [NOBODY, Slot(0, 9, 1), Slot(0, 7, 1), Slot(0, 8, 1)];
    var d := Iamm(c, 3);
    IammInv(c, 3);
    assert d.slots == [NOBODY, Slot(0, 9, 1), Slot(0, 7, 1), Slot(4, 8, 1)];
    var e := Iamm(d, 2);
    assert e.slots == [NOBODY, Slot(0, 9, 1), Slot(5, 7, 1), Slot(4, 8, 1)];
    NoRun(e);
    RunOn(d, Modify(2), []);
    RunOn(c, Modify(3), [Modify(2)] + []);
    RunOn(b, Begin(8, 1), [Modify(3)] + ([Modify(2)] + []));
    RunOn(a, Begin(7, 1), [Begin(8, 1)] + ([Modify(3)] + ([Modify(2)] + [])));
    assert TWO_MODIFY == [Begin(7, 1)] + ([Begin(8, 1)] + ([Modify(3)] + ([Modify(2)] + [])));
  }

  lemma NoRun(a: Adm)
    ensures Possible(a, []) && Reached(a, []) == a
  {}

  /** When the one with the lesser identifier ends, the least identifier goes down to 0. */
  lemma MinidFalls()
    ensures var a := Ini(4, 6, 4, 9);
            && Possible(a, TWO_MODIFY)
            && var b := Reached(a, TWO_MODIFY);
               Inv(b) && Enabled(b, Finish(3)) && Endotr(b, 3).minid == 0 < b.minid
  {
    var a := Ini(4, 6, 4, 9);
    IniInv(4, 6, 4, 9);
    TwoModify();
    MinidBelowAll(a, TWO_MODIFY, 2);
    hide Inv, Possible, Reached;
    var b := Reached(a, TWO_MODIFY);
    var ss := b.slots[3 := b.slots[3].(uid := 0)];
    assert ss[2].uid == 5 && ss[3].uid == 0;
    assert Gap(ss, 3);
    MinidFallsIff(b, 3);
  }

  // ---- Unique names ----

  /** `disk` is the name ceiling in the administrator's file. */
  datatype Names = Names(unname: int, nunname: int, disk: int, step: int)

  function IniNames(disk: nat, step: nat): Names {
    Names(if disk == 0 then 1 else disk, disk + step, disk + step, step)
  }

  /** The name handed out is the new `unname`. What goes to disk is the name, not the raised ceiling. */
  function Uniqnm(n: Names): Names {
    var u := n.unname + 1;
    if u == n.nunname then Names(u, n.nunname + n.step, u, n.step) else n.(unname := u)
  }

  function NamesAfter(disk: nat, step: nat, k: nat): Names {
    if k == 0 then IniNames(disk, step) else Uniqnm(NamesAfter(disk, step, k - 1))
  }

  predicate Multiple(x: nat, step: nat)
    requires step > 0
  {
    x == 0 || (x >= step && Multiple(x - step, step))
  }

  lemma {:induction false} MultipleIff(q: nat, r: nat, step: nat)
    requires r < step
    ensures step * q + r >= 0 && (Multiple(step * q + r, step) <==> r == 0)
  {
    if q != 0 {
      MultipleIff(q - 1, r, step);
      assert step * q + r == step * (q - 1) + r + step;
    }
  }

  function FirstName(disk: nat): nat { if disk == 0 then 1 else disk }

  /** The names of one run follow each other without a gap. */
  lemma {:induction false} NamesCount(disk: nat, step: nat, k: nat)
    ensures var n := NamesAfter(disk, step, k); n.unname == FirstName(disk) + k && n.step == step
  {
    if k != 0 {
      NamesCount(disk, step, k - 1);
    }
  }

  /** The start is at the ceiling already, so that no name ever meets it. */
  predicate Stuck(disk: nat, step: nat) { step == 0 || (step == 1 && disk == 0) }

  lemma {:induction false} NamesStuck(disk: nat, step: nat, k: nat)
    requires Stuck(disk, step)
    ensures var n := NamesAfter(disk, step, k); n.disk == n.nunname == disk + step
  {
    NamesCount(disk, step, k);
    if k != 0 {
      NamesStuck(disk, step, k - 1);
      NamesCount(disk, step, k - 1);
    }
  }

  /** The ceilings are the start plus multiples of the step; the last one reached is on disk. */
  lemma {:induction false} NamesShape(disk: nat, step: nat, k: nat) returns (q: nat)
    requires !Stuck(disk, step)
    ensures var n := NamesAfter(disk, step, k);
            && n.step == step && n.unname == FirstName(disk) + k && n.nunname == disk + step * (q + 1)
            && disk + step * q <= n.unname < n.nunname
            && n.disk == if q == 0 then disk + step else disk + step * q
  {
    if k == 0 {
      q := 0;
    } else {
      q := NamesShape(disk, step, k - 1);
      var m := NamesAfter(disk, step, k - 1);
      if m.unname + 1 == m.nunname {
        assert step * (q + 2) == step * (q + 1) + step;
        q := q + 1;
      }
    }
  }

  /** `name` is one of the first `k` names handed out. */
  ghost predicate WasHanded(disk: nat, step: nat, k: nat, name: int) {
    exists i: nat :: 1 <= i <= k && NamesAfter(disk, step, i).unname == name
  }

  lemma WasHandedIff(disk: nat, step: nat, k: nat, name: int)
    ensures WasHanded(disk, step, k, name) <==> FirstName(disk) < name <= FirstName(disk) + k
  {
    forall i: nat
      ensures NamesAfter(disk, step, i).unname == FirstName(disk) + i
    {
      NamesCount(disk, step, i);
    }
    if FirstName(disk) < name <= FirstName(disk) + k {
      assert NamesAfter(disk, step, name - FirstName(disk)).unname == name;
    }
  }

  /** Past the first ceiling the last name is a ceiling if and only if it lies a multiple of the step behind
      the start. */
  lemma AtCeiling(disk: nat, step: nat, k: nat)
    requires !Stuck(disk, step)
    ensures var n := NamesAfter(disk, step, k);
            && n.unname >= disk && disk + step <= n.disk
            && (n.unname < disk + step ==> n.disk == disk + step)
            && (n.unname >= disk + step
                ==> n.disk <= n.unname && (n.disk == n.unname <==> Multiple(n.unname - disk, step)))
  {
    hide NamesAfter, Stuck, Multiple;
    var n := NamesAfter(disk, step, k);
    var q := NamesShape(disk, step, k);
    var s := step * q;
    assert step * (q + 1) == s + step;
    if q >= 1 {
      Multiples(step, q);
      MultipleIff(q, n.unname - disk - s, step);
    }
  }

  /** After `k` names and a crash the next name has been handed out before if and only if the names went
      past the first ceiling and did not stop exactly at a ceiling; if the ceiling is never met, if and
      only if there were any. */
  lemma NamesRepeatIff(disk: nat, step: nat, k: nat)
    ensures var n := NamesAfter(disk, step, k);
            && n.disk >= 0 && n.unname >= disk
            && (WasHanded(disk, step, k, Uniqnm(IniNames(n.disk, step)).unname) <==>
                  if Stuck(disk, step) then k >= 1
                  else n.unname > disk + step && !Multiple(n.unname - disk, step))
  {
    hide NamesAfter, WasHanded, Multiple;
    var n := NamesAfter(disk, step, k);
    NamesCount(disk, step, k);
    if Stuck(disk, step) {
      NamesStuck(disk, step, k);
    } else {
      AtCeiling(disk, step, k);
    }
    WasHandedIff(disk, step, k, Uniqnm(IniNames(n.disk, step)).unname);
  }

  lemma Multiples(step: nat, q: nat)
    requires q >= 1
    ensures step * q >= step
  {
    assert step * q == step + step * (q - 1);
  }

  // ---- The administrator ----

  class Dispatcher {
    var tabtr: array<Slot>
    var maxusetran: int
    var numtr: int
    var uidt: int
    var idt: int
    var minid: int
    var uidconst: int
    var p2uid: int        // the record in memory
    var disk: int         // the record in the file

    ghost function Abs(): Adm
      reads this, tabtr
    {
      Adm(tabtr[..], maxusetran, numtr, uidt, idt, minid, uidconst, disk)
    }

    constructor (disk: nat, uidconst: nat, maxtrans: nat, journal: int)
      requires maxtrans >= 4 && journal != 0
      ensures Abs() == Ini(disk, uidconst, maxtrans, journal) && Inv(Abs()) && fresh(tabtr)
      ensures Started(Abs(), disk, uidconst, maxtrans, journal)
    {
      idt := disk + uidconst;
      uidt := if disk == 0 then 1 else disk;
      minid := if disk == 0 then 1 else disk;
      this.uidconst, p2uid, this.disk := uidconst, disk + uidconst, disk + uidconst;
      tabtr := new Slot[maxtrans](_ => NOBODY);
      maxusetran, numtr := FIR_TRN_NUM, 1;
      new;
      tabtr[numtr] := Slot(0, journal, 1);
      numtr, maxusetran := numtr + 1, maxusetran + 1;
      assert tabtr[..] == Slots(maxtrans)[1 := Slot(0, journal, 1)];
      IniInv(disk, uidconst, maxtrans, journal);
    }

    /** The transaction `num` becomes a modifying one. */
    method IAmModifying(num: int)
      requires Inv(Abs()) && FIR_TRN_NUM <= num <= maxusetran
      modifies this, tabtr
      ensures Abs() == Iamm(old(Abs()), num) && Inv(Abs()) && tabtr == old(tabtr)
      ensures Numbered(old(Abs()), Abs(), num)
    {
      ghost var a := Abs();
      tabtr[num] := tabtr[num].(uid := uidt);
      uidt := uidt + 1;
      if uidt == idt {
        idt := idt + uidconst;
        p2uid := idt;
        disk := p2uid;
      }
      assert tabtr[..] == a.slots[num := a.slots[num].(uid := a.uidt)];
      IammInv(a, num);
      IammNumbers(a, num);
    }

    /** The identifiers for the record of the end of `num`. */
    method WriteEnd(num: int) returns (rec: seq<int>)
      requires Inv(Abs())
      ensures rec == Record(tabtr[..], num, FIR_TRN_NUM, maxusetran)
    {
      hide Inv, Record;
      var i := FIR_TRN_NUM;
      rec := [];
      assert maxusetran < tabtr.Length by { InvRange(Abs()); }
      while i <= maxusetran
        modifies {}
        invariant FIR_TRN_NUM <= i
                  && Record(tabtr[..], num, FIR_TRN_NUM, maxusetran) == rec + Record(tabtr[..], num, i, maxusetran)
        decreases maxusetran - i
      {
        var uid := tabtr[i].uid;
        RecordStep(tabtr[..], num, i, maxusetran);
        if uid != 0 && i != num {
          rec := rec + [uid];
        }
        i := i + 1;
      }
      RecordStep(tabtr[..], num, i, maxusetran);
    }

    /** The search for the least identifier as it is written. */
    method SearchMinid() returns (m: int)
      requires 1 <= maxusetran < tabtr.Length
      ensures m == NewMinid(tabtr[..], maxusetran, uidt)
    {
      var i := FIR_TRN_NUM;
      while i <= maxusetran && tabtr[i].uid == 0
        invariant FIR_TRN_NUM <= i <= maxusetran + 1
        invariant FirstId(tabtr[..], FIR_TRN_NUM, maxusetran) == FirstId(tabtr[..], i, maxusetran)
      {
        i := i + 1;
      }
      if i > maxusetran {
        return uidt;
      }
      m := tabtr[i].uid;
      ghost var first := i;
      while i <= maxusetran
        invariant first <= i <= maxusetran + 1
        invariant Least(tabtr[..], first, maxusetran, tabtr[first].uid) == Least(tabtr[..], i, maxusetran, m)
      {
        if tabtr[i].uid < m {
          m := tabtr[i].uid;
        }
        i := i + 1;
      }
    }

    /** Goes down to the last place with a process. */
    method Shrink()
      requires 1 <= maxusetran < tabtr.Length && tabtr[1].pid != 0
      modifies this`maxusetran
      ensures maxusetran == Down(tabtr[..], old(maxusetran))
    {
      ghost var m := maxusetran;
      while tabtr[maxusetran].pid == 0
        invariant 1 <= maxusetran < tabtr.Length && Down(tabtr[..], m) == Down(tabtr[..], maxusetran)
        decreases maxusetran
      {
        maxusetran := maxusetran - 1;
      }
    }

    method EndOfTransaction(num: int)
      requires Inv(Abs()) && FIR_TRN_NUM <= num <= maxusetran && !Free(tabtr[num])
      modifies this, tabtr
      ensures Abs() == Endotr(old(Abs()), num) && Inv(Abs()) && tabtr == old(tabtr)
      ensures Ended(old(Abs()), Abs(), num)
    {
      hide Ended, Inv;
      ghost var a := Abs();
      InvRange(a);
      EndotrInv(a, num);
      EndotrEnds(a, num);
      if tabtr[num].uid == minid {
        tabtr[num] := tabtr[num].(uid := 0);
        assert tabtr[..] == a.slots[num := a.slots[num].(uid := 0)];
        minid := SearchMinid();
      }
      ghost var ss := tabtr[..];
      tabtr[num] := tabtr[num].(pid := 0);
      ghost var ts := tabtr[..];
      assert ts == ss[num := ss[num].(pid := 0)];
      numtr := numtr - 1;
      if maxusetran == numtr {
        Shrink();
      }
      tabtr[num] := tabtr[num].(time := 0);
      assert tabtr[..] == ts[num := ts[num].(time := 0)];
    }

    method CreateTransaction(pid: int, time: int) returns (trnum: int)
      requires Inv(Abs()) && pid != 0 && time != 0
      modifies this, tabtr
      ensures Abs() == Creatr(old(Abs()), pid, time) && Inv(Abs()) && trnum == Place(old(Abs()))
      ensures Created(old(Abs()), Abs(), trnum, pid, time)
      ensures tabtr == old(tabtr) || fresh(tabtr)
    {
      hide Created, Free;
      ghost var a := Abs();
      CreatrInv(a, pid, time);
      CreatrCreates(a, pid, time);
      PlaceFits(a);
      trnum := 0;
      var j := FIR_TRN_NUM;
      while j <= maxusetran && trnum == 0
        invariant FIR_TRN_NUM <= j <= maxusetran + 1
        invariant if trnum == 0 then FirstFree(a.slots, FIR_TRN_NUM, a.maxUse) == FirstFree(a.slots, j, a.maxUse)
                  else trnum == FirstFree(a.slots, FIR_TRN_NUM, a.maxUse)
        decreases maxusetran - j, trnum == 0
      {
        if Free(tabtr[j]) {
          trnum := j;
        } else {
          j := j + 1;
        }
      }
      if trnum == 0 {
        maxusetran := maxusetran + 1;
        trnum := maxusetran;
        if numtr == tabtr.Length {
          var larger := new Slot[2 * tabtr.Length](
            i requires 0 <= i reads this, tabtr => if i < tabtr.Length then tabtr[i] else NOBODY);
          assert larger[..] == a.slots + Slots(|a.slots|);
          tabtr := larger;
        }
      }
      ghost var ss := tabtr[..];
      numtr := numtr + 1;
      tabtr[trnum] := Slot(0, pid, time);
      assert tabtr[..] == ss[trnum := Slot(0, pid, time)];
    }
  }
}
