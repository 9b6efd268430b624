/** Without new calls the protocol comes to rest after boundedly many steps, whatever their order, and every
    call has then ended, unless it was blocked or its reply is one whose end is not seen. */
module Settling {
  import opened MessageCache
  import opened Protocol

  // ---- How many steps there are ----

  /** The messages to the clients `ids` that are not taken yet. */
  ghost function Untaken(ids: set<int>, inbox: map<int, seq<Message>>): nat
    requires ids <= inbox.Keys
  {
    if exists c :: c in ids then
      var c :| c in ids;
      |inbox[c]| + Untaken(ids - {c}, inbox)
    else 0
  }

  lemma {:induction false} UntakenAt(ids: set<int>, inbox: map<int, seq<Message>>, c: int)
    requires c in ids && ids <= inbox.Keys
    ensures Untaken(ids, inbox) == |inbox[c]| + Untaken(ids - {c}, inbox)
    decreases |ids|
  {
    var d :| d in ids && Untaken(ids, inbox) == |inbox[d]| + Untaken(ids - {d}, inbox);
    if d != c {
      UntakenAt(ids - {d}, inbox, c);
      UntakenAt(ids - {c}, inbox, d);
      assert ids - {d} - {c} == ids - {c} - {d};
    }
  }

  lemma {:induction false} UntakenSame(ids: set<int>, inbox: map<int, seq<Message>>, inbox': map<int, seq<Message>>)
    requires ids <= inbox.Keys && ids <= inbox'.Keys && forall c <- ids :: inbox[c] == inbox'[c]
    ensures Untaken(ids, inbox) == Untaken(ids, inbox')
    decreases |ids|
  {
    if c :| c in ids {
      UntakenAt(ids, inbox, c);
      UntakenAt(ids, inbox', c);
      UntakenSame(ids - {c}, inbox, inbox');
    }
  }

  lemma UntakenUpdate(inbox: map<int, seq<Message>>, c: int, ms: seq<Message>)
    requires c in inbox
    ensures Untaken(inbox[c := ms].Keys, inbox[c := ms]) == Untaken(inbox.Keys, inbox) - |inbox[c]| + |ms|
  {
    var inbox' := inbox[c := ms];
    assert inbox'.Keys == inbox.Keys;
    UntakenAt(inbox.Keys, inbox, c);
    UntakenAt(inbox.Keys, inbox', c);
    UntakenSame(inbox.Keys - {c}, inbox, inbox');
  }

  /** The steps that the requests in the queue still take, if no reply has more than `n` messages. */
  function Requests(hs: seq<Header>, n: nat): nat {
    if hs == [] then 0 else 3 + 2 * hs[0].size + 2 * n + Requests(hs[1..], n)
  }

  /** The argument bytes that the client of the server has still to send. */
  ghost function Owed(s: State): nat {
    if s.server.Receiving? && s.server.h.reply in s.clients && s.clients[s.server.h.reply].Called?
    then s.server.h.size
    else Unsent(s)
  }

  /** The steps that the request the server deals with still takes. */
  ghost function Serving(s: State, n: nat): nat {
    match s.server
    case Selecting => 0
    case Receiving(_, _) => 1 + 2 * n + Owed(s) + Left(s)
    case Replying(_, _, _) => 2 * Left(s)
  }

  /** A bound on the steps to come without new calls. */
  ghost function Work(s: State, n: nat): nat {
    Requests(s.headers, n) + Serving(s, n) + Untaken(s.inbox.Keys, s.inbox)
  }

  lemma SelectFewer(s: State, n: nat)
    requires Inv(s) && Enabled(s, Select)
    ensures Work(Apply(s, Select), n) < Work(s, n)
  {
    hide Mine, Arriving, Untaken;
    var t, h := Apply(s, Select), s.headers[0];
    UntakenUpdate(s.inbox, h.reply, s.inbox[h.reply] + [Ready(h.cmd < s.known)]);
    assert ClientOk(s, h.reply);
    MineFront(s.headers, h.reply);
    assert |Mine(s.headers, h.reply)| > 0;
  }

  lemma GetReadyFewer(s: State, c: int, n: nat)
    requires Inv(s) && Enabled(s, GetReady(c))
    ensures Work(Apply(s, GetReady(c)), n) < Work(s, n)
  {
    hide Mine, Arriving, Untaken, Requests;
    assert ClientOk(s, c);
    UntakenUpdate(s.inbox, c, s.inbox[c][1..]);
  }

  lemma SendArgsFewer(s: State, c: int, n: nat)
    requires Inv(s) && Enabled(s, SendArgs(c))
    ensures Work(Apply(s, SendArgs(c)), n) < Work(s, n)
  {
    hide Mine, Arriving, Untaken, Requests;
    assert ClientOk(s, c);
  }

  lemma ReceiveArgsFewer(s: State, n: nat)
    requires Inv(s) && Enabled(s, ReceiveArgs)
    ensures Work(Apply(s, ReceiveArgs), n) < Work(s, n)
  {
    hide ClientOk, Untaken, Requests;
    assert s.args[0] != [];
  }

  lemma ServeFewer(s: State, reply: Bytes, n: nat)
    requires Inv(s) && Enabled(s, Serve(reply)) && Pieces(reply) <= n
    ensures Work(Apply(s, Serve(reply)), n) < Work(s, n)
  {
    hide ClientOk, Untaken, Requests, Pieces;
  }

  lemma SendReplyFewer(s: State, n: nat)
    requires Inv(s) && Enabled(s, SendReply)
    ensures Work(Apply(s, SendReply), n) < Work(s, n)
  {
    hide Mine, Arriving, Untaken, Requests, Pieces, Piece;
    var c := s.server.h.reply;
    assert ClientOk(s, c);
    UntakenUpdate(s.inbox, c, s.inbox[c] + [Data(Piece(s.server.reply, s.server.sent))]);
  }

  lemma TakeReplyFewer(s: State, c: int, n: nat)
    requires Inv(s) && Enabled(s, TakeReply(c))
    ensures Work(Apply(s, TakeReply(c)), n) < Work(s, n)
  {
    hide Mine, Arriving, Untaken, Requests;
    UntakenUpdate(s.inbox, c, s.inbox[c][1..]);
  }

  /** No new call, and no reply of more than `n` messages. */
  predicate Modest(step: Step, n: nat) { !step.Call? && (step.Serve? ==> Pieces(step.reply) <= n) }

  lemma Fewer(s: State, step: Step, n: nat)
    requires Inv(s) && Enabled(s, step) && Modest(step, n)
    ensures Work(Apply(s, step), n) < Work(s, n)
  {
    hide Inv, Apply, Enabled, Work, Pieces;
    match step
    case Select => SelectFewer(s, n);
    case GetReady(c) => GetReadyFewer(s, c, n);
    case SendArgs(c) => SendArgsFewer(s, c, n);
    case ReceiveArgs => ReceiveArgsFewer(s, n);
    case Serve(reply) => ServeFewer(s, reply, n);
    case SendReply => SendReplyFewer(s, n);
    case TakeReply(c) => TakeReplyFewer(s, c, n);
  }

  /** A run without new calls, in whatever order, has no more steps than that. */
  lemma {:induction false} RunsBounded(s: State, steps: seq<Step>, n: nat)
    requires Inv(s) && Possible(s, steps) && forall i :: 0 <= i < |steps| ==> Modest(steps[i], n)
    ensures |steps| + Work(Run(s, steps), n) <= Work(s, n)
    decreases |steps|
  {
    hide Inv, Apply, Enabled, Work, Modest;
    if steps != [] {
      StepKeeps(s, steps[0]);
      Fewer(s, steps[0], n);
      RunsBounded(Apply(s, steps[0]), steps[1..], n);
    }
  }

  // ---- Where no step is left ----

  /** Nothing can happen but a new call. */
  ghost predicate AtRest(s: State) { forall step: Step :: Enabled(s, step) ==> step.Call? }

  /** The client has no call under way, or waits for a server that has stopped, or for the rest of a reply
      that it has already. */
  ghost predicate ClientRests(s: State, c: int)
    requires c in s.clients && c in s.inbox
  {
    match s.clients[c]
    case Called(_, _) => Stopped(s) && Queued(s.headers, c)
    case Sending(_, _, _) => false
    case Waiting(_, _, _) => !Deals(s, c) && s.inbox[c] == []
    case Confused => false
    case _ => true
  }

  ghost predicate ServerRests(s: State) { (s.server.Selecting? && s.headers == []) || Stopped(s) }

  lemma ServerMoves(s: State)
    requires Inv(s) && AtRest(s)
    ensures ServerRests(s)
  {
    hide Mine, Arriving;
    assert !Enabled(s, Select) && !Enabled(s, SendReply);
    if s.server.Receiving? {
      var d := s.server.h.reply;
      assert ClientOk(s, d);
      assert !Enabled(s, GetReady(d)) && !Enabled(s, SendArgs(d)) && !Enabled(s, ReceiveArgs);
      assert !Enabled(s, Serve([]));
      ConcatNone();
    }
  }

  lemma ClientMoves(s: State, c: int)
    requires Inv(s) && AtRest(s) && c in s.clients
    ensures c in s.inbox && ClientRests(s, c)
  {
    hide Mine, Arriving;
    ServerMoves(s);
    assert ClientOk(s, c);
    assert !Enabled(s, GetReady(c)) && !Enabled(s, SendArgs(c)) && !Enabled(s, TakeReply(c));
    MineIff(s.headers, c);
  }

  lemma StepLeft(s: State, step: Step)
    requires Inv(s) && ServerRests(s) && (forall c <- s.clients :: ClientRests(s, c)) && Enabled(s, step)
    ensures step.Call?
  {
    hide Mine, Arriving;
    if step.GetReady? {
      assert ClientOk(s, step.c);
      MineIff(s.headers, step.c);
    }
  }

  /** Exactly then nothing but a new call can happen: the server waits for a request or has stopped, and every
      client rests. */
  lemma AtRestIff(s: State)
    requires Inv(s)
    ensures AtRest(s) <==> ServerRests(s) && forall c <- s.clients :: ClientRests(s, c)
  {
    hide Mine, Arriving, ClientOk, Enabled, ServerRests, ClientRests;
    if AtRest(s) {
      ServerMoves(s);
      forall c | c in s.clients
        ensures ClientRests(s, c)
      {
        ClientMoves(s, c);
      }
    } else if ServerRests(s) && forall c <- s.clients :: ClientRests(s, c) {
      forall step: Step | Enabled(s, step)
        ensures step.Call?
      {
        StepLeft(s, step);
      }
    }
  }

  // ---- How a run ends ----

  /** What is not blocked does not become so by other steps than calls. */
  lemma BlockedBefore(s: State, c: int, step: Step)
    requires Inv(s) && Enabled(s, step) && !step.Call? && Blocked(Apply(s, step), c)
    ensures Blocked(s, c)
  {
    hide Inv, Queued, UnknownAhead;
    if step.Select? {
      TailAhead(s.headers, s.known, c);
    }
  }

  lemma {:induction false} RunBlocked(s: State, c: int, steps: seq<Step>)
    requires Inv(s) && Possible(s, steps) && Blocked(Run(s, steps), c)
    requires forall i :: 0 <= i < |steps| ==> !steps[i].Call?
    ensures Blocked(s, c)
    decreases |steps|
  {
    hide Inv, Apply, Enabled, Blocked;
    if steps != [] {
      StepKeeps(s, steps[0]);
      RunBlocked(Apply(s, steps[0]), c, steps[1..]);
      BlockedBefore(s, c, steps[0]);
    }
  }

  /** The client has made a call at some time. */
  ghost predicate HasCalled(s: State, c: int) { c in s.clients && !s.clients[c].Idle? }

  lemma {:induction false} RunCalled(s: State, c: int, steps: seq<Step>)
    requires HasCalled(s, c) && Possible(s, steps)
    ensures HasCalled(Run(s, steps), c)
    decreases |steps|
  {
    if steps != [] {
      RunCalled(Apply(s, steps[0]), c, steps[1..]);
    }
  }

  /** The client has the whole reply and waits for more. */
  ghost predicate Hung(s: State, c: int) {
    && Answered(s, c) && s.inbox[c] == [] && c in s.answers
    && s.clients[c].got == s.answers[c].2 && Endless(s.answers[c].2)
  }

  lemma RestsHung(s: State, c: int)
    requires Inv(s) && c in s.clients && s.clients[c].Waiting? && c in s.inbox && ClientRests(s, c)
    ensures Hung(s, c)
  {
    assert ClientOk(s, c);
    var r := s.answers[c].2;
    var j: nat :| Arriving(s, c, s.clients[c].got, r, j, Pieces(r));
    AllTaken(s, c, s.clients[c].got, r, j);
  }

  /** However a run without new calls goes on to its end, a blocked call is then where it was, and every other
      call has ended with a reply or a refusal, unless the server gave it an endless reply. */
  lemma CallsEnd(s: State, c: int, steps: seq<Step>)
    requires Inv(s) && HasCalled(s, c) && Possible(s, steps) && AtRest(Run(s, steps))
    requires forall i :: 0 <= i < |steps| ==> !steps[i].Call?
    ensures var t := Run(s, steps);
            if Blocked(s, c) then c in t.clients && t.clients[c] == s.clients[c] && s.clients[c].Called?
            else Done(t, c) || Hung(t, c)
  {
    hide Mine, Arriving;
    var t := Run(s, steps);
    if Blocked(s, c) {
      assert ClientOk(s, c);
      MineIff(s.headers, c);
      TailNone(s.headers, s.known, c);
      BlockedForever(s, c, steps);
    } else {
      hide ServerOk, ClientOk, Enabled, Apply;
      RunKeeps(s, steps);
      RunCalled(s, c, steps);
      ClientMoves(t, c);
      if t.clients[c].Waiting? {
        RestsHung(t, c);
      } else if t.clients[c].Called? {
        RunBlocked(s, c, steps);
      }
    }
  }

  /** Such an end is always reached. */
  lemma {:induction false} ComesToRest(s: State, n: nat) returns (steps: seq<Step>)
    requires Inv(s) && n >= 1
    ensures Possible(s, steps) && AtRest(Run(s, steps))
    ensures forall i :: 0 <= i < |steps| ==> Modest(steps[i], n)
    decreases Work(s, n)
  {
    hide Inv, Apply, Enabled, Work;
    if AtRest(s) {
      steps := [];
    } else {
      var step := Moves(s);
      StepKeeps(s, step);
      Fewer(s, step, n);
      var rest := ComesToRest(Apply(s, step), n);
      steps := [step] + rest;
      assert steps[1..] == rest;
    }
  }

  lemma Moves(s: State) returns (step: Step)
    requires !AtRest(s)
    ensures Enabled(s, step) && Modest(step, 1)
  {
    step :| Enabled(s, step) && !step.Call?;
    if step.Serve? {
      step := Serve([]);
    }
  }
}
