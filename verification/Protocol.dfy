/** The local remote-call protocol over one typed message queue: any number of clients, one server. */
module Protocol {
  import opened ByteType
  import opened Concatenation
  import opened MessageCache

  /** A request header, message type 1. */
  datatype Header = Header(cmd: nat, reply: int, size: nat)
  /** A message to a client, its type being the client's number. */
  datatype Message = Ready(served: bool) | Data(bytes: Bytes)

  datatype Client =
    | Idle
    | Called(cmd: nat, args: Bytes)                  // the header is sent
    | Sending(cmd: nat, args: Bytes, start: nat)     // READY has come, arguments from `start` on are not sent
    | Waiting(cmd: nat, args: Bytes, got: Bytes)     // all arguments are sent, `got` of the reply has come
    | Finished(cmd: nat, args: Bytes, got: Bytes)
    | Refused                                        // the server does not know the command
    | Confused                                       // a message that was not expected

  datatype Server =
    | Selecting
    | Receiving(h: Header, cache: Bytes)
    | Replying(h: Header, reply: Bytes, sent: nat)   // `sent` messages of the reply are sent

  /** `known` commands are served. `headers`, `args` and `inbox` are the messages of type 1, of the server's
      own type and of each client's type; `answers` remembers what the server computed for whom. */
  datatype State = State(known: nat, clients: map<int, Client>, server: Server, headers: seq<Header>, args: seq<Bytes>,
                         inbox: map<int, seq<Message>>, answers: map<int, (nat, Bytes, Bytes)>)

  datatype Step =
    | Call(c: int, cmd: nat, args: Bytes)
    | Select
    | GetReady(c: int)
    | SendArgs(c: int)
    | ReceiveArgs
    | Serve(reply: Bytes)
    | SendReply
    | TakeReply(c: int)

  ghost predicate Enabled(s: State, step: Step) {
    match step
    case Call(c, cmd, args) =>
      // an encoded record has a mark, so there are always argument bytes
      c in s.clients && (s.clients[c].Idle? || s.clients[c].Finished? || s.clients[c].Refused?) && args != []
    case Select => s.server.Selecting? && s.headers != []
    case GetReady(c) => c in s.clients && s.clients[c].Called? && c in s.inbox && s.inbox[c] != []
    case SendArgs(c) => c in s.clients && s.clients[c].Sending? && s.clients[c].start < |s.clients[c].args|
    case ReceiveArgs => s.server.Receiving? && |s.server.cache| < s.server.h.size && s.args != []
    case Serve(_) => s.server.Receiving? && |s.server.cache| >= s.server.h.size
    case SendReply => s.server.Replying? && s.server.h.reply in s.inbox
    case TakeReply(c) => c in s.clients && s.clients[c].Waiting? && c in s.inbox && s.inbox[c] != []
  }

  ghost function Apply(s: State, step: Step): State
    requires Enabled(s, step)
  {
    match step
    case Call(c, cmd, args) => s.(clients := s.clients[c := Called(cmd, args)],
                                  headers := s.headers + [Header(cmd, c, |args|)])
    case Select =>
      var h := s.headers[0];
      s.(headers := s.headers[1..], server := Receiving(h, []),
         inbox := if h.reply in s.inbox then s.inbox[h.reply := s.inbox[h.reply] + [Ready(h.cmd < s.known)]]
                  else s.inbox)
    case GetReady(c) =>
      var cl, m := s.clients[c], s.inbox[c][0];
      s.(inbox := s.inbox[c := s.inbox[c][1..]],
         clients := s.clients[c := if m.Data? then Confused
                                   else if m.served then Sending(cl.cmd, cl.args, 0) else Refused])
    case SendArgs(c) =>
      var cl := s.clients[c];
      var end := Min(cl.start + MBUFSIZE, |cl.args|);
      s.(args := s.args + [cl.args[cl.start..end]],
              clients := s.clients[c := if end < |cl.args| then Sending(cl.cmd, cl.args, end)
                                        else Waiting(cl.cmd, cl.args, [])])
    case ReceiveArgs => s.(server := s.server.(cache := s.server.cache + s.args[0]), args := s.args[1..])
    case Serve(reply) =>
      s.(server := Replying(s.server.h, reply, 0),
         answers := s.answers[s.server.h.reply := (s.server.h.cmd, s.server.cache, reply)])
    case SendReply =>
      var c, r, k := s.server.h.reply, s.server.reply, s.server.sent;
      s.(inbox := s.inbox[c := s.inbox[c] + [Data(Piece(r, k))]],
         server := if k + 1 < Pieces(r) then s.server.(sent := k + 1) else Selecting)
    case TakeReply(c) =>
      var cl, m := s.clients[c], s.inbox[c][0];
      s.(inbox := s.inbox[c := s.inbox[c][1..]],
         clients := s.clients[c :=
           if m.Ready? then Confused
           else if |m.bytes| < MBUFSIZE then Finished(cl.cmd, cl.args, cl.got + m.bytes)
           else Waiting(cl.cmd, cl.args, cl.got + m.bytes)])
  }

  // ---- What holds in every reachable state ----

  /** The headers of a client in the queue. */
  function Mine(hs: seq<Header>, c: int): seq<Header> {
    if hs == [] then [] else Mine(hs[..|hs| - 1], c) + if hs[|hs| - 1].reply == c then [hs[|hs| - 1]] else []
  }

  /** The server is busy with a command of `c` that it knows. */
  ghost predicate Deals(s: State, c: int) {
    !s.server.Selecting? && s.server.h.reply == c && s.server.h.cmd < s.known
  }

  /** The messages `from` to `to` of the reply `r`. */
  ghost function Part(r: Bytes, from: nat, to: nat): seq<Message>
    requires from <= to
  {
    seq(to - from, i requires 0 <= i < to - from => Data(Piece(r, from + i)))
  }

  /** The client has `j` messages of the reply, and those up to `k` are on their way. */
  ghost predicate Arriving(s: State, c: int, got: Bytes, r: Bytes, j: nat, k: nat)
    requires c in s.inbox
  {
    && j <= k <= Pieces(r) && got == Carried(r, j) && s.inbox[c] == Part(r, j, k)
    && (forall i :: 0 <= i < j ==> |Piece(r, i)| == MBUFSIZE)
  }

  ghost predicate ClientOk(s: State, c: int)
    requires c in s.clients && c in s.inbox
  {
    var mine, inbox := Mine(s.headers, c), s.inbox[c];
    match s.clients[c]
    case Idle => mine == [] && inbox == [] && !Deals(s, c)
    case Refused => mine == [] && inbox == [] && !Deals(s, c)
    case Confused => false
    case Called(cmd, args) =>
      && args != []
      && ((mine == [Header(cmd, c, |args|)] && inbox == [] && !Deals(s, c))
          || (mine == [] && cmd >= s.known && inbox == [Ready(false)] && !Deals(s, c))
          || (mine == [] && cmd < s.known && inbox == [Ready(true)]
              && s.server == Receiving(Header(cmd, c, |args|), []) && s.args == []))
    case Sending(cmd, args, start) =>
      && mine == [] && inbox == [] && cmd < s.known && start < |args|
      && s.server.Receiving? && s.server.h == Header(cmd, c, |args|) && s.server.cache + Concat(s.args) == args[..start]
    case Waiting(cmd, args, got) =>
      && mine == [] && cmd < s.known
      && ((s.server.Receiving? && s.server.h == Header(cmd, c, |args|) && s.server.cache + Concat(s.args) == args
           && inbox == [] && got == [])
          || (s.server.Replying? && s.server.h == Header(cmd, c, |args|) && s.args == []
              && s.server.sent < Pieces(s.server.reply)
              && c in s.answers && s.answers[c] == (cmd, args, s.server.reply)
              && exists j: nat :: Arriving(s, c, got, s.server.reply, j, s.server.sent))
          || (!Deals(s, c) && c in s.answers && s.answers[c].0 == cmd && s.answers[c].1 == args
              && exists j: nat :: Arriving(s, c, got, s.answers[c].2, j, Pieces(s.answers[c].2))))
    case Finished(cmd, args, got) =>
      mine == [] && inbox == [] && !Deals(s, c) && c in s.answers && s.answers[c] == (cmd, args, got)
  }

  /** Argument messages are only there for the client the server deals with; after an unknown command the
      server waits in vain. */
  ghost predicate ServerOk(s: State) {
    && (forall i :: 0 <= i < |s.headers| ==> s.headers[i].reply in s.clients)
    && (forall i :: 0 <= i < |s.args| ==> s.args[i] != [])
    && (s.server.Selecting? ==> s.args == [])
    && (!s.server.Selecting? ==> s.server.h.reply in s.clients && s.server.h.size > 0)
    && (s.server.Replying? ==> s.args == [] && s.server.h.cmd < s.known)
    && (s.server.Receiving? && s.server.h.cmd >= s.known ==> s.args == [] && s.server.cache == [])
    && (s.server.Receiving? && s.server.h.cmd < s.known ==>
          var cl := s.clients[s.server.h.reply];
          cl.Called? || cl.Sending? || cl.Waiting?)
    && (s.server.Replying? ==> s.clients[s.server.h.reply].Waiting?)
    && (forall i :: 0 <= i < |s.headers| ==> s.headers[i].size > 0)
  }

  ghost predicate Inv(s: State) {
    && s.clients.Keys == s.inbox.Keys && ServerOk(s)
    && forall c :: c in s.clients ==> ClientOk(s, c)
  }

  ghost function Start(known: nat, ids: set<int>): State {
    State(known, map c | c in ids :: Idle, Selecting, [], [], map c | c in ids :: [], map[])
  }

  lemma StartInv(known: nat, ids: set<int>)
    ensures Inv(Start(known, ids))
  {}

  // ---- Every step keeps it ----

  /** A client that the server does not deal with before or after. */
  lemma Untouched(s: State, t: State, c: int)
    requires c in s.clients && c in s.inbox && ClientOk(s, c) && !Deals(s, c) && !Deals(t, c)
    requires t.known == s.known && c in t.clients && t.clients[c] == s.clients[c] && c in t.inbox
             && t.inbox[c] == s.inbox[c]
    requires Mine(t.headers, c) == Mine(s.headers, c)
    requires c in s.answers ==> c in t.answers && t.answers[c] == s.answers[c]
    ensures ClientOk(t, c)
  {
    hide Mine, Arriving;
    var cl := s.clients[c];
    if cl.Waiting? {
      var j: nat :| Arriving(s, c, cl.got, s.answers[c].2, j, Pieces(s.answers[c].2));
      assert Arriving(t, c, cl.got, t.answers[c].2, j, Pieces(t.answers[c].2)) by {
        ArrivingSame(s, t, c, cl.got, s.answers[c].2, j, Pieces(s.answers[c].2));
      }
    }
  }

  lemma ArrivingSame(s: State, t: State, c: int, got: Bytes, r: Bytes, j: nat, k: nat)
    requires c in s.inbox && c in t.inbox && t.inbox[c] == s.inbox[c] && Arriving(s, c, got, r, j, k)
    ensures Arriving(t, c, got, r, j, k)
  {}

  /** A client for which nothing has changed at all. */
  lemma Same(s: State, t: State, c: int)
    requires c in s.clients && c in s.inbox && ClientOk(s, c)
    requires t.known == s.known && c in t.clients && t.clients[c] == s.clients[c] && c in t.inbox
             && t.inbox[c] == s.inbox[c]
    requires Mine(t.headers, c) == Mine(s.headers, c) && t.server == s.server && t.args == s.args
             && t.answers == s.answers
    ensures ClientOk(t, c)
  {
    hide Mine, Arriving;
    var cl := s.clients[c];
    if cl.Waiting? {
      if !Deals(s, c) {
        var j: nat :| Arriving(s, c, cl.got, s.answers[c].2, j, Pieces(s.answers[c].2));
        ArrivingSame(s, t, c, cl.got, s.answers[c].2, j, Pieces(s.answers[c].2));
      } else if s.server.Replying? {
        var j: nat :| Arriving(s, c, cl.got, s.server.reply, j, s.server.sent);
        ArrivingSame(s, t, c, cl.got, s.server.reply, j, s.server.sent);
      }
    }
  }

  lemma MineSnoc(hs: seq<Header>, h: Header, c: int)
    ensures Mine(hs + [h], c) == Mine(hs, c) + if h.reply == c then [h] else []
  {
    assert (hs + [h])[..|hs|] == hs;
  }

  lemma {:induction false} MineFront(hs: seq<Header>, c: int)
    requires hs != []
    ensures Mine(hs, c) == (if hs[0].reply == c then [hs[0]] else []) + Mine(hs[1..], c)
    decreases |hs|
  {
    var k := |hs| - 1;
    if k > 0 {
      MineFront(hs[..k], c);
      assert hs[..k][1..] == hs[1..][..k - 1];
    } else {
      assert hs[..0] == [] && hs[1..] == [];
    }
  }

  lemma CallKeeps(s: State, c: int, cmd: nat, args: Bytes)
    requires Inv(s) && Enabled(s, Call(c, cmd, args))
    ensures Inv(Apply(s, Call(c, cmd, args)))
  {
    hide Mine, Arriving;
    var t := Apply(s, Call(c, cmd, args));
    forall d | d in t.clients
      ensures ClientOk(t, d)
    {
      MineSnoc(s.headers, Header(cmd, c, |args|), d);
      assert ClientOk(s, d);
      if d != c {
        Same(s, t, d);
      }
    }
  }

  lemma SelectKeeps(s: State)
    requires Inv(s) && Enabled(s, Select)
    ensures Inv(Apply(s, Select))
  {
    hide Mine, Arriving;
    var t, h := Apply(s, Select), s.headers[0];
    forall d | d in t.clients
      ensures ClientOk(t, d)
    {
      MineFront(s.headers, d);
      assert ClientOk(s, d);
      if d != h.reply {
        Untouched(s, t, d);
      } else {
        assert |Mine(s.headers, d)| == 1 + |Mine(t.headers, d)|;
        assert Mine(t.headers, d) == [] && Mine(s.headers, d) == [h];
        assert s.clients[d].Called? && h == Header(s.clients[d].cmd, d, |s.clients[d].args|);
        assert t.inbox[d] == [Ready(h.cmd < s.known)];
      }
    }
  }

  lemma GetReadyKeeps(s: State, c: int)
    requires Inv(s) && Enabled(s, GetReady(c))
    ensures Inv(Apply(s, GetReady(c)))
  {
    hide Mine, Arriving;
    var t := Apply(s, GetReady(c));
    assert ClientOk(s, c);
    assert Concat<Byte>([]) == [];
    forall d | d in t.clients
      ensures ClientOk(t, d)
    {
      assert ClientOk(s, d);
      if d != c {
        Same(s, t, d);
      }
    }
  }

  lemma SendArgsKeeps(s: State, c: int)
    requires Inv(s) && Enabled(s, SendArgs(c))
    ensures Inv(Apply(s, SendArgs(c)))
  {
    hide Mine, Arriving, Concat;
    var t, cl := Apply(s, SendArgs(c)), s.clients[c];
    assert ClientOk(s, c);
    var end := Min(cl.start + MBUFSIZE, |cl.args|);
    ConcatSnoc(s.args, cl.args[cl.start..end]);
    assert cl.args[..cl.start] + cl.args[cl.start..end] == cl.args[..end];
    assert cl.args[..|cl.args|] == cl.args;
    forall d | d in t.clients
      ensures ClientOk(t, d)
    {
      assert ClientOk(s, d);
      if d != c {
        Untouched(s, t, d);
      }
    }
  }

  lemma ReceiveArgsKeeps(s: State)
    requires Inv(s) && Enabled(s, ReceiveArgs)
    ensures Inv(Apply(s, ReceiveArgs))
  {
    hide Mine, Arriving, Concat;
    var t, c := Apply(s, ReceiveArgs), s.server.h.reply;
    ConcatFront(s.args[0], s.args[1..]);
    assert [s.args[0]] + s.args[1..] == s.args;
    assert s.server.cache + s.args[0] + Concat(s.args[1..]) == s.server.cache + Concat(s.args);
    forall d | d in t.clients
      ensures ClientOk(t, d)
    {
      assert ClientOk(s, d);
      if d != c {
        Untouched(s, t, d);
      }
    }
  }

  lemma NothingLeft(ms: seq<Bytes>)
    requires forall i :: 0 <= i < |ms| ==> ms[i] != []
    ensures Concat(ms) == [] ==> ms == []
  {
    if ms != [] {
      assert |Concat(ms)| >= |ms[|ms| - 1]| > 0;
    }
  }

  /** When the server starts to serve a command, it has rebuilt exactly the arguments of its client. */
  lemma ArgumentsRebuilt(s: State)
    requires Inv(s) && s.server.Receiving? && |s.server.cache| >= s.server.h.size
    ensures s.server.h.cmd < s.known && s.server.h.reply in s.clients
    ensures var cl := s.clients[s.server.h.reply];
            cl.Waiting? && s.server.cache == cl.args && s.server.h.cmd == cl.cmd && s.args == [] && cl.got == []
              && s.inbox[s.server.h.reply] == []
  {
    hide Mine, Arriving, Concat;
    var c := s.server.h.reply;
    assert ClientOk(s, c);
    var cl := s.clients[c];
    if cl.Waiting? {
      assert |s.server.cache| == |cl.args|;
      assert s.server.cache == cl.args[..|s.server.cache|];
      assert Concat(s.args) == [];
      NothingLeft(s.args);
    }
  }

  lemma ServeKeeps(s: State, reply: Bytes)
    requires Inv(s) && Enabled(s, Serve(reply))
    ensures Inv(Apply(s, Serve(reply)))
  {
    hide Mine, Concat;
    var t, c := Apply(s, Serve(reply)), s.server.h.reply;
    ArgumentsRebuilt(s);
    forall d | d in t.clients
      ensures ClientOk(t, d)
    {
      assert ClientOk(s, d);
      if d != c {
        Untouched(s, t, d);
      } else {
        assert Arriving(t, c, [], reply, 0, 0);
      }
    }
  }

  lemma PartSnoc(r: Bytes, j: nat, k: nat)
    requires j <= k
    ensures Part(r, j, k) + [Data(Piece(r, k))] == Part(r, j, k + 1)
  {
    assert Part(r, j, k) + [Data(Piece(r, k))] == Part(r, j, k + 1);
  }

  lemma PartFront(r: Bytes, j: nat, k: nat)
    requires j < k
    ensures Part(r, j, k)[0] == Data(Piece(r, j)) && Part(r, j, k)[1..] == Part(r, j + 1, k)
  {
    assert Part(r, j, k)[1..] == Part(r, j + 1, k);
  }

  lemma SendReplyKeeps(s: State)
    requires Inv(s) && Enabled(s, SendReply)
    ensures Inv(Apply(s, SendReply))
  {
    hide Mine, Concat, Part, Piece, Carried;
    var t, c, r, k := Apply(s, SendReply), s.server.h.reply, s.server.reply, s.server.sent;
    assert ClientOk(s, c);
    var cl := s.clients[c];
    var j: nat :| Arriving(s, c, cl.got, r, j, k);
    PartSnoc(r, j, k);
    assert Arriving(t, c, cl.got, r, j, k + 1);
    forall d | d in t.clients
      ensures ClientOk(t, d)
    {
      assert ClientOk(s, d);
      if d != c {
        Untouched(s, t, d);
      }
    }
  }

  lemma TakeReplyKeeps(s: State, c: int)
    requires Inv(s) && Enabled(s, TakeReply(c))
    ensures Inv(Apply(s, TakeReply(c)))
  {
    hide Mine, Concat, Part, Piece, Carried, Pieces;
    var t, cl := Apply(s, TakeReply(c)), s.clients[c];
    assert ClientOk(s, c);
    if Deals(s, c) {
      var r, k := s.server.reply, s.server.sent;
      var j: nat :| Arriving(s, c, cl.got, r, j, k);
      TakePiece(s, c, cl.got, r, j, k);
      assert Arriving(t, c, cl.got + Piece(r, j), r, j + 1, k);
    } else {
      var r := s.answers[c].2;
      var j: nat :| Arriving(s, c, cl.got, r, j, Pieces(r));
      TakePiece(s, c, cl.got, r, j, Pieces(r));
      if |Piece(r, j)| == MBUFSIZE {
        assert Arriving(t, c, cl.got + Piece(r, j), r, j + 1, Pieces(r));
      } else {
        PieceLast(r, j, Pieces(r));
      }
    }
    forall d | d in t.clients
      ensures ClientOk(t, d)
    {
      assert ClientOk(s, d);
      if d != c {
        Same(s, t, d);
      }
    }
  }

  lemma PieceLast(r: Bytes, j: nat, k: nat)
    requires j < k <= Pieces(r) && |Piece(r, j)| != MBUFSIZE
    ensures j + 1 == Pieces(r) == k && Carried(r, j + 1) == r && Part(r, j + 1, k) == []
  {
    CarriedAll(r, j);
    CarriedAll(r, j + 1);
  }

  /** The message that the client takes is the next piece of its reply; while the server is still sending,
      it is a full one. */
  lemma TakePiece(s: State, c: int, got: Bytes, r: Bytes, j: nat, k: nat)
    requires c in s.inbox && s.inbox[c] != [] && Arriving(s, c, got, r, j, k)
    ensures j < k && s.inbox[c][0] == Data(Piece(r, j)) && s.inbox[c][1..] == Part(r, j + 1, k)
            && got + Piece(r, j) == Carried(r, j + 1)
    ensures k < Pieces(r) ==> |Piece(r, j)| == MBUFSIZE
    ensures |Piece(r, j)| <= MBUFSIZE
  {
    PartFront(r, j, k);
    CarriedStep(r, j);
    CarriedAll(r, j);
  }

  /** Every step from a state with the invariant leads to one. */
  lemma StepKeeps(s: State, step: Step)
    requires Inv(s) && Enabled(s, step)
    ensures Inv(Apply(s, step))
  {
    hide Inv, Apply, Enabled;
    match step
    case Call(c, cmd, args) => CallKeeps(s, c, cmd, args);
    case Select => SelectKeeps(s);
    case GetReady(c) => GetReadyKeeps(s, c);
    case SendArgs(c) => SendArgsKeeps(s, c);
    case ReceiveArgs => ReceiveArgsKeeps(s);
    case Serve(reply) => ServeKeeps(s, reply);
    case SendReply => SendReplyKeeps(s);
    case TakeReply(c) => TakeReplyKeeps(s, c);
  }

  // ---- Whole runs ----

  ghost predicate Possible(s: State, steps: seq<Step>)
    decreases |steps|
  {
    steps == [] || (Enabled(s, steps[0]) && Possible(Apply(s, steps[0]), steps[1..]))
  }

  ghost function Run(s: State, steps: seq<Step>): State
    requires Possible(s, steps)
    decreases |steps|
  {
    if steps == [] then s else Run(Apply(s, steps[0]), steps[1..])
  }

  lemma {:induction false} RunKeeps(s: State, steps: seq<Step>)
    requires Inv(s) && Possible(s, steps)
    ensures Inv(Run(s, steps))
    decreases |steps|
  {
    hide Inv, Apply, Enabled;
    if steps != [] {
      StepKeeps(s, steps[0]);
      RunKeeps(Apply(s, steps[0]), steps[1..]);
    }
  }

  /** The client has been told to send and has not sent everything. */
  ghost predicate Sends(s: State, c: int)
    requires c in s.clients && c in s.inbox
  {
    s.clients[c].Sending? || (s.clients[c].Called? && s.inbox[c] != [] && s.inbox[c][0] == Ready(true))
  }

  /** In every reachable state: no client meets a message of the wrong kind, at most one is sending
      arguments, and a client that has finished holds the whole reply computed for its own request. */
  lemma Safety(known: nat, ids: set<int>, steps: seq<Step>, c: int, d: int)
    requires Possible(Start(known, ids), steps) && c in ids && d in ids
    ensures var s := Run(Start(known, ids), steps);
            && c in s.clients && d in s.clients && c in s.inbox && d in s.inbox
            && !s.clients[c].Confused?
            && (Sends(s, c) && Sends(s, d) ==> c == d)
            && (s.clients[c].Finished?
                ==> c in s.answers && s.answers[c] == (s.clients[c].cmd, s.clients[c].args, s.clients[c].got))
  {
    hide Mine, Arriving, Concat;
    var s0 := Start(known, ids);
    var s := Run(s0, steps);
    StartInv(known, ids);
    RunKeeps(s0, steps);
    SameClients(s0, steps);
    assert ClientOk(s, c) && ClientOk(s, d);
  }

  lemma {:induction false} SameClients(s: State, steps: seq<Step>)
    requires Possible(s, steps) && Inv(s)
    ensures Run(s, steps).clients.Keys == s.clients.Keys
    decreases |steps|
  {
    hide ClientOk;
    if steps != [] {
      StepKeeps(s, steps[0]);
      assert Apply(s, steps[0]).clients.Keys == s.clients.Keys by { StepClients(s, steps[0]); }
      SameClients(Apply(s, steps[0]), steps[1..]);
    }
  }

  lemma StepClients(s: State, step: Step)
    requires Enabled(s, step)
    ensures Apply(s, step).clients.Keys == s.clients.Keys
  {
    assert Apply(s, step).clients.Keys == s.clients.Keys;
  }

  // ---- Which clients finish ----

  /** The reply ends with a full message, so that its end is not seen. */
  predicate Endless(r: Bytes) { r != [] && |r| % MBUFSIZE == 0 }

  /** The server has sent the whole reply of `c`. */
  ghost predicate Answered(s: State, c: int) {
    Inv(s) && c in s.clients && c in s.inbox && s.clients[c].Waiting? && !Deals(s, c)
  }

  /** Taking the messages that have come, the client finishes with the whole reply if and only if the
      length of the reply is not a positive multiple of the message size. */
  lemma {:induction false} FinishesIff(s: State, c: int) returns (steps: seq<Step>)
    requires Answered(s, c)
    ensures c in s.answers && Possible(s, steps) && forall i :: 0 <= i < |steps| ==> steps[i] == TakeReply(c)
    ensures var t, r, cl := Run(s, steps), s.answers[c].2, s.clients[c];
            && c in t.clients && c in t.inbox && t.inbox[c] == []
            && t.clients[c] == (if Endless(r) then Waiting(cl.cmd, cl.args, r) else Finished(cl.cmd, cl.args, r))
            && (Endless(r) ==> Answered(t, c))
    decreases if c in s.inbox then |s.inbox[c]| else 0
  {
    hide Mine, Concat, Part, Piece, Carried, Pieces, ServerOk, Inv;
    assert ClientOk(s, c) by { InvClient(s, c); }
    var cl, r := s.clients[c], s.answers[c].2;
    var j: nat :| Arriving(s, c, cl.got, r, j, Pieces(r));
    if s.inbox[c] == [] {
      steps := [];
      AllTaken(s, c, cl.got, r, j);
    } else {
      TakePiece(s, c, cl.got, r, j, Pieces(r));
      var t := Apply(s, TakeReply(c));
      StepKeeps(s, TakeReply(c));
      if |Piece(r, j)| < MBUFSIZE {
        steps := [TakeReply(c)];
        PieceLast(r, j, Pieces(r));
        EndsShort(r, j);
        assert steps[1..] == [];
        PartEmpty(r, j + 1);
      } else {
        var rest := FinishesIff(t, c);
        steps := [TakeReply(c)] + rest;
        assert steps[1..] == rest;
      }
    }
  }

  lemma InvClient(s: State, c: int)
    requires Inv(s) && c in s.clients
    ensures c in s.inbox && ClientOk(s, c)
  {}

  lemma PartEmpty(r: Bytes, k: nat)
    ensures Part(r, k, k) == []
  {}

  lemma EndsShort(r: Bytes, j: nat)
    requires |Piece(r, j)| < MBUFSIZE && j + 1 == Pieces(r)
    ensures !Endless(r)
  {
    CarriedAll(r, j);
  }

  /** Nothing is on its way any more, and every message taken was a full one. */
  lemma AllTaken(s: State, c: int, got: Bytes, r: Bytes, j: nat)
    requires c in s.inbox && s.inbox[c] == [] && Arriving(s, c, got, r, j, Pieces(r))
    ensures got == r && Endless(r)
  {
    assert |Part(r, j, Pieces(r))| == Pieces(r) - j;
    CarriedAll(r, j);
    CarriedAll(r, j - 1);
  }

  /** A client that has taken everything and still waits does so forever, whatever the others do. */
  lemma {:induction false} WaitsForever(s: State, c: int, steps: seq<Step>)
    requires Answered(s, c) && s.inbox[c] == [] && Possible(s, steps)
    ensures var t := Run(s, steps); c in t.clients && t.clients[c] == s.clients[c] && Answered(t, c)
    decreases |steps|
  {
    if steps != [] {
      StepKeeps(s, steps[0]);
      StillHung(s, c, steps[0]);
      hide Answered, Apply, Enabled;
      WaitsForever(Apply(s, steps[0]), c, steps[1..]);
    }
  }

  lemma StillHung(s: State, c: int, step: Step)
    requires Answered(s, c) && s.inbox[c] == [] && Enabled(s, step)
    ensures
      var t := Apply(s, step);
      c in t.clients && c in t.inbox && t.clients[c] == s.clients[c] && t.inbox[c] == [] && !Deals(t, c)
  {
    hide Arriving, Mine;
    assert ClientOk(s, c);
    if step.Select? {
      MineFront(s.headers, c);
      assert |Mine(s.headers, c)| == 0;
    }
  }

  // ---- Progress ----

  /** The server waits for arguments of a command it has refused. */
  ghost predicate Stopped(s: State) { s.server.Receiving? && s.server.h.cmd >= s.known }

  /** After a request with an unknown command the server never does anything again. */
  lemma {:induction false} StoppedForever(s: State, steps: seq<Step>)
    requires Inv(s) && Stopped(s) && Possible(s, steps)
    ensures Run(s, steps).server == s.server
    decreases |steps|
  {
    if steps != [] {
      StepKeeps(s, steps[0]);
      StillStopped(s, steps[0]);
      hide Inv, Apply, Enabled;
      StoppedForever(Apply(s, steps[0]), steps[1..]);
    }
  }

  lemma StillStopped(s: State, step: Step)
    requires Inv(s) && Stopped(s) && Enabled(s, step)
    ensures Apply(s, step).server == s.server && Apply(s, step).known == s.known
  {
    hide Arriving, Mine;
    if step.SendArgs? {
      assert ClientOk(s, step.c);
    }
  }

  /** The client's header is in the queue. */
  predicate Queued(hs: seq<Header>, c: int) { exists p :: 0 <= p < |hs| && hs[p].reply == c }

  /** A request with an unknown command is in the queue before that of the client. */
  predicate UnknownAhead(hs: seq<Header>, known: nat, c: int) {
    exists i, p :: 0 <= i < p < |hs| && hs[p].reply == c && hs[i].cmd >= known
  }

  /** The server has stopped, or will stop, before it comes to the client's request. */
  ghost predicate Blocked(s: State, c: int) {
    (Stopped(s) && Queued(s.headers, c)) || UnknownAhead(s.headers, s.known, c)
  }

  ghost predicate Done(s: State, c: int) { c in s.clients && (s.clients[c].Finished? || s.clients[c].Refused?) }

  lemma {:induction false} MineIff(hs: seq<Header>, c: int)
    ensures Mine(hs, c) != [] <==> Queued(hs, c)
  {
    if hs != [] {
      var k := |hs| - 1;
      MineIff(hs[..k], c);
      assert forall p :: 0 <= p < k ==> hs[..k][p] == hs[p];
      if Queued(hs, c) && hs[k].reply != c {
        var p :| 0 <= p < |hs| && hs[p].reply == c;
        assert hs[..k][p].reply == c;
      }
    }
  }

  lemma TailAhead(hs: seq<Header>, known: nat, c: int)
    requires hs != []
    ensures UnknownAhead(hs[1..], known, c) ==> UnknownAhead(hs, known, c)
    ensures Queued(hs[1..], c) ==> Queued(hs, c)
    ensures Queued(hs, c) && hs[0].reply != c ==> Queued(hs[1..], c)
    ensures Queued(hs[1..], c) && hs[0].cmd >= known ==> UnknownAhead(hs, known, c)
    ensures UnknownAhead(hs, known, c) && hs[0].cmd < known ==> UnknownAhead(hs[1..], known, c)
    ensures UnknownAhead(hs, known, c) ==> Queued(hs[1..], c)
  {
    var us := hs[1..];
    assert forall p :: 0 <= p < |us| ==> us[p] == hs[p + 1];
    if i, p :| 0 <= i < p < |us| && us[p].reply == c && us[i].cmd >= known {
      assert hs[p + 1].reply == c && hs[i + 1].cmd >= known;
    }
    if p :| 0 <= p < |us| && us[p].reply == c {
      assert hs[p + 1].reply == c;
    }
    if p :| 0 <= p < |hs| && hs[p].reply == c {
      assert p > 0 ==> us[p - 1].reply == c;
    }
    if i, p :| 0 <= i < p < |hs| && hs[p].reply == c && hs[i].cmd >= known {
      assert us[p - 1].reply == c;
      assert i > 0 ==> us[i - 1].cmd >= known;
    }
  }

  // How far the server is from being free: it receives, replies, selects; its client is asked to send, sends,
  // waits; the arguments still to be sent, and those still to be received or replies to be sent.
  ghost function Phase(s: State): nat {
    match s.server case Selecting => 0 case Replying(_, _, _) => 1 case Receiving(_, _) => 2
  }

  ghost function ClientPhase(s: State): nat {
    if !s.server.Receiving? || s.server.h.reply !in s.clients then 0
    else match s.clients[s.server.h.reply] case Called(_, _) => 2 case Sending(_, _, _) => 1 case _ => 0
  }

  ghost function Unsent(s: State): nat {
    if !s.server.Receiving? || s.server.h.reply !in s.clients then 0
    else match s.clients[s.server.h.reply] case Sending(_, args, start) => Max0(|args| - start) case _ => 0
  }

  ghost function Left(s: State): nat {
    match s.server
    case Selecting => 0
    case Replying(_, reply, sent) => Max0(Pieces(reply) - sent)
    case Receiving(h, cache) => Max0(h.size - |cache|)
  }

  function Max0(x: int): nat { if x < 0 then 0 else x }

  /** The first state is nearer to the end than the second one. */
  ghost predicate Nearer(t: State, s: State) {
    || |t.headers| < |s.headers|
    || (|t.headers| == |s.headers| && Phase(t) < Phase(s))
    || (|t.headers| == |s.headers| && Phase(t) == Phase(s) && ClientPhase(t) < ClientPhase(s))
    || (|t.headers| == |s.headers| && Phase(t) == Phase(s) && ClientPhase(t) == ClientPhase(s) && Unsent(t) < Unsent(s))
    || (|t.headers| == |s.headers| && Phase(t) == Phase(s) && ClientPhase(t) == ClientPhase(s) && Unsent(t) == Unsent(s)
        && Left(t) < Left(s))
  }

  /** The client has a call under way that can end. */
  ghost predicate Pending(s: State, c: int) {
    && Inv(s) && c in s.clients && c in s.inbox && !Blocked(s, c)
    && var cl := s.clients[c];
       || cl.Called? || cl.Sending?
       || (cl.Waiting? && Deals(s, c) && (s.server.Receiving? || (s.server.Replying? && !Endless(s.server.reply))))
       || (cl.Waiting? && !Deals(s, c) && c in s.answers && !Endless(s.answers[c].2))
  }

  /** A client that was refused learns of it. */
  lemma NextRefused(s: State, c: int)
    requires Pending(s, c) && s.clients[c].Called? && s.inbox[c] != [] && s.inbox[c][0] == Ready(false)
    ensures Enabled(s, GetReady(c)) && Done(Apply(s, GetReady(c)), c)
  {}

  lemma NextSelect(s: State, c: int)
    requires Pending(s, c) && !Answered(s, c) && s.server.Selecting?
             && !(s.inbox[c] != [] && s.inbox[c][0] == Ready(false))
    ensures Enabled(s, Select) && Pending(Apply(s, Select), c) && Nearer(Apply(s, Select), s)
  {
    hide Arriving, Mine;
    assert ClientOk(s, c);
    MineIff(s.headers, c);
    assert s.headers != [];
    var h, t := s.headers[0], Apply(s, Select);
    SelectKeeps(s);
    MineFront(s.headers, c);
    MineIff(t.headers, c);
    hide Inv, ClientOk, Queued, UnknownAhead;
    TailAhead(s.headers, s.known, c);
    assert c in t.inbox && c in t.clients;
  }

  lemma NextReply(s: State, c: int)
    requires Pending(s, c) && s.server.Replying?
    ensures Enabled(s, SendReply) && Pending(Apply(s, SendReply), c) && Nearer(Apply(s, SendReply), s)
  {
    hide Arriving, Mine, Queued, UnknownAhead;
    var d, t := s.server.h.reply, Apply(s, SendReply);
    assert ClientOk(s, d) && ClientOk(s, c);
    SendReplyKeeps(s);
    hide Inv, ClientOk;
  }

  /** The server receives a known request from the client `d`. */
  ghost predicate Serves(s: State, d: int) {
    s.server.Receiving? && s.server.h.cmd < s.known && d == s.server.h.reply && d in s.clients
  }

  lemma NextReady(s: State, c: int, d: int)
    requires Pending(s, c) && Serves(s, d) && s.clients[d].Called?
    ensures var step := GetReady(d); Enabled(s, step) && Pending(Apply(s, step), c) && Nearer(Apply(s, step), s)
  {
    hide Arriving, Mine, Queued, UnknownAhead;
    assert ClientOk(s, d) && ClientOk(s, c);
    GetReadyKeeps(s, d);
    hide Inv, ClientOk, Concat;
  }

  lemma NextSend(s: State, c: int, d: int)
    requires Pending(s, c) && Serves(s, d) && s.clients[d].Sending?
    ensures var step := SendArgs(d); Enabled(s, step) && Pending(Apply(s, step), c) && Nearer(Apply(s, step), s)
  {
    hide Arriving, Mine, Queued, UnknownAhead;
    assert ClientOk(s, d) && ClientOk(s, c);
    SendArgsKeeps(s, d);
    hide Inv, ClientOk, Concat;
  }

  lemma NextArgs(s: State, c: int, d: int)
    requires Pending(s, c) && Serves(s, d) && s.clients[d].Waiting? && |s.server.cache| < s.server.h.size
    ensures Enabled(s, ReceiveArgs) && Pending(Apply(s, ReceiveArgs), c) && Nearer(Apply(s, ReceiveArgs), s)
  {
    hide Arriving, Mine, Queued, UnknownAhead;
    assert ClientOk(s, d) && ClientOk(s, c);
    assert s.args != [] by { ConcatNone(); }
    assert s.args[0] != [];
    ReceiveArgsKeeps(s);
    hide Inv, ClientOk, Concat;
  }

  lemma NextServe(s: State, c: int, d: int)
    requires Pending(s, c) && Serves(s, d) && s.clients[d].Waiting? && |s.server.cache| >= s.server.h.size
    ensures Enabled(s, Serve([])) && Pending(Apply(s, Serve([])), c) && Nearer(Apply(s, Serve([])), s)
  {
    hide Arriving, Mine, Queued, UnknownAhead;
    assert ClientOk(s, d) && ClientOk(s, c);
    ServeKeeps(s, []);
    hide Inv, ClientOk, Concat;
  }

  lemma ServesPhases(s: State, d: int)
    requires Inv(s) && Serves(s, d)
    ensures s.clients[d].Called? || s.clients[d].Sending? || s.clients[d].Waiting?
  {
    hide ClientOk;
  }

  /** The next step of the server that receives a request it knows, or of the client it deals with. */
  ghost function Receives(s: State): Step
    requires s.server.Receiving? && s.server.h.reply in s.clients
  {
    var d := s.server.h.reply;
    if s.clients[d].Called? then GetReady(d)
    else if s.clients[d].Sending? then SendArgs(d)
    else if |s.server.cache| < s.server.h.size then ReceiveArgs
    else Serve([])
  }

  lemma NextReceive(s: State, c: int)
    requires Pending(s, c) && s.server.Receiving? && s.server.h.cmd < s.known
    ensures s.server.h.reply in s.clients
    ensures
      var step := Receives(s);
      Enabled(s, step) && !step.Call? && Pending(Apply(s, step), c) && Nearer(Apply(s, step), s)
  {
    var d := s.server.h.reply;
    assert d in s.clients by { hide ClientOk; }
    ServesPhases(s, d);
    hide Pending, Nearer, Enabled, Apply;
    if s.clients[d].Called? {
      NextReady(s, c, d);
    } else if s.clients[d].Sending? {
      NextSend(s, c, d);
    } else if |s.server.cache| < s.server.h.size {
      NextArgs(s, c, d);
    } else {
      NextServe(s, c, d);
    }
  }

  /** From every state in which the client has a call under way that is not blocked, the others and it can
      go on until the call has ended. */
  lemma {:induction false} Onward(s: State, c: int) returns (steps: seq<Step>)
    requires Pending(s, c)
    ensures Possible(s, steps) && Done(Run(s, steps), c) && forall i :: 0 <= i < |steps| ==> !steps[i].Call?
    decreases |s.headers|, Phase(s), ClientPhase(s), Unsent(s), Left(s)
  {
    hide Mine, Arriving, Concat, Inv, ClientOk, Blocked;
    if Answered(s, c) {
      assert ClientOk(s, c) by { InvClient(s, c); }
      steps := FinishesIff(s, c);
    } else if s.clients[c].Called? && s.inbox[c] != [] && s.inbox[c][0] == Ready(false) {
      NextRefused(s, c);
      steps := [GetReady(c)];
      assert steps[1..] == [];
    } else {
      var step := NextStep(s, c);
      var rest := Onward(Apply(s, step), c);
      steps := [step] + rest;
      assert steps[1..] == rest;
    }
  }

  lemma NextStep(s: State, c: int) returns (step: Step)
    requires Pending(s, c) && !Answered(s, c)
             && !(s.clients[c].Called? && s.inbox[c] != [] && s.inbox[c][0] == Ready(false))
    ensures Enabled(s, step) && !step.Call? && Pending(Apply(s, step), c) && Nearer(Apply(s, step), s)
  {
    hide Arriving, Mine, Queued, UnknownAhead, Nearer;
    assert ClientOk(s, c);
    if s.server.Selecting? {
      step := Select;
      NextSelect(s, c);
    } else if s.server.Replying? {
      step := SendReply;
      NextReply(s, c);
    } else {
      assert s.server.h.cmd < s.known by { MineIff(s.headers, c); }
      NextReceive(s, c);
      step := Receives(s);
    }
  }

  /** A blocked request stays so, whatever happens. */
  lemma BlockedStays(s: State, c: int, step: Step)
    requires Inv(s) && c in s.clients && s.clients[c].Called? && Blocked(s, c) && Enabled(s, step)
    ensures var t := Apply(s, step); Blocked(t, c) && c in t.clients && t.clients[c] == s.clients[c]
  {
    hide Arriving, Mine;
    var t := Apply(s, step);
    assert ClientOk(s, c);
    MineIff(s.headers, c);
    if step.Select? {
      TailAhead(s.headers, s.known, c);
    } else if step.Call? {
      assert t.headers[..|s.headers|] == s.headers;
      if UnknownAhead(s.headers, s.known, c) {
        var i, p :| 0 <= i < p < |s.headers| && s.headers[p].reply == c && s.headers[i].cmd >= s.known;
        assert t.headers[p].reply == c && t.headers[i].cmd >= t.known;
      } else {
        var p :| 0 <= p < |s.headers| && s.headers[p].reply == c;
        assert t.headers[p].reply == c;
      }
    } else if Stopped(s) {
      StillStopped(s, step);
    }
  }

  lemma {:induction false} BlockedForever(s: State, c: int, steps: seq<Step>)
    requires Inv(s) && c in s.clients && s.clients[c].Called? && Blocked(s, c) && Possible(s, steps)
    ensures c in Run(s, steps).clients && Run(s, steps).clients[c] == s.clients[c]
    decreases |steps|
  {
    hide Inv, Blocked, Enabled, Apply;
    if steps != [] {
      StepKeeps(s, steps[0]);
      BlockedStays(s, c, steps[0]);
      BlockedForever(Apply(s, steps[0]), c, steps[1..]);
    }
  }

  /** The client waits for a reply whose end it will not see. */
  ghost predicate Hopeless(s: State, c: int) {
    && c in s.clients && s.clients[c].Waiting?
    && if Deals(s, c) then s.server.Replying? && Endless(s.server.reply) else c in s.answers && Endless(s.answers[c].2)
  }

  /** The next message of an endless reply is a full one. */
  lemma NextFull(s: State, c: int)
    requires Inv(s) && Hopeless(s, c) && c in s.inbox && s.inbox[c] != []
    ensures s.inbox[c][0].Data? && |s.inbox[c][0].bytes| == MBUFSIZE
  {
    hide Mine, Part, Piece, Carried, Pieces, Concat;
    assert ClientOk(s, c);
    var got, r := s.clients[c].got, if Deals(s, c) then s.server.reply else s.answers[c].2;
    var k := if Deals(s, c) then s.server.sent else Pieces(r);
    var j: nat :| Arriving(s, c, got, r, j, k);
    TakePiece(s, c, got, r, j, k);
    if |Piece(r, j)| < MBUFSIZE {
      PieceLast(r, j, k);
      EndsShort(r, j);
    }
  }

  lemma HopelessStays(s: State, c: int, step: Step)
    requires Inv(s) && Hopeless(s, c) && Enabled(s, step)
    ensures Hopeless(Apply(s, step), c)
  {
    hide Mine, Arriving, Concat, Endless, Piece, Pieces;
    assert ClientOk(s, c);
    if step.TakeReply? {
      if step.c == c {
        NextFull(s, c);
      }
    } else if step.Select? {
      MineFront(s.headers, c);
      assert |Mine(s.headers, c)| == 0;
    }
  }

  lemma {:induction false} HopelessForever(s: State, c: int, steps: seq<Step>)
    requires Inv(s) && Hopeless(s, c) && Possible(s, steps)
    ensures Hopeless(Run(s, steps), c)
    decreases |steps|
  {
    hide Inv, Hopeless, Enabled, Apply;
    if steps != [] {
      StepKeeps(s, steps[0]);
      HopelessStays(s, c, steps[0]);
      HopelessForever(Apply(s, steps[0]), c, steps[1..]);
    }
  }

  /** A call that is under way can end, with a reply or a refusal, if and only if no unknown command that came
      earlier keeps the server from coming to it and the server has not given it an endless reply. */
  lemma EndsIff(s: State, c: int)
    requires Inv(s) && c in s.clients && (s.clients[c].Called? || s.clients[c].Sending? || s.clients[c].Waiting?)
    ensures (exists steps: seq<Step> :: Possible(s, steps) && Done(Run(s, steps), c))
            <==> !Blocked(s, c) && !Hopeless(s, c)
  {
    hide Mine, Arriving, Concat, Endless;
    assert ClientOk(s, c);
    MineIff(s.headers, c);
    if Blocked(s, c) {
      hide Inv, ClientOk;
      assert s.clients[c].Called? by { TailNone(s.headers, s.known, c); }
      forall steps: seq<Step> | Possible(s, steps)
        ensures !Done(Run(s, steps), c)
      {
        BlockedForever(s, c, steps);
      }
    } else if Hopeless(s, c) {
      hide Inv, ClientOk;
      forall steps: seq<Step> | Possible(s, steps)
        ensures !Done(Run(s, steps), c)
      {
        HopelessForever(s, c, steps);
      }
    } else {
      var steps := Onward(s, c);
      assert Possible(s, steps);
    }
  }

  lemma TailNone(hs: seq<Header>, known: nat, c: int)
    ensures UnknownAhead(hs, known, c) ==> Queued(hs, c)
  {}

  lemma ConcatNone()
    ensures Concat<Byte>([]) == []
  {}
}
