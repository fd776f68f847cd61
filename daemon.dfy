/** The central daemon (daemon.py): one record per peer host moving between
    DEAD, STOPPED and STARTED, the set of connected monitoring clients, and
    the line protocol it reads from both. Sockets are named by identifiers;
    what the daemon writes to a socket is appended, as the list of words
    StreamSocket.write receives, to one outbox in the order written. */
module Daemon {
  import opened Outcomes
  import opened Strings
  import opened Framing

  type SocketId = nat

  // ---------------------------------------------------------------------------
  // Peers

  datatype State = Dead | Stopped | Started

  /** The fields of a Peer that change. */
  datatype PeerRec = PeerRec(state: State, port: int, socket: Option<SocketId>)

  /** A peer that has never spoken, or whose connection was lost. */
  const Offline := PeerRec(Dead, 0, None)

  /** The effect of each transition method on a peer's fields. */
  function HelloRec(p: PeerRec, s: SocketId): PeerRec { PeerRec(Stopped, p.port, Some(s)) }
  function StoppedRec(p: PeerRec): PeerRec { PeerRec(Stopped, 0, p.socket) }
  function StartedRec(p: PeerRec, port: Option<int>): PeerRec {
    PeerRec(Started, if port.Some? then port.value else p.port, p.socket)
  }

  /** A dead peer has no port and no connection. */
  predicate Clean(p: PeerRec) {
    p.state == Dead ==> p.port == 0 && p.socket == None
  }

  /** The status word get_state reports. */
  function Label(s: State): string {
    match s
    case Dead => "DEAD"
    case Stopped => "STOPPED"
    case Started => "STARTED"
  }

  /** Reading a status word back. */
  function ParseLabel(l: string): (r: Option<State>)
    ensures r.Some? ==> Label(r.value) == l
  {
    if l == "DEAD" then Some(Dead)
    else if l == "STOPPED" then Some(Stopped)
    else if l == "STARTED" then Some(Started)
    else None
  }

  /** Every state has its own word. */
  lemma LabelRoundTrip(s: State)
    ensures ParseLabel(Label(s)) == Some(s)
  {
  }

  /** get_state: ['STATE', host, label]. */
  function StateWords(host: string, s: State): (m: seq<string>)
    ensures |m| == 3 && m[0] == "STATE" && m[1] == host && ParseLabel(m[2]) == Some(s)
  {
    ["STATE", host, Label(s)]
  }

  class Peer {
    const host: string
    var state: State
    var port: int
    var socket: Option<SocketId>

    function Rec(): PeerRec
      reads this
    {
      PeerRec(state, port, socket)
    }

    ghost predicate Valid()
      reads this
    {
      Clean(Rec())
    }

    /** Peer(host): dead, port 0, no socket. */
    constructor (host: string)
      ensures this.host == host && Rec() == Offline && Valid()
    {
      this.host := host;
      state := Dead;
      port := 0;
      socket := None;
    }

    /** disconnected(): back to exactly the state of a new peer. */
    method Disconnected()
      modifies this
      ensures Rec() == Offline && Valid()
    {
      state := Dead;
      port := 0;
      socket := None;
    }

    /** hello(socket): stopped, socket recorded, port untouched. */
    method Hello(s: SocketId)
      modifies this
      ensures Rec() == HelloRec(old(Rec()), s) && Valid()
    {
      state := State.Stopped;
      socket := Some(s);
    }

    /** started(port): the state is set first, then int(port) is evaluated;
        a malformed port raises ValueError with the state already STARTED and
        the old port kept. */
    method Started(p: string) returns (r: Outcome)
      modifies this
      ensures Rec() == StartedRec(old(Rec()), PythonInt(p)) && Valid()
      ensures r == if PythonInt(p).Some? then Done else Failed(ValueError)
    {
      state := State.Started;
      var v := PythonInt(p);
      if v.None? {
        return Failed(ValueError);
      }
      port := v.value;
      r := Done;
    }

    /** stopped(): stopped with port 0, socket kept. */
    method Stopped()
      modifies this
      ensures Rec() == StoppedRec(old(Rec())) && Valid()
    {
      state := State.Stopped;
      port := 0;
    }

    /** get_state(). */
    function GetState(): (m: seq<string>)
      reads this
      ensures m == StateWords(host, state)
    {
      ["STATE", host, Label(state)]
    }
  }

  // ---------------------------------------------------------------------------
  // The messages on_data understands

  datatype Command =
    | Hello(host: string)                       // HELLO host, from a peer
    | StartedMsg(host: string, port: string)    // STARTED host port, from a peer
    | StoppedMsg(host: string)                  // STOPPED host, from a peer
    | ClientHello                               // CHELLO, from a client
    | StartReq(host: string)                    // CSTART host, from a client
    | StopReq(host: string)                     // CSTOP host, from a client
    | KillReq(host: string)                     // CKILL host, from a client
    | Unrecognized                              // anything else: printed and dropped

  /** The dispatch of on_data: a verb counts only with its exact number of words. */
  function ParseCommand(args: seq<string>): (c: Command)
    requires |args| >= 1
  {
    if args[0] == "HELLO" && |args| == 2 then Hello(args[1])
    else if args[0] == "STARTED" && |args| == 3 then StartedMsg(args[1], args[2])
    else if args[0] == "STOPPED" && |args| == 2 then StoppedMsg(args[1])
    else if args[0] == "CHELLO" && |args| == 1 then ClientHello
    else if args[0] == "CSTART" && |args| == 2 then StartReq(args[1])
    else if args[0] == "CSTOP" && |args| == 2 then StopReq(args[1])
    else if args[0] == "CKILL" && |args| == 2 then KillReq(args[1])
    else Unrecognized
  }

  /** The words that express a command. */
  function EncodeCommand(c: Command): (args: seq<string>)
    requires !c.Unrecognized?
    ensures |args| >= 1
  {
    match c
    case Hello(h) => ["HELLO", h]
    case StartedMsg(h, p) => ["STARTED", h, p]
    case StoppedMsg(h) => ["STOPPED", h]
    case ClientHello => ["CHELLO"]
    case StartReq(h) => ["CSTART", h]
    case StopReq(h) => ["CSTOP", h]
    case KillReq(h) => ["CKILL", h]
  }

  /** Every command is recognised from its own words ... */
  lemma ParseEncode(c: Command)
    requires !c.Unrecognized?
    ensures ParseCommand(EncodeCommand(c)) == c
  {
  }

  /** ... and only the words of a command are recognised. */
  lemma EncodeParse(args: seq<string>)
    requires |args| >= 1 && !ParseCommand(args).Unrecognized?
    ensures EncodeCommand(ParseCommand(args)) == args
  {
  }

  /** The command in the first line of a buffer that holds one with text. */
  function Message(data: string): Command
    requires LineLength(data) >= 2
  {
    ParseCommand(SplitOn(data[..LineLength(data) - 1], ' '))
  }

  /** A command written as one line reaches on_data as that command, when no
      word holds a space or a newline. */
  lemma MessageOfLine(c: Command, tail: string)
    requires !c.Unrecognized?
    requires forall i :: 0 <= i < |EncodeCommand(c)| ==> ' ' !in EncodeCommand(c)[i] && '\n' !in EncodeCommand(c)[i]
    ensures LineLength(Join(EncodeCommand(c), ' ') + "\n" + tail) == |Join(EncodeCommand(c), ' ')| + 1
    ensures LineLength(Join(EncodeCommand(c), ' ') + "\n" + tail) >= 2
    ensures Message(Join(EncodeCommand(c), ' ') + "\n" + tail) == c
  {
    var ws := EncodeCommand(c);
    var j := Join(ws, ' ');
    assert ws[0] != [];
    JoinNoChar(ws, ' ', '\n');
    var line := j + "\n";
    assert IsFrame(line) by {
      assert line[..|line| - 1] == j;
    }
    FrameLength(line, tail);
    assert line + tail == j + "\n" + tail;
    assert (line + tail)[..|line| - 1] == j;
    SplitOnJoin(ws, ' ');
    ParseEncode(c);
  }

  // ---------------------------------------------------------------------------
  // The daemon

  /** What the daemon writes: the words given to socket.write(). */
  datatype Send = Send(to: SocketId, words: seq<string>)

  /** The observable configuration: every peer's fields, the client
      sockets, and everything written so far. */
  datatype Conf = Conf(peers: map<string, PeerRec>, clients: set<SocketId>, outbox: seq<Send>)

  ghost function Recipients(part: seq<Send>): set<SocketId> {
    set k | 0 <= k < |part| :: part[k].to
  }

  /** A broadcast: msg written once to every client and to nothing else, in
      some order (the iteration order of a Python set). */
  ghost predicate BroadcastTo(part: seq<Send>, clients: set<SocketId>, msg: seq<string>) {
    && (forall k :: 0 <= k < |part| ==> part[k].words == msg)
    && Recipients(part) == clients
    && (forall i, j :: 0 <= i < j < |part| ==> part[i].to != part[j].to)
  }

  /** after is before followed by a broadcast of msg to clients. */
  ghost predicate Broadcasted(before: seq<Send>, after: seq<Send>, clients: set<SocketId>, msg: seq<string>) {
    |before| <= |after| && after[..|before|] == before && BroadcastTo(after[|before|..], clients, msg)
  }

  /** '%s:%d' % (host, port). */
  function Address(host: string, port: int): string {
    host + ":" + IntToDecimal(port)
  }

  /** The bootstrap addresses do_start may choose from: every STARTED peer's
      address, or only 'none' when no peer is started. */
  function Bootstraps(peers: map<string, PeerRec>): (r: set<string>)
    ensures r != {}
  {
    var started := set h | h in peers && peers[h].state == Started :: Address(h, peers[h].port);
    if started == {} then {"none"} else started
  }

  /** 'none' is offered exactly when no peer is started, since every real
      address holds a colon. */
  lemma BootstrapNone(peers: map<string, PeerRec>)
    ensures "none" in Bootstraps(peers) <==> forall h :: h in peers ==> peers[h].state != Started
    ensures forall b :: b in Bootstraps(peers) && b != "none" ==>
      exists h :: h in peers && peers[h].state == Started && b == Address(h, peers[h].port)
  {
    var started := set h | h in peers && peers[h].state == Started :: Address(h, peers[h].port);
    forall h | h in peers && peers[h].state == Started
      ensures Address(h, peers[h].port) != "none"
    {
      var a := Address(h, peers[h].port);
      assert a[|h|] == ':';
      assert ':' !in "none";
    }
    if exists h :: h in peers && peers[h].state == Started {
      var h :| h in peers && peers[h].state == Started;
      assert Address(h, peers[h].port) in started;
    }
  }

  /** The outcome of a request for peer h that needs a state in `accepting`:
      an unknown host raises KeyError, a peer in another state is left
      alone, a peer without a socket raises AttributeError, otherwise msg is
      written to the peer's socket, and nothing else changes. */
  ghost predicate Requested(h: string, accepting: set<State>, msgs: set<seq<string>>, a: Conf, b: Conf, r: Outcome) {
    if h !in a.peers then r == Failed(KeyError) && b == a
    else if a.peers[h].state !in accepting then r == Done && b == a
    else if a.peers[h].socket.None? then r == Failed(AttributeError) && b == a
    else
      r == Done && b.peers == a.peers && b.clients == a.clients
      && exists m :: m in msgs && b.outbox == a.outbox + [Send(a.peers[h].socket.value, m)]
  }

  /** The START messages do_start may send. */
  function StartMessages(peers: map<string, PeerRec>): set<seq<string>> {
    set b | b in Bootstraps(peers) :: ["START", b]
  }

  /** The effect of a peer report for host h: KeyError for a host the daemon
      was not started with, otherwise the peer's new fields and the
      broadcast of its state to every client. */
  ghost predicate Reported(h: string, p: PeerRec, a: Conf, b: Conf, r: Outcome) {
    r == Done && b.peers == a.peers[h := p] && b.clients == a.clients
    && Broadcasted(a.outbox, b.outbox, a.clients, StateWords(h, p.state))
  }

  /** What on_data does with one command read from socket s. */
  ghost predicate Dispatch(c: Command, s: SocketId, a: Conf, b: Conf, r: Outcome) {
    match c
    case Hello(h) =>
      if h !in a.peers then r == Failed(KeyError) && b == a
      else Reported(h, HelloRec(a.peers[h], s), a, b, r)
    case StartedMsg(h, port) =>
      if h !in a.peers then r == Failed(KeyError) && b == a
      else if PythonInt(port).None? then
        r == Failed(ValueError) && b == a.(peers := a.peers[h := StartedRec(a.peers[h], None)])
      else Reported(h, StartedRec(a.peers[h], PythonInt(port)), a, b, r)
    case StoppedMsg(h) =>
      if h !in a.peers then r == Failed(KeyError) && b == a
      else Reported(h, StoppedRec(a.peers[h]), a, b, r)
    case ClientHello =>
      // for i in self.peers iterates over host names, which have no get_state
      if a.peers != map[] then r == Failed(AttributeError) && b == a
      else r == Done && b == a.(clients := a.clients + {s})
    case StartReq(h) => Requested(h, {Stopped}, if h in a.peers then StartMessages(a.peers) else {}, a, b, r)
    case StopReq(h) => Requested(h, {Started}, {["STOP"]}, a, b, r)
    case KillReq(h) => Requested(h, {Started, Stopped}, {["KILL"]}, a, b, r)
    case Unrecognized => r == Done && b == a
  }

  class Daemon {
    var peers: map<string, Peer>
    var clients: set<SocketId>
    var outbox: seq<Send>

    ghost function Objects(): set<Peer>
      reads this
    {
      set h | h in peers :: peers[h]
    }

    /** Each host has its own Peer object, named after it, and every peer is clean. */
    ghost predicate Valid()
      reads this, Objects()
    {
      && (forall h :: h in peers ==> peers[h].host == h && peers[h].Valid())
      && (forall h, k :: h in peers && k in peers && h != k ==> peers[h] != peers[k])
    }

    function Snapshot(): map<string, PeerRec>
      reads this, Objects()
    {
      map h | h in peers :: peers[h].Rec()
    }

    function Config(): Conf
      reads this, Objects()
    {
      Conf(Snapshot(), clients, outbox)
    }

    /** The part of Daemon(host, port, peers) that builds the peer table:
        one new peer per host named, a later duplicate replacing an earlier one. */
    constructor (hosts: seq<string>)
      ensures Valid()
      ensures peers.Keys == set i | 0 <= i < |hosts| :: hosts[i]
      ensures forall h :: h in peers ==> peers[h].Rec() == Offline
      ensures clients == {} && outbox == []
    {
      peers := map[];
      clients := {};
      outbox := [];
      new;
      var i := 0;
      while i < |hosts|
        invariant 0 <= i <= |hosts|
        invariant peers.Keys == set k | 0 <= k < i :: hosts[k]
        invariant forall h :: h in peers ==> fresh(peers[h]) && peers[h].host == h && peers[h].Rec() == Offline
        invariant forall h, k :: h in peers && k in peers && h != k ==> peers[h] != peers[k]
        invariant clients == {} && outbox == []
      {
        var p := new Peer(hosts[i]);
        peers := peers[hosts[i] := p];
        i := i + 1;
      }
    }

    /** on_error(socket): every peer on that socket is disconnected, the
        others keep their fields, and the socket is no longer a client. */
    method OnError(s: SocketId)
      requires Valid()
      modifies this, Objects()
      ensures Valid() && peers == old(peers) && outbox == old(outbox)
      ensures Snapshot() == DropSocket(old(Snapshot()), s)
      ensures clients == old(clients) - {s}
    {
      ghost var before := Snapshot();
      var todo := peers.Keys;
      while todo != {}
        invariant todo <= peers.Keys && peers == old(peers) && outbox == old(outbox) && clients == old(clients)
        invariant Valid()
        invariant forall h :: h in peers ==>
          peers[h].Rec() == if h in todo then before[h] else Dropped(before[h], s)
        decreases todo
      {
        var h :| h in todo;
        var p := peers[h];
        if p.socket == Some(s) {
          p.Disconnected();
        }
        todo := todo - {h};
      }
      clients := clients - {s};
    }

    /** broadcast(msg): msg written once to every client. */
    method Broadcast(msg: seq<string>)
      modifies this
      ensures peers == old(peers) && clients == old(clients)
      ensures Broadcasted(old(outbox), outbox, clients, msg)
    {
      var todo := clients;
      ghost var part: seq<Send> := [];
      while todo != {}
        invariant todo <= clients && peers == old(peers) && clients == old(clients)
        invariant outbox == old(outbox) + part
        invariant forall k :: 0 <= k < |part| ==> part[k].words == msg
        invariant Recipients(part) == clients - todo
        invariant forall i, j :: 0 <= i < j < |part| ==> part[i].to != part[j].to
        decreases todo
      {
        var c :| c in todo;
        ghost var prev := part;
        part := part + [Send(c, msg)];
        assert Recipients(part) == Recipients(prev) + {c} by {
          forall t | t in Recipients(part)
            ensures t in Recipients(prev) + {c}
          {
            var k :| 0 <= k < |part| && part[k].to == t;
            if k < |prev| {
              assert prev[k] == part[k];
            }
          }
          forall t | t in Recipients(prev) + {c}
            ensures t in Recipients(part)
          {
            if t == c {
              assert part[|prev|].to == c;
            } else {
              var k :| 0 <= k < |prev| && prev[k].to == t;
              assert part[k] == prev[k];
            }
          }
        }
        outbox := outbox + [Send(c, msg)];
        todo := todo - {c};
      }
      assert outbox[|old(outbox)|..] == part;
    }

    /** do_start(host): START with a bootstrap address goes only to a STOPPED peer. */
    method DoStart(host: string) returns (r: Outcome)
      requires Valid()
      modifies this
      ensures Valid() && peers == old(peers)
      ensures Requested(host, {Stopped}, if host in old(Snapshot()) then StartMessages(old(Snapshot())) else {},
                        old(Config()), Config(), r)
    {
      if host !in peers {
        return Failed(KeyError);
      }
      var peer := peers[host];
      ghost var a := Snapshot();
      var bootstrap :| bootstrap in Bootstraps(Snapshot());
      if peer.state == Stopped {
        if peer.socket.None? {
          return Failed(AttributeError);
        }
        outbox := outbox + [Send(peer.socket.value, ["START", bootstrap])];
        assert ["START", bootstrap] in StartMessages(a);
        assert Snapshot() == a;
      }
      r := Done;
    }

    /** do_stop(host): STOP goes only to a STARTED peer. */
    method DoStop(host: string) returns (r: Outcome)
      requires Valid()
      modifies this
      ensures Valid() && peers == old(peers)
      ensures Requested(host, {Started}, {["STOP"]}, old(Config()), Config(), r)
    {
      if host !in peers {
        return Failed(KeyError);
      }
      var peer := peers[host];
      if peer.state == Started {
        if peer.socket.None? {
          return Failed(AttributeError);
        }
        outbox := outbox + [Send(peer.socket.value, ["STOP"])];
      }
      r := Done;
    }

    /** do_kill(host): KILL goes to a STARTED or STOPPED peer, never a DEAD one. */
    method DoKill(host: string) returns (r: Outcome)
      requires Valid()
      modifies this
      ensures Valid() && peers == old(peers)
      ensures Requested(host, {Started, Stopped}, {["KILL"]}, old(Config()), Config(), r)
    {
      if host !in peers {
        return Failed(KeyError);
      }
      var peer := peers[host];
      if peer.state == Started || peer.state == Stopped {
        if peer.socket.None? {
          return Failed(AttributeError);
        }
        outbox := outbox + [Send(peer.socket.value, ["KILL"])];
      }
      r := Done;
    }

    /** HELLO host: the peer is connected on s and stopped; every client
        hears its state. */
    method ReceiveHello(s: SocketId, h: string) returns (r: Outcome)
      requires Valid()
      modifies this, Objects()
      ensures Valid() && peers == old(peers)
      ensures Dispatch(Hello(h), s, old(Config()), Config(), r)
    {
      if h !in peers {
        return Failed(KeyError);
      }
      ghost var a := Config();
      var peer := peers[h];
      peer.Hello(s);
      assert Snapshot() == a.peers[h := HelloRec(a.peers[h], s)] by {
        forall k | k in peers && k != h ensures Snapshot()[k] == a.peers[k] {
          assert peers[k] != peer;
        }
      }
      Broadcast(peer.GetState());
      r := Done;
    }

    /** The peer part of STARTED host port. */
    method StartPeer(h: string, port: string) returns (r: Outcome)
      requires Valid() && h in peers
      modifies peers[h]
      ensures Valid()
      ensures Snapshot() == old(Snapshot())[h := StartedRec(old(Snapshot())[h], PythonInt(port))]
      ensures r == if PythonInt(port).Some? then Done else Failed(ValueError)
    {
      ghost var a := Snapshot();
      var peer := peers[h];
      r := peer.Started(port);
      assert Snapshot() == a[h := StartedRec(a[h], PythonInt(port))] by {
        forall k | k in peers && k != h ensures Snapshot()[k] == a[k] {
          assert peers[k] != peer;
        }
      }
    }

    /** STARTED host port: the peer is started on that port; every client
        hears its state. */
    method ReceiveStarted(s: SocketId, h: string, port: string) returns (r: Outcome)
      requires Valid()
      modifies this, Objects()
      ensures Valid() && peers == old(peers)
      ensures Dispatch(StartedMsg(h, port), s, old(Config()), Config(), r)
    {
      if h !in peers {
        return Failed(KeyError);
      }
      r := StartPeer(h, port);
      if r.Failed? {
        return;
      }
      Broadcast(peers[h].GetState());
    }

    /** STOPPED host: the peer is stopped; every client hears its state. */
    method ReceiveStopped(s: SocketId, h: string) returns (r: Outcome)
      requires Valid()
      modifies this, Objects()
      ensures Valid() && peers == old(peers)
      ensures Dispatch(StoppedMsg(h), s, old(Config()), Config(), r)
    {
      if h !in peers {
        return Failed(KeyError);
      }
      ghost var a := Config();
      var peer := peers[h];
      peer.Stopped();
      assert Snapshot() == a.peers[h := StoppedRec(a.peers[h])] by {
        forall k | k in peers && k != h ensures Snapshot()[k] == a.peers[k] {
          assert peers[k] != peer;
        }
      }
      Broadcast(peer.GetState());
      r := Done;
    }

    /** CHELLO: the loop over the peer table calls get_state on each host
        name, which raises AttributeError before the socket becomes a
        client; only a daemon with no peers gets to add it. */
    method ReceiveClientHello(s: SocketId) returns (r: Outcome)
      requires Valid()
      modifies this
      ensures Valid() && peers == old(peers)
      ensures Dispatch(ClientHello, s, old(Config()), Config(), r)
    {
      if peers != map[] {
        return Failed(AttributeError);
      }
      clients := clients + {s};
      r := Done;
    }

    /** on_data(socket, data): nothing happens until a newline arrives; a
        lone newline is a keep-alive consumed on its own; otherwise the first
        line is split on spaces, dispatched, and consumed with its newline. */
    method OnData(s: SocketId, data: string) returns (n: nat, r: Outcome)
      requires Valid()
      modifies this, Objects()
      ensures Valid() && peers == old(peers)
      ensures n == LineLength(data)
      ensures n < 2 ==> r == Done && Config() == old(Config())
      ensures n >= 2 ==> Dispatch(Message(data), s, old(Config()), Config(), r)
    {
      n := LineLength(data);
      if n < 2 {
        return n, Done;
      }
      var args := SplitOn(data[..n - 1], ' ');
      var c := ParseCommand(args);
      match c {
        case Hello(h) => r := ReceiveHello(s, h);
        case StartedMsg(h, port) => r := ReceiveStarted(s, h, port);
        case StoppedMsg(h) => r := ReceiveStopped(s, h);
        case ClientHello => r := ReceiveClientHello(s);
        case StartReq(h) => r := DoStart(h);
        case StopReq(h) => r := DoStop(h);
        case KillReq(h) => r := DoKill(h);
        case Unrecognized => r := Done;
      }
    }
  }

  /** A peer's fields once the connection s has failed. */
  function Dropped(p: PeerRec, s: SocketId): PeerRec {
    if p.socket == Some(s) then Offline else p
  }

  /** on_error's effect on the whole peer table. */
  function DropSocket(peers: map<string, PeerRec>, s: SocketId): (r: map<string, PeerRec>)
    ensures r.Keys == peers.Keys
  {
    map h | h in peers :: Dropped(peers[h], s)
  }

  /** After on_error(s) no peer still refers to s, every peer that did is
      offline, every other peer is as it was, and clean peers stay clean. */
  lemma DropSocketSpec(peers: map<string, PeerRec>, s: SocketId)
    ensures forall h :: h in peers ==> DropSocket(peers, s)[h].socket != Some(s)
    ensures forall h :: h in peers && peers[h].socket == Some(s) ==> DropSocket(peers, s)[h] == Offline
    ensures forall h :: h in peers && peers[h].socket != Some(s) ==> DropSocket(peers, s)[h] == peers[h]
    ensures (forall h :: h in peers ==> Clean(peers[h])) ==> forall h :: h in peers ==> Clean(DropSocket(peers, s)[h])
  {
  }
}
