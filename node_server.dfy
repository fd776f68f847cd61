/** The node object of peer.py (class Main): its fields, changed in place by
    its handlers, each proved to have exactly the effect that the step
    functions of module Node give it. */
module NodeServer {
  import opened Outcomes
  import opened Strings
  import opened Framing
  import opened RingIds
  import opened Net
  import opened Node

  class Server {
    const env: Env
    var prev: Option<string>
    var succsucc: Option<string>
    var finger: seq<Option<string>>
    var pingFail: map<string, int>
    var items: map<string, string>
    var trans: map<string, Trans>
    // Trans.next, a class attribute shared by the one node of a process
    var nextTrans: nat
    var sockets: set<SocketId>
    var nextSocket: SocketId
    // what dgram_socket.send has queued
    var packets: seq<Packet>
    // what the node has done on stream sockets
    var tcp: seq<TcpAction>

    function State(): NodeState
      reads this
    {
      NodeState(prev, succsucc, finger, pingFail, items, trans, nextTrans, sockets, nextSocket, packets, tcp)
    }

    ghost predicate Valid()
      reads this
    {
      WellFormed(env.myname, State())
    }

    /** start(options) up to the timers: every field starts empty. */
    constructor (env: Env)
      ensures this.env == env && State() == Initial() && Valid()
    {
      this.env := env;
      prev, succsucc := None, None;
      finger := seq(FingerCount, _ => None);
      pingFail, items, trans := map[], map[], map[];
      nextTrans := 0;
      sockets, nextSocket := {}, 0;
      packets, tcp := [], [];
      new;
      assert finger == Initial().finger;
      InitialWellFormed(env.myname);
    }

    /** The rest of start(options): bootstrap from the boot peer, if any. */
    method Start(boot: Option<string>) returns (r: Outcome)
      requires Valid()
      modifies this
      ensures Valid()
      ensures (State(), r) == Node.Start(env, old(State()), boot)
    {
      if boot.None? {
        finger := finger[0 := Some(env.myname)];
        prev := Some(env.myname);
        return Done;
      }
      var t := OpenTrans(Finger(0));
      r := SendDgram(boot, ["FIND", env.makeId(env.myname), env.myname, t.id]);
    }

    /** Trans(kind, self) followed by t.add(). */
    method OpenTrans(kind: TransKind) returns (t: Trans)
      requires Valid() && (kind.Finger? ==> kind.index < FingerCount)
      modifies this`trans, this`nextTrans
      ensures Valid()
      ensures (State(), t) == Open(env.myname, old(State()), kind)
    {
      OpenSpec(env.myname, State(), kind);
      t := Trans(TransId(env.myname, nextTrans), kind);
      trans := trans[t.id := t];
      nextTrans := nextTrans + 1;
    }

    /** t.remove(). */
    method RemoveTrans(id: string)
      requires Valid()
      modifies this`trans
      ensures Valid()
      ensures trans == old(trans) - {id}
    {
      CloseSpec(env.myname, trans, nextTrans, id);
      trans := trans - {id};
    }

    /** dgram_socket.send(addr, words). */
    method SendDgram(addr: Option<string>, words: seq<string>) returns (r: Outcome)
      modifies this`packets
      ensures (State(), r) == Node.Send(old(State()), addr, words)
    {
      var d := Datagram(addr, words);
      packets := packets + Queued(d);
      r := SendOutcome(d);
    }

    /** on_connect(socket). */
    method OnConnect(s: SocketId)
      modifies this`sockets
      ensures sockets == old(sockets) + {s}
    {
      sockets := sockets + {s};
    }

    /** s.write(words). */
    method WriteTo(s: SocketId, words: seq<string>)
      modifies this`tcp
      ensures tcp == old(tcp) + [Wrote(s, words)]
    {
      tcp := tcp + [Wrote(s, words)];
    }

    /** s.close_when_done(). */
    method CloseWhenDone(s: SocketId)
      modifies this`tcp
      ensures tcp == old(tcp) + [ClosingWhenDone(s)]
    {
      tcp := tcp + [ClosingWhenDone(s)];
    }

    /** connect(peer) followed by a write on the new socket. */
    method ConnectTo(peer: string, words: seq<string>) returns (r: Outcome)
      modifies this`sockets, this`nextSocket, this`tcp
      ensures (State(), r) == ConnectWrite(old(State()), peer, words)
    {
      var s := nextSocket;
      nextSocket := nextSocket + 1;
      OnConnect(s);
      var a := ParseAddress(peer);
      if a.Err? {
        return Failed(a.fault);
      }
      tcp := tcp + [Connected(s, a.value.0, a.value.1), Wrote(s, words)];
      r := Done;
    }

    /** The loop of find_forward: the highest slot whose peer is closer to
        the hash than this node is. */
    method ForwardSlot(finger: seq<Option<string>>, myId: Digest, dh: Result<int>) returns (f: Result<Option<nat>>)
      ensures f == Forward(finger, |finger|, myId, dh, env.makeId)
    {
      var k := |finger|;
      while k > 0
        invariant 0 <= k <= |finger|
        invariant Forward(finger, k, myId, dh, env.makeId) == Forward(finger, |finger|, myId, dh, env.makeId)
      {
        var x := finger[k - 1];
        if Present(x) {
          if dh.Err? {
            return Err(ValueError);
          }
          if dh.value > DigestDistance(myId, env.makeId(x.value)) {
            return Ok(Some(k - 1));
          }
        }
        k := k - 1;
      }
      f := Ok(None);
    }

    /** find_forward(hash, peerid, transid). */
    method FindForward(hash: string, peerid: string, transid: string) returns (r: Outcome)
      requires Valid()
      modifies this`packets
      ensures (State(), r) == ForwardStep(env, old(State()), hash, peerid, transid)
    {
      var myId := env.makeId(env.myname);
      var dh := IdDistance(myId, hash);
      var f := ForwardSlot(finger, myId, dh);
      if f.Err? {
        return Failed(ValueError);
      }
      if f.value.Some? {
        r := SendDgram(finger[f.value.value], ["FIND", hash, peerid, transid]);
        return;
      }
      if Present(finger[0]) {
        r := SendDgram(Some(peerid), ["FOUND", hash, finger[0].value, transid]);
      } else {
        r := SendDgram(Some(peerid), ["FOUND", hash, env.myname, transid]);
      }
    }

    /** handle_found(hash, peer, transid). */
    method HandleFound(hash: string, peer: string, transid: string) returns (r: Outcome)
      requires Valid()
      modifies this
      ensures Valid()
      ensures (State(), r) == Found(env, old(State()), hash, peer, transid)
    {
      FoundKeeps(env, State(), hash, peer, transid);
      if transid !in trans {
        return Done;
      }
      match trans[transid].kind {
        case GetFor(_) =>
          r := ConnectTo(peer, ["GET", hash, transid]);
        case PutFor(_, data) =>
          r := ConnectTo(peer, ["PUT", env.b64encode(data), transid]);
        case Finger(i) =>
          if peer == env.myname {
            return Done;
          }
          if i == 0 {
            r := ConnectTo(peer, ["RETR", env.makeId(peer), env.makeId(env.myname)]);
            if r.Failed? {
              return;
            }
          }
          finger := finger[i := Some(peer)];
          RemoveTrans(transid);
          r := Done;
        case Backup =>
          succsucc := Some(peer);
          RemoveTrans(transid);
          r := Done;
        case Prune =>
          if peer != env.myname {
            return Failed(NameError);
          }
          RemoveTrans(transid);
          r := Done;
        case ShowFor(_) =>
          r := Done;
      }
    }

    /** on_dgram(socket, data). */
    method OnDgram(data: string) returns (r: Outcome)
      requires Valid()
      modifies this
      ensures Valid()
      ensures (State(), r) == Dgram(env, old(State()), data)
    {
      var m := ReadNodeMsg(data);
      if m.FindMsg? || m.FoundMsg? || m.GetPredMsg? || m.NotifyMsg? || m.PredMsg? {
        r := RingMessage(data);
      } else {
        r := OtherMessage(data);
      }
    }

    /** The datagrams that keep the ring: lookups and their answers, and the
        predecessor and successor exchange. */
    method RingMessage(data: string) returns (r: Outcome)
      requires Valid()
      requires var m := ReadNodeMsg(data); m.FindMsg? || m.FoundMsg? || m.GetPredMsg? || m.NotifyMsg? || m.PredMsg?
      modifies this
      ensures Valid()
      ensures (State(), r) == Dgram(env, old(State()), data)
    {
      DgramSpec(env, State(), data);
      match ReadNodeMsg(data) {
        case FindMsg(hash, peer, transid) =>
          r := FindForward(hash, peer, transid);
        case FoundMsg(hash, peer, transid) =>
          r := HandleFound(hash, peer, transid);
        case GetPredMsg(peer) =>
          r := Done;
          if Present(prev) {
            r := SendDgram(Some(peer), ["PRED", prev.value]);
          }
        case NotifyMsg(peer) =>
          if AdoptsPredecessor(prev, env.makeId(env.myname), env.makeId(peer), env.makeId) {
            prev := Some(peer);
          }
          r := Done;
        case PredMsg(peer) =>
          if finger[0].None? {
            return Failed(TypeError);
          }
          if AdoptsSuccessor(env.makeId(env.myname), env.makeId(peer), env.makeId(finger[0].value)) {
            finger := finger[0 := Some(peer)];
          }
          r := Done;
      }
    }

    /** The other datagrams: the roll call of SHOW and PEER, the pings, and
        what cannot be read. */
    method OtherMessage(data: string) returns (r: Outcome)
      requires Valid()
      requires var m := ReadNodeMsg(data); !(m.FindMsg? || m.FoundMsg? || m.GetPredMsg? || m.NotifyMsg? || m.PredMsg?)
      modifies this
      ensures Valid()
      ensures (State(), r) == Dgram(env, old(State()), data)
    {
      DgramSpec(env, State(), data);
      match ReadNodeMsg(data) {
        case ShowMsg(peer, transid) =>
          if peer == env.myname {
            return Done;
          }
          r := SendDgram(finger[0], ["SHOW", peer, transid]);
          if r.Failed? {
            return;
          }
          r := SendDgram(Some(peer), ["PEER", env.myname, transid]);
        case PeerMsg(peer, transid) =>
          var c := ClientOf(trans, transid);
          if c.Err? {
            return Failed(c.fault);
          }
          WriteTo(c.value, ["CPEER", env.makeId(peer), peer]);
          r := Done;
        case PingMsg(peer) =>
          r := SendDgram(Some(peer), ["PONG", env.myname]);
        case PongMsg(peer) =>
          pingFail := pingFail[peer := 0];
          r := Done;
        case UnknownMsg =>
          r := Done;
        case BadMsg(f) =>
          r := Failed(f);
      }
    }

    /** The replies to a lookup a client asked for: passed on to the client,
        whose connection is then closed and whose lookup is over. */
    method ReplyTo(transid: string, words: seq<string>) returns (r: Outcome)
      requires Valid()
      modifies this`tcp, this`trans
      ensures Valid()
      ensures (State(), r) == Reply(old(State()), transid, words)
    {
      var c := ClientOf(trans, transid);
      if c.Err? {
        return Failed(c.fault);
      }
      tcp := tcp + [Wrote(c.value, words), ClosingWhenDone(c.value)];
      RemoveTrans(transid);
      r := Done;
    }

    /** Where the RETR loop stands: the keys ks taken so far, done as a
        set, the keys left, the writes since base and how the loop goes on. */
    ghost predicate RetrProgress(sock: SocketId, low: string, high: string, left: set<string>, done: set<string>,
                                 ks: seq<string>, base: seq<TcpAction>, r: Outcome)
      reads this
    {
      done !! left && done + left == items.Keys
      && Enumerates(ks, done) && (forall k :: k in ks ==> k in items)
      && RetrWrites(env, items, sock, Keep(low, high), ks).1 == r
      && tcp == base + RetrWrites(env, items, sock, Keep(low, high), ks).0
    }

    /** One key of the RETR loop, taken after the keys ks: its XFER when
        the key is strictly inside the arc. */
    method RetrKey(sock: SocketId, low: string, high: string, k: string, ghost ks: seq<string>, ghost base: seq<TcpAction>)
      returns (r: Outcome)
      requires k in items && forall j :: j in ks ==> j in items
      requires RetrWrites(env, items, sock, Keep(low, high), ks).1 == Done
      requires tcp == base + RetrWrites(env, items, sock, Keep(low, high), ks).0
      modifies this`tcp
      ensures tcp == base + RetrWrites(env, items, sock, Keep(low, high), ks + [k]).0
      ensures r == RetrWrites(env, items, sock, Keep(low, high), ks + [k]).1
    {
      RetrWritesSnoc(env, items, sock, Keep(low, high), ks, k);
      ghost var w := RetrWrites(env, items, sock, Keep(low, high), ks).0;
      var b := Transfers(low, high, k);
      if b.Err? {
        return Failed(b.fault);
      }
      if b.value {
        WriteTo(sock, ["XFER", k, env.b64encode(items[k])]);
        assert tcp == base + (w + [Wrote(sock, ["XFER", k, env.b64encode(items[k])])]);
      }
      r := Done;
    }

    /** The loop of RETR low high: the keys ks it has taken so far, done
        as a set, and the keys todo left when a comparison fails. */
    method RetrLoop(sock: SocketId, low: string, high: string)
      returns (r: Outcome, ghost ks: seq<string>, ghost done: set<string>, ghost todo: set<string>)
      modifies this`tcp
      ensures RetrProgress(sock, low, high, todo, done, ks, old(tcp), r)
      ensures r == Done ==> todo == {}
    {
      var left := items.Keys;
      done, ks, r := {}, [], Done;
      while left != {} && r == Done
        invariant RetrProgress(sock, low, high, left, done, ks, old(tcp), r)
        decreases |left|
      {
        var k :| k in left;
        EnumeratesTake(ks, done, left, items.Keys, k);
        r := RetrKey(sock, low, high, k, ks, old(tcp));
        left, done, ks := left - {k}, done + {k}, ks + [k];
      }
      todo := left;
    }

    /** RETR low high: every item strictly inside the arc is written back,
        in whatever order the loop visits the keys; ks is that order. */
    method Retr(sock: SocketId, low: string, high: string) returns (r: Outcome, ghost ks: seq<string>)
      modifies this`tcp
      ensures Enumerates(ks, items.Keys)
      ensures (State(), r) == Node.Retr(env, old(State()), sock, low, high, ks)
    {
      ghost var done, todo;
      r, ks, done, todo := RetrLoop(sock, low, high);
      assert RetrProgress(sock, low, high, todo, done, ks, old(tcp), r);
      if r.Failed? {
        ks := RetrStopped(env, items, sock, Keep(low, high), ks, done, todo);
      } else {
        assert done == items.Keys;
        CloseWhenDone(sock);
      }
    }

    /** The requests of a client: a lookup for a GET or a PUT, and a roll
        call of the ring for a SHOW. */
    method ClientRequest(sock: SocketId, q: Request) returns (r: Outcome)
      requires Valid()
      requires q.ClientGet? || q.ClientPut? || q.ClientShow?
      modifies this
      ensures (State(), r) == Handle(env, old(State()), sock, q, [])
    {
      match q {
        case ClientGet(hash) =>
          var t := OpenTrans(GetFor(sock));
          r := FindForward(hash, env.myname, t.id);
        case ClientPut(encoded) =>
          var d := env.b64decode(encoded);
          if d.None? {
            return Failed(TypeError);
          }
          var t := OpenTrans(PutFor(sock, d.value));
          r := FindForward(env.makeFileId(d.value), env.myname, t.id);
        case ClientShow =>
          var t := OpenTrans(ShowFor(sock));
          if finger[0] != Some(env.myname) {
            r := SendDgram(finger[0], ["SHOW", env.myname, t.id]);
            if r.Failed? {
              return;
            }
          }
          WriteTo(sock, ["CPEER", env.makeId(env.myname), env.myname]);
          r := Done;
      }
    }

    /** The requests of another node for the items it stores. */
    method ItemRequest(sock: SocketId, q: Request) returns (r: Outcome)
      requires Valid()
      requires q.GetReq? || q.PutReq? || q.XferReq?
      modifies this`items, this`tcp
      ensures (State(), r) == Handle(env, old(State()), sock, q, [])
    {
      match q {
        case GetReq(hash, transid) =>
          var words := if hash in items then ["DATA", env.b64encode(items[hash]), transid]
                       else ["ERROR", "data.not.found", transid];
          tcp := tcp + [Wrote(sock, words), ClosingWhenDone(sock)];
          r := Done;
        case PutReq(encoded, transid) =>
          var d := env.b64decode(encoded);
          if d.None? {
            return Failed(TypeError);
          }
          var h := env.makeFileId(d.value);
          items := items[h := d.value];
          tcp := tcp + [Wrote(sock, ["OK", h, transid]), ClosingWhenDone(sock)];
          r := Done;
        case XferReq(hash, encoded) =>
          var d := env.b64decode(encoded);
          if d.None? {
            return Failed(TypeError);
          }
          items := items[hash := d.value];
          r := Done;
      }
    }

    /** on_data(socket, data): n is how much of data has been consumed, and
        ks the order the RETR loop takes, when the line is a RETR. */
    method OnData(sock: SocketId, data: string) returns (n: nat, r: Outcome, ghost ks: seq<string>)
      requires Valid()
      modifies this
      ensures Valid()
      ensures n == LineLength(data)
      ensures n >= 2 && ReadRequest(data[..n - 1]).RetrReq? ==> Enumerates(ks, old(items).Keys)
      ensures (State(), r) == Node.OnData(env, old(State()), sock, data, ks)
    {
      n := LineLength(data);
      ks := [];
      if n < 2 {
        r := Done;
        return;
      }
      var q := ReadRequest(data[..n - 1]);
      ghost var st := State();
      if q.ClientGet? || q.ClientPut? || q.ClientShow? {
        r := ClientRequest(sock, q);
      } else if q.GetReq? || q.PutReq? || q.XferReq? {
        r := ItemRequest(sock, q);
      } else if q.RetrReq? {
        r, ks := Retr(sock, q.low, q.high);
      } else if q.DataReply? {
        r := ReplyTo(q.transid, ["CDATA", q.encoded]);
      } else if q.ErrorReply? {
        r := ReplyTo(q.transid, ["CERROR", q.msg]);
      } else if q.OkReply? {
        r := ReplyTo(q.transid, ["COK", q.hash]);
      } else if q.BadReq? {
        r := Failed(q.fault);
      } else {
        r := Done;
      }
      HandleKeeps(env, st, sock, q, ks);
    }

    /** The first half of ping_timer_cb: dead peers leave the table. */
    method PruneDeadPeers()
      requires |finger| >= 1
      modifies this`prev, this`finger, this`succsucc
      ensures State() == PruneDead(old(State()))
    {
      ghost var s0 := State();
      if Dead(prev, pingFail) {
        prev := None;
      }
      if Dead(finger[0], pingFail) {
        finger := finger[0 := succsucc];
        succsucc := None;
      }
      ghost var head := (prev, finger[0], succsucc);
      var i := 1;
      while i < |finger|
        invariant 1 <= i <= |finger| == |s0.finger|
        invariant (prev, finger[0], succsucc) == head
        invariant forall j :: 1 <= j < i ==> finger[j] == Pruned(s0.finger[j], pingFail)
        invariant forall j :: i <= j < |finger| ==> finger[j] == s0.finger[j]
      {
        if Dead(finger[i], pingFail) {
          finger := finger[i := None];
        }
        i := i + 1;
      }
      PruneDeadSlots(s0, finger);
    }

    /** dgram_socket.send(x, ['PING', self.myname]). */
    method SendPing(v: string) returns (r: Outcome)
      modifies this`packets
      ensures packets == old(packets) + Queued(PingTo(env.myname)(v))
      ensures r == SendOutcome(PingTo(env.myname)(v))
      ensures r.Failed? ==> r == Failed(ValueError)
    {
      r := SendDgram(Some(v), ["PING", env.myname]);
    }

    /** One slot of the heartbeat loop: the PING to a peer not yet pinged,
        and its new counter once the PING has been sent. */
    method PingPeer(x: Option<string>, counts: map<string, int>, ghost sent: seq<Packet>)
      returns (next: map<string, int>, r: Outcome, ghost q: seq<Packet>)
      modifies this`packets
      ensures packets == old(packets) + q
      ensures r == Done || r == Failed(ValueError)
      ensures PingSlot(pingFail, (counts, sent, true), x, PingTo(env.myname)) == (next, sent + q, r == Done)
    {
      next, r, q := counts, Done, [];
      if Present(x) && x.value !in counts {
        r := SendPing(x.value);
        q := Queued(PingTo(env.myname)(x.value));
        if r == Done {
          next := counts[x.value := Get(pingFail, x.value) + 1];
        }
      }
      if q == [] {
        assert sent + q == sent;
      }
    }

    /** The loop of ping_timer_cb over the slots xs: PINGs sent in turn,
        up to the first that fails, and the counters of the peers pinged. */
    method PingSlotsLoop(xs: seq<Option<string>>) returns (counts: map<string, int>, r: Outcome, ghost sent: seq<Packet>)
      modifies this`packets
      ensures packets == old(packets) + sent
      ensures r == Done || r == Failed(ValueError)
      ensures PingSlots(pingFail, xs, PingTo(env.myname)) == (counts, sent, r == Done)
    {
      counts, r, sent := map[], Done, [];
      ghost var send := PingTo(env.myname);
      var i := 0;
      while i < |xs| && r == Done
        invariant 0 <= i <= |xs|
        invariant r == Done || r == Failed(ValueError)
        invariant PingSlots(pingFail, xs[..i], send) == (counts, sent, r == Done)
        invariant packets == old(packets) + sent
      {
        PingSlotsNext(pingFail, xs, i, send);
        ghost var q;
        counts, r, q := PingPeer(xs[i], counts, sent);
        sent := sent + q;
        i := i + 1;
      }
      if r == Done {
        assert xs[..i] == xs;
      } else {
        PingSlotsStop(pingFail, xs, i, send);
      }
    }

    /** The second half of ping_timer_cb: one PING to each peer in the
        table, and the new counters once all of them have been sent. */
    method SendHeartbeat() returns (r: Outcome)
      modifies this`pingFail, this`packets
      ensures (State(), r) == Heartbeat(env, old(State()))
    {
      ghost var st := State();
      HeartbeatBySlots(env, st);
      var counts;
      ghost var sent;
      counts, r, sent := PingSlotsLoop(finger + [prev]);
      if r == Done {
        pingFail := counts;
        assert State() == st.(pingFail := counts, packets := st.packets + sent);
      } else {
        assert State() == st.(packets := st.packets + sent);
      }
    }

    /** ping_timer_cb, without the rescheduling. */
    method PingTimer() returns (r: Outcome)
      requires Valid()
      modifies this
      ensures Valid()
      ensures (State(), r) == Node.PingTimer(env, old(State()))
    {
      PruneDeadPeers();
      r := SendHeartbeat();
    }

    /** backup_timer_cb, without the rescheduling. */
    method BackupTimer() returns (r: Outcome)
      requires Valid()
      modifies this
      ensures Valid()
      ensures (State(), r) == Node.BackupTimer(env, old(State()))
    {
      if !Present(finger[0]) && Present(succsucc) {
        finger := finger[0 := succsucc];
        succsucc := None;
      } else if !Present(finger[0]) && !Present(succsucc) {
        return Failed(Exit(1));
      }
      var t := OpenTrans(Backup);
      r := FindForward(AddToIdAsWritten(env.makeId(finger[0].value), 1), env.myname, t.id);
    }

    /** on_error(socket). */
    method OnError(sock: SocketId) returns (r: Outcome)
      modifies this`sockets
      ensures (State(), r) == ConnectionLost(old(State()), sock)
    {
      sockets := sockets - {sock};
      var todo := trans.Keys;
      while todo != {}
        invariant todo <= trans.Keys
        invariant forall id :: id in trans && id !in todo ==> id !in ClientTrans(trans, sock)
        decreases |todo|
      {
        var id :| id in todo;
        if IsClientKind(trans[id].kind) && trans[id].kind.client == sock {
          assert id in ClientTrans(trans, sock);
          return Failed(NameError);
        }
        todo := todo - {id};
      }
      assert ClientTrans(trans, sock) == {};
      r := Done;
    }
  }
}
