/** A storage node on the ring (peer.py): the finger table and the
    predecessor and successor-of-successor links, the failure counters fed
    by pings, the stored items, and the table of open lookups
    (transactions). Datagrams the node sends are appended to a list, and
    what it does on stream sockets (connect, write, close when done) to a
    second one. SHA-1 and base64 are functions the node is given. */
module Node {
  import opened Outcomes
  import opened Strings
  import opened Framing
  import opened RingIds
  import opened Net

  type SocketId = nat

  /** len(self.finger). */
  const FingerCount: nat := 160

  /** Why a lookup was started, with what the answer is for. */
  datatype TransKind =
    | Finger(index: nat)                     // fill finger[index]
    | Backup                                 // refresh succsucc
    | Prune                                  // check we still own an item
    | GetFor(client: SocketId)               // a client's CGET
    | PutFor(client: SocketId, data: string) // a client's CPUT
    | ShowFor(client: SocketId)              // a client's CSHOW

  predicate IsClientKind(k: TransKind) {
    k.GetFor? || k.PutFor? || k.ShowFor?
  }

  datatype Trans = Trans(id: string, kind: TransKind)

  /** '%s-%d' % (myname, num). */
  function TransId(myname: string, num: nat): string {
    myname + "-" + NatToDecimal(num)
  }

  /** Different counter values give different transaction ids. */
  lemma TransIdInjective(myname: string, m: nat, n: nat)
    ensures TransId(myname, m) == TransId(myname, n) ==> m == n
  {
    if TransId(myname, m) == TransId(myname, n) {
      var k := |myname| + 1;
      assert TransId(myname, m)[k..] == NatToDecimal(m);
      assert TransId(myname, n)[k..] == NatToDecimal(n);
      NatToDecimalInjective(m, n);
    }
  }

  /** What the node does on a stream socket. */
  datatype TcpAction =
    | Connected(sock: SocketId, host: string, port: int)
    | Wrote(sock: SocketId, words: seq<string>)
    | ClosingWhenDone(sock: SocketId)

  /** The datagrams a send queues. */
  function Queued(d: Result<Option<Packet>>): seq<Packet> {
    if d.Ok? && d.value.Some? then [d.value.value] else []
  }

  /** What a send reports: a ValueError ends the process. */
  function SendOutcome(d: Result<Option<Packet>>): Outcome {
    if d.Err? then Failed(d.fault) else Done
  }

  /** A peer that has missed two pings in a row. */
  predicate Dead(x: Option<string>, pingFail: map<string, int>) {
    Present(x) && x.value in pingFail && pingFail[x.value] >= 2
  }

  /** dict.get(x, 0). */
  function Get(m: map<string, int>, x: string): int {
    if x in m then m[x] else 0
  }

  // ---------------------------------------------------------------------------
  // Routing decisions

  /** A finger slot find_forward would forward to: it holds a peer, and the
      hash is farther from us (dh, the distance id_distance gives from our
      id to the hash) than that peer. */
  predicate Closer(finger: seq<Option<string>>, i: nat, myId: Digest, dh: Result<int>, makeId: string -> Digest)
    requires i < |finger|
  {
    Present(finger[i]) && dh.Ok? && dh.value > DigestDistance(myId, makeId(finger[i].value))
  }

  /** The loop of find_forward over finger[k-1], ..., finger[0]: the first
      (highest) slot that is Closer, None when there is none, and a
      ValueError when the hash does not parse and some slot holds a peer. */
  function Forward(finger: seq<Option<string>>, k: nat, myId: Digest, dh: Result<int>, makeId: string -> Digest): (r: Result<Option<nat>>)
    requires k <= |finger|
    ensures r.Err? ==> r.fault == ValueError
    ensures r.Ok? && r.value.Some? ==> r.value.value < k
  {
    if k == 0 then Ok(None)
    else if !Present(finger[k - 1]) then Forward(finger, k - 1, myId, dh, makeId)
    else if dh.Err? then Err(ValueError)
    else if Closer(finger, k - 1, myId, dh, makeId) then Ok(Some(k - 1))
    else Forward(finger, k - 1, myId, dh, makeId)
  }

  /** What the loop finds: a ValueError exactly when the hash does not parse
      and some slot holds a peer; otherwise the highest Closer slot, or None
      when no slot is Closer. */
  lemma {:induction false} ForwardSpec(finger: seq<Option<string>>, k: nat, myId: Digest, dh: Result<int>, makeId: string -> Digest)
    requires k <= |finger|
    ensures var r := Forward(finger, k, myId, dh, makeId);
            (r.Err? <==> dh.Err? && exists j :: 0 <= j < k && Present(finger[j]))
            && (r.Ok? && r.value.Some? ==>
                  Closer(finger, r.value.value, myId, dh, makeId)
                  && forall j :: r.value.value < j < k ==> !Closer(finger, j, myId, dh, makeId))
            && (r == Ok(None) ==> forall j :: 0 <= j < k ==> !Closer(finger, j, myId, dh, makeId))
  {
    if k > 0 {
      ForwardSpec(finger, k - 1, myId, dh, makeId);
    }
  }

  /** For a hash that is a digest, a slot is Closer exactly when its peer
      lies strictly inside the arc from us to the hash: find_forward sends
      the lookup to the farthest finger that does not overshoot the key. */
  lemma CloserInArc(finger: seq<Option<string>>, i: nat, myId: Digest, hash: Digest, makeId: string -> Digest)
    requires i < |finger| && Present(finger[i])
    ensures Closer(finger, i, myId, IdDistance(myId, hash), makeId)
            <==> InArc(HexValue(myId), HexValue(makeId(finger[i].value)), HexValue(hash))
  {
    DigestDistanceAgrees(myId, hash);
    DistanceOrder(myId, makeId(finger[i].value), hash);
  }

  /** The datagram find_forward sends: FIND to the chosen finger, or FOUND
      back to the asker naming our successor, or ourselves when we have
      none. */
  function ForwardMessage(finger: seq<Option<string>>, myname: string, myId: Digest, hash: string, dh: Result<int>,
                          peerid: string, transid: string, makeId: string -> Digest): (r: Result<(Option<string>, seq<string>)>)
    requires |finger| >= 1
    ensures r.Err? <==> Forward(finger, |finger|, myId, dh, makeId).Err?
    ensures r.Ok? && Forward(finger, |finger|, myId, dh, makeId).value.Some? ==>
              var i := Forward(finger, |finger|, myId, dh, makeId).value.value;
              r.value == (finger[i], ["FIND", hash, peerid, transid])
    ensures r.Ok? && Forward(finger, |finger|, myId, dh, makeId).value.None? ==>
              r.value == (Some(peerid), ["FOUND", hash, if Present(finger[0]) then finger[0].value else myname, transid])
  {
    match Forward(finger, |finger|, myId, dh, makeId)
    case Err(f) => Err(f)
    case Ok(Some(i)) => Ok((finger[i], ["FIND", hash, peerid, transid]))
    case Ok(None) => Ok((Some(peerid), ["FOUND", hash, if Present(finger[0]) then finger[0].value else myname, transid]))
  }

  /** NOTIFY: the announced peer becomes our predecessor when we have none,
      or when it is strictly closer to us, going clockwise, than the current
      one; that is, when it lies strictly between the current predecessor
      and us. */
  function AdoptsPredecessor(prev: Option<string>, myId: Digest, peerId: Digest, makeId: string -> Digest): (r: bool)
    ensures r <==> !Present(prev) || InArc(HexValue(makeId(prev.value)), HexValue(peerId), HexValue(myId))
  {
    if !Present(prev) then true
    else
      DistanceOrderTo(makeId(prev.value), peerId, myId);
      DigestDistance(peerId, myId) < DigestDistance(makeId(prev.value), myId)
  }

  /** PRED: our successor's predecessor becomes our successor when it is
      strictly closer to us, going clockwise, than the successor; that is,
      when it lies strictly between us and the successor. */
  function AdoptsSuccessor(myId: Digest, peerId: Digest, succId: Digest): (r: bool)
    ensures r <==> InArc(HexValue(myId), HexValue(peerId), HexValue(succId))
  {
    DistanceOrder(myId, peerId, succId);
    DigestDistance(myId, peerId) < DigestDistance(myId, succId)
  }


  // ---------------------------------------------------------------------------
  // Heartbeat

  /** The distinct peers named in a list of slots, in order of first
      appearance; empty and missing entries are skipped. */
  function FirstSeen(xs: seq<Option<string>>): seq<string> {
    if xs == [] then []
    else
      var d := FirstSeen(xs[..|xs| - 1]);
      var x := xs[|xs| - 1];
      if Present(x) && x.value !in d then d + [x.value] else d
  }

  /** Every peer named in the slots is listed, nothing else is, and none
      twice. */
  lemma {:induction false} FirstSeenSpec(xs: seq<Option<string>>)
    ensures forall v :: v in FirstSeen(xs) <==> v != "" && Some(v) in xs
    ensures forall i, j :: 0 <= i < j < |FirstSeen(xs)| ==> FirstSeen(xs)[i] != FirstSeen(xs)[j]
  {
    if xs != [] {
      var init := xs[..|xs| - 1];
      var x := xs[|xs| - 1];
      assert xs == init + [x];
      FirstSeenSpec(init);
      var d := FirstSeen(init);
      forall v
        ensures Some(v) in xs <==> Some(v) in init || Some(v) == x
      {
      }
      if Present(x) && x.value !in d {
        var r := d + [x.value];
        assert FirstSeen(xs) == r;
        forall i, j | 0 <= i < j < |r|
          ensures r[i] != r[j]
        {
          assert r[i] == d[i];
          if j == |d| {
            assert d[i] in d;
          } else {
            assert r[j] == d[j];
          }
        }
      } else {
        assert FirstSeen(xs) == d;
      }
    }
  }

  /** The datagrams sent to a list of peers, each queued in turn by send,
      and whether every one of them could be addressed: sending stops at
      the first address that does not parse. */
  function Pings(names: seq<string>, send: string -> Result<Option<Packet>>): (r: (bool, seq<Packet>))
    ensures |r.1| <= |names|
  {
    if names == [] then (true, [])
    else
      var p := Pings(names[..|names| - 1], send);
      var d := send(names[|names| - 1]);
      if !p.0 || d.Err? then (false, p.1)
      else (true, p.1 + Queued(d))
  }

  /** The n-th packet goes to the n-th peer; all peers are reached exactly
      when none of their addresses fails, and otherwise the first failing
      address is the one after the last packet. */
  lemma {:induction false} PingsSpec(names: seq<string>, send: string -> Result<Option<Packet>>)
    requires forall i :: 0 <= i < |names| ==> send(names[i]) != Ok(None)
    ensures var r := Pings(names, send);
            (forall i :: 0 <= i < |r.1| ==> send(names[i]) == Ok(Some(r.1[i])))
            && (r.0 <==> |r.1| == |names|)
            && (r.0 <==> forall i :: 0 <= i < |names| ==> send(names[i]).Ok?)
            && (!r.0 ==> send(names[|r.1|]).Err?)
  {
    if names != [] {
      var init := names[..|names| - 1];
      PingsSpec(init, send);
      assert forall i :: 0 <= i < |init| ==> names[i] == init[i];
    }
  }

  /** What the heartbeat sends to a peer: PING with our address. */
  function Ping(myname: string, v: string): Result<Option<Packet>> {
    Datagram(Some(v), ["PING", myname])
  }

  /** A ping to a non-empty address is never silently dropped. */
  lemma PingAddressed(myname: string, v: string)
    requires v != ""
    ensures PingTo(myname)(v) != Ok(None)
  {
    assert PingTo(myname)(v) == Ping(myname, v);
  }

  /** The same, as the send of every peer in turn. */
  function PingTo(myname: string): string -> Result<Option<Packet>> {
    v => Ping(myname, v)
  }

  /** The new failure counters: one more missed round for every peer pinged. */
  function Recount(pingFail: map<string, int>, names: seq<string>): map<string, int> {
    if names == [] then map[]
    else
      var v := names[|names| - 1];
      Recount(pingFail, names[..|names| - 1])[v := Get(pingFail, v) + 1]
  }

  /** The new counters are kept for exactly the given peers, each one more
      than its old counter (0 when it had none). */
  lemma {:induction false} RecountAt(pingFail: map<string, int>, names: seq<string>, v: string)
    ensures v in Recount(pingFail, names) <==> v in names
    ensures v in names ==> Recount(pingFail, names)[v] == Get(pingFail, v) + 1
  {
    if names != [] {
      var init := names[..|names| - 1];
      assert names == init + [names[|names| - 1]];
      RecountAt(pingFail, init, v);
    }
  }

  // ---------------------------------------------------------------------------
  // The node's state

  /** What a node is given rather than computes: its own address, the two
      SHA-1 based ids (make_id, make_file_id) and base64 encoding and
      decoding, where a decode that fails gives None. */
  datatype Env = Env(myname: string, makeId: string -> Digest, makeFileId: string -> Digest,
                     b64encode: string -> string, b64decode: string -> Option<string>)

  /** The fields of a node that its handlers change, with the datagrams it
      has queued and what it has done on stream sockets. */
  datatype NodeState = NodeState(
    prev: Option<string>,
    succsucc: Option<string>,
    finger: seq<Option<string>>,
    pingFail: map<string, int>,
    items: map<string, string>,
    trans: map<string, Trans>,
    nextTrans: nat,
    sockets: set<SocketId>,
    nextSocket: SocketId,
    packets: seq<Packet>,
    tcp: seq<TcpAction>)

  /** A node just started: no neighbours, no items, no transactions. */
  function Initial(): (st: NodeState)
    ensures |st.finger| == FingerCount && forall i :: 0 <= i < |st.finger| ==> st.finger[i].None?
  {
    NodeState(None, None, seq(FingerCount, _ => None), map[], map[], map[], 0, {}, 0, [], [])
  }

  /** Every open transaction is filed under its own id, an id made from an
      earlier value of the counter, and finger lookups aim at existing
      slots. */
  predicate Filed(myname: string, trans: map<string, Trans>, next: nat) {
    forall id :: id in trans ==>
      trans[id].id == id
      && (exists n: nat :: n < next && id == TransId(myname, n))
      && (trans[id].kind.Finger? ==> trans[id].kind.index < FingerCount)
  }

  /** The invariant a node keeps: 160 finger slots, and its transactions
      filed. */
  predicate WellFormed(myname: string, st: NodeState) {
    |st.finger| == FingerCount && Filed(myname, st.trans, st.nextTrans)
  }

  lemma InitialWellFormed(myname: string)
    ensures WellFormed(myname, Initial())
  {
  }

  /** The counter always names a transaction that is not open yet. */
  lemma FreshTransId(myname: string, st: NodeState)
    requires WellFormed(myname, st)
    ensures TransId(myname, st.nextTrans) !in st.trans
  {
    var id := TransId(myname, st.nextTrans);
    if id in st.trans {
      var n: nat :| n < st.nextTrans && id == TransId(myname, n);
      TransIdInjective(myname, n, st.nextTrans);
    }
  }

  /** Trans(...) followed by add(): the id comes from the counter, which
      moves on, and the transaction is filed under it. */
  function Open(myname: string, st: NodeState, kind: TransKind): (NodeState, Trans) {
    var t := Trans(TransId(myname, st.nextTrans), kind);
    (st.(trans := st.trans[t.id := t], nextTrans := st.nextTrans + 1), t)
  }

  /** Opening a transaction never replaces an open one, and keeps the
      invariant. */
  lemma OpenSpec(myname: string, st: NodeState, kind: TransKind)
    requires WellFormed(myname, st) && (kind.Finger? ==> kind.index < FingerCount)
    ensures var (s, t) := Open(myname, st, kind);
            t.id !in st.trans && s.trans.Keys == st.trans.Keys + {t.id}
            && (forall id :: id in st.trans ==> s.trans[id] == st.trans[id])
            && WellFormed(myname, s)
  {
    FreshTransId(myname, st);
    var (s, t) := Open(myname, st, kind);
    forall id | id in s.trans
      ensures exists n: nat :: n < s.nextTrans && id == TransId(myname, n)
    {
      if id == t.id {
        assert st.nextTrans < s.nextTrans && id == TransId(myname, st.nextTrans);
      } else {
        var n: nat :| n < st.nextTrans && id == TransId(myname, n);
        assert n < s.nextTrans;
      }
    }
  }

  /** Closing a transaction keeps the invariant. */
  lemma CloseSpec(myname: string, trans: map<string, Trans>, next: nat, id: string)
    requires Filed(myname, trans, next)
    ensures Filed(myname, trans - {id}, next)
  {
    forall x | x in trans - {id}
      ensures exists n: nat :: n < next && x == TransId(myname, n)
    {
      var n: nat :| n < next && x == TransId(myname, n);
    }
  }

  // ---------------------------------------------------------------------------
  // Sending

  /** dgram_socket.send(addr, words): the datagram it queues, if any, and
      how it ends. */
  function Send(st: NodeState, addr: Option<string>, words: seq<string>): (NodeState, Outcome) {
    var d := Datagram(addr, words);
    (st.(packets := st.packets + Queued(d)), SendOutcome(d))
  }

  /** connect(peer) and a write on the new socket: the socket registers
      itself with the node first, then the address is split and its port
      parsed, and only a connected socket is written to. */
  function ConnectWrite(st: NodeState, peer: string, words: seq<string>): (NodeState, Outcome) {
    var s := st.nextSocket;
    var st1 := st.(sockets := st.sockets + {s}, nextSocket := s + 1);
    match ParseAddress(peer)
    case Err(f) => (st1, Failed(f))
    case Ok((host, port)) => (st1.(tcp := st.tcp + [Connected(s, host, port), Wrote(s, words)]), Done)
  }

  /** find_forward(hash, peerid, transid): the message it chooses, sent. */
  function ForwardStep(e: Env, st: NodeState, hash: string, peerid: string, transid: string): (NodeState, Outcome)
    requires |st.finger| >= 1
  {
    var myId := e.makeId(e.myname);
    var m := ForwardMessage(st.finger, e.myname, myId, hash, IdDistance(myId, hash), peerid, transid, e.makeId);
    if m.Err? then (st, Failed(m.fault)) else Send(st, m.value.0, m.value.1)
  }

  /** find_forward touches nothing but the datagram queue, and never exits. */
  lemma ForwardStepSends(e: Env, st: NodeState, hash: string, peerid: string, transid: string)
    requires |st.finger| >= 1
    ensures var s := ForwardStep(e, st, hash, peerid, transid).0;
            s == st.(packets := s.packets)
    ensures ForwardStep(e, st, hash, peerid, transid).1 != Failed(Exit(1))
  {
  }

  /** The client socket of a transaction, as t.client reads it: a KeyError
      for an unknown id, an AttributeError for a lookup no client asked for. */
  function ClientOf(trans: map<string, Trans>, id: string): (r: Result<SocketId>)
    ensures r.Ok? <==> id in trans && IsClientKind(trans[id].kind)
    ensures r.Ok? ==> r.value == trans[id].kind.client
    ensures r.Err? ==> r.fault == (if id in trans then AttributeError else KeyError)
  {
    if id !in trans then Err(KeyError)
    else if !IsClientKind(trans[id].kind) then Err(AttributeError)
    else Ok(trans[id].kind.client)
  }

  // ---------------------------------------------------------------------------
  // handle_found

  /** handle_found(hash, peer, transid): the answer to one of our lookups. */
  function Found(e: Env, st: NodeState, hash: string, peer: string, transid: string): (NodeState, Outcome)
    requires WellFormed(e.myname, st)
  {
    if transid !in st.trans then (st, Done)
    else match st.trans[transid].kind
      case GetFor(_) => ConnectWrite(st, peer, ["GET", hash, transid])
      case PutFor(_, data) => ConnectWrite(st, peer, ["PUT", e.b64encode(data), transid])
      case Finger(i) =>
        if peer == e.myname then (st, Done)
        else
          var words: seq<string> := ["RETR", e.makeId(peer), e.makeId(e.myname)];
          var c := if i == 0 then ConnectWrite(st, peer, words) else (st, Done);
          if c.1.Failed? then c
          else (c.0.(finger := c.0.finger[i := Some(peer)], trans := c.0.trans - {transid}), Done)
      case Backup => (st.(succsucc := Some(peer), trans := st.trans - {transid}), Done)
      case Prune =>
        // the condition reads the unbound name items once peer != myname
        if peer != e.myname then (st, Failed(NameError)) else (st.(trans := st.trans - {transid}), Done)
      case ShowFor(_) => (st, Done)
  }

  /** Every answer keeps the invariant and leaves the stored items alone. */
  lemma FoundKeeps(e: Env, st: NodeState, hash: string, peer: string, transid: string)
    requires WellFormed(e.myname, st)
    ensures WellFormed(e.myname, Found(e, st, hash, peer, transid).0)
    ensures Found(e, st, hash, peer, transid).0.items == st.items
  {
    CloseSpec(e.myname, st.trans, st.nextTrans, transid);
  }

  /** An answer for no open lookup changes nothing, and neither does a
      finger answer naming ourselves. */
  lemma FoundIgnores(e: Env, st: NodeState, hash: string, peer: string, transid: string)
    requires WellFormed(e.myname, st)
    requires transid !in st.trans || (st.trans[transid].kind.Finger? && peer == e.myname)
    ensures Found(e, st, hash, peer, transid) == (st, Done)
  {
  }

  /** Any other finger answer that gets through fills exactly its slot and
      closes the lookup; it fails only when the successor's address, which
      it connects to, does not parse. */
  lemma FoundFinger(e: Env, st: NodeState, hash: string, peer: string, transid: string)
    requires WellFormed(e.myname, st)
    requires transid in st.trans && st.trans[transid].kind.Finger? && peer != e.myname
    ensures var (s, r) := Found(e, st, hash, peer, transid);
            var i := st.trans[transid].kind.index;
            (r == Done <==> i != 0 || ParseAddress(peer).Ok?)
            && (r == Done ==>
                  s.finger[i] == Some(peer) && transid !in s.trans
                  && forall j :: 0 <= j < |st.finger| && j != i ==> s.finger[j] == st.finger[j])
  {
  }

  /** A backup answer sets succsucc and closes the lookup. */
  lemma FoundBackup(e: Env, st: NodeState, hash: string, peer: string, transid: string)
    requires WellFormed(e.myname, st)
    requires transid in st.trans && st.trans[transid].kind.Backup?
    ensures var (s, r) := Found(e, st, hash, peer, transid);
            r == Done && s.succsucc == Some(peer) && transid !in s.trans && s.finger == st.finger
  {
  }

  // ---------------------------------------------------------------------------
  // Datagrams between nodes

  /** A datagram as on_dgram reads it: the verb, then its fields. */
  datatype NodeMsg =
    | FindMsg(hash: string, peer: string, transid: string)   // who owns hash? answer peer
    | FoundMsg(hash: string, peer: string, transid: string)  // peer owns hash
    | GetPredMsg(peer: string)                               // GETP: peer wants our predecessor
    | NotifyMsg(peer: string)                                // peer may be our predecessor
    | PredMsg(peer: string)                                  // our successor's predecessor
    | ShowMsg(peer: string, transid: string)                 // roll call started by peer
    | PeerMsg(peer: string, transid: string)                 // answer to a roll call
    | PingMsg(peer: string)
    | PongMsg(peer: string)
    | UnknownMsg                                             // printed and dropped
    | BadMsg(fault: Fault)                                   // a known verb with the wrong fields

  /** data.split(' ') and the dispatch on args[0]: tuple unpacking demands
      the exact number of fields (ValueError), args[1] at least one
      (IndexError). */
  function ReadNodeMsg(data: string): (m: NodeMsg)
    ensures m.BadMsg? ==> m.fault == ValueError || m.fault == IndexError
    ensures !m.BadMsg? && !m.UnknownMsg? ==>
              |NodeMsgWords(m)| <= |SplitOn(data, ' ')| && SplitOn(data, ' ')[..|NodeMsgWords(m)|] == NodeMsgWords(m)
  {
    var args := SplitOn(data, ' ');
    var verb := args[0];
    if verb == "FIND" || verb == "FOUND" then
      if |args| != 4 then BadMsg(ValueError)
      else if verb == "FIND" then FindMsg(args[1], args[2], args[3])
      else FoundMsg(args[1], args[2], args[3])
    else if verb == "GETP" || verb == "NOTIFY" || verb == "PRED" || verb == "PING" || verb == "PONG" then
      if |args| < 2 then BadMsg(IndexError)
      else if verb == "GETP" then GetPredMsg(args[1])
      else if verb == "NOTIFY" then NotifyMsg(args[1])
      else if verb == "PRED" then PredMsg(args[1])
      else if verb == "PING" then PingMsg(args[1])
      else PongMsg(args[1])
    else if verb == "SHOW" || verb == "PEER" then
      if |args| != 3 then BadMsg(ValueError)
      else if verb == "SHOW" then ShowMsg(args[1], args[2])
      else PeerMsg(args[1], args[2])
    else UnknownMsg
  }

  /** The words a node sends for a message. */
  function NodeMsgWords(m: NodeMsg): (ws: seq<string>)
    requires !m.BadMsg? && !m.UnknownMsg?
    ensures |ws| >= 2
  {
    match m
    case FindMsg(h, p, t) => ["FIND", h, p, t]
    case FoundMsg(h, p, t) => ["FOUND", h, p, t]
    case GetPredMsg(p) => ["GETP", p]
    case NotifyMsg(p) => ["NOTIFY", p]
    case PredMsg(p) => ["PRED", p]
    case ShowMsg(p, t) => ["SHOW", p, t]
    case PeerMsg(p, t) => ["PEER", p, t]
    case PingMsg(p) => ["PING", p]
    case PongMsg(p) => ["PONG", p]
  }

  /** Every message a node sends reads back as itself, when no field holds
      a space. */
  lemma NodeMsgRoundTrip(m: NodeMsg)
    requires !m.BadMsg? && !m.UnknownMsg?
    requires forall i :: 0 <= i < |NodeMsgWords(m)| ==> ' ' !in NodeMsgWords(m)[i]
    ensures ReadNodeMsg(Join(NodeMsgWords(m), ' ')) == m
  {
    SplitOnJoin(NodeMsgWords(m), ' ');
  }

  /** on_dgram(socket, data). */
  function Dgram(e: Env, st: NodeState, data: string): (NodeState, Outcome)
    requires WellFormed(e.myname, st)
  {
    match ReadNodeMsg(data)
    case FindMsg(hash, peer, transid) => ForwardStep(e, st, hash, peer, transid)
    case FoundMsg(hash, peer, transid) => Found(e, st, hash, peer, transid)
    case GetPredMsg(peer) =>
      if Present(st.prev) then Send(st, Some(peer), ["PRED", st.prev.value]) else (st, Done)
    case NotifyMsg(peer) =>
      var adopt := AdoptsPredecessor(st.prev, e.makeId(e.myname), e.makeId(peer), e.makeId);
      (if adopt then st.(prev := Some(peer)) else st, Done)
    case PredMsg(peer) =>
      // make_id(None) fails
      if st.finger[0].None? then (st, Failed(TypeError))
      else
        var adopt := AdoptsSuccessor(e.makeId(e.myname), e.makeId(peer), e.makeId(st.finger[0].value));
        (if adopt then st.(finger := st.finger[0 := Some(peer)]) else st, Done)
    case ShowMsg(peer, transid) =>
      if peer == e.myname then (st, Done)
      else
        var s1 := Send(st, st.finger[0], ["SHOW", peer, transid]);
        if s1.1.Failed? then s1 else Send(s1.0, Some(peer), ["PEER", e.myname, transid])
    case PeerMsg(peer, transid) =>
      (match ClientOf(st.trans, transid)
       case Err(f) => (st, Failed(f))
       case Ok(c) => (st.(tcp := st.tcp + [Wrote(c, ["CPEER", e.makeId(peer), peer])]), Done))
    case PingMsg(peer) => Send(st, Some(peer), ["PONG", e.myname])
    case PongMsg(peer) => (st.(pingFail := st.pingFail[peer := 0]), Done)
    case UnknownMsg => (st, Done)
    case BadMsg(f) => (st, Failed(f))
  }

  /** Every datagram keeps the invariant, and a malformed or unknown one
      changes nothing. */
  lemma DgramSpec(e: Env, st: NodeState, data: string)
    requires WellFormed(e.myname, st)
    ensures WellFormed(e.myname, Dgram(e, st, data).0)
    ensures ReadNodeMsg(data).BadMsg? || ReadNodeMsg(data).UnknownMsg? ==> Dgram(e, st, data).0 == st
  {
    if ReadNodeMsg(data).FoundMsg? {
      FoundKeeps(e, st, ReadNodeMsg(data).hash, ReadNodeMsg(data).peer, ReadNodeMsg(data).transid);
    }
  }

  // ---------------------------------------------------------------------------
  // Requests on stream sockets

  /** A line from a client or another node, as on_data reads it. */
  datatype Request =
    | ClientGet(hash: string)                     // CGET: a client wants a value
    | ClientPut(encoded: string)                  // CPUT: a client stores a value
    | ClientShow                                  // CSHOW: a client wants the peer list
    | GetReq(hash: string, transid: string)       // GET: the owner is asked for a value
    | DataReply(encoded: string, transid: string) // DATA: the owner's answer
    | ErrorReply(msg: string, transid: string)    // ERROR: the owner has no such value
    | PutReq(encoded: string, transid: string)    // PUT: the owner is asked to store
    | OkReply(hash: string, transid: string)      // OK: the owner has stored
    | RetrReq(low: string, high: string)          // RETR: hand over the items in an arc
    | XferReq(hash: string, encoded: string)      // XFER: one item handed over
    | UnknownReq                                  // printed and dropped
    | BadReq(fault: Fault)                        // a known verb with the wrong fields

  /** data[0:pos].split(' ') and the dispatch on args[0]: CGET and CPUT read
      args[1] (IndexError), the node-to-node verbs unpack exactly two fields
      (ValueError), CSHOW reads nothing more. */
  function ReadRequest(line: string): (q: Request)
    ensures q.BadReq? ==> q.fault == ValueError || q.fault == IndexError
    ensures !q.BadReq? && !q.UnknownReq? ==>
              |RequestWords(q)| <= |SplitOn(line, ' ')| && SplitOn(line, ' ')[..|RequestWords(q)|] == RequestWords(q)
  {
    var args := SplitOn(line, ' ');
    var verb := args[0];
    if verb == "CGET" || verb == "CPUT" then
      if |args| < 2 then BadReq(IndexError)
      else if verb == "CGET" then ClientGet(args[1])
      else ClientPut(args[1])
    else if verb == "CSHOW" then ClientShow
    else if verb in ["GET", "DATA", "ERROR", "PUT", "OK", "RETR", "XFER"] then
      if |args| != 3 then BadReq(ValueError)
      else if verb == "GET" then GetReq(args[1], args[2])
      else if verb == "DATA" then DataReply(args[1], args[2])
      else if verb == "ERROR" then ErrorReply(args[1], args[2])
      else if verb == "PUT" then PutReq(args[1], args[2])
      else if verb == "OK" then OkReply(args[1], args[2])
      else if verb == "RETR" then RetrReq(args[1], args[2])
      else XferReq(args[1], args[2])
    else UnknownReq
  }

  /** The words a node or client writes for a request. */
  function RequestWords(q: Request): (ws: seq<string>)
    requires !q.BadReq? && !q.UnknownReq?
    ensures |ws| >= 1
  {
    match q
    case ClientGet(h) => ["CGET", h]
    case ClientPut(d) => ["CPUT", d]
    case ClientShow => ["CSHOW"]
    case GetReq(h, t) => ["GET", h, t]
    case DataReply(d, t) => ["DATA", d, t]
    case ErrorReply(m, t) => ["ERROR", m, t]
    case PutReq(d, t) => ["PUT", d, t]
    case OkReply(h, t) => ["OK", h, t]
    case RetrReq(l, h) => ["RETR", l, h]
    case XferReq(h, d) => ["XFER", h, d]
  }

  /** Every request reads back as itself, when no field holds a space. */
  lemma RequestRoundTrip(q: Request)
    requires !q.BadReq? && !q.UnknownReq?
    requires forall i :: 0 <= i < |RequestWords(q)| ==> ' ' !in RequestWords(q)[i]
    ensures ReadRequest(Join(RequestWords(q), ' ')) == q
  {
    SplitOnJoin(RequestWords(q), ' ');
  }

  /** Words without newlines, written as one line, make up the first frame
      of the buffer, whose text is their join. */
  lemma WrittenLine(ws: seq<string>, tail: string)
    requires |ws| >= 1 && ws[0] != []
    requires forall i :: 0 <= i < |ws| ==> '\n' !in ws[i]
    ensures var line := Join(ws, ' ');
            var data := line + "\n" + tail;
            LineLength(data) == |line| + 1 >= 2 && data[..LineLength(data) - 1] == line
  {
    var j := Join(ws, ' ');
    JoinNoChar(ws, ' ', '\n');
    var line := j + "\n";
    assert IsFrame(line) by {
      assert line[..|line| - 1] == j;
    }
    FrameLength(line, tail);
    assert line + tail == j + "\n" + tail;
    assert (line + tail)[..|j|] == j;
  }

  /** A request written as one line by socket.write reaches on_data as that
      request, which consumes exactly that line, when no field holds a space
      or a newline. */
  lemma RequestOfLine(q: Request, tail: string)
    requires !q.BadReq? && !q.UnknownReq?
    requires forall i :: 0 <= i < |RequestWords(q)| ==> ' ' !in RequestWords(q)[i] && '\n' !in RequestWords(q)[i]
    ensures var data := Join(RequestWords(q), ' ') + "\n" + tail;
            LineLength(data) == |Join(RequestWords(q), ' ')| + 1 >= 2 && ReadRequest(data[..LineLength(data) - 1]) == q
  {
    assert RequestWords(q)[0] != [];
    WrittenLine(RequestWords(q), tail);
    RequestRoundTrip(q);
  }

  /** The reply to a lookup's client, then closing it, then closing the
      lookup. */
  function Reply(st: NodeState, transid: string, words: seq<string>): (NodeState, Outcome) {
    match ClientOf(st.trans, transid)
    case Err(f) => (st, Failed(f))
    case Ok(c) => (st.(tcp := st.tcp + [Wrote(c, words), ClosingWhenDone(c)], trans := st.trans - {transid}), Done)
  }

  // ---------------------------------------------------------------------------
  // RETR

  /** Whether the RETR loop hands over key k: id_distance(low, k) <
      id_distance(low, high), each failing with a ValueError when its
      arguments differ and one of them does not parse. */
  function Transfers(low: string, high: string, k: string): (r: Result<bool>)
    ensures r.Err? <==> IdDistance(low, k).Err? || IdDistance(low, high).Err?
    ensures r.Err? ==> r.fault == ValueError
    ensures r.Ok? ==> (r.value <==> IdDistance(low, k).value < IdDistance(low, high).value)
  {
    match IdDistance(low, k)
    case Err(f) => Err(f)
    case Ok(a) =>
      match IdDistance(low, high)
      case Err(f) => Err(f)
      case Ok(b) => Ok(a < b)
  }

  /** Between digests the keys handed over are exactly those strictly
      inside the arc from low to high: high itself is kept, although the
      protocol's description gives the range as (low, high]. */
  lemma TransfersArc(low: Digest, high: Digest, k: Digest)
    ensures Transfers(low, high, k) == Ok(InArc(HexValue(low), HexValue(k), HexValue(high)))
  {
    DigestDistanceAgrees(low, k);
    DigestDistanceAgrees(low, high);
    DistanceOrder(low, k, high);
  }

  /** The verdict of the RETR loop on each key. */
  function Keep(low: string, high: string): string -> Result<bool> {
    k => Transfers(low, high, k)
  }

  /** For any strings, the upper bound is never handed over. */
  lemma TransfersExcludesHigh(low: string, high: string)
    ensures Transfers(low, high, high) != Ok(true)
  {
  }

  /** One XFER write per key, with the item base64-encoded. */
  function Xfers(e: Env, items: map<string, string>, sock: SocketId, ks: seq<string>): (w: seq<TcpAction>)
    requires forall k :: k in ks ==> k in items
    ensures |w| == |ks|
    ensures forall i :: 0 <= i < |ks| ==> w[i] == Wrote(sock, ["XFER", ks[i], e.b64encode(items[ks[i]])])
  {
    if ks == [] then []
    else Xfers(e, items, sock, ks[..|ks| - 1]) + [Wrote(sock, ["XFER", ks[|ks| - 1], e.b64encode(items[ks[|ks| - 1]])])]
  }

  /** The keys, in the given order, that are handed over. */
  function Selected(keep: string -> Result<bool>, ks: seq<string>): (r: seq<string>)
    ensures forall k :: k in r <==> k in ks && keep(k) == Ok(true)
  {
    if ks == [] then []
    else
      var init := Selected(keep, ks[..|ks| - 1]);
      var k := ks[|ks| - 1];
      assert ks == ks[..|ks| - 1] + [k];
      if keep(k) == Ok(true) then init + [k] else init
  }

  /** The writes of the RETR loop over the keys in the given order, and how
      the loop ends. */
  function RetrWrites(e: Env, items: map<string, string>, sock: SocketId, keep: string -> Result<bool>,
                      ks: seq<string>): (r: (seq<TcpAction>, Outcome))
    requires forall k :: k in ks ==> k in items
  {
    if ks == [] then ([], Done)
    else
      var w := RetrWrites(e, items, sock, keep, ks[..|ks| - 1]);
      var k := ks[|ks| - 1];
      if w.1.Failed? then w
      else match keep(k)
        case Err(f) => (w.0, Failed(f))
        case Ok(b) => (if b then w.0 + [Wrote(sock, ["XFER", k, e.b64encode(items[k])])] else w.0, Done)
  }

  /** When the loop fails, it is with the fault of some key's verdict. */
  lemma {:induction false} RetrWritesFault(e: Env, items: map<string, string>, sock: SocketId, keep: string -> Result<bool>,
                                           ks: seq<string>)
    requires forall k :: k in ks ==> k in items
    ensures var r := RetrWrites(e, items, sock, keep, ks).1;
            r.Failed? ==> exists i :: 0 <= i < |ks| && keep(ks[i]) == Err(r.fault)
  {
    if ks != [] {
      var init := ks[..|ks| - 1];
      RetrWritesFault(e, items, sock, keep, init);
      var w := RetrWrites(e, items, sock, keep, init).1;
      if w.Failed? {
        var i :| 0 <= i < |init| && keep(init[i]) == Err(w.fault);
        assert ks[i] == init[i];
      }
    }
  }

  /** The loop gets through exactly when every key's comparison does. */
  lemma {:induction false} RetrWritesOutcome(e: Env, items: map<string, string>, sock: SocketId, keep: string -> Result<bool>,
                                             ks: seq<string>)
    requires forall k :: k in ks ==> k in items
    ensures RetrWrites(e, items, sock, keep, ks).1 == Done <==> forall i :: 0 <= i < |ks| ==> keep(ks[i]).Ok?
  {
    if ks != [] {
      var init := ks[..|ks| - 1];
      var k := ks[|ks| - 1];
      RetrWritesOutcome(e, items, sock, keep, init);
      var w := RetrWrites(e, items, sock, keep, init);
      assert forall i :: 0 <= i < |init| ==> ks[i] == init[i];
      if w.1.Failed? {
        var j :| 0 <= j < |init| && !keep(init[j]).Ok?;
        assert !keep(ks[j]).Ok?;
      }
    }
  }

  /** When the loop gets through it has written one XFER for each selected
      key, in order. */
  lemma {:induction false} RetrWritesSelected(e: Env, items: map<string, string>, sock: SocketId, keep: string -> Result<bool>,
                                              ks: seq<string>)
    requires forall k :: k in ks ==> k in items
    requires RetrWrites(e, items, sock, keep, ks).1 == Done
    ensures RetrWrites(e, items, sock, keep, ks).0 == Xfers(e, items, sock, Selected(keep, ks))
  {
    if ks != [] {
      var init := ks[..|ks| - 1];
      var k := ks[|ks| - 1];
      RetrWritesSelected(e, items, sock, keep, init);
      var sel := Selected(keep, init);
      if keep(k) == Ok(true) {
        assert (sel + [k])[..|sel|] == sel;
      }
    }
  }

  /** An enumeration of a set: every member once. */
  predicate Enumerates(ks: seq<string>, keys: set<string>) {
    (forall k :: k in ks ==> k in keys) && (forall k :: k in keys ==> k in ks)
    && forall i, j :: 0 <= i < j < |ks| ==> ks[i] != ks[j]
  }

  /** RETR low high, for the items taken in the order given: the writes,
      then closing the socket once they are sent. */
  function Retr(e: Env, st: NodeState, sock: SocketId, low: string, high: string, ks: seq<string>): (NodeState, Outcome)
    requires forall k :: k in ks ==> k in st.items
  {
    var w := RetrWrites(e, st.items, sock, Keep(low, high), ks);
    if w.1.Failed? then (st.(tcp := st.tcp + w.0), w.1)
    else (st.(tcp := st.tcp + w.0 + [ClosingWhenDone(sock)]), Done)
  }

  /** RETR gets through exactly when every key's distance from low can be
      computed, and otherwise ends with a ValueError; when it gets through
      it writes the selected items, in order, and then closes. */
  lemma RetrOutcome(e: Env, st: NodeState, sock: SocketId, low: string, high: string, ks: seq<string>)
    requires forall k :: k in ks ==> k in st.items
    ensures var (s, r) := Retr(e, st, sock, low, high, ks);
            (r == Done <==> forall i :: 0 <= i < |ks| ==> Transfers(low, high, ks[i]).Ok?)
            && (r.Failed? ==> r.fault == ValueError)
            && (r == Done ==> s.tcp == st.tcp + Xfers(e, st.items, sock, Selected(Keep(low, high), ks)) + [ClosingWhenDone(sock)])
  {
    var keep := Keep(low, high);
    RetrWritesOutcome(e, st.items, sock, keep, ks);
    RetrWritesFault(e, st.items, sock, keep, ks);
    if RetrWrites(e, st.items, sock, keep, ks).1 == Done {
      RetrWritesSelected(e, st.items, sock, keep, ks);
    }
  }

  // ---------------------------------------------------------------------------
  // on_data

  /** The effect of one request from the socket sock. ks is the order in
      which a RETR walks the items. */
  function Handle(e: Env, st: NodeState, sock: SocketId, q: Request, ks: seq<string>): (NodeState, Outcome)
    requires WellFormed(e.myname, st)
    requires q.RetrReq? ==> Enumerates(ks, st.items.Keys)
  {
    match q
    case ClientGet(hash) =>
      var o := Open(e.myname, st, GetFor(sock));
      ForwardStep(e, o.0, hash, e.myname, o.1.id)
    case ClientPut(encoded) =>
      (match e.b64decode(encoded)
       case None => (st, Failed(TypeError))
       case Some(d) =>
         var o := Open(e.myname, st, PutFor(sock, d));
         ForwardStep(e, o.0, e.makeFileId(d), e.myname, o.1.id))
    case ClientShow =>
      var o := Open(e.myname, st, ShowFor(sock));
      var s1 := if o.0.finger[0] != Some(e.myname) then Send(o.0, o.0.finger[0], ["SHOW", e.myname, o.1.id]) else (o.0, Done);
      if s1.1.Failed? then s1
      else (s1.0.(tcp := s1.0.tcp + [Wrote(sock, ["CPEER", e.makeId(e.myname), e.myname])]), Done)
    case GetReq(hash, transid) =>
      var words := if hash in st.items then ["DATA", e.b64encode(st.items[hash]), transid] else ["ERROR", "data.not.found", transid];
      (st.(tcp := st.tcp + [Wrote(sock, words), ClosingWhenDone(sock)]), Done)
    case DataReply(encoded, transid) => Reply(st, transid, ["CDATA", encoded])
    case ErrorReply(msg, transid) => Reply(st, transid, ["CERROR", msg])
    case PutReq(encoded, transid) =>
      (match e.b64decode(encoded)
       case None => (st, Failed(TypeError))
       case Some(d) =>
         var h := e.makeFileId(d);
         (st.(items := st.items[h := d], tcp := st.tcp + [Wrote(sock, ["OK", h, transid]), ClosingWhenDone(sock)]), Done))
    case OkReply(hash, transid) => Reply(st, transid, ["COK", hash])
    case RetrReq(low, high) => Retr(e, st, sock, low, high, ks)
    case XferReq(hash, encoded) =>
      (match e.b64decode(encoded)
       case None => (st, Failed(TypeError))
       case Some(d) => (st.(items := st.items[hash := d]), Done))
    case UnknownReq => (st, Done)
    case BadReq(f) => (st, Failed(f))
  }

  /** on_data(socket, data): nothing until a newline has arrived, nothing
      for a lone newline, otherwise the first line's request. */
  function OnData(e: Env, st: NodeState, sock: SocketId, data: string, ks: seq<string>): (NodeState, Outcome)
    requires WellFormed(e.myname, st)
    requires LineLength(data) >= 2 && ReadRequest(data[..LineLength(data) - 1]).RetrReq? ==> Enumerates(ks, st.items.Keys)
  {
    var n := LineLength(data);
    if n < 2 then (st, Done) else Handle(e, st, sock, ReadRequest(data[..n - 1]), ks)
  }

  /** Every request keeps the invariant; an unknown or malformed one changes
      nothing. */
  lemma HandleKeeps(e: Env, st: NodeState, sock: SocketId, q: Request, ks: seq<string>)
    requires WellFormed(e.myname, st)
    requires q.RetrReq? ==> Enumerates(ks, st.items.Keys)
    ensures WellFormed(e.myname, Handle(e, st, sock, q, ks).0)
    ensures q.UnknownReq? || q.BadReq? ==> Handle(e, st, sock, q, ks).0 == st
  {
    match q {
      case DataReply(_, transid) => CloseSpec(e.myname, st.trans, st.nextTrans, transid);
      case ErrorReply(_, transid) => CloseSpec(e.myname, st.trans, st.nextTrans, transid);
      case OkReply(_, transid) => CloseSpec(e.myname, st.trans, st.nextTrans, transid);
      case ClientGet(_) => OpenSpec(e.myname, st, GetFor(sock));
      case ClientPut(encoded) =>
        if e.b64decode(encoded).Some? {
          OpenSpec(e.myname, st, PutFor(sock, e.b64decode(encoded).value));
        }
      case ClientShow => OpenSpec(e.myname, st, ShowFor(sock));
      case _ =>
    }
  }

  /** A PUT stores the decoded value under its file id, and an XFER under
      the key it names; no other request changes the stored items. */
  lemma HandleItems(e: Env, st: NodeState, sock: SocketId, q: Request, ks: seq<string>)
    requires WellFormed(e.myname, st)
    requires q.RetrReq? ==> Enumerates(ks, st.items.Keys)
    ensures var (s, r) := Handle(e, st, sock, q, ks);
            (q.PutReq? && r == Done ==>
               var d := e.b64decode(q.encoded).value; s.items == st.items[e.makeFileId(d) := d])
            && (q.XferReq? && r == Done ==> s.items == st.items[q.hash := e.b64decode(q.encoded).value])
            && (!q.PutReq? && !q.XferReq? ==> s.items == st.items)
  {
  }

  // ---------------------------------------------------------------------------
  // Timers

  /** A finger slot after the pruning pass: emptied when its peer is dead. */
  function Pruned(x: Option<string>, pingFail: map<string, int>): Option<string> {
    if Dead(x, pingFail) then None else x
  }

  /** The first half of ping_timer_cb: a dead predecessor is forgotten, a
      dead successor is replaced by succsucc, and every other dead finger
      slot is emptied. */
  function PruneDead(st: NodeState): (r: NodeState)
    requires |st.finger| >= 1
  {
    var f0 := Dead(st.finger[0], st.pingFail);
    st.(prev := Pruned(st.prev, st.pingFail),
        finger := [if f0 then st.succsucc else st.finger[0]]
                  + seq(|st.finger| - 1, i requires 0 <= i < |st.finger| - 1 => Pruned(st.finger[i + 1], st.pingFail)),
        succsucc := if f0 then None else st.succsucc)
  }

  /** The finger table the pruning loop builds slot by slot is the pruned one. */
  lemma PruneDeadSlots(st: NodeState, f: seq<Option<string>>)
    requires |f| == |st.finger| >= 1
    requires f[0] == PruneDead(st).finger[0]
    requires forall j :: 1 <= j < |f| ==> f[j] == Pruned(st.finger[j], st.pingFail)
    ensures f == PruneDead(st).finger
  {
    var r := PruneDead(st).finger;
    forall j | 1 <= j < |f|
      ensures f[j] == r[j]
    {
      assert r[j] == r[1..][j - 1];
    }
  }

  /** After pruning no slot but the successor's holds a dead peer (succsucc
      is not checked), the predecessor is not dead, live slots are kept,
      and a dead successor is replaced by succsucc. */
  lemma PruneDeadSpec(st: NodeState)
    requires |st.finger| >= 1
    ensures var r := PruneDead(st);
            |r.finger| == |st.finger| && r.pingFail == st.pingFail
            && r.prev == Pruned(st.prev, st.pingFail) && !Dead(r.prev, st.pingFail)
            && (Dead(st.finger[0], st.pingFail) ==> r.finger[0] == st.succsucc && r.succsucc == None)
            && (!Dead(st.finger[0], st.pingFail) ==> r.finger[0] == st.finger[0] && r.succsucc == st.succsucc)
            && (forall i :: 1 <= i < |r.finger| ==> !Dead(r.finger[i], st.pingFail))
            && (forall i :: 0 <= i < |r.finger| && !Dead(st.finger[i], st.pingFail) ==> r.finger[i] == st.finger[i])
            && (forall i :: 1 <= i < |r.finger| ==> r.finger[i] == Pruned(st.finger[i], st.pingFail))
  {
    var r := PruneDead(st);
    forall i | 1 <= i < |r.finger|
      ensures r.finger[i] == Pruned(st.finger[i], st.pingFail)
    {
      assert r.finger[i] == r.finger[1..][i - 1];
    }
  }

  /** The second half: one PING per distinct peer in the finger table and
      the predecessor, and counters for exactly those peers. */
  function Heartbeat(e: Env, st: NodeState): (NodeState, Outcome) {
    var names := FirstSeen(st.finger + [st.prev]);
    var p := Pings(names, PingTo(e.myname));
    if p.0 then (st.(pingFail := Recount(st.pingFail, names), packets := st.packets + p.1), Done)
    else (st.(packets := st.packets + p.1), Failed(ValueError))
  }

  /** ping_timer_cb, without the rescheduling. */
  function PingTimer(e: Env, st: NodeState): (NodeState, Outcome)
    requires |st.finger| >= 1
  {
    Heartbeat(e, PruneDead(st))
  }

  /** A heartbeat gets through exactly when every peer named in the finger
      table or as predecessor has an address that parses; otherwise it
      fails with a ValueError and leaves the counters as they were. */
  lemma HeartbeatOutcome(e: Env, st: NodeState)
    ensures var (s, r) := Heartbeat(e, st);
            var names := FirstSeen(st.finger + [st.prev]);
            (r == Done <==> forall i :: 0 <= i < |names| ==> PingTo(e.myname)(names[i]).Ok?)
            && (r.Failed? ==> r.fault == ValueError && s.pingFail == st.pingFail)
  {
    var names := FirstSeen(st.finger + [st.prev]);
    var ping := PingTo(e.myname);
    FirstSeenSpec(st.finger + [st.prev]);
    forall i | 0 <= i < |names|
      ensures ping(names[i]) != Ok(None)
    {
      assert names[i] in names;
      PingAddressed(e.myname, names[i]);
    }
    PingsSpec(names, ping);
  }

  /** After a heartbeat that gets through, the counters are kept for
      exactly the peers named in the finger table or as predecessor, each
      one more than before (0 when unknown). */
  lemma HeartbeatCounters(e: Env, st: NodeState)
    ensures var (s, r) := Heartbeat(e, st);
            r == Done ==>
              (forall v :: v in s.pingFail <==> v != "" && Some(v) in st.finger + [st.prev])
              && (forall v :: v in s.pingFail ==> s.pingFail[v] == Get(st.pingFail, v) + 1)
  {
    var names := FirstSeen(st.finger + [st.prev]);
    FirstSeenSpec(st.finger + [st.prev]);
    forall v | true
      ensures v in Recount(st.pingFail, names) <==> v in names
      ensures v in names ==> Recount(st.pingFail, names)[v] == Get(st.pingFail, v) + 1
    {
      RecountAt(st.pingFail, names, v);
    }
  }

  /** After a heartbeat that gets through, each of those peers has been
      sent exactly one PING, in order of first appearance, and nothing else
      has been sent. */
  lemma HeartbeatPackets(e: Env, st: NodeState)
    ensures var (s, r) := Heartbeat(e, st);
            var names := FirstSeen(st.finger + [st.prev]);
            r == Done ==>
              |s.packets| == |st.packets| + |names|
              && s.packets[..|st.packets|] == st.packets
              && forall i :: 0 <= i < |names| ==>
                   Datagram(Some(names[i]), ["PING", e.myname]) == Ok(Some(s.packets[|st.packets| + i]))
  {
    var names := FirstSeen(st.finger + [st.prev]);
    var ping := PingTo(e.myname);
    FirstSeenSpec(st.finger + [st.prev]);
    forall i | 0 <= i < |names|
      ensures ping(names[i]) != Ok(None)
    {
      assert names[i] in names;
      PingAddressed(e.myname, names[i]);
    }
    PingsSpec(names, ping);
  }

  /** The id backup_timer_cb looks up: add_to_id, as written, applied to
      the successor's id and 1. */
  function BackupKey(e: Env, st: NodeState): string
    requires |st.finger| >= 1 && Present(st.finger[0])
  {
    AddToIdAsWritten(e.makeId(st.finger[0].value), 1)
  }

  /** backup_timer_cb, without the rescheduling: an empty successor slot
      takes succsucc; with neither the process exits; then a lookup for the
      id just after the successor's refreshes succsucc. */
  function BackupTimer(e: Env, st: NodeState): (NodeState, Outcome)
    requires WellFormed(e.myname, st)
  {
    if !Present(st.finger[0]) && !Present(st.succsucc) then (st, Failed(Exit(1)))
    else
      var s1 := if !Present(st.finger[0]) then st.(finger := st.finger[0 := st.succsucc], succsucc := None) else st;
      var o := Open(e.myname, s1, Backup);
      ForwardStep(e, o.0, BackupKey(e, s1), e.myname, o.1.id)
  }

  /** The backup timer exits exactly when both the successor and succsucc
      are missing; otherwise the node has a successor, and the lookup it
      starts is for the id one step clockwise from the successor's, except
      when the successor sits at the top of the ring: there add_to_id
      yields a 41-digit string that is no id, though every id_distance to
      it is the distance to the intended zero id, so it is routed alike. */
  lemma BackupTimerSpec(e: Env, st: NodeState)
    requires WellFormed(e.myname, st)
    ensures var (s, r) := BackupTimer(e, st);
            (r == Failed(Exit(1)) <==> !Present(st.finger[0]) && !Present(st.succsucc))
            && (r != Failed(Exit(1)) ==>
                  Present(s.finger[0]) && WellFormed(e.myname, s)
                  && var succ := e.makeId(s.finger[0].value);
                     (HexValue(succ) < IdSpace - 1 ==>
                        BackupKey(e, s) == AddToId(succ, 1) && DigestDistance(succ, AddToId(succ, 1)) == 1)
                     && (HexValue(succ) == IdSpace - 1 ==>
                           !IsDigest(BackupKey(e, s))
                           && forall a: Digest :: IdDistance(a, BackupKey(e, s)) == Ok(DigestDistance(a, AddToId(succ, 1)))))
  {
    BackupTimerState(e, st);
    if Present(st.finger[0]) || Present(st.succsucc) {
      BackupKeySpec(e, BackupTimer(e, st).0);
    }
  }

  /** When the backup timer does not exit, it leaves a well-formed state
      whose successor is present. */
  lemma BackupTimerState(e: Env, st: NodeState)
    requires WellFormed(e.myname, st)
    ensures var (s, r) := BackupTimer(e, st);
            (r == Failed(Exit(1)) <==> !Present(st.finger[0]) && !Present(st.succsucc))
            && (r != Failed(Exit(1)) ==> |s.finger| >= 1 && Present(s.finger[0]) && WellFormed(e.myname, s))
  {
    if Present(st.finger[0]) || Present(st.succsucc) {
      var s1 := if !Present(st.finger[0]) then st.(finger := st.finger[0 := st.succsucc], succsucc := None) else st;
      var o := Open(e.myname, s1, Backup);
      OpenSpec(e.myname, s1, Backup);
      assert o.0.finger == s1.finger;
      ForwardStepSends(e, o.0, BackupKey(e, s1), e.myname, o.1.id);
      assert BackupTimer(e, st).0.finger == s1.finger;
    }
  }

  /** The backup key below and at the top of the ring. */
  lemma BackupKeySpec(e: Env, st: NodeState)
    requires |st.finger| >= 1 && Present(st.finger[0])
    ensures var succ := e.makeId(st.finger[0].value);
            (HexValue(succ) < IdSpace - 1 ==>
               BackupKey(e, st) == AddToId(succ, 1) && DigestDistance(succ, AddToId(succ, 1)) == 1)
            && (HexValue(succ) == IdSpace - 1 ==>
                  !IsDigest(BackupKey(e, st))
                  && forall a: Digest :: IdDistance(a, BackupKey(e, st)) == Ok(DigestDistance(a, AddToId(succ, 1))))
  {
    var succ := e.makeId(st.finger[0].value);
    AddToIdDistance(succ, 1);
    if HexValue(succ) < IdSpace - 1 {
      AddToIdAgrees(succ, 1);
    } else if HexValue(succ) == IdSpace - 1 {
      AddToIdWraps(succ, 1);
      forall a: Digest
        ensures IdDistance(a, BackupKey(e, st)) == Ok(DigestDistance(a, AddToId(succ, 1)))
      {
        AddToIdTopRoutesLikeZero(a, succ);
      }
    }
  }

  // ---------------------------------------------------------------------------
  // Connections and start-up

  /** The lookups started for the client on sock. */
  function ClientTrans(trans: map<string, Trans>, sock: SocketId): set<string> {
    set id | id in trans && IsClientKind(trans[id].kind) && trans[id].kind.client == sock
  }

  /** on_error(socket): the socket is forgotten; a lookup still open for it
      makes the purge use the unbound name t. */
  function ConnectionLost(st: NodeState, sock: SocketId): (NodeState, Outcome) {
    (st.(sockets := st.sockets - {sock}), if ClientTrans(st.trans, sock) != {} then Failed(NameError) else Done)
  }

  /** start(options), from the boot peer on: with a boot peer the node asks
      it who its successor is; without one it forms a ring of its own. */
  function Start(e: Env, st: NodeState, boot: Option<string>): (NodeState, Outcome)
    requires |st.finger| >= 1
  {
    if boot.None? then (st.(finger := st.finger[0 := Some(e.myname)], prev := Some(e.myname)), Done)
    else
      var o := Open(e.myname, st, Finger(0));
      Send(o.0, boot, ["FIND", e.makeId(e.myname), e.myname, o.1.id])
  }

  /** A node alone on its ring answers every lookup for a digest itself: no finger other
      than the successor slot holds a peer, and that slot names the node,
      whose distance to any hash is never below the whole turn it has to
      itself. */
  lemma AloneOwnsEverything(e: Env, hash: Digest)
    ensures var s := Start(e, Initial(), None).0;
            Forward(s.finger, |s.finger|, e.makeId(e.myname), IdDistance(e.makeId(e.myname), hash), e.makeId) == Ok(None)
  {
    var s := Start(e, Initial(), None).0;
    var myId := e.makeId(e.myname);
    var dh := IdDistance(myId, hash);
    DigestDistanceAgrees(myId, hash);
    ForwardSpec(s.finger, |s.finger|, myId, dh, e.makeId);
    assert s.finger[0] == Some(e.myname);
    assert DigestDistance(myId, myId) == IdSpace;
    assert !Closer(s.finger, 0, myId, dh, e.makeId);
    assert forall j :: 1 <= j < |s.finger| ==> s.finger[j] == Initial().finger[j] && !Present(s.finger[j]);
    assert forall j :: 0 <= j < |s.finger| ==> !Closer(s.finger, j, myId, dh, e.makeId);
    var r := Forward(s.finger, |s.finger|, myId, dh, e.makeId);
    assert r.Ok?;
    assert r.value.None?;
  }

  /** ... and a key that is not hex at all raises ValueError there: the
      successor slot holds the node itself, so the loop reaches the failing
      id_distance. Only an empty name, which the loop skips as a missing
      peer, leaves it unasked. */
  lemma AloneRejectsNonHex(e: Env, hash: string)
    requires ParseHex(hash).None?
    ensures var s := Start(e, Initial(), None).0;
            Forward(s.finger, |s.finger|, e.makeId(e.myname), IdDistance(e.makeId(e.myname), hash), e.makeId)
              == if e.myname == "" then Ok(None) else Err(ValueError)
  {
    var s := Start(e, Initial(), None).0;
    var myId := e.makeId(e.myname);
    var dh := IdDistance(myId, hash);
    assert myId != hash by {
      ParseHexDigits(myId);
    }
    assert dh.Err?;
    ForwardSpec(s.finger, |s.finger|, myId, dh, e.makeId);
    assert s.finger[0] == Some(e.myname);
    assert forall j :: 1 <= j < |s.finger| ==> s.finger[j] == Initial().finger[j] && !Present(s.finger[j]);
  }

  // ---------------------------------------------------------------------------
  // Helpers for the node object

  /** An order in which a loop over a set may visit its members. */
  ghost function SomeOrder(keys: set<string>): (ks: seq<string>)
    ensures Enumerates(ks, keys)
    decreases |keys|
  {
    if keys == {} then []
    else
      var k :| k in keys;
      [k] + SomeOrder(keys - {k})
  }

  /** Once the RETR loop has failed, the keys after it change nothing. */
  lemma RetrWritesFailed(e: Env, items: map<string, string>, sock: SocketId, keep: string -> Result<bool>,
                         ks: seq<string>, k: string)
    requires forall k :: k in ks ==> k in items
    requires k in items
    requires RetrWrites(e, items, sock, keep, ks).1.Failed?
    ensures forall k' :: k' in ks + [k] ==> k' in items
    ensures RetrWrites(e, items, sock, keep, ks + [k]) == RetrWrites(e, items, sock, keep, ks)
  {
    assert (ks + [k])[..|ks|] == ks;
  }

  lemma {:induction false} RetrWritesStop(e: Env, items: map<string, string>, sock: SocketId, keep: string -> Result<bool>,
                                          ks: seq<string>, more: seq<string>)
    requires forall k :: k in ks ==> k in items
    requires forall k :: k in more ==> k in items
    requires RetrWrites(e, items, sock, keep, ks).1.Failed?
    ensures forall k :: k in ks + more ==> k in items
    ensures RetrWrites(e, items, sock, keep, ks + more) == RetrWrites(e, items, sock, keep, ks)
  {
    if more != [] {
      var init := more[..|more| - 1];
      assert ks + more == (ks + init) + [more[|more| - 1]];
      RetrWritesStop(e, items, sock, keep, ks, init);
      RetrWritesFailed(e, items, sock, keep, ks + init, more[|more| - 1]);
    } else {
      assert ks + more == ks;
    }
  }

  /** One more peer: its ping is queued after the others, unless an
      earlier one or this one has failed. */
  lemma PingsSnoc(names: seq<string>, v: string, send: string -> Result<Option<Packet>>)
    ensures Pings(names + [v], send)
            == if !Pings(names, send).0 || send(v).Err? then (false, Pings(names, send).1)
               else (true, Pings(names, send).1 + Queued(send(v)))
  {
    assert (names + [v])[..|names|] == names;
  }

  /** The heartbeat loop of ping_timer_cb over the slots xs, as it runs:
      the counters it builds, the pings it has queued and whether every
      send so far has got through; it stops at the first send that fails. */
  function PingSlots(pingFail: map<string, int>, xs: seq<Option<string>>, send: string -> Result<Option<Packet>>)
    : (map<string, int>, seq<Packet>, bool)
  {
    if xs == [] then (map[], [], true)
    else PingSlot(pingFail, PingSlots(pingFail, xs[..|xs| - 1], send), xs[|xs| - 1], send)
  }

  /** One slot of the heartbeat loop: an empty slot or a peer already
      pinged is skipped, and so is everything after a failed send. */
  function PingSlot(pingFail: map<string, int>, w: (map<string, int>, seq<Packet>, bool), x: Option<string>,
                    send: string -> Result<Option<Packet>>): (map<string, int>, seq<Packet>, bool)
  {
    if !w.2 || !Present(x) || x.value in w.0 then w
    else if send(x.value).Err? then (w.0, w.1, false)
    else (w.0[x.value := Get(pingFail, x.value) + 1], w.1 + Queued(send(x.value)), true)
  }

  /** The loop does what the heartbeat describes: it pings the peers first
      seen in the slots, in that order, and gets through exactly when
      pinging all of them does. */
  lemma {:induction false} PingSlotsAgree(pingFail: map<string, int>, xs: seq<Option<string>>,
                                          send: string -> Result<Option<Packet>>)
    ensures (PingSlots(pingFail, xs, send).2, PingSlots(pingFail, xs, send).1) == Pings(FirstSeen(xs), send)
  {
    if xs != [] {
      var init := xs[..|xs| - 1];
      var x := xs[|xs| - 1];
      PingSlotsAgree(pingFail, init, send);
      PingSlotsCounts(pingFail, init, send);
      var w := PingSlots(pingFail, init, send);
      var names := FirstSeen(init);
      assert PingSlots(pingFail, xs, send) == PingSlot(pingFail, w, x, send);
      if Present(x) && x.value !in names {
        var v := x.value;
        assert FirstSeen(xs) == names + [v];
        PingsSnoc(names, v, send);
        if w.2 {
          RecountAt(pingFail, names, v);
        }
      } else {
        assert FirstSeen(xs) == names;
        if w.2 && Present(x) {
          RecountAt(pingFail, names, x.value);
        }
      }
    }
  }

  /** When the loop gets through, it holds the new counters of the peers
      first seen in the slots. */
  lemma {:induction false} PingSlotsCounts(pingFail: map<string, int>, xs: seq<Option<string>>,
                                           send: string -> Result<Option<Packet>>)
    ensures PingSlots(pingFail, xs, send).2 ==> PingSlots(pingFail, xs, send).0 == Recount(pingFail, FirstSeen(xs))
  {
    if xs != [] {
      var init := xs[..|xs| - 1];
      var x := xs[|xs| - 1];
      PingSlotsCounts(pingFail, init, send);
      var w := PingSlots(pingFail, init, send);
      var names := FirstSeen(init);
      assert PingSlots(pingFail, xs, send) == PingSlot(pingFail, w, x, send);
      if w.2 && Present(x) {
        RecountAt(pingFail, names, x.value);
        if x.value !in names {
          var v := x.value;
          assert FirstSeen(xs) == names + [v];
          assert (names + [v])[..|names|] == names;
          assert Recount(pingFail, names + [v]) == Recount(pingFail, names)[v := Get(pingFail, v) + 1];
        } else {
          assert FirstSeen(xs) == names;
        }
      } else if w.2 {
        assert FirstSeen(xs) == names;
      }
    }
  }

  /** The slots of one more peer, seen from the index of the loop. */
  lemma PingSlotsNext(pingFail: map<string, int>, xs: seq<Option<string>>, i: nat,
                      send: string -> Result<Option<Packet>>)
    requires i < |xs|
    ensures PingSlots(pingFail, xs[..i + 1], send) == PingSlot(pingFail, PingSlots(pingFail, xs[..i], send), xs[i], send)
  {
    assert xs[..i + 1][..i] == xs[..i];
  }

  /** The heartbeat, read off the slots of the finger table and the
      predecessor. */
  lemma HeartbeatBySlots(e: Env, st: NodeState)
    ensures var w := PingSlots(st.pingFail, st.finger + [st.prev], PingTo(e.myname));
            Heartbeat(e, st) ==
              if w.2 then (st.(pingFail := w.0, packets := st.packets + w.1), Done)
              else (st.(packets := st.packets + w.1), Failed(ValueError))
  {
    PingSlotsAgree(st.pingFail, st.finger + [st.prev], PingTo(e.myname));
    PingSlotsCounts(st.pingFail, st.finger + [st.prev], PingTo(e.myname));
  }

  /** Once a send has failed, the remaining slots change nothing. */
  lemma {:induction false} PingSlotsStop(pingFail: map<string, int>, xs: seq<Option<string>>, j: nat,
                                         send: string -> Result<Option<Packet>>)
    requires j <= |xs|
    requires !PingSlots(pingFail, xs[..j], send).2
    ensures PingSlots(pingFail, xs, send) == PingSlots(pingFail, xs[..j], send)
    decreases |xs| - j
  {
    if j < |xs| {
      var init := xs[..|xs| - 1];
      assert init[..j] == xs[..j];
      PingSlotsStop(pingFail, init, j, send);
    } else {
      assert xs[..j] == xs;
    }
  }

  /** One more key for the RETR loop, which has got through so far. */
  lemma RetrWritesSnoc(e: Env, items: map<string, string>, sock: SocketId, keep: string -> Result<bool>,
                       ks: seq<string>, k: string)
    requires forall k :: k in ks ==> k in items
    requires k in items
    requires RetrWrites(e, items, sock, keep, ks).1 == Done
    ensures forall k' :: k' in ks + [k] ==> k' in items
    ensures RetrWrites(e, items, sock, keep, ks + [k])
            == match keep(k)
               case Err(f) => (RetrWrites(e, items, sock, keep, ks).0, Failed(f))
               case Ok(b) => (if b then RetrWrites(e, items, sock, keep, ks).0 + [Wrote(sock, ["XFER", k, e.b64encode(items[k])])]
                              else RetrWrites(e, items, sock, keep, ks).0, Done)
  {
    assert (ks + [k])[..|ks|] == ks;
  }

  /** A RETR loop stopped by a failed comparison: taking the keys it has not
      reached after those it has gives the same writes and outcome. */
  lemma RetrStopped(e: Env, items: map<string, string>, sock: SocketId, keep: string -> Result<bool>,
                    ks: seq<string>, done: set<string>, todo: set<string>) returns (all: seq<string>)
    requires Enumerates(ks, done) && done !! todo && done + todo == items.Keys
    requires forall k :: k in ks ==> k in items
    requires RetrWrites(e, items, sock, keep, ks).1.Failed?
    ensures Enumerates(all, items.Keys)
    ensures forall k :: k in all ==> k in items
    ensures RetrWrites(e, items, sock, keep, all) == RetrWrites(e, items, sock, keep, ks)
  {
    var rest := SomeOrder(todo);
    EnumeratesConcat(ks, done, rest, todo);
    RetrWritesStop(e, items, sock, keep, ks, rest);
    all := ks + rest;
  }

  /** Taking one more key k out of those left. */
  lemma EnumeratesTake(ks: seq<string>, done: set<string>, left: set<string>, keys: set<string>, k: string)
    requires Enumerates(ks, done) && done !! left && done + left == keys && k in left
    ensures Enumerates(ks + [k], done + {k})
    ensures (done + {k}) !! (left - {k}) && (done + {k}) + (left - {k}) == keys
    ensures |left - {k}| < |left|
  {
    EnumeratesConcat(ks, done, [k], {k});
    assert left == (left - {k}) + {k};
  }

  /** Enumerations of two disjoint sets, one after the other. */
  lemma EnumeratesConcat(a: seq<string>, sa: set<string>, b: seq<string>, sb: set<string>)
    requires Enumerates(a, sa) && Enumerates(b, sb) && sa !! sb
    ensures Enumerates(a + b, sa + sb)
  {
    forall i, j | 0 <= i < j < |a + b|
      ensures (a + b)[i] != (a + b)[j]
    {
      if j < |a| {
      } else if i >= |a| {
        assert (a + b)[i] == b[i - |a|];
      } else {
        assert (a + b)[i] == a[i] && (a + b)[j] == b[j - |a|];
        assert a[i] in sa && b[j - |a|] in sb;
      }
    }
  }
}
