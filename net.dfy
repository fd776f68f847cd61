/** The event and buffer layer (mynet.py): a registry of enabled read and
    write events keyed by (descriptor, kind), a list of timers kept in
    timeout order, a stream socket with a read buffer that is handed to the
    client line by line and a write buffer that drains by partial sends,
    and a datagram socket with a first-in first-out send queue.

    The clock is an integer passed in by the caller; what the kernel
    accepts or delivers is a parameter of the callback that reacts to it. */
module Net {
  import opened Outcomes
  import opened Strings
  import opened Framing

  // ---------------------------------------------------------------------------
  // Events

  /** Event.READ and Event.WRITE. */
  datatype EvType = Read | Write

  type EvKey = (int, EvType)

  /** An event a socket can wait for. Its callback is the socket method
      that reacts to it, so it is not stored here. */
  class Event {
    const fd: int
    const ev: EvType
    const loop: Events

    constructor(fd: int, ev: EvType, loop: Events)
      ensures this.fd == fd && this.ev == ev && this.loop == loop
    {
      this.fd := fd;
      this.ev := ev;
      this.loop := loop;
    }

    function Key(): EvKey {
      (fd, ev)
    }

    /** enable: registers this event unless its key is already taken. */
    method Enable()
      modifies loop
      ensures loop.active == Enabled(old(loop.active), this)
      ensures loop.timers == old(loop.timers)
    {
      if Key() !in loop.active {
        loop.active := loop.active[Key() := this];
      }
    }

    /** disable: drops whatever event is registered under this key. */
    method Disable()
      modifies loop
      ensures loop.active == Disabled(old(loop.active), Key())
      ensures loop.timers == old(loop.timers)
    {
      if Key() in loop.active {
        loop.active := loop.active - {Key()};
      }
    }
  }

  /** The registry after enable: the key is present, the event first
      registered under it stays, and no other key changes. */
  function Enabled(active: map<EvKey, Event>, e: Event): (r: map<EvKey, Event>)
    ensures e.Key() in r
    ensures r[e.Key()] == if e.Key() in active then active[e.Key()] else e
    ensures forall k :: k != e.Key() ==> (k in r <==> k in active)
    ensures forall k :: k != e.Key() && k in active ==> r[k] == active[k]
  {
    if e.Key() in active then active else active[e.Key() := e]
  }

  /** The registry after disable: the key is absent and no other key
      changes. */
  function Disabled(active: map<EvKey, Event>, k: EvKey): (r: map<EvKey, Event>)
    ensures k !in r
    ensures forall j :: j != k ==> (j in r <==> j in active)
    ensures forall j :: j != k && j in active ==> r[j] == active[j]
  {
    if k in active then active - {k} else active
  }

  /** Enabling twice, with any event of the same key, is enabling once;
      disabling twice is disabling once. */
  lemma EnableDisableIdempotent(active: map<EvKey, Event>, e: Event, f: Event)
    requires e.Key() == f.Key()
    ensures Enabled(Enabled(active, e), f) == Enabled(active, e)
    ensures Disabled(Disabled(active, e.Key()), e.Key()) == Disabled(active, e.Key())
  {
  }

  /** Disabling undoes enabling on a key that was free. */
  lemma DisableUndoesEnable(active: map<EvKey, Event>, e: Event)
    requires e.Key() !in active
    ensures Disabled(Enabled(active, e), e.Key()) == active
  {
    var r := Disabled(Enabled(active, e), e.Key());
    assert forall k :: k in r <==> k in active;
  }

  // ---------------------------------------------------------------------------
  // Timers

  /** A timer; its deadline is fixed when it is made. The callback is left
      to the code that drains the list. */
  class Timer {
    const timeout: int
    const loop: Events

    /** Timer(t, callback): due t seconds after now. */
    constructor(t: int, now: int, loop: Events)
      ensures timeout == t + now && this.loop == loop
    {
      timeout := t + now;
      this.loop := loop;
    }

    /** add: appends the timer unless it is already listed, then sorts. */
    method Add()
      modifies loop
      ensures loop.timers == WithTimer(old(loop.timers), this)
      ensures loop.active == old(loop.active)
      ensures old(loop.Valid()) ==> loop.Valid()
    {
      if multiset(loop.timers)[this] == 0 {
        loop.timers := loop.timers + [this];
      }
      loop.timers := SortByTime(loop.timers);
      WithTimerSpec(old(loop.timers), this);
    }

    /** remove: deletes every occurrence of the timer, then sorts. */
    method Remove()
      modifies loop
      ensures loop.timers == WithoutTimer(old(loop.timers), this)
      ensures loop.active == old(loop.active)
      ensures old(loop.Valid()) ==> loop.Valid()
    {
      var ts: seq<Timer> := loop.timers;
      while multiset(ts)[this] > 0
        invariant Erase(ts, this) == Erase(loop.timers, this)
        decreases multiset(ts)[this]
      {
        ts := RemoveTimer(ts, this);
      }
      EraseAbsent(ts, this);
      loop.timers := SortByTime(ts);
      WithoutTimerSpec(old(loop.timers), this);
    }
  }

  /** Ascending by timeout (ties in any order). */
  predicate TimeSorted(s: seq<Timer>) {
    forall i, j :: 0 <= i < j < |s| ==> s[i].timeout <= s[j].timeout
  }

  /** No timer listed twice. */
  predicate NoDup(s: seq<Timer>) {
    forall t :: t in multiset(s) ==> multiset(s)[t] == 1
  }

  /** Inserts t after every timer due no later than it, keeping the order
      of equal deadlines (list.sort is stable). */
  function InsertByTime(s: seq<Timer>, t: Timer): (r: seq<Timer>)
    ensures |r| == |s| + 1
  {
    if s == [] || s[|s| - 1].timeout <= t.timeout then s + [t]
    else InsertByTime(s[..|s| - 1], t) + [s[|s| - 1]]
  }

  /** sort_timers: a stable insertion sort by timeout. */
  function SortByTime(s: seq<Timer>): (r: seq<Timer>)
    ensures |r| == |s|
  {
    if s == [] then []
    else InsertByTime(SortByTime(s[..|s| - 1]), s[|s| - 1])
  }

  /** Inserting adds the timer and loses nothing. */
  lemma {:induction false} InsertByTimePerm(s: seq<Timer>, t: Timer)
    ensures multiset(InsertByTime(s, t)) == multiset(s) + multiset{t}
  {
    if s != [] && s[|s| - 1].timeout > t.timeout {
      var p, last := s[..|s| - 1], s[|s| - 1];
      InsertByTimePerm(p, t);
      assert s == p + [last];
    }
  }

  /** The sort is a permutation. */
  lemma {:induction false} SortByTimePerm(s: seq<Timer>)
    ensures multiset(SortByTime(s)) == multiset(s)
  {
    if s != [] {
      var p, last := s[..|s| - 1], s[|s| - 1];
      SortByTimePerm(p);
      InsertByTimePerm(SortByTime(p), last);
      assert s == p + [last];
    }
  }

  lemma {:induction false} InsertByTimeSorted(s: seq<Timer>, t: Timer)
    requires TimeSorted(s)
    ensures TimeSorted(InsertByTime(s, t))
  {
    if s != [] && s[|s| - 1].timeout > t.timeout {
      var p, last := s[..|s| - 1], s[|s| - 1];
      assert TimeSorted(p);
      InsertByTimeSorted(p, t);
      var q := InsertByTime(p, t);
      InsertByTimeBound(p, t, last.timeout);
      var r := q + [last];
      forall i, j | 0 <= i < j < |r|
        ensures r[i].timeout <= r[j].timeout
      {
        if j == |r| - 1 {
          assert r[i] == q[i];
        } else {
          assert r[i] == q[i] && r[j] == q[j];
        }
      }
    }
  }

  /** A deadline that no timer in the list and not the new one passes
      bounds the whole result. */
  lemma {:induction false} InsertByTimeBound(s: seq<Timer>, t: Timer, b: int)
    requires forall i :: 0 <= i < |s| ==> s[i].timeout <= b
    requires t.timeout <= b
    ensures forall i :: 0 <= i < |InsertByTime(s, t)| ==> InsertByTime(s, t)[i].timeout <= b
  {
    if s != [] && s[|s| - 1].timeout > t.timeout {
      var p := s[..|s| - 1];
      InsertByTimeBound(p, t, b);
    }
  }

  lemma {:induction false} SortByTimeSorted(s: seq<Timer>)
    ensures TimeSorted(SortByTime(s))
  {
    if s != [] {
      SortByTimeSorted(s[..|s| - 1]);
      InsertByTimeSorted(SortByTime(s[..|s| - 1]), s[|s| - 1]);
    }
  }

  /** Sorting a list that is already in order changes nothing. */
  lemma {:induction false} SortByTimeOfSorted(s: seq<Timer>)
    requires TimeSorted(s)
    ensures SortByTime(s) == s
  {
    if s != [] {
      var p, last := s[..|s| - 1], s[|s| - 1];
      assert SortByTime(p) == p by { assert TimeSorted(p); SortByTimeOfSorted(p); }
      assert InsertByTime(p, last) == s by { InsertByTimeAppends(p, last); assert s == p + [last]; }
      SortByTimeStep(s);
    }
  }

  lemma SortByTimeStep(s: seq<Timer>)
    requires s != []
    ensures SortByTime(s) == InsertByTime(SortByTime(s[..|s| - 1]), s[|s| - 1])
  {
  }

  /** A timer due no earlier than the last one goes at the end. */
  lemma InsertByTimeAppends(s: seq<Timer>, t: Timer)
    requires s == [] || s[|s| - 1].timeout <= t.timeout
    ensures InsertByTime(s, t) == s + [t]
  {
  }

  /** list.remove(t): drops the first occurrence. */
  function RemoveTimer(s: seq<Timer>, t: Timer): (r: seq<Timer>)
    requires t in s
    ensures multiset(r) == multiset(s) - multiset{t}
    ensures Erase(r, t) == Erase(s, t)
  {
    if s[0] == t then
      assert s == [s[0]] + s[1..];
      s[1..]
    else
      assert s == [s[0]] + s[1..];
      [s[0]] + RemoveTimer(s[1..], t)
  }

  /** The list with every occurrence of t dropped. */
  function Erase(s: seq<Timer>, t: Timer): (r: seq<Timer>)
    ensures multiset(r) == multiset(s)[t := 0]
  {
    if s == [] then []
    else
      assert s == [s[0]] + s[1..];
      (if s[0] == t then [] else [s[0]]) + Erase(s[1..], t)
  }

  lemma {:induction false} EraseAbsent(s: seq<Timer>, t: Timer)
    requires t !in s
    ensures Erase(s, t) == s
  {
    if s != [] {
      EraseAbsent(s[1..], t);
      assert s == [s[0]] + s[1..];
    }
  }

  /** What Timer.add leaves in the list. */
  function WithTimer(s: seq<Timer>, t: Timer): seq<Timer> {
    SortByTime(if multiset(s)[t] == 0 then s + [t] else s)
  }

  /** What Timer.remove leaves in the list. */
  function WithoutTimer(s: seq<Timer>, t: Timer): seq<Timer> {
    SortByTime(Erase(s, t))
  }

  /** add leaves the list sorted and duplicate-free, holding the old timers
      and t; adding a timer already listed changes nothing. */
  lemma WithTimerSpec(s: seq<Timer>, t: Timer)
    ensures TimeSorted(WithTimer(s, t))
    ensures NoDup(s) ==> NoDup(WithTimer(s, t))
    ensures forall x :: x in WithTimer(s, t) <==> x in s || x == t
    ensures TimeSorted(s) && t in s ==> WithTimer(s, t) == s
  {
    var u := if multiset(s)[t] == 0 then s + [t] else s;
    SortByTimeSorted(u);
    SortByTimePerm(u);
    assert multiset(WithTimer(s, t)) == multiset(u);
    assert forall x :: x in WithTimer(s, t) <==> x in multiset(u);
    if TimeSorted(s) && t in s {
      SortByTimeOfSorted(s);
    }
  }

  /** remove leaves the list sorted, without t, holding every other timer
      it held before, and keeps it duplicate-free. */
  lemma WithoutTimerSpec(s: seq<Timer>, t: Timer)
    ensures TimeSorted(WithoutTimer(s, t))
    ensures NoDup(s) ==> NoDup(WithoutTimer(s, t))
    ensures forall x :: x in WithoutTimer(s, t) <==> x in s && x != t
  {
    SortByTimeSorted(Erase(s, t));
    SortByTimePerm(Erase(s, t));
    var r := WithoutTimer(s, t);
    assert multiset(r) == multiset(s)[t := 0];
    assert forall x :: x in r <==> x in multiset(r);
  }

  /** Erasing a timer from a sorted list keeps the others in order. */
  lemma {:induction false} EraseSorted(s: seq<Timer>, t: Timer)
    requires TimeSorted(s)
    ensures TimeSorted(Erase(s, t))
  {
    if s != [] {
      var tail := Erase(s[1..], t);
      EraseSorted(s[1..], t);
      assert forall i :: 0 <= i < |tail| ==> s[0].timeout <= tail[i].timeout by {
        forall i | 0 <= i < |tail|
          ensures s[0].timeout <= tail[i].timeout
        {
          assert tail[i] in multiset(tail);
          assert multiset(tail)[tail[i]] <= multiset(s[1..])[tail[i]];
          assert tail[i] in multiset(s[1..]);
          var j :| 0 <= j < |s[1..]| && s[1..][j] == tail[i];
          assert s[j + 1] == tail[i];
        }
      }
    }
  }

  /** On a sorted list, remove leaves exactly the list with t erased: the
      closing sort_timers then finds nothing to move. */
  lemma WithoutTimerOfSorted(s: seq<Timer>, t: Timer)
    requires TimeSorted(s)
    ensures WithoutTimer(s, t) == Erase(s, t)
  {
    EraseSorted(s, t);
    SortByTimeOfSorted(Erase(s, t));
  }

  /** The timers at the head of the list that are already due: those the
      dispatch loop fires. */
  function Expired(s: seq<Timer>, now: int): (r: seq<Timer>)
    ensures |r| <= |s|
  {
    if s == [] || s[0].timeout >= now then []
    else [s[0]] + Expired(s[1..], now)
  }

  /** The fired timers are a prefix of the list, all due, and the timer
      after them, if any, is not. */
  lemma {:induction false} ExpiredPrefix(s: seq<Timer>, now: int)
    ensures var r := Expired(s, now);
            r == s[..|r|]
            && (forall i :: 0 <= i < |r| ==> r[i].timeout < now)
            && (|r| < |s| ==> s[|r|].timeout >= now)
  {
    if s != [] && s[0].timeout < now {
      ExpiredPrefix(s[1..], now);
      var r := Expired(s, now);
      var q := Expired(s[1..], now);
      assert r == [s[0]] + q;
      assert r == s[..|r|];
    }
  }

  /** On a sorted list the fired timers are exactly the due ones, in
      ascending order, and every timer left is not yet due. */
  lemma ExpiredSpec(s: seq<Timer>, now: int)
    requires TimeSorted(s)
    ensures forall x :: x in Expired(s, now) <==> x in s && x.timeout < now
    ensures TimeSorted(Expired(s, now))
    ensures forall i :: |Expired(s, now)| <= i < |s| ==> s[i].timeout >= now
  {
    var r := Expired(s, now);
    ExpiredPrefix(s, now);
    forall x | x in s && x.timeout < now
      ensures x in r
    {
      var i :| 0 <= i < |s| && s[i] == x;
      assert r[i] == x;
    }
    forall x | x in r
      ensures x in s && x.timeout < now
    {
      var i :| 0 <= i < |r| && r[i] == x;
      assert s[i] == x;
    }
    forall i | |r| <= i < |s|
      ensures s[i].timeout >= now
    {
      assert s[|r|].timeout <= s[i].timeout;
    }
  }

  /** A due timer at the head is the first one fired. */
  lemma ExpiredStep(s: seq<Timer>, now: int)
    requires s != [] && s[0].timeout < now
    ensures Expired(s, now) == [s[0]] + Expired(s[1..], now)
  {
  }

  /** The registry shared by every socket and timer (the class-level
      Event.active and Event.timers). */
  class Events {
    var active: map<EvKey, Event>
    var timers: seq<Timer>

    ghost predicate Valid()
      reads this
    {
      TimeSorted(timers) && NoDup(timers)
    }

    constructor()
      ensures active == map[] && timers == [] && Valid()
    {
      active := map[];
      timers := [];
    }

    /** The timer part of dispatch: pops due timers from the head, each
        before its callback would run, and returns them in firing order. */
    method DrainTimers(now: int) returns (fired: seq<Timer>)
      modifies this
      ensures fired == Expired(old(timers), now)
      ensures old(timers) == fired + timers
      ensures active == old(active)
      ensures old(Valid()) ==> Valid()
    {
      fired := [];
      while timers != [] && timers[0].timeout < now
        invariant old(timers) == fired + timers
        invariant Expired(old(timers), now) == fired + Expired(timers, now)
        invariant active == old(active)
        decreases |timers|
      {
        var t := timers[0];
        assert timers == [t] + timers[1..];
        ExpiredStep(timers, now);
        assert fired + Expired(timers, now) == (fired + [t]) + Expired(timers[1..], now);
        timers := timers[1..];
        fired := fired + [t];
      }
      assert old(Valid()) ==> Valid() by {
        if old(Valid()) {
          SuffixKeeps(fired, timers);
        }
      }
    }
  }

  /** A suffix of a sorted duplicate-free list is sorted and duplicate-free. */
  lemma SuffixKeeps(p: seq<Timer>, s: seq<Timer>)
    requires TimeSorted(p + s) && NoDup(p + s)
    ensures TimeSorted(s) && NoDup(s)
  {
    forall t | t in multiset(s)
      ensures multiset(s)[t] == 1
    {
      assert multiset(p + s)[t] == multiset(p)[t] + multiset(s)[t];
    }
    forall i, j | 0 <= i < j < |s|
      ensures s[i].timeout <= s[j].timeout
    {
      assert (p + s)[|p| + i] == s[i] && (p + s)[|p| + j] == s[j];
    }
  }

  // ---------------------------------------------------------------------------
  // Stream sockets

  /** What the read loop hands over: the prefixes on_data reported consumed,
      in order, and what stays in the buffer. */
  datatype Drained = Drained(taken: seq<string>, rest: string)

  /** Python's s[n:], which is empty when n runs past the end. */
  function DropPrefix(s: string, n: nat): string {
    if n >= |s| then [] else s[n..]
  }

  /** The read loop: cuts off whatever on_data reports consumed and asks
      again while the report is positive. */
  function Consume(onData: string -> nat, buf: string): (d: Drained)
    requires forall x :: onData(x) <= |x|
    ensures |d.rest| <= |buf|
    decreases |buf|
  {
    var n := onData(buf);
    if n == 0 then Drained([], buf)
    else
      var d := Consume(onData, buf[n..]);
      Drained([buf[..n]] + d.taken, d.rest)
  }

  /** The prefixes handed over and what stays are the whole buffer, no
      prefix is empty, and on_data consumes nothing of what stays. */
  lemma ConsumeSpec(onData: string -> nat, buf: string)
    requires forall x :: onData(x) <= |x|
    ensures var d := Consume(onData, buf);
            Concat(d.taken) + d.rest == buf
            && onData(d.rest) == 0
            && forall i :: 0 <= i < |d.taken| ==> d.taken[i] != []
  {
    ConsumeConcat(onData, buf);
    ConsumeRest(onData, buf);
    ConsumeNonEmpty(onData, buf);
  }

  lemma {:induction false} ConsumeConcat(onData: string -> nat, buf: string)
    requires forall x :: onData(x) <= |x|
    ensures Concat(Consume(onData, buf).taken) + Consume(onData, buf).rest == buf
    decreases |buf|
  {
    var n := onData(buf);
    if n > 0 {
      var tail := buf[n..];
      ConsumeConcat(onData, tail);
      ConsumeStep(onData, buf);
      var d := Consume(onData, tail);
      ConcatFront(buf[..n], d.taken, d.rest);
      assert buf == buf[..n] + tail;
    }
  }

  lemma {:induction false} ConsumeRest(onData: string -> nat, buf: string)
    requires forall x :: onData(x) <= |x|
    ensures onData(Consume(onData, buf).rest) == 0
    decreases |buf|
  {
    if onData(buf) > 0 {
      ConsumeRest(onData, buf[onData(buf)..]);
      ConsumeStep(onData, buf);
    }
  }

  lemma {:induction false} ConsumeNonEmpty(onData: string -> nat, buf: string)
    requires forall x :: onData(x) <= |x|
    ensures forall i :: 0 <= i < |Consume(onData, buf).taken| ==> Consume(onData, buf).taken[i] != []
    decreases |buf|
  {
    var n := onData(buf);
    if n > 0 {
      var t := Consume(onData, buf[n..]).taken;
      ConsumeNonEmpty(onData, buf[n..]);
      ConsumeStep(onData, buf);
      assert Consume(onData, buf).taken == [buf[..n]] + t;
    }
  }

  /** One turn of the read loop. */
  lemma ConsumeStep(onData: string -> nat, buf: string)
    requires forall x :: onData(x) <= |x|
    ensures onData(buf) == 0 ==> Consume(onData, buf) == Drained([], buf)
    ensures onData(buf) > 0 ==>
              DropPrefix(buf, onData(buf)) == buf[onData(buf)..]
              && Consume(onData, buf).taken == [buf[..onData(buf)]] + Consume(onData, buf[onData(buf)..]).taken
              && Consume(onData, buf).rest == Consume(onData, buf[onData(buf)..]).rest
  {
  }

  /** With newline framing the read loop hands over exactly the complete
      lines of the buffer, and keeps the unfinished last line. */
  lemma {:induction false} ConsumeLines(buf: string)
    ensures Consume(LineLength, buf) == Drained(Lines(buf), Rest(buf))
    decreases |buf|
  {
    var n := LineLength(buf);
    if n > 0 {
      ConsumeLines(buf[n..]);
    }
  }

  class StreamSocket {
    const fd: int
    const loop: Events
    const rev: Event
    const wev: Event
    var rbuf: string
    var wbuf: string
    var sendEof: bool
    /** socket.close() has been called. */
    var closed: bool
    /** Every character handed to write_raw so far. */
    ghost var written: string
    /** Every character the kernel has accepted so far. */
    ghost var wire: string

    /** The bytes go out in the order they were written, none lost and none
        repeated: what was accepted followed by what is buffered is what
        was written. */
    ghost predicate Valid()
      reads this
    {
      rev.fd == fd && rev.ev == EvType.Read && rev.loop == loop
      && wev.fd == fd && wev.ev == EvType.Write && wev.loop == loop
      && written == wire + wbuf
    }

    /** A connected socket: empty buffers, reading enabled. */
    constructor(fd: int, loop: Events)
      modifies loop
      ensures Valid() && this.fd == fd && this.loop == loop && fresh(rev) && fresh(wev)
      ensures rbuf == [] && wbuf == [] && !sendEof && !closed
      ensures loop.active == old(loop.active)[(fd, EvType.Read) := if (fd, EvType.Read) in old(loop.active) then old(loop.active)[(fd, EvType.Read)] else rev]
      ensures loop.timers == old(loop.timers)
    {
      this.fd := fd;
      this.loop := loop;
      var r := new Event(fd, EvType.Read, loop);
      rev := r;
      wev := new Event(fd, EvType.Write, loop);
      rbuf := [];
      wbuf := [];
      sendEof := false;
      closed := false;
      written := [];
      wire := [];
      new;
      rev.Enable();
    }

    /** read_cb, given what recv returned and the client's on_data. An empty
        read is end of file: the socket closes (on_error is the client's
        and is left to it) and eof is reported. */
    method ReadCb(received: string, onData: string -> nat) returns (eof: bool, taken: seq<string>)
      requires Valid()
      requires forall x :: onData(x) <= |x|
      modifies this, loop
      ensures Valid()
      ensures eof <==> received == []
      ensures eof ==> taken == [] && rbuf == old(rbuf) && closed
      ensures eof ==> loop.active == Disabled(Disabled(old(loop.active), (fd, EvType.Write)), (fd, EvType.Read))
      ensures !eof ==> Drained(taken, rbuf) == Consume(onData, old(rbuf) + received)
      ensures !eof ==> loop.active == old(loop.active) && closed == old(closed)
      ensures loop.timers == old(loop.timers)
      ensures wbuf == old(wbuf) && sendEof == old(sendEof)
      ensures written == old(written) && wire == old(wire)
    {
      if received == [] {
        Close();
        return true, [];
      }
      eof := false;
      rbuf := rbuf + received;
      taken := DrainReadBuffer(onData);
    }

    /** The `while helper() > 0` loop of read_cb. */
    method DrainReadBuffer(onData: string -> nat) returns (taken: seq<string>)
      requires forall x :: onData(x) <= |x|
      modifies `rbuf
      ensures Drained(taken, rbuf) == Consume(onData, old(rbuf))
    {
      var buf := rbuf;
      var n := onData(rbuf);
      rbuf := DropPrefix(rbuf, n);
      ConsumeStep(onData, buf);
      taken := if n > 0 then [buf[..n]] else [];
      while n > 0
        invariant Consume(onData, buf).taken == taken + Consume(onData, rbuf).taken
        invariant Consume(onData, buf).rest == Consume(onData, rbuf).rest
        invariant n == 0 ==> onData(rbuf) == 0
        invariant buf == old(rbuf)
        decreases |rbuf| + n
      {
        var before := rbuf;
        n := onData(rbuf);
        rbuf := DropPrefix(rbuf, n);
        ConsumeStep(onData, before);
        if n > 0 {
          assert (taken + [before[..n]]) + Consume(onData, rbuf).taken
              == taken + ([before[..n]] + Consume(onData, rbuf).taken);
          taken := taken + [before[..n]];
        }
      }
    }

    /** write_cb, given how many characters the kernel accepted. */
    method WriteCb(sent: nat)
      requires Valid() && sent <= |wbuf|
      modifies this, loop
      ensures Valid()
      ensures wbuf == old(wbuf)[sent..] && wire == old(wire) + old(wbuf)[..sent]
      ensures wbuf == [] && sendEof ==> closed && loop.active == Disabled(Disabled(old(loop.active), (fd, EvType.Write)), (fd, EvType.Read))
      ensures wbuf == [] && !sendEof ==> closed == old(closed) && loop.active == Disabled(old(loop.active), (fd, EvType.Write))
      ensures wbuf != [] ==> closed == old(closed) && loop.active == old(loop.active)
      ensures loop.timers == old(loop.timers)
      ensures rbuf == old(rbuf) && sendEof == old(sendEof) && written == old(written)
    {
      wire := wire + wbuf[..sent];
      assert old(wbuf) == wbuf[..sent] + wbuf[sent..];
      wbuf := wbuf[sent..];
      if wbuf == [] && sendEof {
        Close();
      } else if wbuf == [] {
        wev.Disable();
      }
    }

    /** write: the words joined by spaces, and a newline. */
    method Write(words: seq<string>)
      requires Valid()
      modifies this, loop
      ensures Valid()
      ensures wbuf == old(wbuf) + Join(words, ' ') + "\n"
      ensures written == old(written) + Join(words, ' ') + "\n"
      ensures loop.active == Enabled(old(loop.active), wev)
      ensures loop.timers == old(loop.timers)
      ensures rbuf == old(rbuf) && sendEof == old(sendEof) && closed == old(closed) && wire == old(wire)
    {
      WriteRaw(Join(words, ' ') + "\n");
    }

    /** write_raw: appends to the write buffer and waits for writability. */
    method WriteRaw(data: string)
      requires Valid()
      modifies this, loop
      ensures Valid()
      ensures wbuf == old(wbuf) + data && written == old(written) + data
      ensures loop.active == Enabled(old(loop.active), wev)
      ensures loop.timers == old(loop.timers)
      ensures rbuf == old(rbuf) && sendEof == old(sendEof) && closed == old(closed) && wire == old(wire)
    {
      wbuf := wbuf + data;
      written := written + data;
      wev.Enable();
    }

    /** close_when_done: closes now if nothing is buffered, otherwise stops
        reading and closes once the buffer has drained. */
    method CloseWhenDone()
      requires Valid()
      modifies this, loop
      ensures Valid()
      ensures old(wbuf) == [] ==> closed && sendEof == old(sendEof)
      ensures old(wbuf) == [] ==> loop.active == Disabled(Disabled(old(loop.active), (fd, EvType.Write)), (fd, EvType.Read))
      ensures old(wbuf) != [] ==> sendEof && closed == old(closed) && loop.active == Disabled(old(loop.active), (fd, EvType.Read))
      ensures loop.timers == old(loop.timers)
      ensures rbuf == old(rbuf) && wbuf == old(wbuf) && written == old(written) && wire == old(wire)
    {
      if wbuf == [] {
        Close();
      } else {
        sendEof := true;
        rev.Disable();
      }
    }

    /** close: both events off, the socket closed. */
    method Close()
      requires Valid()
      modifies this, loop
      ensures Valid() && closed
      ensures loop.active == Disabled(Disabled(old(loop.active), (fd, EvType.Write)), (fd, EvType.Read))
      ensures loop.timers == old(loop.timers)
      ensures rbuf == old(rbuf) && wbuf == old(wbuf) && sendEof == old(sendEof)
      ensures written == old(written) && wire == old(wire)
    {
      wev.Disable();
      rev.Disable();
      closed := true;
    }
  }

  // ---------------------------------------------------------------------------
  // Datagram sockets

  /** A datagram and the address it goes to. */
  datatype Packet = Packet(data: string, host: string, port: int)

  /** Python truthiness of an optional string: neither None nor empty. */
  predicate Present(x: Option<string>) {
    x.Some? && x.value != ""
  }

  /** addr.split(':') unpacked into (host, port), then int(port): a
      ValueError unless there is exactly one colon and an integer after it. */
  function ParseAddress(addr: string): (r: Result<(string, int)>)
    ensures r.Err? ==> r.fault == ValueError
  {
    var parts := SplitOn(addr, ':');
    if |parts| != 2 then Err(ValueError)
    else match PythonInt(parts[1])
      case None => Err(ValueError)
      case Some(port) => Ok((parts[0], port))
  }

  /** An address that parses is a colon-free host, one colon and the
      decimal port. */
  lemma ParseAddressShape(addr: string)
    ensures var r := ParseAddress(addr);
            r.Ok? ==>
              ':' !in r.value.0
              && exists q :: ':' !in q && addr == r.value.0 + ":" + q && PythonInt(q) == Some(r.value.1)
  {
    var parts := SplitOn(addr, ':');
    if |parts| == 2 && PythonInt(parts[1]).Some? {
      JoinSplitOn(addr, ':');
      assert Join(parts, ':') == parts[0] + [':'] + Join(parts[1..], ':');
      assert Join(parts[1..], ':') == parts[1];
      assert addr == parts[0] + ":" + parts[1];
    }
  }

  /** An address written as host:port, with a host free of colons, reads
      back as that host and port. */
  lemma AddressRoundTrip(host: string, port: int)
    requires ':' !in host
    ensures ParseAddress(host + ":" + IntToDecimal(port)) == Ok((host, port))
  {
    var p := IntToDecimal(port);
    var a := host + ":" + p;
    assert ':' !in p by { DecimalNoColon(port); }
    assert SplitOn(a, ':') == [host, p] by {
      assert Join([host, p], ':') == a by {
        assert Join([p], ':') == p;
      }
      SplitOnJoin([host, p], ':');
    }
    PythonIntDecimal(port);
  }

  /** What send(addr, words) queues: nothing when the address is falsy, a
      ValueError when it does not parse, otherwise the words joined by
      spaces for that host and port. */
  function Datagram(addr: Option<string>, words: seq<string>): (r: Result<Option<Packet>>)
    ensures r == Ok(None) <==> !Present(addr)
    ensures r.Err? <==> Present(addr) && ParseAddress(addr.value).Err?
    ensures r.Err? ==> r.fault == ValueError
    ensures r.Ok? && r.value.Some? ==>
              r.value.value == Packet(Join(words, ' '), ParseAddress(addr.value).value.0, ParseAddress(addr.value).value.1)
  {
    if !Present(addr) then Ok(None)
    else match ParseAddress(addr.value)
      case Err(f) => Err(f)
      case Ok((host, port)) => Ok(Some(Packet(Join(words, ' '), host, port)))
  }

  /** A well-formed address goes out to the host and port it was written
      from. */
  lemma DatagramAddress(host: string, port: int, words: seq<string>)
    requires ':' !in host
    ensures Datagram(Some(host + ":" + IntToDecimal(port)), words)
            == Ok(Some(Packet(Join(words, ' '), host, port)))
  {
    AddressRoundTrip(host, port);
  }

  /** An address without a colon is a ValueError. */
  lemma DatagramNoPort(addr: string, words: seq<string>)
    requires addr != [] && ':' !in addr
    ensures ParseAddress(addr) == Err(ValueError)
    ensures Datagram(Some(addr), words) == Err(ValueError)
  {
    SplitOnNoSep(addr, ':');
  }

  lemma {:induction false} SplitOnNoSep(s: string, sep: char)
    requires sep !in s
    ensures SplitOn(s, sep) == [s]
  {
    if s != [] {
      SplitOnNoSep(s[1..], sep);
      assert s == [s[0]] + s[1..];
    }
  }

  lemma DecimalNoColon(n: int)
    ensures ':' !in IntToDecimal(n)
  {
    var s := IntToDecimal(n);
    if n < 0 {
      assert s[1..] == NatToDecimal(-n);
      forall i | 0 <= i < |s|
        ensures s[i] != ':'
      {
        if i > 0 {
          assert s[i] == s[1..][i - 1];
        }
      }
    }
  }

  class DgramSocket {
    const fd: int
    const loop: Events
    const wev: Event
    var sendq: seq<Packet>
    /** What sendto has put on the network, in order. */
    var sent: seq<Packet>
    /** Every datagram queued so far. */
    ghost var queued: seq<Packet>

    /** First in, first out: what has gone out followed by what waits is
        what was queued. */
    ghost predicate Valid()
      reads this
    {
      wev.fd == fd && wev.ev == EvType.Write && wev.loop == loop && queued == sent + sendq
    }

    constructor(fd: int, loop: Events)
      ensures Valid() && this.fd == fd && this.loop == loop && fresh(wev)
      ensures sendq == [] && sent == []
    {
      this.fd := fd;
      this.loop := loop;
      wev := new Event(fd, EvType.Write, loop);
      sendq := [];
      sent := [];
      queued := [];
    }

    /** write_cb: sends the head of the queue; an empty queue is an
        IndexError. */
    method WriteCb() returns (r: Outcome)
      requires Valid()
      modifies this, loop
      ensures Valid() && queued == old(queued)
      ensures old(sendq) == [] ==> r == Failed(IndexError) && sendq == [] && sent == old(sent) && loop.active == old(loop.active)
      ensures old(sendq) != [] ==> r == Done && sent == old(sent) + [old(sendq)[0]] && sendq == old(sendq)[1..]
      ensures old(sendq) != [] && sendq == [] ==> loop.active == Disabled(old(loop.active), (fd, EvType.Write))
      ensures sendq != [] ==> loop.active == old(loop.active)
      ensures loop.timers == old(loop.timers)
    {
      if sendq == [] {
        return Failed(IndexError);
      }
      var p := sendq[0];
      assert sendq == [p] + sendq[1..];
      sendq := sendq[1..];
      sent := sent + [p];
      if sendq == [] {
        wev.Disable();
      }
      r := Done;
    }

    /** send: queues the datagram Datagram describes. */
    method Send(addr: Option<string>, words: seq<string>) returns (r: Outcome)
      requires Valid()
      modifies this, loop
      ensures Valid() && sent == old(sent)
      ensures r == Done <==> Datagram(addr, words).Ok?
      ensures r.Failed? ==> r.fault == Datagram(addr, words).fault
      ensures Datagram(addr, words) == Ok(None) || r.Failed? ==>
                sendq == old(sendq) && queued == old(queued) && loop.active == old(loop.active)
      ensures Datagram(addr, words).Ok? && Datagram(addr, words).value.Some? ==>
                sendq == old(sendq) + [Datagram(addr, words).value.value]
                && queued == old(queued) + [Datagram(addr, words).value.value]
                && loop.active == Enabled(old(loop.active), wev)
      ensures loop.timers == old(loop.timers)
    {
      var d := Datagram(addr, words);
      if d.Err? {
        return Failed(d.fault);
      }
      if d.value.Some? {
        SendRaw(d.value.value);
      }
      r := Done;
    }

    /** send_raw: appends to the queue and waits for writability. */
    method SendRaw(p: Packet)
      requires Valid()
      modifies this, loop
      ensures Valid() && sent == old(sent)
      ensures sendq == old(sendq) + [p] && queued == old(queued) + [p]
      ensures loop.active == Enabled(old(loop.active), wev)
      ensures loop.timers == old(loop.timers)
    {
      sendq := sendq + [p];
      queued := queued + [p];
      wev.Enable();
    }
  }
}
