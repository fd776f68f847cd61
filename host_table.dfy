/** The monitoring client (GUI.java): its table of hosts, kept sorted by host
    name with one row per host, the decoder for the STATE lines the server
    sends, and the encoder that turns selected rows into CSTOP, CSTART and
    CKILL commands. */
module HostTable {
  import opened Outcomes
  import opened Strings

  // ---------------------------------------------------------------------------
  // Entries and their order (MyTableModel.Entry)

  /** One row of the table. Two entries are equal when their hosts are. */
  datatype Entry = Entry(host: string, port: int, status: string)

  /** The strict lexicographic order of strings: by the first character that
      differs, and a proper prefix before the longer string. */
  predicate Before(a: string, b: string)
    decreases |a|
  {
    b != [] && (a == [] || a[0] < b[0] || (a[0] == b[0] && Before(a[1..], b[1..])))
  }

  lemma {:induction false} BeforeIrreflexive(a: string)
    ensures !Before(a, a)
  {
    if a != [] {
      BeforeIrreflexive(a[1..]);
    }
  }

  lemma {:induction false} BeforeAsymmetric(a: string, b: string)
    ensures Before(a, b) ==> !Before(b, a)
    decreases |a|
  {
    if a != [] && b != [] && a[0] == b[0] {
      BeforeAsymmetric(a[1..], b[1..]);
    }
  }

  lemma {:induction false} BeforeTransitive(a: string, b: string, c: string)
    requires Before(a, b) && Before(b, c)
    ensures Before(a, c)
    decreases |a|
  {
    if a != [] && a[0] == b[0] && b[0] == c[0] {
      BeforeTransitive(a[1..], b[1..], c[1..]);
    }
  }

  lemma {:induction false} BeforeTotal(a: string, b: string)
    requires a != b
    ensures Before(a, b) || Before(b, a)
    decreases |a|
  {
    if a != [] && b != [] && a[0] == b[0] {
      assert a == [a[0]] + a[1..] && b == [b[0]] + b[1..];
      BeforeTotal(a[1..], b[1..]);
    }
  }

  /** String.compareTo, which Entry.compareTo applies to the hosts: the
      difference of the first two characters that differ, otherwise the
      difference of the lengths. Its sign is the lexicographic order. */
  function CompareStrings(a: string, b: string): (r: int)
    ensures r < 0 <==> Before(a, b)
    ensures r == 0 <==> a == b
    ensures r > 0 <==> Before(b, a)
  {
    if a == [] || b == [] then |a| - |b|
    else if a[0] != b[0] then a[0] as int - b[0] as int
    else
      assert a == [a[0]] + a[1..] && b == [b[0]] + b[1..];
      CompareStrings(a[1..], b[1..])
  }

  /** Entry.equals: the same host, whatever the port and status; this agrees
      with compareTo returning 0. */
  function SameHost(a: Entry, b: Entry): (r: bool)
    ensures r <==> CompareStrings(a.host, b.host) == 0
  {
    a.host == b.host
  }

  /** Strictly ascending by host, which also rules out two entries for one host. */
  ghost predicate Sorted(s: seq<Entry>) {
    forall i, j :: 0 <= i < j < |s| ==> Before(s[i].host, s[j].host)
  }

  /** Ascending by host, equal hosts allowed: what a sort guarantees. */
  ghost predicate NonDecreasing(s: seq<Entry>) {
    forall i, j :: 0 <= i < j < |s| ==> !Before(s[j].host, s[i].host)
  }

  predicate HasHost(s: seq<Entry>, h: string) {
    exists i :: 0 <= i < |s| && s[i].host == h
  }

  // ---------------------------------------------------------------------------
  // The list operations set() uses: remove(Object), add, Collections.sort

  /** ArrayList.remove(e) with Entry.equals: drops the first entry for host h. */
  function RemoveFirst(s: seq<Entry>, h: string): (r: seq<Entry>)
    ensures !HasHost(s, h) ==> r == s
    ensures HasHost(s, h) ==> |r| == |s| - 1
  {
    if s == [] then []
    else if s[0].host == h then
      assert s == [s[0]] + s[1..];
      assert HasHost(s, h) by { assert s[0].host == h; }
      s[1..]
    else
      assert s == [s[0]] + s[1..];
      assert HasHost(s, h) ==> HasHost(s[1..], h) by {
        if HasHost(s, h) {
          var i :| 0 <= i < |s| && s[i].host == h;
          assert s[1..][i - 1].host == h;
        }
      }
      assert HasHost(s[1..], h) ==> HasHost(s, h) by {
        if HasHost(s[1..], h) {
          var i :| 0 <= i < |s[1..]| && s[1..][i].host == h;
          assert s[i + 1].host == h;
        }
      }
      [s[0]] + RemoveFirst(s[1..], h)
  }

  /** One step of a stable insertion sort: e goes after every entry whose
      host does not come after its own. */
  function InsertEntry(s: seq<Entry>, e: Entry): (r: seq<Entry>)
    ensures |r| == |s| + 1
  {
    if s == [] || CompareStrings(e.host, s[0].host) < 0 then [e] + s
    else [s[0]] + InsertEntry(s[1..], e)
  }

  /** Inserting adds the entry and loses nothing. */
  lemma {:induction false} InsertEntryPerm(s: seq<Entry>, e: Entry)
    ensures multiset(InsertEntry(s, e)) == multiset(s) + multiset{e}
  {
    if s != [] && CompareStrings(e.host, s[0].host) >= 0 {
      InsertEntryPerm(s[1..], e);
      assert s == [s[0]] + s[1..];
    }
  }

  /** Collections.sort on the entries: a stable sort by host. Every stable
      sort gives this same list, so insertion sort stands for the library's
      merge sort. */
  function SortEntries(s: seq<Entry>): (r: seq<Entry>)
    ensures |r| == |s|
  {
    if s == [] then []
    else InsertEntry(SortEntries(s[..|s| - 1]), s[|s| - 1])
  }

  /** The sort is a permutation of its input. */
  lemma {:induction false} SortEntriesPerm(s: seq<Entry>)
    ensures multiset(SortEntries(s)) == multiset(s)
  {
    if s != [] {
      var p, last := s[..|s| - 1], s[|s| - 1];
      SortEntriesPerm(p);
      InsertEntryPerm(SortEntries(p), last);
      assert s == p + [last];
    }
  }

  /** The table after set(e.host, e.port, e.status): remove, add, sort. */
  function Upsert(s: seq<Entry>, e: Entry): seq<Entry> {
    SortEntries(RemoveFirst(s, e.host) + [e])
  }

  // ---------------------------------------------------------------------------
  // What the sort and the update do

  lemma NonDecreasingCons(a: Entry, t: seq<Entry>)
    requires NonDecreasing(t)
    requires forall j :: 0 <= j < |t| ==> !Before(t[j].host, a.host)
    ensures NonDecreasing([a] + t)
  {
    var r := [a] + t;
    forall i, j | 0 <= i < j < |r| ensures !Before(r[j].host, r[i].host) {
      assert r[j] == t[j - 1];
      if i > 0 {
        assert r[i] == t[i - 1];
      }
    }
  }

  lemma SortedCons(a: Entry, t: seq<Entry>)
    requires Sorted(t)
    requires forall j :: 0 <= j < |t| ==> Before(a.host, t[j].host)
    ensures Sorted([a] + t)
  {
    var r := [a] + t;
    forall i, j | 0 <= i < j < |r| ensures Before(r[i].host, r[j].host) {
      assert r[j] == t[j - 1];
      if i > 0 {
        assert r[i] == t[i - 1];
      }
    }
  }

  /** Every element of a list occurs at some index of it. */
  lemma InTail(s: seq<Entry>, x: Entry) returns (k: nat)
    requires s != [] && x in s[1..]
    ensures 1 <= k < |s| && s[k] == x
  {
    var i :| 0 <= i < |s[1..]| && s[1..][i] == x;
    k := i + 1;
  }

  lemma {:induction false} InsertEntryNonDecreasing(s: seq<Entry>, e: Entry)
    requires NonDecreasing(s)
    ensures NonDecreasing(InsertEntry(s, e))
  {
    if s == [] {
    } else if CompareStrings(e.host, s[0].host) < 0 {
      forall j | 0 <= j < |s| ensures !Before(s[j].host, e.host) {
        if Before(s[j].host, e.host) {
          BeforeTransitive(s[j].host, e.host, s[0].host);
        }
      }
      NonDecreasingCons(e, s);
    } else {
      var t := InsertEntry(s[1..], e);
      assert NonDecreasing(s[1..]);
      InsertEntryNonDecreasing(s[1..], e);
      InsertEntryPerm(s[1..], e);
      forall j | 0 <= j < |t| ensures !Before(t[j].host, s[0].host) {
        assert t[j] in multiset(t);
        assert t[j] in multiset(s[1..]) || t[j] == e;
        if t[j] != e {
          var k := InTail(s, t[j]);
        }
      }
      NonDecreasingCons(s[0], t);
    }
  }

  /** The sort's result is ordered by host. */
  lemma {:induction false} SortEntriesNonDecreasing(s: seq<Entry>)
    ensures NonDecreasing(SortEntries(s))
  {
    if s != [] {
      SortEntriesNonDecreasing(s[..|s| - 1]);
      InsertEntryNonDecreasing(SortEntries(s[..|s| - 1]), s[|s| - 1]);
    }
  }

  /** Inserting an entry that comes after every other entry appends it. */
  lemma {:induction false} InsertEntryLast(s: seq<Entry>, e: Entry)
    requires forall i :: 0 <= i < |s| ==> !Before(e.host, s[i].host)
    ensures InsertEntry(s, e) == s + [e]
  {
    if s != [] {
      InsertEntryLast(s[1..], e);
      assert s == [s[0]] + s[1..];
    }
  }

  /** Sorting an already ordered list changes nothing. */
  lemma {:induction false} SortEntriesOfSorted(s: seq<Entry>)
    requires NonDecreasing(s)
    ensures SortEntries(s) == s
  {
    if s != [] {
      var p, last := s[..|s| - 1], s[|s| - 1];
      assert SortEntries(p) == p by { assert NonDecreasing(p); SortEntriesOfSorted(p); }
      assert InsertEntry(p, last) == s by { InsertEntryLast(p, last); assert s == p + [last]; }
      SortEntriesStep(s);
    }
  }

  lemma SortEntriesStep(s: seq<Entry>)
    requires s != []
    ensures SortEntries(s) == InsertEntry(SortEntries(s[..|s| - 1]), s[|s| - 1])
  {
  }

  lemma SortedIsNonDecreasing(s: seq<Entry>)
    requires Sorted(s)
    ensures NonDecreasing(s)
  {
    forall i, j | 0 <= i < j < |s| ensures !Before(s[j].host, s[i].host) {
      BeforeAsymmetric(s[i].host, s[j].host);
    }
  }

  /** Removing the entry for h from a sorted table keeps it sorted and
      takes away exactly the entries for h. */
  lemma {:induction false} RemoveFirstSorted(s: seq<Entry>, h: string)
    requires Sorted(s)
    ensures Sorted(RemoveFirst(s, h))
    ensures forall x :: x in RemoveFirst(s, h) <==> x in s && x.host != h
  {
    if s != [] {
      assert Sorted(s[1..]);
      RemoveFirstSorted(s[1..], h);
      assert s == [s[0]] + s[1..];
      if s[0].host == h {
        forall x | x in s[1..] ensures x.host != h {
          var k := InTail(s, x);
          assert Before(s[0].host, s[k].host);
          BeforeIrreflexive(h);
        }
      } else {
        var t := RemoveFirst(s[1..], h);
        forall j | 0 <= j < |t| ensures Before(s[0].host, t[j].host) {
          assert t[j] in t;
          var k := InTail(s, t[j]);
        }
        SortedCons(s[0], t);
      }
    }
  }

  lemma NotHasHost(s: seq<Entry>, h: string)
    requires forall x :: x in s ==> x.host != h
    ensures !HasHost(s, h)
  {
    forall i | 0 <= i < |s| ensures s[i].host != h {
      assert s[i] in s;
    }
  }

  /** Inserting an entry for a new host into a sorted table gives a sorted
      table holding exactly the old entries and the new one. */
  lemma {:induction false} InsertEntrySorted(s: seq<Entry>, e: Entry)
    requires Sorted(s) && !HasHost(s, e.host)
    ensures Sorted(InsertEntry(s, e))
    ensures forall x :: x in InsertEntry(s, e) <==> x == e || x in s
  {
    var r := InsertEntry(s, e);
    InsertEntryPerm(s, e);
    assert forall x :: x in r <==> x in multiset(r);
    if s != [] {
      assert e.host != s[0].host;
      if CompareStrings(e.host, s[0].host) < 0 {
        forall j | 0 <= j < |s| ensures Before(e.host, s[j].host) {
          if j > 0 {
            BeforeTransitive(e.host, s[0].host, s[j].host);
          }
        }
        SortedCons(e, s);
      } else {
        assert Sorted(s[1..]);
        assert !HasHost(s[1..], e.host);
        InsertEntrySorted(s[1..], e);
        var t := InsertEntry(s[1..], e);
        forall j | 0 <= j < |t| ensures Before(s[0].host, t[j].host) {
          assert t[j] in t;
          if t[j] != e {
            var k := InTail(s, t[j]);
          }
        }
        SortedCons(s[0], t);
      }
    }
  }

  /** set(h, p, st) on a sorted table: the table stays sorted; it holds the
      new entry and every old entry for another host, and nothing else; it
      grows by one row exactly when h was new. */
  lemma UpsertSpec(s: seq<Entry>, e: Entry)
    requires Sorted(s)
    ensures Sorted(Upsert(s, e))
    ensures forall x :: x in Upsert(s, e) <==> x == e || (x in s && x.host != e.host)
    ensures |Upsert(s, e)| == if HasHost(s, e.host) then |s| else |s| + 1
  {
    var r := RemoveFirst(s, e.host);
    RemoveFirstSorted(s, e.host);
    NotHasHost(r, e.host);
    SortedIsNonDecreasing(r);
    SortEntriesOfSorted(r);
    assert r + [e] == (r + [e])[..|r|] + [e];
    assert (r + [e])[..|r|] == r;
    assert Upsert(s, e) == InsertEntry(r, e);
    InsertEntrySorted(r, e);
  }

  /** After set(h, p, st) the table has exactly one entry for h, carrying p and st. */
  lemma UpsertLastWriteWins(s: seq<Entry>, e: Entry)
    requires Sorted(s)
    ensures e in Upsert(s, e)
    ensures forall x :: x in Upsert(s, e) && x.host == e.host ==> x == e
  {
    UpsertSpec(s, e);
  }

  lemma HeadIsMember(b: seq<Entry>)
    requires b != []
    ensures b[0] in b
  {
  }

  /** Two sorted tables with the same entries are the same table. */
  lemma {:induction false} SortedUnique(a: seq<Entry>, b: seq<Entry>)
    requires Sorted(a) && Sorted(b)
    requires forall x :: x in a <==> x in b
    ensures a == b
    decreases |a|
  {
    if a == [] {
      if b != [] {
        HeadIsMember(b);
      }
    } else {
      assert a[0] in a;
      assert b != [];
      assert b[0] in b;
      var k :| 0 <= k < |b| && b[k] == a[0];
      var m :| 0 <= m < |a| && a[m] == b[0];
      if k > 0 {
        if m == 0 {
          BeforeIrreflexive(b[0].host);
        } else {
          BeforeAsymmetric(a[0].host, b[0].host);
        }
      }
      assert a[0] == b[0];
      forall x ensures x in a[1..] <==> x in b[1..] {
        if x in a[1..] {
          var i :| 0 <= i < |a[1..]| && a[1..][i] == x;
          assert Before(a[0].host, a[i + 1].host);
          BeforeIrreflexive(a[0].host);
          assert x in b;
        }
        if x in b[1..] {
          var i :| 0 <= i < |b[1..]| && b[1..][i] == x;
          assert Before(b[0].host, b[i + 1].host);
          BeforeIrreflexive(b[0].host);
          assert x in a;
        }
      }
      assert Sorted(a[1..]) && Sorted(b[1..]);
      SortedUnique(a[1..], b[1..]);
      assert a == [a[0]] + a[1..] && b == [b[0]] + b[1..];
    }
  }

  /** Only the latest update for a host survives: writing e1 and then e2 for
      the same host is the same as writing e2 alone. */
  lemma UpsertOverwrites(s: seq<Entry>, e1: Entry, e2: Entry)
    requires Sorted(s) && e1.host == e2.host
    ensures Upsert(Upsert(s, e1), e2) == Upsert(s, e2)
  {
    var a := Upsert(s, e1);
    UpsertSpec(s, e1);
    UpsertSpec(a, e2);
    UpsertSpec(s, e2);
    var ab := Upsert(a, e2);
    var b := Upsert(s, e2);
    forall x ensures x in ab <==> x in b {
    }
    SortedUnique(ab, b);
  }

  /** Updates for different hosts can arrive in either order. */
  lemma UpsertCommutes(s: seq<Entry>, e1: Entry, e2: Entry)
    requires Sorted(s) && e1.host != e2.host
    ensures Upsert(Upsert(s, e1), e2) == Upsert(Upsert(s, e2), e1)
  {
    var a := Upsert(s, e1);
    var b := Upsert(s, e2);
    UpsertSpec(s, e1);
    UpsertSpec(s, e2);
    UpsertSpec(a, e2);
    UpsertSpec(b, e1);
    var ab := Upsert(a, e2);
    var ba := Upsert(b, e1);
    CommutedMembers(s, a, b, ab, ba, e1, e2);
    SortedUnique(ab, ba);
  }

  lemma CommutedMembers(s: seq<Entry>, a: seq<Entry>, b: seq<Entry>, ab: seq<Entry>, ba: seq<Entry>, e1: Entry, e2: Entry)
    requires e1.host != e2.host
    requires forall x :: x in a <==> x == e1 || (x in s && x.host != e1.host)
    requires forall x :: x in b <==> x == e2 || (x in s && x.host != e2.host)
    requires forall x :: x in ab <==> x == e2 || (x in a && x.host != e2.host)
    requires forall x :: x in ba <==> x == e1 || (x in b && x.host != e1.host)
    ensures forall x :: x in ab <==> x in ba
  {
  }

  ghost function Hosts(s: seq<Entry>): set<string> {
    set i | 0 <= i < |s| :: s[i].host
  }

  /** A sorted table has as many rows as it has distinct hosts. */
  lemma {:induction false} SortedRowsAreHosts(s: seq<Entry>)
    requires Sorted(s)
    ensures |s| == |Hosts(s)|
  {
    if s != [] {
      assert Sorted(s[1..]);
      SortedRowsAreHosts(s[1..]);
      assert Hosts(s) == {s[0].host} + Hosts(s[1..]) by {
        forall h | h in Hosts(s) ensures h in {s[0].host} + Hosts(s[1..]) {
          var i :| 0 <= i < |s| && s[i].host == h;
          if i > 0 {
            assert s[1..][i - 1].host == h;
          }
        }
        forall h | h in Hosts(s[1..]) ensures h in Hosts(s) {
          var i :| 0 <= i < |s[1..]| && s[1..][i].host == h;
          assert s[i + 1].host == h;
        }
      }
      assert s[0].host !in Hosts(s[1..]) by {
        if s[0].host in Hosts(s[1..]) {
          var i :| 0 <= i < |s[1..]| && s[1..][i].host == s[0].host;
          assert Before(s[0].host, s[i + 1].host);
          BeforeIrreflexive(s[0].host);
        }
      }
    }
  }

  // ---------------------------------------------------------------------------
  // The table model

  /** A table cell as getValueAt returns it: the host, the port, the status,
      or null for a column that does not exist. */
  datatype Cell = HostCell(host: string) | PortCell(port: int) | StatusCell(status: string) | NullCell

  class TableModel {
    var entries: seq<Entry>

    ghost predicate Valid()
      reads this
    {
      Sorted(entries)
    }

    constructor ()
      ensures Valid() && entries == []
    {
      entries := [];
    }

    /** set(host, port, status): replace the row for host, or add one, and re-sort. */
    method Set(host: string, port: int, status: string)
      requires Valid()
      modifies this
      ensures Valid()
      ensures entries == Upsert(old(entries), Entry(host, port, status))
      ensures forall x :: x in entries <==> x == Entry(host, port, status) || (x in old(entries) && x.host != host)
      ensures |entries| == if HasHost(old(entries), host) then |old(entries)| else |old(entries)| + 1
    {
      var e := Entry(host, port, status);
      ghost var before := entries;
      entries := RemoveFirst(entries, host);
      entries := entries + [e];
      entries := SortEntries(entries);
      UpsertSpec(before, e);
    }

    /** getRowCount: one row per host the table has heard of. */
    function RowCount(): (n: nat)
      requires Valid()
      reads this
      ensures n == |Hosts(entries)|
    {
      SortedRowsAreHosts(entries);
      |entries|
    }

    /** getValueAt(row, col): column 0 is the host, 1 the port, 2 the status,
        any other column null; a row outside the table throws for columns 0-2. */
    function ValueAt(row: int, col: int): (r: Result<Cell>)
      reads this
      ensures col < 0 || col > 2 ==> r == Ok(NullCell)
      ensures 0 <= col <= 2 && !(0 <= row < |entries|) ==> r == Err(IndexOutOfBounds)
      ensures 0 <= row < |entries| && col == 0 ==> r == Ok(HostCell(entries[row].host))
      ensures 0 <= row < |entries| && col == 1 ==> r == Ok(PortCell(entries[row].port))
      ensures 0 <= row < |entries| && col == 2 ==> r == Ok(StatusCell(entries[row].status))
    {
      if col == 0 then
        if 0 <= row < |entries| then Ok(HostCell(entries[row].host)) else Err(IndexOutOfBounds)
      else if col == 1 then
        if 0 <= row < |entries| then Ok(PortCell(entries[row].port)) else Err(IndexOutOfBounds)
      else if col == 2 then
        if 0 <= row < |entries| then Ok(StatusCell(entries[row].status)) else Err(IndexOutOfBounds)
      else Ok(NullCell)
    }
  }

  // ---------------------------------------------------------------------------
  // Inbound messages (processMessage)

  /** What processMessage makes of the tokens of one line. */
  datatype Inbound =
    | StateUpdate(entry: Entry)   // STATE host port status: the table is updated
    | Unknown                     // reported as an unknown message and dropped
    | Rejected(fault: Fault)      // an exception escapes before the table is touched

  /** processMessage's decision. args[0] is read before the length is
      checked, so an empty token array throws; a port that Integer.parseInt
      refuses throws before set is called. */
  function Decode(args: seq<string>): (m: Inbound)
    ensures m.StateUpdate? <==> |args| == 4 && args[0] == "STATE" && JavaParseInt(args[2]).Some?
    ensures m.StateUpdate? ==> m.entry == Entry(args[1], JavaParseInt(args[2]).value, args[3])
    ensures m.Unknown? <==> |args| >= 1 && (args[0] != "STATE" || |args| != 4)
    ensures m.Rejected? ==> m.fault == (if |args| == 0 then IndexOutOfBounds else NumberFormat)
  {
    if |args| == 0 then Rejected(IndexOutOfBounds)
    else if args[0] != "STATE" || |args| != 4 then Unknown
    else
      match JavaParseInt(args[2])
      case None => Rejected(NumberFormat)
      case Some(p) => StateUpdate(Entry(args[1], p, args[3]))
  }

  /** The table after one decoded message. */
  function Apply(s: seq<Entry>, m: Inbound): seq<Entry> {
    if m.StateUpdate? then Upsert(s, m.entry) else s
  }

  /** The line a server would send to report an entry. */
  function StateLine(e: Entry): string {
    Join(["STATE", e.host, IntToDecimal(e.port), e.status], ' ')
  }

  /** Host and status names that survive the whitespace split. */
  predicate IsToken(s: string) {
    s != [] && NoSpace(s)
  }

  /** A well-formed STATE line is decoded back into the entry it reports. */
  lemma DecodeStateLine(e: Entry)
    requires IsToken(e.host) && IsToken(e.status)
    requires MinInt32 <= e.port <= MaxInt32
    ensures Decode(JavaSplit(StateLine(e))) == StateUpdate(e)
  {
    var ts := ["STATE", e.host, IntToDecimal(e.port), e.status];
    assert NoSpace(IntToDecimal(e.port)) by {
      var d := IntToDecimal(e.port);
      if e.port >= 0 {
        assert AllDigits(d);
      } else {
        assert d == "-" + NatToDecimal(-e.port);
        assert forall i :: 1 <= i < |d| ==> d[i] == NatToDecimal(-e.port)[i - 1];
      }
    }
    JavaSplitJoin(ts);
    JavaParseIntDecimal(e.port);
  }

  /** The table after the lines of the stream, processed in arrival order. */
  function ApplyLines(s: seq<Entry>, lines: seq<string>): seq<Entry>
    decreases |lines|
  {
    if lines == [] then s
    else ApplyLines(Apply(s, Decode(JavaSplit(lines[0]))), lines[1..])
  }

  /** The entries a stream of lines carries, in order. */
  function Updates(lines: seq<string>): seq<Entry> {
    if lines == [] then []
    else
      var m := Decode(JavaSplit(lines[0]));
      (if m.StateUpdate? then [m.entry] else []) + Updates(lines[1..])
  }

  /** The last of the entries for host h, if there is one. */
  function LastFor(us: seq<Entry>, h: string): Option<Entry> {
    if us == [] then None
    else
      match LastFor(us[1..], h)
      case Some(x) => Some(x)
      case None => if us[0].host == h then Some(us[0]) else None
  }

  /** After any stream of lines the table is sorted with one row per host,
      and the row for a host is the last update that named it; hosts no
      line named keep their rows. Nothing is ever deleted. */
  lemma {:induction false} ApplyLinesSpec(s: seq<Entry>, lines: seq<string>)
    requires Sorted(s)
    ensures Sorted(ApplyLines(s, lines))
    ensures forall x :: x in ApplyLines(s, lines) <==>
      match LastFor(Updates(lines), x.host)
      case Some(y) => x == y
      case None => x in s
    decreases |lines|
  {
    if lines != [] {
      var m := Decode(JavaSplit(lines[0]));
      var s' := Apply(s, m);
      var us := Updates(lines);
      var rest := Updates(lines[1..]);
      if m.StateUpdate? {
        UpsertSpec(s, m.entry);
        assert us == [m.entry] + rest;
        assert us[1..] == rest;
      } else {
        assert us == rest;
      }
      ApplyLinesSpec(s', lines[1..]);
    }
  }

  // ---------------------------------------------------------------------------
  // Outbound commands (stop, start, kill)

  datatype Verb = CStop | CStart | CKill

  function VerbName(v: Verb): string {
    match v
    case CStop => "CSTOP"
    case CStart => "CSTART"
    case CKill => "CKILL"
  }

  /** out.format("CSTOP %s\n", host) and its two siblings. */
  function CommandLine(v: Verb, host: string): string {
    VerbName(v) + " " + host + "\n"
  }

  /** One command line per host, in order. */
  function CommandText(v: Verb, hosts: seq<string>): string {
    if hosts == [] then [] else CommandLine(v, hosts[0]) + CommandText(v, hosts[1..])
  }

  /** Whether a row index names a row of the table. */
  predicate ValidRow(s: seq<Entry>, row: int) {
    0 <= row < |s|
  }

  /** The hosts of the selected rows up to the first index outside the table,
      where getValueAt throws and the loop stops. */
  function ResolveRows(s: seq<Entry>, rows: seq<int>): (hosts: seq<string>)
    ensures |hosts| <= |rows|
  {
    if rows == [] || !ValidRow(s, rows[0]) then []
    else [s[rows[0]].host] + ResolveRows(s, rows[1..])
  }

  /** The resolved hosts are those of the leading valid rows, and the row
      after them, if any, is the one outside the table. */
  lemma {:induction false} ResolveRowsSpec(s: seq<Entry>, rows: seq<int>)
    ensures var hosts := ResolveRows(s, rows);
      (forall k :: 0 <= k < |hosts| ==> ValidRow(s, rows[k]) && hosts[k] == s[rows[k]].host) &&
      (|hosts| < |rows| ==> !ValidRow(s, rows[|hosts|]))
  {
    if rows != [] && ValidRow(s, rows[0]) {
      ResolveRowsSpec(s, rows[1..]);
    }
  }

  lemma CommandTextAppend(v: Verb, hosts: seq<string>, h: string)
    ensures CommandText(v, hosts + [h]) == CommandText(v, hosts) + CommandLine(v, h)
  {
    if hosts != [] {
      assert (hosts + [h])[1..] == hosts[1..] + [h];
      CommandTextAppend(v, hosts[1..], h);
    } else {
      assert hosts + [h] == [h];
    }
  }

  lemma ResolveRowsPrefix(s: seq<Entry>, rows: seq<int>, i: nat)
    requires i < |rows|
    requires forall k :: 0 <= k < i ==> ValidRow(s, rows[k])
    requires ValidRow(s, rows[i])
    ensures ResolveRows(s, rows[..i + 1]) == ResolveRows(s, rows[..i]) + [s[rows[i]].host]
  {
    if i > 0 {
      assert rows[..i + 1][1..] == rows[1..][..i];
      assert rows[..i][1..] == rows[1..][..i - 1];
      ResolveRowsPrefix(s, rows[1..], i - 1);
    }
  }

  /** The client: the table, and all the text written to the server. */
  class Client {
    const model: TableModel
    var out: string

    /** The GUI constructor's protocol part: the handshake is the first and
        only line sent on connecting. */
    constructor ()
      ensures fresh(model) && model.Valid() && model.entries == []
      ensures out == "CHELLO\n"
    {
      model := new TableModel();
      out := "CHELLO\n";
    }

    /** processMessage(args). */
    method ProcessMessage(args: seq<string>) returns (r: Outcome)
      requires model.Valid()
      modifies model
      ensures model.Valid()
      ensures model.entries == Apply(old(model.entries), Decode(args))
      ensures r == if Decode(args).Rejected? then Failed(Decode(args).fault) else Done
    {
      var m := Decode(args);
      match m
      case StateUpdate(e) =>
        model.Set(e.host, e.port, e.status);
        r := Done;
      case Unknown =>
        r := Done;
      case Rejected(f) =>
        r := Failed(f);
    }

    /** One line read from the socket, split on whitespace and handed to
        processMessage. */
    method ReceiveLine(line: string) returns (r: Outcome)
      requires model.Valid()
      modifies model
      ensures model.Valid()
      ensures model.entries == Apply(old(model.entries), Decode(JavaSplit(line)))
      ensures r == if Decode(JavaSplit(line)).Rejected? then Failed(Decode(JavaSplit(line)).fault) else Done
    {
      r := ProcessMessage(JavaSplit(line));
    }

    /** The loop shared by stop, start and kill: one command line per
        selected row, host taken from column 0, in the order of the rows. */
    method SendCommand(v: Verb, rows: seq<int>) returns (r: Outcome)
      modifies this
      ensures out == old(out) + CommandText(v, ResolveRows(model.entries, rows))
      ensures r == Done <==> forall k :: 0 <= k < |rows| ==> ValidRow(model.entries, rows[k])
      ensures r != Done ==> r == Failed(IndexOutOfBounds)
    {
      var s := model.entries;
      var i := 0;
      while i < |rows|
        invariant 0 <= i <= |rows|
        invariant forall k :: 0 <= k < i ==> ValidRow(s, rows[k])
        invariant out == old(out) + CommandText(v, ResolveRows(s, rows[..i]))
      {
        var cell := model.ValueAt(rows[i], 0);
        if cell.Err? {
          ResolveRowsStop(s, rows, i);
          return Failed(cell.fault);
        }
        var host := s[rows[i]].host;
        ResolveRowsPrefix(s, rows, i);
        CommandTextAppend(v, ResolveRows(s, rows[..i]), host);
        out := out + CommandLine(v, host);
        i := i + 1;
      }
      assert rows[..i] == rows;
      r := Done;
    }

    /** stop(): CSTOP for every selected row. */
    method Stop(rows: seq<int>) returns (r: Outcome)
      modifies this
      ensures out == old(out) + CommandText(CStop, ResolveRows(model.entries, rows))
      ensures r == Done <==> forall k :: 0 <= k < |rows| ==> ValidRow(model.entries, rows[k])
    {
      r := SendCommand(CStop, rows);
    }

    /** start(): CSTART for every selected row. */
    method Start(rows: seq<int>) returns (r: Outcome)
      modifies this
      ensures out == old(out) + CommandText(CStart, ResolveRows(model.entries, rows))
      ensures r == Done <==> forall k :: 0 <= k < |rows| ==> ValidRow(model.entries, rows[k])
    {
      r := SendCommand(CStart, rows);
    }

    /** kill(): CKILL for every selected row. */
    method Kill(rows: seq<int>) returns (r: Outcome)
      modifies this
      ensures out == old(out) + CommandText(CKill, ResolveRows(model.entries, rows))
      ensures r == Done <==> forall k :: 0 <= k < |rows| ==> ValidRow(model.entries, rows[k])
    {
      r := SendCommand(CKill, rows);
    }
  }

  lemma ResolveRowsStop(s: seq<Entry>, rows: seq<int>, i: nat)
    requires i < |rows|
    requires forall k :: 0 <= k < i ==> ValidRow(s, rows[k])
    requires !ValidRow(s, rows[i])
    ensures ResolveRows(s, rows) == ResolveRows(s, rows[..i])
  {
    if i > 0 {
      assert rows[..i][1..] == rows[1..][..i - 1];
      ResolveRowsStop(s, rows[1..], i - 1);
    }
  }

  lemma ExampleLast(a1: Entry, b2: Entry, a3: Entry, h: string)
    requires a1.host == a3.host != b2.host
    ensures LastFor([a1, b2, a3], h) == if h == a3.host then Some(a3) else if h == b2.host then Some(b2) else None
  {
    assert [a1, b2, a3][1..] == [b2, a3];
    assert [b2, a3][1..] == [a3];
    assert [a3][1..] == [];
    assert LastFor([a3], h) == if h == a3.host then Some(a3) else None;
    assert LastFor([b2, a3], h) == if h == a3.host then Some(a3) else if h == b2.host then Some(b2) else None;
  }

  /** The three STATE lines carry their three entries, in order. */
  lemma ExampleUpdates(a1: Entry, b2: Entry, a3: Entry)
    requires IsToken(a1.host) && IsToken(a1.status) && MinInt32 <= a1.port <= MaxInt32
    requires IsToken(b2.host) && IsToken(b2.status) && MinInt32 <= b2.port <= MaxInt32
    requires IsToken(a3.host) && IsToken(a3.status) && MinInt32 <= a3.port <= MaxInt32
    ensures Updates([StateLine(a1), StateLine(b2), StateLine(a3)]) == [a1, b2, a3]
  {
    var lines := [StateLine(a1), StateLine(b2), StateLine(a3)];
    DecodeStateLine(a1);
    DecodeStateLine(b2);
    DecodeStateLine(a3);
    assert lines[1..][1..] == [lines[2]];
    assert Updates([lines[2]]) == [a3];
    assert Updates(lines[1..]) == [b2, a3];
  }

  /** A sorted table holding exactly the last update of each host, after the
      updates a1, b2, a3 with a3 replacing a1, is [a3, b2]. */
  lemma ExampleTable(r: seq<Entry>, a1: Entry, b2: Entry, a3: Entry)
    requires a1.host == a3.host && Before(a3.host, b2.host)
    requires Sorted(r)
    requires forall x :: x in r <==>
      match LastFor([a1, b2, a3], x.host)
      case Some(y) => x == y
      case None => false
    ensures r == [a3, b2]
  {
    BeforeIrreflexive(a3.host);
    forall h ensures LastFor([a1, b2, a3], h) == if h == a3.host then Some(a3) else if h == b2.host then Some(b2) else None {
      ExampleLast(a1, b2, a3, h);
    }
    var want := [a3, b2];
    assert Sorted(want);
    SortedUnique(r, want);
  }

  /** The session of three updates, for any two hosts a before b: after
      STATE a p UP, STATE b q UP and STATE a p DOWN (whatever the status
      words are) the table lists a with its latest status, then b; one row
      each. */
  lemma ExampleSession(ha: string, hb: string, pa: int, pb: int, s1: string, s2: string, s3: string)
    requires IsToken(ha) && IsToken(hb) && IsToken(s1) && IsToken(s2) && IsToken(s3)
    requires Before(ha, hb)
    requires MinInt32 <= pa <= MaxInt32 && MinInt32 <= pb <= MaxInt32
    ensures ApplyLines([], [StateLine(Entry(ha, pa, s1)), StateLine(Entry(hb, pb, s2)), StateLine(Entry(ha, pa, s3))])
         == [Entry(ha, pa, s3), Entry(hb, pb, s2)]
  {
    var a1, b2, a3 := Entry(ha, pa, s1), Entry(hb, pb, s2), Entry(ha, pa, s3);
    var lines := [StateLine(a1), StateLine(b2), StateLine(a3)];
    ExampleUpdates(a1, b2, a3);
    ApplyLinesSpec([], lines);
    ExampleTable(ApplyLines([], lines), a1, b2, a3);
  }
}
