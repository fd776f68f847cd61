/** The line protocol between the monitoring client (GUI.java) and the
    central daemon (daemon.py), read from both ends. The daemon writes the
    words of a message joined by spaces and followed by a newline
    (StreamSocket.write); the client reads a line without its newline and
    splits it on whitespace. The client writes "VERB host\n"; the daemon
    reads the first line and splits it on single spaces. */
module Protocol {
  import opened Outcomes
  import opened Strings
  import opened Framing
  import Daemon
  import HostTable

  /** The verb a client button sends, as the daemon names it. */
  function Request(v: HostTable.Verb, host: string): Daemon.Command {
    match v
    case CStop => Daemon.StopReq(host)
    case CStart => Daemon.StartReq(host)
    case CKill => Daemon.KillReq(host)
  }

  /** The daemon reports a peer as ['STATE', host, label], three words, but
      the client acts only on four-word STATE lines: every state report the
      daemon broadcasts is an unknown message to the client, whose table
      therefore never changes. */
  lemma StateReportIgnored(host: string, st: Daemon.State, table: seq<HostTable.Entry>)
    requires HostTable.IsToken(host)
    ensures HostTable.Decode(JavaSplit(Join(Daemon.StateWords(host, st), ' '))) == HostTable.Unknown
    ensures HostTable.Apply(table, HostTable.Decode(JavaSplit(Join(Daemon.StateWords(host, st), ' ')))) == table
  {
    var ws := Daemon.StateWords(host, st);
    assert NoSpace(ws[0]) && NoSpace(ws[2]) by {
      assert ws[0] == "STATE";
      assert ws[2] == Daemon.Label(st);
    }
    JavaSplitJoin(ws);
  }

  /** The handshake the client sends on connecting is read by the daemon as
      CHELLO, whatever follows it in the buffer. */
  lemma HandshakeUnderstood(tail: string)
    ensures LineLength("CHELLO\n" + tail) == 7
    ensures Daemon.Message("CHELLO\n" + tail) == Daemon.ClientHello
  {
    Daemon.MessageOfLine(Daemon.ClientHello, tail);
    assert Join(["CHELLO"], ' ') + "\n" == "CHELLO\n";
  }

  /** A stop, start or kill line the client writes for a host from its
      table reaches the daemon as the request of the same kind for the same
      host, and consumes exactly that line. */
  lemma CommandUnderstood(v: HostTable.Verb, host: string, tail: string)
    requires NoSpace(host)
    ensures LineLength(HostTable.CommandLine(v, host) + tail) == |HostTable.CommandLine(v, host)|
    ensures Daemon.Message(HostTable.CommandLine(v, host) + tail) == Request(v, host)
  {
    var c := Request(v, host);
    var ws := Daemon.EncodeCommand(c);
    assert ws == [HostTable.VerbName(v), host];
    assert ' ' !in host && '\n' !in host by {
      assert IsSpace(' ') && IsSpace('\n');
    }
    assert ' ' !in ws[0] && '\n' !in ws[0];
    Daemon.MessageOfLine(c, tail);
    assert Join(ws, ' ') + "\n" == HostTable.CommandLine(v, host) by {
      assert ws[1..] == [host];
    }
  }
}
