/** The log file and the sequential connection handling of aesdsocket
    (server/aesdsocket.c): recv_packet appends one framed packet to the log,
    and main's accept loop replies with the whole log after each completed one. */
module Server {
  import opened Framing
  import opened Sending
  import opened Seqs

  /** The log file /var/tmp/aesdsocketdata, as the bytes it holds. */
  class LogStore {
    var data: seq<byte>

    constructor (initial: seq<byte>)
      ensures data == initial
    {
      data := initial;
    }

    /** An fwrite to the file opened for appending. */
    method Append(bytes: seq<byte>)
      modifies this
      ensures data == old(data) + bytes
    {
      data := data + bytes;
    }
  }

  /** The scan of one received chunk for its first newline, and the number of
      bytes of it that are then written: through the newline when there is one,
      the whole chunk otherwise. `complete` is the packet_complete flag. */
  method ScanChunk(buf: Chunk) returns (count: nat, complete: bool)
    ensures complete <==> NEWLINE in buf
    ensures complete ==> 0 < count <= |buf| && buf[count - 1] == NEWLINE && NEWLINE !in buf[..count - 1]
    ensures !complete ==> count == |buf|
    ensures buf[..count] == Kept(buf)
  {
    var i := 0;
    complete := false;
    while i < |buf|
      invariant 0 <= i <= |buf|
      invariant NEWLINE !in buf[..i]
    {
      if buf[i] == NEWLINE {
        complete := true;
        break;
      }
      i := i + 1;
    }
    if i != |buf| {
      i := i + 1;
    }
    count := i;
  }

  /** recv_packet: open the log for appending (`opens` is whether fopen
      succeeded), then receive chunks, writing each one's kept bytes to the log
      as it arrives, until a chunk holds a newline or recv fails. */
  method RecvPacket(log: LogStore, opens: bool, rs: seq<RecvResult>) returns (outcome: Outcome)
    modifies log
    ensures !opens ==> outcome == Failed && log.data == old(log.data)
    ensures opens ==> outcome == Receive(rs).outcome && log.data == old(log.data) + Receive(rs).appended
  {
    if !opens {
      return Failed;
    }
    var k := 0;
    var complete := false;
    while !complete
      invariant 0 <= k <= |rs|
      invariant complete ==>
        Receive(rs).outcome == Complete && log.data == old(log.data) + Receive(rs).appended
      invariant !complete ==>
        Receive(rs[k..]).outcome == Receive(rs).outcome
        && log.data + Receive(rs[k..]).appended == old(log.data) + Receive(rs).appended
      decreases |rs| - k
    {
      if k == |rs| {
        // The receive results are used up while the loop is still receiving.
        assert rs[k..] == [];
        return Pending;
      }
      var r := rs[k];
      assert rs[k..][0] == r && rs[k..][1..] == rs[k + 1..];
      k := k + 1;
      if r.RecvError? {
        return Failed;
      }
      var n, nl := ScanChunk(r.bytes);
      complete := nl;
      ghost var before := log.data;
      log.Append(r.bytes[..n]);
      if !nl {
        AppendAssoc(before, r.bytes, Receive(rs[k..]).appended);
      }
    }
    outcome := Complete;
  }

  /** One accepted (or refused) connection, as the inputs that decide what
      happens to it: whether accept succeeded, whether the log could be opened
      for appending, what the successive recv calls return, and whether open
      and fstat of the log succeed for the reply. */
  datatype Connection = Connection(
    accepted: bool, logOpens: bool, chunks: seq<RecvResult>, fileOpens: bool, statOk: bool)

  /** What became of one connection: accept failed; no reply because the
      packet did not complete; the receive loop is still running when the
      inputs end; or a reply with send_updated_file's status and the bytes the
      client received. */
  datatype Fate = NotAccepted | Dropped | Stalled | Replied(status: int, sent: seq<byte>)

  /** The connection's receive loop ran and returned 0. */
  predicate Completes(c: Connection)
  {
    c.accepted && c.logOpens && Receive(c.chunks).outcome == Complete
  }

  /** The connection's receive loop never returns on the given inputs. */
  predicate Stalls(c: Connection)
  {
    c.accepted && c.logOpens && Receive(c.chunks).outcome == Pending
  }

  /** The bytes a connection leaves in the log. */
  function Appended(c: Connection): seq<byte>
  {
    if c.accepted && c.logOpens then Receive(c.chunks).appended else []
  }

  /** The bytes a run of connections leaves in the log, in connection order. */
  function AppendedAll(cs: seq<Connection>): seq<byte>
  {
    if cs == [] then [] else AppendedAll(cs[..|cs| - 1]) + Appended(cs[|cs| - 1])
  }

  /** What may become of connection `c` when the log held `before` as it was
      accepted: a reply is attempted exactly when the packet completed, and it
      delivers (a prefix of) the log as it stands right after the packet was
      appended. */
  predicate FateOf(c: Connection, before: seq<byte>, f: Fate)
  {
    if !c.accepted then f == NotAccepted
    else if Stalls(c) then f == Stalled
    else if !Completes(c) then f == Dropped
    else f.Replied? && Delivered(before + Appended(c), c.fileOpens && c.statOk, f.status, f.sent)
  }

  /** One pass of main's accept loop: accept, receive a packet, and reply
      with the whole log when the packet completed. */
  method HandleConnection(log: LogStore, c: Connection) returns (fate: Fate)
    modifies log
    ensures FateOf(c, old(log.data), fate)
    ensures log.data == old(log.data) + Appended(c)
  {
    if !c.accepted {
      return NotAccepted;
    }
    var outcome := RecvPacket(log, c.logOpens, c.chunks);
    if outcome == Pending {
      fate := Stalled;
    } else if outcome == Failed {
      fate := Dropped;
    } else {
      var status, sent := SendUpdatedFile(log.data, c.fileOpens, c.statOk);
      fate := Replied(status, sent);
    }
  }

  /** Extending the fates of a run by the fate of the next connection. */
  lemma FatesExtend(conns: seq<Connection>, start: seq<byte>, fates: seq<Fate>, fate: Fate)
    requires |fates| < |conns|
    requires forall j :: 0 <= j < |fates| ==> FateOf(conns[j], start + AppendedAll(conns[..j]), fates[j])
    requires FateOf(conns[|fates|], start + AppendedAll(conns[..|fates|]), fate)
    ensures forall j :: 0 <= j < |fates| + 1 ==>
      FateOf(conns[j], start + AppendedAll(conns[..j]), (fates + [fate])[j])
  {
    forall j | 0 <= j < |fates| + 1
      ensures FateOf(conns[j], start + AppendedAll(conns[..j]), (fates + [fate])[j])
    {
      if j < |fates| {
        assert (fates + [fate])[j] == fates[j];
      }
    }
  }

  /** main's accept loop over a run of connections, one at a time. It ends
      when the connections run out or when one of them stalls in its receive
      loop (which main never leaves). */
  method Serve(log: LogStore, conns: seq<Connection>) returns (fates: seq<Fate>)
    modifies log
    ensures |fates| <= |conns|
    ensures |fates| < |conns| ==> |fates| > 0 && fates[|fates| - 1] == Stalled
    ensures forall k :: 0 <= k < |fates| - 1 ==> fates[k] != Stalled
    ensures forall k :: 0 <= k < |fates| ==>
      FateOf(conns[k], old(log.data) + AppendedAll(conns[..k]), fates[k])
    ensures log.data == old(log.data) + AppendedAll(conns[..|fates|])
  {
    fates := [];
    var k := 0;
    while k < |conns|
      invariant k == |fates| <= |conns|
      invariant forall j :: 0 <= j < k ==> fates[j] != Stalled
      invariant forall j :: 0 <= j < k ==>
        FateOf(conns[j], old(log.data) + AppendedAll(conns[..j]), fates[j])
      invariant log.data == old(log.data) + AppendedAll(conns[..k])
    {
      assert conns[..k + 1][..k] == conns[..k];
      AppendAssoc(old(log.data), AppendedAll(conns[..k]), Appended(conns[k]));
      ghost var before := log.data;
      var fate := HandleConnection(log, conns[k]);
      FatesExtend(conns, old(log.data), fates, fate);
      fates := fates + [fate];
      k := k + 1;
      if fate == Stalled {
        return;
      }
    }
  }
}
