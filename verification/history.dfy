/** Properties of runs of connections through main's accept loop
    (server/aesdsocket.c): what the log holds after them and what the
    replies contain. */
module History {
  import opened Framing
  import opened Sending
  import opened Server
  import opened Seqs

  /** Number of connections in `cs` whose packet completed. */
  function CompletedCount(cs: seq<Connection>): nat
  {
    if cs == [] then 0
    else CompletedCount(cs[..|cs| - 1]) + (if Completes(cs[|cs| - 1]) then 1 else 0)
  }

  /** The log only grows: what earlier connections left is a prefix of what
      later ones leave. */
  lemma {:induction false} AppendedAllPrefix(cs: seq<Connection>, j: nat, k: nat)
    requires j <= k <= |cs|
    ensures AppendedAll(cs[..j]) <= AppendedAll(cs[..k])
  {
    if j < k {
      AppendedAllPrefix(cs, j, k - 1);
      AppendedAllStep(cs, k);
      PrefixExtend(AppendedAll(cs[..j]), AppendedAll(cs[..k - 1]), Appended(cs[k - 1]));
    }
  }

  /** The log after the first k connections extends the log after the first k - 1. */
  lemma AppendedAllStep(cs: seq<Connection>, k: nat)
    requires 0 < k <= |cs|
    ensures AppendedAll(cs[..k]) == AppendedAll(cs[..k - 1]) + Appended(cs[k - 1])
  {
    assert cs[..k][..k - 1] == cs[..k - 1];
  }

  /** Each completed connection leaves exactly one newline in the log and every
      other connection leaves none, so the log holds one line per completed
      packet (plus any unterminated bytes of packets that did not complete). */
  lemma {:induction false} NewlinesCountCompleted(cs: seq<Connection>)
    ensures CountNewlines(AppendedAll(cs)) == CompletedCount(cs)
  {
    if cs != [] {
      var init, c := cs[..|cs| - 1], cs[|cs| - 1];
      NewlinesCountCompleted(init);
      CountNewlinesAppend(AppendedAll(init), Appended(c));
      ReceivedPacketIsOneLine(c.chunks);
      if !(c.accepted && c.logOpens) {
        assert Appended(c) == [];
      }
    }
  }

  /** The packet of a connection that completed is one line. */
  lemma PacketIsOneLine(c: Connection)
    requires Completes(c)
    ensures |Appended(c)| > 0 && Appended(c)[|Appended(c)| - 1] == NEWLINE
    ensures CountNewlines(Appended(c)) == 1
  {
    ReceivedPacketIsOneLine(c.chunks);
  }

  /** A reply that succeeds carries the whole log as it stood before the
      connection, followed by that connection's packet, which ends with its
      only newline. */
  lemma ReplyCarriesPacket(c: Connection, before: seq<byte>, sent: seq<byte>)
    requires FateOf(c, before, Replied(0, sent))
    ensures Completes(c)
    ensures sent == before + Appended(c)
    ensures before < sent && sent[|sent| - 1] == NEWLINE
    ensures CountNewlines(sent) == CountNewlines(before) + 1
  {
    assert Completes(c) && Delivered(before + Appended(c), c.fileOpens && c.statOk, 0, sent);
    var p := Appended(c);
    assert sent == before + p;
    PacketIsOneLine(c);
    CountNewlinesAppend(before, p);
    LastOfAppend(before, p);
    ProperPrefixOfAppend(before, p);
  }

  /** Successful replies of a run only grow: a later reply begins with the
      whole of an earlier one. */
  lemma RepliesGrow(conns: seq<Connection>, start: seq<byte>, fates: seq<Fate>, j: nat, k: nat)
    requires j < k < |fates| <= |conns|
    requires FateOf(conns[j], start + AppendedAll(conns[..j]), fates[j])
    requires FateOf(conns[k], start + AppendedAll(conns[..k]), fates[k])
    requires fates[j].Replied? && fates[j].status == 0
    requires fates[k].Replied? && fates[k].status == 0
    ensures fates[j].sent <= fates[k].sent
  {
    var sj, sk := fates[j].sent, fates[k].sent;
    ReplyCarriesPacket(conns[j], start + AppendedAll(conns[..j]), sj);
    ReplyCarriesPacket(conns[k], start + AppendedAll(conns[..k]), sk);
    LogPrefixes(conns, start, j, k);
  }

  /** The log right after connection j is a prefix of the log right after any
      later connection k. */
  lemma LogPrefixes(conns: seq<Connection>, start: seq<byte>, j: nat, k: nat)
    requires j < k < |conns|
    ensures start + AppendedAll(conns[..j]) + Appended(conns[j])
         <= start + AppendedAll(conns[..k]) + Appended(conns[k])
  {
    AppendedAllStep(conns, j + 1);
    AppendAssoc(start, AppendedAll(conns[..j]), Appended(conns[j]));
    AppendedAllPrefix(conns, j + 1, k);
    PrefixFront(start, AppendedAll(conns[..j + 1]), AppendedAll(conns[..k]));
    PrefixExtend(start + AppendedAll(conns[..j + 1]), start + AppendedAll(conns[..k]), Appended(conns[k]));
  }

  const HELLO: seq<byte> := [104, 101, 108, 108, 111, 10]  // "hello\n"
  const WORLD: seq<byte> := [119, 111, 114, 108, 100, 10]  // "world\n"
  const ABC: seq<byte> := [97, 98, 99]                      // "abc"

  /** Three clients in turn send "hello\n", "world\n" and "abc" (the last
      one's connection then fails). The first successful reply is "hello\n",
      the second "hello\nworld\n"; the third client gets no reply, yet its
      bytes stay in the log, since each chunk is written before the packet is
      known to complete. */
  lemma ThreeClients()
    ensures Receive([Data(HELLO)]) == Receipt(HELLO, Complete)
    ensures Receive([Data(WORLD)]) == Receipt(WORLD, Complete)
    ensures Receive([Data(ABC), RecvError]) == Receipt(ABC, Failed)
    ensures AppendedAll([Connection(true, true, [Data(HELLO)], true, true),
                         Connection(true, true, [Data(WORLD)], true, true),
                         Connection(true, true, [Data(ABC), RecvError], true, true)])
      == HELLO + WORLD + ABC
  {
    OneLine(HELLO);
    OneLine(WORLD);
    AbcThenError();
    AppendedAllThree(Connection(true, true, [Data(HELLO)], true, true),
                     Connection(true, true, [Data(WORLD)], true, true),
                     Connection(true, true, [Data(ABC), RecvError], true, true));
  }

  /** The replies of the three-client run: "hello\n" to the first client,
      "hello\nworld\n" to the second, none to the third. */
  lemma ThreeClientsReplies(f1: Fate, f2: Fate, f3: Fate)
    requires FateOf(Connection(true, true, [Data(HELLO)], true, true), [], f1)
    requires FateOf(Connection(true, true, [Data(WORLD)], true, true), HELLO, f2)
    requires FateOf(Connection(true, true, [Data(ABC), RecvError], true, true), HELLO + WORLD, f3)
    ensures f1.Replied? && (f1.status == 0 <==> f1.sent == HELLO)
    ensures f2.Replied? && (f2.status == 0 <==> f2.sent == HELLO + WORLD)
    ensures f3 == Dropped
  {
    ThreeClients();
    assert [] + HELLO == HELLO;
  }

  /** The log left by three connections, written out. */
  lemma AppendedAllThree(c1: Connection, c2: Connection, c3: Connection)
    ensures AppendedAll([c1, c2, c3]) == Appended(c1) + Appended(c2) + Appended(c3)
  {
    assert [c1, c2, c3][..2] == [c1, c2];
    assert [c1, c2][..1] == [c1];
    assert [c1][..0] == [];
    assert AppendedAll([c1]) == [] + Appended(c1) == Appended(c1);
  }

  /** "abc" followed by a receive error: written, then the packet fails. */
  lemma AbcThenError()
    ensures Receive([Data(ABC), RecvError]) == Receipt(ABC, Failed)
  {
    assert NEWLINE !in ABC;
    assert [Data(ABC), RecvError][1..] == [RecvError];
  }

  /** A single chunk holding one line is appended whole and completes the packet. */
  lemma OneLine(p: Chunk)
    requires |p| > 0 && p[|p| - 1] == NEWLINE && NEWLINE !in p[..|p| - 1]
    ensures Receive([Data(p)]) == Receipt(p, Complete)
  {
    assert p[..|p|] == p;
  }

  /** A client that sends "abc" and then closes its end: recv keeps returning
      0 bytes, so the receive loop never ends, however many such receives
      there are, and "abc" is already in the log. */
  lemma PeerCloseStalls(n: nat)
    ensures Stalls(Connection(true, true, [Data(ABC)] + EmptyChunks(n), true, true))
    ensures Appended(Connection(true, true, [Data(ABC)] + EmptyChunks(n), true, true)) == ABC
  {
    assert NEWLINE !in ABC;
    assert Receive([Data(ABC)]) == Receipt(ABC, Pending);
    ReceiveContinues([Data(ABC)], EmptyChunks(n));
    EmptyChunksPend(n);
  }
}
