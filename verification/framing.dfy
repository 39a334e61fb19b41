/** Bytes, receive results and the newline framing rule that recv_packet applies
    to the chunks a connection delivers (server/aesdsocket.c). */
module Framing {
  import opened Seqs

  /** One octet of socket or file data. */
  newtype byte = b: int | 0 <= b < 256

  /** The packet terminator, '\n'. */
  const NEWLINE: byte := 10

  /** Size of recv_packet's stack buffer: one recv call delivers at most this many bytes. */
  const BUF_SIZE: nat := 1024

  /** The bytes one successful recv call places in the buffer. */
  type Chunk = s: seq<byte> | |s| <= BUF_SIZE witness []

  /** What one recv call returns: -1, or a chunk (of length 0 when the peer has closed). */
  datatype RecvResult = RecvError | Data(bytes: Chunk)

  /** How recv_packet's loop ends: Complete is a return of 0, Failed a return of -1,
      and Pending means the given receive results ran out while the loop was still
      waiting for more (the real loop then goes on calling recv). */
  datatype Outcome = Complete | Failed | Pending

  /** The bytes a run of the receive loop writes to the log, and how it ends. */
  datatype Receipt = Receipt(appended: seq<byte>, outcome: Outcome)

  /** Number of newline bytes in `s`. */
  function CountNewlines(s: seq<byte>): (n: nat)
    ensures n <= |s|
    ensures n == 0 <==> NEWLINE !in s
  {
    if s == [] then 0
    else (if s[0] == NEWLINE then 1 else 0) + CountNewlines(s[1..])
  }

  /** Newline counts add up over concatenation. */
  lemma {:induction false} CountNewlinesAppend(a: seq<byte>, b: seq<byte>)
    ensures CountNewlines(a + b) == CountNewlines(a) + CountNewlines(b)
  {
    if a == [] {
      assert a + b == b;
    } else {
      assert (a + b)[1..] == a[1..] + b;
      CountNewlinesAppend(a[1..], b);
    }
  }

  /** Index of the first newline in `s`, or |s| when there is none: where the
      scan of one chunk stops. */
  function FirstNewline(s: seq<byte>): (i: nat)
    ensures i <= |s|
    ensures forall j :: 0 <= j < i ==> s[j] != NEWLINE
    ensures i < |s| <==> NEWLINE in s
    ensures i < |s| ==> s[i] == NEWLINE
  {
    if s == [] then 0
    else if s[0] == NEWLINE then 0
    else 1 + FirstNewline(s[1..])
  }

  /** The part of one chunk that is written to the log: up to and including its
      first newline, or the whole chunk when it holds none. */
  function Kept(c: seq<byte>): (r: seq<byte>)
    ensures r <= c
    ensures NEWLINE in c ==> |r| > 0 && r[|r| - 1] == NEWLINE && CountNewlines(r) == 1
    ensures NEWLINE !in c ==> r == c
  {
    if NEWLINE in c then
      var i := FirstNewline(c);
      assert c[..i + 1] == c[..i] + [NEWLINE];
      CountNewlinesAppend(c[..i], [NEWLINE]);
      c[..i + 1]
    else c
  }

  /** The kept part is the shortest prefix of the chunk that holds a newline:
      every byte after the first newline of a chunk is dropped. */
  lemma KeptIsShortestTerminatedPrefix(c: seq<byte>, p: seq<byte>)
    requires p <= c && NEWLINE in p
    ensures Kept(c) <= p
  {
    var i := FirstNewline(c);
    var j :| 0 <= j < |p| && p[j] == NEWLINE;
    assert c[j] == NEWLINE;
    assert i <= j;
  }

  /** The bytes a receive result carries (none for an error). */
  function Payload(r: RecvResult): seq<byte>
  {
    match r
    case RecvError => []
    case Data(c) => c
  }

  /** Every byte carried by a run of receive results, in order. */
  function Flatten(rs: seq<RecvResult>): seq<byte>
  {
    if rs == [] then [] else Payload(rs[0]) + Flatten(rs[1..])
  }

  /** The receive loop of recv_packet over the results of successive recv calls:
      newline-free chunks are written whole and receiving continues, the first
      chunk holding a newline is written up to that newline and ends the loop,
      and an error ends it with what was already written left in place. */
  function Receive(rs: seq<RecvResult>): (r: Receipt)
    ensures r.appended <= Flatten(rs)
  {
    if rs == [] then Receipt([], Pending)
    else match rs[0]
      case RecvError => Receipt([], Failed)
      case Data(c) =>
        assert Flatten(rs) == c + Flatten(rs[1..]);
        if NEWLINE in c then
          PrefixExtend(Kept(c), c, Flatten(rs[1..]));
          Receipt(Kept(c), Complete)
        else
          var rest := Receive(rs[1..]);
          PrefixFront(c, rest.appended, Flatten(rs[1..]));
          Receipt(c + rest.appended, rest.outcome)
  }

  /** A newline-free chunk is appended whole and receiving goes on. */
  lemma ReceiveNewlineFree(rs: seq<RecvResult>)
    requires rs != [] && rs[0].Data? && NEWLINE !in rs[0].bytes
    ensures Receive(rs) == Receipt(rs[0].bytes + Receive(rs[1..]).appended, Receive(rs[1..]).outcome)
  {
  }

  /** Newline-free chunks received before any further results are appended
      whole, in order, and receiving goes on: the further results alone decide
      what follows them in the log and how the loop ends. */
  lemma {:induction false} NewlineFreeChunksAppendWhole(pre: seq<RecvResult>, rs: seq<RecvResult>)
    requires forall j :: 0 <= j < |pre| ==> pre[j].Data? && NEWLINE !in pre[j].bytes
    ensures Receive(pre + rs) == Receipt(Flatten(pre) + Receive(rs).appended, Receive(rs).outcome)
  {
    if pre == [] {
      assert pre + rs == rs;
    } else {
      var c := pre[0].bytes;
      DropFirstOfAppend(pre, rs);
      NewlineFreeChunksAppendWhole(pre[1..], rs);
      ReceiveNewlineFree(pre + rs);
      AppendAssoc(c, Flatten(pre[1..]), Receive(rs).appended);
    }
  }

  /** A completed packet ends with its one and only newline; a packet that did
      not complete holds no newline. */
  lemma {:induction false} ReceivedPacketIsOneLine(rs: seq<RecvResult>)
    ensures var r := Receive(rs);
      && (r.outcome == Complete ==>
            |r.appended| > 0 && r.appended[|r.appended| - 1] == NEWLINE && CountNewlines(r.appended) == 1)
      && (r.outcome != Complete ==> NEWLINE !in r.appended)
  {
    if rs != [] && rs[0].Data? && NEWLINE !in rs[0].bytes {
      var c, rest := rs[0].bytes, Receive(rs[1..]);
      ReceivedPacketIsOneLine(rs[1..]);
      ReceiveNewlineFree(rs);
      CountNewlinesAppend(c, rest.appended);
      if rest.outcome == Complete {
        LastOfAppend(c, rest.appended);
      }
    }
  }

  /** Index of the recv call that ends the loop: the first error or the first
      chunk holding a newline, or |rs| when there is none. */
  function Stop(rs: seq<RecvResult>): (k: nat)
    ensures k <= |rs|
    ensures forall j :: 0 <= j < k ==> rs[j].Data? && NEWLINE !in rs[j].bytes
    ensures k < |rs| ==> rs[k].RecvError? || NEWLINE in rs[k].bytes
  {
    if rs == [] then 0
    else if rs[0].RecvError? || NEWLINE in rs[0].bytes then 0
    else 1 + Stop(rs[1..])
  }

  /** How the receive loop ends, in closed form: it is still receiving when no
      call stopped it, and otherwise it fails or succeeds according to whether
      the stopping call was an error or delivered data. */
  lemma {:induction false} ReceiveOutcomeAtStop(rs: seq<RecvResult>)
    ensures var k := Stop(rs);
      Receive(rs).outcome
        == (if k == |rs| then Pending else if rs[k].RecvError? then Failed else Complete)
  {
    if rs != [] && Stop(rs) > 0 {
      ReceiveOutcomeAtStop(rs[1..]);
      ReceiveNewlineFree(rs);
    }
  }

  /** What the receive loop appends, in closed form: every chunk before the
      stopping call, followed by the kept part of the stopping chunk when that
      call delivered data. */
  lemma {:induction false} ReceiveAppendedUpToStop(rs: seq<RecvResult>)
    ensures var k := Stop(rs);
      Receive(rs).appended
        == Flatten(rs[..k]) + (if k < |rs| && rs[k].Data? then Kept(rs[k].bytes) else [])
  {
    var k := Stop(rs);
    if rs == [] {
    } else if k == 0 {
      assert rs[..0] == [];
    } else {
      var c, rest := rs[0].bytes, rs[1..];
      var tail := if k < |rs| && rs[k].Data? then Kept(rs[k].bytes) else [];
      assert Receive(rest).appended == Flatten(rs[1..k]) + tail by {
        ReceiveAppendedUpToStop(rest);
        assert Stop(rest) == k - 1;
        assert rest[..k - 1] == rs[1..k];
        assert k - 1 < |rest| ==> rest[k - 1] == rs[k];
      }
      assert Receive(rs).appended == c + Receive(rest).appended by {
        ReceiveNewlineFree(rs);
      }
      assert Flatten(rs[..k]) == c + Flatten(rs[1..k]) by {
        FlattenFront(rs, k);
      }
      AppendAssoc(c, Flatten(rs[1..k]), tail);
    }
  }

  /** Flattening a non-empty prefix of results peels off the first payload. */
  lemma FlattenFront(rs: seq<RecvResult>, k: nat)
    requires 0 < k <= |rs|
    ensures Flatten(rs[..k]) == Payload(rs[0]) + Flatten(rs[1..k])
  {
    assert rs[..k][0] == rs[0];
    assert rs[..k][1..] == rs[1..k];
  }

  /** Once the loop has stopped, later receive results are never read. */
  lemma {:induction false} ReceiveStopsReading(rs: seq<RecvResult>, more: seq<RecvResult>)
    requires Receive(rs).outcome != Pending
    ensures Receive(rs + more) == Receive(rs)
  {
    DropFirstOfAppend(rs, more);
    if rs[0].Data? && NEWLINE !in rs[0].bytes {
      ReceiveStopsReading(rs[1..], more);
    }
  }

  /** While the loop has not stopped, it keeps receiving: what further results
      append follows what was appended so far. */
  lemma {:induction false} ReceiveContinues(rs: seq<RecvResult>, more: seq<RecvResult>)
    requires Receive(rs).outcome == Pending
    ensures Receive(rs + more)
      == Receipt(Receive(rs).appended + Receive(more).appended, Receive(more).outcome)
  {
    if rs == [] {
      assert rs + more == more;
    } else {
      var c := rs[0].bytes;
      DropFirstOfAppend(rs, more);
      ReceiveContinues(rs[1..], more);
      ReceiveNewlineFree(rs);
      ReceiveNewlineFree(rs + more);
      var a, b := Receive(rs[1..]).appended, Receive(more).appended;
      AppendAssoc(c, a, b);
    }
  }

  /** `n` zero-length receives: what recv returns again and again once the peer has closed. */
  function EmptyChunks(n: nat): (rs: seq<RecvResult>)
    ensures |rs| == n
    ensures forall j :: 0 <= j < n ==> rs[j] == Data([])
  {
    seq(n, _ => Data([]))
  }

  /** Zero-length receives append nothing and never end the loop. */
  lemma {:induction false} EmptyChunksPend(n: nat)
    ensures Receive(EmptyChunks(n)) == Receipt([], Pending)
  {
    if n > 0 {
      assert EmptyChunks(n)[1..] == EmptyChunks(n - 1);
      EmptyChunksPend(n - 1);
    }
  }

  /** Zero-length receives in front of any results change nothing. */
  lemma EmptyChunksIgnored(n: nat, rs: seq<RecvResult>)
    ensures Receive(EmptyChunks(n) + rs) == Receive(rs)
  {
    EmptyChunksPend(n);
    ReceiveContinues(EmptyChunks(n), rs);
  }
}
