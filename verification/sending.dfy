/** send_updated_file (server/aesdsocket.c): stream the whole log file back to
    the client with sendfile, tolerating partial sends. */
module Sending {
  import opened Framing

  /** What a reply may have delivered: the status is 0 or -1; the bytes that
      reached the client are a prefix of the file; the status is 0 exactly when
      the file could be opened and measured and all of it went out; and when it
      could not be opened or measured nothing went out. */
  predicate Delivered(file: seq<byte>, readable: bool, status: int, sent: seq<byte>)
  {
    && (status == 0 || status == -1)
    && sent <= file
    && (status == 0 <==> readable && sent == file)
    && (!readable ==> sent == [])
  }

  /** What one sendfile call asked for `remaining` bytes may return. */
  predicate SendfileReturns(n: int, remaining: nat)
  {
    n == -1 || (1 <= n && n <= remaining)
  }

  /** One call of send_updated_file on a log file holding `file`. `opens` and
      `statOk` are the results of open and fstat. Each sendfile call either
      fails (-1) or sends between 1 and `remaining` bytes starting at `offset`;
      which one happens is left open. Returns the status and the bytes the
      client received. */
  method SendUpdatedFile(file: seq<byte>, opens: bool, statOk: bool) returns (status: int, sent: seq<byte>)
    ensures Delivered(file, opens && statOk, status, sent)
  {
    if !opens {
      return -1, [];
    }
    if !statOk {
      return -1, [];
    }
    var offset := 0;
    var remaining := |file|;
    sent := [];
    while remaining > 0
      invariant 0 <= remaining <= |file|
      invariant offset + remaining == |file|
      invariant sent == file[..offset]
      decreases remaining
    {
      assert SendfileReturns(-1, remaining);
      var n: int :| SendfileReturns(n, remaining);
      assert SendfileReturns(n, remaining);
      if n == -1 {
        break;
      }
      sent := sent + file[offset..offset + n];
      offset := offset + n;
      remaining := remaining - n;
    }
    status := if remaining > 0 then -1 else 0;
  }
}
