/**
  Reading and writing an open fork in pieces (fuse_read in fuse_int.c, ll_read
  and ll_write in lowlevel.c). The fork on the server is a sequence of bytes.
 */
module ForkIo {
  import opened Arith
  import opened Bytes

  // ----- reading -----

  const EOF_ERR: int := -5009

  /**
    The server's answers to one read: whether the range could be locked, the return code and the
    number of bytes that came with it, and whether the range could be unlocked.
   */
  datatype Reply = Reply(lockFails: bool, rc: int, n: nat, unlockFails: bool)

  /** Answers by the number of the call, the offset and the size asked for. */
  type Server = (nat, nat, nat) -> Reply

  /** The errno ll_read reports for a return code; codes it does not know count as success. */
  function ErrnoOfCode(rc: int): (e: int)
    ensures e >= 0
  {
    if rc == -5000 then 13                                        // kFPAccessDenied, EACCES
    else if rc == -5013 then 16                                   // kFPLockErr, EBUSY
    else if rc == -5014 || rc == -5019 then 5                     // kFPMiscErr, kFPParamErr, EIO
    else 0
  }

  predicate Brings(r: Reply) {
    !r.lockFails && ErrnoOfCode(r.rc) == 0
  }

  /** The errno for the whole exchange: EBUSY without the lock, EIO if it cannot be given back. */
  function Errno(r: Reply): (e: int)
    ensures e >= 0
    ensures e == 0 <==> Brings(r) && !r.unlockFails
  {
    if r.lockFails then 16 else if r.unlockFails then 5 else ErrnoOfCode(r.rc)
  }

  /** A successful answer brings at least one byte, or reports that it reaches the end of the fork. */
  ghost predicate Honest(fork: seq<Byte>, rxQuantum: nat, offset: nat, size: nat, r: Reply) {
    Brings(r) ==>
      && r.n <= Min(rxQuantum, size)
      && (r.n > 0 ==> offset + r.n <= |fork|)
      && (if r.rc == EOF_ERR then offset + r.n >= |fork| else r.n >= 1 || size == 0)
  }

  ghost predicate HonestServer(fork: seq<Byte>, rxQuantum: nat, server: Server) {
    forall i: nat, offset: nat, size: nat :: Honest(fork, rxQuantum, offset, size, server(i, offset, size))
  }

  /** The bytes from offset up to size further on, or to the end of the fork. */
  function Wanted(fork: seq<Byte>, offset: nat, size: nat): (r: seq<Byte>) {
    fork[Min(offset, |fork|)..Min(offset + size, |fork|)]
  }

  function Here(fork: seq<Byte>, offset: nat, n: nat): (r: seq<Byte>)
    requires n > 0 ==> offset + n <= |fork|
  {
    if n == 0 then [] else fork[offset..offset + n]
  }

  datatype ReadResult = Got(bytes: seq<Byte>) | Error(errno: int)

  /** The loop of fuse_read from its i-th call on. */
  ghost function ReadFrom(fork: seq<Byte>, rxQuantum: nat, server: Server, i: nat, offset: nat, size: nat): (r: ReadResult)
    requires HonestServer(fork, rxQuantum, server)
    decreases size
  {
    var reply := server(i, offset, size);
    assert Honest(fork, rxQuantum, offset, size, reply);
    if Errno(reply) > 0 then Error(Errno(reply))
    else
      var here := Here(fork, offset, reply.n);
      if reply.rc == EOF_ERR || size == reply.n then Got(here)
      else
        Prepend(here, ReadFrom(fork, rxQuantum, server, i + 1, offset + reply.n, size - reply.n))
  }

  function Prepend(done: seq<Byte>, r: ReadResult): (p: ReadResult) {
    match r
    case Error(e) => Error(e)
    case Got(rest) => Got(done + rest)
  }

  /** One turn of the loop, after which `done` has been read already. */
  lemma ReadStep(fork: seq<Byte>, rxQuantum: nat, server: Server, i: nat, offset: nat, size: nat, done: seq<Byte>, all: ReadResult)
    requires HonestServer(fork, rxQuantum, server)
    requires all == Prepend(done, ReadFrom(fork, rxQuantum, server, i, offset, size))
    ensures var reply := server(i, offset, size);
            if Errno(reply) > 0 then all == Error(Errno(reply))
            else
              && reply.n <= size && (reply.n > 0 ==> offset + reply.n <= |fork|)
              && var here := Here(fork, offset, reply.n);
              && (reply.rc == EOF_ERR || size == reply.n ==> all == Got(done + here))
              && (reply.rc != EOF_ERR && size != reply.n ==>
                    && reply.n >= 1
                    && all == Prepend(done + here, ReadFrom(fork, rxQuantum, server, i + 1, offset + reply.n, size - reply.n)))
  {
    var reply := server(i, offset, size);
    assert Honest(fork, rxQuantum, offset, size, reply);
    if Errno(reply) == 0 && reply.rc != EOF_ERR && size != reply.n {
      var next := ReadFrom(fork, rxQuantum, server, i + 1, offset + reply.n, size - reply.n);
      var here := Here(fork, offset, reply.n);
      assert next.Got? ==> done + (here + next.bytes) == done + here + next.bytes;
    }
  }

  lemma WantedSplits(fork: seq<Byte>, offset: nat, n: nat, size: nat)
    requires n <= size && offset + n <= |fork|
    ensures fork[offset..offset + n] + Wanted(fork, offset + n, size - n) == Wanted(fork, offset, size)
  {
    var hi := Min(offset + size, |fork|);
    assert fork[offset..offset + n] + fork[offset + n..hi] == fork[offset..hi];
  }

  /**
    However the server splits its answers, a read that meets no error returns
    exactly the bytes of the fork from the offset to the size asked for or the end.
   */
  lemma {:induction false} ReadIsExact(fork: seq<Byte>, rxQuantum: nat, server: Server, i: nat, offset: nat, size: nat)
    requires HonestServer(fork, rxQuantum, server)
    ensures var r := ReadFrom(fork, rxQuantum, server, i, offset, size);
            r.Error? || r == Got(Wanted(fork, offset, size))
    decreases size
  {
    var reply := server(i, offset, size);
    assert Honest(fork, rxQuantum, offset, size, reply);
    if Errno(reply) == 0 && reply.rc != EOF_ERR && size != reply.n {
      ReadIsExact(fork, rxQuantum, server, i + 1, offset + reply.n, size - reply.n);
      WantedSplits(fork, offset, reply.n, size);
    }
  }

  /** The server's data goes to buf[at..]. */
  method Store(fork: seq<Byte>, buf: array<Byte>, at: nat, offset: nat, n: nat)
    requires at + n <= buf.Length && (n > 0 ==> offset + n <= |fork|)
    modifies buf
    ensures forall j :: at <= j < at + n ==> buf[j] == fork[offset + (j - at)]
    ensures forall j :: 0 <= j < buf.Length && !(at <= j < at + n) ==> buf[j] == old(buf[j])
  {
    for k := 0 to n
      invariant forall j :: at <= j < at + k ==> buf[j] == fork[offset + (j - at)]
      invariant forall j :: 0 <= j < buf.Length && !(at <= j < at + k) ==> buf[j] == old(buf[j])
    {
      buf[at + k] := fork[offset + k];
    }
  }

  /** A server that grants every lock and answers success, or the end of the fork, to every read. */
  ghost predicate Obliging(server: Server) {
    forall i: nat, offset: nat, size: nat ::
      var r := server(i, offset, size);
      !r.lockFails && !r.unlockFails && (r.rc == 0 || r.rc == -5009)
  }

  /** With such a server a read never fails: it gives exactly the bytes wanted. */
  lemma {:induction false} ReadSucceeds(fork: seq<Byte>, rxQuantum: nat, server: Server, i: nat, offset: nat, size: nat)
    requires HonestServer(fork, rxQuantum, server) && Obliging(server)
    ensures ReadFrom(fork, rxQuantum, server, i, offset, size) == Got(Wanted(fork, offset, size))
    decreases size
  {
    var reply := server(i, offset, size);
    assert Honest(fork, rxQuantum, offset, size, reply);
    ReadIsExact(fork, rxQuantum, server, i, offset, size);
    if reply.rc != EOF_ERR && size != reply.n {
      ReadSucceeds(fork, rxQuantum, server, i + 1, offset + reply.n, size - reply.n);
    }
  }

  /** The errno of a read whose next answer is an error; an answer with any other code is none. */
  lemma ReadFails(fork: seq<Byte>, rxQuantum: nat, server: Server, i: nat, offset: nat, size: nat)
    requires HonestServer(fork, rxQuantum, server)
    ensures var (r, got) := (server(i, offset, size), ReadFrom(fork, rxQuantum, server, i, offset, size));
            && (r.lockFails ==> got == Error(16))
            && (!r.lockFails && r.unlockFails ==> got == Error(5))
            && (!r.lockFails && !r.unlockFails ==>
                  && (r.rc == -5000 ==> got == Error(13))
                  && (r.rc == -5013 ==> got == Error(16))
                  && (r.rc == -5014 || r.rc == -5019 ==> got == Error(5))
                  && (r.rc !in {-5000, -5013, -5014, -5019} && (r.rc == -5009 || r.n == size) ==> got.Got?))
  {
  }

  /** ll_read: lock, one server call with its data stored at buf[at..], unlock. */
  method LlRead(fork: seq<Byte>, server: Server, i: nat, ghost rxQuantum: nat, buf: array<Byte>, at: nat, size: nat, offset: nat)
      returns (ret: int, eof: bool)
    requires HonestServer(fork, rxQuantum, server) && at + size <= buf.Length
    modifies buf
    ensures forall j :: 0 <= j < buf.Length && !(at <= j < at + size) ==> buf[j] == old(buf[j])
    ensures var reply := server(i, offset, size);
            if Errno(reply) > 0 then ret == -Errno(reply) && (reply.lockFails ==> buf[..] == old(buf[..]))
            else
              && ret == reply.n && eof == (reply.rc == EOF_ERR) && reply.n <= size
              && (reply.n > 0 ==> offset + reply.n <= |fork|)
              && (forall j :: at <= j < at + reply.n ==> buf[j] == fork[offset + (j - at)])
              && (forall j :: 0 <= j < buf.Length && !(at <= j < at + reply.n) ==> buf[j] == old(buf[j]))
  {
    var reply := server(i, offset, size);
    assert Honest(fork, rxQuantum, offset, size, reply);
    eof := false;
    if reply.lockFails {
      return -16, eof;
    }
    if Brings(reply) {
      Store(fork, buf, at, offset, reply.n);
    }
    if reply.unlockFails {
      return -5, eof;
    }
    if ErrnoOfCode(reply.rc) > 0 {
      return -ErrnoOfCode(reply.rc), eof;
    }
    eof := reply.rc == EOF_ERR;
    ret := reply.n;
  }

  /** buf holds `done` at its front and is otherwise as it was. */
  ghost predicate Filled(buf: seq<Byte>, done: seq<Byte>, was: seq<Byte>) {
    && |buf| == |was| && |done| <= |buf|
    && (forall j :: 0 <= j < |done| ==> buf[j] == done[j])
    && (forall j :: |done| <= j < |buf| ==> buf[j] == was[j])
  }

  /** One turn of fuse_read's loop. */
  method ReadNext(fork: seq<Byte>, ghost rxQuantum: nat, server: Server, i: nat, buf: array<Byte>, amountRead: nat, size: nat, offset: nat,
                  ghost done: seq<Byte>, ghost was: seq<Byte>, ghost all: ReadResult)
      returns (n: int, eof: bool, ghost done': seq<Byte>)
    requires HonestServer(fork, rxQuantum, server) && amountRead + size <= buf.Length
    requires |done| == amountRead && Filled(buf[..], done, was)
    requires all == Prepend(done, ReadFrom(fork, rxQuantum, server, i, offset, size))
    modifies buf
    ensures n < 0 ==> all == Error(-n)
    ensures n >= 0 ==> n <= size && |done'| == amountRead + n && Filled(buf[..], done', was)
    ensures n >= 0 && (eof || n == size) ==> all == Got(done')
    ensures n >= 0 && !eof && n != size ==>
              n >= 1 && all == Prepend(done', ReadFrom(fork, rxQuantum, server, i + 1, offset + n, size - n))
  {
    ReadStep(fork, rxQuantum, server, i, offset, size, done, all);
    n, eof := LlRead(fork, server, i, rxQuantum, buf, amountRead, size, offset);
    done' := done;
    if n >= 0 {
      done' := done + Here(fork, offset, n);
    }
  }

  /** The loop of fuse_read. */
  method ReadLoop(fork: seq<Byte>, rxQuantum: nat, server: Server, buf: array<Byte>, size0: nat, offset0: nat) returns (ret: int)
    requires HonestServer(fork, rxQuantum, server) && size0 <= buf.Length
    modifies buf
    ensures match ReadFrom(fork, rxQuantum, server, 0, offset0, size0)
            case Error(e) => ret == -e
            case Got(bytes) => ret == |bytes| && Filled(buf[..], bytes, old(buf[..]))
  {
    var amountRead: nat, size: nat, offset: nat, i: nat := 0, size0, offset0, 0;
    ghost var done: seq<Byte> := [];
    ghost var all := ReadFrom(fork, rxQuantum, server, 0, offset0, size0);
    assert all == Prepend(done, all) by { assert all.Got? ==> done + all.bytes == all.bytes; }
    while true
      invariant amountRead + size == size0 && |done| == amountRead
      invariant Filled(buf[..], done, old(buf[..]))
      invariant all == Prepend(done, ReadFrom(fork, rxQuantum, server, i, offset, size))
      decreases size
    {
      var n, eof;
      n, eof, done := ReadNext(fork, rxQuantum, server, i, buf, amountRead, size, offset, done, old(buf[..]), all);
      if n < 0 {
        return n;
      }
      amountRead := amountRead + n;
      if eof {
        break;
      }
      size := size - n;
      if size == 0 {
        break;
      }
      offset := offset + n;
      i := i + 1;
    }
    ret := amountRead;
  }

  /** fuse_read: the bytes wanted, or the first error. */
  method FuseRead(fork: seq<Byte>, rxQuantum: nat, server: Server, buf: array<Byte>, size: nat, offset: nat) returns (ret: int)
    requires HonestServer(fork, rxQuantum, server) && size <= buf.Length
    modifies buf
    ensures match ReadFrom(fork, rxQuantum, server, 0, offset, size)
            case Error(e) => ret == -e
            case Got(bytes) =>
              ret == |bytes| && bytes == Wanted(fork, offset, size) && Filled(buf[..], bytes, old(buf[..]))
  {
    ReadIsExact(fork, rxQuantum, server, 0, offset, size);
    ret := ReadLoop(fork, rxQuantum, server, buf, size, offset);
  }

  // ----- writing -----

  function SpliceLength(f: seq<Byte>, o: nat, d: seq<Byte>): (n: nat) {
    if d == [] || o + |d| <= |f| then |f| else o + |d|
  }

  function SpliceAt(f: seq<Byte>, o: nat, d: seq<Byte>, i: nat): (b: Byte) {
    if o <= i < o + |d| then d[i - o] else if i < |f| then f[i] else 0
  }

  /** A fork after writing d at offset o; a gap before o reads as zeros. */
  function Splice(f: seq<Byte>, o: nat, d: seq<Byte>): (r: seq<Byte>) {
    seq(SpliceLength(f, o, d), i requires i >= 0 => SpliceAt(f, o, d, i))
  }

  /** Two writes back to back are one write. */
  lemma SpliceSplice(f: seq<Byte>, o: nat, a: seq<Byte>, b: seq<Byte>)
    ensures Splice(Splice(f, o, a), o + |a|, b) == Splice(f, o, a + b)
  {
    var g := Splice(f, o, a);
    forall i: nat | i < SpliceLength(f, o, a + b) ensures SpliceAt(g, o + |a|, b, i) == SpliceAt(f, o, a + b, i) {
      assert o <= i < o + |a + b| ==> (a + b)[i - o] == if i < o + |a| then a[i - o] else b[i - o - |a|];
      assert i < |g| ==> g[i] == SpliceAt(f, o, a, i);
    }
  }

  /** What was written reads back, and every other byte is as it was, or zero in a gap. */
  lemma WrittenReadsBack(f: seq<Byte>, o: nat, d: seq<Byte>)
    ensures d != [] ==> Wanted(Splice(f, o, d), o, |d|) == d
    ensures forall i :: 0 <= i < |f| && !(o <= i < o + |d|) ==> i < |Splice(f, o, d)| && Splice(f, o, d)[i] == f[i]
    ensures forall i :: |f| <= i < o && d != [] ==> i < |Splice(f, o, d)| && Splice(f, o, d)[i] == 0
    ensures |Splice(f, o, d)| == if d == [] || |f| >= o + |d| then |f| else o + |d|
  {
    var g := Splice(f, o, d);
    if d != [] {
      assert |Wanted(g, o, |d|)| == |d|;
      assert forall i :: 0 <= i < |d| ==> g[o + i] == d[i];
    }
  }

  lemma ChunkWritten(f: seq<Byte>, offset: nat, data: seq<Byte>, o: nat, n: nat)
    requires o + n <= |data|
    ensures Splice(Splice(f, offset, data[..o]), offset + o, data[o..o + n]) == Splice(f, offset, data[..o + n])
  {
    SpliceSplice(f, offset, data[..o], data[o..o + n]);
    assert data[..o] + data[o..o + n] == data[..o + n];
  }

  class Fork {
    var contents: seq<Byte>

    /** A server that accepts every write. */
    method Write(offset: nat, data: seq<Byte>)
      modifies this
      ensures contents == Splice(old(contents), offset, data)
    {
      contents := Splice(contents, offset, data);
    }
  }

  /** (offset, length) of the calls made: adjacent, none longer than the quantum, covering lo..hi. */
  ghost predicate Tiles(calls: seq<(nat, nat)>, lo: nat, hi: nat, quantum: nat) {
    if calls == [] then lo == hi
    else
      var (offset, n) := calls[|calls| - 1];
      1 <= n <= quantum && offset + n == hi && Tiles(calls[..|calls| - 1], lo, offset, quantum)
  }

  lemma TilesGrow(calls: seq<(nat, nat)>, lo: nat, hi: nat, quantum: nat, n: nat)
    requires Tiles(calls, lo, hi, quantum) && 1 <= n <= quantum
    ensures Tiles(calls + [(hi, n)], lo, hi + n, quantum)
  {
    assert (calls + [(hi, n)])[..|calls|] == calls;
  }

  /** One turn of ll_write's loop. */
  method WriteNext(fork: Fork, data: seq<Byte>, offset: nat, o: nat, txQuantum: nat, ghost f: seq<Byte>, ghost calls: seq<(nat, nat)>)
      returns (sizetowrite: nat, ghost calls': seq<(nat, nat)>)
    requires txQuantum > 0 && o < |data|
    requires fork.contents == Splice(f, offset, data[..o]) && Tiles(calls, offset, offset + o, txQuantum)
    modifies fork
    ensures 0 < sizetowrite && o + sizetowrite <= |data|
    ensures fork.contents == Splice(f, offset, data[..o + sizetowrite])
    ensures Tiles(calls', offset, offset + (o + sizetowrite), txQuantum)
  {
    sizetowrite := txQuantum;
    if |data| - o < txQuantum {
      sizetowrite := |data| - o;
    }
    ChunkWritten(f, offset, data, o, sizetowrite);
    fork.Write(offset + o, data[o..o + sizetowrite]);
    TilesGrow(calls, offset, offset + o, txQuantum, sizetowrite);
    calls' := calls + [(offset + o, sizetowrite)];
  }

  /** The loop of ll_write: chunks of at most tx_quantum add up to one write of the whole buffer. */
  method WriteChunks(fork: Fork, data: seq<Byte>, offset: nat, txQuantum: nat)
      returns (totalwritten: nat, ghost calls: seq<(nat, nat)>)
    requires txQuantum > 0
    modifies fork
    ensures totalwritten == |data|
    ensures fork.contents == Splice(old(fork.contents), offset, data)
    ensures Tiles(calls, offset, offset + |data|, txQuantum)
  {
    totalwritten, calls := 0, [];
    var o: nat := 0;
    while totalwritten < |data|
      invariant o == totalwritten <= |data|
      invariant fork.contents == Splice(old(fork.contents), offset, data[..o])
      invariant Tiles(calls, offset, offset + o, txQuantum)
    {
      var sizetowrite;
      sizetowrite, calls := WriteNext(fork, data, offset, o, txQuantum, old(fork.contents), calls);
      totalwritten := totalwritten + sizetowrite;
      o := o + sizetowrite;
    }
    assert data[..o] == data;
  }

  /**
    ll_write: lock, write, unlock. Neither a failed lock nor a failed unlock is reported: the
    error is stored in one variable and another is returned. Without the lock nothing is written.
   */
  method LlWrite(fork: Fork, data: seq<Byte>, offset: nat, txQuantum: nat, lockFails: bool, unlockFails: bool)
      returns (rc: int, totalwritten: nat, ghost calls: seq<(nat, nat)>)
    requires txQuantum > 0
    modifies fork
    ensures rc == 0
    ensures lockFails ==> totalwritten == 0 && fork.contents == old(fork.contents) && calls == []
    ensures !lockFails ==>
              && totalwritten == |data|
              && fork.contents == Splice(old(fork.contents), offset, data)
              && Tiles(calls, offset, offset + |data|, txQuantum)
  {
    var ret, err := 0, 0;
    totalwritten, calls := 0, [];
    if lockFails {
      ret := 16;
      return -err, totalwritten, calls;
    }
    totalwritten, calls := WriteChunks(fork, data, offset, txQuantum);
    if unlockFails {
      ret := 5;
      return -err, totalwritten, calls;
    }
    return 0, totalwritten, calls;
  }
}
