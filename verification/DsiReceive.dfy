/**
  Assembling the reply to an afpRead or afpReadExt from the socket (dsi_recv in
  dsi.c). The 16 header bytes go to the connection's incoming buffer, the data
  straight to the buffer of the request. Each call makes one read() on the socket,
  which may return fewer bytes than asked for.
 */
module DsiReceive {
  import opened Arith
  import opened Bytes

  const HEADER_SIZE: nat := 16

  /** The payload length a header announces. */
  function Length(header: seq<Byte>): (n: nat)
    requires |header| >= HEADER_SIZE
  {
    Be32(header[8..12])
  }

  function ErrorCode(header: seq<Byte>): (n: nat)
    requires |header| >= HEADER_SIZE
  {
    Be32(header[4..8])
  }

  /** incoming_buffer[..data_read], buf->data[..buf->size], and what the socket still holds. */
  datatype Rx = Rx(header: seq<Byte>, data: seq<Byte>, stream: seq<Byte>)

  datatype Status = NeedMore | Done(code: nat) | Failed

  /** Nothing is stored past the header or the caller's buffer. */
  predicate InBounds(rx: Rx, maxsize: nat) {
    && |rx.header| <= HEADER_SIZE && |rx.data| <= maxsize
    && (|rx.header| < HEADER_SIZE ==> rx.data == [])
    && (|rx.header| == HEADER_SIZE ==> |rx.data| <= Length(rx.header))
  }

  /** One call of dsi_recv whose read() returns at most `cut` bytes. */
  function RecvOnce(rx: Rx, maxsize: nat, cut: nat): (r: (Rx, Status))
    requires InBounds(rx, maxsize)
    ensures r.1 == NeedMore ==> InBounds(r.0, maxsize)
  {
    if |rx.header| < HEADER_SIZE then
      var n := Min(HEADER_SIZE - |rx.header|, Min(cut, |rx.stream|));
      var header := rx.header + rx.stream[..n];
      var rest := rx.stream[n..];
      if n == 0 then (rx, Failed)
      else if |header| == HEADER_SIZE && Length(header) == 0 then (Rx([], rx.data, rest), Done(ErrorCode(header)))
      else (Rx(header, rx.data, rest), NeedMore)
    else if maxsize == 0 then (rx, Failed)
    else
      var newmax := Min(maxsize - |rx.data|, Length(rx.header) - |rx.data|);
      var n := Min(newmax, Min(cut, |rx.stream|));
      var data := rx.data + rx.stream[..n];
      var rest := rx.stream[n..];
      if n == 0 then (rx, Failed)
      else if |data| == Length(rx.header) then (Rx([], data, rest), Done(ErrorCode(rx.header)))
      else (Rx(rx.header, data, rest), NeedMore)
  }

  ghost predicate IsMessage(msg: seq<Byte>) {
    |msg| >= HEADER_SIZE && |msg| == HEADER_SIZE + Length(msg)
  }

  /** Partway through message msg, with `rest` behind it on the socket. */
  ghost predicate Partway(rx: Rx, maxsize: nat, msg: seq<Byte>, rest: seq<Byte>) {
    var h, seen := |rx.header|, |rx.header| + |rx.data|;
    && IsMessage(msg) && h <= HEADER_SIZE && |rx.data| <= maxsize && seen <= |msg|
    && rx.header == msg[..h] && rx.data == msg[h..seen] && rx.stream == msg[seen..] + rest
    && (h < HEADER_SIZE ==> rx.data == [])
    && (h == HEADER_SIZE ==> seen < |msg|)
  }

  lemma HeaderFields(msg: seq<Byte>)
    requires |msg| >= HEADER_SIZE
    ensures Length(msg[..HEADER_SIZE]) == Length(msg) && ErrorCode(msg[..HEADER_SIZE]) == ErrorCode(msg)
  {
    assert msg[..HEADER_SIZE][8..12] == msg[8..12] && msg[..HEADER_SIZE][4..8] == msg[4..8];
  }

  /** Taking n more bytes of the message off the socket. */
  lemma Take(msg: seq<Byte>, rest: seq<Byte>, lo: nat, seen: nat, n: nat)
    requires lo <= seen && seen + n <= |msg|
    ensures var stream := msg[seen..] + rest;
            && msg[lo..seen] + stream[..n] == msg[lo..seen + n]
            && stream[n..] == msg[seen + n..] + rest
  {
    CutInFirst(msg[seen..], rest, n);
  }

  /** The header path. */
  lemma TakeHeader(rx: Rx, maxsize: nat, cut: nat, msg: seq<Byte>, rest: seq<Byte>, seen: nat)
    requires Partway(rx, maxsize, msg, rest) && cut >= 1 && |rx.header| < HEADER_SIZE
    requires seen == |rx.header| + Min(HEADER_SIZE - |rx.header|, Min(cut, |rx.stream|))
    ensures |rx.header| < seen <= HEADER_SIZE
    ensures RecvOnce(rx, maxsize, cut) ==
            if seen == HEADER_SIZE && Length(msg) == 0 then (Rx([], [], msg[seen..] + rest), Done(ErrorCode(msg)))
            else (Rx(msg[..seen], [], msg[seen..] + rest), NeedMore)
  {
    Take(msg, rest, 0, |rx.header|, seen - |rx.header|);
    HeaderFields(msg);
  }

  lemma PartwayInHeader(maxsize: nat, msg: seq<Byte>, rest: seq<Byte>, seen: nat)
    requires IsMessage(msg) && seen <= HEADER_SIZE && seen < |msg|
    ensures Partway(Rx(msg[..seen], [], msg[seen..] + rest), maxsize, msg, rest)
  {
  }

  lemma HeaderStep(rx: Rx, maxsize: nat, cut: nat, msg: seq<Byte>, rest: seq<Byte>)
    requires Partway(rx, maxsize, msg, rest) && cut >= 1 && |rx.header| < HEADER_SIZE
    ensures var (rx', status) := RecvOnce(rx, maxsize, cut);
            match status
            case NeedMore => Partway(rx', maxsize, msg, rest) && |rx'.stream| < |rx.stream|
            case Done(code) => rx' == Rx([], msg[HEADER_SIZE..], rest) && code == ErrorCode(msg) && Length(msg) == 0
            case Failed => false
  {
    var seen := |rx.header| + Min(HEADER_SIZE - |rx.header|, Min(cut, |rx.stream|));
    TakeHeader(rx, maxsize, cut, msg, rest, seen);
    if seen < |msg| {
      PartwayInHeader(maxsize, msg, rest, seen);
    } else {
      assert msg[seen..] == [] && [] + rest == rest;
    }
  }

  /** The data path while bytes of the message are outstanding and there is room for them. */
  lemma TakeData(rx: Rx, maxsize: nat, cut: nat, msg: seq<Byte>, rest: seq<Byte>, n: nat)
    requires Partway(rx, maxsize, msg, rest) && |rx.header| == HEADER_SIZE
    requires Length(rx.header) == Length(msg) && ErrorCode(rx.header) == ErrorCode(msg)
    requires maxsize > 0 && n == Min(Min(maxsize - |rx.data|, Length(msg) - |rx.data|), Min(cut, |rx.stream|)) > 0
    ensures var seen := HEADER_SIZE + |rx.data| + n;
            RecvOnce(rx, maxsize, cut) ==
            if |rx.data| + n == Length(msg) then (Rx([], msg[HEADER_SIZE..], rest), Done(ErrorCode(msg)))
            else (Rx(rx.header, msg[HEADER_SIZE..seen], msg[seen..] + rest), NeedMore)
  {
    var seen := HEADER_SIZE + |rx.data| + n;
    Take(msg, rest, HEADER_SIZE, HEADER_SIZE + |rx.data|, n);
    if seen == |msg| {
      assert msg[seen..] + rest == rest && msg[HEADER_SIZE..seen] == msg[HEADER_SIZE..];
    }
  }

  lemma PartwayAt(maxsize: nat, msg: seq<Byte>, rest: seq<Byte>, seen: nat)
    requires IsMessage(msg) && HEADER_SIZE <= seen < |msg| && seen - HEADER_SIZE <= maxsize
    ensures Partway(Rx(msg[..HEADER_SIZE], msg[HEADER_SIZE..seen], msg[seen..] + rest), maxsize, msg, rest)
  {
  }

  lemma DataStep(rx: Rx, maxsize: nat, cut: nat, msg: seq<Byte>, rest: seq<Byte>)
    requires Partway(rx, maxsize, msg, rest) && cut >= 1 && |rx.header| == HEADER_SIZE
    requires Length(rx.header) == Length(msg) && ErrorCode(rx.header) == ErrorCode(msg)
    ensures var (rx', status) := RecvOnce(rx, maxsize, cut);
            match status
            case NeedMore => Partway(rx', maxsize, msg, rest) && |rx'.stream| < |rx.stream|
            case Done(code) =>
              rx' == Rx([], msg[HEADER_SIZE..], rest) && code == ErrorCode(msg) && Length(msg) <= maxsize
            case Failed => rx' == rx && Length(msg) > maxsize && |rx.data| == maxsize
  {
    var n := Min(Min(maxsize - |rx.data|, Length(msg) - |rx.data|), Min(cut, |rx.stream|));
    if maxsize > 0 && n > 0 {
      TakeData(rx, maxsize, cut, msg, rest, n);
      if |rx.data| + n < Length(msg) {
        PartwayAt(maxsize, msg, rest, HEADER_SIZE + |rx.data| + n);
      }
    }
  }

  /** What one call does to a message that is partway in. */
  lemma RecvStep(rx: Rx, maxsize: nat, cut: nat, msg: seq<Byte>, rest: seq<Byte>)
    requires Partway(rx, maxsize, msg, rest) && cut >= 1
    ensures |rx.header| == HEADER_SIZE ==> |rx.data| <= Length(rx.header)
    ensures var (rx', status) := RecvOnce(rx, maxsize, cut);
            match status
            case NeedMore => Partway(rx', maxsize, msg, rest) && |rx'.stream| < |rx.stream|
            case Done(code) =>
              rx' == Rx([], msg[HEADER_SIZE..], rest) && code == ErrorCode(msg) && Length(msg) <= maxsize
            case Failed => rx' == rx && Length(msg) > maxsize && |rx.data| == maxsize && |rx.header| == HEADER_SIZE
  {
    if |rx.header| < HEADER_SIZE {
      HeaderStep(rx, maxsize, cut, msg, rest);
    } else {
      assert rx.header == msg[..HEADER_SIZE];
      HeaderFields(msg);
      DataStep(rx, maxsize, cut, msg, rest);
    }
  }

  /** Calls of dsi_recv, one per cut, until one of them does not ask for more. */
  function RecvAll(rx: Rx, maxsize: nat, cuts: seq<nat>): (r: (Rx, Status))
    requires InBounds(rx, maxsize)
    decreases |cuts|
  {
    if cuts == [] then (rx, NeedMore)
    else
      var (rx', status) := RecvOnce(rx, maxsize, cuts[0]);
      if status == NeedMore then RecvAll(rx', maxsize, cuts[1..]) else (rx', status)
  }

  lemma {:induction false} RecvAllSound(rx: Rx, maxsize: nat, cuts: seq<nat>, msg: seq<Byte>, rest: seq<Byte>)
    requires Partway(rx, maxsize, msg, rest) && InBounds(rx, maxsize)
    requires forall i :: 0 <= i < |cuts| ==> cuts[i] >= 1
    ensures var (rx', status) := RecvAll(rx, maxsize, cuts);
            match status
            case NeedMore => |cuts| + |rx'.stream| <= |rx.stream| && |rx'.stream| > |rest|
            case Done(code) => rx' == Rx([], msg[HEADER_SIZE..], rest) && code == ErrorCode(msg) && Length(msg) <= maxsize
            case Failed => Length(msg) > maxsize && rx' == Rx(msg[..HEADER_SIZE], msg[HEADER_SIZE..HEADER_SIZE + maxsize], msg[HEADER_SIZE + maxsize..] + rest)
    decreases |cuts|
  {
    HeaderFields(msg);
    if cuts != [] {
      RecvStep(rx, maxsize, cuts[0], msg, rest);
      var (rx', status) := RecvOnce(rx, maxsize, cuts[0]);
      if status == NeedMore {
        RecvAllSound(rx', maxsize, cuts[1..], msg, rest);
      }
    }
  }

  /**
    Assembly does not depend on how the stream was cut. For every way to cut it into
    non-empty reads, a reply is delivered if and only if its length fits the
    buffer; then the buffer holds exactly the payload and no byte of the next message
    has been consumed. A longer reply fills the buffer and then fails.
   */
  lemma AssemblyIgnoresFragmentation(msg: seq<Byte>, rest: seq<Byte>, maxsize: nat, cuts: seq<nat>)
    requires IsMessage(msg)
    requires forall i :: 0 <= i < |cuts| ==> cuts[i] >= 1
    requires |cuts| >= |msg|
    ensures RecvAll(Rx([], [], msg + rest), maxsize, cuts) ==
            if Length(msg) <= maxsize then (Rx([], msg[HEADER_SIZE..], rest), Done(ErrorCode(msg)))
            else (Rx(msg[..HEADER_SIZE], msg[HEADER_SIZE..HEADER_SIZE + maxsize], msg[HEADER_SIZE + maxsize..] + rest), Failed)
  {
    RecvAllSound(Rx([], [], msg + rest), maxsize, cuts, msg, rest);
  }

  // ----- what a server sends -----

  /** A DSI header: flags, command, request id, error code, length and a reserved word. */
  function Header(flags: Byte, command: Byte, id: nat, code: nat, length: nat, reserved: nat): (h: seq<Byte>)
    requires id < 0x1_0000 && code < 0x1_0000_0000 && length < 0x1_0000_0000 && reserved < 0x1_0000_0000
    ensures |h| == HEADER_SIZE
  {
    [flags, command] + ToBe16(id) + ToBe32(code) + ToBe32(length) + ToBe32(reserved)
  }

  /** Where the fields of a header stand. */
  lemma HeaderReadsBack(flags: Byte, command: Byte, id: nat, code: nat, length: nat, reserved: nat, payload: seq<Byte>)
    requires id < 0x1_0000 && code < 0x1_0000_0000 && length < 0x1_0000_0000 && reserved < 0x1_0000_0000
    ensures var msg := Header(flags, command, id, code, length, reserved) + payload;
            Length(msg) == length && ErrorCode(msg) == code
  {
    var msg := Header(flags, command, id, code, length, reserved) + payload;
    assert msg[4..8] == ToBe32(code);
    assert msg[8..12] == ToBe32(length);
  }

  /**
    A reply as the server sends it, cut in any way: the payload is delivered with the header's error
    code if and only if it fits, whatever the other header fields hold and whatever follows it.
   */
  lemma ReplyDelivered(flags: Byte, command: Byte, id: nat, code: nat, reserved: nat, payload: seq<Byte>,
                       rest: seq<Byte>, maxsize: nat, cuts: seq<nat>)
    requires id < 0x1_0000 && code < 0x1_0000_0000 && |payload| < 0x1_0000_0000 && reserved < 0x1_0000_0000
    requires forall i :: 0 <= i < |cuts| ==> cuts[i] >= 1
    requires |cuts| >= 16 + |payload|
    ensures var h := Header(flags, command, id, code, |payload|, reserved);
            RecvAll(Rx([], [], h + payload + rest), maxsize, cuts) ==
            if |payload| <= maxsize then (Rx([], payload, rest), Done(code))
            else (Rx(h, payload[..maxsize], payload[maxsize..] + rest), Failed)
  {
    var h := Header(flags, command, id, code, |payload|, reserved);
    var msg := h + payload;
    HeaderReadsBack(flags, command, id, code, |payload|, reserved, payload);
    AssemblyIgnoresFragmentation(msg, rest, maxsize, cuts);
    assert msg[HEADER_SIZE..] == payload && msg[..HEADER_SIZE] == h;
    if |payload| > maxsize {
      assert msg[HEADER_SIZE..HEADER_SIZE + maxsize] == payload[..maxsize];
      assert msg[HEADER_SIZE + maxsize..] == payload[maxsize..];
    }
  }

  // ----- the receiver object -----

  class Receiver {
    const incoming: array<Byte>   // incoming_buffer
    var dataRead: nat             // data_read
    const data: array<Byte>       // buf->data, of buf->maxsize bytes
    var size: nat                 // buf->size
    var stream: seq<Byte>         // the socket

    ghost predicate Valid()
      reads this, incoming, data
    {
      && incoming != data && incoming.Length >= HEADER_SIZE
      && dataRead <= HEADER_SIZE && size <= data.Length
      && InBounds(View(), data.Length)
    }

    ghost function View(): (rx: Rx)
      requires dataRead <= incoming.Length && size <= data.Length
      reads this, incoming, data
    {
      Rx(incoming[..dataRead], data[..size], stream)
    }

    constructor (bufsize: nat, maxsize: nat, stream: seq<Byte>)
      requires bufsize >= HEADER_SIZE
      ensures Valid() && fresh(incoming) && fresh(data) && data.Length == maxsize
      ensures View() == Rx([], [], stream)
    {
      incoming := new Byte[bufsize];
      data := new Byte[maxsize];
      dataRead, size, this.stream := 0, 0, stream;
    }

    /** read(): moves up to `want` bytes, and no more than `cut`, from the socket to buf[at..]. */
    method Read(buf: array<Byte>, at: nat, want: nat, cut: nat) returns (n: nat)
      requires at + want <= buf.Length
      modifies this`stream, buf
      ensures n == Min(want, Min(cut, |old(stream)|))
      ensures buf[..at + n] == old(buf[..at]) + old(stream)[..n]
      ensures stream == old(stream)[n..]
    {
      n := Min(want, Min(cut, |stream|));
      for i := 0 to n
        invariant stream == old(stream)
        invariant forall j :: 0 <= j < at ==> buf[j] == old(buf[j])
        invariant forall j :: at <= j < at + i ==> buf[j] == stream[j - at]
      {
        buf[at + i] := stream[i];
      }
      stream := stream[n..];
    }

    /** The header path of dsi_recv. */
    method RecvHeader(cut: nat) returns (status: Status)
      requires Valid() && dataRead < HEADER_SIZE
      modifies this`dataRead, this`stream, incoming
      ensures dataRead <= incoming.Length && size <= data.Length
      ensures (View(), status) == RecvOnce(old(View()), data.Length, cut)
    {
      ghost var rx := View();
      var n := Read(incoming, dataRead, HEADER_SIZE - dataRead, cut);
      if n == 0 {
        assert incoming[..dataRead] == rx.header && rx.stream[0..] == rx.stream;
        return Failed;
      }
      dataRead := dataRead + n;
      assert incoming[..dataRead] == rx.header + rx.stream[..n];
      if dataRead == HEADER_SIZE && Length(incoming[..HEADER_SIZE]) == 0 {
        dataRead := 0;
        return Done(ErrorCode(incoming[..HEADER_SIZE]));
      }
      return NeedMore;
    }

    /** The data path of dsi_recv for a read request. */
    method RecvData(cut: nat) returns (status: Status)
      requires Valid() && dataRead == HEADER_SIZE
      modifies this`dataRead, this`size, this`stream, data
      ensures dataRead <= incoming.Length && size <= data.Length
      ensures (View(), status) == RecvOnce(old(View()), data.Length, cut)
    {
      ghost var rx := View();
      if data.Length == 0 {
        return Failed;
      }
      var header := incoming[..HEADER_SIZE];
      var newmax := data.Length - size;
      if newmax > Length(header) - size {
        newmax := Length(header) - size;
      }
      var n := Read(data, size, newmax, cut);
      if n == 0 {
        assert data[..size] == rx.data && rx.stream[0..] == rx.stream;
        return Failed;
      }
      size := size + n;
      assert data[..size] == rx.data + rx.stream[..n];
      if Length(header) == size {
        dataRead := 0;
        return Done(ErrorCode(header));
      }
      return NeedMore;
    }

    /** dsi_recv while the pending header belongs to a read request. */
    method Recv(cut: nat) returns (status: Status)
      requires Valid()
      modifies this`dataRead, this`size, this`stream, incoming, data
      ensures dataRead <= incoming.Length && size <= data.Length
      ensures (View(), status) == RecvOnce(old(View()), data.Length, cut)
      ensures status == NeedMore ==> Valid()
    {
      if dataRead < HEADER_SIZE {
        status := RecvHeader(cut);
      } else {
        status := RecvData(cut);
      }
    }
  }
}
