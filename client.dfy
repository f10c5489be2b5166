/**
 * The receiving side of the stream: the background read loop of
 * `connect_to_server`, which splits the byte stream from the server into
 * length-prefixed records and forwards each payload to the consumer.
 */
module Client {
  import opened Common

  /** The port every server listens on. */
  const PORT: nat := 9041

  // ---------------------------------------------------------------------
  // Address construction
  // ---------------------------------------------------------------------

  /** The decimal digits of n, as `{}` formats an unsigned integer. */
  function Decimal(n: nat): string
    decreases n
  {
    if n < 10 then [DigitChar(n)] else Decimal(n / 10) + [DigitChar(n % 10)]
  }

  function DigitChar(d: nat): char
    requires d < 10
  {
    (48 + d) as char
  }

  /** `format!("{}:{}", ip_address, port)`: the text handed to the address parser. */
  function AddressPort(ip: string): (a: string)
    ensures a == ip + ":9041"
  {
    ip + ":" + Decimal(PORT)
  }

  // ---------------------------------------------------------------------
  // The big-endian length prefix
  // ---------------------------------------------------------------------

  const TWO_TO_32: nat := 0x1_0000_0000

  /** `u32::from_be_bytes`: the first byte is the most significant. */
  function FromBeBytes(b: seq<byte>): (n: nat)
    requires |b| == 4
    ensures n < TWO_TO_32
  {
    b[0] as int * 0x100_0000 + b[1] as int * 0x1_0000 + b[2] as int * 0x100 + b[3] as int
  }

  /** `u32::to_be_bytes`, the inverse the writing side uses for the prefix: base-256 digits, most significant first. */
  function ToBeBytes(n: nat): (b: seq<byte>)
    requires n < TWO_TO_32
    ensures |b| == 4
  {
    var m1 := n / 0x100;
    var m2 := m1 / 0x100;
    [m2 / 0x100, m2 % 0x100, m1 % 0x100, n % 0x100]
  }

  /** Decoding an encoded length gives the length back. */
  lemma LengthRoundTrip(n: nat)
    requires n < TWO_TO_32
    ensures FromBeBytes(ToBeBytes(n)) == n
  {
    var m1 := n / 0x100;
    var m2 := m1 / 0x100;
    assert n == m1 * 0x100 + n % 0x100;
    assert m1 == m2 * 0x100 + m1 % 0x100;
    assert m2 == (m2 / 0x100) * 0x100 + m2 % 0x100;
  }

  /** Four prefix bytes are determined by the length they decode to. */
  lemma PrefixRoundTrip(b: seq<byte>)
    requires |b| == 4
    ensures ToBeBytes(FromBeBytes(b)) == b
  {
    var n := FromBeBytes(b);
    var m2 := b[0] as int * 0x100 + b[1] as int;
    var m1 := m2 * 0x100 + b[2] as int;
    assert n == m1 * 0x100 + b[3] as int;
    Digit(m1, b[3]);
    Digit(m2, b[2]);
    Digit(b[0], b[1]);
  }

  /** The last base-256 digit and the rest are recovered by `%` and `/`. */
  lemma Digit(hi: nat, lo: byte)
    ensures (hi * 0x100 + lo) / 0x100 == hi && (hi * 0x100 + lo) % 0x100 == lo
  {
  }

  // ---------------------------------------------------------------------
  // The socket, the signals and what the loop delivers
  // ---------------------------------------------------------------------

  /**
   * What a read meets past the last byte the server sent: the server closed
   * the connection, or any other I/O error.
   */
  datatype StreamEnd = Eof | Failure

  /** What `read_exact` reports. */
  datatype ReadOutcome = Filled | UnexpectedEof | OtherError

  /**
   * The two things outside the loop that can stop it. `disconnectAt`: the
   * shutdown flag is set before the check of iteration k for every k from
   * this one on. `receiverDropAt`: the consumer drops its receiver after
   * taking this many messages, so every later send fails.
   */
  datatype Signals = Signals(disconnectAt: Option<nat>, receiverDropAt: Option<nat>)

  const NO_SIGNALS: Signals := Signals(None, None)

  predicate ShutdownRequested(sig: Signals, k: nat)
  {
    sig.disconnectAt.Some? && sig.disconnectAt.value <= k
  }

  predicate ReceiverOpen(sig: Signals, sent: nat)
  {
    sig.receiverDropAt.None? || sent < sig.receiverDropAt.value
  }

  /** Why the read loop ended. */
  datatype Exit = Disconnected | ReceiverClosed | ServerClosed | ReadFailed

  /** The messages the consumer received, in order, and why the loop ended. */
  datatype Session = Session(delivered: seq<seq<byte>>, exit: Exit)

  function Prepend(msgs: seq<seq<byte>>, rest: Session): Session
  {
    Session(msgs + rest.delivered, rest.exit)
  }

  /**
   * A failed read: at end of stream one empty message is sent as the
   * "server closed" sentinel (lost if the receiver is gone); any other
   * error ends the loop silently.
   */
  function Closed(end: StreamEnd, sig: Signals, sent: nat): Session
  {
    if end == Eof then Session(if ReceiverOpen(sig, sent) then [[]] else [], ServerClosed)
    else Session([], ReadFailed)
  }

  /**
   * The read loop over the bytes `rest` it has not read yet, after `sent`
   * messages (one per earlier iteration): check the shutdown flag, read the
   * prefix and the payload (either read can meet the end of the bytes),
   * send the payload, go on.
   */
  function ReadFrom(rest: seq<byte>, end: StreamEnd, sig: Signals, sent: nat): Session
    decreases |rest|
  {
    if ShutdownRequested(sig, sent) then Session([], Disconnected)
    else if Incomplete(rest) then Closed(end, sig, sent)
    else if !ReceiverOpen(sig, sent) then Session([], ReceiverClosed)
    else
      var frameSize := FromBeBytes(rest[..4]);
      Prepend([rest[4..4 + frameSize]], ReadFrom(rest[4 + frameSize..], end, sig, sent + 1))
  }

  // ---------------------------------------------------------------------
  // The records a server writes
  // ---------------------------------------------------------------------

  predicate Encodable(msgs: seq<seq<byte>>)
  {
    forall k :: 0 <= k < |msgs| ==> |msgs[k]| < TWO_TO_32
  }

  /** One record: the payload's length as a big-endian `u32`, then the payload. */
  function Record(m: seq<byte>): seq<byte>
    requires |m| < TWO_TO_32
  {
    ToBeBytes(|m|) + m
  }

  function Records(msgs: seq<seq<byte>>): seq<byte>
    requires Encodable(msgs)
  {
    if msgs == [] then [] else Record(msgs[0]) + Records(msgs[1..])
  }

  /** Bytes that do not hold a whole record: a partial prefix, or a prefix and a partial payload. */
  predicate Incomplete(tail: seq<byte>)
  {
    |tail| < 4 || |tail| - 4 < FromBeBytes(tail[..4])
  }

  /**
   * Every byte stream is a sequence of whole records followed by an
   * incomplete tail, and this split is what the loop reads.
   */
  function SplitRecords(s: seq<byte>): (r: (seq<seq<byte>>, seq<byte>))
    ensures Encodable(r.0) && Incomplete(r.1)
    ensures Records(r.0) + r.1 == s
    decreases |s|
  {
    if Incomplete(s) then ([], s)
    else
      var n := FromBeBytes(s[..4]);
      var rest := SplitRecords(s[4 + n..]);
      FirstRecordOf(s);
      RecordsCons(s[4..4 + n], rest.0);
      assert Records(rest.0) + rest.1 == s[4 + n..];
      assert (Record(s[4..4 + n]) + Records(rest.0)) + rest.1 == Record(s[4..4 + n]) + (Records(rest.0) + rest.1);
      ([s[4..4 + n]] + rest.0, rest.1)
  }

  lemma RecordsCons(m: seq<byte>, msgs: seq<seq<byte>>)
    requires |m| < TWO_TO_32 && Encodable(msgs)
    ensures Encodable([m] + msgs) && Records([m] + msgs) == Record(m) + Records(msgs)
  {
    assert ([m] + msgs)[1..] == msgs;
  }

  /** Bytes holding a whole record start with that record. */
  lemma FirstRecordOf(s: seq<byte>)
    requires !Incomplete(s)
    ensures var n := FromBeBytes(s[..4]);
      4 + n <= |s| && Record(s[4..4 + n]) + s[4 + n..] == s
  {
    var n := FromBeBytes(s[..4]);
    LengthRoundTrip(n);
    PrefixRoundTrip(s[..4]);
    assert Record(s[4..4 + n]) == s[..4 + n];
    SplitAt(s, 4 + n);
  }

  lemma SplitAt(s: seq<byte>, k: nat)
    requires k <= |s|
    ensures s[..k] + s[k..] == s
  {
  }

  /**
   * A reference definition of the loop on the level of messages: stop when
   * shutdown is requested, close when no whole record is left, stop when a
   * send fails, otherwise deliver the next message.
   */
  function Delivery(msgs: seq<seq<byte>>, end: StreamEnd, sig: Signals, sent: nat): Session
    decreases |msgs|
  {
    if ShutdownRequested(sig, sent) then Session([], Disconnected)
    else if msgs == [] then Closed(end, sig, sent)
    else if !ReceiverOpen(sig, sent) then Session([], ReceiverClosed)
    else Prepend([msgs[0]], Delivery(msgs[1..], end, sig, sent + 1))
  }

  /** One iteration over a whole record: the payload after the prefix is what is sent. */
  lemma FirstRecord(m: seq<byte>, after: seq<byte>, end: StreamEnd, sig: Signals, sent: nat)
    requires |m| < TWO_TO_32
    ensures ReadFrom(Record(m) + after, end, sig, sent) ==
      if ShutdownRequested(sig, sent) then Session([], Disconnected)
      else if !ReceiverOpen(sig, sent) then Session([], ReceiverClosed)
      else Prepend([m], ReadFrom(after, end, sig, sent + 1))
  {
    var s := Record(m) + after;
    LengthRoundTrip(|m|);
    assert s[..4] == ToBeBytes(|m|);
    assert s[4..4 + |m|] == m;
    assert s[4 + |m|..] == after;
  }

  /**
   * Reading a stream of whole records followed by an incomplete tail: each
   * delivered message is exactly the payload that followed its prefix, in
   * stream order, as the message-level reference says.
   */
  lemma {:induction false} ReadsRecords(msgs: seq<seq<byte>>, tail: seq<byte>, end: StreamEnd, sig: Signals, sent: nat)
    requires Encodable(msgs) && Incomplete(tail)
    ensures ReadFrom(Records(msgs) + tail, end, sig, sent) == Delivery(msgs, end, sig, sent)
    decreases |msgs|
  {
    if msgs == [] {
      assert Records(msgs) + tail == tail;
    } else {
      var after := Records(msgs[1..]) + tail;
      assert Records(msgs) + tail == Record(msgs[0]) + after;
      FirstRecord(msgs[0], after, end, sig, sent);
      ReadsRecords(msgs[1..], tail, end, sig, sent + 1);
    }
  }

  /** What the loop delivers from any byte stream at all. */
  lemma ReadsAnyStream(s: seq<byte>, end: StreamEnd, sig: Signals)
    ensures ReadFrom(s, end, sig, 0) == Delivery(SplitRecords(s).0, end, sig, 0)
  {
    var (msgs, tail) := SplitRecords(s);
    ReadsRecords(msgs, tail, end, sig, 0);
  }

  // ---------------------------------------------------------------------
  // Properties of the delivered sequence
  // ---------------------------------------------------------------------

  /** The sentinel the loop adds when the server closes. */
  function Sentinel(end: StreamEnd): seq<seq<byte>>
  {
    if end == Eof then [[]] else []
  }

  /**
   * With no shutdown and a live consumer, every whole record is delivered
   * in order; end of stream (including one at a record boundary) adds
   * exactly one empty sentinel, any other I/O error adds none.
   */
  lemma {:induction false} AllRecordsDelivered(msgs: seq<seq<byte>>, end: StreamEnd, sent: nat)
    ensures Delivery(msgs, end, NO_SIGNALS, sent) ==
      Session(msgs + Sentinel(end), if end == Eof then ServerClosed else ReadFailed)
    decreases |msgs|
  {
    if msgs != [] {
      AllRecordsDelivered(msgs[1..], end, sent + 1);
      assert [msgs[0]] + (msgs[1..] + Sentinel(end)) == msgs + Sentinel(end);
    }
  }

  /**
   * A disconnect requested before iteration d lets the records of the d
   * earlier iterations complete and delivers nothing more.
   */
  lemma {:induction false} DisconnectStops(msgs: seq<seq<byte>>, end: StreamEnd, d: nat, sent: nat)
    requires sent <= d <= sent + |msgs|
    ensures Delivery(msgs, end, Signals(Some(d), None), sent) == Session(msgs[..d - sent], Disconnected)
    decreases |msgs|
  {
    if d > sent {
      DisconnectStops(msgs[1..], end, d, sent + 1);
      assert [msgs[0]] + msgs[1..][..d - (sent + 1)] == msgs[..d - sent];
    }
  }

  /** Once the receiver is dropped after m messages, the loop stops at the next send. */
  lemma {:induction false} ReceiverDropStops(msgs: seq<seq<byte>>, end: StreamEnd, m: nat, sent: nat)
    requires sent <= m < sent + |msgs|
    ensures Delivery(msgs, end, Signals(None, Some(m)), sent) == Session(msgs[..m - sent], ReceiverClosed)
    decreases |msgs|
  {
    if m > sent {
      ReceiverDropStops(msgs[1..], end, m, sent + 1);
      assert [msgs[0]] + msgs[1..][..m - (sent + 1)] == msgs[..m - sent];
    }
  }

  /**
   * Whatever the signals, the consumer sees a prefix of the records, plus
   * the sentinel only after all of them and only at end of stream.
   */
  lemma {:induction false} DeliveredInOrder(msgs: seq<seq<byte>>, end: StreamEnd, sig: Signals, sent: nat)
    ensures var r := Delivery(msgs, end, sig, sent);
      (|r.delivered| <= |msgs| && r.delivered == msgs[..|r.delivered|])
      || (end == Eof && r.delivered == msgs + [[]] && r.exit == ServerClosed)
    decreases |msgs|
  {
    if !ShutdownRequested(sig, sent) && msgs != [] && ReceiverOpen(sig, sent) {
      DeliveredInOrder(msgs[1..], end, sig, sent + 1);
      var r := Delivery(msgs[1..], end, sig, sent + 1);
      if |r.delivered| <= |msgs[1..]| && r.delivered == msgs[1..][..|r.delivered|] {
        assert [msgs[0]] + r.delivered == msgs[..|r.delivered| + 1];
      } else {
        assert [msgs[0]] + r.delivered == msgs + [[]];
      }
    }
  }

  /**
   * A zero-length record followed by an I/O error and a server close right
   * away hand the consumer the same thing: one empty message.
   */
  lemma EmptyRecordLooksLikeClose()
    ensures ReadFrom(Record([]), Failure, NO_SIGNALS, 0).delivered == [[]]
    ensures ReadFrom([], Eof, NO_SIGNALS, 0).delivered == [[]]
  {
    FirstRecord([], [], Failure, NO_SIGNALS, 0);
    assert Record([]) + [] == Record([]);
    assert ReadFrom([], Failure, NO_SIGNALS, 1) == Session([], ReadFailed);
  }

  /**
   * Whatever follows it and however the stream ends, a zero-length record
   * reaches the consumer as the very message the sentinel is.
   */
  lemma ZeroLengthRecordIsSentinel(after: seq<byte>, end: StreamEnd)
    ensures var r := ReadFrom(Record([]) + after, end, NO_SIGNALS, 0);
      |r.delivered| > 0 && r.delivered[0] == Sentinel(Eof)[0]
  {
    FirstRecord([], after, end, NO_SIGNALS, 0);
  }

  // ---------------------------------------------------------------------
  // The loop itself
  // ---------------------------------------------------------------------

  /**
   * `read_exact`: fills `buf` from the stream at `pos`, or fails once the
   * stream has no more bytes, after taking what was left (those bytes are lost).
   */
  method ReadExact(received: seq<byte>, end: StreamEnd, pos: nat, buf: array<byte>) returns (r: ReadOutcome, next: nat)
    requires pos <= |received|
    modifies buf
    ensures r == if buf.Length <= |received| - pos then Filled else if end == Eof then UnexpectedEof else OtherError
    ensures r == Filled ==> next == pos + buf.Length && buf[..] == received[pos..pos + buf.Length]
    ensures r != Filled ==> next == |received|
  {
    if buf.Length <= |received| - pos {
      forall i | 0 <= i < buf.Length {
        buf[i] := received[pos + i];
      }
      r, next := Filled, pos + buf.Length;
    } else {
      forall i | 0 <= i < |received| - pos {
        buf[i] := received[pos + i];
      }
      r := if end == Eof then UnexpectedEof else OtherError;
      next := |received|;
    }
  }

  /** How the bytes from `pos` on look to the loop when a whole record is there. */
  lemma RestAt(s: seq<byte>, pos: nat)
    requires pos <= |s|
    ensures WholeRecordAt(s, pos) <==> !Incomplete(s[pos..])
    ensures WholeRecordAt(s, pos) ==> var n := FromBeBytes(s[pos..pos + 4]);
      FromBeBytes(s[pos..][..4]) == n && s[pos..][4..4 + n] == s[pos + 4..pos + 4 + n] &&
      s[pos..][4 + n..] == s[pos + 4 + n..]
  {
    if |s| - pos >= 4 {
      assert s[pos..][..4] == s[pos..pos + 4];
      if WholeRecordAt(s, pos) {
        var n := FromBeBytes(s[pos..pos + 4]);
        assert s[pos..][4..4 + n] == s[pos + 4..pos + 4 + n];
        assert s[pos..][4 + n..] == s[pos + 4 + n..];
      }
    }
  }

  /** The iterations that end the loop: shutdown, a failed read, a dropped receiver. */
  lemma StopCases(s: seq<byte>, pos: nat, end: StreamEnd, sig: Signals, sent: nat)
    requires pos <= |s|
    ensures ShutdownRequested(sig, sent) ==> ReadFrom(s[pos..], end, sig, sent) == Session([], Disconnected)
    ensures !ShutdownRequested(sig, sent) && !WholeRecordAt(s, pos) ==>
      ReadFrom(s[pos..], end, sig, sent) == Closed(end, sig, sent)
    ensures !ShutdownRequested(sig, sent) && WholeRecordAt(s, pos) && !ReceiverOpen(sig, sent) ==>
      ReadFrom(s[pos..], end, sig, sent) == Session([], ReceiverClosed)
  {
    RestAt(s, pos);
  }

  /** The loop's invariant carries over an iteration that delivers a whole record. */
  lemma DeliverStep(s: seq<byte>, pos: nat, end: StreamEnd, sig: Signals, delivered: seq<seq<byte>>)
    requires WholeRecordAt(s, pos)
    requires !ShutdownRequested(sig, |delivered|) && ReceiverOpen(sig, |delivered|)
    ensures var next := pos + 4 + FromBeBytes(s[pos..pos + 4]);
      Prepend(delivered, ReadFrom(s[pos..], end, sig, |delivered|)) ==
      Prepend(delivered + [s[pos + 4..next]], ReadFrom(s[next..], end, sig, |delivered| + 1))
  {
    var next := pos + 4 + FromBeBytes(s[pos..pos + 4]);
    RestAt(s, pos);
    var rest := ReadFrom(s[next..], end, sig, |delivered| + 1);
    assert ReadFrom(s[pos..], end, sig, |delivered|) == Prepend([s[pos + 4..next]], rest);
    assert delivered + ([s[pos + 4..next]] + rest.delivered) == (delivered + [s[pos + 4..next]]) + rest.delivered;
  }

  /**
   * The error arm after either read: on `UnexpectedEof` try to send the
   * empty sentinel (a failed send is only logged), then stop; on any other
   * error just stop.
   */
  method OnReadError(r: ReadOutcome, end: StreamEnd, sig: Signals, delivered: seq<seq<byte>>)
      returns (delivered': seq<seq<byte>>, exit: Exit)
    requires r != Filled && (r == UnexpectedEof <==> end == Eof)
    ensures Session(delivered', exit) == Prepend(delivered, Closed(end, sig, |delivered|))
  {
    delivered' := delivered;
    if r == UnexpectedEof {
      if ReceiverOpen(sig, |delivered|) {
        delivered' := delivered + [[]];
      }
      exit := ServerClosed;
    } else {
      exit := ReadFailed;
    }
  }

  /** Whether the stream holds a whole record (prefix and payload) at `pos`. */
  predicate WholeRecordAt(s: seq<byte>, pos: nat)
  {
    pos + 4 <= |s| && pos + 4 + FromBeBytes(s[pos..pos + 4]) <= |s|
  }

  /**
   * The two reads of one iteration: a 4-byte size buffer, then a payload
   * buffer of the decoded size. Either both fill, or the outcome of the
   * read that failed is reported.
   */
  method ReadRecord(received: seq<byte>, end: StreamEnd, pos: nat) returns (r: ReadOutcome, next: nat, payload: seq<byte>)
    requires pos <= |received|
    ensures r == Filled <==> WholeRecordAt(received, pos)
    ensures r == Filled ==> next == pos + 4 + FromBeBytes(received[pos..pos + 4]) <= |received|
    ensures r == Filled ==> payload == received[pos + 4..next]
    ensures r != Filled ==> (r == UnexpectedEof <==> end == Eof)
  {
    var sizeBuffer := new byte[4];
    r, next := ReadExact(received, end, pos, sizeBuffer);
    payload := [];
    if r == Filled {
      var frameSize := FromBeBytes(sizeBuffer[..]);
      assert sizeBuffer[..] == received[pos..pos + 4];
      var frameBuffer := new byte[frameSize];
      r, next := ReadExact(received, end, next, frameBuffer);
      if r == Filled {
        payload := frameBuffer[..];
      }
    }
  }

  /**
   * The background task of `connect_to_server`: check the shutdown flag,
   * read a 4-byte length, read that many payload bytes, forward them; on
   * end of stream forward one empty sentinel and stop, on any other error
   * stop silently, and stop when the consumer is gone.
   */
  method ReceiveLoop(received: seq<byte>, end: StreamEnd, sig: Signals) returns (delivered: seq<seq<byte>>, exit: Exit)
    ensures Session(delivered, exit) == ReadFrom(received, end, sig, 0)
    ensures Session(delivered, exit) == Delivery(SplitRecords(received).0, end, sig, 0)
  {
    ReadsAnyStream(received, end, sig);
    delivered := [];
    var pos := 0;
    assert received[pos..] == received;
    while true
      invariant pos <= |received|
      invariant ReadFrom(received, end, sig, 0) == Prepend(delivered, ReadFrom(received[pos..], end, sig, |delivered|))
      decreases |received| - pos
    {
      StopCases(received, pos, end, sig, |delivered|);
      if ShutdownRequested(sig, |delivered|) {
        exit := Disconnected;
        return;
      }
      var r, next, payload := ReadRecord(received, end, pos);
      if r != Filled {
        delivered, exit := OnReadError(r, end, sig, delivered);
        return;
      }
      if !ReceiverOpen(sig, |delivered|) {
        exit := ReceiverClosed;
        return;
      }
      DeliverStep(received, pos, end, sig, delivered);
      delivered := delivered + [payload];
      pos := next;
    }
  }
}
