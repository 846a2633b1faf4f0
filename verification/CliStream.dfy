/** The command-line transport over a byte stream: `readFrame` and `writeFrame`
    (`transport/cli/frame.go`), the server's chunked replies (`transport/cli/context.go`) and
    the client that reassembles them (`transport/cli/client.go`). */
module CliStream {
  import opened Wrappers
  import opened Octets
  import opened Wire

  const WIRE_CHUNK_SIZE: nat := 0x7FFF - 1
  const PACKET_TYPE_COMMAND: byte := 2
  const NEWLINE: byte := 10

  // ----- the stream's two ends -----

  class Reader {
    var unread: Bytes

    constructor (bs: Bytes)
      ensures unread == bs
    {
      unread := bs;
    }

    /** io.ReadFull; a short read drains the stream. */
    method ReadFull(n: nat) returns (r: Result<Bytes, ReadError>)
      modifies this
      ensures match Take(old(unread), n) {
                case Ok((part, rest)) => r == Ok(part) && unread == rest
                case Err(e) => r == Err(e) && unread == []
              }
      ensures n <= |old(unread)| ==> r == Ok(old(unread)[..n]) && unread == old(unread)[n..]
      ensures n > |old(unread)| ==> r == Err(if old(unread) == [] then EOF else UnexpectedEOF)
    {
      if n == 0 { return Ok([]); }
      if unread == [] { return Err(EOF); }
      if |unread| < n {
        unread := [];
        return Err(UnexpectedEOF);
      }
      r := Ok(unread[..n]);
      unread := unread[n..];
    }

    /** `got` are the leading fields of those that start with `start`; the others are unread. */
    ghost predicate Pending(start: Bytes, widths: seq<nat>, got: seq<Bytes>)
      reads this
    {
      && |got| <= |widths|
      && TakeAll(start, widths) ==
           match TakeAll(unread, widths[|got|..]) {
             case Ok((fields, rest)) => Ok((got + fields, rest))
             case Err(e) => Err(e)
           }
    }

    /** binary.Read of the next fixed-width field. */
    method ReadField(ghost start: Bytes, ghost widths: seq<nat>, ghost got: seq<Bytes>, width: nat)
      returns (r: Result<Bytes, ReadError>)
      requires Pending(start, widths, got) && |got| < |widths| && width == widths[|got|]
      modifies this
      ensures r.Ok? ==> |r.value| == width && Pending(start, widths, got + [r.value])
      ensures r.Err? ==> TakeAll(start, widths) == Err(r.error)
    {
      ghost var left := widths[|got|..];
      assert left[0] == width && left[1..] == widths[|got| + 1..];
      r := ReadFull(width);
      if r.Ok? {
        assert forall fields: seq<Bytes> :: got + ([r.value] + fields) == got + [r.value] + fields;
      }
    }

    method ReadHead(ghost start: Bytes, ghost widths: seq<nat>) returns (r: Result<seq<Bytes>, ReadError>)
      requires Pending(start, widths, []) && |widths| == 7 && widths[0] == widths[1] == 1 && widths[2] == 2
      modifies this
      ensures r.Ok? ==> |r.value| == 3 && Pending(start, widths, r.value)
      ensures r.Err? ==> TakeAll(start, widths) == Err(r.error)
    {
      var kind := ReadField(start, widths, [], 1);
      if kind.Err? { return Err(kind.error); }
      var got := [] + [kind.value];
      var flag := ReadField(start, widths, got, 1);
      if flag.Err? { return Err(flag.error); }
      got := got + [flag.value];
      var seqno := ReadField(start, widths, got, 2);
      if seqno.Err? { return Err(seqno.error); }
      return Ok(got + [seqno.value]);
    }

    method ReadTail(ghost start: Bytes, ghost widths: seq<nat>, head: seq<Bytes>) returns (r: Result<seq<Bytes>, ReadError>)
      requires |head| == 3 && Pending(start, widths, head)
      requires |widths| == 7 && widths[3] == widths[4] == 8 && widths[5] == widths[6] == 2
      modifies this
      ensures r.Ok? ==> |r.value| == 7 && Pending(start, widths, r.value)
      ensures r.Err? ==> TakeAll(start, widths) == Err(r.error)
    {
      var timeout := ReadField(start, widths, head, 8);
      if timeout.Err? { return Err(timeout.error); }
      var got := head + [timeout.value];
      var timestamp := ReadField(start, widths, got, 8);
      if timestamp.Err? { return Err(timestamp.error); }
      got := got + [timestamp.value];
      var dataLength := ReadField(start, widths, got, 2);
      if dataLength.Err? { return Err(dataLength.error); }
      got := got + [dataLength.value];
      var errorLength := ReadField(start, widths, got, 2);
      if errorLength.Err? { return Err(errorLength.error); }
      return Ok(got + [errorLength.value]);
    }

    /** The seven fixed-width fields, one after the other. */
    method ReadFields() returns (r: Result<seq<Bytes>, ReadError>)
      modifies this
      ensures match TakeAll(old(unread), WIDTHS) {
                case Ok((fields, rest)) => r == Ok(fields) && unread == rest
                case Err(e) => r == Err(e)
              }
    {
      ghost var start := unread;
      assert Pending(start, WIDTHS, []) by {
        assert forall fields: seq<Bytes> :: [] + fields == fields;
      }
      var head := ReadHead(start, WIDTHS);
      if head.Err? { return head; }
      r := ReadTail(start, WIDTHS, head.value);
      if r.Ok? {
        assert WIDTHS[|r.value|..] == [] && r.value + [] == r.value;
      }
    }

    method ReadFrame() returns (r: Result<Frame, ReadError>)
      modifies this
      ensures match Parse(old(unread)) {
                case Ok((f, rest)) => r == Ok(f) && unread == rest
                case Err(e) => r == Err(e)
              }
    {
      var feature := ReadFull(3);
      if feature.Err? { return Err(feature.error); }
      if feature.value != FEATURE { return Err(UnexpectedEOF); }
      var fields := ReadFields();
      if fields.Err? { return Err(fields.error); }
      var dataBytes, errBuf := [], [];
      var n := FromLE(fields.value[5]);
      if n > 0 {
        var data := ReadFull(n);
        if data.Err? { return Err(data.error); }
        dataBytes := data.value;
      }
      n := FromLE(fields.value[6]);
      if n > 0 {
        var error := ReadFull(n);
        if error.Err? { return Err(error.error); }
        errBuf := error.value;
      }
      return Ok(FrameOf(fields.value, dataBytes, errBuf));
    }
  }

  lemma {:induction false} ConcatAppends(parts: seq<Bytes>, part: Bytes)
    ensures Concat(parts + [part]) == Concat(parts) + part
    decreases |parts|
  {
    if parts == [] {
      assert [] + [part] == [part] && [part][1..] == [];
    } else {
      assert (parts + [part])[1..] == parts[1..] + [part];
      ConcatAppends(parts[1..], part);
    }
  }

  class Writer {
    var out: Bytes

    constructor ()
      ensures out == []
    {
      out := [];
    }

    method Write(bs: Bytes)
      modifies this
      ensures out == old(out) + bs
    {
      out := out + bs;
    }

    /** One binary.Write, after the fields already written. */
    method WriteField(ghost start: Bytes, ghost done: seq<Bytes>, field: Bytes)
      requires out == start + Concat(done)
      modifies this
      ensures out == start + Concat(done + [field])
    {
      ConcatAppends(done, field);
      Write(field);
    }

    /** The seven fixed-width fields, one after the other. */
    method WriteFields(f: Frame, dataLength: uint16, errorLength: uint16)
      modifies this
      ensures out == old(out) + Concat(Fields(f, dataLength, errorLength))
    {
      ghost var start, fs := out, Fields(f, dataLength, errorLength);
      assert start + Concat([]) == start && [] + [fs[0]] == fs[..1];
      WriteField(start, [], ToLE(1, f.kind));
      WriteField(start, fs[..1], ToLE(1, f.flag));
      assert fs[..1] + [fs[1]] == fs[..2];
      WriteField(start, fs[..2], ToLE(2, f.seqno));
      assert fs[..2] + [fs[2]] == fs[..3];
      WriteField(start, fs[..3], ToLE(8, Unsigned(f.timeout)));
      assert fs[..3] + [fs[3]] == fs[..4];
      WriteField(start, fs[..4], ToLE(8, Unsigned(f.timestamp)));
      assert fs[..4] + [fs[4]] == fs[..5];
      WriteField(start, fs[..5], ToLE(2, dataLength));
      assert fs[..5] + [fs[5]] == fs[..6];
      WriteField(start, fs[..6], ToLE(2, errorLength));
      assert fs[..6] + [fs[6]] == fs;
    }

    method WriteFrame(f: Frame) returns (err: Option<WriteError>)
      modifies this
      ensures out == old(out) + Written(f)
      ensures err.Some? <==> DataLength(f) > MAX_UINT16
      ensures f.data.Some? && |f.data.value| > 65535 ==> err == Some(NoProgress) && out == old(out) + [67, 76, 73]
    {
      ghost var start := out;
      Write(FEATURE);
      var dataLength, errorLength := 0, 0;
      if f.data.Some? {
        if |f.data.value| > MAX_UINT16 {
          return Some(NoProgress);
        }
        dataLength := |f.data.value|;
      }
      if f.error != [] {
        errorLength := |f.error| % 0x1_0000;
      }
      WriteFields(f, dataLength, errorLength);
      if dataLength > 0 {
        Write(f.data.value);
      }
      if errorLength > 0 {
        Write(f.error);
      }
      LayoutGrows(start, Fields(f, dataLength, errorLength), if dataLength > 0 then f.data.value else [],
                  if errorLength > 0 then f.error else []);
      return None;
    }
  }

  lemma LayoutGrows(start: Bytes, fs: seq<Bytes>, data: Bytes, error: Bytes)
    ensures start + FEATURE + Concat(fs) + data + error == start + Layout(fs, data, error)
    ensures start + FEATURE + Concat(fs) + data == start + FEATURE + Concat(fs) + data + []
    ensures start + FEATURE + Concat(fs) == start + FEATURE + Concat(fs) + []
  {
  }

  // ----- chunked replies -----

  /** The frames of one reply from its i-th chunk on, stamped by `clock`; only the last is
      marked complete. */
  function Chunks(kind: byte, seqno: uint16, buf: Bytes, clock: nat -> int64, i: nat): seq<Frame>
    decreases |buf|
  {
    if buf == [] then []
    else
      var n := if |buf| < WIRE_CHUNK_SIZE then |buf| else WIRE_CHUNK_SIZE;
      var flag := if n == |buf| then FLAG_COMPLETE else FLAG_PORTION;
      [Frame(kind, flag, seqno, 0, clock(i), Some(buf[..n]), [])] + Chunks(kind, seqno, buf[n..], clock, i + 1)
  }

  lemma {:induction false} WrittenAllAppends(fs: seq<Frame>, f: Frame)
    ensures WrittenAll(fs + [f]) == WrittenAll(fs) + Written(f)
    decreases |fs|
  {
    if fs == [] {
      assert [] + [f] == [f] && [f][1..] == [];
    } else {
      assert (fs + [f])[1..] == fs[1..] + [f];
      WrittenAllAppends(fs[1..], f);
    }
  }

  lemma FrameMoves(sent: seq<Frame>, f: Frame, rest: seq<Frame>)
    ensures sent + ([f] + rest) == sent + [f] + rest
  {
  }

  lemma ChunksUnfold(kind: byte, seqno: uint16, buf: Bytes, start: nat, end: nat, clock: nat -> int64, i: nat)
    requires start < |buf| && end == if start + WIRE_CHUNK_SIZE < |buf| then start + WIRE_CHUNK_SIZE else |buf|
    ensures Chunks(kind, seqno, buf[start..], clock, i)
         == [Frame(kind, if end == |buf| then FLAG_COMPLETE else FLAG_PORTION, seqno, 0, clock(i), Some(buf[start..end]), [])]
            + Chunks(kind, seqno, buf[end..], clock, i + 1)
  {
    var rest := buf[start..];
    assert rest[..end - start] == buf[start..end] && rest[end - start..] == buf[end..];
  }

  lemma PutAfter(start: Bytes, sent: Bytes, more: Bytes)
    ensures start + (sent + more) == start + sent + more
  {
  }

  /** One writeFrame of the loop below, after the frames already sent. */
  method SendFrame(w: Writer, f: Frame, ghost start: Bytes, ghost sent: seq<Frame>)
    requires w.out == start + WrittenAll(sent) && Fits(f)
    modifies w
    ensures w.out == start + WrittenAll(sent + [f])
  {
    var err := w.WriteFrame(f);
    WrittenAllAppends(sent, f);
    PutAfter(start, WrittenAll(sent), Written(f));
  }

  method WriteChunked(w: Writer, kind: byte, seqno: uint16, buf: Bytes, clock: nat -> int64)
    modifies w
    ensures w.out == old(w.out) + WrittenAll(Chunks(kind, seqno, buf, clock, 0))
  {
    var start, i := 0, 0;
    ghost var sent: seq<Frame> := [];
    ghost var before, whole := w.out, Chunks(kind, seqno, buf, clock, 0);
    assert buf[0..] == buf && before + WrittenAll(sent) == before;
    while start < |buf|
      invariant 0 <= start <= |buf| && i == |sent|
      invariant w.out == before + WrittenAll(sent)
      invariant whole == sent + Chunks(kind, seqno, buf[start..], clock, i)
    {
      var end := if start + WIRE_CHUNK_SIZE < |buf| then start + WIRE_CHUNK_SIZE else |buf|;
      var flag := FLAG_PORTION;
      if end == |buf| {
        flag := FLAG_COMPLETE;
      }
      var frame := Frame(kind, flag, seqno, 0, clock(i), Some(buf[start..end]), []);
      ChunksUnfold(kind, seqno, buf, start, end, clock, i);
      FrameMoves(sent, frame, Chunks(kind, seqno, buf[end..], clock, i + 1));
      SendFrame(w, frame, before, sent);
      sent := sent + [frame];
      start, i := end, i + 1;
    }
    assert buf[start..] == [] && sent + [] == sent;
  }

  /** A reply: an error goes out as one complete frame with its text, anything else in chunks. */
  method Send(w: Writer, kind: byte, seqno: uint16, code: int, text: Bytes, buf: Bytes, clock: nat -> int64)
    returns (err: Option<WriteError>)
    modifies w
    ensures err == None
    ensures w.out == old(w.out) + if code > 0 then Written(ErrorFrame(kind, seqno, text))
                                  else WrittenAll(Chunks(kind, seqno, buf, clock, 0))
  {
    if code > 0 {
      err := w.WriteFrame(Frame(kind, FLAG_COMPLETE, seqno, 0, 0, None, text));
      return;
    }
    WriteChunked(w, kind, seqno, buf, clock);
    return None;
  }

  /** The text is "ERROR(", the code, "): " and the message. */
  function ErrorFrame(kind: byte, seqno: uint16, text: Bytes): Frame { Frame(kind, 1, seqno, 0, 0, None, text) }

  // ----- the client -----

  /** What ioLoop hands to the channel of one packet type. */
  function OfKind(fs: seq<Frame>, kind: byte): seq<Frame> {
    if fs == [] then []
    else (if fs[0].kind == kind then [fs[0]] else []) + OfKind(fs[1..], kind)
  }

  function Own(fs: seq<Frame>, seqno: uint16): seq<Frame> {
    if fs == [] then []
    else (if fs[0].seqno == seqno then [fs[0]] else []) + Own(fs[1..], seqno)
  }

  function Shown(f: Frame): Bytes {
    if f.error != [] then f.error else if f.data.Some? then f.data.value else []
  }

  /** What a wait for `seqno` prints, how many frames it takes off the channel, and whether it
      saw the end of the reply; without it the wait goes on until a timeout. */
  datatype Outcome = Outcome(printed: Bytes, used: nat, complete: bool)

  method WaitResponse(channel: seq<Frame>, seqno: uint16) returns (o: Outcome)
    ensures o == Await(channel, seqno)
  {
    var printed, i := [], 0;
    Put([], 0, Await(channel, seqno));
    while i < |channel|
      invariant 0 <= i <= |channel|
      invariant Await(channel, seqno) == Ahead(printed, i, Await(channel[i..], seqno))
    {
      var res := channel[i];
      ghost var rest, more := channel[i..], Await(channel[i + 1..], seqno);
      assert rest[0] == res && rest[1..] == channel[i + 1..];
      i := i + 1;
      if res.seqno == seqno {
        ghost var before := printed;
        if res.error != [] {
          printed := printed + res.error;
        } else {
          printed := printed + (if res.data.Some? then res.data.value else []);
        }
        assert printed == before + Shown(res);
        if res.flag == FLAG_COMPLETE {
          EndsLine(before, Shown(res));
          return Outcome(printed + [NEWLINE], i, true);
        }
        Joins(before, Shown(res), i - 1, more);
      }
    }
    Put(printed, i, Await([], seqno));
    return Outcome(printed, i, false);
  }

  /** The rest of a wait, after some bytes were printed and some frames taken. */
  ghost function Ahead(printed: Bytes, used: nat, o: Outcome): Outcome {
    Outcome(printed + o.printed, used + o.used, o.complete)
  }

  lemma Put(printed: Bytes, used: nat, o: Outcome)
    ensures printed == [] && used == 0 ==> Ahead(printed, used, o) == o
    ensures o == Outcome([], 0, false) ==> Ahead(printed, used, o) == Outcome(printed, used, false)
  {
  }

  lemma EndsLine(printed: Bytes, shown: Bytes)
    ensures printed + (shown + [NEWLINE]) == (printed + shown) + [NEWLINE]
  {
  }

  lemma Joins(printed: Bytes, shown: Bytes, used: nat, o: Outcome)
    ensures Ahead(printed, used, Outcome(shown + o.printed, o.used + 1, o.complete)) == Ahead(printed + shown, used + 1, o)
  {
    assert printed + (shown + o.printed) == (printed + shown) + o.printed;
  }

  function Await(channel: seq<Frame>, seqno: uint16): (o: Outcome)
    ensures o.used <= |channel|
  {
    if channel == [] then Outcome([], 0, false)
    else
      var f := channel[0];
      if f.seqno != seqno then
        var more := Await(channel[1..], seqno);
        more.(used := more.used + 1)
      else if f.flag == FLAG_COMPLETE then Outcome(Shown(f) + [NEWLINE], 1, true)
      else
        var more := Await(channel[1..], seqno);
        Outcome(Shown(f) + more.printed, more.used + 1, more.complete)
  }

  // ----- the reply arrives whole -----

  /** The wait ends at the last frame of that number, having printed so much. */
  ghost predicate Answered(channel: seq<Frame>, seqno: uint16, printed: Bytes) {
    var o := Await(channel, seqno);
    && o.complete && o.printed == printed
    && 0 < o.used && channel[o.used - 1].seqno == seqno && Own(channel[o.used..], seqno) == []
  }

  lemma ForeignFirst(channel: seq<Frame>, seqno: uint16, printed: Bytes)
    requires channel != [] && channel[0].seqno != seqno && Answered(channel[1..], seqno, printed)
    ensures Answered(channel, seqno, printed)
  {
    var used := Await(channel[1..], seqno).used;
    assert channel[1..][used..] == channel[used + 1..];
  }

  lemma PortionFirst(channel: seq<Frame>, seqno: uint16, printed: Bytes)
    requires channel != [] && channel[0].seqno == seqno && channel[0].flag != FLAG_COMPLETE
    requires Answered(channel[1..], seqno, printed)
    ensures Answered(channel, seqno, Shown(channel[0]) + printed)
  {
    var used := Await(channel[1..], seqno).used;
    assert channel[1..][used..] == channel[used + 1..];
  }

  lemma CompleteFirst(channel: seq<Frame>, seqno: uint16)
    requires channel != [] && channel[0].seqno == seqno && channel[0].flag == FLAG_COMPLETE
    requires Own(channel[1..], seqno) == []
    ensures Answered(channel, seqno, Shown(channel[0]) + [NEWLINE])
  {
  }

  lemma OwnUnfolds(channel: seq<Frame>, seqno: uint16, f: Frame, more: seq<Frame>)
    requires channel != [] && channel[0].seqno == seqno && Own(channel, seqno) == [f] + more
    ensures channel[0] == f && Own(channel[1..], seqno) == more
  {
    assert Own(channel, seqno) == [channel[0]] + Own(channel[1..], seqno);
    assert ([f] + more)[0] == f && ([f] + more)[1..] == more;
    assert ([channel[0]] + Own(channel[1..], seqno))[1..] == Own(channel[1..], seqno);
  }

  lemma {:induction false} ReplyAwaited(channel: seq<Frame>, seqno: uint16, buf: Bytes, clock: nat -> int64, i: nat)
    requires Own(channel, seqno) == Chunks(PACKET_TYPE_COMMAND, seqno, buf, clock, i) && buf != []
    ensures Answered(channel, seqno, buf + [NEWLINE])
    decreases |channel|, 1
  {
    if channel[0].seqno != seqno {
      ReplyAwaited(channel[1..], seqno, buf, clock, i);
      ForeignFirst(channel, seqno, buf + [NEWLINE]);
    } else {
      ChunkAwaited(channel, seqno, buf, clock, i);
    }
  }

  lemma {:induction false} ChunkAwaited(channel: seq<Frame>, seqno: uint16, buf: Bytes, clock: nat -> int64, i: nat)
    requires channel != [] && channel[0].seqno == seqno && buf != []
    requires Own(channel, seqno) == Chunks(PACKET_TYPE_COMMAND, seqno, buf, clock, i)
    ensures Answered(channel, seqno, buf + [NEWLINE])
    decreases |channel|, 0
  {
    var n := if |buf| < WIRE_CHUNK_SIZE then |buf| else WIRE_CHUNK_SIZE;
    var flag := if n == |buf| then FLAG_COMPLETE else FLAG_PORTION;
    var f := Frame(PACKET_TYPE_COMMAND, flag, seqno, 0, clock(i), Some(buf[..n]), []);
    OwnUnfolds(channel, seqno, f, Chunks(PACKET_TYPE_COMMAND, seqno, buf[n..], clock, i + 1));
    if n < |buf| {
      ReplyAwaited(channel[1..], seqno, buf[n..], clock, i + 1);
      PortionFirst(channel, seqno, buf[n..] + [NEWLINE]);
      assert buf[..n] + (buf[n..] + [NEWLINE]) == buf + [NEWLINE];
    } else {
      CompleteFirst(channel, seqno);
      assert buf[..n] == buf;
    }
  }

  lemma OfKindAsRead(fs: seq<Frame>, kind: byte)
    ensures OfKind(AllAsRead(fs), kind) == AllAsRead(OfKind(fs, kind))
  {
    if fs != [] {
      OfKindAsRead(fs[1..], kind);
      assert AllAsRead(fs)[1..] == AllAsRead(fs[1..]);
      assert fs[0].kind == kind ==> OfKind(fs, kind)[1..] == OfKind(fs[1..], kind);
    }
  }

  lemma OwnAsRead(fs: seq<Frame>, seqno: uint16)
    ensures Own(AllAsRead(fs), seqno) == AllAsRead(Own(fs, seqno))
  {
    if fs != [] {
      OwnAsRead(fs[1..], seqno);
      assert AllAsRead(fs)[1..] == AllAsRead(fs[1..]);
      assert fs[0].seqno == seqno ==> Own(fs, seqno)[1..] == Own(fs[1..], seqno);
    }
  }

  lemma {:induction false} ChunksAsRead(kind: byte, seqno: uint16, buf: Bytes, clock: nat -> int64, i: nat)
    ensures var cs := Chunks(kind, seqno, buf, clock, i);
            AllAsRead(cs) == cs && forall f | f in cs :: Fits(f)
    decreases |buf|
  {
    if buf != [] {
      var n := if |buf| < WIRE_CHUNK_SIZE then |buf| else WIRE_CHUNK_SIZE;
      ChunksAsRead(kind, seqno, buf[n..], clock, i + 1);
    }
  }

  lemma {:induction false} NothingAwaited(channel: seq<Frame>, seqno: uint16)
    requires Own(channel, seqno) == []
    ensures Await(channel, seqno) == Outcome([], |channel|, false)
    decreases |channel|
  {
    if channel != [] {
      NothingAwaited(channel[1..], seqno);
    }
  }

  // ----- sequence numbers -----

  class Client {
    var sequence: uint16

    constructor ()
      ensures sequence == 0
    {
      sequence := 0;
    }

    method GetSequence() returns (r: uint16)
      modifies this
      ensures sequence == r == AfterCalls(old(sequence), 1)
      ensures r == if old(sequence) == 65535 then 1 else old(sequence) + 1
    {
      sequence := (sequence + 1) % 0x1_0000;
      if sequence == 0 {
        sequence := 1;
      }
      return sequence;
    }
  }

  /** The sequence number n calls later, one call at a time. */
  function AfterCalls(s: uint16, n: nat): uint16 {
    if n == 0 then s
    else
      var prev := AfterCalls(s, n - 1);
      if prev == MAX_UINT16 then 1 else prev + 1
  }

  lemma {:induction false} SequenceClosedForm(s: uint16, n: nat)
    requires n > 0
    ensures AfterCalls(s, n) == (s + n - 1) % 0xFFFF + 1
    decreases n
  {
    if n > 1 {
      SequenceClosedForm(s, n - 1);
    } else {
      assert AfterCalls(s, 0) == s;
    }
  }

  /** Zero is never issued, and two calls share a number exactly when they are a multiple of
      65535 calls apart. */
  lemma SequencesDistinct(s: uint16, i: nat, j: nat)
    requires 0 < i <= j
    ensures AfterCalls(s, i) != 0
    ensures AfterCalls(s, i) == AfterCalls(s, j) <==> (j - i) % 0xFFFF == 0
  {
    SequenceClosedForm(s, i);
    SequenceClosedForm(s, j);
  }
}
