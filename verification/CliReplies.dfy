/** Replies end to end: what the server chunks (`transport/cli/context.go`), writes and the client
    reads back, dispatches and waits for (`transport/cli/client.go`). */
module CliReplies {
  import opened CliStream
  import opened Octets
  import opened Wire
  import opened Wrappers

  // ----- chunks -----

  /** A reply goes out in pieces of 32766 bytes, the last one of what is left, in order, all but
      the last flagged as portions, and an empty one not at all. */
  lemma {:induction false} ChunksExact(kind: byte, seqno: uint16, buf: Bytes, clock: nat -> int64, i: nat)
    ensures var cs := Chunks(kind, seqno, buf, clock, i);
            && |cs| == (|buf| + 32765) / 32766
            && forall k | 0 <= k < |cs| ::
                 var end := if k == |cs| - 1 then |buf| else 32766 * (k + 1);
                 && 32766 * k < end <= |buf|
                 && cs[k] == Frame(kind, if k == |cs| - 1 then 1 else 0, seqno, 0, clock(i + k), Some(buf[32766 * k..end]), [])
    decreases |buf|
  {
    if |buf| > 32766 {
      var cs, more := Chunks(kind, seqno, buf, clock, i), Chunks(kind, seqno, buf[32766..], clock, i + 1);
      ChunksExact(kind, seqno, buf[32766..], clock, i + 1);
      forall k | 0 <= k < |cs|
        ensures var end := if k == |cs| - 1 then |buf| else 32766 * (k + 1);
                && 32766 * k < end <= |buf|
                && cs[k] == Frame(kind, if k == |cs| - 1 then 1 else 0, seqno, 0, clock(i + k), Some(buf[32766 * k..end]), [])
      {
        if k > 0 {
          var end := if k == |cs| - 1 then |buf| else 32766 * (k + 1);
          assert cs[k] == more[k - 1];
          assert buf[32766..][32766 * (k - 1)..end - 32766] == buf[32766 * k..end];
        }
      }
    } else if buf != [] {
      assert buf[|buf|..] == [];
    }
  }

  // ----- the client's read loop -----

  lemma ParseShrinks(bs: Bytes)
    requires Parse(bs).Ok?
    ensures |Parse(bs).value.1| < |bs|
  {
    ParseCanonical(bs);
    LayoutExact(Parse(bs).value.0);
  }

  /** The frames a stream holds, up to the first that cannot be read. */
  function Frames(bs: Bytes): seq<Frame>
    decreases |bs|
  {
    var one := Parse(bs);
    if one.Err? then []
    else
      ParseShrinks(bs);
      [one.value.0] + Frames(one.value.1)
  }

  lemma {:induction false} FramesWritten(fs: seq<Frame>, rest: Bytes)
    requires forall f | f in fs :: Fits(f)
    ensures Frames(WrittenAll(fs) + rest) == AllAsRead(fs) + Frames(rest)
    decreases |fs|
  {
    if fs == [] {
      assert [] + rest == rest && [] + Frames(rest) == Frames(rest);
    } else {
      var tail := WrittenAll(fs[1..]) + rest;
      BytesMove(Written(fs[0]), WrittenAll(fs[1..]), rest);
      assert Fits(fs[0]);
      FrameRoundTrip(fs[0], tail);
      FramesWritten(fs[1..], rest);
      FramesMove([AsRead(fs[0])], AllAsRead(fs[1..]), Frames(rest));
      FramesFirst(AsRead(fs[0]), Written(fs[0]) + tail, tail);
    }
  }

  lemma FramesFirst(f: Frame, bs: Bytes, rest: Bytes)
    requires Parse(bs) == Ok((f, rest))
    ensures Frames(bs) == [f] + Frames(rest)
  {
  }

  lemma BytesMove(a: Bytes, b: Bytes, c: Bytes)
    ensures a + b + c == a + (b + c)
  {
  }

  lemma FramesMove(a: seq<Frame>, b: seq<Frame>, c: seq<Frame>)
    ensures a + b + c == a + (b + c)
  {
  }

  lemma {:induction false} OfKindAppends(fs: seq<Frame>, f: Frame, kind: byte)
    ensures OfKind(fs + [f], kind) == OfKind(fs, kind) + (if f.kind == kind then [f] else [])
    decreases |fs|
  {
    if fs == [] {
      assert [] + [f] == [f] && [f][1..] == [];
    } else {
      assert (fs + [f])[1..] == fs[1..] + [f];
      OfKindAppends(fs[1..], f, kind);
    }
  }

  lemma {:induction false} OwnAppends(fs: seq<Frame>, f: Frame, seqno: uint16)
    ensures Own(fs + [f], seqno) == Own(fs, seqno) + (if f.seqno == seqno then [f] else [])
    decreases |fs|
  {
    if fs == [] {
      assert [] + [f] == [f] && [f][1..] == [];
    } else {
      assert (fs + [f])[1..] == fs[1..] + [f];
      OwnAppends(fs[1..], f, seqno);
    }
  }

  /** Reads until a frame cannot be read, and hands each on by its packet type. */
  method IoLoop(r: Reader) returns (handshakes: seq<Frame>, completers: seq<Frame>, commands: seq<Frame>)
    modifies r
    ensures var fs := Frames(old(r.unread));
            handshakes == OfKind(fs, 3) && completers == OfKind(fs, 1) && commands == OfKind(fs, 2)
  {
    handshakes, completers, commands := [], [], [];
    ghost var all, got := Frames(r.unread), [];
    while true
      invariant all == got + Frames(r.unread)
      invariant handshakes == OfKind(got, 3) && completers == OfKind(got, 1) && commands == OfKind(got, 2)
      decreases |r.unread|
    {
      ghost var before := r.unread;
      var frame := r.ReadFrame();
      if frame.Err? {
        assert got + [] == got;
        return;
      }
      ParseShrinks(before);
      FrameMoves(got, frame.value, Frames(r.unread));
      handshakes, completers, commands := HandOn(frame.value, got, handshakes, completers, commands);
      got := got + [frame.value];
    }
  }

  method HandOn(f: Frame, ghost got: seq<Frame>, hs: seq<Frame>, ts: seq<Frame>, cs: seq<Frame>)
    returns (handshakes: seq<Frame>, completers: seq<Frame>, commands: seq<Frame>)
    requires hs == OfKind(got, 3) && ts == OfKind(got, 1) && cs == OfKind(got, 2)
    ensures handshakes == OfKind(got + [f], 3) && completers == OfKind(got + [f], 1) && commands == OfKind(got + [f], 2)
  {
    OfKindAppends(got, f, 3);
    OfKindAppends(got, f, 1);
    OfKindAppends(got, f, 2);
    handshakes, completers, commands := hs, ts, cs;
    if f.kind == 3 {
      handshakes := handshakes + [f];
    } else if f.kind == 1 {
      completers := completers + [f];
    } else if f.kind == 2 {
      commands := commands + [f];
    }
  }

  // ----- where a reply stands among other frames -----

  /** The frames stand at these positions, in order, and no other command frame of that number
      stands anywhere. */
  ghost predicate Stand(fs: seq<Frame>, seqno: uint16, at: seq<nat>, frames: seq<Frame>) {
    && |at| == |frames| && (forall k | 0 <= k < |at| :: at[k] < |fs| && fs[at[k]] == frames[k])
    && (forall j, k | 0 <= j < k < |at| :: at[j] < at[k])
    && forall i: nat | i < |fs| :: fs[i].kind == 2 && fs[i].seqno == seqno <==> i in at
  }

  lemma {:induction false} StandAreOwn(fs: seq<Frame>, seqno: uint16, at: seq<nat>, frames: seq<Frame>)
    requires Stand(fs, seqno, at, frames)
    ensures Own(OfKind(fs, 2), seqno) == frames
    decreases |fs|
  {
    if fs == [] {
      SomeBelow(at, |fs|);
    } else {
      var n := |fs| - 1;
      var f, front := fs[n], fs[..n];
      assert fs == front + [f];
      OfKindAppends(front, f, 2);
      OwnAppends(OfKind(front, 2), f, seqno);
      if f.kind == 2 && f.seqno == seqno {
        LastStands(fs, seqno, at, frames);
        StandAreOwn(front, seqno, at[..|at| - 1], frames[..|frames| - 1]);
      } else {
        assert forall i: nat | i < n :: front[i] == fs[i];
        assert n !in at;
        assert forall k | 0 <= k < |at| :: at[k] != n;
        StandAreOwn(front, seqno, at, frames);
        assert Own(OfKind(front, 2), seqno) + [] == frames && OfKind(front, 2) + [] == OfKind(front, 2);
      }
    }
  }

  lemma SomeBelow(at: seq<nat>, n: nat)
    requires forall k | 0 <= k < |at| :: at[k] < n
    ensures at == [] || n > 0
  {
    if at != [] { assert at[0] < n; }
  }

  lemma TopIsLast(at: seq<nat>, n: nat, k: nat)
    requires (forall j | 0 <= j < |at| :: at[j] <= n) && (forall i, j | 0 <= i < j < |at| :: at[i] < at[j])
    requires k < |at| && at[k] == n
    ensures k == |at| - 1
  {
    var last := at[|at| - 1];
    assert last <= n;
  }

  lemma LastStands(fs: seq<Frame>, seqno: uint16, at: seq<nat>, frames: seq<Frame>)
    requires Stand(fs, seqno, at, frames) && fs != [] && fs[|fs| - 1].kind == 2 && fs[|fs| - 1].seqno == seqno
    ensures at != [] && frames == frames[..|frames| - 1] + [fs[|fs| - 1]]
    ensures Stand(fs[..|fs| - 1], seqno, at[..|at| - 1], frames[..|frames| - 1])
  {
    var n := |fs| - 1;
    assert n in at;
    var k :| 0 <= k < |at| && at[k] == n;
    TopIsLast(at, n, k);
    assert fs[at[k]] == frames[k];
    FrontStands(fs, seqno, at, frames, n, k);
  }

  lemma FrontStands(fs: seq<Frame>, seqno: uint16, at: seq<nat>, frames: seq<Frame>, n: nat, m: nat)
    requires Stand(fs, seqno, at, frames) && n + 1 == |fs| && m + 1 == |at| && at[m] == n
    ensures Stand(fs[..n], seqno, at[..m], frames[..m])
  {
    var front, places := fs[..n], at[..m];
    forall k | 0 <= k < m ensures places[k] < n && front[places[k]] == frames[..m][k] {
      assert at[k] < at[m];
    }
    forall i: nat | i < n ensures i in at <==> i in places { InFront(at, m, i); }
  }

  lemma InFront(at: seq<nat>, m: nat, i: nat)
    requires m + 1 == |at| && i != at[m]
    ensures i in at <==> i in at[..m]
  {
    assert at == at[..m] + [at[m]];
  }

  // ----- the reply arrives whole -----

  lemma {:induction false} NoneOwn(fs: seq<Frame>, seqno: uint16)
    ensures Own(fs, seqno) == [] <==> forall i | 0 <= i < |fs| :: fs[i].seqno != seqno
    decreases |fs|
  {
    if fs != [] {
      NoneOwn(fs[1..], seqno);
      assert forall i | 0 < i < |fs| :: fs[i] == fs[1..][i - 1];
    }
  }

  /** The wait saw the end, printed so much and a line end, and left none of its frames behind. */
  ghost predicate Delivered(channel: seq<Frame>, seqno: uint16, printed: Bytes) {
    var o := Await(channel, seqno);
    && o.complete && o.printed == printed + [10] && 0 < o.used <= |channel|
    && channel[o.used - 1].seqno == seqno && channel[o.used - 1].flag == 1
    && forall i | o.used <= i < |channel| :: channel[i].seqno != seqno
  }

  lemma AnsweredDelivers(channel: seq<Frame>, seqno: uint16, printed: Bytes)
    requires Answered(channel, seqno, printed + [10])
    ensures Delivered(channel, seqno, printed)
  {
    var o := Await(channel, seqno);
    NoneOwn(channel[o.used..], seqno);
    forall i | o.used <= i < |channel| ensures channel[i].seqno != seqno { assert channel[i] == channel[o.used..][i - o.used]; }
    AwaitEnds(channel, seqno);
  }

  lemma ReceivedOwn(fs: seq<Frame>, seqno: uint16, at: seq<nat>, frames: seq<Frame>, rest: Bytes)
    requires (forall f | f in fs :: Fits(f)) && Stand(fs, seqno, at, frames) && Parse(rest).Err?
    ensures Own(OfKind(Frames(WrittenAll(fs) + rest), 2), seqno) == AllAsRead(frames)
  {
    FramesWritten(fs, rest);
    assert AllAsRead(fs) + [] == AllAsRead(fs);
    OfKindAsRead(fs, 2);
    OwnAsRead(OfKind(fs, 2), seqno);
    StandAreOwn(fs, seqno, at, frames);
  }

  /** End to end: the server's frames, among which the chunks of one reply stand in order, are
      written out and read back until the stream ends; the client's wait prints exactly the
      reply and stops at its last chunk, whatever frames of other sequence numbers or packet
      types surround them. It sees an end if and only if the reply is not empty: an empty one
      sends no frame at all. */
  lemma ReplyDelivered(fs: seq<Frame>, seqno: uint16, at: seq<nat>, buf: Bytes, clock: nat -> int64, rest: Bytes)
    requires (forall f | f in fs :: Fits(f)) && Parse(rest).Err?
    requires Stand(fs, seqno, at, Chunks(2, seqno, buf, clock, 0))
    ensures var channel := OfKind(Frames(WrittenAll(fs) + rest), 2);
            if buf == [] then Await(channel, seqno) == Outcome([], |channel|, false) else Delivered(channel, seqno, buf)
  {
    var channel := OfKind(Frames(WrittenAll(fs) + rest), 2);
    ReceivedOwn(fs, seqno, at, Chunks(2, seqno, buf, clock, 0), rest);
    ChunksAsRead(2, seqno, buf, clock, 0);
    if buf == [] {
      NothingAwaited(channel, seqno);
    } else {
      ReplyAwaited(channel, seqno, buf, clock, 0);
      AnsweredDelivers(channel, seqno, buf);
    }
  }

  /** An error reply is printed as its text, likewise. */
  lemma ErrorDelivered(fs: seq<Frame>, seqno: uint16, at: seq<nat>, text: Bytes, rest: Bytes)
    requires (forall f | f in fs :: Fits(f)) && Parse(rest).Err? && text != []
    requires Stand(fs, seqno, at, [ErrorFrame(2, seqno, text)])
    ensures Delivered(OfKind(Frames(WrittenAll(fs) + rest), 2), seqno, text)
  {
    var channel, f := OfKind(Frames(WrittenAll(fs) + rest), 2), ErrorFrame(2, seqno, text);
    ReceivedOwn(fs, seqno, at, [f], rest);
    assert [f][1..] == [] && AllAsRead([f]) == [f];
    OneAwaited(channel, seqno, f);
    AnsweredDelivers(channel, seqno, text);
  }

  lemma {:induction false} OneAwaited(channel: seq<Frame>, seqno: uint16, f: Frame)
    requires Own(channel, seqno) == [f] && f.seqno == seqno && f.flag == FLAG_COMPLETE
    ensures Answered(channel, seqno, Shown(f) + [NEWLINE])
    decreases |channel|
  {
    if channel[0].seqno != seqno {
      OneAwaited(channel[1..], seqno, f);
      ForeignFirst(channel, seqno, Shown(f) + [NEWLINE]);
    } else {
      assert [f] == [f] + [];
      OwnUnfolds(channel, seqno, f, []);
      CompleteFirst(channel, seqno);
    }
  }

  // ----- what a wait does with any channel -----

  /** The printouts of that number's frames, one after the other: the error's text if it has one,
      else its data. */
  function Printout(fs: seq<Frame>, seqno: uint16): Bytes {
    if fs == [] then []
    else
      var f := fs[|fs| - 1];
      Printout(fs[..|fs| - 1], seqno)
      + (if f.seqno != seqno then [] else if f.error != [] then f.error else match f.data case Some(d) => d case None => [])
  }

  lemma {:induction false} PrintoutCons(fs: seq<Frame>, seqno: uint16)
    requires fs != []
    ensures Printout(fs, seqno) == (if fs[0].seqno == seqno then Shown(fs[0]) else []) + Printout(fs[1..], seqno)
    decreases |fs|
  {
    var n := |fs| - 1;
    if n > 0 {
      PrintoutCons(fs[..n], seqno);
      assert fs[..n][1..] == fs[1..][..n - 1] && fs[1..][n - 1] == fs[n];
    }
  }

  lemma {:induction false} AwaitEnds(channel: seq<Frame>, seqno: uint16)
    ensures var o := Await(channel, seqno);
            && (o.complete ==> 0 < o.used <= |channel| && channel[o.used - 1].seqno == seqno && channel[o.used - 1].flag == 1)
            && (!o.complete ==> o.used == |channel|)
            && forall i | 0 <= i < (if o.complete then o.used - 1 else o.used) :: !(channel[i].seqno == seqno && channel[i].flag == 1)
    decreases |channel|
  {
    if channel != [] {
      AwaitEnds(channel[1..], seqno);
      assert forall i | 0 < i < |channel| :: channel[i] == channel[1..][i - 1];
    }
  }

  /** A wait takes frames up to the first complete one of its number, or all there are, and prints
      what those of its number hold, with a line end once it has seen the complete one. */
  lemma {:induction false} AwaitExact(channel: seq<Frame>, seqno: uint16)
    ensures var o := Await(channel, seqno);
            && o.used <= |channel|
            && (if o.complete then 0 < o.used && channel[o.used - 1].seqno == seqno && channel[o.used - 1].flag == 1
                else o.used == |channel|)
            && (forall i | 0 <= i < (if o.complete then o.used - 1 else o.used) :: !(channel[i].seqno == seqno && channel[i].flag == 1))
            && o.printed == Printout(channel[..o.used], seqno) + (if o.complete then [10] else [])
    decreases |channel|
  {
    AwaitEnds(channel, seqno);
    if channel != [] {
      AwaitExact(channel[1..], seqno);
      AwaitPrints(channel, seqno);
    }
  }

  lemma AwaitPrints(channel: seq<Frame>, seqno: uint16)
    requires channel != []
    requires var o := Await(channel[1..], seqno);
             o.used < |channel| && o.printed == Printout(channel[1..][..o.used], seqno) + (if o.complete then [10] else [])
    ensures var o := Await(channel, seqno);
            o.used <= |channel| && o.printed == Printout(channel[..o.used], seqno) + (if o.complete then [10] else [])
  {
    var o, rest := Await(channel, seqno), channel[1..];
    var taken := channel[..o.used];
    assert taken[0] == channel[0] && taken[1..] == rest[..o.used - 1];
    PrintoutCons(taken, seqno);
    if channel[0].seqno == seqno && channel[0].flag == FLAG_COMPLETE {
      assert taken[1..] == [];
    } else {
      BytesMove(if channel[0].seqno == seqno then Shown(channel[0]) else [], Printout(taken[1..], seqno), if o.complete then [10] else []);
    }
  }
}
