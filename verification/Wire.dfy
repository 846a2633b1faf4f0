/** The frame codec of `transport/cli/frame.go`, over byte sequences. */
module Wire {
  import opened Octets
  import opened Wrappers

  type uint16 = x: int | 0 <= x < 0x1_0000
  type int64 = x: int | -0x8000_0000_0000_0000 <= x < 0x8000_0000_0000_0000

  const FEATURE: Bytes := [67, 76, 73]   // "CLI"
  const WIDTHS: seq<nat> := [1, 1, 2, 8, 8, 2, 2]
  const MAX_UINT16: int := 0xFFFF
  const FLAG_PORTION: byte := 0
  const FLAG_COMPLETE: byte := 1

  /** `data` is None where the program's slice is nil; `error` holds the string's bytes. */
  datatype Frame = Frame(kind: byte, flag: byte, seqno: uint16, timeout: int64, timestamp: int64,
                         data: Option<Bytes>, error: Bytes)

  datatype ReadError = EOF | UnexpectedEOF

  datatype WriteError = NoProgress

  // ----- little-endian integers -----

  function ToLE(n: nat, v: nat): (r: Bytes)
    ensures |r| == n
  {
    if n == 0 then [] else [v % 256] + ToLE(n - 1, v / 256)
  }

  function FromLE(bs: Bytes): nat {
    if bs == [] then 0 else bs[0] + 256 * FromLE(bs[1..])
  }

  function Pow256(n: nat): (r: nat)
    ensures r > 0
  {
    if n == 0 then 1 else 256 * Pow256(n - 1)
  }

  lemma {:induction false} FromToLE(n: nat, v: nat)
    requires v < Pow256(n)
    ensures FromLE(ToLE(n, v)) == v
  {
    if n > 0 {
      FromToLE(n - 1, v / 256);
      assert ToLE(n, v)[1..] == ToLE(n - 1, v / 256);
    }
  }

  lemma {:induction false} ToFromLE(bs: Bytes)
    ensures FromLE(bs) < Pow256(|bs|) && ToLE(|bs|, FromLE(bs)) == bs
    decreases |bs|
  {
    if bs != [] {
      var low, v := bs[0], FromLE(bs[1..]);
      ToFromLE(bs[1..]);
      LowByte(low, v);
      assert ToLE(|bs|, low + 256 * v) == [low] + ToLE(|bs| - 1, v);
    }
  }

  lemma LowByte(low: byte, v: nat)
    ensures (low + 256 * v) % 256 == low && (low + 256 * v) / 256 == v
  {
  }

  lemma Widths()
    ensures Pow256(1) == 0x100 && Pow256(2) == 0x1_0000 && Pow256(8) == 0x1_0000_0000_0000_0000
  {
    assert Pow256(4) == 256 * Pow256(3) && Pow256(3) == 256 * Pow256(2);
    assert Pow256(8) == 256 * Pow256(7) && Pow256(7) == 256 * Pow256(6) && Pow256(6) == 256 * Pow256(5);
    assert Pow256(5) == 256 * Pow256(4);
  }

  /** Two's complement in eight bytes. */
  function Unsigned(v: int64): nat { v % 0x1_0000_0000_0000_0000 }

  function Signed(u: nat): int64
    requires u < 0x1_0000_0000_0000_0000
  {
    if u < 0x8000_0000_0000_0000 then u else u - 0x1_0000_0000_0000_0000
  }

  // ----- writing -----

  function DataLength(f: Frame): nat { if f.data.Some? then |f.data.value| else 0 }

  /** The error's length is converted to uint16 without a check: it wraps. */
  function ErrorLength(f: Frame): uint16 { |f.error| % 0x1_0000 }

  function Concat(parts: seq<Bytes>): Bytes {
    if parts == [] then [] else parts[0] + Concat(parts[1..])
  }

  /** The fixed-width fields between the feature bytes and the payloads. */
  function Fields(f: Frame, dataLength: uint16, errorLength: uint16): (r: seq<Bytes>)
    ensures |r| == |WIDTHS| && forall i | 0 <= i < |r| :: |r[i]| == WIDTHS[i]
  {
    [ToLE(1, f.kind), ToLE(1, f.flag), ToLE(2, f.seqno), ToLE(8, Unsigned(f.timeout)),
     ToLE(8, Unsigned(f.timestamp)), ToLE(2, dataLength), ToLE(2, errorLength)]
  }

  function Layout(fields: seq<Bytes>, data: Bytes, error: Bytes): Bytes {
    FEATURE + (Concat(fields) + (data + error))
  }

  /** Everything a write puts on the wire. Oversized data is refused only after the feature
      bytes have gone out; an oversized error goes out whole behind a wrapped length. */
  function Written(f: Frame): Bytes {
    if DataLength(f) > MAX_UINT16 then FEATURE
    else
      Layout(Fields(f, DataLength(f), ErrorLength(f)), if f.data.Some? then f.data.value else [],
             if ErrorLength(f) > 0 then f.error else [])
  }

  // ----- reading -----

  /** io.ReadFull: EOF when nothing is left, UnexpectedEOF when too little is. */
  function Take(bs: Bytes, n: nat): Result<(Bytes, Bytes), ReadError> {
    if n == 0 then Ok(([], bs))
    else if bs == [] then Err(EOF)
    else if |bs| < n then Err(UnexpectedEOF)
    else Ok((bs[..n], bs[n..]))
  }

  /** Fields of the given widths, one read after the other; the first short read is reported. */
  function TakeAll(bs: Bytes, widths: seq<nat>): (r: Result<(seq<Bytes>, Bytes), ReadError>)
    ensures r.Ok? ==>
      |r.value.0| == |widths| && forall i | 0 <= i < |widths| :: |r.value.0[i]| == widths[i]
    decreases |widths|
  {
    if widths == [] then Ok(([], bs))
    else
      var one := Take(bs, widths[0]);
      if one.Err? then Err(one.error)
      else
        var more := TakeAll(one.value.1, widths[1..]);
        if more.Err? then Err(more.error) else Ok(([one.value.0] + more.value.0, more.value.1))
  }

  function FrameOf(fields: seq<Bytes>, data: Bytes, error: Bytes): Frame
    requires |fields| == |WIDTHS| && forall i | 0 <= i < |fields| :: |fields[i]| == WIDTHS[i]
  {
    FieldFits(fields[0]); FieldFits(fields[1]); FieldFits(fields[2]); FieldFits(fields[3]); FieldFits(fields[4]);
    Frame(FromLE(fields[0]), FromLE(fields[1]), FromLE(fields[2]), Signed(FromLE(fields[3])), Signed(FromLE(fields[4])),
          if data == [] then None else Some(data), error)
  }

  /** One frame and what follows it. */
  function Parse(bs: Bytes): Result<(Frame, Bytes), ReadError> {
    var feature := Take(bs, 3);
    if feature.Err? then Err(feature.error)
    else if feature.value.0 != FEATURE then Err(UnexpectedEOF)
    else
      var head := TakeAll(feature.value.1, WIDTHS);
      if head.Err? then Err(head.error)
      else
        var data := Take(head.value.1, FromLE(head.value.0[5]));
        if data.Err? then Err(data.error)
        else
          var error := Take(data.value.1, FromLE(head.value.0[6]));
          if error.Err? then Err(error.error)
          else Ok((FrameOf(head.value.0, data.value.0, error.value.0), error.value.1))
  }

  lemma FieldFits(bs: Bytes)
    ensures |bs| == 1 ==> FromLE(bs) < 0x100
    ensures |bs| == 2 ==> FromLE(bs) < 0x1_0000
    ensures |bs| == 8 ==> FromLE(bs) < 0x1_0000_0000_0000_0000
  {
    Widths();
    ToFromLE(bs);
  }

  // ----- reading back what was written -----

  lemma {:induction false} TakeAllReads(parts: seq<Bytes>, widths: seq<nat>, rest: Bytes)
    requires |parts| == |widths| && forall i | 0 <= i < |parts| :: |parts[i]| == widths[i]
    ensures TakeAll(Concat(parts) + rest, widths) == Ok((parts, rest))
    decreases |parts|
  {
    if parts == [] {
      assert [] + rest == rest;
    } else {
      var bs := Concat(parts) + rest;
      assert bs == parts[0] + (Concat(parts[1..]) + rest);
      TakeReads(parts[0], Concat(parts[1..]) + rest);
      TakeAllReads(parts[1..], widths[1..], rest);
      assert Take(bs, widths[0]) == Ok((parts[0], Concat(parts[1..]) + rest));
      assert [parts[0]] + parts[1..] == parts;
    }
  }

  lemma TakeReads(part: Bytes, rest: Bytes)
    ensures Take(part + rest, |part|) == Ok((part, rest))
  {
    assert (part + rest)[..|part|] == part && (part + rest)[|part|..] == rest;
    assert part == [] ==> part + rest == rest;
  }

  /** The frame a reader sees: empty data comes back as nil. */
  function AsRead(f: Frame): Frame {
    f.(data := if f.data == Some([]) then None else f.data)
  }

  lemma {:induction false} FieldsReadBack(f: Frame, data: Bytes, error: Bytes, dataLength: uint16, errorLength: uint16)
    ensures var fs := Fields(f, dataLength, errorLength);
            && FrameOf(fs, data, error) == f.(data := if data == [] then None else Some(data), error := error)
            && FromLE(fs[5]) == dataLength && FromLE(fs[6]) == errorLength
  {
    Widths();
    FromToLE(1, f.kind); FromToLE(1, f.flag); FromToLE(2, f.seqno); FromToLE(8, Unsigned(f.timeout));
    FromToLE(8, Unsigned(f.timestamp)); FromToLE(2, dataLength); FromToLE(2, errorLength);
  }

  lemma LayoutSplit(fs: seq<Bytes>, data: Bytes, e1: Bytes, e2: Bytes, rest: Bytes)
    ensures Layout(fs, data, e1 + e2) + rest == FEATURE + (Concat(fs) + (data + (e1 + (e2 + rest))))
  {
    assert data + (e1 + (e2 + rest)) == data + (e1 + e2) + rest;
    assert Concat(fs) + (data + (e1 + e2) + rest) == Concat(fs) + (data + (e1 + e2)) + rest;
  }

  lemma ParsePieces(fs: seq<Bytes>, data: Bytes, e1: Bytes, e2: Bytes, rest: Bytes)
    requires |fs| == |WIDTHS| && forall i | 0 <= i < |fs| :: |fs[i]| == WIDTHS[i]
    requires FromLE(fs[5]) == |data| && FromLE(fs[6]) == |e1|
    ensures Parse(Layout(fs, data, e1 + e2) + rest) == Ok((FrameOf(fs, data, e1), e2 + rest))
  {
    var body := Concat(fs) + (data + (e1 + (e2 + rest)));
    LayoutSplit(fs, data, e1, e2, rest);
    TakeReads(FEATURE, body);
    assert Take(FEATURE + body, 3) == Ok((FEATURE, body));
    TakeAllReads(fs, WIDTHS, data + (e1 + (e2 + rest)));
    TakeReads(data, e1 + (e2 + rest));
    TakeReads(e1, e2 + rest);
  }

  /** Reading back a written frame, whatever follows it: the error comes back cut to its
      wrapped length, and the bytes cut off are left standing in the stream. */
  lemma ReadsWritten(f: Frame, rest: Bytes)
    requires DataLength(f) <= MAX_UINT16
    ensures var cut := |f.error| % 65536;
            Parse(Written(f) + rest)
            == Ok((AsRead(f).(error := f.error[..cut]), (if cut > 0 then f.error[cut..] else []) + rest))
  {
    var cut := ErrorLength(f);
    var fs := Fields(f, DataLength(f), cut);
    var data := if f.data.Some? then f.data.value else [];
    var e1, e2 := f.error[..cut], if cut > 0 then f.error[cut..] else [];
    assert e1 + e2 == if cut > 0 then f.error else [];
    FieldsReadBack(f, data, e1, DataLength(f), cut);
    ParsePieces(fs, data, e1, e2, rest);
  }

  /** One frame survives the wire, and reading it leaves what follows untouched, exactly when
      its error fits the 16-bit length field; data that does not fit is refused by the writer. */
  lemma FrameRoundTrip(f: Frame, rest: Bytes)
    requires f.data.Some? ==> |f.data.value| <= 65535
    ensures Parse(Written(f) + rest) == Ok((f.(data := if f.data == Some([]) then None else f.data), rest))
       <==> |f.error| <= 65535
  {
    ReadsWritten(f, rest);
    CutExact(f.error, rest, ErrorLength(f));
  }

  lemma CutExact(error: Bytes, rest: Bytes, cut: nat)
    requires cut == |error| % 0x1_0000
    ensures (if cut > 0 then error[cut..] else []) + rest == rest && error[..cut] == error <==> |error| <= MAX_UINT16
  {
    if |error| <= MAX_UINT16 {
      assert error[..cut] == error;
      assert (if cut > 0 then error[cut..] else []) == [] && [] + rest == rest;
    } else {
      assert |error[..cut]| < |error|;
    }
  }

  // ----- the layout, byte by byte -----

  /** A number by its lowest byte and the rest. */
  function Low(low: int, rest: int): int { low + 0x100 * rest }

  /** The number whose eight bytes these are, the lowest first. */
  function Eight(bs: Bytes): int
    requires |bs| == 8
  {
    Low(bs[0], Low(bs[1], Low(bs[2], Low(bs[3], Low(bs[4], Low(bs[5], Low(bs[6], bs[7])))))))
  }

  lemma EightIs(bs: Bytes)
    requires |bs| == 8
    ensures FromLE(bs) == Eight(bs)
  {
    FromStep(bs, 0); FromStep(bs, 1); FromStep(bs, 2); FromStep(bs, 3);
    FromStep(bs, 4); FromStep(bs, 5); FromStep(bs, 6); FromStep(bs, 7);
    assert bs[0..] == bs && bs[8..] == [];
  }

  lemma FromStep(bs: Bytes, i: nat)
    requires i < |bs|
    ensures FromLE(bs[i..]) == bs[i] + 256 * FromLE(bs[i + 1..])
  {
    assert bs[i..][1..] == bs[i + 1..];
  }

  lemma TwoBytes(v: nat)
    requires v < 0x1_0000
    ensures var b := ToLE(2, v); Low(b[0], b[1]) == v
  {
    Widths();
    FromToLE(2, v);
    var b := ToLE(2, v);
    FromStep(b, 0); FromStep(b, 1);
    assert b[0..] == b && b[2..] == [];
  }

  lemma OneByte(v: byte)
    ensures ToLE(1, v) == [v]
  {
    assert ToLE(1, v) == [v % 256] + ToLE(0, v / 256);
  }

  lemma ConcatFrom(parts: seq<Bytes>, i: nat)
    requires i < |parts|
    ensures Concat(parts[i..]) == parts[i] + Concat(parts[i + 1..])
  {
    assert parts[i..][1..] == parts[i + 1..] && parts[i..][0] == parts[i];
  }

  /** Where the fields begin. */
  lemma HeadLayout(fs: seq<Bytes>, c: Bytes)
    requires |fs| == 7 && |fs[0]| == 1 && |fs[1]| == 1 && |fs[2]| == 2 && |fs[3]| == 8 && |fs[4]| == 8
    requires |fs[5]| == 2 && |fs[6]| == 2 && c == Concat(fs)
    ensures |c| == 24
    ensures c[..1] == fs[0] && c[1..2] == fs[1] && c[2..4] == fs[2] && c[4..12] == fs[3] && c[12..20] == fs[4]
    ensures c[20..22] == fs[5] && c[22..] == fs[6]
  {
    assert fs[0..] == fs && fs[7..] == [];
    ConcatFrom(fs, 0); ConcatFrom(fs, 1); ConcatFrom(fs, 2); ConcatFrom(fs, 3);
    ConcatFrom(fs, 4); ConcatFrom(fs, 5); ConcatFrom(fs, 6);
    PartOf(c, 0, fs[0], Concat(fs[1..]));
    PartOf(c, 1, fs[1], Concat(fs[2..]));
    PartOf(c, 2, fs[2], Concat(fs[3..]));
    PartOf(c, 4, fs[3], Concat(fs[4..]));
    PartOf(c, 12, fs[4], Concat(fs[5..]));
    PartOf(c, 20, fs[5], Concat(fs[6..]));
    PartOf(c, 22, fs[6], Concat(fs[7..]));
  }

  lemma PartOf(c: Bytes, at: nat, part: Bytes, rest: Bytes)
    requires at <= |c| && c[at..] == part + rest
    ensures at + |part| <= |c| && c[at..at + |part|] == part && c[at + |part|..] == rest
  {
    assert c[at..][..|part|] == part && c[at..][|part|..] == rest;
  }

  /** A written frame is the three letters, kind, flag, sequence number, timeout, timestamp and
      the two lengths, every number lowest byte first, negative ones in two's complement, and
      then data and error. */
  lemma LayoutExact(f: Frame)
    requires Fits(f)
    ensures var w, data := Written(f), if f.data.Some? then f.data.value else [];
            && |w| == 27 + |data| + |f.error|
            && w[..3] == ['C' as int, 'L' as int, 'I' as int] && w[3] == f.kind && w[4] == f.flag
            && Low(w[5], w[6]) == f.seqno
            && Eight(w[7..15]) == (if f.timeout < 0 then f.timeout + 0x1_0000_0000_0000_0000 else f.timeout)
            && Eight(w[15..23]) == (if f.timestamp < 0 then f.timestamp + 0x1_0000_0000_0000_0000 else f.timestamp)
            && Low(w[23], w[24]) == |data| && Low(w[25], w[26]) == |f.error|
            && w[27..27 + |data|] == data && w[27 + |data|..] == f.error
  {
    var data := if f.data.Some? then f.data.value else [];
    WrittenIs(f);
    HeadValues(f, |data|, |f.error|);
    LayoutOf(Written(f), Fields(f, |data|, |f.error|), data, f.error);
  }

  lemma WrittenIs(f: Frame)
    requires Fits(f)
    ensures var data := if f.data.Some? then f.data.value else [];
            Written(f) == FEATURE + (Concat(Fields(f, |data|, |f.error|)) + (data + f.error))
  {
    assert ErrorLength(f) == |f.error|;
    assert (if ErrorLength(f) > 0 then f.error else []) == f.error;
  }

  lemma LayoutOf(w: Bytes, fs: seq<Bytes>, data: Bytes, error: Bytes)
    requires |fs| == 7 && |fs[0]| == 1 && |fs[1]| == 1 && |fs[2]| == 2 && |fs[3]| == 8 && |fs[4]| == 8
    requires |fs[5]| == 2 && |fs[6]| == 2 && w == FEATURE + (Concat(fs) + (data + error))
    ensures |w| == 27 + |data| + |error| && w[..3] == FEATURE && w[3] == fs[0][0] && w[4] == fs[1][0]
    ensures w[5] == fs[2][0] && w[6] == fs[2][1] && w[7..15] == fs[3] && w[15..23] == fs[4]
    ensures w[23] == fs[5][0] && w[24] == fs[5][1] && w[25] == fs[6][0] && w[26] == fs[6][1]
    ensures w[27..27 + |data|] == data && w[27 + |data|..] == error
  {
    var c := Concat(fs);
    HeadLayout(fs, c);
    WholeLayout(w, c, data, error);
    HeadAt(w, c);
    assert fs[0][0] == c[..1][0] && fs[1][0] == c[1..2][0] && fs[2][0] == c[2..4][0] && fs[2][1] == c[2..4][1];
    assert fs[5][0] == c[20..22][0] && fs[5][1] == c[20..22][1] && fs[6][0] == c[22..][0] && fs[6][1] == c[22..][1];
  }

  lemma HeadAt(w: Bytes, c: Bytes)
    requires |c| == 24 && |w| >= 27 && w[3..27] == c
    ensures w[3] == c[0] && w[4] == c[1] && w[5] == c[2] && w[6] == c[3] && w[7..15] == c[4..12] && w[15..23] == c[12..20]
    ensures w[23] == c[20] && w[24] == c[21] && w[25] == c[22] && w[26] == c[23]
  {
    assert forall k | 0 <= k < 24 :: w[3..27][k] == w[3 + k];
  }

  lemma WholeLayout(w: Bytes, c: Bytes, data: Bytes, error: Bytes)
    requires |c| == 24 && w == FEATURE + (c + (data + error))
    ensures |w| == 27 + |data| + |error| && w[..3] == FEATURE && w[3..27] == c
    ensures w[27..27 + |data|] == data && w[27 + |data|..] == error
  {
    assert w[27..] == data + error;
    PartOf(w, 27, data, error);
  }

  lemma HeadValues(f: Frame, dataLength: uint16, errorLength: uint16)
    ensures var fs := Fields(f, dataLength, errorLength);
            && fs[0] == [f.kind] && fs[1] == [f.flag] && Low(fs[2][0], fs[2][1]) == f.seqno
            && Eight(fs[3]) == (if f.timeout < 0 then f.timeout + 0x1_0000_0000_0000_0000 else f.timeout)
            && Eight(fs[4]) == (if f.timestamp < 0 then f.timestamp + 0x1_0000_0000_0000_0000 else f.timestamp)
            && Low(fs[5][0], fs[5][1]) == dataLength && Low(fs[6][0], fs[6][1]) == errorLength
  {
    OneByte(f.kind); OneByte(f.flag);
    TwoBytes(f.seqno); TwoBytes(dataLength); TwoBytes(errorLength);
    EightValue(f.timeout); EightValue(f.timestamp);
  }

  lemma EightValue(v: int64)
    ensures Eight(ToLE(8, Unsigned(v))) == if v < 0 then v + 0x1_0000_0000_0000_0000 else v
  {
    ReadBack(8, Unsigned(v));
    EightIs(ToLE(8, Unsigned(v)));
    UnsignedIs(v);
  }

  lemma ReadBack(n: nat, u: nat)
    requires n == 8 && u < 0x1_0000_0000_0000_0000
    ensures FromLE(ToLE(n, u)) == u
  {
    Widths();
    FromToLE(n, u);
  }

  lemma UnsignedIs(v: int64)
    ensures Unsigned(v) == if v < 0 then v + 0x1_0000_0000_0000_0000 else v
  {
  }

  // ----- streams of frames -----

  predicate Fits(f: Frame) { (f.data.Some? ==> |f.data.value| <= 65535) && |f.error| <= 65535 }

  function WrittenAll(fs: seq<Frame>): Bytes {
    if fs == [] then [] else Written(fs[0]) + WrittenAll(fs[1..])
  }

  function ParseN(bs: Bytes, n: nat): Result<(seq<Frame>, Bytes), ReadError>
    decreases n
  {
    if n == 0 then Ok(([], bs))
    else
      var one := Parse(bs);
      if one.Err? then Err(one.error)
      else
        var more := ParseN(one.value.1, n - 1);
        if more.Err? then Err(more.error) else Ok(([one.value.0] + more.value.0, more.value.1))
  }

  function AllAsRead(fs: seq<Frame>): (r: seq<Frame>)
    ensures |r| == |fs| && forall i | 0 <= i < |fs| :: r[i] == AsRead(fs[i])
  {
    if fs == [] then [] else [AsRead(fs[0])] + AllAsRead(fs[1..])
  }

  /** Any sequence of fitting frames is read back frame by frame; trailing bytes stay. */
  lemma {:induction false} StreamRoundTrip(fs: seq<Frame>, rest: Bytes)
    requires forall f | f in fs :: Fits(f)
    ensures ParseN(WrittenAll(fs) + rest, |fs|) == Ok((AllAsRead(fs), rest))
    decreases |fs|
  {
    if fs == [] {
      assert [] + rest == rest;
    } else {
      assert Fits(fs[0]);
      assert WrittenAll(fs) + rest == Written(fs[0]) + (WrittenAll(fs[1..]) + rest);
      FrameRoundTrip(fs[0], WrittenAll(fs[1..]) + rest);
      StreamRoundTrip(fs[1..], rest);
    }
  }

  // ----- the reader accepts nothing else -----

  lemma {:induction false} TakeAllWrites(bs: Bytes, widths: seq<nat>)
    requires TakeAll(bs, widths).Ok?
    ensures bs == Concat(TakeAll(bs, widths).value.0) + TakeAll(bs, widths).value.1
    decreases |widths|
  {
    var r := TakeAll(bs, widths).value;
    if widths == [] {
      assert bs == [] + bs;
    } else {
      var one := Take(bs, widths[0]).value;
      TakeAllWrites(one.1, widths[1..]);
      assert bs == one.0 + one.1;
      var more := TakeAll(one.1, widths[1..]).value;
      assert r.0[1..] == more.0;
      assert bs == one.0 + (Concat(more.0) + more.1);
    }
  }

  lemma SignedUnsigned(u: nat)
    requires u < 0x1_0000_0000_0000_0000
    ensures Unsigned(Signed(u)) == u
  {
  }

  lemma FieldsOfFrame(fs: seq<Bytes>, data: Bytes, error: Bytes)
    requires |fs| == |WIDTHS| && forall i | 0 <= i < |fs| :: |fs[i]| == WIDTHS[i]
    requires |data| == FromLE(fs[5]) && |error| == FromLE(fs[6])
    ensures |data| <= MAX_UINT16 && |error| <= MAX_UINT16
    ensures Fields(FrameOf(fs, data, error), |data|, |error|) == fs
  {
    Widths();
    ToFromLE(fs[0]); ToFromLE(fs[1]); ToFromLE(fs[2]); ToFromLE(fs[3]); ToFromLE(fs[4]); ToFromLE(fs[5]); ToFromLE(fs[6]);
    SignedUnsigned(FromLE(fs[3]));
    SignedUnsigned(FromLE(fs[4]));
  }

  lemma TakeWrites(bs: Bytes, n: nat)
    requires Take(bs, n).Ok?
    ensures bs == Take(bs, n).value.0 + Take(bs, n).value.1 && |Take(bs, n).value.0| == n
  {
  }

  lemma PiecesOf(bs: Bytes) returns (fs: seq<Bytes>, data: Bytes, error: Bytes)
    requires Parse(bs).Ok?
    ensures |fs| == |WIDTHS| && forall i | 0 <= i < |fs| :: |fs[i]| == WIDTHS[i]
    ensures |data| == FromLE(fs[5]) && |error| == FromLE(fs[6])
    ensures Parse(bs).value.0 == FrameOf(fs, data, error)
    ensures bs == Layout(fs, data, error) + Parse(bs).value.1
  {
    var a := Take(bs, 3).value;
    var b := TakeAll(a.1, WIDTHS).value;
    var c := Take(b.1, FromLE(b.0[5])).value;
    var d := Take(c.1, FromLE(b.0[6])).value;
    fs, data, error := b.0, c.0, d.0;
    TakeWrites(bs, 3);
    TakeAllWrites(a.1, WIDTHS);
    TakeWrites(b.1, FromLE(fs[5]));
    TakeWrites(c.1, FromLE(fs[6]));
    assert Parse(bs).value.1 == d.1;
    LayoutSplit(fs, data, error, [], d.1);
    assert error + [] == error && [] + d.1 == d.1;
  }

  /** Whatever the reader accepts is the writing of the frame it returns, followed by what it
      leaves: no two byte sequences are read as one frame. */
  lemma ParseCanonical(bs: Bytes)
    requires Parse(bs).Ok?
    ensures Fits(Parse(bs).value.0) && AsRead(Parse(bs).value.0) == Parse(bs).value.0
    ensures bs == Written(Parse(bs).value.0) + Parse(bs).value.1
  {
    var fs, data, error := PiecesOf(bs);
    FieldsOfFrame(fs, data, error);
    WrittenPieces(fs, data, error);
  }

  lemma WrittenPieces(fs: seq<Bytes>, data: Bytes, error: Bytes)
    requires |fs| == |WIDTHS| && forall i | 0 <= i < |fs| :: |fs[i]| == WIDTHS[i]
    requires |data| <= MAX_UINT16 && |error| <= MAX_UINT16
    requires Fields(FrameOf(fs, data, error), |data|, |error|) == fs
    ensures Written(FrameOf(fs, data, error)) == Layout(fs, data, error)
  {
    var f := FrameOf(fs, data, error);
    assert (if f.data.Some? then f.data.value else []) == data && (if ErrorLength(f) > 0 then f.error else []) == error;
    assert DataLength(f) == |data| && ErrorLength(f) == |error|;
  }

  /** A frame cut short anywhere is never read as a frame: the full writing would then be
      read as that shorter frame, with the rest of its bytes left over. */
  lemma TruncatedRefused(f: Frame, k: nat)
    requires Fits(f) && k < |Written(f)|
    ensures Parse(Written(f)[..k]).Err?
  {
    FrameRoundTrip(f, []);
    assert Written(f) + [] == Written(f);
    if Parse(Written(f)[..k]).Ok? { LeftOver(Written(f), k); }
  }

  lemma LeftOver(bs: Bytes, k: nat)
    requires k <= |bs| && Parse(bs[..k]).Ok?
    ensures Parse(bs).Ok? && |Parse(bs).value.1| >= |bs| - k
  {
    ParseCanonical(bs[..k]);
    var (g, rest) := Parse(bs[..k]).value;
    Regroup(bs, k, Written(g), rest);
    FrameRoundTrip(g, rest + bs[k..]);
  }

  lemma Regroup(bs: Bytes, k: nat, a: Bytes, b: Bytes)
    requires k <= |bs| && bs[..k] == a + b
    ensures bs == a + (b + bs[k..])
  {
    assert bs == bs[..k] + bs[k..];
  }
}
