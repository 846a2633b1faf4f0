/** `truncateUTF8` of `admin/audit.go` over bytes, and the UTF-8 of RFC 3629. */
module Utf8 {
  import opened Octets

  // ----- encodings of single characters (RFC 3629, section 3) -----

  /** Characters: the surrogates are left out. */
  type scalar = c: int | 0 <= c < 0xD800 || 0xE000 <= c < 0x11_0000

  function Encode(c: scalar): (bs: Bytes)
    ensures 1 <= |bs| <= 4
  {
    if c < 0x80 then [c]
    else if c < 0x800 then [0xC0 + c / 0x40, 0x80 + c % 0x40]
    else if c < 0x1_0000 then [0xE0 + c / 0x1000, 0x80 + c / 0x40 % 0x40, 0x80 + c % 0x40]
    else [0xF0 + c / 0x4_0000, 0x80 + c / 0x1000 % 0x40, 0x80 + c / 0x40 % 0x40, 0x80 + c % 0x40]
  }

  function EncodeAll(cs: seq<scalar>): Bytes {
    if cs == [] then [] else Encode(cs[0]) + EncodeAll(cs[1..])
  }

  // ----- well-formed byte sequences (RFC 3629, section 4): what utf8.ValidString accepts -----

  /** The length a first byte announces; 0 for a byte no character starts with. */
  function Width(b: byte): nat {
    if b < 0x80 then 1 else if b < 0xC2 then 0 else if b < 0xE0 then 2 else if b < 0xF0 then 3
    else if b < 0xF5 then 4 else 0
  }

  predicate Tail(b: byte) { 0x80 <= b < 0xC0 }

  predicate Rune(bs: Bytes) {
    && bs != [] && |bs| == Width(bs[0])
    && (forall i | 1 <= i < |bs| :: Tail(bs[i]))
    && (bs[0] == 0xE0 ==> bs[1] >= 0xA0) && (bs[0] == 0xED ==> bs[1] < 0xA0)
    && (bs[0] == 0xF0 ==> bs[1] >= 0x90) && (bs[0] == 0xF4 ==> bs[1] < 0x90)
  }

  predicate Valid(bs: Bytes)
    decreases |bs|
  {
    if bs == [] then true
    else
      var w := Width(bs[0]);
      0 < w <= |bs| && Rune(bs[..w]) && Valid(bs[w..])
  }

  // ----- the two agree -----

  function Decode(bs: Bytes): (c: scalar)
    requires Rune(bs)
  {
    var first: int := bs[0];
    if |bs| == 1 then first
    else if |bs| == 2 then (first - 0xC0) * 0x40 + Bits(bs[1])
    else if |bs| == 3 then ((first - 0xE0) * 0x40 + Bits(bs[1])) * 0x40 + Bits(bs[2])
    else (((first - 0xF0) * 0x40 + Bits(bs[1])) * 0x40 + Bits(bs[2])) * 0x40 + Bits(bs[3])
  }

  /** The six bits a following byte carries. */
  function Bits(b: byte): int { b - 0x80 }

  lemma Digit(high: int, low: int)
    requires 0 <= low < 0x40
    ensures (high * 0x40 + low) / 0x40 == high && (high * 0x40 + low) % 0x40 == low
  {
  }

  lemma Shifts(c: nat)
    ensures c / 0x1000 == c / 0x40 / 0x40 && c / 0x4_0000 == c / 0x1000 / 0x40
  {
  }

  lemma EncodesRune(c: scalar)
    ensures Rune(Encode(c))
  {
  }

  lemma DecodesRune(bs: Bytes)
    requires Rune(bs)
    ensures Encode(Decode(bs)) == bs
  {
    if |bs| == 2 {
      Digit(bs[0] - 0xC0, Bits(bs[1]));
    } else if |bs| == 3 {
      DecodesThree(bs);
    } else if |bs| == 4 {
      DecodesFour(bs);
    }
  }

  lemma DecodesThree(bs: Bytes)
    requires Rune(bs) && |bs| == 3
    ensures Encode(Decode(bs)) == bs
  {
    var high := (bs[0] - 0xE0) * 0x40 + Bits(bs[1]);
    Digit(high, Bits(bs[2]));
    Digit(bs[0] - 0xE0, Bits(bs[1]));
    Shifts(Decode(bs));
    assert 0x800 <= Decode(bs) < 0x1_0000;
  }

  lemma DecodesFour(bs: Bytes)
    requires Rune(bs) && |bs| == 4
    ensures Encode(Decode(bs)) == bs
  {
    var high := (bs[0] - 0xF0) * 0x40 + Bits(bs[1]);
    var mid := high * 0x40 + Bits(bs[2]);
    Digit(mid, Bits(bs[3]));
    Digit(high, Bits(bs[2]));
    Digit(bs[0] - 0xF0, Bits(bs[1]));
    Shifts(Decode(bs));
    assert 0x1_0000 <= Decode(bs);
  }

  /** Well-formed is exactly: the encoding of some characters. */
  lemma ValidIsEncoded(bs: Bytes)
    ensures Valid(bs) <==> exists cs: seq<scalar> :: EncodeAll(cs) == bs
  {
    if Valid(bs) { var cs := DecodesAll(bs); }
    forall cs: seq<scalar> | EncodeAll(cs) == bs ensures Valid(bs) { EncodedIsValid(cs); }
  }

  lemma {:induction false} DecodesAll(bs: Bytes) returns (cs: seq<scalar>)
    requires Valid(bs)
    ensures EncodeAll(cs) == bs
    decreases |bs|
  {
    cs := [];
    if bs != [] {
      var w := Width(bs[0]);
      var more := DecodesAll(bs[w..]);
      DecodesRune(bs[..w]);
      cs := [Decode(bs[..w])] + more;
      assert cs[1..] == more && bs[..w] + bs[w..] == bs;
    }
  }

  lemma {:induction false} EncodedIsValid(cs: seq<scalar>)
    ensures Valid(EncodeAll(cs))
    decreases |cs|
  {
    if cs != [] {
      EncodedIsValid(cs[1..]);
      EncodesRune(cs[0]);
      RuneFirst(Encode(cs[0]), EncodeAll(cs[1..]));
    }
  }

  lemma RuneFirst(rune: Bytes, rest: Bytes)
    requires Rune(rune) && Valid(rest)
    ensures Valid(rune + rest)
  {
    var s := rune + rest;
    assert s[..|rune|] == rune && s[|rune|..] == rest;
  }

  /** A prefix of one encoded character and more is well-formed just when it holds that
      character whole and what it keeps of the rest is well-formed. */
  lemma FirstRune(rune: Bytes, rest: Bytes, n: nat)
    requires Rune(rune) && n <= |rune + rest|
    ensures Valid((rune + rest)[..n]) <==> n == 0 || (|rune| <= n && Valid(rest[..n - |rune|]))
  {
    var s := (rune + rest)[..n];
    if n >= |rune| {
      assert s[..|rune|] == rune && s[|rune|..] == rest[..n - |rune|];
    } else if n > 0 {
      assert s[0] == rune[0];
    }
  }

  // ----- the cut -----

  /** `r` is `s` when that fits, and else its longest well-formed prefix within `max` bytes. */
  ghost predicate Truncated(s: Bytes, max: nat, r: Bytes) {
    if |s| <= max then r == s
    else |r| <= max && r <= s && Valid(r) && forall n | |r| < n <= max :: !Valid(s[..n])
  }

  method TruncateUtf8(s: Bytes, max: nat) returns (cut: Bytes)
    ensures Truncated(s, max, cut)
  {
    if |s| <= max {
      return s;
    }
    cut := s[..max];
    while |cut| > 0 && !Valid(cut)
      invariant |cut| <= max && cut == s[..|cut|]
      invariant forall n | |cut| < n <= max :: !Valid(s[..n])
    {
      cut := cut[..|cut| - 1];
    }
  }

  /** How many leading characters fit whole. */
  function Fitting(cs: seq<scalar>, max: nat): (k: nat)
    ensures k <= |cs|
  {
    if cs == [] || |Encode(cs[0])| > max then 0 else 1 + Fitting(cs[1..], max - |Encode(cs[0])|)
  }

  lemma {:induction false} FittingIsLongest(cs: seq<scalar>, max: nat)
    ensures var s, kept := EncodeAll(cs), EncodeAll(cs[..Fitting(cs, max)]);
            && kept <= s && |kept| <= max && (|s| > max ==> max - |kept| < 4) && (|s| <= max ==> kept == s)
            && forall n | |kept| < n <= max && n <= |s| :: !Valid(s[..n])
    decreases |cs|
  {
    if cs != [] {
      var rune, rest := Encode(cs[0]), EncodeAll(cs[1..]);
      EncodesRune(cs[0]);
      if |rune| > max {
        forall n | 0 < n <= max ensures !Valid((rune + rest)[..n]) { FirstRune(rune, rest, n); }
      } else {
        var k := Fitting(cs[1..], max - |rune|);
        FittingIsLongest(cs[1..], max - |rune|);
        assert cs[..k + 1][1..] == cs[1..][..k] && cs[..k + 1][0] == cs[0];
        var kept := EncodeAll(cs[1..][..k]);
        assert EncodeAll(cs[..k + 1]) == rune + kept;
        forall n | |rune + kept| < n <= max && n <= |rune + rest| ensures !Valid((rune + rest)[..n]) {
          FirstRune(rune, rest, n);
        }
      }
    }
  }

  /** Of encoded characters the cut keeps exactly the leading ones that fit whole, so it splits
      none and, when it cuts at all, leaves fewer than four of the bytes allowed unused. */
  lemma WholeCharactersKept(cs: seq<scalar>, max: nat, cut: Bytes)
    requires Truncated(EncodeAll(cs), max, cut)
    ensures cut == EncodeAll(cs[..Fitting(cs, max)])
    ensures |EncodeAll(cs)| > max ==> max - |cut| < 4
  {
    var s, kept := EncodeAll(cs), EncodeAll(cs[..Fitting(cs, max)]);
    FittingIsLongest(cs, max);
    EncodedIsValid(cs[..Fitting(cs, max)]);
    if |s| > max {
      assert s[..|cut|] == cut && s[..|kept|] == kept;
    }
  }
}
