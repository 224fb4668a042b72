/**
 Base64 as section 4 of RFC 4648 defines it, with required canonical padding
 and zero trailing bits (section 3.5): what `BASE64_STANDARD` is assumed to do.
 */
module Base64 {
  import opened Wrappers
  import opened Radix

  datatype DecodeError = Malformed

  const PAD: byte := 61

  const ALPHABET := "ABCDEFGHIJKLMNOPQRSTUVWXYZ" + "abcdefghijklmnopqrstuvwxyz" + "0123456789" + "+" + "/"

  function Symbol(d: nat): byte
    requires d < 64
  {
    if d < 26 then d + 65
    else if d < 52 then d + 71
    else if d < 62 then d - 4
    else if d == 62 then 43
    else 47
  }

  function Digit(c: byte): (d: Option<nat>)
    ensures d.Some? ==> d.value < 64 && Symbol(d.value) == c
  {
    if 65 <= c <= 90 then Some(c - 65)
    else if 97 <= c <= 122 then Some(c - 71)
    else if 48 <= c <= 57 then Some(c + 4)
    else if c == 43 then Some(62)
    else if c == 47 then Some(63)
    else None
  }

  lemma DigitOfSymbol(d: nat)
    requires d < 64
    ensures Digit(Symbol(d)) == Some(d) && Symbol(d) != PAD
  {
  }

  lemma SymbolsSpellTheAlphabet(d: nat)
    requires d < 64
    ensures |ALPHABET| == 64 && ALPHABET[d] as int == Symbol(d)
  {
  }

  // ------------------------------------------------------------- one group

  function Sextets(b0: byte, b1: byte, b2: byte): (q: (nat, nat, nat, nat))
    ensures q.0 < 64 && q.1 < 64 && q.2 < 64 && q.3 < 64
  {
    (b0 / 4, b0 % 4 * 16 + b1 / 16, b1 % 16 * 4 + b2 / 64, b2 % 64)
  }

  function Octets(d0: nat, d1: nat, d2: nat, d3: nat): (byte, byte, byte)
    requires d0 < 64 && d1 < 64 && d2 < 64 && d3 < 64
  {
    (d0 * 4 + d1 / 16, d1 % 16 * 16 + d2 / 4, d2 % 4 * 64 + d3)
  }

  // Two digits packed into one number can be told apart again.
  lemma Packed(d: nat, hi: nat, lo: nat, b: nat)
    requires d == hi * b + lo && lo < b
    ensures d / b == hi && d % b == lo
  {
    DivModUnique(hi, lo, b);
  }

  lemma OctetsOfSextets(b0: byte, b1: byte, b2: byte)
    ensures var q := Sextets(b0, b1, b2); Octets(q.0, q.1, q.2, q.3) == (b0, b1, b2)
  {
    var q := Sextets(b0, b1, b2);
    Packed(q.1, b0 % 4, b1 / 16, 16);
    Packed(q.2, b1 % 16, b2 / 64, 4);
  }

  // d1 is cut into h1 and l1, d2 into h2 and l2.
  lemma SextetsOfParts(d0: nat, h1: nat, l1: nat, h2: nat, l2: nat, d3: nat, b0: byte, b1: byte, b2: byte)
    requires d0 < 64 && h1 < 4 && l1 < 16 && h2 < 16 && l2 < 4 && d3 < 64
    requires b0 == d0 * 4 + h1 && b1 == l1 * 16 + h2 && b2 == l2 * 64 + d3
    ensures Sextets(b0, b1, b2) == (d0, h1 * 16 + l1, h2 * 4 + l2, d3)
  {
    Packed(b0, d0, h1, 4);
    Packed(b1, l1, h2, 16);
    Packed(b2, l2, d3, 64);
  }

  lemma SextetsOfOctets(d0: nat, d1: nat, d2: nat, d3: nat)
    requires d0 < 64 && d1 < 64 && d2 < 64 && d3 < 64
    ensures var o := Octets(d0, d1, d2, d3); Sextets(o.0, o.1, o.2) == (d0, d1, d2, d3)
  {
    var o := Octets(d0, d1, d2, d3);
    SextetsOfParts(d0, d1 / 16, d1 % 16, d2 / 4, d2 % 4, d3, o.0, o.1, o.2);
  }

  // --------------------------------------------------------- specification

  function Group(b0: byte, b1: byte, b2: byte): (s: seq<byte>)
    ensures |s| == 4
  {
    var q := Sextets(b0, b1, b2);
    [Symbol(q.0), Symbol(q.1), Symbol(q.2), Symbol(q.3)]
  }

  function Tail(bs: seq<byte>): (s: seq<byte>)
    requires |bs| < 3
    ensures |s| == if |bs| == 0 then 0 else 4
  {
    if |bs| == 0 then []
    else if |bs| == 1 then Group(bs[0], 0, 0)[..2] + [PAD, PAD]
    else Group(bs[0], bs[1], 0)[..3] + [PAD]
  }

  function Encode(bs: seq<byte>): (s: seq<byte>)
  {
    if |bs| < 3 then Tail(bs) else Group(bs[0], bs[1], bs[2]) + Encode(bs[3..])
  }

  // Four symbols without padding.
  function DecodeGroup(q: seq<byte>): Result<seq<byte>, DecodeError>
    requires |q| == 4
  {
    match (Digit(q[0]), Digit(q[1]), Digit(q[2]), Digit(q[3]))
    case (Some(d0), Some(d1), Some(d2), Some(d3)) =>
      var o := Octets(d0, d1, d2, d3);
      Ok([o.0, o.1, o.2])
    case _ => Err(Malformed)
  }

  // The final four symbols, which may be padded; unused bits must be zero.
  function DecodeTail(q: seq<byte>): Result<seq<byte>, DecodeError>
    requires |q| == 4
  {
    if q[3] != PAD then DecodeGroup(q)
    else if q[2] != PAD then
      match (Digit(q[0]), Digit(q[1]), Digit(q[2]))
      case (Some(d0), Some(d1), Some(d2)) =>
        var o := Octets(d0, d1, d2, 0);
        if d2 % 4 == 0 then Ok([o.0, o.1]) else Err(Malformed)
      case _ => Err(Malformed)
    else
      match (Digit(q[0]), Digit(q[1]))
      case (Some(d0), Some(d1)) =>
        var o := Octets(d0, d1, 0, 0);
        if d1 % 16 == 0 then Ok([o.0]) else Err(Malformed)
      case _ => Err(Malformed)
  }

  function Decode(s: seq<byte>): Result<seq<byte>, DecodeError> {
    if |s| == 0 then Ok([])
    else if |s| < 4 then Err(Malformed)
    else if |s| == 4 then DecodeTail(s)
    else match DecodeGroup(s[..4])
      case Err(e) => Err(e)
      case Ok(g) =>
        match Decode(s[4..])
        case Err(e) => Err(e)
        case Ok(rest) => Ok(g + rest)
  }

  // ------------------------------------------------------------ round trips

  lemma DecodeOfGroup(b0: byte, b1: byte, b2: byte)
    ensures DecodeGroup(Group(b0, b1, b2)) == Ok([b0, b1, b2])
    ensures DecodeTail(Group(b0, b1, b2)) == Ok([b0, b1, b2])
  {
    var q := Sextets(b0, b1, b2);
    DigitOfSymbol(q.0);
    DigitOfSymbol(q.1);
    DigitOfSymbol(q.2);
    DigitOfSymbol(q.3);
    OctetsOfSextets(b0, b1, b2);
  }

  lemma DecodeOfTail(bs: seq<byte>)
    requires 0 < |bs| < 3
    ensures DecodeTail(Tail(bs)) == Ok(bs)
  {
    var b1: byte := if |bs| == 2 then bs[1] else 0;
    var q := Sextets(bs[0], b1, 0);
    DigitOfSymbol(q.0);
    DigitOfSymbol(q.1);
    DigitOfSymbol(q.2);
    OctetsOfSextets(bs[0], b1, 0);
    assert Tail(bs) == if |bs| == 1 then [Symbol(q.0), Symbol(q.1), PAD, PAD]
                       else [Symbol(q.0), Symbol(q.1), Symbol(q.2), PAD];
    assert bs == if |bs| == 1 then [bs[0]] else [bs[0], b1];
  }

  lemma {:induction false} DecodeEncode(bs: seq<byte>)
    ensures Decode(Encode(bs)) == Ok(bs)
  {
    if |bs| == 0 {
    } else if |bs| < 3 {
      DecodeOfTail(bs);
    } else {
      var s, rest := Encode(bs), bs[3..];
      DecodeOfGroup(bs[0], bs[1], bs[2]);
      DecodeEncode(rest);
      EncodedLength(rest);
      assert s[..4] == Group(bs[0], bs[1], bs[2]) && s[4..] == Encode(rest);
      assert bs == [bs[0], bs[1], bs[2]] + rest;
      if |rest| == 0 {
        assert s == s[..4] && bs == [bs[0], bs[1], bs[2]];
      } else {
        assert |s| > 4;
      }
    }
  }

  lemma EncodeOfGroup(q: seq<byte>)
    requires |q| == 4 && DecodeGroup(q).Ok?
    ensures var g := DecodeGroup(q).value; |g| == 3 && Group(g[0], g[1], g[2]) == q
  {
    SextetsOfOctets(Digit(q[0]).value, Digit(q[1]).value, Digit(q[2]).value, Digit(q[3]).value);
  }

  lemma EncodeOfTail(q: seq<byte>)
    requires |q| == 4 && DecodeTail(q).Ok?
    ensures 1 <= |DecodeTail(q).value| <= 3 && Encode(DecodeTail(q).value) == q
  {
    if q[3] != PAD {
      EncodeOfGroup(q);
    } else if q[2] != PAD {
      SextetsOfOctets(Digit(q[0]).value, Digit(q[1]).value, Digit(q[2]).value, 0);
    } else {
      SextetsOfOctets(Digit(q[0]).value, Digit(q[1]).value, 0, 0);
    }
  }

  // Only canonical strings decode: re-encoding gives the same string.
  lemma {:induction false} EncodeDecode(s: seq<byte>)
    requires Decode(s).Ok?
    ensures Encode(Decode(s).value) == s
  {
    if |s| == 4 {
      EncodeOfTail(s);
    } else if |s| > 4 {
      var g, rest := DecodeGroup(s[..4]).value, Decode(s[4..]).value;
      EncodeOfGroup(s[..4]);
      EncodeDecode(s[4..]);
      assert (g + rest)[3..] == rest;
      assert s == s[..4] + s[4..];
    }
  }

  // ------------------------------------------------------------------ sizes

  lemma OneGroupMore(n: nat)
    ensures (n + 3 + 2) / 3 * 4 == (n + 2) / 3 * 4 + 4
    ensures n < 3 ==> (n + 2) / 3 * 4 == if n == 0 then 0 else 4
  {
  }

  lemma {:induction false} EncodedLength(bs: seq<byte>)
    ensures |Encode(bs)| == (|bs| + 2) / 3 * 4
  {
    if |bs| >= 3 {
      EncodedLength(bs[3..]);
      OneGroupMore(|bs| - 3);
    } else {
      OneGroupMore(|bs|);
    }
  }

  lemma DecodedLength(s: seq<byte>)
    requires Decode(s).Ok?
    ensures |s| == (|Decode(s).value| + 2) / 3 * 4
  {
    EncodeDecode(s);
    EncodedLength(Decode(s).value);
  }

  // -------------------------------------------------- meaning of the digits

  // The digits of a string, padding read as zero.
  function Numerals(s: seq<byte>): (ds: seq<nat>)
    ensures |ds| == |s|
  {
    seq(|s|, i requires 0 <= i < |s| => match Digit(s[i]) case Some(d) => d case None => 0)
  }

  lemma ValueSnoc(ds: seq<nat>, d: nat, b: nat)
    ensures Value(ds + [d], b) == Value(ds, b) * b + d
  {
    assert (ds + [d])[..|ds|] == ds;
  }

  lemma Value3(a: nat, b: nat, c: nat, radix: nat)
    ensures Value([a, b, c], radix) == (a * radix + b) * radix + c
  {
    ValueSnoc([], a, radix);
    ValueSnoc([a], b, radix);
    ValueSnoc([a, b], c, radix);
    assert [] + [a] == [a] && [a] + [b] == [a, b] && [a, b] + [c] == [a, b, c];
  }

  lemma Value4(a: nat, b: nat, c: nat, d: nat, radix: nat)
    ensures Value([a, b, c, d], radix) == ((a * radix + b) * radix + c) * radix + d
  {
    Value3(a, b, c, radix);
    ValueSnoc([a, b, c], d, radix);
    assert [a, b, c] + [d] == [a, b, c, d];
  }

  // The 24-bit number that a group carries, read from either side.
  lemma SextetsDenote(b0: byte, b1: byte, b2: byte)
    ensures var q := Sextets(b0, b1, b2);
            Value([q.0, q.1, q.2, q.3], 64) == Value([b0, b1, b2], 256)
  {
    var q := Sextets(b0, b1, b2);
    Value4(q.0, q.1, q.2, q.3, 64);
    Value3(b0, b1, b2, 256);
  }

  lemma GroupDenotes(b0: byte, b1: byte, b2: byte)
    ensures Value(Numerals(Group(b0, b1, b2)), 64) == Value([b0, b1, b2], 256)
  {
    var q := Sextets(b0, b1, b2);
    DigitOfSymbol(q.0);
    DigitOfSymbol(q.1);
    DigitOfSymbol(q.2);
    DigitOfSymbol(q.3);
    assert Numerals(Group(b0, b1, b2)) == [q.0, q.1, q.2, q.3];
    SextetsDenote(b0, b1, b2);
  }

  lemma TailDenotes(b0: byte, b1: byte, bs: seq<byte>)
    requires bs == [b0, b1] || (bs == [b0] && b1 == 0)
    ensures Value(Numerals(Tail(bs)), 64) == Value([b0, b1, 0], 256)
  {
    var q := Sextets(b0, b1, 0);
    DigitOfSymbol(q.0);
    DigitOfSymbol(q.1);
    DigitOfSymbol(q.2);
    if |bs| == 1 {
      assert Tail(bs) == [Symbol(q.0), Symbol(q.1), PAD, PAD];
    } else {
      assert Tail(bs) == [Symbol(q.0), Symbol(q.1), Symbol(q.2), PAD];
    }
    assert Numerals(Tail(bs)) == [q.0, q.1, q.2, q.3];
    SextetsDenote(b0, b1, 0);
  }

  // Zero bytes that complete the last group.
  function Missing(n: nat): nat {
    if n % 3 == 0 then 0 else 3 - n % 3
  }

  lemma MissingCompletes(n: nat)
    ensures n + Missing(n) == (n + 2) / 3 * 3
    ensures Missing(n + 3) == Missing(n)
  {
  }

  lemma GroupHasNoPadding(b0: byte, b1: byte, b2: byte, i: nat)
    requires i < 4
    ensures Group(b0, b1, b2)[i] != 61
  {
    var q := Sextets(b0, b1, b2);
    DigitOfSymbol(if i == 0 then q.0 else if i == 1 then q.1 else if i == 2 then q.2 else q.3);
  }

  // The string ends in as many '=' as bytes are missing from the last group, and
  // has no others.
  lemma {:induction false} PaddingExactly(bs: seq<byte>, i: nat)
    requires i < |Encode(bs)|
    ensures Encode(bs)[i] == 61 <==> i + Missing(|bs|) >= |Encode(bs)|
  {
    if |bs| < 3 {
      GroupHasNoPadding(bs[0], if |bs| == 2 then bs[1] else 0, 0, i);
    } else {
      EncodedLength(bs[3..]);
      MissingCompletes(|bs| - 3);
      if i < 4 {
        GroupHasNoPadding(bs[0], bs[1], bs[2], i);
      } else {
        PaddingExactly(bs[3..], i - 4);
      }
    }
  }

  // The string denotes, in radix 64, the number the bytes denote in radix 256
  // once zero bytes complete the last group.
  lemma {:induction false} EncodeDenotes(bs: seq<byte>)
    ensures Value(Numerals(Encode(bs)), 64) == Value(bs + Zeros(Missing(|bs|)), 256)
  {
    if |bs| == 0 {
      assert Numerals(Encode(bs)) == bs + Zeros(0);
    } else if |bs| < 3 {
      ShortDenotes(bs);
    } else {
      var rest := bs[3..];
      var h, y := [bs[0], bs[1], bs[2]], rest + Zeros(Missing(|rest|));
      EncodeDenotes(rest);
      MissingCompletes(|rest|);
      EncodedLength(rest);
      StepSplits(bs);
      GroupDenotes(bs[0], bs[1], bs[2]);
      PrependGroup(Numerals(Group(bs[0], bs[1], bs[2])), h, Numerals(Encode(rest)), y, (|rest| + 2) / 3);
    }
  }

  lemma ShortDenotes(bs: seq<byte>)
    requires 0 < |bs| < 3
    ensures Value(Numerals(Tail(bs)), 64) == Value(bs + Zeros(Missing(|bs|)), 256)
  {
    var b1: byte := if |bs| == 2 then bs[1] else 0;
    assert bs == if |bs| == 1 then [bs[0]] else [bs[0], b1];
    TailDenotes(bs[0], b1, bs);
    PadOut(bs, b1);
  }

  lemma PadOut(bs: seq<byte>, b1: byte)
    requires 0 < |bs| < 3 && b1 == if |bs| == 2 then bs[1] else 0
    ensures bs + Zeros(Missing(|bs|)) == [bs[0], b1, 0]
  {
  }

  lemma NumeralsConcat(x: seq<byte>, y: seq<byte>)
    ensures Numerals(x + y) == Numerals(x) + Numerals(y)
  {
  }

  lemma StepSplits(bs: seq<byte>)
    requires |bs| >= 3
    ensures Numerals(Encode(bs)) == Numerals(Group(bs[0], bs[1], bs[2])) + Numerals(Encode(bs[3..]))
    ensures bs + Zeros(Missing(|bs|)) == [bs[0], bs[1], bs[2]] + (bs[3..] + Zeros(Missing(|bs[3..]|)))
  {
    NumeralsConcat(Group(bs[0], bs[1], bs[2]), Encode(bs[3..]));
    MissingCompletes(|bs[3..]|);
    SplitThree(bs, Zeros(Missing(|bs|)));
  }

  lemma SplitThree(bs: seq<byte>, zs: seq<nat>)
    requires |bs| >= 3
    ensures bs + zs == [bs[0], bs[1], bs[2]] + (bs[3..] + zs)
  {
  }

  lemma PrependGroup(g: seq<nat>, h: seq<nat>, x: seq<nat>, y: seq<nat>, k: nat)
    requires Value(g, 64) == Value(h, 256) && Value(x, 64) == Value(y, 256)
    requires |x| == k * 4 && |y| == k * 3
    ensures Value(g + x, 64) == Value(h + y, 256)
  {
    ValueConcat(g, x, 64);
    ValueConcat(h, y, 256);
    SamePowers(k);
  }

  lemma {:induction false} SamePowers(k: nat)
    ensures Pow(64, k * 4) == Pow(256, k * 3)
  {
    if k > 0 {
      SamePowers(k - 1);
      PowAdd(64, 4, (k - 1) * 4);
      PowAdd(256, 3, (k - 1) * 3);
      assert Pow(64, 4) == Pow(256, 3) == 0x100_0000;
    }
  }

  // ------------------------------------------------------------------ loops

  lemma EncodeStep(bs: seq<byte>, i: nat, s: seq<byte>)
    requires i + 3 <= |bs|
    ensures s + Encode(bs[i..]) == s + Group(bs[i], bs[i + 1], bs[i + 2]) + Encode(bs[i + 3..])
  {
    assert bs[i..][3..] == bs[i + 3..];
  }

  method EncodeLoop(bs: seq<byte>) returns (s: seq<byte>)
    ensures s == Encode(bs)
  {
    s := [];
    var i := 0;
    assert bs[0..] == bs;
    while i + 3 <= |bs|
      invariant 0 <= i <= |bs|
      invariant s + Encode(bs[i..]) == Encode(bs)
    {
      EncodeStep(bs, i, s);
      s := s + Group(bs[i], bs[i + 1], bs[i + 2]);
      i := i + 3;
    }
    s := s + Tail(bs[i..]);
  }

  // What the strings still to be decoded contribute to the result.
  function Extend(out: seq<byte>, rest: Result<seq<byte>, DecodeError>): Result<seq<byte>, DecodeError> {
    match rest
    case Ok(bs) => Ok(out + bs)
    case Err(e) => Err(e)
  }

  lemma AfterGroup(out: seq<byte>, s: seq<byte>)
    requires |s| > 4
    ensures Extend(out, Decode(s)) == match DecodeGroup(s[..4])
                                      case Err(e) => Err(e)
                                      case Ok(g) => Extend(out + g, Decode(s[4..]))
  {
    if DecodeGroup(s[..4]).Ok? && Decode(s[4..]).Ok? {
      var g, rest := DecodeGroup(s[..4]).value, Decode(s[4..]).value;
      assert out + (g + rest) == out + g + rest;
    }
  }

  lemma ExtendNothing(r: Result<seq<byte>, DecodeError>)
    ensures Extend([], r) == r
  {
    if r.Ok? {
      assert [] + r.value == r.value;
    }
  }

  method DecodeLoop(s: seq<byte>) returns (r: Result<seq<byte>, DecodeError>)
    ensures r == Decode(s)
  {
    var out: seq<byte> := [];
    var rest := s;
    ExtendNothing(Decode(s));
    while |rest| > 4
      invariant |rest| <= |s| && Decode(s) == Extend(out, Decode(rest))
      invariant out == [] || |rest| > 0
      decreases |rest|
    {
      AfterGroup(out, rest);
      match DecodeGroup(rest[..4]) {
        case Err(e) => return Err(e);
        case Ok(g) => out := out + g;
      }
      rest := rest[4..];
    }
    if |rest| == 4 {
      r := Extend(out, DecodeTail(rest));
    } else if |rest| == 0 {
      r := Ok(out);
      assert out + [] == out;
    } else {
      r := Err(Malformed);
    }
  }
}
