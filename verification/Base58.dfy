/**
 Base58 with the Bitcoin alphabet, as the `bs58` crate is assumed to behave:
 one '1' per leading zero byte, then the minimal radix-58 digits of the bytes
 read as one big-endian number. Strings are octet sequences, because the
 filter's limits are on `String::len`, which counts octets.
 */
module Base58 {
  import opened Wrappers
  import opened Radix

  datatype DecodeError = InvalidCharacter(index: nat) | NonAsciiCharacter(index: nat)

  // -------------------------------------------------------------- alphabet

  const ALPHABET := "123456789" + "ABCDEFGH" + "JKLMN" + "PQRSTUVWXYZ" + "abcdefghijk" + "mnopqrstuvwxyz"

  function Symbol(d: nat): byte
    requires d < 58
  {
    if d < 9 then d + 49
    else if d < 17 then d + 56
    else if d < 22 then d + 57
    else if d < 33 then d + 58
    else if d < 44 then d + 64
    else d + 65
  }

  function Digit(c: byte): (d: Option<nat>)
    ensures d.Some? ==> d.value < 58 && Symbol(d.value) == c
  {
    if 49 <= c <= 57 then Some(c - 49)
    else if 65 <= c <= 72 then Some(c - 56)
    else if 74 <= c <= 78 then Some(c - 57)
    else if 80 <= c <= 90 then Some(c - 58)
    else if 97 <= c <= 107 then Some(c - 64)
    else if 109 <= c <= 122 then Some(c - 65)
    else None
  }

  lemma DigitOfSymbol(d: nat)
    requires d < 58
    ensures Digit(Symbol(d)) == Some(d)
  {
  }

  lemma SymbolsSpellTheAlphabet(d: nat)
    requires d < 58
    ensures |ALPHABET| == 58 && ALPHABET[d] as int == Symbol(d)
  {
  }

  // -------------------------------------------------------- specification

  function Spell(ds: seq<nat>): (s: seq<byte>)
    requires InBase(ds, 58)
    ensures |s| == |ds| && forall i :: 0 <= i < |ds| ==> s[i] == Symbol(ds[i])
  {
    seq(|ds|, i requires 0 <= i < |ds| => Symbol(ds[i]))
  }

  ghost predicate Spelled(s: seq<byte>) {
    forall i :: 0 <= i < |s| ==> Digit(s[i]).Some?
  }

  function Read(s: seq<byte>): (ds: seq<nat>)
    requires Spelled(s)
    ensures |ds| == |s| && InBase(ds, 58) && forall i :: 0 <= i < |s| ==> Digit(s[i]) == Some(ds[i])
  {
    seq(|s|, i requires 0 <= i < |s| => Digit(s[i]).value)
  }

  function Encode(bs: seq<byte>): seq<byte> {
    TranscodeInBase(bs, 256, 58);
    Spell(Transcode(bs, 256, 58))
  }

  // The position of the first octet outside the alphabet, |s| if there is none.
  function FirstBad(s: seq<byte>): (i: nat)
    ensures i <= |s| && Spelled(s[..i]) && (i < |s| ==> Digit(s[i]).None?)
    ensures i == |s| <==> Spelled(s)
  {
    if |s| == 0 then 0
    else if Digit(s[0]).None? then 0
    else var k := FirstBad(s[1..]);
         assert forall j :: 0 < j < k + 1 ==> s[j] == s[1..][j - 1];
         assert forall j :: 0 <= j < |s| - 1 ==> s[1..][j] == s[j + 1];
         k + 1
  }

  function ErrorAt(s: seq<byte>, i: nat): DecodeError
    requires i < |s|
  {
    if s[i] > 127 then NonAsciiCharacter(i) else InvalidCharacter(i)
  }

  function Decode(s: seq<byte>): Result<seq<byte>, DecodeError> {
    var i := FirstBad(s);
    if i < |s| then Err(ErrorAt(s, i))
    else
      TranscodeInBase(Read(s), 58, 256);
      Ok(Transcode(Read(s), 58, 256))
  }

  // Decoding fails exactly if some octet is outside the alphabet, and names the first.
  lemma DecodeFailsExactly(s: seq<byte>)
    ensures Decode(s).Err? <==> exists i :: 0 <= i < |s| && Digit(s[i]).None?
    ensures Decode(s).Err? ==>
              var i := Decode(s).error.index;
              && i < |s| && Digit(s[i]).None? && (forall k :: 0 <= k < i ==> Digit(s[k]).Some?)
              && (Decode(s).error.NonAsciiCharacter? <==> s[i] > 127)
  {
    var i := FirstBad(s);
    if i < |s| {
      assert Digit(s[i]).None?;
      assert forall k :: 0 <= k < i ==> s[..i][k] == s[k];
    }
  }

  // ------------------------------------------------------------ round trips

  lemma ReadSpell(ds: seq<nat>)
    requires InBase(ds, 58)
    ensures Spelled(Spell(ds)) && Read(Spell(ds)) == ds
  {
    forall i | 0 <= i < |ds| ensures Digit(Spell(ds)[i]) == Some(ds[i]) {
      DigitOfSymbol(ds[i]);
    }
  }

  // The string denotes the bytes' number in radix 58, and its leading '1's are
  // as many as the leading zero bytes.
  lemma EncodeDenotes(bs: seq<byte>)
    ensures Spelled(Encode(bs)) && Value(Read(Encode(bs)), 58) == Value(bs, 256)
    ensures LeadingZeros(bs) <= |Encode(bs)| && forall i :: 0 <= i < LeadingZeros(bs) ==> Encode(bs)[i] == 49
    ensures LeadingZeros(bs) < |Encode(bs)| ==> Encode(bs)[LeadingZeros(bs)] != 49
  {
    var ds := Transcode(bs, 256, 58);
    TranscodeInBase(bs, 256, 58);
    ReadSpell(ds);
    if LeadingZeros(ds) < |ds| {
      OnlyZeroIsOne(ds[LeadingZeros(ds)]);
    }
  }

  lemma OnlyZeroIsOne(d: nat)
    requires d < 58
    ensures Symbol(d) == 49 <==> d == 0
  {
  }

  lemma DecodeEncode(bs: seq<byte>)
    ensures Decode(Encode(bs)) == Ok(bs)
  {
    TranscodeInBase(bs, 256, 58);
    ReadSpell(Transcode(bs, 256, 58));
    TranscodeRoundTrip(bs, 256, 58);
  }

  lemma EncodeDecode(s: seq<byte>)
    requires Decode(s).Ok?
    ensures Encode(Decode(s).value) == s
  {
    TranscodeRoundTrip(Read(s), 58, 256);
    assert Spell(Read(s)) == s;
  }

  // ---------------------------------------------------------- size of a code

  lemma PowDouble(b: nat, e: nat, v: nat)
    requires Pow(b, e) == v
    ensures Pow(b, 2 * e) == v * v
  {
    PowAdd(b, e, e);
  }

  lemma {:induction false} PowOrder(a: nat, c: nat, b: nat, d: nat, k: nat)
    requires Pow(a, c) <= Pow(b, d)
    ensures Pow(a, k * c) <= Pow(b, k * d)
  {
    if k > 0 {
      PowOrder(a, c, b, d, k - 1);
      assert k * c == c + (k - 1) * c && k * d == d + (k - 1) * d;
      PowAdd(a, c, (k - 1) * c);
      PowAdd(b, d, (k - 1) * d);
      MulMonotone(Pow(a, c), Pow(b, d), Pow(a, (k - 1) * c), Pow(b, (k - 1) * d));
    }
  }

  lemma Power41()
    ensures Pow(256, 30) <= Pow(58, 41)
  {
    assert Pow(58, 5) == 656356768;
    PowDouble(58, 5, Pow(58, 5));
    PowDouble(58, 10, Pow(58, 10));
    PowDouble(58, 20, Pow(58, 20));
    assert Pow(58, 41) == 58 * Pow(58, 40);
    assert Pow(256, 3) == 0x100_0000;
    PowAdd(256, 3, 3);
    PowAdd(256, 6, 6);
    PowAdd(256, 12, 12);
    PowAdd(256, 24, 6);
  }

  lemma Power11()
    ensures Pow(256, 8) <= Pow(58, 11)
  {
    assert Pow(58, 5) == 656356768;
    PowDouble(58, 5, Pow(58, 5));
    assert Pow(58, 11) == 58 * Pow(58, 10);
    assert Pow(256, 4) == 0x1_0000_0000;
    PowDouble(256, 4, Pow(256, 4));
  }

  lemma Power15()
    ensures Pow(58, 15) <= Pow(256, 11)
  {
    assert Pow(58, 5) == 656356768;
    PowAdd(58, 5, 5);
    PowAdd(58, 10, 5);
    assert Pow(256, 4) == 0x1_0000_0000;
    PowAdd(256, 4, 4);
    assert Pow(256, 3) == 0x100_0000;
    PowAdd(256, 8, 3);
  }

  lemma Power9()
    ensures Pow(58, 9) < Pow(256, 7)
  {
    assert Pow(58, 5) == 656356768 && Pow(58, 4) == 11316496;
    PowAdd(58, 5, 4);
    assert Pow(256, 4) == 0x1_0000_0000 && Pow(256, 3) == 0x100_0000;
    PowAdd(256, 4, 3);
  }

  // 58^174 < 256^128 <= 58^175: 128 bytes need 175 digits and no more.
  lemma RadixGap()
    ensures Pow(58, 174) < Pow(256, 128) <= Pow(58, 175)
  {
    Power41();
    PowOrder(256, 30, 58, 41, 4);
    Power11();
    PowAdd(256, 120, 8);
    PowAdd(58, 164, 11);
    MulMonotone(Pow(256, 120), Pow(58, 164), Pow(256, 8), Pow(58, 11));

    Power15();
    PowOrder(58, 15, 256, 11, 11);
    Power9();
    PowAdd(58, 165, 9);
    PowAdd(256, 121, 7);
    PowPositive(58, 165);
    StrictProduct(Pow(58, 165), Pow(256, 121), Pow(58, 9), Pow(256, 7));
  }

  lemma StrictProduct(a: nat, b: nat, x: nat, y: nat)
    requires 0 < a <= b && x < y
    ensures a * x < b * y
  {
    MulMonotone(a, b, x + 1, y);
  }

  // The gap of 47 digits holds for every shorter number too.
  lemma PowerGap(m: nat)
    requires m <= 128
    ensures Pow(256, m) <= Pow(58, m + 47)
  {
    var k := 128 - m;
    RadixGap();
    PowAdd(256, m, k);
    PowAdd(58, m + 47, k);
    PowMonotoneBase(58, 256, k);
    PowPositive(58, k);
    if Pow(58, m + 47) < Pow(256, m) {
      StrictFactor(Pow(58, m + 47), Pow(256, m), Pow(58, k), Pow(256, k));
    }
  }

  lemma StrictFactor(a: nat, b: nat, x: nat, y: nat)
    requires a < b && 0 < x <= y
    ensures a * x < b * y
  {
    MulMonotone(a + 1, b, x, y);
  }

  // At most 128 bytes, however many of them are leading zeros, spell at most 175 symbols.
  lemma EncodedSize(bs: seq<byte>)
    requires |bs| <= 128
    ensures |Encode(bs)| <= |bs| + 47
  {
    var ds: seq<nat> := bs;
    var z := LeadingZeros(ds);
    var rest := ds[z..];
    assert ds == Zeros(z) + rest;
    ValueIgnoresZeros(z, rest, 256);
    ValueBound(rest, 256);
    PowerGap(|rest|);
    DigitsLength(Value(rest, 256), 58, |rest| + 47);
  }

  // The limit is reached.
  lemma LongestEncoding(bs: seq<byte>)
    requires |bs| == 128 && forall i :: 0 <= i < 128 ==> bs[i] == 255
    ensures |Encode(bs)| == 175
  {
    EncodedSize(bs);
    RadixGap();
    AllOnes(bs);
    DigitsLength(Value(bs, 256), 58, 174);
    assert LeadingZeros(bs) == 0;
  }

  lemma {:induction false} AllOnes(bs: seq<byte>)
    requires forall i :: 0 <= i < |bs| ==> bs[i] == 255
    ensures Value(bs, 256) == Pow(256, |bs|) - 1
  {
    if |bs| > 0 {
      AllOnes(bs[..|bs| - 1]);
    }
  }

  // Longer than 175 symbols never means 128 bytes or fewer.
  lemma DecodedSize(s: seq<byte>)
    requires Decode(s).Ok? && |s| > 175
    ensures |Decode(s).value| > 128
  {
    EncodeDecode(s);
    if |Decode(s).value| <= 128 {
      EncodedSize(Decode(s).value);
    }
  }

  // A string of '1's decodes to as many zero bytes.
  lemma OnesDecode(s: seq<byte>)
    requires forall i :: 0 <= i < |s| ==> s[i] == 49
    ensures Decode(s) == Ok(seq(|s|, _ => 0))
  {
    var zs: seq<byte> := seq(|s|, _ => 0);
    var ds: seq<nat> := zs;
    assert LeadingZeros(ds) == |s|;
    assert ds == Zeros(|s|) == Zeros(|s|) + [];
    ValueOfZeros(|s|, 256);
    assert Digits(0, 58) == [];
    assert Encode(zs) == s;
    DecodeEncode(zs);
  }

  // ---------------------------------------------------------------- loops

  // The two loops of the library, run digit by digit.
  method SpellLoop(ds: seq<nat>) returns (s: seq<byte>)
    requires InBase(ds, 58)
    ensures s == Spell(ds)
  {
    s := [];
    while |s| < |ds|
      invariant |s| <= |ds| && forall i :: 0 <= i < |s| ==> s[i] == Symbol(ds[i])
    {
      s := s + [Symbol(ds[|s|])];
    }
  }

  method EncodeLoop(bs: seq<byte>) returns (s: seq<byte>)
    ensures s == Encode(bs)
  {
    TranscodeInBase(bs, 256, 58);
    var ds := Convert(bs, 256, 58);
    s := SpellLoop(ds);
  }

  method DecodeLoop(s: seq<byte>) returns (r: Result<seq<byte>, DecodeError>)
    ensures r == Decode(s)
  {
    var ds: seq<nat> := [];
    while |ds| < |s|
      invariant |ds| <= |s| && InBase(ds, 58)
      invariant forall i :: 0 <= i < |ds| ==> Digit(s[i]) == Some(ds[i])
    {
      match Digit(s[|ds|]) {
        case None => return Err(ErrorAt(s, |ds|));
        case Some(d) => ds := ds + [d];
      }
    }
    TranscodeInBase(ds, 58, 256);
    assert ds == Read(s);
    var bytes := Convert(ds, 58, 256);
    r := Ok(bytes);
  }
}
