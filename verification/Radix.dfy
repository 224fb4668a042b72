/**
 Positional arithmetic for the radix-58 strings of the memcmp filter. Digit
 sequences are big-endian. `Transcode` is the numeric specification of a
 base58-style conversion (one leading zero digit per leading zero digit, then
 the minimal digits of the same number); `Convert` is the digit-by-digit loop.
 */
module Radix {

  type byte = x: int | 0 <= x < 256

  // ---------------------------------------------------------------- powers

  function Pow(b: nat, e: nat): nat {
    if e == 0 then 1 else b * Pow(b, e - 1)
  }

  lemma {:induction false} PowPositive(b: nat, e: nat)
    requires b > 0
    ensures Pow(b, e) > 0
  {
    if e > 0 {
      PowPositive(b, e - 1);
    }
  }

  lemma {:induction false} PowAdd(b: nat, d: nat, e: nat)
    ensures Pow(b, d + e) == Pow(b, d) * Pow(b, e)
  {
    if d == 0 {
      assert Pow(b, 0 + e) == 1 * Pow(b, e);
    } else {
      PowAdd(b, d - 1, e);
      calc {
        Pow(b, d + e);
        b * Pow(b, d - 1 + e);
        b * (Pow(b, d - 1) * Pow(b, e));
        { MulAssociates(b, Pow(b, d - 1), Pow(b, e)); }
        (b * Pow(b, d - 1)) * Pow(b, e);
      }
    }
  }

  lemma {:induction false} PowMonotone(b: nat, d: nat, e: nat)
    requires b > 0 && d <= e
    ensures Pow(b, d) <= Pow(b, e)
  {
    if d < e {
      PowMonotone(b, d, e - 1);
      PowPositive(b, e - 1);
      MulMonotone(1, b, Pow(b, e - 1), Pow(b, e - 1));
    }
  }

  lemma {:induction false} PowMonotoneBase(a: nat, b: nat, e: nat)
    requires a <= b
    ensures Pow(a, e) <= Pow(b, e)
  {
    if e > 0 {
      PowMonotoneBase(a, b, e - 1);
      MulMonotone(a, b, Pow(a, e - 1), Pow(b, e - 1));
    }
  }

  lemma MulAssociates(x: int, y: int, z: int)
    ensures x * (y * z) == (x * y) * z
  {
  }

  lemma MulDistributes(x: int, y: int, z: int)
    ensures (x + y) * z == x * z + y * z
  {
  }

  lemma MulMonotone(a: nat, b: nat, x: nat, y: nat)
    requires a <= b && x <= y
    ensures a * x <= b * y
  {
    assert a * x <= a * y;
    assert a * y <= b * y;
  }

  // ---------------------------------------------------------------- digits

  predicate InBase(ds: seq<nat>, b: nat) {
    forall i :: 0 <= i < |ds| ==> ds[i] < b
  }

  // The number that a digit sequence denotes, most significant digit first.
  function Value(ds: seq<nat>, b: nat): nat {
    if |ds| == 0 then 0 else Value(ds[..|ds| - 1], b) * b + ds[|ds| - 1]
  }

  // The shortest digit sequence of a number; none for zero.
  function Digits(n: nat, b: nat): seq<nat>
    requires b >= 2
  {
    if n == 0 then [] else DivShrinks(n, b); Digits(n / b, b) + [n % b]
  }

  lemma DivShrinks(n: nat, b: nat)
    requires n > 0 && b >= 2
    ensures 0 <= n / b < n
  {
    DivMod(n, b);
    if n / b >= n {
      MulMonotone(2, b, n, n / b);
    }
  }

  lemma DivMod(n: nat, b: nat)
    requires b > 0
    ensures n == (n / b) * b + n % b && 0 <= n % b < b && 0 <= n / b
  {
  }

  // Division with remainder is unique.
  lemma DivModUnique(q: nat, r: nat, b: nat)
    requires r < b
    ensures (q * b + r) / b == q && (q * b + r) % b == r
  {
    var n := q * b + r;
    DivMod(n, b);
    if n / b < q {
      MulMonotone(n / b + 1, q, b, b);
    } else if n / b > q {
      MulMonotone(q + 1, n / b, b, b);
    }
  }

  predicate NoLeadingZero(ds: seq<nat>) {
    |ds| > 0 ==> ds[0] != 0
  }

  lemma {:induction false} DigitsDenote(n: nat, b: nat)
    requires b >= 2
    ensures Value(Digits(n, b), b) == n
    ensures InBase(Digits(n, b), b)
    ensures NoLeadingZero(Digits(n, b))
    decreases n
  {
    if n > 0 {
      DivShrinks(n, b);
      DivMod(n, b);
      DigitsDenote(n / b, b);
      var ds := Digits(n, b);
      assert ds[..|ds| - 1] == Digits(n / b, b);
      if n / b == 0 {
        assert ds == [n % b];
      } else if Digits(n / b, b) == [] {
        assert false;
      }
    }
  }

  lemma {:induction false} ValuePositive(ds: seq<nat>, b: nat)
    requires b >= 2 && |ds| > 0 && ds[0] != 0
    ensures Value(ds, b) > 0
  {
    if |ds| > 1 {
      ValuePositive(ds[..|ds| - 1], b);
      MulMonotone(1, Value(ds[..|ds| - 1], b), b, b);
    }
  }

  // A minimal sequence is recovered from the number it denotes.
  lemma {:induction false} DigitsUnique(ds: seq<nat>, b: nat)
    requires b >= 2 && InBase(ds, b) && NoLeadingZero(ds)
    ensures Digits(Value(ds, b), b) == ds
  {
    if |ds| > 0 {
      var front, last := ds[..|ds| - 1], ds[|ds| - 1];
      assert Value(ds, b) > 0 by { ValuePositive(ds, b); }
      DigitsUnique(front, b);
      DigitsStep(Value(front, b), last, b);
      assert ds == front + [last];
    }
  }

  lemma DigitsStep(v: nat, r: nat, b: nat)
    requires b >= 2 && r < b && v * b + r > 0
    ensures Digits(v * b + r, b) == Digits(v, b) + [r]
  {
    DivModUnique(v, r, b);
  }

  lemma {:induction false} ValueConcat(xs: seq<nat>, ys: seq<nat>, b: nat)
    ensures Value(xs + ys, b) == Value(xs, b) * Pow(b, |ys|) + Value(ys, b)
  {
    if |ys| == 0 {
      assert xs + ys == xs;
    } else {
      var front, last := ys[..|ys| - 1], ys[|ys| - 1];
      ValueConcat(xs, front, b);
      assert (xs + ys)[..|xs + ys| - 1] == xs + front;
      AppendStep(Value(xs, b), Pow(b, |front|), Value(front, b), b);
    }
  }

  lemma AppendStep(v: nat, p: nat, w: nat, b: nat)
    ensures (v * p + w) * b == v * (b * p) + w * b
  {
    MulDistributes(v * p, w, b);
    MulAssociates(v, p, b);
  }

  lemma {:induction false} ValueBound(ds: seq<nat>, b: nat)
    requires b >= 2 && InBase(ds, b)
    ensures Value(ds, b) < Pow(b, |ds|)
    ensures |ds| > 0 && ds[0] != 0 ==> Pow(b, |ds| - 1) <= Value(ds, b)
  {
    if |ds| > 0 {
      var front := ds[..|ds| - 1];
      ValueBound(front, b);
      BoundStep(Value(front, b), Pow(b, |front|), ds[|ds| - 1], b);
      if |front| > 0 && ds[0] != 0 {
        LowerBoundStep(Pow(b, |front| - 1), Value(front, b), b);
      }
    }
  }

  lemma BoundStep(v: nat, p: nat, r: nat, b: nat)
    requires v < p && r < b
    ensures v * b + r < b * p
  {
    MulMonotone(v + 1, p, b, b);
  }

  lemma LowerBoundStep(p: nat, v: nat, b: nat)
    requires p <= v
    ensures b * p <= v * b
  {
    MulMonotone(p, v, b, b);
  }

  // How many digits a number has.
  lemma DigitsLength(n: nat, b: nat, k: nat)
    requires b >= 2
    ensures |Digits(n, b)| <= k <==> n < Pow(b, k)
  {
    var ds := Digits(n, b);
    DigitsDenote(n, b);
    ValueBound(ds, b);
    if |ds| <= k {
      PowMonotone(b, |ds|, k);
    } else {
      PowMonotone(b, k, |ds| - 1);
    }
  }

  // ---------------------------------------------------- conversion as a spec

  function Zeros(k: nat): (zs: seq<nat>)
    ensures |zs| == k && forall i :: 0 <= i < k ==> zs[i] == 0
  {
    seq(k, _ => 0)
  }

  function LeadingZeros(ds: seq<nat>): (k: nat)
    ensures k <= |ds| && (forall i :: 0 <= i < k ==> ds[i] == 0) && (k < |ds| ==> ds[k] != 0)
  {
    if |ds| > 0 && ds[0] == 0 then 1 + LeadingZeros(ds[1..]) else 0
  }

  function Transcode(ds: seq<nat>, a: nat, b: nat): seq<nat>
    requires b >= 2
  {
    Zeros(LeadingZeros(ds)) + Digits(Value(ds, a), b)
  }

  lemma {:induction false} ValueOfZeros(k: nat, b: nat)
    ensures Value(Zeros(k), b) == 0
  {
    if k > 0 {
      ValueOfZeros(k - 1, b);
      assert Zeros(k)[..k - 1] == Zeros(k - 1);
    }
  }

  lemma ValueIgnoresZeros(k: nat, ds: seq<nat>, b: nat)
    ensures Value(Zeros(k) + ds, b) == Value(ds, b)
  {
    ValueConcat(Zeros(k), ds, b);
    ValueOfZeros(k, b);
  }

  lemma LeadingZerosOf(k: nat, ds: seq<nat>)
    requires NoLeadingZero(ds)
    ensures LeadingZeros(Zeros(k) + ds) == k
  {
    var s := Zeros(k) + ds;
    var z := LeadingZeros(s);
    assert k < |s| ==> s[k] == ds[0];
    assert forall i :: 0 <= i < k ==> s[i] == 0;
  }

  lemma TranscodeInBase(ds: seq<nat>, a: nat, b: nat)
    requires b >= 2
    ensures InBase(Transcode(ds, a, b), b)
    ensures LeadingZeros(Transcode(ds, a, b)) == LeadingZeros(ds)
    ensures Value(Transcode(ds, a, b), b) == Value(ds, a)
  {
    DigitsDenote(Value(ds, a), b);
    LeadingZerosOf(LeadingZeros(ds), Digits(Value(ds, a), b));
    ValueIgnoresZeros(LeadingZeros(ds), Digits(Value(ds, a), b), b);
  }

  // Converting to another radix and back is the identity, leading zeros included.
  lemma TranscodeRoundTrip(ds: seq<nat>, a: nat, b: nat)
    requires a >= 2 && b >= 2 && InBase(ds, a)
    ensures Transcode(Transcode(ds, a, b), b, a) == ds
  {
    var k := LeadingZeros(ds);
    var rest := ds[k..];
    assert ds == Zeros(k) + rest;
    TranscodeInBase(ds, a, b);
    ValueIgnoresZeros(k, rest, a);
    DigitsUnique(rest, a);
  }

  // ----------------------------------------------------- conversion as loops

  lemma CarryStep(pending: nat, b: nat, p: nat)
    requires b > 0
    ensures pending * p == pending / b * (b * p) + pending % b * p
  {
    var q, r := pending / b, pending % b;
    DivMod(pending, b);
    MulDistributes(q * b, r, p);
    MulAssociates(q, b, p);
  }

  lemma ValueCons(d: nat, ds: seq<nat>, b: nat)
    ensures Value([d] + ds, b) == d * Pow(b, |ds|) + Value(ds, b)
  {
    ValueConcat([d], ds, b);
    assert [d][..0] == [];
  }

  // What a carry in front of the digits written so far amounts to.
  function Pending(carry: nat, out: seq<nat>, b: nat): nat {
    carry * Pow(b, |out|) + Value(out, b)
  }

  // The last digit of what is pending is written, the rest is carried on.
  method WriteDigit(pending: nat, b: nat, out: seq<nat>) returns (carry: nat, longer: seq<nat>)
    requires b >= 2 && InBase(out, b)
    ensures Pending(carry, longer, b) == Pending(pending, out, b)
    ensures |longer| == |out| + 1 && InBase(longer, b)
    ensures pending > 0 ==> carry < pending && (carry == 0 ==> NoLeadingZero(longer))
  {
    carry, longer := pending / b, [pending % b] + out;
    CarryStep(pending, b, Pow(b, |out|));
    DivMod(pending, b);
    ValueCons(pending % b, out, b);
    if pending > 0 {
      DivShrinks(pending, b);
    }
  }

  // The digits of what is left of the carry go to the front.
  method WriteCarry(carry: nat, b: nat, digits: seq<nat>) returns (out: seq<nat>)
    requires b >= 2 && InBase(digits, b) && (carry == 0 ==> NoLeadingZero(digits))
    ensures Value(out, b) == Pending(carry, digits, b)
    ensures InBase(out, b) && NoLeadingZero(out)
  {
    var rest: nat := carry;
    out := digits;
    while rest > 0
      invariant Pending(rest, out, b) == Pending(carry, digits, b)
      invariant InBase(out, b) && (rest == 0 ==> NoLeadingZero(out))
    {
      rest, out := WriteDigit(rest, b, out);
    }
  }

  lemma LeadingStep(v: nat, d: nat, m: nat, carry: nat, b: nat, p: nat)
    ensures ((v * b + d) * m + carry) * p == v * m * (b * p) + (d * m + carry) * p
  {
    AppendStep(v, b, d, m);
    MulAssociates(v, m, b);
    MulDistributes(v * m * b, d * m + carry, p);
    MulAssociates(v * m, b, p);
  }

  function TimesPlus(x: nat, m: nat, y: nat): nat {
    x * m + y
  }

  // The digits of acc not yet multiplied, which denote v after this step, stay in front.
  lemma PendingStep(v: nat, d: nat, m: nat, carry: nat, b: nat, out: seq<nat>, carry': nat, longer: seq<nat>)
    requires |longer| == |out| + 1 && Pending(carry', longer, b) == Pending(TimesPlus(d, m, carry), out, b)
    ensures Pending(TimesPlus(v, m, carry'), longer, b) == Pending(TimesPlus(TimesPlus(v, b, d), m, carry), out, b)
  {
    LeadingStep(v, d, m, carry, b, Pow(b, |out|));
    MulDistributes(v * m, carry', Pow(b, |longer|));
  }

  // `acc * m + digit`, carried through acc from its least significant digit.
  method MultiplyThrough(acc: seq<nat>, m: nat, digit: nat, b: nat) returns (carry: nat, out: seq<nat>)
    requires b >= 2 && InBase(acc, b)
    ensures Pending(carry, out, b) == TimesPlus(Value(acc, b), m, digit)
    ensures |out| == |acc| && InBase(out, b)
  {
    var i := |acc|;
    carry, out := digit, [];
    assert acc[..i] == acc;
    while i > 0
      invariant 0 <= i <= |acc| && |out| == |acc| - i && InBase(out, b)
      invariant Pending(TimesPlus(Value(acc[..i], b), m, carry), out, b) == TimesPlus(Value(acc, b), m, digit)
    {
      i := i - 1;
      assert acc[..i + 1][..i] == acc[..i];
      ghost var before, shorter := carry, out;
      carry, out := WriteDigit(TimesPlus(acc[i], m, carry), b, out);
      PendingStep(Value(acc[..i], b), acc[i], m, before, b, shorter, carry, out);
    }
  }

  // One digit of the input.
  method MultiplyAdd(acc: seq<nat>, m: nat, digit: nat, b: nat) returns (out: seq<nat>)
    requires b >= 2 && m >= 1 && InBase(acc, b) && NoLeadingZero(acc)
    ensures Value(out, b) == Value(acc, b) * m + digit
    ensures InBase(out, b) && NoLeadingZero(out)
  {
    var carry;
    carry, out := MultiplyThrough(acc, m, digit, b);
    if |acc| > 0 && carry == 0 {
      TopDigitStays(acc, m, digit, b, out);
    }
    out := WriteCarry(carry, b, out);
  }

  lemma TopZero(ds: seq<nat>, b: nat)
    requires b >= 2 && |ds| > 0 && InBase(ds, b) && ds[0] == 0
    ensures Value(ds, b) < Pow(b, |ds| - 1)
  {
    assert ds == [0] + ds[1..];
    ValueCons(0, ds[1..], b);
    ValueBound(ds[1..], b);
  }

  lemma MultiplyAddGrows(v: nat, m: nat, digit: nat)
    requires m >= 1
    ensures v <= v * m + digit
  {
    MulMonotone(v, v, 1, m);
  }

  // Without a final carry the top digit cannot have become zero.
  lemma TopDigitStays(acc: seq<nat>, m: nat, digit: nat, b: nat, out: seq<nat>)
    requires b >= 2 && m >= 1 && InBase(acc, b) && NoLeadingZero(acc) && |acc| > 0
    requires |out| == |acc| && InBase(out, b) && Value(out, b) == Value(acc, b) * m + digit
    ensures out[0] != 0
  {
    MultiplyAddGrows(Value(acc, b), m, digit);
    ValueBound(acc, b);
    if out[0] == 0 {
      TopZero(out, b);
    }
  }

  // The conversion loop computes the numeric specification.
  method Convert(ds: seq<nat>, a: nat, b: nat) returns (out: seq<nat>)
    requires a >= 1 && b >= 2
    ensures out == Transcode(ds, a, b)
  {
    var acc: seq<nat> := [];
    var i := 0;
    while i < |ds|
      invariant 0 <= i <= |ds|
      invariant Value(acc, b) == Value(ds[..i], a) && InBase(acc, b) && NoLeadingZero(acc)
    {
      assert ds[..i + 1][..i] == ds[..i];
      acc := MultiplyAdd(acc, a, ds[i], b);
      i := i + 1;
    }
    assert ds[..|ds|] == ds;
    DigitsUnique(acc, b);
    var zeros := 0;
    while zeros < |ds| && ds[zeros] == 0
      invariant 0 <= zeros <= |ds| && forall k :: 0 <= k < zeros ==> ds[k] == 0
    {
      zeros := zeros + 1;
    }
    out := Zeros(zeros) + acc;
  }
}
