/** Coordinate numbers: Ruby's `to_f` read as an exact decimal, and the
    three-decimal rewrite the LEF tool applies to coordinate fields
    (`"%.3f" % field.to_f` unless the field already has four or more
    fractional digits). */
module Numbers {
  import opened Text

  /** The numeric text at the start of a string: sign, integer digits and
      the digits after an optional decimal point. */
  datatype Decimal = Decimal(negative: bool, intDigits: string, fracDigits: string)

  /** What Ruby's `to_f` reads from `t`: leading whitespace, an optional sign,
      digits, and a fraction after `.`. Anything after that is ignored. */
  function NumericPrefix(t: string): (d: Decimal)
    ensures AllDigits(d.intDigits) && AllDigits(d.fracDigits)
  {
    var s := TrimLeft(t);
    var body := if s != [] && (s[0] == '-' || s[0] == '+') then s[1..] else s;
    Decimal(s != [] && s[0] == '-', LeadingDigits(body), FractionDigits(body))
  }

  /** The digits after the point that follows the integer digits of `body`. */
  function FractionDigits(body: string): (f: string)
    ensures AllDigits(f)
  {
    var rest := body[|LeadingDigits(body)|..];
    if rest != [] && rest[0] == '.' then LeadingDigits(rest[1..]) else []
  }

  function Pow10(n: nat): (p: nat)
    ensures p >= 1
  {
    if n == 0 then 1 else 10 * Pow10(n - 1)
  }

  function FractionValue(f: string): real
    requires AllDigits(f)
  {
    DigitsValue(f) as real / Pow10(|f|) as real
  }

  function Value(d: Decimal): real
    requires AllDigits(d.intDigits) && AllDigits(d.fracDigits)
  {
    var magnitude := DigitsValue(d.intDigits) as real + FractionValue(d.fracDigits);
    if d.negative then -magnitude else magnitude
  }

  /** Ruby's `to_f`, as an exact decimal rather than a binary double. */
  function ToF(t: string): real {
    Value(NumericPrefix(t))
  }

  /** `/\.\d{4}/`: a point followed by four digits somewhere in the field. */
  predicate HasLongFraction(t: string)
    decreases |t|
  {
    (|t| >= 5 && t[0] == '.' && AllDigits(t[1..5])) || (t != [] && HasLongFraction(t[1..]))
  }

  function StripLeadingZeros(s: string): (r: string)
    requires AllDigits(s)
    ensures AllDigits(r) && (r == [] || r[0] != '0')
    ensures DigitsValue(r) == DigitsValue(s)
  {
    if s != [] && s[0] == '0' then
      DigitsValueOfZeroHead(s);
      StripLeadingZeros(s[1..])
    else s
  }

  function Zeros(n: nat): (z: string)
    ensures |z| == n && AllDigits(z)
  {
    seq(n, _ => '0')
  }

  /** `"%.3f" % t.to_f` for a field whose fraction has at most three digits. */
  function Fixed3(t: string): string
    requires |NumericPrefix(t).fracDigits| <= 3
  {
    Render(NumericPrefix(t))
  }

  /** `"%.3f"` of a decimal with at most three fractional digits: the sign
      (none for zero), the integer digits without leading zeros ("0" when there
      are none), a point, and the fraction padded with zeros to three digits. */
  function Render(d: Decimal): string
    requires AllDigits(d.intDigits) && AllDigits(d.fracDigits) && |d.fracDigits| <= 3
  {
    var c := Canonical(d);
    (if c.negative then "-" else "") + (c.intDigits + "." + c.fracDigits)
  }

  /** The decimal `"%.3f"` prints for `d`. */
  function Canonical(d: Decimal): (c: Decimal)
    requires AllDigits(d.intDigits) && AllDigits(d.fracDigits) && |d.fracDigits| <= 3
    ensures AllDigits(c.intDigits) && c.intDigits != [] && AllDigits(c.fracDigits) && |c.fracDigits| == 3
  {
    var ip := StripLeadingZeros(d.intDigits);
    Decimal(d.negative && (d.intDigits != [] || d.fracDigits != []),
            if ip == [] then "0" else ip,
            d.fracDigits + Zeros(3 - |d.fracDigits|))
  }

  /** The coordinate-field rewrite of the LAYER parser. */
  function NormalizeField(t: string): string {
    if HasLongFraction(t) then t
    else
      FractionAtMostThree(t);
      Fixed3(t)
  }

  // ---------------------------------------------------------------------
  // Lemmas

  lemma DigitsValueOfZeroHead(s: string)
    requires AllDigits(s) && s != [] && s[0] == '0'
    ensures DigitsValue(s[1..]) == DigitsValue(s)
  {
    DigitsValueCons(s[0], s[1..]);
    assert [s[0]] + s[1..] == s;
  }

  lemma {:induction false} DigitsValueCons(c: char, s: string)
    requires IsDigit(c) && AllDigits(s)
    ensures DigitsValue([c] + s) == (c as int - '0' as int) * Pow10(|s|) + DigitsValue(s)
    decreases |s|
  {
    var cs := [c] + s;
    var x := c as int - '0' as int;
    if s == [] {
      assert cs[..|cs| - 1] == [];
    } else {
      var init := s[..|s| - 1];
      var last := s[|s| - 1] as int - '0' as int;
      assert cs[..|cs| - 1] == [c] + init;
      DigitsValueCons(c, init);
      var p := Pow10(|init|);
      var v := DigitsValue(init);
      calc {
        DigitsValue(cs);
        DigitsValue([c] + init) * 10 + last;
        (x * p + v) * 10 + last;
        { DistributeTen(x, p, v); }
        x * (10 * p) + (v * 10 + last);
        x * Pow10(|s|) + DigitsValue(s);
      }
    }
  }

  // Arithmetic proof helper; it models nothing in the tool.
  lemma MulAssoc(a: int, b: int, c: int)
    ensures (a * b) * c == a * (b * c)
  {
  }

  // Arithmetic proof helper; it models nothing in the tool.
  lemma DistributeTen(x: int, p: int, v: int)
    ensures (x * p + v) * 10 == x * (10 * p) + v * 10
  {
  }

  lemma {:induction false} DigitsValueAppendZeros(f: string, n: nat)
    requires AllDigits(f)
    ensures DigitsValue(f + Zeros(n)) == DigitsValue(f) * Pow10(n)
    decreases n
  {
    if n == 0 {
      assert f + Zeros(0) == f;
    } else {
      DigitsValueAppendZeros(f, n - 1);
      var g := f + Zeros(n);
      assert g[..|g| - 1] == f + Zeros(n - 1);
      assert g[|g| - 1] == '0';
      calc {
        DigitsValue(g);
        DigitsValue(f + Zeros(n - 1)) * 10;
        (DigitsValue(f) * Pow10(n - 1)) * 10;
        { MulAssoc(DigitsValue(f), Pow10(n - 1), 10); }
        DigitsValue(f) * (Pow10(n - 1) * 10);
      }
    }
  }

  lemma CancelFactor(a: real, p: real, q: real)
    requires p > 0.0 && q > 0.0
    ensures (a * q) / (p * q) == a / p
  {
    var x := a / p;
    assert a == x * p;
    assert a * q == x * (p * q);
  }

  // Arithmetic proof helper; it models nothing in the tool.
  lemma CastMul(a: nat, q: nat)
    ensures (a * q) as real == a as real * q as real
  {
  }

  /** Padding a fraction with zeros does not change its value. */
  lemma FractionValuePadded(f: string, n: nat)
    requires AllDigits(f)
    ensures FractionValue(f + Zeros(n)) == FractionValue(f)
  {
    var g := f + Zeros(n);
    assert DigitsValue(g) == DigitsValue(f) * Pow10(n) by { DigitsValueAppendZeros(f, n); }
    assert Pow10(|g|) == Pow10(|f|) * Pow10(n) by { Pow10Add(|f|, n); }
    ScaledFraction(DigitsValue(f), Pow10(|f|), Pow10(n));
  }

  lemma ScaledFraction(a: nat, p: nat, q: nat)
    requires p > 0 && q > 0
    ensures (a * q) as real / (p * q) as real == a as real / p as real
  {
    CastMul(a, q);
    CastMul(p, q);
    CancelFactor(a as real, p as real, q as real);
  }

  lemma {:induction false} Pow10Add(a: nat, b: nat)
    ensures Pow10(a + b) == Pow10(a) * Pow10(b)
  {
    if a > 0 {
      Pow10Add(a - 1, b);
    }
  }

  lemma {:induction false} LongFractionAt(t: string, i: nat)
    requires i + 5 <= |t| && t[i] == '.'
    requires forall k | i < k < i + 5 :: IsDigit(t[k])
    ensures HasLongFraction(t)
    decreases i
  {
    if i > 0 {
      LongFractionAt(t[1..], i - 1);
    } else {
      assert forall k | 0 <= k < 4 :: t[1..5][k] == t[k + 1];
    }
  }

  /** The numeric body of `t` (after blanks and sign) is a suffix of `t`. */
  lemma NumericBodyAt(t: string) returns (j: nat)
    ensures j <= |t|
    ensures var s := TrimLeft(t);
      t[j..] == (if s != [] && (s[0] == '-' || s[0] == '+') then s[1..] else s)
  {
    var s := TrimLeft(t);
    j := |t| - |s|;
    if s != [] && (s[0] == '-' || s[0] == '+') {
      assert s[1..] == t[j + 1..];
      j := j + 1;
    }
  }

  /** Where the field has no `.dddd`, `to_f` reads at most three fractional
      digits, so the three-decimal rewrite needs no rounding. */
  lemma FractionAtMostThree(t: string)
    requires !HasLongFraction(t)
    ensures |NumericPrefix(t).fracDigits| <= 3
  {
    var j := NumericBodyAt(t);
    var body := t[j..];
    var ip := LeadingDigits(body);
    var rest := body[|ip|..];
    if rest != [] && rest[0] == '.' {
      var fp := LeadingDigits(rest[1..]);
      assert NumericPrefix(t).fracDigits == fp;
      if |fp| >= 4 {
        var i := j + |ip|;
        assert rest == t[i..];
        forall k | i < k < i + 5 ensures IsDigit(t[k]) {
          assert t[k] == rest[1..][k - i - 1] == fp[k - i - 1];
        }
        LongFractionAt(t, i);
        assert false;
      }
    }
  }

  lemma {:induction false} NoPointNoLongFraction(s: string)
    requires forall i | 0 <= i < |s| :: s[i] != '.'
    ensures !HasLongFraction(s)
    decreases |s|
  {
    if s != [] {
      NoPointNoLongFraction(s[1..]);
    }
  }

  /** How `to_f` reads a field in the rewritten shape. */
  lemma UnsignedReadBack(ip: string, frac: string)
    requires AllDigits(ip) && AllDigits(frac)
    ensures LeadingDigits(ip + "." + frac) == ip
    ensures FractionDigits(ip + "." + frac) == frac
  {
    var tail := "." + frac;
    var body := ip + tail;
    assert ip + "." + frac == body;
    LeadingDigitsOf(ip, tail);
    assert body[|ip|..] == tail;
    assert tail[1..] == frac + [];
    LeadingDigitsOf(frac, []);
    assert FractionDigits(body) == LeadingDigits(tail[1..]);
  }

  lemma SignedRead(sign: string, body: string)
    requires sign == "" || sign == "-"
    requires body != [] && IsDigit(body[0])
    ensures NumericPrefix(sign + body) == Decimal(sign == "-", LeadingDigits(body), FractionDigits(body))
  {
    var r := sign + body;
    if sign == "" {
      assert r == body;
    } else {
      assert r[0] == '-' && r[1..] == body;
    }
    TrimLeftUnspaced(r);
  }

  /** The rewritten field reads back as the same number, now with exactly three
      fractional digits, and rewriting it again changes nothing. */
  lemma {:induction false} Fixed3Meaning(t: string)
    requires !HasLongFraction(t)
    ensures |NumericPrefix(t).fracDigits| <= 3
    ensures var r := Fixed3(t);
      && ToF(r) == ToF(t)
      && |NumericPrefix(r).fracDigits| == 3
      && NoSpace(r)
      && !HasLongFraction(r)
      && NormalizeField(r) == r
  {
    FractionAtMostThree(t);
    var d := NumericPrefix(t);
    var c := Canonical(d);
    var r := Fixed3(t);
    assert NumericPrefix(r) == c by { RenderReadBack(d); }
    assert Value(c) == Value(d) by { CanonicalValue(d); }
    assert NoSpace(r) && !HasLongFraction(r) by { RenderShape(d); }
    assert Fixed3(r) == r by { CanonicalIdempotent(d); }
  }

  /** `to_f` of the printed text gives back the printed decimal. */
  lemma RenderReadBack(d: Decimal)
    requires AllDigits(d.intDigits) && AllDigits(d.fracDigits) && |d.fracDigits| <= 3
    ensures NumericPrefix(Render(d)) == Canonical(d)
  {
    var c := Canonical(d);
    var sign := if c.negative then "-" else "";
    UnsignedReadBack(c.intDigits, c.fracDigits);
    SignedRead(sign, c.intDigits + "." + c.fracDigits);
  }

  lemma CanonicalValue(d: Decimal)
    requires AllDigits(d.intDigits) && AllDigits(d.fracDigits) && |d.fracDigits| <= 3
    ensures Value(Canonical(d)) == Value(d)
  {
    var c := Canonical(d);
    FractionValuePadded(d.fracDigits, 3 - |d.fracDigits|);
    assert DigitsValue("0") == 0;
    assert DigitsValue(c.intDigits) == DigitsValue(d.intDigits);
    if !(d.intDigits != [] || d.fracDigits != []) {
      assert DigitsValue(d.intDigits) == 0 && DigitsValue(d.fracDigits) == 0;
    }
  }

  lemma CanonicalIdempotent(d: Decimal)
    requires AllDigits(d.intDigits) && AllDigits(d.fracDigits) && |d.fracDigits| <= 3
    ensures Canonical(Canonical(d)) == Canonical(d)
  {
    var c := Canonical(d);
    assert StripLeadingZeros(c.intDigits) == StripLeadingZeros(d.intDigits);
    assert c.fracDigits + Zeros(0) == c.fracDigits;
  }

  lemma RenderShape(d: Decimal)
    requires AllDigits(d.intDigits) && AllDigits(d.fracDigits) && |d.fracDigits| <= 3
    ensures NoSpace(Render(d)) && !HasLongFraction(Render(d))
  {
    var c := Canonical(d);
    var sign := if c.negative then "-" else "";
    assert Render(d) == sign + c.intDigits + "." + c.fracDigits;
    assert forall i | 0 <= i < |sign + c.intDigits| :: (sign + c.intDigits)[i] != '.';
    NoPointNoLongFraction(c.fracDigits);
    NoLongFractionAfterPoint(sign + c.intDigits, c.fracDigits);
  }

  lemma {:induction false} NoLongFractionAfterPoint(a: string, b: string)
    requires forall i | 0 <= i < |a| :: a[i] != '.'
    requires |b| <= 3 && !HasLongFraction(b)
    ensures !HasLongFraction(a + "." + b)
    decreases |a|
  {
    if a == [] {
      assert a + "." + b == "." + b;
      assert ("." + b)[1..] == b;
    } else {
      assert (a + "." + b)[1..] == a[1..] + "." + b;
      NoLongFractionAfterPoint(a[1..], b);
    }
  }
}
