/** Rendering naturals as digit strings, as Ruby's `Integer#to_s(16)` and the
    `%02d` format directive do, together with a reference parser that inverts them. */
module Radix {
  import opened Wrappers

  /** The character for digit `d`: `0`-`9`, then lower-case `a`-`f`. */
  function DigitChar(d: nat): (c: char)
    requires d < 16
    ensures DigitValue(c) == d
  {
    if d < 10 then ('0' as int + d) as char else ('a' as int + d - 10) as char
  }

  /** The digit a character stands for, or 16 when it is not a lower-case hex digit. */
  function DigitValue(c: char): (d: nat)
    ensures d <= 16
  {
    if '0' <= c <= '9' then c as int - '0' as int
    else if 'a' <= c <= 'f' then c as int - 'a' as int + 10
    else 16
  }

  /** Every character of `s` is a digit below `base`. */
  predicate IsNumeral(s: string, base: nat) {
    forall i :: 0 <= i < |s| ==> DigitValue(s[i]) < base
  }

  /** Most significant digit first, no leading zeros, "0" for zero. */
  function Render(n: nat, base: nat): (s: string)
    requires 2 <= base <= 16
    ensures |s| > 0
    ensures IsNumeral(s, base)
    decreases n
  {
    if n < base then [DigitChar(n)]
    else
      var q, d := n / base, n % base;
      DivideByBase(n, base);
      var head := Render(q, base);
      var s := head + [DigitChar(d)];
      assert forall i :: 0 <= i < |head| ==> s[i] == head[i];
      s
  }

  /** A rendering starts with `0` only when it is the numeral for zero: no leading zeros. */
  lemma {:induction false} RenderHasNoLeadingZero(n: nat, base: nat)
    requires 2 <= base <= 16
    ensures Render(n, base)[0] == '0' ==> n == 0 && |Render(n, base)| == 1
    decreases n
  {
    if n >= base {
      DivideByBase(n, base);
      RenderHasNoLeadingZero(n / base, base);
    }
  }

  /** One step of positional notation: `n` splits into a smaller quotient and a digit. */
  lemma DivideByBase(n: nat, base: nat)
    requires 2 <= base
    ensures n / base <= n
    ensures n >= base ==> 1 <= n / base < n
    ensures n % base < base
    ensures n == (n / base) * base + n % base
  {
  }

  /** The number a numeral denotes (the empty numeral denotes 0). */
  function Value(s: string, base: nat): (v: nat)
    requires IsNumeral(s, base)
  {
    if |s| == 0 then 0 else Value(s[..|s| - 1], base) * base + DigitValue(s[|s| - 1])
  }

  /** Reference parser: a non-empty numeral in `base`, or nothing. */
  function Parse(s: string, base: nat): (r: Option<nat>)
    ensures r.Some? <==> |s| > 0 && IsNumeral(s, base)
  {
    if |s| > 0 && IsNumeral(s, base) then Some(Value(s, base)) else None
  }

  /** `n.to_s(16)` for a non-negative `n`. */
  function Hex(n: nat): (s: string) {
    Render(n, 16)
  }

  /** `"%02d" % n` for a non-negative `n`: at least two decimal digits. */
  function Pad2(n: nat): (s: string) {
    if n < 10 then "0" + Render(n, 10) else Render(n, 10)
  }

  lemma {:induction false} ValueRender(n: nat, base: nat)
    requires 2 <= base <= 16
    ensures Value(Render(n, base), base) == n
    decreases n
  {
    if n >= base {
      var s := Render(n, base);
      DivideByBase(n, base);
      assert s[..|s| - 1] == Render(n / base, base);
      ValueRender(n / base, base);
    }
  }

  /** Parsing undoes rendering in every base from 2 to 16. */
  lemma ParseRender(n: nat, base: nat)
    requires 2 <= base <= 16
    ensures Parse(Render(n, base), base) == Some(n)
  {
    ValueRender(n, base);
  }

  /** `to_s(16)` parses back to the same number. */
  lemma ParseHex(n: nat)
    ensures Parse(Hex(n), 16) == Some(n)
  {
    ParseRender(n, 16);
  }

  /** `to_s(16)` is injective on the naturals. */
  lemma HexInjective(n: nat, m: nat)
    requires Hex(n) == Hex(m)
    ensures n == m
  {
    ParseHex(n);
    ParseHex(m);
  }

  /** `%02d` parses back to the same number: the zero padding loses nothing. */
  lemma ParsePad2(n: nat)
    ensures Parse(Pad2(n), 10) == Some(n)
  {
    if n < 10 {
      var s := Pad2(n);
      assert s == ['0', DigitChar(n)];
      assert s[..1] == "0";
      assert IsNumeral(s, 10);
      assert Value(s[..1], 10) == 0;
      assert Value(s, 10) == n;
    } else {
      ParseRender(n, 10);
    }
  }

  /** `%02d` is injective on the naturals. */
  lemma Pad2Injective(n: nat, m: nat)
    requires Pad2(n) == Pad2(m)
    ensures n == m
  {
    ParsePad2(n);
    ParsePad2(m);
  }

  /** A numeral never contains the `:` key separator. */
  lemma NumeralHasNoColon(s: string, base: nat)
    requires base <= 16
    requires IsNumeral(s, base)
    ensures ':' !in s
  {
  }

  /** Hex renders only `0-9a-f`, so it never contains `:`. */
  lemma HexAlphabet(n: nat)
    ensures forall i :: 0 <= i < |Hex(n)| ==> '0' <= Hex(n)[i] <= '9' || 'a' <= Hex(n)[i] <= 'f'
    ensures ':' !in Hex(n)
  {
    NumeralHasNoColon(Hex(n), 16);
  }

  /** The padded decimal never contains `:` and is at least two characters long. */
  lemma Pad2Shape(n: nat)
    ensures ':' !in Pad2(n)
    ensures |Pad2(n)| >= 2
  {
    assert IsNumeral("0", 10);
    assert IsNumeral(Pad2(n), 10);
    NumeralHasNoColon(Pad2(n), 10);
  }
}
