/** Decimal and hexadecimal text, as std::to_string, fmt's {:X} and {:02X}, and
    std::from_chars write and read it. */
module Text {
  import opened Common

  predicate IsBase(b: nat) {
    b == 10 || b == 16
  }

  const DIGITS := "0123456789ABCDEF"

  predicate IsDigit(c: char, b: nat)
    requires IsBase(b)
  {
    '0' <= c <= '9' || (b == 16 && 'A' <= c <= 'F')
  }

  function DigitValue(c: char): nat {
    if '0' <= c <= '9' then (c - '0') as nat
    else if 'A' <= c <= 'F' then (c - 'A') as nat + 10
    else if 'a' <= c <= 'f' then (c - 'a') as nat + 10
    else 0
  }

  predicate AllDigits(s: string, b: nat)
    requires IsBase(b)
  {
    forall c <- s :: IsDigit(c, b)
  }

  function Render(n: nat, b: nat): (s: string)
    requires IsBase(b)
    ensures |s| > 0 && AllDigits(s, b)
  {
    if n < b then [DIGITS[n]] else Render(n / b, b) + [DIGITS[n % b]]
  }

  function Value(s: string, b: nat): nat {
    if |s| == 0 then 0 else Value(s[..|s| - 1], b) * b + DigitValue(s[|s| - 1])
  }

  const INT_MAX := 0x7FFF_FFFF

  /** std::from_chars on text that holds digits only: it fails on no digits and
      on a value that does not fit an int. */
  function StrToInt(s: string, b: nat): Option<int> {
    if |s| > 0 && Value(s, b) <= INT_MAX then Some(Value(s, b)) else None
  }

  /** Zero-padded to the left, never truncated: {:02X} and {:08X}. */
  function Pad(s: string, width: nat): string {
    seq(Max(width - |s|, 0), _ => '0') + s
  }

  lemma DigitRoundTrip(d: nat)
    requires d < 16
    ensures DigitValue(DIGITS[d]) == d
  {
  }

  lemma {:induction false} ValueOfRender(n: nat, b: nat)
    requires IsBase(b)
    ensures Value(Render(n, b), b) == n
  {
    DigitRoundTrip(n % b);
    if n < b {
      assert Value([], b) * b == 0;
    } else {
      ValueOfRender(n / b, b);
      var s := Render(n, b);
      assert s[..|s| - 1] == Render(n / b, b);
      assert n / b * b + n % b == n;
    }
  }

  lemma {:induction false} ValueSkipsZeros(k: nat, s: string, b: nat)
    ensures Value(seq(k, _ => '0') + s, b) == Value(s, b)
    decreases k + |s|
  {
    var z := seq(k, _ => '0');
    if |s| > 0 {
      assert (z + s)[..k + |s| - 1] == z + s[..|s| - 1];
      ValueSkipsZeros(k, s[..|s| - 1], b);
    } else if k > 0 {
      assert (z + s)[..k - 1] == seq(k - 1, _ => '0') + s;
      ValueSkipsZeros(k - 1, s, b);
      assert Value(s, b) * b == 0;
    }
  }

  /** A padded number reads back, in hexadecimal digits only. */
  lemma PadRoundTrip(n: nat, width: nat)
    ensures Value(Pad(Render(n, 16), width), 16) == n
    ensures AllDigits(Pad(Render(n, 16), width), 16)
  {
    ValueOfRender(n, 16);
    ValueSkipsZeros(Max(width - |Render(n, 16)|, 0), Render(n, 16), 16);
  }

  /** How many digits a number has: |Render(n)| <= k exactly below b^k. */
  lemma {:induction false} RenderWidth(n: nat, k: nat)
    requires k > 0
    ensures |Render(n, 16)| <= k <==> n < Pow16(k)
    decreases k
  {
    if n >= 16 {
      if k > 1 { RenderWidth(n / 16, k - 1); }
    } else {
      Pow16Positive(k - 1);
    }
  }

  function Pow16(k: nat): nat {
    if k == 0 then 1 else 16 * Pow16(k - 1)
  }

  lemma Pow16Positive(k: nat)
    ensures Pow16(k) >= 1
  {
  }
}
