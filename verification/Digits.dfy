/** Numbers as bits and as binary and hexadecimal text, with what `printf`, `int` and `format` do to
    them. */
module Digits {
  import opened Prelude

  /** The value of bits given lowest first. */
  function Value(bits: seq<bool>): nat {
    if bits == [] then 0 else (if bits[0] then 1 else 0) + 2 * Value(bits[1..])
  }

  function BitAt(x: nat, i: nat): bool {
    if i == 0 then x % 2 == 1 else BitAt(x / 2, i - 1)
  }

  lemma {:induction false} ValueBelow(bits: seq<bool>)
    ensures Value(bits) < Pow2(|bits|)
  {
    if bits != [] {
      ValueBelow(bits[1..]);
    }
  }

  lemma {:induction false} BitOfValue(bits: seq<bool>, i: nat)
    requires i < |bits|
    ensures BitAt(Value(bits), i) == bits[i]
  {
    if i > 0 {
      BitOfValue(bits[1..], i - 1);
    }
  }

  /** `int(a) | int(b)`. */
  function BitOr(a: nat, b: nat): nat
    decreases a + b
  {
    if a == 0 && b == 0 then 0
    else (if a % 2 == 1 || b % 2 == 1 then 1 else 0) + 2 * BitOr(a / 2, b / 2)
  }

  lemma {:induction false} BitOfOr(a: nat, b: nat, i: nat)
    ensures BitAt(BitOr(a, b), i) == (BitAt(a, i) || BitAt(b, i))
    decreases i
  {
    if a == 0 && b == 0 {
      NoBits(i);
    } else if i > 0 {
      BitOfOr(a / 2, b / 2, i - 1);
    }
  }

  lemma {:induction false} NoBits(i: nat)
    ensures !BitAt(0, i)
  {
    if i > 0 {
      NoBits(i - 1);
    }
  }

  lemma {:induction false} OrBelow(a: nat, b: nat, n: nat)
    requires a < Pow2(n) && b < Pow2(n)
    ensures BitOr(a, b) < Pow2(n)
    decreases n
  {
    if n > 0 && !(a == 0 && b == 0) {
      OrBelow(a / 2, b / 2, n - 1);
    }
  }

  // ---------------------------------------------------------------- binary text

  function BitChar(b: bool): char {
    if b then '1' else '0'
  }

  /** The lowest `n` binary digits of `x`, highest first. */
  function Binary(x: nat, n: nat): (s: string)
    ensures |s| == n
  {
    if n == 0 then "" else Binary(x / 2, n - 1) + [BitChar(x % 2 == 1)]
  }

  function BitLength(x: nat): nat {
    if x == 0 then 0 else 1 + BitLength(x / 2)
  }

  /** `format(x, '0<width>b')`. */
  function FormatBinary(x: nat, width: nat): string {
    Binary(x, if BitLength(x) <= width then width else BitLength(x))
  }

  /** `int(s, 2)` for a string of binary digits. */
  function ParseBinary(s: string): nat {
    if s == "" then 0 else 2 * ParseBinary(s[..|s| - 1]) + if s[|s| - 1] == '1' then 1 else 0
  }

  lemma {:induction false} BitLengthWithin(x: nat, n: nat)
    ensures BitLength(x) <= n <==> x < Pow2(n)
    decreases n
  {
    if x > 0 && n > 0 {
      BitLengthWithin(x / 2, n - 1);
    }
  }

  lemma {:induction false} BinaryDigit(x: nat, n: nat, j: nat)
    requires j < n
    ensures Binary(x, n)[j] == BitChar(BitAt(x, n - 1 - j))
  {
    if j < n - 1 {
      BinaryDigit(x / 2, n - 1, j);
    }
  }

  /** Reading binary text gives the value of its digits, the last being the lowest. */
  lemma {:induction false} ParsedBits(s: string, bits: seq<bool>)
    requires |s| == |bits| && forall j :: 0 <= j < |s| ==> s[j] == BitChar(bits[|s| - 1 - j])
    ensures ParseBinary(s) == Value(bits)
  {
    if bits != [] {
      ParsedBits(s[..|s| - 1], bits[1..]);
    }
  }

  lemma {:induction false} BinaryRoundTrip(x: nat, n: nat)
    requires x < Pow2(n)
    ensures ParseBinary(Binary(x, n)) == x
  {
    if n > 0 {
      BinaryRoundTrip(x / 2, n - 1);
      assert Binary(x, n)[..n - 1] == Binary(x / 2, n - 1);
    }
  }

  /** Formatting never cuts a number: it is padded to the width, or as long as it needs to be. */
  lemma FormatIsExact(x: nat, width: nat)
    ensures ParseBinary(FormatBinary(x, width)) == x
    ensures |FormatBinary(x, width)| >= width && x < Pow2(|FormatBinary(x, width)|)
    ensures |FormatBinary(x, width)| > width ==> x >= Pow2(|FormatBinary(x, width)| - 1)
  {
    var n := if BitLength(x) <= width then width else BitLength(x);
    BitLengthWithin(x, n);
    if n > width {
      BitLengthWithin(x, n - 1);
    }
    BinaryRoundTrip(x, n);
  }

  // ---------------------------------------------------------------- hexadecimal text

  const HEX: string := "0123456789abcdef"

  /** The lowest `n` hexadecimal digits of `x`. */
  function Hex(x: nat, n: nat): (s: string)
    ensures |s| == n
  {
    if n == 0 then "" else Hex(x / 16, n - 1) + [HEX[x % 16]]
  }

  /** What a hexadecimal digit stands for, in either case. */
  function HexValue(c: char): Option<nat> {
    if '0' <= c <= '9' then Some(c as nat - '0' as nat)
    else if 'a' <= c <= 'f' then Some(c as nat - 'a' as nat + 10)
    else if 'A' <= c <= 'F' then Some(c as nat - 'A' as nat + 10)
    else None
  }

  /** `int(line, 16)`, and `None` for its `ValueError`. */
  function ParseHex(s: string): Option<nat> {
    if s == "" then None else HexFrom(s)
  }

  function HexFrom(s: string): Option<nat> {
    if s == "" then Some(0)
    else
      match (HexFrom(s[..|s| - 1]), HexValue(s[|s| - 1]))
      case (Some(high), Some(low)) => Some(16 * high + low)
      case _ => None
  }

  /** A character is the digit `d` if and only if it stands at place `d` of one of the two alphabets. */
  lemma HexValueIff(c: char, d: nat)
    ensures HexValue(c) == Some(d) <==> d < 16 && (HEX[d] == c || "0123456789ABCDEF"[d] == c)
  {
  }

  /** A line is a number if and only if it is not empty and all its characters are digits. */
  lemma {:induction false} ParsesIff(s: string)
    ensures HexFrom(s).Some? <==> forall i :: 0 <= i < |s| ==> HexValue(s[i]).Some?
  {
    if s != "" {
      ParsesIff(s[..|s| - 1]);
    }
  }

  /** The `j`-th of `n` printed digits is the one that stands for 16^(n - 1 - j). */
  lemma {:induction false} HexDigitIs(x: nat, n: nat, j: nat)
    requires j < n
    ensures HexValue(Hex(x, n)[j]) == Some(x / Pow2(4 * (n - 1 - j)) % 16)
    decreases n
  {
    if j < n - 1 {
      HexDigitIs(x / 16, n - 1, j);
      var p := Pow2(4 * (n - 2 - j));
      Pow2Adds(4, 4 * (n - 2 - j));
      assert Pow2(4) == 16;
      DivDiv(x, 16, p);
    } else {
      HexDigitRoundTrip(x % 16);
    }
  }

  lemma HexDigitRoundTrip(d: nat)
    requires d < 16
    ensures HexValue(HEX[d]) == Some(d)
  {
  }

  lemma {:induction false} HexRoundTrip(x: nat, n: nat)
    requires x < Pow2(4 * n)
    ensures HexFrom(Hex(x, n)) == Some(x)
  {
    if n > 0 {
      var s := Hex(x, n);
      Pow2Adds(4, 4 * (n - 1));
      assert Pow2(4) == 16;
      HexRoundTrip(x / 16, n - 1);
      HexDigitRoundTrip(x % 16);
      assert s[..n - 1] == Hex(x / 16, n - 1);
    }
  }

  lemma {:induction false} HexAlphabet(x: nat, n: nat, j: nat)
    requires j < n
    ensures Hex(x, n)[j] in HEX
  {
    if j < n - 1 {
      HexAlphabet(x / 16, n - 1, j);
    }
  }
}
