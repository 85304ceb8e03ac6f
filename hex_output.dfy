/**
 * `transmitHex`: format an unsigned value as "0x", a fixed number of
 * upper-case hexadecimal digits (most significant first) and space padding,
 * in a 10-character buffer, and hand the buffer to `uart_puts`.
 */
module HexOutput {
  import opened Avr

  /** The `dataType` codes. */
  const CHAR: byte := 0
  const INT: byte := 1
  const LONG: byte := 2

  /** The width of `unsigned long` on the AVR: 32 bits. */
  const UnsignedLongLimit: nat := 0x1_0000_0000

  /** The length of the buffer "0x        " (without its terminating NUL). */
  const BufferLength: nat := 10

  /** How many hex digits `transmitHex` writes for each `dataType`. */
  function DigitCount(dataType: byte): nat
    requires dataType == CHAR || dataType == INT || dataType == LONG
  {
    if dataType == CHAR then 2 else if dataType == INT then 4 else 8
  }

  function Pow16(n: nat): (r: nat)
    ensures r > 0
  {
    if n == 0 then 1 else 16 * Pow16(n - 1)
  }

  predicate IsUpperHexDigit(c: char)
  {
    '0' <= c <= '9' || 'A' <= c <= 'F'
  }

  /** The value of one upper-case hex digit. */
  function DigitValue(c: char): (v: nat)
    requires IsUpperHexDigit(c)
    ensures v < 16
  {
    if c <= '9' then c as nat - '0' as nat else c as nat - 'A' as nat + 10
  }

  /**
   * The digit for a value below 16: `0x30 + v` for 0..9, `0x41 + (v - 10)`
   * for 10..15. It is an upper-case hex digit, and it reads back as `v`.
   */
  function HexDigit(v: nat): (c: char)
    requires v < 16
    ensures IsUpperHexDigit(c) && DigitValue(c) == v
  {
    if v < 10 then (v + 0x30) as char else (v - 10 + 0x41) as char
  }

  /** The value of a string of upper-case hex digits, most significant first. */
  function HexValue(s: seq<char>): nat
    requires forall k :: 0 <= k < |s| ==> IsUpperHexDigit(s[k])
  {
    if s == [] then 0 else HexValue(s[..|s| - 1]) * 16 + DigitValue(s[|s| - 1])
  }

  /** `n` hex digits can express exactly the values below 16^n. */
  lemma {:induction false} HexValueBound(s: seq<char>)
    requires forall k :: 0 <= k < |s| ==> IsUpperHexDigit(s[k])
    ensures HexValue(s) < Pow16(|s|)
  {
    if s != [] {
      HexValueBound(s[..|s| - 1]);
    }
  }

  /**
   * Hex strings of the same length with the same value are the same string,
   * so the digits `TransmitHex` produces are determined by their value.
   */
  lemma {:induction false} HexValueInjective(s: seq<char>, t: seq<char>)
    requires |s| == |t|
    requires forall k :: 0 <= k < |s| ==> IsUpperHexDigit(s[k])
    requires forall k :: 0 <= k < |t| ==> IsUpperHexDigit(t[k])
    requires HexValue(s) == HexValue(t)
    ensures s == t
  {
    if s != [] {
      var n := |s| - 1;
      var ds, dt := DigitValue(s[n]), DigitValue(t[n]);
      var hs, ht := HexValue(s[..n]), HexValue(t[..n]);
      ModOfDecomposition(HexValue(s), hs, 16, ds);
      ModOfDecomposition(HexValue(t), ht, 16, dt);
      HexValueInjective(s[..n], t[..n]);
      assert s == s[..n] + [s[n]] && t == t[..n] + [t[n]];
    }
  }

  lemma MulSub(x: int, y: int, m: int)
    ensures x * m - y * m == (x - y) * m
  {
  }

  lemma MulAtLeast(k: int, m: nat)
    requires k >= 1
    ensures k * m >= m
  {
  }

  /** If `a == q * m + r` with `0 <= r < m`, then `q` is `a / m` and `r` is `a % m`. */
  lemma ModOfDecomposition(a: nat, q: nat, m: nat, r: nat)
    requires m > 0 && r < m && a == q * m + r
    ensures a / m == q && a % m == r
  {
    var q', r' := a / m, a % m;
    assert a == q' * m + r';
    MulSub(q, q', m);
    MulSub(q', q, m);
    if q' < q {
      MulAtLeast(q - q', m);
    } else if q' > q {
      MulAtLeast(q' - q, m);
    }
  }

  /**
   * The `n` low hex digits of `v`, most significant first: the last digit
   * is `v % 16`, the ones before it are those of `v / 16`.
   */
  function Digits(v: nat, n: nat): (s: seq<char>)
    ensures |s| == n
    ensures forall k :: 0 <= k < n ==> IsUpperHexDigit(s[k])
  {
    if n == 0 then [] else Digits(v / 16, n - 1) + [HexDigit(v % 16)]
  }

  lemma DivMod(a: nat, m: nat)
    requires m > 0
    ensures a == (a / m) * m + a % m
  {
  }

  lemma MulShift16(q: int, p: int)
    ensures q * (16 * p) == 16 * (q * p)
  {
  }

  /** Taking `v` modulo `16 * p` keeps its last hex digit and `v / 16` modulo `p`. */
  lemma ModStep(v: nat, p: nat)
    requires p > 0
    ensures v % (16 * p) == ((v / 16) % p) * 16 + v % 16
  {
    var w := v / 16;
    var q, r := w / p, w % p;
    DivMod(w, p);
    MulShift16(q, p);
    ModOfDecomposition(v, q, 16 * p, r * 16 + v % 16);
  }

  /** The digits read back as the value modulo 16^n: the low 4n bits of `v`. */
  lemma {:induction false} DigitsValue(v: nat, n: nat)
    ensures HexValue(Digits(v, n)) == v % Pow16(n)
  {
    if n > 0 {
      var s := Digits(v, n);
      assert s[..n - 1] == Digits(v / 16, n - 1);
      DigitsValue(v / 16, n - 1);
      ModStep(v, Pow16(n - 1));
    }
  }

  /** A value below 16^n is written out in full by its `n` digits. */
  lemma DigitsRoundTrip(v: nat, n: nat)
    requires v < Pow16(n)
    ensures HexValue(Digits(v, n)) == v
  {
    DigitsValue(v, n);
  }

  /**
   * `transmitHex(dataType, data)`: the 10 characters sent are "0x", then
   * the `DigitCount(dataType)` low hex digits of `data` (which read back as
   * the low 4 * DigitCount(dataType) bits of `data`, by `DigitsValue`), then
   * spaces.
   */
  method TransmitHex(dataType: byte, data: nat) returns (sent: seq<char>)
    requires dataType == CHAR || dataType == INT || dataType == LONG
    requires data < UnsignedLongLimit
    ensures |sent| == BufferLength && sent[0] == '0' && sent[1] == 'x'
    ensures sent[2..2 + DigitCount(dataType)] == Digits(data, DigitCount(dataType))
    ensures forall k :: 2 + DigitCount(dataType) <= k < BufferLength ==> sent[k] == ' '
  {
    var dataString := new char[BufferLength] ['0', 'x', ' ', ' ', ' ', ' ', ' ', ' ', ' ', ' '];

    // The source leaves `count` unset for any other dataType; the
    // precondition rules that out.
    var count: nat := 0;
    if dataType == CHAR { count := 2; }
    if dataType == INT { count := 4; }
    if dataType == LONG { count := 8; }

    var rest := data;
    var i := count;
    while i > 0
      invariant 0 <= i <= count
      invariant dataString[0] == '0' && dataString[1] == 'x'
      invariant forall k :: 2 + count <= k < BufferLength ==> dataString[k] == ' '
      invariant Digits(data, count) == Digits(rest, i) + dataString[i + 2..count + 2]
    {
      ghost var written := dataString[i + 2..count + 2];
      var temp := rest % 16;
      if 0 <= temp < 10 {
        dataString[i + 1] := (temp + 0x30) as char;
      } else {
        dataString[i + 1] := (temp - 10 + 0x41) as char;
      }
      assert dataString[i + 1] == HexDigit(temp);
      assert dataString[i + 1..count + 2] == [HexDigit(temp)] + written;
      assert Digits(rest, i) == Digits(rest / 16, i - 1) + [HexDigit(temp)];
      AppendAssociative(Digits(rest / 16, i - 1), [HexDigit(temp)], written);
      rest := rest / 16;
      i := i - 1;
    }
    sent := dataString[..];
  }
}
