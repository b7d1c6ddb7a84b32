/**
 The few PHP built-ins the WebSocket server relies on, stated as pure
 functions: `substr` with non-negative arguments, integer-to-string
 conversion (used when an error code is concatenated into a message),
 and an Option type standing in for PHP's `null`.
 */
module Php {

  /** A nullable value: `None` is PHP's `null`. */
  datatype Option<T> = None | Some(value: T)

  function Min(a: int, b: int): int { if a <= b then a else b }

  /**
   PHP 8 `substr($s, $start, $length)` for non-negative `$start` and `$length`:
   a start past the end yields the empty string, and the length is clipped
   to what is left.
   */
  function Substr<T>(s: seq<T>, start: nat, length: nat): (r: seq<T>)
    ensures |r| == if start >= |s| then 0 else Min(length, |s| - start)
    ensures forall i :: 0 <= i < |r| ==> r[i] == s[start + i]
  {
    if start >= |s| then [] else s[start .. Min(start + length, |s|)]
  }

  /** PHP 8 `substr($s, $start)`: everything from `$start` on, or "" past the end. */
  function SubstrFrom<T>(s: seq<T>, start: nat): (r: seq<T>)
    ensures |r| == if start >= |s| then 0 else |s| - start
    ensures forall i :: 0 <= i < |r| ==> r[i] == s[start + i]
  {
    if start >= |s| then [] else s[start..]
  }

  predicate IsDigit(c: char) { '0' <= c <= '9' }

  function DigitChar(d: nat): (c: char)
    requires d < 10
    ensures IsDigit(c) && c as int - '0' as int == d
  {
    ('0' as int + d) as char
  }

  /** The decimal text PHP produces when a non-negative int is concatenated to a string. */
  function Decimal(n: nat): (r: string)
    ensures 1 <= |r|
    ensures forall i :: 0 <= i < |r| ==> IsDigit(r[i])
    ensures n < 10 <==> |r| == 1
    ensures 10 <= n ==> r[0] != '0'
    decreases n
  {
    if n < 10 then [DigitChar(n)] else Decimal(n / 10) + [DigitChar(n % 10)]
  }

  /** Reads a string of decimal digits back as a number (most significant digit first). */
  function ParseDecimal(s: string): nat
    requires forall i :: 0 <= i < |s| ==> IsDigit(s[i])
  {
    if |s| == 0 then 0
    else
      assert IsDigit(s[|s| - 1]);
      ParseDecimal(s[..|s| - 1]) * 10 + (s[|s| - 1] as int - '0' as int)
  }

  /** The decimal rendering loses nothing: reading it back gives the number. */
  lemma {:induction false} DecimalRoundTrip(n: nat)
    ensures ParseDecimal(Decimal(n)) == n
    decreases n
  {
    if n >= 10 {
      var d := Decimal(n / 10);
      var r := Decimal(n);
      assert r == d + [DigitChar(n % 10)];
      assert r[..|r| - 1] == d;
      DecimalRoundTrip(n / 10);
    }
  }
}
