/** Numbers as the index prints and reads them: `%llu` and `%0#o` on the one
    side, `strtoull` base 10 and `strtol` base 8 on the other. */
module Numbers {
  import opened Bytes

  function Digit(n: nat): Byte
    requires n < 10
  {
    ByteOf('0' as int + n)
  }

  function Digits(n: nat, base: nat): (r: Bytes)
    requires 2 <= base <= 10
    ensures |r| > 0 && forall c :: c in r ==> '0' <= c <= '9' && c as int - '0' as int < base
  {
    if n < base then [Digit(n)]
    else
      QuotientAndRemainder(n, base);
      var rest := Digits(n / base, base);
      assert forall c :: c in rest + [Digit(n % base)] ==> c in rest || c == Digit(n % base);
      rest + [Digit(n % base)]
  }

  /** `%llu` */
  function Decimal(n: nat): Bytes { Digits(n, 10) }

  /** `%0#o`: octal with a leading zero, and plain zero for zero. */
  function Octal(n: nat): Bytes { if n == 0 then "0" else "0" + Digits(n, 8) }

  predicate IsDigit(c: Byte, base: nat) { '0' <= c <= '9' && c as int - '0' as int < base }

  /** The value of the leading run of digits, continuing from `acc`. */
  function ReadRun(s: Bytes, base: nat, acc: nat): nat
  {
    if s == [] || !IsDigit(s[0], base) then acc
    else ReadRun(s[1..], base, acc * base + (s[0] as int - '0' as int))
  }

  const MAX_UNSIGNED: nat := 0xFFFF_FFFF_FFFF_FFFF
  const MAX_SIGNED: nat := 0x7FFF_FFFF_FFFF_FFFF

  /** `strtoull(s, 0, 10)` on text that starts with a digit, or has none. */
  function Strtoull(s: Bytes): nat
  {
    var v := ReadRun(s, 10, 0);
    if v > MAX_UNSIGNED then MAX_UNSIGNED else v
  }

  /** `strtol(s, 0, 8)`, likewise. */
  function StrtolOctal(s: Bytes): nat
  {
    var v := ReadRun(s, 8, 0);
    if v > MAX_SIGNED then MAX_SIGNED else v
  }

  lemma {:induction false} ReadRunSnoc(s: Bytes, c: Byte, base: nat, acc: nat)
    requires IsDigit(c, base) && forall d :: d in s ==> IsDigit(d, base)
    ensures ReadRun(s + [c], base, acc) == ReadRun(s, base, acc) * base + (c as int - '0' as int)
  {
    if s == [] {
      assert (s + [c])[1..] == [];
    } else {
      assert s[0] in s;
      assert (s + [c])[1..] == s[1..] + [c];
      assert forall d :: d in s[1..] ==> d in s;
      ReadRunSnoc(s[1..], c, base, acc * base + (s[0] as int - '0' as int));
    }
  }

  lemma {:induction false} ReadRunOfDigits(n: nat, base: nat)
    requires 2 <= base <= 10
    ensures ReadRun(Digits(n, base), base, 0) == n
  {
    if n < base {
      assert [Digit(n)][1..] == [];
    } else {
      var q, d := n / base, n % base;
      QuotientAndRemainder(n, base);
      ReadRunOfDigits(q, base);
      ReadRunSnoc(Digits(q, base), Digit(d), base, 0);
      assert Digits(n, base) == Digits(q, base) + [Digit(d)];
    }
  }

  lemma {:induction false} QuotientAndRemainder(n: nat, base: nat)
    requires 2 <= base <= n
    ensures (n / base) * base + n % base == n
    ensures 0 <= n / base < n && 0 <= n % base < base
  {
  }

  /** Printed in decimal and read back. */
  lemma {:induction false} StrtoullOfDecimal(n: nat)
    requires n <= MAX_UNSIGNED
    ensures Strtoull(Decimal(n)) == n
  {
    ReadRunOfDigits(n, 10);
  }

  /** Printed in octal and read back. */
  lemma {:induction false} StrtolOfOctal(n: nat)
    requires n <= MAX_SIGNED
    ensures StrtolOctal(Octal(n)) == n
  {
    if n == 0 {
      assert ReadRun("0", 8, 0) == 0;
    } else {
      ReadRunOfDigits(n, 8);
      assert ("0" + Digits(n, 8))[1..] == Digits(n, 8);
    }
  }
}
