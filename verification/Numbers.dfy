/** The C library's number conversions the server relies on: `%u`/`%ld` out, `atoi` in. */
module Numbers {
  import opened Bytes

  function Digit(d: nat): byte
    requires d < 10
  {
    (48 + d) as byte
  }

  function Decimal(n: nat): Str {
    if n < 10 then [Digit(n)] else Decimal(n / 10) + [Digit(n % 10)]
  }

  predicate IsSpace(c: byte) {
    c == SPACE || 9 <= c <= 13
  }

  /** The value of the digits `s` begins with, behind digits of value `acc`. */
  function Digits(s: Str, acc: nat): nat {
    if s == [] || !IsDigit(s[0]) then acc else Digits(s[1..], 10 * acc + (s[0] as nat - 48))
  }

  /** strtol in base ten on a 64-bit platform: leading white space, a sign, digits, saturating. */
  function StrToL(s: Str): int {
    if s == [] then 0
    else if IsSpace(s[0]) then StrToL(s[1..])
    else if s[0] == 45 then 0 - Min(Digits(s[1..], 0), 0x8000_0000_0000_0000) as int
    else Min(Digits(if s[0] == 43 then s[1..] else s, 0), 0x7FFF_FFFF_FFFF_FFFF)
  }

  /** `unsigned int index = atoi(arg)`: the low 32 bits. */
  function Atoi(s: Str): (n: nat)
    ensures n < 0x1_0000_0000
  {
    StrToL(s) % 0x1_0000_0000
  }

  predicate AllDigits(s: Str) {
    forall i | 0 <= i < |s| :: IsDigit(s[i])
  }

  lemma {:induction false} DigitsStep(s: Str, c: byte, acc: nat)
    requires AllDigits(s) && IsDigit(c)
    ensures Digits(s + [c], acc) == 10 * Digits(s, acc) + (c as nat - 48)
  {
    if s == [] {
      assert Digits([c][1..], 10 * acc + (c as nat - 48)) == 10 * acc + (c as nat - 48);
    } else {
      assert (s + [c])[1..] == s[1..] + [c];
      DigitsStep(s[1..], c, 10 * acc + (s[0] as nat - 48));
    }
  }

  lemma {:induction false} DecimalDigits(n: nat)
    ensures AllDigits(Decimal(n)) && Decimal(n) != [] && Digits(Decimal(n), 0) == n
  {
    if n < 10 {
      assert Decimal(n)[1..] == [];
    } else {
      DecimalDigits(n / 10);
      DigitsStep(Decimal(n / 10), Digit(n % 10), 0);
    }
  }

  /** A message number as the server prints it reads back as itself. */
  lemma AtoiOfDecimal(n: nat)
    requires n < 0x1_0000_0000
    ensures Atoi(Decimal(n)) == n
  {
    DecimalDigits(n);
    assert IsDigit(Decimal(n)[0]);
  }

  /** What `%u` and `%ld` print: the number in base ten, with a zero in front only if it is one. */
  lemma {:induction false} DecimalIsDecimal(n: nat, d: nat)
    requires d < 10
    ensures Decimal(10 * n + d) == (if n == 0 then [] else Decimal(n)) + [(48 + d) as byte]
    ensures Decimal(n)[0] == 48 ==> n == 0
  {
    if n >= 10 {
      DecimalIsDecimal(n / 10, 0);
    }
    assert [] + [(48 + d) as byte] == [(48 + d) as byte];
  }

  lemma {:induction false} DigitsStop(d: Str, rest: Str, acc: nat)
    requires AllDigits(d) && (rest == [] || !IsDigit(rest[0]))
    ensures Digits(d + rest, acc) == Digits(d, acc)
  {
    if d == [] {
      assert d + rest == rest;
    } else {
      assert (d + rest)[1..] == d[1..] + rest;
      DigitsStop(d[1..], rest, 10 * acc + (d[0] as nat - 48));
    }
  }

  lemma {:induction false} SkipBlanks(blanks: Str, s: Str)
    requires forall i | 0 <= i < |blanks| :: blanks[i] == 32 || 9 <= blanks[i] <= 13
    ensures StrToL(blanks + s) == StrToL(s)
  {
    if blanks == [] {
      assert blanks + s == s;
    } else {
      assert (blanks + s)[1..] == blanks[1..] + s;
      SkipBlanks(blanks[1..], s);
    }
  }

  /** What `atoi` makes of any string: white space, a sign, digits of value `v` and a rest that does not go on with one. The
      value is that of a 64-bit long, of which the low 32 bits are taken; without digits it is 0. */
  lemma AtoiForms(blanks: Str, sign: Str, d: Str, rest: Str)
    requires forall i | 0 <= i < |blanks| :: blanks[i] == 32 || 9 <= blanks[i] <= 13
    requires sign in [Text(""), Text("+"), Text("-")] && AllDigits(d) && (rest == [] || !IsDigit(rest[0]))
    requires sign == [] && d == [] && rest != [] ==> rest[0] != 32 && !(9 <= rest[0] <= 13) && rest[0] != 43 && rest[0] != 45
    ensures var v, s := Digits(d, 0), blanks + (sign + d + rest);
      Atoi(s) == (if sign == Text("-") then 0 - Min(v, 0x8000_0000_0000_0000) as int else Min(v, 0x7FFF_FFFF_FFFF_FFFF)) % 0x1_0000_0000
  {
    SkipBlanks(blanks, sign + d + rest);
    DigitsStop(d, rest, 0);
    if sign == [] {
      assert sign + d + rest == d + rest;
    } else {
      assert (sign + d + rest)[1..] == d + rest;
    }
    hide Digits;
  }
}
