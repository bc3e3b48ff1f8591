/** Octets, octet strings and the few shared helpers every layer uses. */
module Bytes {
  newtype byte = x: int | 0 <= x < 0x100

  type Str = seq<byte>

  datatype Option<+T> = None | Some(value: T)

  const NUL: byte := 0
  const LF: byte := 10
  const CR: byte := 13
  const SPACE: byte := 32
  const DOT: byte := 46
  const SLASH: byte := 47

  /** The octets of an ASCII literal. */
  function Text(s: string): Str {
    seq(|s|, i requires 0 <= i < |s| => ((s[i] as int) % 0x100) as byte)
  }

  function Min(a: nat, b: nat): nat {
    if a <= b then a else b
  }

  predicate IsDigit(c: byte) {
    48 <= c <= 57
  }

  predicate IsAlnum(c: byte) {
    (97 <= c <= 122) || (65 <= c <= 90) || IsDigit(c)
  }

  /** The letters and digits of ASCII. */
  lemma AlnumExactly(c: byte)
    ensures var ch := c as char;
      && (IsDigit(c) <==> '0' <= ch <= '9')
      && (IsAlnum(c) <==> '0' <= ch <= '9' || 'A' <= ch <= 'Z' || 'a' <= ch <= 'z')
  {
  }

  lemma Assoc(a: Str, b: Str, c: Str)
    ensures a + (b + c) == (a + b) + c
  {
  }

  /** One more octet of `s` behind `a`. */
  lemma SliceStep(a: Str, s: Str, i: nat)
    requires i < |s|
    ensures a + s[..i + 1] == a + s[..i] + [s[i]]
  {
  }

  /** Lines as they lie on the wire, each closed by CR LF. */
  function Glue(lines: seq<Str>): Str {
    if lines == [] then [] else Glue(lines[..|lines| - 1]) + lines[|lines| - 1] + [CR, LF]
  }

  /** All octets of `parts`, in order. */
  function Flatten(parts: seq<Str>): Str {
    if parts == [] then [] else Flatten(parts[..|parts| - 1]) + parts[|parts| - 1]
  }

  lemma FlattenOne(part: Str)
    ensures Flatten([part]) == part
  {
    FlattenStep([part], 0);
    assert [part][..1] == [part] && [part][..0] == [];
  }

  lemma FlattenStep(parts: seq<Str>, i: nat)
    requires i < |parts|
    ensures Flatten(parts[..i + 1]) == Flatten(parts[..i]) + parts[i]
  {
    assert parts[..i + 1][..i] == parts[..i];
  }

  lemma FlattenAppend(a: seq<Str>, b: seq<Str>)
    ensures Flatten(a + b) == Flatten(a) + Flatten(b)
  {
    if b == [] {
      assert a + b == a;
    } else {
      var b' := b[..|b| - 1];
      assert (a + b)[..|a + b| - 1] == a + b';
      FlattenAppend(a, b');
    }
  }
}
