/**
 The C integer and character types of the kernel (x86-64, LP64), and the few
 sequence helpers every other module shares.

 Text is `string`; a C `char` is a character whose code is below 256.
 */
module CTypes {

  const INT_MAX: nat := 0x7FFF_FFFF
  const TWO32: nat := 0x1_0000_0000
  const TWO64: nat := 0x1_0000_0000_0000_0000

  type byte = b: int | 0 <= b < 0x100
  type uint16 = n: int | 0 <= n < 0x1_0000
  type uint32 = n: int | 0 <= n < 0x1_0000_0000
  type uint64 = n: int | 0 <= n < 0x1_0000_0000_0000_0000
  type int32 = n: int | -0x8000_0000 <= n < 0x8000_0000

  /** A C string: the characters before the terminating NUL. */
  type CString = s: string | '\0' !in s

  datatype Option<+T> = None | Some(value: T)

  function Min(a: int, b: int): int { if a < b then a else b }

  function Max(a: int, b: int): int { if a < b then b else a }

  /** The two's-complement reading of the low `modulus`-many values of x. */
  function Signed(x: int, modulus: nat): int
    requires modulus > 0 && modulus % 2 == 0
  {
    (x + modulus / 2) % modulus - modulus / 2
  }

  /** A C `int` after an operation whose exact result is x. */
  function Int32(x: int): (r: int32) {
    Signed(x, TWO32)
  }

  /** A C `unsigned int` after an operation whose exact result is x. */
  function UInt32(x: int): (r: uint32) {
    x % 0x1_0000_0000
  }

  /** The numeric value of a (signed) C `char`. */
  function SignedChar(c: char): int {
    Signed(c as int, 0x100)
  }

  function Repeat(c: char, n: int): (s: string)
    ensures |s| == Max(n, 0)
    ensures forall i :: 0 <= i < |s| ==> s[i] == c
  {
    if n <= 0 then "" else seq(n, _ => c)
  }

  function Reverse<T>(s: seq<T>): (r: seq<T>)
    ensures |r| == |s|
    ensures forall i :: 0 <= i < |s| ==> r[i] == s[|s| - 1 - i]
  {
    seq(|s|, i requires 0 <= i < |s| => s[|s| - 1 - i])
  }
}
