/** Go's byte-level primitives used by the generator: the `byte` type with its
    wrapping addition, the truncating `int` to `byte` conversion, the `%`
    operator on `int` (which truncates toward zero, unlike Dafny's Euclidean
    `%`), and the growable `bytes.Buffer` the generator writes into. */
module GoBytes {

  /** Go's `byte` (an alias of `uint8`). */
  newtype byte = x: int | 0 <= x < 256

  /** The ASCII code of the character '0'. */
  const ASCII_ZERO: byte := 48

  /** The ASCII code of the character '9'. */
  const ASCII_NINE: byte := 57

  predicate IsDigit(b: byte) {
    ASCII_ZERO <= b <= ASCII_NINE
  }

  function Abs(x: int): int {
    if x < 0 then -x else x
  }

  /** Go's `a % b` on `int`: the quotient is truncated toward zero, so the
      remainder takes the sign of the dividend and is smaller in magnitude
      than the divisor; for a non-negative dividend it agrees with the
      Euclidean remainder. */
  function Rem(a: int, b: int): (r: int)
    requires b != 0
    ensures -Abs(b) < r < Abs(b)
    ensures a >= 0 ==> r >= 0 && r == a % Abs(b)
    ensures a <= 0 ==> r <= 0
  {
    var m := Abs(b);
    if a >= 0 then a % m else -((-a) % m)
  }

  /** The division identity of Go's `%`: the remainder differs from the
      dividend by a multiple of the divisor. With the bound and sign clauses
      of `Rem` this fixes the remainder for every dividend and divisor. */
  lemma RemIdentity(a: int, b: int)
    requires b != 0
    ensures (a - Rem(a, b)) % Abs(b) == 0
  {
    var m := Abs(b);
    if a >= 0 {
      RemainderLeavesMultiple(a, m);
    } else {
      RemainderLeavesMultiple(-a, m);
      assert a + (-a) % m == -((-a) - (-a) % m);
      NegatedMultiple((-a) - (-a) % m, m);
    }
  }

  /** Taking away the remainder leaves a multiple of the divisor. */
  lemma RemainderLeavesMultiple(x: int, m: int)
    requires m > 0
    ensures (x - x % m) % m == 0
  {
    var q := x / m;
    assert x - x % m == q * m;
    var y := q * m;
    var d := y / m;
    assert (q - d) * m == y % m;
    MultipleBounds(q - d, m);
  }

  /** The negation of a multiple of `m` is a multiple of `m`. */
  lemma NegatedMultiple(y: int, m: int)
    requires m > 0 && y % m == 0
    ensures (-y) % m == 0
  {
    var q := y / m;
    assert y == q * m;
    var z := -y;
    var d := z / m;
    assert z == (-q) * m;
    assert (-q - d) * m == z % m;
    MultipleBounds(-q - d, m);
  }

  /** A non-zero multiple of a positive `m` is at least `m` in magnitude. */
  lemma MultipleBounds(k: int, m: int)
    requires m > 0
    ensures k >= 1 ==> k * m >= m
    ensures k <= -1 ==> k * m <= -m
  {
  }

  /** Go's conversion `byte(x)` of an `int`: keeps the low eight bits. */
  function ToByte(x: int): (r: byte)
    ensures (r as int - x) % 256 == 0
    ensures 0 <= x < 256 ==> r as int == x
  {
    (x % 256) as byte
  }

  /** Go's `a + b` on two `byte` operands: wraps around modulo 256. */
  function AddByte(a: byte, b: byte): (r: byte)
    ensures (r as int - a as int - b as int) % 256 == 0
    ensures a as int + b as int < 256 ==> r as int == a as int + b as int
  {
    ((a as int + b as int) % 256) as byte
  }

  /** Go's `bytes.Buffer`, reduced to what the generator uses: a zero value
      that is an empty buffer and `Write`, which appends. The unread portion
      is the whole of `data`, since nothing here reads from the buffer. */
  class Buffer {
    var data: seq<byte>

    /** The buffer's unread bytes (Go's `Bytes()`). */
    function Bytes(): seq<byte>
      reads this
    {
      data
    }

    /** The zero value `var buff bytes.Buffer`: an empty buffer. */
    constructor ()
      ensures Bytes() == []
    {
      data := [];
    }

    /** `Write(p)` appends every byte of `p` at the end and reports how many
        it wrote; the bytes already in the buffer do not change. */
    method Write(p: seq<byte>) returns (n: nat)
      modifies this
      ensures n == |p|
      ensures Bytes() == old(Bytes()) + p
    {
      data := data + p;
      n := |p|;
    }
  }
}
