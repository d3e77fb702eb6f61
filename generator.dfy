/** The byte-sequence generator `genSomeBytes`: starting from an empty buffer,
    the counter `i` runs from 1 while `i < 20000`, and each step appends the
    one byte `'0' + byte(i % 10)`. */
module Generator {
  import opened GoBytes

  /** The loop runs while the counter is below this bound. */
  const BOUND: int := 20000

  /** The number of bytes produced: one per counter value 1 .. BOUND - 1. */
  const COUNT: nat := 19999

  /** The byte written for counter `i`, with Go's operators:
      `'0' + byte(i % 10)`. For a non-negative counter it is the ASCII digit
      of the counter's last decimal digit. */
  function DigitByte(i: int): (b: byte)
    ensures i >= 0 ==> IsDigit(b) && b as int - ASCII_ZERO as int == i % 10
  {
    AddByte(ASCII_ZERO, ToByte(Rem(i, 10)))
  }

  /** Reference definition of the output: the byte at 0-based position `k`
      is the ASCII digit of `(k + 1) mod 10`. */
  function Expected(k: nat): byte {
    (ASCII_ZERO as int + (k + 1) % 10) as byte
  }

  /** The bytes in the buffer after the loop has run for counters 1 .. n:
      each step appends one byte at the end. */
  function Generated(n: nat): (r: seq<byte>)
    ensures |r| == n
  {
    if n == 0 then [] else Generated(n - 1) + [DigitByte(n)]
  }

  /** The whole output of the generator. */
  function Output(): seq<byte> {
    Generated(COUNT)
  }

  /** Every byte of the loop's output, at every stage, is the reference byte
      for its position. */
  lemma {:induction false} GeneratedAt(n: nat, k: nat)
    requires k < n
    ensures Generated(n)[k] == Expected(k)
  {
    if k < n - 1 {
      GeneratedAt(n - 1, k);
    }
  }

  /** The loop only appends: what it has built after n steps is kept,
      unchanged, as the prefix of what it has built after any later step. */
  lemma {:induction false} GeneratedExtends(n: nat, m: nat)
    requires n <= m
    ensures Generated(m)[..n] == Generated(n)
  {
    if n < m {
      GeneratedExtends(n, m - 1);
      assert Generated(m)[..m - 1] == Generated(m - 1);
    }
  }

  /** The output has exactly 19999 bytes and agrees with the reference
      definition at every position. */
  lemma OutputIsExpected()
    ensures |Output()| == COUNT
    ensures forall k :: 0 <= k < COUNT ==> Output()[k] == Expected(k)
  {
    forall k | 0 <= k < COUNT
      ensures Output()[k] == Expected(k)
    {
      GeneratedAt(COUNT, k);
    }
  }

  /** Every byte of the output is an ASCII decimal digit. */
  lemma OutputAllDigits()
    ensures forall k :: 0 <= k < |Output()| ==> IsDigit(Output()[k])
  {
    OutputIsExpected();
  }

  /** The output repeats with period 10. */
  lemma OutputPeriodic(k: nat)
    requires k + 10 < COUNT
    ensures Output()[k] == Output()[k + 10]
  {
    GeneratedAt(COUNT, k);
    GeneratedAt(COUNT, k + 10);
    assert (k + 10 + 1) % 10 == (k + 1) % 10;
  }

  /** The output starts with the ten bytes of "1234567890". */
  lemma OutputStart()
    ensures Output()[..10] == [49, 50, 51, 52, 53, 54, 55, 56, 57, 48]
  {
    OutputIsExpected();
  }

  /** The last byte, written for counter 19999, is '9'. */
  lemma OutputLast()
    ensures Output()[COUNT - 1] == ASCII_NINE
  {
  }

  /** `genSomeBytes`: fills a fresh buffer and returns it. Every call returns
      a new buffer holding the same 19999 bytes, the byte at position `k`
      being the digit of `(k + 1) mod 10`; nothing that existed before the
      call is modified. */
  method GenSomeBytes() returns (buff: Buffer)
    ensures fresh(buff)
    ensures buff.Bytes() == Output()
    ensures |buff.Bytes()| == COUNT
    ensures forall k :: 0 <= k < COUNT ==> buff.Bytes()[k] == Expected(k)
  {
    buff := new Buffer();
    var i := 1;
    while i < BOUND
      invariant 1 <= i <= BOUND
      invariant buff.Bytes() == Generated(i - 1)
    {
      var _ := buff.Write([DigitByte(i)]);
      i := i + 1;
    }
    OutputIsExpected();
  }
}
