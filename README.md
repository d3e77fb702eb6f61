# genSomeBytes, modelled in Dafny

This project models the byte-sequence generator `genSomeBytes` of a small Go
HTTP load-test server. The generator declares an empty `bytes.Buffer`. It then
runs a counter `i` from 1 while `i < 20000`. At each step it writes one byte,
`'0' + byte(i % 10)`, into the buffer. Finally it returns a pointer to the
buffer.

- `gobytes.dfy` (module `GoBytes`) models the Go primitives the generator
  relies on. These are the `byte` type, Go's wrapping `byte` addition, the
  truncating `int` to `byte` conversion and Go's `%` on `int`, which truncates
  toward zero. It also holds a `Buffer` class standing for `bytes.Buffer`: a
  `seq<byte>` field, a constructor for the zero value and a `Write` method
  that appends.
- `generator.dfy` (module `Generator`) holds the generator itself. It gives the
  byte written per counter (`DigitByte`) and a reference definition of the
  byte expected at each position (`Expected`). `Generated(n)` is the buffer
  after `n` loop steps, and `Output()` is the finished buffer. The method
  `GenSomeBytes` runs the loop on a fresh `Buffer`, with the invariant that
  after counters `1 .. i-1` the buffer holds `Generated(i - 1)`.

The method's postcondition fixes the returned contents to one constant
sequence. So every call returns a new buffer with the same 19999 bytes.
The method has no `modifies` clause, so nothing that existed before the call
changes.

## Model

| member | source | states |
|---|---|---|
| GoBytes.Rem | main.go:46 | Go's `i % 10`: the remainder is smaller in magnitude than the divisor and takes the dividend's sign; for a non-negative dividend it is the Euclidean remainder |
| GoBytes.RemIdentity | main.go:46 | the division identity of Go's `%`: the remainder differs from the dividend by a multiple of the divisor, which with `Rem`'s bound and sign clauses pins the truncated remainder for every sign combination |
| GoBytes.ToByte | main.go:46 | Go's `byte(x)`: the result is congruent to `x` modulo 256 and equals `x` when `x` already fits in a byte |
| GoBytes.AddByte | main.go:46 | Go's byte `+`: the result is congruent to the sum modulo 256 and equals the sum when there is no overflow |
| GoBytes.Buffer.constructor | main.go:44 | the zero-value `bytes.Buffer` is empty |
| GoBytes.Buffer.Write | main.go:46 | `Write` reports `len(p)` written and appends `p` at the end; the earlier bytes are unchanged |
| Generator.DigitByte | main.go:46 | for a non-negative counter, the written byte is an ASCII digit and its digit value is the counter mod 10 |
| Generator.Generated | main.go:45-46 | after `n` loop steps the buffer holds exactly `n` bytes, one per step |
| Generator.GeneratedAt | main.go:45-46 | at every stage of the loop, the byte at 0-based position `k` is `'0' + (k + 1) mod 10`, the reference byte for that position |
| Generator.GeneratedExtends | main.go:44-47 | the loop only appends: the bytes built after `n` steps stay, unchanged, as the prefix of the buffer at any later step |
| Generator.OutputIsExpected | main.go:45-46 | the finished buffer has exactly 19999 bytes and equals the reference byte `'0' + (k + 1) mod 10` at every position `k` |
| Generator.OutputAllDigits | main.go:46 | every byte of the output is an ASCII decimal digit, `'0'..'9'` |
| Generator.OutputPeriodic | main.go:45-46 | the output repeats with period 10: `b[k] == b[k + 10]` whenever `k + 10 < 19999` |
| Generator.OutputStart | main.go:45-46 | the output starts with the bytes of `"1234567890"` |
| Generator.OutputLast | main.go:45-46 | the last byte, at index 19998 (counter 19999), is `'9'` |
| Generator.GenSomeBytes | main.go:43-49 | returns a freshly allocated buffer holding `Output()`: 19999 bytes, the byte at `k` being `'0' + (k + 1) mod 10`; it modifies nothing that existed before the call |

## Left out

- `main` (main.go:12-15): registers the route and serves HTTP on port 9876, ending the process through `log.Fatal` on failure. This is network I/O and process control.
- The blank import of `net/http/pprof` (main.go:9): it mounts a profiling endpoint from a library that is not part of this model.
- `handler` (main.go:17-32): form parsing, logging, `ioutil.ReadAll` and writing the response are calls into `net/http`, `log` and `io`, which are not part of this model. Its only logic is two error branches that write `err.Error()` and return.
- `doSomeThingOne` (main.go:34-41): a busy loop with an empty body and no observable effect besides elapsed time. Its inner bound comes from the floating-point `math.Log2`, which is not modelled.
- Concurrent requests: the Go HTTP server runs handlers for different connections concurrently, in separate goroutines. The generator shares no state between calls, and the model covers one call.
- GoBytes.Buffer.Write: does not model the panic with `ErrTooLarge` that `bytes.Buffer` raises when it cannot grow, nor its always-nil error result; 19999 bytes never come near that limit.
- Go's `int` is 32 or 64 bits wide depending on the platform, and the model's `int` is unbounded. The counter never exceeds 20000, which fits in either, so no overflow can occur.
- GoBytes.Buffer: models only the unread contents of `bytes.Buffer`. The read offset, capacity and growth strategy are not modelled, since nothing here reads from the buffer or inspects its capacity.
