# cypher_cell: a verified model of `CypherCell`

`CypherCell` is a container for one secret. It is a Rust type exposed to Python.
It holds a private byte buffer (`inner`), a `volatile` flag, its creation
instant (`birth`) and an optional time-to-live (`ttl`). The secret can be read
in full with `reveal` or partly with `reveal_masked`. A read after the TTL has
passed wipes the buffer and fails with "TTL expired". A volatile cell wipes its
buffer after one successful read. Leaving a `with` block (`__exit__`) and
destruction (`Drop`) also wipe the buffer. `repr()` always returns a fixed
redacted string.

The model has three modules:

- `Utf8` (`utf8.dfy`): the lossy decoding that turns the buffer into text, as
  `String::from_utf8_lossy` does it. Every well-formed UTF-8 sequence becomes
  its scalar value. Every maximal ill-formed subpart becomes one U+FFFD. The
  module also has standard UTF-8 encoding, and proves that decoding inverts
  encoding. On ASCII text, encoding gives the bytes of a Python `bytes` literal
  with that text; on other text it gives what `str.encode("utf-8")` gives.
- `Cell` (`cell.dfy`): the class `CypherCell`, with `inner: seq<byte>` that its
  methods reassign and constant `volatile`, `birth` and `ttl`. Its mutating
  operations (`Wipe`, `Exit`, `Drop`, `Reveal`) are methods with
  `modifies this`. The operations that only read (`RevealMasked`, `Repr`) are
  functions. The full-disclosure rule is also a pure function, `RevealRule`.
  `Reveal` is proved against it, and the lemmas about sequences of reads use it.
- `CellTests` (`cell_tests.dfy`): the repository's Python tests, plus further
  masking and double-disposal scenarios, as client methods. They are proved
  from the class's contracts and function definitions. `BasicReveal`,
  `VolatileMode`, `TtlExpiration`, `ContextManager`, `DoubleWipe` and
  `MaskNothing` hold for every text secret that does not start with NUL;
  `DeleteWipes` holds for every text; `ReprSecurity` for every buffer;
  `MaskKeepsTail` for every ASCII head and such a tail. `MaskedExamples` and
  `MaskCountsBytes` are fixed examples.

Time is an explicit parameter. `birth` and `now` are readings of a monotonic
clock in nanoseconds. A TTL given as `ttl_sec` seconds is stored, as a
`Duration` would be, as `ttl_sec * 10^9` nanoseconds. Elapsed time saturates at
zero, as `Instant::elapsed` does.

A richer design for such a cell is easy to imagine: a separate `wiped` flag,
expiry once elapsed time reaches the TTL (`>=`), masking by characters, an
`InvalidEncoding` error, and TTL and volatile checks on masked reads too. The
code does none of that, and the model follows the code:

- There is no `wiped` flag. A cell counts as empty exactly when no byte of
  `inner` is non-zero. So a zero-length secret, or a secret of NUL bytes, acts
  exactly like a wiped cell (`EncodedSecretIsEmpty`, `WipedIsTerminal`).
- The TTL test is strict: a read expires only when elapsed time is strictly
  greater than the TTL. The TTL is checked before the emptiness test. So an
  expired cell reports "TTL expired" on every later read, never "empty"
  (`ExpiryIsPermanent`).
- `reveal_masked` checks neither the TTL nor the volatile flag, and never wipes
  (`MaskedIgnoresLifecycle`). Its empty error is "Cell is empty". For `reveal`
  the message is "Cell is empty/wiped.".
- Masking counts bytes, not characters. The visible tail is decoded on its own,
  so it can begin in the middle of a character. Then it shows U+FFFD
  (`MaskCountsBytes`).
- There is no invalid-encoding error, because decoding is lossy and total.
- The TTL test in `tests/test_cypher_cell.py` expects the message
  "Cell has expired". The code raises "TTL expired". The model uses the code's
  message, and `ExpiryMessageDiffersFromTest` shows the test's pattern does not
  match it.

## Model

| member | source | states |
|---|---|---|
| `Utf8.Decode` | src/lib.rs:85 | lossy decoding never fails, gives at most one character per byte, and gives empty text only for an empty buffer |
| `Utf8.DecodeEncode` | src/lib.rs:85 | decoding the UTF-8 encoding of any text gives that text back: nothing is lost or replaced on well-formed input |
| `Utf8.DecodeAscii` | src/lib.rs:85 | on ASCII bytes, decoding gives one character per byte with the same code |
| `Cell.IsEmpty` | src/lib.rs:79 | a buffer counts as empty exactly when it equals the all-zero buffer of its own length; a zero-length buffer is empty too |
| `Cell.TtlFromSeconds` | src/lib.rs:57 | a TTL is present exactly when `ttl_sec` is, and then it is a whole number of seconds in nanoseconds that converts back to `ttl_sec` |
| `Cell.Elapsed` | src/lib.rs:73 | time since birth: `birth + elapsed == now` when the clock has not gone back, and zero otherwise (saturating) |
| `Cell.HasExpired` | src/lib.rs:72-73 | a cell has expired exactly when it has a TTL and the clock reads strictly later than `birth + ttl` |
| `Cell.Zeroed` | src/lib.rs:44 | zeroizing leaves no non-zero byte; in the model it also keeps the buffer's length (see Left out) |
| `Cell.EncodedSecretIsEmpty` | src/lib.rs:79 | a text secret looks empty to the all-zero test exactly when every character is NUL, the empty text included |
| `Cell.RevealRule` | src/lib.rs:71-92 | a read succeeds exactly when the TTL has not passed and some byte is non-zero, and then returns the decoded buffer; a failure says "TTL expired" when the TTL has passed and otherwise "Cell is empty/wiped."; the buffer is wiped exactly when the TTL has passed or a volatile cell was read, and otherwise left unchanged |
| `Cell.CypherCell.constructor` | src/lib.rs:52-58 | the cell holds exactly the given bytes, unvalidated, the given volatile flag, the creation time, and the TTL in seconds converted to nanoseconds, or none |
| `Cell.CypherCell.Wipe` | src/lib.rs:42-45 | afterwards no non-zero byte remains; in the model the buffer keeps its length (see Left out); wiping an already empty buffer leaves it unchanged |
| `Cell.CypherCell.Exit` | src/lib.rs:67-69 | leaving a `with` block wipes the cell, and changes nothing when it is already empty |
| `Cell.CypherCell.Drop` | src/lib.rs:115-119 | destruction wipes the cell, and changes nothing when it is already empty |
| `Cell.CypherCell.Reveal` | src/lib.rs:71-92 | the returned result and the new buffer are exactly those of the disclosure rule `RevealRule` applied to the old buffer and the cell's flag, birth and TTL |
| `Cell.CypherCell.RevealMasked` | src/lib.rs:94-108 | fails with "Cell is empty" exactly when every byte is zero; otherwise the text is no longer than the buffer, its first `len - suffix_len` characters (none when `suffix_len >= len`) are `*`, and the rest is the decoding of the buffer's last bytes from that position on |
| `Cell.CypherCell.Repr` | src/lib.rs:110-112 | the representation contains "[REDACTED]" and reads no field of the cell, so it cannot depend on the buffer |
| `Cell.ReprIsConstant` | src/lib.rs:110-112 | any two cells, whatever their buffers, flags, TTLs or wipe state, have the same representation |
| `Cell.Stars` | src/lib.rs:104 | `"*".repeat(n)` is `n` asterisks |
| `Cell.ElapsedMonotone` | src/lib.rs:73 | elapsed time never decreases as the clock advances |
| `Cell.NonVolatileRevealIsRepeatable` | src/lib.rs:85-91 | a successful read of a non-volatile cell leaves the buffer unchanged, so a later read within the TTL returns the same text and state |
| `Cell.VolatileRevealConsumes` | src/lib.rs:79-89 | after a successful read of a volatile cell the buffer is all zero, and every later read fails: "TTL expired" if the TTL has passed by then, otherwise "Cell is empty/wiped." |
| `Cell.ExpiryIsPermanent` | src/lib.rs:72-77 | a read after the TTL fails with "TTL expired" and wipes; every later read is also expired and again reports "TTL expired", not "empty" |
| `Cell.WipedIsTerminal` | src/lib.rs:79-83 | a read of an all-zero buffer always fails and leaves the buffer all zero and the same length |
| `Cell.WipeIsIdempotent` | src/lib.rs:42-45 | zeroizing changes a buffer exactly when some byte is non-zero, so wiping a wiped buffer changes nothing |
| `Cell.EmptyBuffersIndistinguishable` | src/lib.rs:79-97 | any two all-zero buffers, whatever their lengths, give the same result on both read paths, with "Cell is empty" from masking |
| `Cell.MaskedIgnoresLifecycle` | src/lib.rs:94-108 | two cells with the same buffer mask identically, whatever their TTL, birth or volatile flag |
| `Cell.MaskedAscii` | src/lib.rs:99-107 | on a non-empty ASCII secret, masking gives one character per byte: the first `len - suffix_len` are `*` and the rest are the secret's own characters |
| `CellTests.BasicReveal` | tests/test_cypher_cell.py:6-12 | two reads of a non-volatile cell both return the secret |
| `CellTests.VolatileMode` | tests/test_cypher_cell.py:14-20 | a volatile cell returns the secret once, and then fails with "Cell is empty/wiped." |
| `CellTests.TtlExpiration` | tests/test_cypher_cell.py:22-34 | with a one-second TTL, a read within one second of creation returns the secret, and reads 1.1 s and 1.2 s after creation fail with "TTL expired" |
| `CellTests.ExpiryMessageDiffersFromTest` | tests/test_cypher_cell.py:33 | "Cell has expired", the test's pattern, does not occur in the code's message "TTL expired" |
| `CellTests.ContextManager` | tests/test_cypher_cell.py:36-43 | a read inside the `with` block returns the secret; after the block, a read fails with "Cell is empty/wiped." |
| `CellTests.ReprSecurity` | tests/test_cypher_cell.py:45-52 | whatever bytes the cell holds, the test's password included, the representation contains "[REDACTED]" and not the password |
| `CellTests.DeleteWipes` | tests/test_cypher_cell.py:54-58 | destruction leaves no non-zero byte in the buffer; in the model the buffer keeps the secret's length (see Left out) |
| `CellTests.MaskKeepsTail` | src/lib.rs:99-107 | masking an ASCII head followed by a tail, with as many visible bytes as the tail has, gives one `*` per head character and then the tail itself |
| `CellTests.MaskNothing` | src/lib.rs:99-102 | a visible suffix at least as long as the buffer returns the whole secret |
| `CellTests.MaskedExamples` | src/lib.rs:94-108 | "supersecret" with 4 visible bytes gives "*******cret"; "allvisible" with 20 gives "allvisible" |
| `CellTests.DoubleWipe` | src/lib.rs:67-92 | a volatile cell returns "doublewipe" once; disposing of it twice raises nothing, and the next read fails with "Cell is empty/wiped." |
| `CellTests.MaskCountsBytes` | src/lib.rs:104-105 | masking "pé" with one visible byte gives "**" and U+FFFD: masking counts bytes and splits a character |

## Left out

- Memory locking: `lock_memory` and `unlock_memory` (src/lib.rs:14-40) call `mlock`/`munlock` or `VirtualLock`/`VirtualUnlock` and ignore the result. These are foreign OS calls with no effect on what the cell returns.
- Python bindings: the pyo3 attributes, module registration, and `__enter__`, which returns the cell itself. The binding rejects a negative or too-wide `ttl_sec` or `suffix_len` before the code runs, so the model takes them as natural numbers with no `u64`/`usize` bound.
- The clock: `Instant::now` and `elapsed` become the `now` parameter, in nanoseconds.
- Cell.CypherCell.Wipe: models only the effect of the `zeroize` crate, which is that no non-zero byte remains. It keeps the length. The crate also empties the `Vec`, but every read tests only whether all bytes are zero, so the two cannot be told apart (`EmptyBuffersIndistinguishable`). The crate's protection against dead-store elimination is not modelled.
- Cell.CypherCell.Drop: an explicit call. When Python's garbage collector or finalizer runs it is not modelled, and neither is the guarantee that it does run.
- Concurrency: the code has none; each operation is one sequential step.
- `String::from_utf8_lossy` returns borrowed or owned text. The model returns a value, and that copy is the caller's.

