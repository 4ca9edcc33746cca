# node-i2c binding session, modelled in Dafny

node-i2c's native part (`src/i2c.cc`) is a Node.js binding over the Linux i2c-dev interface. It
keeps two process globals, the open descriptor `fd` and the remembered slave address `addr`, and
exports `setAddress`, `scan`, `open`, `close`, `read`, `readByte`, `readBlock`, `write`,
`writeByte` and `writeBlock`. It also defines a `WriteWord` function that its `Init` never
registers, so JavaScript cannot call it. Each function is a short piece of session logic wrapped
around kernel primitives (`open`, `close`, `ioctl(I2C_SLAVE_FORCE)`, `read`, `write`) and the
SMBus helpers (`i2c_smbus_read_byte`, `i2c_smbus_write_quick`, `i2c_smbus_write_byte`,
`i2c_smbus_write_word_data`, `i2c_smbus_write_i2c_block_data`,
`i2c_smbus_read_i2c_block_data`).

The model keeps that session logic and replaces everything beneath it with an oracle.

- `cint.dfy` (module `CInt`): the C integer types the binding uses, and the narrowing
  conversions to `int8_t` and `int16_t` that it applies to addresses, registers, bytes and words.
- `outcomes.dfy` (module `Outcomes`): `Option` and the binding's error values, one per message text.
- `kernel.dfy` (module `Kernel`): one datatype for every primitive call, with its arguments as
  the binding passes them. An `Oracle` maps the history of earlier calls and a new request to a
  reply. The only thing required of a reply is honesty: a read stores at most the bytes its
  buffer holds, and exactly as many as it reports. `Bind`/`Rebind` track which slave address is
  bound on the handle.
- `scanning.dfy` (module `Scanning`): the probe a scan uses at each address, and what one round
  of a scan and its entry mean.
- `polling.dfy` (module `Polling`): `Poll`, the trace of `(err, buffer)` deliveries that
  `readBlock`'s loop produces from the replies of its passes, and lemmas about that trace.
- `session.dfy` (module `Session`): class `BusSession`, whose fields are the two globals, the
  oracle, a log of every call made with its reply, and a ghost field for the address actually
  bound. The class invariant says every logged reply is the oracle's answer. Each of the eleven
  functions, `WriteWord` included, is a method of the class. The buffers the C code fills in
  place are arrays, and the loops are loops. A new array has arbitrary contents, which stands for
  uninitialised memory.
- `loopback.dfy` (module `Loopback`): a loopback device written as an oracle, and whole
  sessions run against it. They show that written bytes come back unchanged, and that a
  polling `readBlock` goes on after `close`.

Where the code differs from what the API suggests, the model follows the code:

- `setAddress` stores the narrowed address in `addr` before the ioctl, so `addr` changes even
  when binding fails.
- `scan` binds the global `addr` again at the end, not the address that was bound before.
- A scan entry for an address that did not answer is the probe's own negative result, not a
  fixed -1.
- `readByte` fails only on exactly -1.
- `close` leaves `fd` unchanged, so a polling `readBlock` started after `close` keeps issuing
  block reads on the closed descriptor.
- `write` fails unless the count written equals the buffer length. The three SMBus writes fail
  only on -1.

## Model

| member | source | states |
|---|---|---|
| CInt.Int8 | src/i2c.cc:147 | the `int8_t` conversion gives the value in -128..127 congruent to the argument modulo 256, and leaves values already in range unchanged |
| CInt.Int16 | src/i2c.cc:248 | the `int16_t` conversion gives the value in -32768..32767 congruent to the argument modulo 65536, and leaves values already in range unchanged |
| CInt.ByteSurvivesInt8 | src/i2c.cc:208 | a byte 0..255 narrowed to `int8_t` and read back as an unsigned byte is the same byte |
| Session.BusSession.constructor | src/i2c.cc:16-17 | at load time `fd` and `addr` are zero, nothing is bound and no call has been made |
| Session.BusSession.Select | src/i2c.cc:19-25 | `setAddress` makes one `I2C_SLAVE_FORCE` ioctl on `fd`. It raises "Failed to set address" exactly when the ioctl returns -1. Otherwise the address is bound, and after a failure the earlier binding stays |
| Session.BusSession.SetAddress | src/i2c.cc:27-33 | `addr` becomes the argument narrowed to `int8_t` whether or not the bind succeeds, then that address is selected as `setAddress` does |
| Session.BusSession.ScanRound | src/i2c.cc:44-53 | round `i` selects `i`, then probes it with a read-byte in 0x30-0x37 and 0x50-0x5F and with a quick write elsewhere. The entry is `i` when the probe returned a non-negative value, otherwise the probe's negative result. The round raises exactly when its select returned -1 |
| Session.BusSession.ProbeAt | src/i2c.cc:45-49 | the probe at address `i` is one SMBus receive-byte when `i` is in 0x30-0x37 or 0x50-0x5F and one quick write otherwise, on `fd`, and its reply is the oracle's answer. The bound address does not change |
| Session.BusSession.Scan | src/i2c.cc:35-63 | exactly 257 calls: 128 rounds in address order, with entry `i` as described for one round, then a select of `addr`. After a successful final select the bound address is `addr`. `fd` and `addr` do not change. A TypeError is pending exactly when some select returned -1 |
| Scanning.EntriesNameAnsweringAddresses | src/i2c.cc:50-53 | for a completed scan, entry `i` is non-negative exactly when probe `i` answered with a non-negative value, a non-negative entry equals its index, and every non-negative value in the entries is an address whose own entry names it |
| Session.BusSession.Close | src/i2c.cc:65-70 | `close` is called only when `fd` is positive, and `fd` keeps its value either way |
| Session.BusSession.Open | src/i2c.cc:72-90 | `fd` becomes the result of opening the path. The error is "Failed to open I2C device" exactly when that result is -1. No address is bound on the new handle |
| Session.BusSession.Read | src/i2c.cc:92-117 | one `read` of `len` bytes. Unless it returns exactly `len`, the result is the read error with an empty array. Otherwise it is exactly `len` entries, entry `i` being byte `i` the read stored |
| Session.Collect | src/i2c.cc:104-106 | the copy loop yields the first `len` bytes of the buffer, in order |
| Session.BusSession.ReadByte | src/i2c.cc:119-143 | one SMBus receive-byte. The result is an error with no data exactly when it returns -1, and otherwise the returned value as data |
| Polling.Overlay | src/i2c.cc:156 | a block read of `n` bytes replaces the first `n` bytes of the stack array and keeps the others |
| Session.Store | src/i2c.cc:156 | the array holds the read's bytes over its previous contents, as `Overlay` describes |
| Session.Copy | src/i2c.cc:160 | after the `memcpy` the callback's buffer equals the stack array |
| Session.BusSession.BlockPass | src/i2c.cc:156-160 | one pass issues one block read of `len` bytes at the narrowed register. The error becomes "Error reading length of bytes" when fewer or more than `len` come back, and is otherwise left as it was. The stack array takes the bytes read over its contents, and the buffer becomes a copy of it |
| Session.BusSession.PollBlocks | src/i2c.cc:155-175 | the loop makes no pass when `fd <= 0`, one pass without a numeric delay and `budget` passes with one. Every pass is the same block read. The deliveries are exactly `Poll` of the replies starting from the array's initial contents, and the buffer ends equal to the last delivery |
| Session.BusSession.ReadBlock | src/i2c.cc:145-184 | the same as PollBlocks, on a fresh stack array and a fresh `len`-byte buffer that is returned. When the buffer cannot be allocated, no call is made and nothing is delivered |
| Polling.Poll | src/i2c.cc:155-175 | one delivery per pass, each carrying a buffer as long as the stack array (`len` bytes as ReadBlock calls it) |
| Polling.PollStep | src/i2c.cc:156-167 | a further pass appends one delivery. Its error is set when an earlier delivery's was or this pass read short. Its buffer is the previous one with this pass's bytes over it |
| Polling.PollPrefix | src/i2c.cc:155-175 | the deliveries of the first `m` passes do not depend on any later pass |
| Polling.ErrorMeansShortRead | src/i2c.cc:156-158 | delivery `k` carries an error if and only if some pass up to `k` did not return exactly `len` |
| Polling.ErrorIsSticky | src/i2c.cc:150-158 | once a delivery carries the error, every later delivery carries "Error reading length of bytes" too |
| Polling.FailedPassesReport | src/i2c.cc:156-158 | when no pass returns `len`, every delivery carries the error |
| Polling.BufferHoldsLatestWrite | src/i2c.cc:149-160 | byte `i` of delivery `k` is the byte stored there by the latest pass up to `k` whose read reached `i` |
| Polling.BufferKeepsUnwrittenBytes | src/i2c.cc:149-160 | byte `i` of delivery `k` is still the array's initial byte when no pass up to `k` reached `i` |
| Session.BusSession.Write | src/i2c.cc:186-205 | one `write` of the whole buffer. The error is "Cannot write to device" exactly when the count written differs from the buffer length |
| Session.BusSession.WriteByte | src/i2c.cc:207-222 | one SMBus send-byte of the value narrowed to `int8_t`. The error is set exactly when it returns -1 |
| Session.BusSession.WriteBlock | src/i2c.cc:224-244 | one SMBus block write of the whole buffer at the narrowed register. The error is set exactly when it returns -1 |
| Session.BusSession.WriteWord | src/i2c.cc:246-263 | one SMBus word write of the value narrowed to `int16_t` at the register narrowed to `int8_t`. The error is set exactly when it returns -1 |
| Loopback.RawRoundTrip | src/i2c.cc:101-107 | on a loopback device, `open`, `write(bytes)` and `read(len(bytes))` give no error and return `bytes` |
| Loopback.ByteRoundTrip | src/i2c.cc:207-211 | on a loopback device, after `setAddress(0x50)`, sending any byte 0..255 and receiving one returns the same byte, despite the `int8_t` narrowing |
| Loopback.PollAfterClose | src/i2c.cc:65-70 | after `open` and `close`, a polling `readBlock` still makes every pass it is allowed, because `fd` was not reset, and every delivery carries the error |

## Left out

- V8 and Nan marshalling is not modelled: handle scopes, `Init` and module registration,
  `Int32Value` coercion of JavaScript values, and the `IsFunction`/`IsNumber` tests on
  arguments. A callback is modelled as always present, and its arguments become the method's
  results. `readBlock`'s delay argument is `Option<int32>`, where `Some` means "is a number".
- The kernel, the adapter, the devices and the SMBus helper library are one oracle. Their
  internals are not modelled. `i2c-dev.h` is not part of this model, so its narrowing of
  arguments to `__u8`/`__u16` and its 32-byte limit on block transfers are the oracle's
  business.
- The `usleep(delay * 1000)` between passes is not modelled. Time does not appear in the model.
- ReadBlock: the loop with a numeric delay runs for as long as the global `fd` is positive when
  it is re-tested before each pass. The model stops it after `budget` passes and says nothing
  about later passes.
- ReadBlock, PollBlocks: calls from the callback back into the binding are not modelled. In the
  source the callback runs between passes and may call `open`, `setAddress` or `close`. An
  `open` that fails sets `fd` to -1 and so ends the loop at the next test, which is the only way
  the polling loop ever stops. A successful `open` or `setAddress` sends the remaining passes to
  another descriptor or slave address. The model builds the block-read request once and keeps
  `fd` fixed for the whole loop, so it covers only callbacks that do not call the binding.
- ReadBlock: the buffer handed to every callback is one Node buffer, so earlier callbacks see it
  change. The model records a snapshot of its contents at each delivery.
- ReadBlock: the "Could not allocate Buffer" error is set but never delivered. The model has no
  delivery and no buffer in that case.
- Read: the C code converts `buf[i]` through `char`, so on platforms where `char` is signed,
  bytes 0x80-0xFF reach JavaScript as negative numbers. The model returns the bytes as 0..255.
- Read, ReadBlock: a negative `len` is excluded by a precondition. In C, `new char[len]` throws
  for it and the variable-length array has undefined behaviour.
- Write, WriteBlock: the source stores the buffer length in an `int` before comparing it with
  the result and passing it to the primitive. The model uses the length unnarrowed, so buffers
  of 2^31 bytes or more, where that `int` would wrap, are not modelled faithfully.
- WriteWord: the function is defined (src/i2c.cc:246-263) but `Init` does not register it, so
  no JavaScript caller can reach it. It is modelled from its text, as if it were exported.
- Open: a descriptor that was already open is overwritten without being closed. The model
  records this but does not track leaked descriptors.
- Concurrency between callers sharing the globals is not modelled. Every operation runs to
  completion before the next starts.
- The model does not track whether a JavaScript exception is pending when a callback runs.
  `thrown` only reports that `setAddress` raised one.
