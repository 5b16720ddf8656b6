# File-mode playback bookkeeping of a JACK pass-through client

The program is a JACK audio client written for a DSP course. It has two modes. In capture mode it forwards the microphone to the speakers. In file mode it plays raw 16-bit PCM read from standard input. In both modes every audio cycle goes through a student-supplied transform, `process`, which as shipped copies its input to its output.

This project models the logic behind file mode and the transform:

- **`readFile`** (module `Jack`, with byte decoding in module `Pcm`). The input bytes are given as a sequence of length `rc`, the count `read(2)` returned. A short read is zero-padded. Each byte pair is read as a little-endian two's-complement `short` (the host-native order of the usual hosts). Slot `i` of the destination receives `short/32768`. The result is 0 exactly when no byte arrived, and then nothing is written.
- **The window advance in `process_`** (`Jack.Data.ProcessStep`, `Jack.Data.Callback`). `struct dataType` is the class `Data`. Each callback records the frame count, moves `wnd` on by one, or wraps it to 0 when window `wnd+1` would not fit, that is when `(wnd+2)*nframes > size`. It then plays the window that `wnd` named before the advance, so `wnd` always names the window the *next* callback reads. With a constant frame count `n`, the index cycles through `0 .. W-1` with `W = 1<<16 / n` (`Jack.WndCycles`). Every window played lies inside the buffer.
- **One pass of the polling loop in `main`** (`Jack.Poller.PollStep`). The loop's locals `wnd`, `firstTime`, `abortRQ` and `ok` are the fields of `Poller`. The choice a pass makes is the pure function `Jack.Decide`:
  - wait while the index is unchanged;
  - on the first change, fill everything after the next window up to the end of the second half;
  - after that, refill the second half when the index wraps to 0 and the first half when it reaches the midpoint;
  - stop, reading nothing, at either of those points once the previous read delivered no byte.

  If the loop first sees the index only at the last window `W-1` and `W` is even, the first fill has length 0. `readFile` then reads 0 bytes and returns 0, so the loop ends at the next wrap without having read any input.

  `Jack.RefillSparesPlayingHalf` proves that a half refill never touches any window the callback plays before the index next reaches a half boundary. `Jack.HalvesCoverWindows` shows that the two halves span every window only when `W` is even. When `W` is odd, the last window is never refilled and keeps its initial zeros. JACK's power-of-two period sizes make `W` even unless `W = 1`.
- **`process` and `init`** (module `Tarea04`). `process` copies `nframes` samples from `in` (an array and an offset, which is how a C pointer is modelled) to `out`. It leaves the rest of `out` and all of `in` unchanged and returns 0. The header comment calls 0 an error, but the code returns 0 and the inline comment calls that success; the model follows the code. `init` has an empty body and no frame, so it changes nothing.

Float samples are mathematical reals: a decoded sample is exactly `v/32768` for a `short` `v`, so it lies in [-1, 1).

`process_` passes the global `Fs` to `process`. Nothing assigns that global, because `main` stores the server's sample rate in a local that shadows it. The model therefore passes the constant `Jack.Fs = 0`, which `process` ignores.

The undefined behaviours of the C code are preconditions, not modelled behaviour:
- a negative `rc`;
- a change of the index seen before a window size has been recorded, which would divide by zero;
- a first fill of negative length;
- a change of the frame count between callbacks;
- a frame count outside `1 .. 1<<16`. A larger one makes `process` copy past the end of the ring buffer. A count of 0 records a window size of 0 while the index keeps moving, which leads to the division by zero above. This bound also keeps every product in the index arithmetic far below the `int` range.

## Model

| member | source | states |
|---|---|---|
| `Pcm.Int16` | programa/jack.c:45-48 | the `short` of a low and a high byte: congruent to `lo + 256*hi` modulo 65536, and negative exactly when the high byte's top bit is set |
| `Pcm.Int16OfBytes` | programa/jack.c:45 | the two bytes of a `short` decode back to that `short` |
| `Pcm.BytesOfInt16` | programa/jack.c:45 | every byte pair is the encoding of the `short` it decodes to, so the reinterpretation loses no bit pattern |
| `Pcm.Normalized` | programa/jack.c:48 | `v/32768` lies in [-1, 1), is negative exactly when `v` is, and is zero exactly when `v` is |
| `Pcm.NormalizedMonotonic` | programa/jack.c:48 | dividing by 32768 preserves the order of samples |
| `Pcm.Decode` | programa/jack.c:45-49 | viewing `2n` bytes as `short`s gives `n` samples, and sample `i` is made of bytes `2i` and `2i+1` |
| `Pcm.Encode` | programa/jack.c:45 | the memory image of `n` `short`s is `2n` bytes, with the low byte of sample `i` at `2i` and its high byte at `2i+1` |
| `Pcm.DecodeEncode` | programa/jack.c:45-49 | decoding the memory image of a sample sequence gives back the sequence |
| `Pcm.EncodeDecode` | programa/jack.c:45-49 | the memory image of the decoded samples is the original bytes |
| `Pcm.ZeroPad` | programa/jack.c:42-44 | after a short read of `rc` bytes, the buffer holds those bytes followed by zeros up to `2*samples` |
| `Jack.Refilled` | programa/jack.c:35-51 | the destination buffer after one `readFile`. Its contract fixes only the length; `RefilledSlot` and `RefilledFrame` state the contents |
| `Jack.RefilledSlot` | programa/jack.c:42-49 | after a read of at least one byte, slot `offset+i` is the sample of bytes `2i` and `2i+1`, in [-1, 1). It is 0 when both bytes lie past the end of the read, and the low byte over 32768 when only the high byte is missing |
| `Jack.RefilledFrame` | programa/jack.c:38-49 | slots outside the `samples` slots written, and every slot after a read of zero bytes, keep their value |
| `Jack.ReadFile` | programa/jack.c:35-51 | returns 0 and writes nothing when no byte arrives, otherwise returns 1 (also on a short read) and leaves the buffer as `Refilled` describes |
| `Jack.NextWnd` | programa/jack.c:76-81 | the index after a callback is the old index plus one, modulo the number of windows that fit, and the window it names fits in the buffer |
| `Jack.WndAfter` | programa/jack.c:76-81 | every index reached from 0 by callbacks names a window inside the buffer |
| `Jack.WndCycles` | programa/jack.c:76-81 | after `k` callbacks of `n` frames from index 0, the index is `k mod (size / n)` |
| `Jack.Data.constructor` | programa/jack.c:160-167 | the shared state starts at index 0, with no window size recorded and a zeroed buffer of 1<<16 samples |
| `Jack.Data.ProcessStep` | programa/jack.c:74-84 | records `wndSize = nframes`. The new index is `NextWnd` of the old, and it is 0 exactly when `(old+2)*nframes` exceeds the buffer. Returns `nframes*old`, a window inside the buffer, and keeps the invariant `(wnd+1)*wndSize <= size` |
| `Jack.Data.Callback` | programa/jack.c:62-90 | in file mode, the output buffer receives the window the old index named, the rest of the output is untouched, and the result is `process`'s 0 |
| `Jack.HalfBuffer` | programa/jack.c:284-285 | `halfBuffer` is a whole number of windows, two halves fit in the buffer, and less than two windows are left over |
| `Jack.HalvesCoverWindows` | programa/jack.c:285 | the two halves cover all `size / wndSize` windows exactly when that number is even |
| `Jack.Decide` | programa/jack.c:277-325 | a pass waits exactly when the index is unchanged. Every read region lies inside the buffer and ends at or before the end of the second half. The loop ends only after the first fill, only when the previous read delivered nothing, and only at index 0 or the midpoint |
| `Jack.DecideRegions` | programa/jack.c:288-319 | the first fill runs from just after the next window to the end of the second half. The refill at index 0 is the second half `[half, 2*half)`, and the one at the midpoint is the first half `[0, half)`. The loop ends exactly when the index moved to 0 or the midpoint after the first fill and the previous read delivered nothing |
| `Jack.RefillSparesPlayingHalf` | programa/jack.c:294-319 | no region read into overlaps a window the callback plays before the next half boundary. After a wrap to 0 those are windows `0 .. W/2-1`, from the midpoint windows `W/2 .. W-1`, and on the first fill the next window |
| `Jack.Poller.constructor` | programa/jack.c:270-274 | the loop starts with index 0 seen, the first fill pending, `abortRQ = 1` and `ok` set |
| `Jack.Poller.PollStep` | programa/jack.c:275-326 | one pass sets the seen index to the shared one. It clears `firstTime` exactly when it does the first fill, which therefore happens at most once. It clears `ok` exactly on `Finish`, stores the read's result in `abortRQ` and changes the buffer exactly as `Refilled` for the region `Decide` chose. It preserves `Coherent` |
| `Jack.CallbackThenPoll` | programa/jack.c:62-326 | a callback followed by a pass of the polling loop: the pass sees the index the callback published, the output receives the window the old index named and the rest of it is untouched. The ghost result is the `Decide` choice on the published index, and the loop locals and the ring buffer become what `PollStep` states for it: the loop stops exactly on `Finish`, `abortRQ` holds the read's result and the buffer is `Refilled` on `Read`. The shared state and the loop state stay `Coherent` |
| `Tarea04.Process` | programa/tarea04.c:69-86 | `out[i] == in[i]` for `i < nframes`, `out` beyond `nframes` and all of `in` unchanged, and the result is 0 |

## Left out

- JACK session and port plumbing (`jack_client_open`, port registration, activation, connections, the shutdown callback at programa/jack.c:96-100): foreign calls into the JACK library.
- Capture mode: `process_` then hands the port's input buffer straight to `process`, which `Tarea04.Process` covers. The spinner loop around it is only output.
- `read(2)`, `printf`/`fflush` and `usleep`: the bytes a read delivers are a parameter, and console output and sleeping are not modelled.
- Command-line parsing with `getopt_long` (programa/jack.c:115-138): a library wrapper that only sets `capture` and `verbose`.
- The concurrency between the audio thread and the polling loop: each runs as a method, and only sequential interleavings of `Data.Callback` and `Poller.PollStep` are covered (`Jack.CallbackThenPoll` composes one of each). Races on the unsynchronised `wnd` are not modelled.
- IEEE float rounding of `/32768` and of the samples `process` copies: samples are reals.
- 32-bit `int` overflow in the index arithmetic: integers are unbounded. With the fixed buffer of 1<<16 samples, no product in that arithmetic comes near the `int` range.
- Host byte order: `readFile` is modelled for little-endian hosts only.
- `Tarea04.Init`: its body is empty and it has no frame. A method that changes nothing has no postcondition to state, so it has no row in the table above.
- filtro.py: an offline `scipy` filtering and plotting script, not part of this model.
