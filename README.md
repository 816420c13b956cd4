# Audio FIFO of RALibretro, modelled in Dafny

The audio component of RALibretro hands resampled 16-bit stereo samples
from the emulation thread to the audio-device callback through `Fifo`. This
is a fixed-capacity byte ring buffer. Its state is a backing store
`_buffer` of `_size` bytes, a free-space counter `_avail`, a read cursor
`_first` and a write cursor `_last`. `write` copies bytes in at `_last`
and `read` copies bytes out from `_first`. Each copy is split into at most
two contiguous spans when it wraps past the end of the store. Each
operation then moves its cursor forward modulo `_size` and adjusts
`_avail`. `occupied()` and `free()` report how full the buffer is.

The model has three modules:

- `AudioFifo` (`fifo.dfy`) holds `class Fifo`. The class has the same
  fields as the source (`buffer`, `size`, `avail`, `first`, `last`), an
  object invariant `Valid()`, and a ghost abstraction `Contents()`, the
  unread bytes oldest first. Next to the class are the pure functions the
  contracts are written in. `Unread` is the bytes of a ring starting at a
  position. `Overwrite` is a ring after bytes are stored from a position,
  wrapping. The module also holds the lemmas that tie the two-span copies
  to those functions, and a model of `memcpy`.
- `FifoScenarios` (`fifo_scenarios.dfy`) has two clients that use only the
  contracts of `Fifo`. One is a producer/consumer exchange whose second
  write wraps. The other is a double reset.
- `AudioMix` (`mix.dfy`) holds the one integer step of `Audio::mix`: the
  requested output sample count is rounded up to an even number.

Each `Fifo` operation is one atomic step. `Valid()` states the invariants.
Both cursors lie inside the store. `avail <= size`. The write cursor is
exactly `size - avail` positions past the read cursor, modulo `size`.
Together these give `occupied() + free() == size` in every reachable state.
`Write` appends its bytes to `Contents()`. `Read` returns the oldest bytes
and removes them from the front. The source leaves its size limits to the
caller (`size <= free()` for `write`, `size <= occupied()` for `read`).
Here they are `requires` clauses.

The source's `read` and `write` use `% _size`, so they divide by zero on a
buffer created with `init(0)`. `Fifo.Read` and `Fifo.Write` therefore also
require `size > 0`.

Some things in the source are parameters of the model. Whether `init`
obtains its lock and storage is the parameter `obtained` of `Fifo.Init`.
The truncated floating-point product `in_len * _currentRatio` is the
argument of the `AudioMix` functions.

## Model

| member | source | states |
|---|---|---|
| AudioFifo.Fifo.Init | src/components/Audio.cpp:25-45 | `init` succeeds exactly when lock and storage are obtained. On success, the capacity is the requested size, `avail == size`, both cursors are 0 and nothing is buffered. On failure, the object is unchanged. |
| AudioFifo.Fifo.Reset | src/components/Audio.cpp:53-57 | After `reset` the buffer is empty: `avail == size`, `first == last == 0`, `Contents() == []`. The storage and capacity are kept. The new state depends on the capacity alone. |
| FifoScenarios.ResetTwice | src/components/Audio.cpp:53-57 | Two resets in a row leave the same state as one. |
| AudioFifo.Fifo.Read | src/components/Audio.cpp:59-80 | Given `n <= occupied`, `read` copies the oldest `n` unread bytes, in order, to the front of `data` and leaves the rest of `data` alone. It removes those bytes from the front of `Contents()` and does not change the storage. The new read cursor is `(first + n) % size`, and `avail` grows by exactly `n`. The invariant is kept. |
| AudioFifo.Fifo.Write | src/components/Audio.cpp:82-103 | Given `n <= free`, `write` appends the first `n` bytes of `data` to `Contents()`. The storage becomes `Overwrite(old storage, old last, data[..n])`. The new write cursor is `(last + n) % size`, and `avail` shrinks by exactly `n`. The invariant is kept. |
| AudioFifo.Fifo.Occupied | src/components/Audio.cpp:105-114 | `occupied()` is the number of unread bytes, `|Contents()|`. |
| AudioFifo.Fifo.Free | src/components/Audio.cpp:116-125 | `free()` plus the number of unread bytes is the capacity. |
| AudioFifo.SplitSpan | src/components/Audio.cpp:63-70 | The split of a transfer of `n` bytes at a cursor (the same code at lines 86-93) has `span1 + span2 == n` and `span1 <= capacity - cursor`. If `n <= capacity`, then `span2 <= cursor`. There is a second span exactly when the transfer runs past the end of the store, and then the first span reaches that end. |
| AudioFifo.CopyOut | src/components/Audio.cpp:63-74 | The two `memcpy`s of `read` put exactly the `n` ring bytes from the read position at the front of the destination and leave the rest of it unchanged. |
| AudioFifo.CopyIn | src/components/Audio.cpp:86-97 | The two `memcpy`s of `write` change the storage exactly as `Overwrite` says: the bytes land at the positions that follow the write cursor, wrapping. |
| AudioFifo.CopyBytes | src/components/Audio.cpp:73-74 | A `memcpy` between distinct arrays replaces exactly the destination range with the source range. Nothing else changes. |
| AudioFifo.UnreadSpans | src/components/Audio.cpp:72-74 | The span from the cursor to the end of the store, followed by the span from its start, is exactly the next `n` bytes of the ring in FIFO order. |
| AudioFifo.UnreadDrop | src/components/Audio.cpp:76-77 | Moving the read cursor `n` places forward while `avail` grows by `n` leaves the unread region minus its first `n` bytes. Those first `n` bytes are the ones `read` returned. |
| AudioFifo.OverwriteBySpans | src/components/Audio.cpp:95-97 | Storing the first span at the cursor and the second at the start of the store is `Overwrite`. The second span fits before the cursor. |
| AudioFifo.UnreadAfterOverwrite | src/components/Audio.cpp:95-100 | Storing bytes from the write cursor, when they fit in the free space, appends them to the unread region. Every byte already unread is left unchanged. |
| AudioFifo.OverwriteStores | src/components/Audio.cpp:95-97 | `write` stores its `i`-th byte at storage position `(_last + i) % _size`. |
| AudioFifo.OverwriteOnlyThere | src/components/Audio.cpp:95-97 | `write` changes no storage byte outside the positions `(_last + i) % _size` with `i < size`. |
| AudioFifo.ModIsWrap | src/components/Audio.cpp:76 | The cursor update `(cursor + size) % _size` equals a single subtraction of `_size` when the sum reaches it. This is how the invariant speaks of positions. |
| FifoScenarios.Exchange | src/components/Audio.cpp:59-103 | A `write` followed by a `read` that stays within what is buffered returns the front of the old queue followed by the written bytes. The queue keeps what is left, and the storage array and capacity stay the same. |
| FifoScenarios.WrapAroundRoundTrip | src/components/Audio.cpp:59-103 | On a 16-byte buffer: write 12, read 8, write 10 (wrapping), read 14. The reads return exactly the bytes written, oldest first, and the buffer ends empty. |
| AudioMix.RoundOutLenAsWritten | src/components/Audio.cpp:191 | `out_len += out_len & 1` in 32-bit unsigned arithmetic always gives an even count. The count equals the input when the input is even. Below `0xFFFFFFFF` it is the input or one more. |
| AudioMix.RoundOutLenAsWrittenWraps | src/components/Audio.cpp:191 | At `out_len == 0xFFFFFFFF` the sum wraps to 0. |
| AudioMix.RoundOutLen | src/components/Audio.cpp:191 | The intended rounding is even, never below the truncated count, and at most one above it. It equals the count exactly when the count is even, so output stays whole interleaved stereo pairs. |
| AudioMix.RoundOutLenAgrees | src/components/Audio.cpp:191 | For every count below `0xFFFFFFFF`, the code as written and the intended rounding agree. |

## Left out

- The lock (`SDL_CreateMutex`, `SDL_LockMutex`, `SDL_UnlockMutex`, `SDL_DestroyMutex`) and the producer/consumer threads. Each operation is one atomic step.
- `Fifo::destroy`: freeing the store and the lock is resource management with no state to model.
- Fifo.Init: on failure the source leaves `_buffer` null (when the allocation is what failed). The model leaves the object as it was, because null storage is never used afterwards.
- `size_t` width: counts and cursors are unbounded naturals. With `_first < _size` and a transfer of at most `_size`, `_first + size` cannot overflow a 64-bit `size_t` for any store that fits in memory.
- `Fifo::size()`, which `mix` uses, is declared in `Audio.h`. That file is not part of this model.
- `Audio::init`, `Audio::destroy`, `Audio::setRate`: these are floating-point state, `speex_resampler_*` calls and logging.
- The rate control of `Audio::mix` (lines 179-187 and the `double` product at line 190): floating point. Its truncated result is a parameter of the `AudioMix` functions.
- The rest of `Audio::mix`: `alloca`, the resampler call, which rewrites `out_len` with the number of samples it actually produced, the `memset` to silence on failure, and logging. Also the byte counts `out_len * 2` at lines 192 and 208.
- The `SDL_Delay` backpressure loop (lines 210-214). It ends only when another thread drains the buffer, which a sequential model cannot express. Its only effect here is that the following `write` is reached after `size <= avail` was observed, which `Fifo.Write` requires.

## Findings

| source | as written | input that shows it | evidently intended | confidence | as-written member | corrected member |
|---|---|---|---|---|---|---|
| src/components/Audio.cpp:191 | `out_len += out_len & 1` on a 32-bit `spx_uint32_t` wraps when `out_len` is `0xFFFFFFFF` | truncated `in_len * _currentRatio` equal to 4294967295 gives `out_len == 0`, below the truncated count | round up to the next even count, never below the truncated count | low: needs about 4.3 billion samples in one block; not executed | AudioMix.RoundOutLenAsWritten, AudioMix.RoundOutLenAsWrittenWraps | AudioMix.RoundOutLen |
