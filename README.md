# echodev: a verified model of the echo character device's storage

`w4/echodev.c` is a Linux character-device driver. It keeps one shared buffer of
`BUFFER_SIZE` (4096) bytes and a fill level `data_size`. The buffer is read and
written at the caller's file position `*f_pos`. Every open file is bound to that one
device. This project models the driver's storage engine in Dafny:

- `echodev.dfy`, module `EchoDev`:
  - the constants and the device state as a value (`State`);
  - `echodev_read` and `echodev_write` as functions of that state (`ReadSpec`, `WriteSpec`);
  - the device object itself (`Device`: a 4096-element `array<Byte>` and a `dataSize` field). Its
    methods `Read` and `Write` do the byte copy with a loop and are proved to compute exactly
    `ReadSpec` and `WriteSpec`.
- `sessions.dfy`, module `Sessions`: the device seen through any number of open files, each
  with its own position. `Step` and `Run` apply open, read and write calls. The lemmas
  cover what holds over whole call sequences: bounds, monotone `data_size`, and echo.

The kernel calls whose outcome the driver cannot choose are inputs (`Faults`):
- whether `mutex_lock_interruptible` was interrupted (giving `-ERESTARTSYS`);
- how many bytes `copy_to_user` / `copy_from_user` report they could not copy (giving
  `-EFAULT`).

A faulting `copy_from_user` has copied the bytes before the fault and zero-filled the rest of
its destination, which is what the kernel documents for that call. Return values are
the driver's `ssize_t`: a byte count, or a negated Linux errno (`ERESTARTSYS` = 512,
`EFAULT` = 14, `ENOSPC` = 28).

Behaviour of the driver worth stating:
- Capacity is the constant `BUFFER_SIZE`; the driver has no resize or control operation.
- A write of zero bytes fails with `-ENOSPC` even when there is room (w4/echodev.c:76-79).
- A write whose `copy_from_user` faults is not atomic. The bytes before the fault and the
  zero fill stay in the buffer, also inside `[0, data_size)`, where later reads see them.
  Only `*f_pos` and `data_size` are left unchanged (w4/echodev.c:81-84).
- A truncated write reports only the truncated count. Nothing distinguishes it from a
  full write of that many bytes (w4/echodev.c:72-74, 90).

## Model

| member | source | states |
|---|---|---|
| EchoDev.ReadSpec | w4/echodev.c:37-61 | an interrupted lock gives -ERESTARTSYS, delivers nothing and keeps the position; at or past data_size the read returns 0 (end of file, not an error); a successful read returns min(count, data_size - f_pos) bytes, delivers exactly buffer[f_pos .. f_pos+n) and advances the position by n; without a copy fault a read inside the data always succeeds; a failed read leaves the position; a copy fault on a non-empty range gives -EFAULT and delivers exactly the bytes before the fault, a proper prefix of what was due |
| EchoDev.WriteSpec | w4/echodev.c:63-95 | the result state keeps data_size <= BUFFER_SIZE and the position <= BUFFER_SIZE; -ENOSPC exactly when the position is at the end or nothing is offered; success exactly when neither that, an interrupt nor a copy fault happens; success stores the request truncated to BUFFER_SIZE - f_pos at f_pos, keeps every other byte, advances the position by that count and sets data_size to max(old, new position); no write returns 0; every failure keeps position and data_size; -ERESTARTSYS and -ENOSPC keep the whole state; -EFAULT changes only the targeted bytes (copied prefix then zero fill) |
| EchoDev.Device.Init | w4/echodev.c:116 | the freshly allocated device has an all-zero buffer of BUFFER_SIZE bytes and data_size 0 |
| EchoDev.Device.Read | w4/echodev.c:37-61 | the in-place read (copy loop over the array) returns exactly what ReadSpec prescribes and changes nothing |
| EchoDev.Device.Write | w4/echodev.c:63-95 | the in-place write (copy loop into the array, data_size update) leaves exactly the buffer, data_size, position and return value WriteSpec prescribes, keeps the same array and keeps data_size <= BUFFER_SIZE |
| EchoDev.RoomAsWritten | w4/echodev.c:72 | the space left as the driver computes it, in 64-bit size_t arithmetic: exactly BUFFER_SIZE - f_pos for positions inside the buffer, and the wrapped value 2^64 + BUFFER_SIZE - f_pos (not 0) for positions past the end |
| EchoDev.RoomAsWrittenOverruns | w4/echodev.c:72-81 | at f_pos = BUFFER_SIZE + 1 the computed space wraps to 2^64 - 1, so a 1-byte request keeps its count of 1 (the `count == 0` test does not fire and the byte goes past the buffer), while the intended clamp `Room` gives 0 |
| EchoDev.Room | w4/echodev.c:72-74 | the intended space left never lets a write pass the end of the buffer, is exactly the rest of the buffer for positions inside it and 0 at or past the end |
| EchoDev.RoomAgrees | w4/echodev.c:72 | for every position up to BUFFER_SIZE the driver's computation and the intended one agree |
| EchoDev.WriteThenRead | w4/echodev.c:51-56 | after a successful write, reading back as many bytes from the same position returns exactly the bytes stored and ends at the same position as the write |
| Sessions.Boot | w4/echodev.c:116 | after initialisation data_size is 0, no file is open, and the invariant holds |
| Sessions.Step | w4/echodev.c:31-95 | one open, read or write call keeps every file position <= data_size <= BUFFER_SIZE (so each write meets its precondition), never lowers data_size, never changes the device on a read, and an open adds one file at position 0 |
| Sessions.Run | w4/echodev.c:43-95 | any sequence of calls keeps that invariant and never lowers data_size |
| Sessions.Reachable | w4/echodev.c:17-95 | from the initial state, whatever calls are made, data_size and every file position stay within BUFFER_SIZE |
| Sessions.AppendOne | w4/echodev.c:72-90 | one fault-free write on a file at the end of the data that fits appends the chunk whole, reports its length, grows data_size by that length, leaves the file at the new end and moves no other file; an empty chunk is refused with -ENOSPC and leaves the whole system unchanged |
| Sessions.WritesAppend | w4/echodev.c:72-90 | fault-free writes on a file at the end of the data that fit in the buffer (empty ones included, which change nothing) append each chunk whole and in order, grow data_size by their total length and leave the file at the new end |
| Sessions.RunAppend | w4/echodev.c:43-95 | running two call sequences one after the other is the same as running their concatenation |
| Sessions.EchoAfterBoot | w4/echodev.c:31-95 | on the freshly loaded device, chunks written through one file (any of them possibly empty) are read back whole, and nothing more, by a file opened afterwards |

## Left out

- Module registration and teardown (`alloc_chrdev_region`, `cdev_init`/`cdev_add`, `class_create` and its version macro, `device_create`, `printk`, the error-unwind labels, `echodev_exit`): kernel plumbing with no behaviour of the storage to state. Allocation failure of `kzalloc` aborts loading, so a loaded device always starts from `Device.Init`.
- The mutex: each operation is one atomic step. The only trace of the lock is a possible `-ERESTARTSYS` outcome, with no change of state.
- `copy_to_user` and `copy_from_user` are kernel calls outside the driver. They are modelled by their reported number of uncopied bytes. Which user addresses fault is not modelled.
- Writes at a position past `BUFFER_SIZE`, which only `pwrite` can reach (the driver has no `.llseek`, w4/echodev.c:97-102, so `lseek` cannot move the position; negative positions never reach the driver, since `pwrite` rejects them): `Device.Write` and `WriteSpec` require `fpos <= BUFFER_SIZE`. Beyond it the driver overruns the buffer (see Findings). `Sessions.Reachable` shows that reads and writes alone never leave that range.
- Which file a call is issued on is resolved by the kernel. In `Sessions`, a call naming a file that was never opened changes nothing.
- `echodev_open` is modelled as binding a new file with position 0 (`Sessions.Step`). The `struct file` and `private_data` pointer themselves are not modelled, since there is only one device to bind to.
- Integer widths: `count`, positions and `data_size` are unbounded naturals. Within the modelled range (positions <= 4096) no `size_t`/`loff_t`/`ssize_t` arithmetic of the driver can overflow. The one wrap-around that matters is modelled in `RoomAsWritten`.

## Findings

| source | as written | input that shows it | evidently intended | confidence | as-written member | corrected member |
|---|---|---|---|---|---|---|
| w4/echodev.c:72 | `space_remaining = BUFFER_SIZE - (size_t)*f_pos` wraps around when `*f_pos > BUFFER_SIZE`, so `count` is not clamped and `copy_from_user` writes past the buffer | `pwrite(fd, buf, 1, 4097)`: the computed space is 2^64 - 1 and the byte goes to `buffer + 4097` | no space at or past the end, so the write fails with `-ENOSPC` | likely; not executed | EchoDev.RoomAsWrittenOverruns | EchoDev.Room |
