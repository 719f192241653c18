/** The storage engine of the echo character device: one fixed buffer of
    BUFFER_SIZE bytes with a fill level `data_size`, read and written at the
    caller's file position (w4/echodev.c). */
module EchoDev {

  /** BUFFER_SIZE, the compile-time capacity of the device. */
  const BufferSize: nat := 4096

  /** The Linux errno values the driver returns, negated, as its ssize_t result. */
  const ERESTARTSYS: int := 512
  const EFAULT: int := 14
  const ENOSPC: int := 28

  /** One `char` of the buffer. */
  newtype Byte = b: int | 0 <= b < 256

  /** What the kernel calls made by an operation turn out to do; the driver
      cannot choose these, so the model takes them as inputs.
      `interrupted`: mutex_lock_interruptible was cut short by a signal.
      `uncopied`: the number of bytes copy_to_user / copy_from_user reports it
      could not copy (the real call never reports more than it was asked for,
      so the model caps it at the request). */
  datatype Faults = Faults(interrupted: bool, uncopied: nat)

  const NoFaults: Faults := Faults(false, 0)

  /** The device state as a value: the bytes of `buffer` and `data_size`. */
  datatype State = State(buffer: seq<Byte>, dataSize: nat) {
    predicate Valid() {
      |buffer| == BufferSize && dataSize <= BufferSize
    }
  }

  function Min(a: nat, b: nat): nat { if a <= b then a else b }
  function Max(a: nat, b: nat): nat { if a >= b then a else b }

  function Zeros(n: nat): (z: seq<Byte>)
    ensures |z| == n && forall i :: 0 <= i < n ==> z[i] == 0
  {
    seq(n, _ => 0)
  }

  /** The state kzalloc leaves behind: every byte zero, nothing stored. */
  function Initial(): State {
    State(Zeros(BufferSize), 0)
  }

  /** `buf` with `chunk` copied over it starting at index `at`. */
  function Overwrite(buf: seq<Byte>, at: nat, chunk: seq<Byte>): (r: seq<Byte>)
    requires at + |chunk| <= |buf|
    ensures |r| == |buf|
    ensures forall k :: 0 <= k < |r| ==>
      r[k] == if at <= k < at + |chunk| then chunk[k - at] else buf[k]
  {
    buf[..at] + chunk + buf[at + |chunk|..]
  }

  // ---------------------------------------------------------------------
  // The space left for a write (the clamp of echodev_write)
  // ---------------------------------------------------------------------

  /** 2^64: size_t arithmetic is modulo this. */
  const SizeModulus: nat := 0x1_0000_0000_0000_0000

  /** The space left as the driver computes it: BUFFER_SIZE - f_pos in
      64-bit size_t arithmetic, which wraps around once f_pos is past the end. */
  function RoomAsWritten(fpos: nat): (r: nat)
    // inside the buffer: the true space left
    ensures fpos <= BufferSize ==> r == BufferSize - fpos
    // past the end (by less than 2^64): a huge value instead of nothing
    ensures BufferSize < fpos < BufferSize + SizeModulus ==> r == BufferSize + SizeModulus - fpos
  {
    (BufferSize - fpos) % SizeModulus
  }

  /** A one-byte write at offset BufferSize + 1 is not clamped at all by the
      driver's computation, so the copy targets a byte past the buffer. */
  lemma RoomAsWrittenOverruns()
    ensures RoomAsWritten(BufferSize + 1) == SizeModulus - 1
    ensures Min(1, RoomAsWritten(BufferSize + 1)) == 1 && Room(BufferSize + 1) == 0
  {
  }

  /** The space left as intended: what remains between f_pos and the end of
      the buffer, and nothing once f_pos is at or past the end. */
  function Room(fpos: nat): (r: nat)
    ensures fpos + r <= BufferSize || r == 0
    ensures fpos <= BufferSize ==> fpos + r == BufferSize
    ensures fpos >= BufferSize ==> r == 0
  {
    if fpos < BufferSize then BufferSize - fpos else 0
  }

  /** Wherever the driver can be reached with a position inside the buffer,
      its computation and the intended one agree. */
  lemma RoomAgrees(fpos: nat)
    requires fpos <= BufferSize
    ensures RoomAsWritten(fpos) == Room(fpos)
  {
  }

  // ---------------------------------------------------------------------
  // echodev_read and echodev_write as functions of the state
  // ---------------------------------------------------------------------

  /** The result of echodev_read: the ssize_t it returns, the bytes that reached
      the user buffer, and the file position it leaves in *f_pos. */
  datatype ReadResult = ReadResult(retval: int, delivered: seq<Byte>, pos: nat)

  function ReadSpec(s: State, fpos: nat, count: nat, f: Faults): (r: ReadResult)
    requires s.Valid()
    // the lock was interrupted: nothing happens
    ensures r.retval == -ERESTARTSYS <==> f.interrupted
    ensures f.interrupted ==> r.delivered == [] && r.pos == fpos
    // at or past the end of the data: end of file, not an error
    ensures !f.interrupted && fpos >= s.dataSize ==> r.retval == 0
    // a read that succeeds delivers min(count, data_size - f_pos) bytes taken
    // from the buffer at f_pos and advances the position by as many
    ensures r.retval >= 0 ==> r.pos == fpos + r.retval
    ensures r.retval > 0 ==>
      fpos < s.dataSize && r.retval == Min(count, s.dataSize - fpos) &&
      r.pos <= s.dataSize && r.delivered == s.buffer[fpos..r.pos]
    ensures r.retval == 0 ==> r.delivered == []
    // only a fault of the user copy turns a read inside the data into a failure
    ensures !f.interrupted && fpos < s.dataSize && f.uncopied == 0 ==>
      r.retval == Min(count, s.dataSize - fpos)
    ensures r.retval < 0 ==> r.pos == fpos && (r.retval == -ERESTARTSYS || r.retval == -EFAULT)
    // a copy fault on a non-empty range is reported as -EFAULT
    ensures !f.interrupted && fpos < s.dataSize && 0 < f.uncopied && 0 < Min(count, s.dataSize - fpos) ==>
      r.retval == -EFAULT
    // and delivers only the prefix before the fault
    ensures r.retval == -EFAULT ==>
      fpos < s.dataSize &&
      |r.delivered| == Min(count, s.dataSize - fpos) - Min(f.uncopied, Min(count, s.dataSize - fpos)) &&
      |r.delivered| < Min(count, s.dataSize - fpos) &&
      r.delivered == s.buffer[fpos..fpos + |r.delivered|]
  {
    if f.interrupted then ReadResult(-ERESTARTSYS, [], fpos)
    else if fpos >= s.dataSize then ReadResult(0, [], fpos)
    else
      var n := Min(count, s.dataSize - fpos);
      var u := Min(f.uncopied, n);
      var delivered := s.buffer[fpos..fpos + n - u];
      if u > 0 then ReadResult(-EFAULT, delivered, fpos)
      else ReadResult(n, delivered, fpos + n)
  }

  /** The result of echodev_write: the ssize_t it returns, the device state it
      leaves, and the file position it leaves in *f_pos. */
  datatype WriteResult = WriteResult(retval: int, state: State, pos: nat)

  /** echodev_write, for a position inside the buffer. The bytes the user
      supplies are `data`, so `count` is |data|. A faulting copy_from_user has
      copied the bytes before the fault and zero-filled the rest of its
      destination, as the kernel's copy_from_user documents. */
  function WriteSpec(s: State, fpos: nat, data: seq<Byte>, f: Faults): (r: WriteResult)
    requires s.Valid() && fpos <= BufferSize
    ensures r.state.Valid() && r.pos <= BufferSize
    ensures r.state.dataSize >= s.dataSize
    ensures r.retval == -ERESTARTSYS <==> f.interrupted
    // nothing can be accepted: at the end of the buffer, or nothing offered
    ensures r.retval == -ENOSPC <==> !f.interrupted && (fpos == BufferSize || |data| == 0)
    ensures r.retval > 0 <==> !f.interrupted && fpos < BufferSize && |data| > 0 && f.uncopied == 0
    ensures r.retval < 0 ==>
      r.retval == -ERESTARTSYS || r.retval == -ENOSPC || r.retval == -EFAULT
    ensures r.retval != 0
    // success: the request, truncated to the space left, is stored at f_pos,
    // every other byte is kept, the position advances past it and data_size
    // grows to cover it
    ensures r.retval > 0 ==>
      r.retval == Min(|data|, BufferSize - fpos) && r.pos == fpos + r.retval &&
      r.state.buffer == s.buffer[..fpos] + data[..r.retval] + s.buffer[r.pos..] &&
      r.state.dataSize == Max(s.dataSize, r.pos)
    // failure: the position and data_size stay as they were
    ensures r.retval < 0 ==> r.pos == fpos && r.state.dataSize == s.dataSize
    // and the buffer too, except after a faulting user copy
    ensures r.retval == -ERESTARTSYS || r.retval == -ENOSPC ==> r.state == s
    // which can only have touched the bytes the write was aimed at
    ensures r.retval == -EFAULT ==>
      var n := Min(|data|, BufferSize - fpos);
      var u := Min(f.uncopied, n);
      0 < u <= n && fpos + n <= BufferSize &&
      r.state.buffer == s.buffer[..fpos] + data[..n - u] + Zeros(u) + s.buffer[fpos + n..]
  {
    if f.interrupted then WriteResult(-ERESTARTSYS, s, fpos)
    else
      var n := Min(|data|, Room(fpos));
      if n == 0 then WriteResult(-ENOSPC, s, fpos)
      else
        var u := Min(f.uncopied, n);
        var buffer := Overwrite(s.buffer, fpos, data[..n - u] + Zeros(u));
        if u > 0 then WriteResult(-EFAULT, State(buffer, s.dataSize), fpos)
        else WriteResult(n, State(buffer, Max(s.dataSize, fpos + n)), fpos + n)
  }

  /** Echo: after a successful write, reading back as many bytes from the same
      position returns exactly the bytes stored and ends at the same position. */
  lemma WriteThenRead(s: State, fpos: nat, data: seq<Byte>)
    requires s.Valid() && fpos <= BufferSize
    requires WriteSpec(s, fpos, data, NoFaults).retval > 0
    ensures var w := WriteSpec(s, fpos, data, NoFaults);
      ReadSpec(w.state, fpos, w.retval, NoFaults) == ReadResult(w.retval, data[..w.retval], w.pos)
  {
  }

  // ---------------------------------------------------------------------
  // The device object
  // ---------------------------------------------------------------------

  /** struct echodev_data: the buffer and data_size. The mutex is not state
      here: each operation is one atomic step, and an interrupted lock
      acquisition is one of its Faults. */
  class Device {
    var buffer: array<Byte>
    var dataSize: nat

    ghost predicate Valid()
      reads this
    {
      buffer.Length == BufferSize && dataSize <= BufferSize
    }

    ghost function Abs(): State
      reads this, buffer
    {
      State(buffer[..], dataSize)
    }

    /** kzalloc of the device data in echodev_init. */
    constructor Init()
      ensures Valid() && fresh(buffer)
      ensures Abs() == Initial()
    {
      buffer := new Byte[BufferSize](_ => 0);
      dataSize := 0;
      new;
      assert buffer[..] == Zeros(BufferSize);
    }

    /** echodev_read: returns the ssize_t result, the bytes copied to the user
        and the new *f_pos; the device is only read. */
    method Read(fpos: nat, count: nat, f: Faults) returns (retval: int, out: seq<Byte>, newPos: nat)
      requires Valid()
      ensures ReadResult(retval, out, newPos) == ReadSpec(Abs(), fpos, count, f)
    {
      if f.interrupted {
        return -ERESTARTSYS, [], fpos;
      }
      if fpos >= dataSize {
        return 0, [], fpos;
      }
      var n := Min(count, dataSize - fpos);
      // copy_to_user: the bytes before the fault reach the user
      var u := Min(f.uncopied, n);
      out := [];
      var i := 0;
      while i < n - u
        invariant 0 <= i <= n - u
        invariant out == buffer[fpos..fpos + i]
      {
        out := out + [buffer[fpos + i]];
        i := i + 1;
      }
      if u > 0 {
        retval, newPos := -EFAULT, fpos;
      } else {
        retval, newPos := n, fpos + n;
      }
    }

    /** echodev_write: stores (a prefix of) `data` at f_pos and returns the
        ssize_t result and the new *f_pos. */
    method Write(fpos: nat, data: seq<Byte>, f: Faults) returns (retval: int, newPos: nat)
      requires Valid() && fpos <= BufferSize
      modifies this, buffer
      ensures Valid() && buffer == old(buffer)
      ensures WriteResult(retval, Abs(), newPos) == WriteSpec(old(Abs()), fpos, data, f)
    {
      if f.interrupted {
        return -ERESTARTSYS, fpos;
      }
      var count := |data|;
      var room := Room(fpos);
      if count > room {
        count := room;
      }
      if count == 0 {
        return -ENOSPC, fpos;
      }
      // copy_from_user: the bytes before the fault, then zero fill
      var u := Min(f.uncopied, count);
      ghost var chunk := data[..count - u] + Zeros(u);
      var i := 0;
      while i < count
        modifies buffer
        invariant 0 <= i <= count
        invariant forall k :: 0 <= k < BufferSize ==>
          buffer[k] == if fpos <= k < fpos + i then chunk[k - fpos] else old(buffer[k])
      {
        buffer[fpos + i] := if i < count - u then data[i] else 0;
        i := i + 1;
      }
      assert buffer[..] == Overwrite(old(buffer[..]), fpos, chunk);
      if u > 0 {
        return -EFAULT, fpos;
      }
      newPos := fpos + count;
      if newPos > dataSize {
        dataSize := newPos;
      }
      retval := count;
    }
  }
}
