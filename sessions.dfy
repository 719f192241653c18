/** The device seen through the files opened on it: echodev_init creates the
    one shared device, echodev_open binds each new file to it (the file
    position starts at 0), and every read and write runs at the position of
    the file it is issued on (w4/echodev.c). */
module Sessions {
  import opened EchoDev

  /** One call into the driver. `file` names an open file by the order in
      which it was opened; a call on a file that was never opened is refused
      before the driver is reached and changes nothing. */
  datatype Call =
    | Open
    | Read(file: nat, count: nat, f: Faults)
    | Write(file: nat, data: seq<Byte>, f: Faults)

  /** The shared device and the position of every open file. */
  datatype System = System(dev: State, pos: seq<nat>)

  /** Every file position lies within the stored data, which lies within the
      buffer: so every write the driver receives meets the bound it relies on. */
  predicate Inv(sys: System) {
    sys.dev.Valid() && forall i :: 0 <= i < |sys.pos| ==> sys.pos[i] <= sys.dev.dataSize
  }

  /** The system after echodev_init: the zeroed device and no open file. */
  function Boot(): (sys: System)
    ensures Inv(sys) && sys.dev.dataSize == 0 && sys.pos == []
  {
    System(Initial(), [])
  }

  /** One call: reads and writes go through ReadSpec and WriteSpec at the
      file's position and store the position they return. */
  function Step(sys: System, c: Call): (r: System)
    requires Inv(sys)
    ensures Inv(r)
    ensures r.dev.dataSize >= sys.dev.dataSize
    ensures |r.pos| == |sys.pos| + (if c.Open? then 1 else 0)
    // a read never changes the device
    ensures c.Read? ==> r.dev == sys.dev
    // open starts the new file at position 0
    ensures c.Open? ==> r == System(sys.dev, sys.pos + [0])
  {
    match c
    case Open =>
      System(sys.dev, sys.pos + [0])
    case Read(i, count, f) =>
      if i < |sys.pos| then
        System(sys.dev, sys.pos[i := ReadSpec(sys.dev, sys.pos[i], count, f).pos])
      else sys
    case Write(i, data, f) =>
      if i < |sys.pos| then
        var w := WriteSpec(sys.dev, sys.pos[i], data, f);
        System(w.state, sys.pos[i := w.pos])
      else sys
  }

  /** A sequence of calls, one after another (the driver's lock makes each one
      atomic). */
  function Run(sys: System, calls: seq<Call>): (r: System)
    requires Inv(sys)
    ensures Inv(r)
    ensures r.dev.dataSize >= sys.dev.dataSize
    ensures |r.pos| >= |sys.pos|
    decreases |calls|
  {
    if calls == [] then sys else Run(Step(sys, calls[0]), calls[1..])
  }

  /** Whatever calls are made after echodev_init, every file position and
      data_size stay within BUFFER_SIZE. */
  lemma Reachable(calls: seq<Call>)
    ensures var sys := Run(Boot(), calls);
      sys.dev.dataSize <= BufferSize &&
      forall i :: 0 <= i < |sys.pos| ==> sys.pos[i] <= BufferSize
  {
  }

  /** The concatenation of the chunks of a sequence of writes. */
  function Concat(chunks: seq<seq<Byte>>): seq<Byte> {
    if chunks == [] then [] else chunks[0] + Concat(chunks[1..])
  }

  /** Fault-free writes of `chunks`, in order, on file `file`. */
  function Writes(file: nat, chunks: seq<seq<Byte>>): (calls: seq<Call>)
    ensures |calls| == |chunks|
    ensures forall k :: 0 <= k < |chunks| ==> calls[k] == Write(file, chunks[k], NoFaults)
  {
    if chunks == [] then [] else [Write(file, chunks[0], NoFaults)] + Writes(file, chunks[1..])
  }

  /** One fault-free write on a file at the end of the data appends the chunk
      when it fits (an empty chunk is refused with -ENOSPC and changes nothing). */
  lemma AppendOne(sys: System, file: nat, c: seq<Byte>)
    requires Inv(sys) && file < |sys.pos| && sys.pos[file] == sys.dev.dataSize
    requires sys.dev.dataSize + |c| <= BufferSize
    ensures var next := Step(sys, Write(file, c, NoFaults));
      |next.pos| == |sys.pos| &&
      next.dev.dataSize == sys.dev.dataSize + |c| &&
      next.pos[file] == next.dev.dataSize &&
      next.dev.buffer[..next.dev.dataSize] == sys.dev.buffer[..sys.dev.dataSize] + c
    // the write reports the whole chunk, or -ENOSPC for an empty one
    ensures WriteSpec(sys.dev, sys.pos[file], c, NoFaults).retval ==
      if c == [] then -ENOSPC else |c|
    // an empty chunk leaves the whole system as it was
    ensures c == [] ==> Step(sys, Write(file, c, NoFaults)) == sys
    // no other file moves
    ensures var next := Step(sys, Write(file, c, NoFaults));
      forall i :: 0 <= i < |sys.pos| && i != file ==> next.pos[i] == sys.pos[i]
  {
  }

  /** Writes on a file positioned at the end of the data append: when the
      chunks fit, each is stored whole, in order, right after the data already
      there, and the file ends at the new end of the data. */
  lemma {:induction false} WritesAppend(sys: System, file: nat, chunks: seq<seq<Byte>>)
    requires Inv(sys) && file < |sys.pos| && sys.pos[file] == sys.dev.dataSize
    requires sys.dev.dataSize + |Concat(chunks)| <= BufferSize
    ensures var r := Run(sys, Writes(file, chunks));
      |r.pos| == |sys.pos| &&
      r.dev.dataSize == sys.dev.dataSize + |Concat(chunks)| &&
      r.pos[file] == r.dev.dataSize &&
      r.dev.buffer[..r.dev.dataSize] == sys.dev.buffer[..sys.dev.dataSize] + Concat(chunks)
    decreases |chunks|
  {
    if chunks != [] {
      var c := chunks[0];
      assert |Concat(chunks)| == |c| + |Concat(chunks[1..])|;
      var next := Step(sys, Write(file, c, NoFaults));
      AppendOne(sys, file, c);
      assert Writes(file, chunks)[1..] == Writes(file, chunks[1..]);
      WritesAppend(next, file, chunks[1..]);
      assert sys.dev.buffer[..sys.dev.dataSize] + c + Concat(chunks[1..])
          == sys.dev.buffer[..sys.dev.dataSize] + Concat(chunks);
    }
  }

  /** Echo: open a file on the freshly loaded device, write chunks through it,
      and a file opened afterwards reads back exactly what was written. */
  lemma {:induction false} EchoAfterBoot(chunks: seq<seq<Byte>>, count: nat)
    requires |Concat(chunks)| <= BufferSize
    requires count >= |Concat(chunks)|
    ensures var sys := Run(Boot(), [Open] + Writes(0, chunks) + [Open]);
      |sys.pos| == 2 && sys.pos[1] == 0 &&
      ReadSpec(sys.dev, 0, count, NoFaults).retval == |Concat(chunks)| &&
      ReadSpec(sys.dev, 0, count, NoFaults).delivered == Concat(chunks)
  {
    var afterOpen := Step(Boot(), Open);
    assert afterOpen.pos == [0];
    RunAppend(Boot(), [Open], Writes(0, chunks));
    RunAppend(Boot(), [Open] + Writes(0, chunks), [Open]);
    assert Run(Boot(), [Open]) == Run(afterOpen, []);
    WritesAppend(afterOpen, 0, chunks);
    var written := Run(afterOpen, Writes(0, chunks));
    assert written.dev.buffer[..written.dev.dataSize] == Concat(chunks);
    assert Run(written, [Open]) == Step(written, Open);
  }

  /** Running two call sequences one after the other is running their
      concatenation. */
  lemma {:induction false} RunAppend(sys: System, a: seq<Call>, b: seq<Call>)
    requires Inv(sys)
    ensures Run(sys, a + b) == Run(Run(sys, a), b)
    decreases |a|
  {
    if a != [] {
      assert (a + b)[0] == a[0] && (a + b)[1..] == a[1..] + b;
      RunAppend(Step(sys, a[0]), a[1..], b);
    } else {
      assert a + b == b;
    }
  }
}
