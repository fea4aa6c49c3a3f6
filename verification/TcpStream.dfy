/** The byte buffer of httptest-geektime/lib/buffer.c and the sender of
    httptest-geektime/lib/tcp_connection.c that drains it through short writes. */
module TcpStream {
  import opened Bits

  const INIT_BUFFER_SIZE: nat := 65536

  /** struct buffer; total_size is the length of `data`. */
  class Buffer {
    var data: array<Byte>
    var readIndex: nat
    var writeIndex: nat

    /** buffer_new. */
    constructor ()
      ensures Valid() && fresh(data) && Readable() == []
    {
      data := new Byte[INIT_BUFFER_SIZE](_ => 0);
      readIndex, writeIndex := 0, 0;
    }

    ghost predicate Valid()
      reads this
    {
      readIndex <= writeIndex <= data.Length
    }

    /** The bytes between the two indices. */
    ghost function Readable(): seq<Byte>
      requires Valid()
      reads this, data
    {
      data[readIndex..writeIndex]
    }

    function ReadableSize(): nat
      requires Valid()
      reads this, data
      ensures ReadableSize() == |Readable()|
    {
      writeIndex - readIndex
    }

    function WriteableSize(): nat
      requires Valid()
      reads this
    {
      data.Length - writeIndex
    }

    /** The forward byte copy of make_room: source and target overlap. */
    method Compact()
      requires Valid()
      modifies this, data
      ensures Valid() && data == old(data) && readIndex == 0
      ensures Readable() == old(Readable())
    {
      var readable := writeIndex - readIndex;
      ghost var was := data[..];
      for i := 0 to readable
        invariant unchanged(this)
        invariant data[..i] == was[readIndex..readIndex + i]
        invariant data[readIndex + i..] == was[readIndex + i..]
      {
        assert data[readIndex + i] == data[readIndex + i..][0] == was[readIndex + i];
        data[i] := data[readIndex + i];
        assert data[readIndex + i + 1..] == was[readIndex + i + 1..] by {
          assert forall k :: readIndex + i < k < data.Length ==> data[k] == was[k];
        }
      }
      readIndex := 0;
      writeIndex := readable;
    }

    /** make_room: nothing, compaction in place, or growth by realloc, which may fail without a word. */
    method MakeRoom(size: nat, ok: bool)
      requires Valid()
      modifies this, data
      ensures Valid() && Readable() == old(Readable())
      ensures WriteableSize() >= size <==> ok || old(readIndex + WriteableSize()) >= size
      ensures WriteableSize() < size || old(WriteableSize()) >= size ==> unchanged(this) && unchanged(data)
      ensures old(WriteableSize()) < size <= old(readIndex + WriteableSize()) ==> data == old(data) && readIndex == 0
      ensures old(readIndex + WriteableSize()) < size && ok ==>
        data.Length == old(data.Length) + size && readIndex == old(readIndex)
      ensures data == old(data) || fresh(data)
    {
      if WriteableSize() >= size {
        return;
      }
      if readIndex + WriteableSize() >= size {
        Compact();
      } else if ok {
        Grow(size);
      }
    }

    /** realloc to a greater size. */
    method Grow(size: nat)
      requires Valid()
      modifies this`data
      ensures Valid() && fresh(data) && data.Length == old(data.Length) + size && Readable() == old(Readable())
    {
      ghost var was := data[..];
      var tmp := new Byte[data.Length + size](_ => 0);
      for i := 0 to data.Length
        invariant unchanged(this) && data[..] == was
        invariant tmp[..i] == was[..i]
      {
        tmp[i] := data[i];
      }
      assert tmp[..|was|] == was;
      SameSlice(tmp[..], was, readIndex, writeIndex);
      data := tmp;
    }

    /** A memcpy behind the written bytes. */
    method CopyIn(bytes: seq<Byte>)
      requires Valid() && |bytes| <= WriteableSize()
      modifies this`writeIndex, data
      ensures Valid() && Readable() == old(Readable()) + bytes
    {
      ghost var before := Readable();
      for i := 0 to |bytes|
        invariant unchanged(this)
        invariant data[readIndex..writeIndex] == before && data[writeIndex..writeIndex + i] == bytes[..i]
      {
        data[writeIndex + i] := bytes[i];
      }
      TwoSlices(data[..], readIndex, writeIndex, writeIndex + |bytes|);
      writeIndex := writeIndex + |bytes|;
    }

    /** buffer_append. When there is no room and realloc fails, the memcpy writes past the end. */
    method Append(bytes: seq<Byte>, ok: bool)
      requires Valid() && (ok || |bytes| <= readIndex + WriteableSize())
      modifies this, data
      ensures Valid() && Readable() == old(Readable()) + bytes
      ensures data == old(data) || fresh(data)
    {
      MakeRoom(|bytes|, ok);
      CopyIn(bytes);
    }

    /** buffer_socket_read: readv fails, or fills the free space first and a spare block after it. */
    method SocketRead(ok: bool, incoming: seq<Byte>) returns (result: int)
      requires Valid() && |incoming| <= WriteableSize() + INIT_BUFFER_SIZE
      modifies this, data
      ensures Valid() && Readable() == old(Readable()) + (if ok then incoming else [])
      ensures result == if ok then |incoming| else -1
      ensures data == old(data) || fresh(data)
    {
      if !ok {
        return -1;
      }
      var room := WriteableSize();
      if |incoming| <= room {
        CopyIn(incoming);
      } else {
        ghost var before := Readable();
        CopyIn(incoming[..room]);
        Append(incoming[room..], true);
        assert before + incoming[..room] + incoming[room..] == before + incoming;
      }
      result := |incoming|;
    }

    /** What handle_write does to the indices after `count` bytes were taken. */
    method Consume(count: nat)
      requires Valid() && count <= ReadableSize()
      modifies this`readIndex
      ensures Valid() && Readable() == old(Readable())[count..]
    {
      readIndex := readIndex + count;
    }
  }

  lemma TwoSlices(d: seq<Byte>, i: nat, j: nat, k: nat)
    requires i <= j <= k <= |d|
    ensures d[i..k] == d[i..j] + d[j..k]
  {}

  lemma SameSlice(t: seq<Byte>, d: seq<Byte>, i: nat, j: nat)
    requires i <= j <= |d| <= |t| && t[..|d|] == d
    ensures t[i..j] == d[i..j]
  {
    assert forall k :: 0 <= k < |d| ==> t[k] == t[..|d|][k] == d[k];
  }

  /** The part of struct tcp_connection that sends, with the write interest of its channel. */
  class Connection {
    const output: Buffer
    var writeEnabled: bool
    ghost var wire: seq<Byte>      // bytes that write() has accepted
    ghost var stream: seq<Byte>    // bytes handed over for sending

    constructor ()
      ensures Valid() && fresh(output) && fresh(output.data)
      ensures wire == stream == [] && !writeEnabled
    {
      output := new Buffer();
      writeEnabled := false;
      wire, stream := [], [];
    }

    /** Bytes on the wire, followed by the bytes still buffered, are the bytes handed over; the write
        event is enabled exactly while bytes are buffered. */
    ghost predicate Valid()
      reads this, output, output.data
    {
      && output.Valid()
      && wire + output.Readable() == stream
      && (writeEnabled <==> output.Readable() != [])
    }

    /** tcp_connection_send_data. `answer` is what write() returns when it is called: a count up to the
        size, or -1. That answer is kept in an unsigned variable, so -1 is taken for a success: one
        byte too many counts as left, and the copy starts at `before`, the byte in front of the data. */
    method SendData(data: seq<Byte>, before: Byte, answer: int) returns (written: int)
      requires Valid() && -1 <= answer <= |data|
      modifies this, output, output.data
      ensures Valid() && (output.data == old(output.data) || fresh(output.data))
      ensures stream == old(stream) + (if !old(writeEnabled) && answer < 0 then [before] + data else data)
      ensures wire == old(wire) + if !old(writeEnabled) && answer > 0 then data[..answer] else []
      ensures written == if old(writeEnabled) then 0 else answer
    {
      written := 0;
      var rest := data;
      if !writeEnabled && output.ReadableSize() == 0 {
        written := answer;
        if answer >= 0 {
          rest := data[answer..];
          wire := wire + data[..answer];
          assert data[..answer] + data[answer..] == data;
        } else {
          rest := [before] + data;
        }
      }
      if |rest| > 0 {
        output.Append(rest, true);
        writeEnabled := true;
      }
      stream := wire + output.Readable();
    }

    /** tcp_connection_send_buffer. */
    method SendBuffer(b: Buffer, before: Byte, answer: int) returns (written: int)
      requires Valid() && b.Valid() && b != output && b.data != output.data && -1 <= answer <= b.ReadableSize()
      modifies this, output, output.data, b`readIndex
      ensures Valid() && b.Valid() && b.Readable() == []
      ensures stream == old(stream) +
        (if !old(writeEnabled) && answer < 0 then [before] + old(b.Readable()) else old(b.Readable()))
      ensures wire == old(wire) + if !old(writeEnabled) && answer > 0 then old(b.Readable())[..answer] else []
    {
      var size := b.ReadableSize();
      written := SendData(b.data[b.readIndex..b.writeIndex], before, answer);
      b.readIndex := b.readIndex + size;
    }

    /** handle_write: offer everything that is buffered; `answer` is what write() returns. */
    method HandleWrite(answer: int)
      requires Valid() && -1 <= answer <= output.ReadableSize()
      modifies this, output`readIndex
      ensures Valid() && stream == old(stream)
      ensures wire == old(wire) + if answer > 0 then old(output.Readable())[..answer] else []
    {
      if answer > 0 {
        ghost var r := output.Readable();
        output.Consume(answer);
        wire := wire + r[..answer];
        assert r == r[..answer] + r[answer..];
        if output.ReadableSize() == 0 {
          writeEnabled := false;
        }
      }
    }
  }

  // ---- whole runs ----

  /** One call on a connection, with the answer of write(). */
  datatype Op = Send(data: seq<Byte>, before: Byte, answer: int) | Writable(answer: int)

  /** write() fails, or accepts at most what it is offered. */
  function Accepted(answer: int, size: nat): (n: int)
    ensures -1 <= n <= size
  {
    if answer < 0 then -1 else if answer <= size then answer else size
  }

  /** What has left, and what waits. */
  datatype Line = Line(wire: seq<Byte>, waiting: seq<Byte>)

  function Step(l: Line, op: Op): Line {
    match op
    case Send(data, before, answer) =>
      if l.waiting != [] then Line(l.wire, l.waiting + data)
      else
        var n := Accepted(answer, |data|);
        if n < 0 then Line(l.wire, [before] + data) else Line(l.wire + data[..n], data[n..])
    case Writable(answer) =>
      var n := Accepted(answer, |l.waiting|);
      if n < 0 then l else Line(l.wire + l.waiting[..n], l.waiting[n..])
  }

  function Run(ops: seq<Op>): Line {
    if ops == [] then Line([], []) else Step(Run(ops[..|ops| - 1]), ops[|ops| - 1])
  }

  /** The caller's bytes, one call after the other. */
  function Given(ops: seq<Op>): seq<Byte> {
    if ops == [] then [] else
      Given(ops[..|ops| - 1]) + (if ops[|ops| - 1].Send? then ops[|ops| - 1].data else [])
  }

  /** A send that finds nothing waiting calls write(), and write() fails. */
  predicate Fails(l: Line, op: Op) { op.Send? && l.waiting == [] && op.answer < 0 }

  ghost predicate NoFailure(ops: seq<Op>) {
    forall i :: 0 <= i < |ops| ==> !Fails(Run(ops[..i]), ops[i])
  }

  lemma NoFailureSnoc(ops: seq<Op>)
    requires ops != []
    ensures var n := |ops| - 1; NoFailure(ops) <==> NoFailure(ops[..n]) && !Fails(Run(ops[..n]), ops[n])
  {
    hide Fails, Run;
    var n := |ops| - 1;
    var front := ops[..n];
    assert forall i :: 0 <= i < n ==> front[..i] == ops[..i] && front[i] == ops[i];
  }

  lemma StepConserves(l: Line, op: Op)
    ensures var l' := Step(l, op); var data := if op.Send? then op.data else [];
      if Fails(l, op) then |l'.wire| + |l'.waiting| == |l.wire| + |l.waiting| + |data| + 1
      else l'.wire + l'.waiting == l.wire + l.waiting + data
  {
    match op
    case Send(data, _, answer) =>
      if l.waiting == [] && answer >= 0 {
        var n := Accepted(answer, |data|);
        assert data[..n] + data[n..] == data;
      }
    case Writable(answer) =>
      var n := Accepted(answer, |l.waiting|);
      if n >= 0 {
        assert l.waiting[..n] + l.waiting[n..] == l.waiting;
      }
  }

  /** Conservation over every run of sends and short writes: the bytes on the wire, followed by the
      bytes that wait, are the caller's bytes in order if and only if no send met a failing write(). */
  lemma {:induction false} ConservedIff(ops: seq<Op>)
    ensures Run(ops).wire + Run(ops).waiting == Given(ops) <==> NoFailure(ops)
    ensures |Run(ops).wire + Run(ops).waiting| >= |Given(ops)|
  {
    if ops != [] {
      var n := |ops| - 1;
      ConservedIff(ops[..n]);
      NoFailureSnoc(ops);
      StepConserves(Run(ops[..n]), ops[n]);
      LastGiven(ops);
      hide Step, Fails, NoFailure;
      var l, l', given := Run(ops[..n]), Run(ops), Given(ops[..n]);
      var data := if ops[n].Send? then ops[n].data else [];
      assert Given(ops) == given + data;
      if !Fails(l, ops[n]) {
        Cancel(l.wire + l.waiting, given, data);
        assert |l'.wire + l'.waiting| == |l.wire + l.waiting| + |data|;
      }
    }
  }

  lemma LastGiven(ops: seq<Op>)
    requires ops != []
    ensures Run(ops) == Step(Run(ops[..|ops| - 1]), ops[|ops| - 1])
    ensures Given(ops) == Given(ops[..|ops| - 1]) + if ops[|ops| - 1].Send? then ops[|ops| - 1].data else []
  {}

  lemma Cancel(a: seq<Byte>, b: seq<Byte>, data: seq<Byte>)
    ensures a + data == b + data <==> a == b
  {
    if a + data == b + data {
      assert |a| == |b|;
      assert a == (a + data)[..|a|] && b == (b + data)[..|b|];
    }
  }

  /** Any sequence of calls on a connection does what the run says; the write event is enabled exactly
      while bytes wait, so once it is off everything is on the wire. */
  method Transmit(c: Connection, ops: seq<Op>)
    requires c.Valid() && c.stream == []
    modifies c, c.output, c.output.data
    ensures c.Valid() && Line(c.wire, c.output.Readable()) == Run(ops)
    ensures c.writeEnabled <==> Run(ops).waiting != []
    ensures NoFailure(ops) ==> c.wire + c.output.Readable() == Given(ops)
    ensures NoFailure(ops) && !c.writeEnabled ==> c.wire == Given(ops)
  {
    assert c.wire == [] && c.output.Readable() == [];
    for i := 0 to |ops|
      invariant c.Valid() && Line(c.wire, c.output.Readable()) == Run(ops[..i])
      invariant c.output.data == old(c.output.data) || fresh(c.output.data)
    {
      assert ops[..i + 1][..i] == ops[..i];
      Call(c, ops[i]);
    }
    assert ops[..|ops|] == ops;
    ConservedIff(ops);
  }

  method Call(c: Connection, op: Op)
    requires c.Valid()
    modifies c, c.output, c.output.data
    ensures c.Valid() && Line(c.wire, c.output.Readable()) == Step(old(Line(c.wire, c.output.Readable())), op)
    ensures c.output.data == old(c.output.data) || fresh(c.output.data)
  {
    ghost var l := Line(c.wire, c.output.Readable());
    match op {
      case Send(data, before, answer) =>
        var n := Accepted(answer, |data|);
        var written := c.SendData(data, before, n);
        SameTail(c.wire, c.output.Readable(), Step(l, op).waiting);
      case Writable(answer) =>
        c.HandleWrite(Accepted(answer, c.output.ReadableSize()));
        SameTail(c.wire, c.output.Readable(), Step(l, op).waiting);
    }
  }

  lemma SameTail(a: seq<Byte>, b: seq<Byte>, b': seq<Byte>)
    ensures a + b == a + b' <==> b == b'
  {
    if a + b == a + b' {
      assert b == (a + b)[|a|..] && b' == (a + b')[|a|..];
    }
  }
}
