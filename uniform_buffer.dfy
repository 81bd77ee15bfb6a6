/** The host-visible uniform buffer of the renderer
    (gears/src/renderer/buffer/uniform.rs): a device buffer bound to one
    block of CPU-visible memory, written by mapping the memory, copying the
    bytes of a slice to its start, flushing and unmapping. */
module UniformBuffers {
  import opened Bytes

  /** The bytes of a slice of `T`, one element after the other. */
  function Flatten(data: seq<seq<byte>>): seq<byte>
    decreases |data|
  {
    if data == [] then [] else data[0] + Flatten(data[1..])
  }

  /** A slice of `|data|` elements of size `s` is `s * |data|` bytes. */
  lemma {:induction false} FlattenLength(data: seq<seq<byte>>, s: nat)
    requires forall i :: 0 <= i < |data| ==> |data[i]| == s
    ensures |Flatten(data)| == s * |data|
    decreases |data|
  {
    if data != [] {
      FlattenLength(data[1..], s);
      assert s * |data| == s + s * (|data| - 1);
    }
  }

  /** Memory `m` after `bytes` are copied to its start. */
  function Written(m: seq<byte>, bytes: seq<byte>): (r: seq<byte>)
    requires |bytes| <= |m|
    ensures |r| == |m|
    ensures forall j :: 0 <= j < |bytes| ==> r[j] == bytes[j]
    ensures forall j :: |bytes| <= j < |m| ==> r[j] == m[j]
  {
    bytes + m[|bytes|..]
  }

  /** Copying the same bytes a second time changes nothing. */
  lemma WrittenIdempotent(m: seq<byte>, bytes: seq<byte>)
    requires |bytes| <= |m|
    ensures Written(Written(m, bytes), bytes) == Written(m, bytes)
  {
  }

  /** What `write` does to the device memory, in order. */
  datatype MemoryEvent = Map | Copy(bytes: nat) | Flush | Unmap | Free

  /** The device buffer handle; the device calls on it are not modelled. */
  class DeviceBuffer {
    constructor () {}
  }

  class UniformBuffer {
    /** The buffer size in bytes, fixed at creation. */
    const len: nat
    /** The number of elements of the last write. */
    var count: nat
    const buffer: DeviceBuffer
    /** The bound memory block. */
    const memory: array<byte>
    ghost var mapped: bool
    ghost var destroyed: bool
    ghost var events: seq<MemoryEvent>

    ghost predicate Valid() {
      memory.Length == len
    }

    /** `UniformBuffer::new(size)`: a buffer and memory block of `size`
        bytes, nothing written yet. */
    constructor (size: nat)
      ensures Valid()
      ensures len == size && count == 0
      ensures !mapped && !destroyed && events == []
      ensures fresh(memory) && fresh(buffer)
    {
      len := size;
      count := 0;
      buffer := new DeviceBuffer();
      memory := new byte[size];
      mapped := false;
      destroyed := false;
      events := [];
    }

    /** `write(offset, data)` for a slice of `|data|` elements of `s` bytes
        each. The memory is mapped and `count` set before the bound check;
        when `offset + s * |data|` exceeds the size the call panics
        (`ok == false`): nothing is copied and the memory stays mapped.
        Otherwise the slice's bytes are copied to the START of the memory
        (the offset only enters the check), the mapping is flushed and
        unmapped. */
    method Write(s: nat, offset: nat, data: seq<seq<byte>>) returns (ok: bool)
      requires Valid() && !destroyed && !mapped
      requires forall i :: 0 <= i < |data| ==> |data[i]| == s
      modifies this, memory
      ensures Valid() && !destroyed
      ensures count == |data|
      ensures ok <==> offset + s * |data| <= len
      ensures ok ==> |Flatten(data)| == s * |data| <= len && memory[..] == Written(old(memory[..]), Flatten(data))
      ensures ok ==> !mapped && events == old(events) + [Map, Copy(s * |data|), Flush, Unmap]
      ensures !ok ==> mapped && memory[..] == old(memory[..]) && events == old(events) + [Map]
    {
      mapped := true;
      events := events + [Map];
      count := |data|;
      if offset + s * count > len {
        return false;
      }
      FlattenLength(data, s);
      var bytes := Flatten(data);
      for i := 0 to |bytes|
        modifies memory
        invariant forall j :: 0 <= j < i ==> memory[j] == bytes[j]
        invariant forall j :: i <= j < memory.Length ==> memory[j] == old(memory[j])
      {
        memory[i] := bytes[i];
      }
      assert memory[..] == Written(old(memory[..]), bytes);
      events := events + [Copy(|bytes|)];
      events := events + [Flush];
      events := events + [Unmap];
      mapped := false;
      ok := true;
    }

    /** `count()`: the element count of the last write. */
    method Count() returns (c: nat)
      requires !destroyed
      ensures c == count
    {
      c := count;
    }

    /** `get()`: the device buffer. */
    method Get() returns (b: DeviceBuffer)
      requires !destroyed
      ensures b == buffer
    {
      b := buffer;
    }

    /** `destroy`: frees the memory and the buffer; the buffer is consumed. */
    method Destroy()
      requires !destroyed
      modifies this
      ensures destroyed && events == old(events) + [Free]
      ensures count == old(count) && mapped == old(mapped)
    {
      destroyed := true;
      events := events + [Free];
    }
  }

  /** Writing the same slice twice leaves the count and memory of writing it
      once. */
  method WriteTwice(b: UniformBuffer, s: nat, offset: nat, data: seq<seq<byte>>) returns (ok1: bool, ok2: bool)
    requires b.Valid() && !b.destroyed && !b.mapped
    requires forall i :: 0 <= i < |data| ==> |data[i]| == s
    requires offset + s * |data| <= b.len
    modifies b, b.memory
    ensures ok1 && ok2 && b.count == |data|
    ensures |Flatten(data)| <= b.len
    ensures b.memory[..] == Written(old(b.memory[..]), Flatten(data))
  {
    ok1 := b.Write(s, offset, data);
    ghost var once := b.memory[..];
    ok2 := b.Write(s, offset, data);
    FlattenLength(data, s);
    WrittenIdempotent(old(b.memory[..]), Flatten(data));
  }
}
