/** The I/O buffer of a TLS connection. Its fields are 16 bits wide, its memory is not. */
module SslBuffer {
  import opened Bytes

  const MAX_CAP: nat := 0xffff
  const ALIGN_PAYLOAD: nat := 8

  /** Adding to a 16-bit field. */
  function Add16(a: nat, b: nat): (c: nat)
    ensures c < 0x1_0000
    ensures a + b < 0x1_0000 ==> c == a + b
  {
    (a + b) % 0x1_0000
  }

  /** The octets of memory from the offset on. */
  function Window(memory: seq<Byte>, offset: nat, size: nat): (s: seq<Byte>)
    requires offset + size <= |memory|
    ensures |s| == size
  {
    memory[offset..offset + size]
  }

  lemma WindowDrops(memory: seq<Byte>, offset: nat, size: nat, len: nat)
    requires offset + size <= |memory| && len <= size
    ensures Window(memory, offset + len, size - len) == Window(memory, offset, size)[len..]
  {
  }

  lemma WindowGrows(was: seq<Byte>, memory: seq<Byte>, offset: nat, size: nat, b: seq<Byte>)
    requires offset + size + |b| <= |memory| == |was|
    requires memory[..offset + size] == was[..offset + size] && memory[offset + size..offset + size + |b|] == b
    ensures Window(memory, offset, size + |b|) == Window(was, offset, size) + b
  {
    assert Window(was, offset, size) == was[..offset + size][offset..];
    assert memory[offset..offset + size] == memory[..offset + size][offset..];
  }

  lemma Add16Small(a: nat, b: nat)
    requires a <= 0xffff && b <= 0xffff
    ensures Add16(a, b) == if a + b < 0x1_0000 then a + b else a + b - 0x1_0000
  {
  }

  /** Copies n octets between two arrays. */
  method CopyOctets(from: array<Byte>, src: nat, to: array<Byte>, dst: nat, n: nat)
    requires from != to && src + n <= from.Length && dst + n <= to.Length
    modifies to
    ensures to[dst..dst + n] == from[src..src + n]
  {
    for i := 0 to n
      invariant to[dst..dst + i] == from[src..src + i]
    {
      to[dst + i] := from[src + i];
    }
  }

  method PutOctets(to: array<Byte>, at: nat, b: seq<Byte>)
    requires at + |b| <= to.Length
    modifies to
    ensures to[..at] == old(to[..at]) && to[at..at + |b|] == b
  {
    for i := 0 to |b|
      invariant to[..at] == old(to[..at]) && to[at..at + i] == b[..i]
    {
      to[at + i] := b[i];
    }
  }

  class SSLBuffer {
    var buf: array?<Byte>
    var offset: nat
    var size: nat
    var cap: nat

    ghost predicate Valid()
      reads this
    {
      && size <= cap <= MAX_CAP && offset <= 0xffff
      && (if buf == null then offset == 0 && cap == 0 else offset + cap <= buf.Length)
    }

    function Data(): (s: seq<Byte>)
      requires Valid()
      reads this, buf
      ensures |s| == size
    {
      if buf == null then [] else Window(buf[..], offset, size)
    }

    /** The offset can reach the end of the capacity without leaving its 16 bits. */
    ghost predicate Roomy()
      reads this
    {
      offset + cap <= 0x1_0000
    }

    constructor ()
      ensures Valid() && Data() == [] && Roomy() && buf == null
    {
      buf := null;
      offset, size, cap := 0, 0, 0;
    }

    method Clear()
      modifies this
      ensures Valid() && Data() == [] && Roomy() && buf == null
    {
      buf := null;
      offset, size, cap := 0, 0, 0;
    }

    /** Makes room for newCap octets. slack is what the address of new memory needs to align the payload. */
    method EnsureCap(slack: nat, newCap: nat) returns (ok: bool)
      requires Valid() && slack < ALIGN_PAYLOAD
      modifies this
      ensures Valid() && Data() == old(Data()) && (ok <==> newCap <= MAX_CAP)
      ensures ok ==> newCap <= cap
      ensures !ok || newCap <= old(cap) ==> buf == old(buf) && offset == old(offset) && cap == old(cap)
      ensures ok && newCap > old(cap) ==> fresh(buf) && offset == slack && cap == newCap
    {
      if newCap > MAX_CAP {
        return false;
      }
      if cap >= newCap {
        return true;
      }
      var newBuf := new Byte[newCap + ALIGN_PAYLOAD - 1];
      if buf != null {
        CopyOctets(buf, offset, newBuf, slack, size);
      }
      buf := newBuf;
      offset, cap := slack, newCap;
      return true;
    }

    /** Copies octets behind the contents. */
    method Append(b: seq<Byte>)
      requires Valid() && |b| <= cap - size
      modifies this`size, buf
      ensures Valid() && Data() == old(Data()) + b
    {
      hide Window;
      if buf != null {
        ghost var was := buf[..];
        PutOctets(buf, offset + size, b);
        WindowGrows(was, buf[..], offset, size, b);
      }
      DidWrite(|b|);
    }

    method DidWrite(newSize: nat)
      requires Valid() && newSize <= cap - size
      modifies this`size
      ensures Valid() && size == old(size) + newSize
    {
      size := size + newSize;
    }

    /** Drops len octets from the front. If the offset leaves its 16 bits, the contents become what lies 0x10000 octets
        before what they should be. */
    method Consume(len: nat)
      requires Valid() && len <= size
      modifies this`offset, this`size, this`cap
      ensures Valid() && size == old(size) - len && cap == old(cap) - len
      ensures offset == Add16(old(offset), len)
      ensures buf != null ==> Data() == Window(buf[..], Add16(old(offset), len), old(size) - len)
      ensures old(offset) + len < 0x1_0000 ==> Data() == old(Data())[len..]
      ensures old(Roomy()) ==> Data() == old(Data())[len..] && Roomy()
    {
      hide Window, Add16;
      Add16Small(offset, len);
      if buf != null {
        WindowDrops(buf[..], offset, size, len);
      }
      offset := Add16(offset, len);
      size := size - len;
      cap := cap - len;
    }

    method DiscardConsumed()
      requires Valid()
      modifies this
      ensures Valid() && Data() == old(Data())
      ensures old(size) == 0 ==> buf == null && Roomy()
    {
      if size == 0 {
        Clear();
      }
    }
  }

  /** A buffer of the largest capacity behind seven octets of alignment: writing all but its last six octets makes the
      offset zero, and the six octets at the start of the memory stand in for those at its end. */
  lemma WrappedWindow(memory: seq<Byte>)
    requires |memory| == 0x1_0006 && memory[0] != memory[0x1_0000]
    ensures Add16(7, 0xfff9) == 0
    ensures Window(memory, Add16(7, 0xfff9), 6) != Window(memory, 7, 0xffff)[0xfff9..]
  {
    assert Window(memory, 0, 6)[0] == memory[0];
    assert Window(memory, 7, 0xffff)[0xfff9..][0] == memory[0x1_0000];
  }

  /** Consuming keeps the rest of the contents in every case, whatever the memory holds, exactly when the offset stays
      within its 16 bits or nothing is left. */
  lemma {:induction false} KeepsRestIff(offset: nat, size: nat, len: nat)
    requires offset <= 0xffff && len <= size <= MAX_CAP
    ensures (forall memory: seq<Byte> :: offset + size <= |memory| ==>
               Window(memory, Add16(offset, len), size - len) == Window(memory, offset, size)[len..])
            <==> (offset + len < 0x1_0000 || len == size)
  {
    if offset + len < 0x1_0000 {
      forall memory: seq<Byte> | offset + size <= |memory|
        ensures Window(memory, Add16(offset, len), size - len) == Window(memory, offset, size)[len..]
      {
      }
    } else if len < size {
      // Memory that holds a one just where the contents should go on.
      var memory: seq<Byte> := seq(offset + size, i => if i == offset + len then 1 else 0);
      assert Window(memory, Add16(offset, len), size - len)[0] == 0;
      assert Window(memory, offset, size)[len..][0] == 1;
    }
  }
}
