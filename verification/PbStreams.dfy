/** The output stream of the encoder: a buffer with a limit, or a stream that only counts. */
module PbStreams {
  import opened Bytes

  /** What a stream amounts to: the octets before the write position, those of the buffer behind it, and the room left. */
  datatype View = Room(sizing: bool, written: nat, limit: nat, out: seq<Byte>, behind: seq<Byte>)

  predicate Fits(v: View, n: nat) {
    v.sizing || v.written + n <= v.limit
  }

  predicate Sound(v: View) {
    v.sizing || (v.written <= v.limit && v.limit - v.written <= |v.behind|)
  }

  /** The stream after e has been written to it. */
  function Put(v: View, e: seq<Byte>): (r: View)
    requires Sound(v) && Fits(v, |e|)
    ensures Sound(r)
  {
    if v.sizing then v.(written := v.written + |e|)
    else v.(written := v.written + |e|, out := v.out + e, behind := v.behind[|e|..])
  }

  /** A step of encoding that is to write e, or to fail if there is nothing to write: it succeeds exactly when there is
      something and the room left takes all of it, and has then written exactly that. Either way what was written before
      stays. */
  ghost predicate Done(before: View, e: Option<seq<Byte>>, ok: bool, after: View) {
    && Sound(before)
    && (ok <==> e.Some? && Fits(before, |e.value|))
    && (ok ==> after == Put(before, e.value))
    && after.sizing == before.sizing && after.limit == before.limit && Sound(after)
    && before.out <= after.out
  }

  /** One step after another. */
  lemma DoneBoth(v0: View, a: seq<Byte>, v1: View, b: Option<seq<Byte>>, ok: bool, v2: View)
    requires Done(v0, Some(a), true, v1) && Done(v1, b, ok, v2)
    ensures Done(v0, if b.Some? then Some(a + b.value) else None, ok, v2)
  {
    if ok {
      assert (v0.out + a) + b.value == v0.out + (a + b.value);
      assert !v0.sizing ==> v0.behind[|a|..][|b.value|..] == v0.behind[|a + b.value|..];
    }
  }

  /** Failing to write a first part of the whole is failing to write the whole. */
  lemma PartFails(v0: View, part: Option<seq<Byte>>, v1: View, whole: Option<seq<Byte>>)
    requires Done(v0, part, false, v1)
    requires whole.Some? ==> part.Some? && |part.value| <= |whole.value|
    ensures Done(v0, whole, false, v1)
  {
  }

  lemma NothingDone(v: View)
    requires Sound(v)
    ensures Done(v, Some([]), true, v)
  {
    assert v.out + [] == v.out;
  }

  class OStream {
    const sizing: bool
    const buf: array<Byte>
    const maxSize: nat
    var state: nat
    var bytesWritten: nat

    ghost predicate Valid()
      reads this
    {
      && state <= buf.Length
      && (!sizing ==> bytesWritten <= maxSize && state + (maxSize - bytesWritten) <= buf.Length)
    }

    ghost function View(): (v: View)
      requires Valid()
      reads this, buf
      ensures Sound(v)
    {
      Room(sizing, bytesWritten, maxSize, buf[..state], buf[state..])
    }

    /** A stream that only counts. */
    constructor Sizing()
      ensures Valid() && fresh(buf)
      ensures View() == Room(true, 0, 0, [], [])
    {
      sizing := true;
      buf := new Byte[0];
      maxSize := 0;
      state := 0;
      bytesWritten := 0;
    }

    constructor FromBuffer(buffer: array<Byte>, at: nat, size: nat)
      requires at + size <= buffer.Length
      ensures Valid() && buf == buffer
      ensures View() == Room(false, 0, size, buffer[..at], buffer[at..])
    {
      sizing := false;
      buf := buffer;
      maxSize := size;
      state := at;
      bytesWritten := 0;
    }

    method BufWrite(b: seq<Byte>)
      requires Valid() && state + |b| <= buf.Length
      modifies this`state, buf
      ensures state == old(state) + |b|
      ensures buf[..] == old(buf[..])[..old(state)] + b + old(buf[..])[state..]
    {
      var dest := state;
      state := state + |b|;
      ghost var was := buf[..];
      for i := 0 to |b|
        invariant state == dest + |b|
        invariant buf[..] == was[..dest] + b[..i] + was[dest + i..]
      {
        buf[dest + i] := b[i];
        assert b[..i + 1] == b[..i] + [b[i]];
      }
      assert b[..|b|] == b;
    }

    method Write(b: seq<Byte>) returns (ok: bool)
      requires Valid()
      modifies this`state, this`bytesWritten, buf
      ensures Valid() && Done(old(View()), Some(b), ok, View())
    {
      ghost var before := View();
      if !sizing {
        if bytesWritten + |b| > maxSize {
          return false;
        }
        ghost var was, at := buf[..], state;
        BufWrite(b);
        assert buf[..state] == was[..at] + b;
        assert buf[state..] == was[at..][|b|..];
      }
      bytesWritten := bytesWritten + |b|;
      return true;
    }

    /** Writing without data: a stream that only counts does not look at it. e stands for what would be written. */
    method Count(n: nat, ghost e: seq<Byte>) returns (ok: bool)
      requires Valid() && sizing && |e| == n
      modifies this`state, this`bytesWritten
      ensures Valid() && Done(old(View()), Some(e), ok, View())
    {
      bytesWritten := bytesWritten + n;
      return true;
    }
  }
}
