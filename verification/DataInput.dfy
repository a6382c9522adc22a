/** The reading cursor of the codec: a position in a byte buffer and a counter of the bytes
    asked for so far, which callers use to find where a record ends. */
module DataInput {
  import opened ByteCodec

  /** The outcome of a read: running out of bytes, or a length no buffer can have, is an error. */
  datatype Result<+T> = Ok(value: T) | Err {
    predicate IsFailure() { Err? }

    function PropagateFailure<U>(): Result<U>
      requires Err?
    {
      Err
    }

    function Extract(): T
      requires Ok?
    {
      value
    }
  }

  function DecBool(s: Bytes): (r: Parse<bool>)
    ensures r.Got? ==> |r.rest| < |s|
  {
    if s == [] then Fail else Got(s[0] != 0, s[1..])
  }

  lemma OneByteReads(s: Bytes)
    ensures s == [] ==> DecSigned(s, 1).Fail?
    ensures s != [] ==> DecSigned(s, 1) == Got(Signed8(s[0]), s[1..])
  {
    assert s != [] ==> SignedBE(s[..1]) == Signed8(s[0]);
  }

  class DataInputX {
    const buf: Bytes
    var pos: nat
    var offset: nat

    ghost predicate Valid()
      reads this
    {
      pos <= |buf|
    }

    /** The bytes still to be read. */
    ghost function Rest(): Bytes
      requires Valid()
      reads this
    {
      buf[pos..]
    }

    /** The read behaved like the decoder outcome p: on success it returned p's value, left p's
        remaining bytes, and the offset counter moved by the number of bytes consumed. */
    twostate predicate Reads<T>(new r: Result<T>, new p: Parse<T>)
      requires old(Valid())
      reads this
    {
      && Valid()
      && (p.Fail? ==> r == Err)
      && (p.Got? ==>
            && r == Ok(p.value)
            && Rest() == p.rest
            && offset - old(offset) == |old(Rest())| - |p.rest|)
    }

    constructor FromBytes(bytes: Bytes)
      ensures Valid() && Rest() == bytes && buf == bytes && offset == 0
    {
      buf := bytes;
      pos := 0;
      offset := 0;
    }

    method Available() returns (n: nat)
      requires Valid()
      ensures n == |Rest()|
    {
      n := if pos >= |buf| then 0 else |buf| - pos;
    }

    /** `read_n`: the counter moves even when the bytes run out. */
    method ReadN(len: nat) returns (r: Result<Bytes>)
      requires Valid()
      modifies this
      ensures Reads(r, Take(old(Rest()), len))
      ensures offset == old(offset) + len
    {
      offset := offset + len;
      if pos + len <= |buf| {
        assert Rest()[..len] == buf[pos..pos + len] && Rest()[len..] == buf[pos + len..];
        r := Ok(buf[pos..pos + len]);
        pos := pos + len;
      } else {
        r := Err;
      }
    }

    method ReadBoolean() returns (r: Result<bool>)
      requires Valid()
      modifies this
      ensures Reads(r, DecBool(old(Rest())))
    {
      var b := ReadN(1);
      r := if b.Ok? then Ok(b.value[0] != 0) else Err;
    }

    method ReadByte() returns (r: Result<i8>)
      requires Valid()
      modifies this
      ensures Reads(r, DecSigned(old(Rest()), 1))
    {
      var b := ReadN(1);
      r := if b.Ok? then Ok(Signed8(b.value[0])) else Err;
    }

    method ReadUnsignedByte() returns (r: Result<Byte>)
      requires Valid()
      modifies this
      ensures Reads(r, if old(Rest()) == [] then Fail else Got(old(Rest())[0], old(Rest())[1..]))
    {
      var b := ReadN(1);
      r := if b.Ok? then Ok(b.value[0]) else Err;
    }

    method ReadShort() returns (r: Result<int>)
      requires Valid()
      modifies this
      ensures Reads(r, DecSigned(old(Rest()), 2))
    {
      var b := ReadN(2);
      r := if b.Ok? then Ok(SignedBE(b.value)) else Err;
    }

    method ReadUnsignedShort() returns (r: Result<nat>)
      requires Valid()
      modifies this
      ensures Reads(r, DecUnsigned(old(Rest()), 2))
    {
      var b := ReadN(2);
      r := if b.Ok? then Ok(FromBE(b.value)) else Err;
    }

    method ReadInt() returns (r: Result<int>)
      requires Valid()
      modifies this
      ensures Reads(r, DecSigned(old(Rest()), 4))
    {
      var b := ReadN(4);
      r := if b.Ok? then Ok(SignedBE(b.value)) else Err;
    }

    method ReadInt3() returns (r: Result<int>)
      requires Valid()
      modifies this
      ensures Reads(r, DecSigned(old(Rest()), 3))
    {
      var b := ReadN(3);
      if b.Ok? {
        Int3IsSigned(b.value);
        r := Ok(ToInt3(b.value));
      } else {
        r := Err;
      }
    }

    method ReadLong() returns (r: Result<int>)
      requires Valid()
      modifies this
      ensures Reads(r, DecSigned(old(Rest()), 8))
    {
      var b := ReadN(8);
      r := if b.Ok? then Ok(SignedBE(b.value)) else Err;
    }

    method ReadLong5() returns (r: Result<int>)
      requires Valid()
      modifies this
      ensures Reads(r, DecSigned(old(Rest()), 5))
    {
      var b := ReadN(5);
      if b.Ok? {
        Long5IsSigned(b.value);
        r := Ok(ToLong5(b.value));
      } else {
        r := Err;
      }
    }

    method ReadDecimal() returns (r: Result<i64>)
      requires Valid()
      modifies this
      ensures Reads(r, DecDecimal(old(Rest())))
    {
      hide DecSigned, SignedBE;
      Pow256Values();
      ghost var start := Rest();
      OneByteReads(start);
      var len := ReadByte();
      if len.Err? {
        return Err;
      }
      assert start != [] && Rest() == start[1..];
      var v: Result<int>;
      if len.value == 0 {
        return Ok(0);
      } else if len.value == 1 {
        v := ReadByte();
      } else if len.value == 2 {
        v := ReadShort();
      } else if len.value == 3 {
        v := ReadInt3();
      } else if len.value == 4 {
        v := ReadInt();
      } else if len.value == 5 {
        v := ReadLong5();
      } else {
        v := ReadLong();
      }
      r := v;
    }

    method ReadBlob() returns (r: Result<Bytes>)
      requires Valid()
      modifies this
      ensures Reads(r, DecBlob(old(Rest())))
    {
      var baseLen := ReadUnsignedByte();
      if baseLen.Err? {
        return Err;
      }
      if baseLen.value == 0 {
        return Ok([]);
      } else if baseLen.value == 255 {
        var len := ReadUnsignedShort();
        if len.Err? {
          return Err;
        }
        r := ReadN(len.value);
      } else if baseLen.value == 254 {
        var len := ReadInt();
        if len.Err? || len.value < 0 {
          return Err;
        }
        r := ReadN(len.value);
      } else {
        r := ReadN(baseLen.value);
      }
    }

    method ReadShortBytes() returns (r: Result<Bytes>)
      requires Valid()
      modifies this
      ensures Reads(r, DecShortBytes(old(Rest())))
    {
      var len := ReadUnsignedShort();
      if len.Err? {
        return Err;
      }
      r := ReadN(len.value);
    }
  }
}
