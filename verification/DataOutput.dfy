/** The growing output buffer of the codec. Every writer appends the encoding of its argument. */
module DataOutput {
  import opened ByteCodec

  function EncBool(v: bool): Bytes { [if v then 1 else 0] }

  class DataOutputX {
    var buf: Bytes

    constructor ()
      ensures buf == []
    {
      buf := [];
    }

    method WriteRaw(b: Bytes)
      modifies this
      ensures buf == old(buf) + b
    {
      buf := buf + b;
    }

    method WriteBoolean(v: bool)
      modifies this
      ensures buf == old(buf) + EncBool(v)
    {
      buf := buf + [if v then 1 else 0];
    }

    /** Keeps the low 8 bits. */
    method WriteByte(v: i32)
      modifies this
      ensures buf == old(buf) + [v % 256]
    {
      buf := buf + [v % 256];
    }

    /** Keeps the low 16 bits. */
    method WriteShort(v: int)
      modifies this
      ensures buf == old(buf) + ToBE(v, 2)
    {
      buf := buf + ToBE(v, 2);
    }

    method WriteInt(v: int)
      modifies this
      ensures buf == old(buf) + ToBE(v, 4)
    {
      buf := buf + ToBE(v, 4);
    }

    method WriteInt3(v: int)
      modifies this
      ensures buf == old(buf) + ToBE(v, 3)
    {
      ghost var start := buf;
      buf := buf + [(v / 0x1_0000) % 0x100];
      buf := buf + [(v / 0x100) % 0x100];
      buf := buf + [v % 0x100];
      Bytes3AreBigEndian(v);
      assert buf == start + ToBytes3(v);
    }

    method WriteLong(v: i64)
      modifies this
      ensures buf == old(buf) + ToBE(v, 8)
    {
      buf := buf + ToBE(v, 8);
    }

    method WriteLong5(v: i64)
      modifies this
      ensures buf == old(buf) + ToBE(v, 5)
    {
      ghost var start := buf;
      buf := buf + [(v / 0x1_0000_0000) % 0x100];
      buf := buf + [(v / 0x100_0000) % 0x100];
      buf := buf + [(v / 0x1_0000) % 0x100];
      buf := buf + [(v / 0x100) % 0x100];
      buf := buf + [v % 0x100];
      Bytes5AreBigEndian(v);
      assert buf == start + ToBytes5(v);
    }

    method WriteDecimal(v: i64)
      modifies this
      ensures buf == old(buf) + EncDecimal(v)
    {
      ghost var start := buf;
      if v == 0 {
        WriteByte(0);
      } else if -0x80 <= v <= 0x7F {
        WriteByte(1);
        WriteByte(v);
        assert ToBE(v, 1) == [v % 256];
      } else if -0x8000 <= v <= 0x7FFF {
        WriteByte(2);
        WriteShort(v);
      } else if -0x80_0000 <= v <= 0x7F_FFFF {
        WriteByte(3);
        WriteInt3(v);
      } else if -0x8000_0000 <= v <= 0x7FFF_FFFF {
        WriteByte(4);
        WriteInt(v);
      } else if -0x80_0000_0000 <= v <= 0x7F_FFFF_FFFF {
        WriteByte(5);
        WriteLong5(v);
      } else {
        WriteByte(8);
        WriteLong(v);
      }
      assert buf == start + [ShortestWidth(v)] + ToBE(v, ShortestWidth(v));
    }

    method WriteBlob(value: Bytes)
      modifies this
      ensures buf == old(buf) + EncBlob(value)
    {
      hide ToBE;
      ghost var start := buf;
      var len := |value|;
      if len == 0 {
        WriteByte(0);
      } else if len <= 253 {
        WriteByte(len);
        WriteRaw(value);
      } else if len <= 65535 {
        WriteByte(255);
        WriteShort(len);
        WriteRaw(value);
      } else {
        WriteByte(254);
        WriteInt(len);
        WriteRaw(value);
      }
      assert buf == start + EncBlob(value);
    }

    method WriteShortBytes(b: Bytes)
      modifies this
      ensures buf == old(buf) + EncShortBytes(b)
    {
      WriteShort(|b|);
      WriteRaw(b);
    }
  }
}
