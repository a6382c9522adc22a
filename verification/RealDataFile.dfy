/** The append-only data file: writes go through an 8 KB buffer, reads flush it first. */
module RealDataFile {
  import opened ByteCodec
  import opened DataInput
  import opened RealKeyFile

  const BUFFER_SIZE: nat := 8192

  class RealDataFile {
    /** What has reached the file, what still waits in the buffer, and the position after both. */
    var disk: Bytes
    var pending: Bytes
    var offset: nat

    /** How much of the file a crash is sure to leave: its length at the last flush. */
    ghost var synced: nat

    /** Everything written. */
    ghost function Contents(): Bytes
      reads this
    {
      disk + pending
    }

    ghost predicate Valid()
      reads this
    {
      offset == |disk| + |pending| && synced <= |disk|
    }

    constructor Open(file: Bytes)
      ensures Valid() && Contents() == file && synced == |file|
    {
      disk := file;
      pending := [];
      offset := |file|;
      synced := |file|;
    }

    /** Appends and returns the position before; the buffer spills when the data does not fit. */
    method Write(data: Bytes) returns (at: nat)
      requires Valid()
      modifies this
      ensures Valid() && at == |old(Contents())| && synced == old(synced)
      ensures Contents() == old(Contents()) + data
    {
      at := offset;
      if |pending| + |data| > BUFFER_SIZE {
        disk := disk + pending;
        pending := [];
      }
      if |data| >= BUFFER_SIZE {
        disk := disk + data;
      } else {
        pending := pending + data;
      }
      offset := offset + |data|;
    }

    method Flush()
      requires Valid()
      modifies this
      ensures Valid() && Contents() == old(Contents())
      ensures pending == [] && synced == |disk|
    {
      disk := disk + pending;
      pending := [];
      synced := |disk|;
    }

    method Read(at: int, len: nat) returns (r: Result<Bytes>)
      requires Valid()
      modifies this
      ensures Valid() && Contents() == old(Contents()) && pending == [] && synced == |disk|
      ensures r == ReadAt(Contents(), at, len)
    {
      Flush();
      r := ReadAt(disk, at, len);
      assert Contents() == disk;
    }
  }
}
