/** The image file, the compression library, and the reading of single blocks. */
module Disk {
  import opened Words
  import opened Bytes

  datatype Error =
    | Corrupt | BadInode | BadDir | BadXattr | BadBlock | NotFound | NoMemory | Io | Overflow

  datatype Result<+T> = Ok(value: T) | Err(error: Error)

  // `inflate` stands for the compression library: given compressed bytes and the size of the output
  // buffer it yields the expansion, or None for any error code.
  datatype Disk = Disk(image: bytes, inflate: (bytes, nat) -> Option<bytes>)

  // sqfs_pread_all; None when the image ends before the last byte.
  function ReadAt(d: Disk, pos: nat, n: nat): (r: Option<bytes>)
    ensures r.Some? ==> |r.value| == n
  {
    if n == 0 then Some([])
    else if pos + n <= |d.image| then Some(d.image[pos..pos + n])
    else None
  }

  // The library never writes past the buffer it is given.
  function Inflate(d: Disk, src: bytes, room: nat): (r: Option<bytes>)
    ensures r.Some? ==> |r.value| <= room
  {
    match d.inflate(src, room)
    case Some(out) => if |out| <= room then Some(out) else None
    case None => None
  }

  // sqfs_block_size_get and sqfs_block_is_uncompressed: the low 24 bits and bit 24.
  function StoredSize(encoded: uint32): nat { encoded % 0x100_0000 }
  predicate StoredRaw(encoded: uint32) { encoded / 0x100_0000 % 2 == 1 }

  // What a data block expands to; `room` is the block size.
  function DataBlock(d: Disk, pos: nat, encoded: uint32, room: nat): Result<bytes> {
    if encoded == 0 then Ok(Zeros(room))
    else
      match ReadAt(d, pos, StoredSize(encoded))
      case None => Err(Io)
      case Some(stored) =>
        if StoredRaw(encoded) then Ok(stored)
        else match Inflate(d, stored, room)
          case None => Err(Corrupt)
          case Some(out) => Ok(out)
  }
}
