/** The four callbacks through which the archive codec reaches the remote
    storage backend (a_creat, a_open, a_read, a_write in src/Archive.hh).

    The backend calls themselves (rsFileOpen, rsFileRead, rsFileWrite,
    rsFileClose) are foreign; what is modelled is how each callback turns the
    backend's answer into the status the codec acts on. */
module Adapter {
  import opened Text

  /** Size of the adapter's transfer buffer (`char buf[8192]` in struct Data). */
  const BufferSize: nat := 8192

  /** The two libarchive statuses the callbacks produce. */
  datatype Status = ArchiveOk | ArchiveFatal

  /** What an open callback leaves behind: its status and the descriptor it
      stored in the adapter's state for later reads and writes. */
  datatype OpenReply = OpenReply(status: Status, descriptor: int)

  /** a_open and a_creat: store the backend's descriptor and report success
      exactly when it is non-negative.  Both callbacks obtain the descriptor
      the same way (through the read-only backend open), so one definition
      serves both. */
  function OpenCallback(descriptor: int): (r: OpenReply)
    ensures r.descriptor == descriptor
    ensures r.status == ArchiveOk <==> descriptor >= 0
  {
    OpenReply(if descriptor >= 0 then ArchiveOk else ArchiveFatal, descriptor)
  }

  /** What a_read hands back to the codec: a length, and the bytes of the
      transfer buffer when the length is not an error. */
  datatype ReadReply = ReadReply(len: int, block: Option<Bytes>)

  /** a_read: `got` is the backend's answer for a read of the whole transfer
      buffer `buf`.  Any failure becomes -1 and exposes no bytes; otherwise the
      count passes through and the codec sees the first `got` bytes of `buf`. */
  function ReadCallback(got: int, buf: Bytes): (r: ReadReply)
    requires |buf| == BufferSize && got <= BufferSize
    ensures -1 <= r.len <= BufferSize
    ensures r.len == -1 <==> got < 0
    ensures r.block.Some? <==> r.len >= 0
    ensures r.block.Some? ==> r.len == got && |r.block.value| == got && r.block.value <= buf
  {
    if got < 0 then ReadReply(-1, None) else ReadReply(got, Some(buf[..got]))
  }

  /** a_write: `got` is the backend's answer for writing a block; any failure
      becomes -1, a byte count passes through. */
  function WriteCallback(got: int): (r: int)
    ensures r >= -1
    ensures r == -1 <==> got < 0
    ensures r >= 0 ==> r == got
  {
    if got < 0 then -1 else got
  }
}
