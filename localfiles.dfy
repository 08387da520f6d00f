/** The local file system as the session sees it: `build` stats and reads
    the files it packs, `extractItem` creates and writes the file it unpacks.

    Files are values (type and permission bits, modification time, content);
    write descriptors name the file they write to.  Everything the C library
    does beyond that (umask, partial writes, errno) is not modelled. */
module LocalFiles {
  import opened Text
  import opened Codec

  /** What stat(2) reports of a file, and what read(2) delivers from it. */
  datatype LocalFile = LocalFile(filetype: FileType, perm: nat, mtime: int, data: Bytes)

  /** The outcome of read(2): a length (-1 on error, 0 at end of file) and the bytes read. */
  datatype ReadResult = ReadResult(len: int, block: Bytes)

  /** read(fd, buf, max) on a read-only descriptor at offset `off` into `f`;
      a file that is missing was never opened, so its descriptor is -1 and the
      read fails. */
  function ReadLocal(f: Option<LocalFile>, off: nat, max: nat): (r: ReadResult)
    requires f.Some? ==> off <= |f.value.data|
    ensures f.None? ==> r.len == -1 && r.block == []
    ensures f.Some? ==>
      r.len == |r.block| <= max && off + |r.block| <= |f.value.data| &&
      r.block == f.value.data[off..off + |r.block|] &&
      (r.len == 0 <==> max == 0 || off == |f.value.data|)
  {
    match f
    case None => ReadResult(-1, [])
    case Some(file) =>
      var n := Min(max, |file.data| - off);
      ReadResult(n, file.data[off..off + n])
  }

  /** The file open(name, O_CREAT | O_TRUNC | O_WRONLY, perm) leaves behind:
      an existing file keeps its type and permission bits and loses its
      content; a new one is a regular file with permission `perm`. */
  function Truncated(files: map<Bytes, LocalFile>, name: Bytes, perm: nat, now: int): (f: LocalFile)
    ensures f.data == [] && f.mtime == now
    ensures name in files ==> f.filetype == files[name].filetype && f.perm == files[name].perm
    ensures name !in files ==> f.filetype == Regular && f.perm == perm
  {
    if name in files then files[name].(data := [], mtime := now) else LocalFile(Regular, perm, now, [])
  }

  /** `name` is a regular file: open(name, O_RDONLY) succeeds and read(2)
      delivers its content. */
  predicate Readable(files: map<Bytes, LocalFile>, name: Bytes)
  {
    name in files && files[name].filetype == Regular
  }

  class LocalFs {
    var files: map<Bytes, LocalFile>
    /** Paths that open(2) refuses to create or truncate for writing; every
        directory is one of them (EISDIR). */
    const denied: set<Bytes>
    /** Open write descriptors and the file each one writes to. */
    var handles: map<int, Bytes>
    /** The next descriptor number to hand out. */
    var nextFd: nat

    ghost predicate Valid()
      reads this
    {
      (forall fd :: fd in handles ==> 0 <= fd < nextFd && handles[fd] in files) &&
      (forall p :: p in files && files[p].filetype == Directory ==> p in denied)
    }

    constructor (files: map<Bytes, LocalFile>, denied: set<Bytes>)
      requires forall p :: p in files && files[p].filetype == Directory ==> p in denied
      ensures Valid()
      ensures this.files == files && this.denied == denied && handles == map[]
    {
      this.files := files;
      this.denied := denied;
      handles := map[];
      nextFd := 0;
    }

    /** stat(2): the file at `name`, if there is one. */
    function Stat(name: Bytes): (r: Option<LocalFile>)
      reads this
      ensures r.Some? <==> name in files
      ensures r.Some? ==> r.value == files[name]
    {
      if name in files then Some(files[name]) else None
    }

    /** open(name, O_CREAT | O_TRUNC | O_WRONLY, perm) at time `now`. */
    method OpenWrite(name: Bytes, perm: nat, now: int) returns (fd: int)
      requires Valid()
      modifies this
      ensures Valid()
      ensures name in denied ==> fd == -1 && files == old(files) && handles == old(handles)
      ensures name !in denied ==>
        fd >= 0 && fd !in old(handles) &&
        handles == old(handles)[fd := name] &&
        files == old(files)[name := Truncated(old(files), name, perm, now)]
    {
      if name in denied {
        fd := -1;
      } else {
        fd := nextFd;
        nextFd := nextFd + 1;
        files := files[name := Truncated(files, name, perm, now)];
        handles := handles[fd := name];
      }
    }

    /** write(fd, block, |block|): append to the file `fd` writes to; a
        descriptor that is not open (such as -1) changes nothing. */
    method Write(fd: int, block: Bytes)
      requires Valid()
      modifies this
      ensures Valid() && handles == old(handles)
      ensures fd !in handles ==> files == old(files)
      ensures fd in handles ==>
        var name := handles[fd];
        files == old(files)[name := old(files)[name].(data := old(files)[name].data + block)]
    {
      if fd in handles {
        var name := handles[fd];
        files := files[name := files[name].(data := files[name].data + block)];
      }
    }

    /** close(fd). */
    method Close(fd: int)
      requires Valid()
      modifies this
      ensures Valid() && files == old(files)
      ensures handles == old(handles) - {fd}
    {
      handles := handles - {fd};
    }
  }
}
