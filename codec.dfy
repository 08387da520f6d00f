/** The streaming archive codec (libarchive) as the session drives it.

    A container is modelled as its sequence of entries, each a header plus
    payload.  The writer appends entries and streams payload into the last
    one; like libarchive's tar writers it drops payload beyond an entry's
    declared size and pads a short payload with zero bytes when the entry is
    finished.  The reader walks the entries in order and hands out the payload
    of the current one.  Compression, format framing and the bytes that reach
    the storage backend are the codec's business and are not modelled. */
module Codec {
  import opened Text

  /** The file-type bits of an entry header (AE_IFREG, AE_IFDIR, ...). */
  datatype FileType = Regular | Directory | SymbolicLink | Special

  /** How the writer's container format and filter were chosen: from the
      destination's extension, or the gzip-compressed ustar fallback. */
  datatype Format = ChosenByExtension | GzipUstar

  /** One container entry: the header fields the session sets or reads, and
      the payload. */
  datatype Entry = Entry(pathname: Bytes, filetype: FileType, perm: nat, size: nat, mtime: int, data: Bytes)

  /** The payload is exactly as long as the header declares. */
  predicate WellSized(e: Entry) { |e.data| == e.size }

  /** Every entry of a container as the codec delivers it. */
  predicate WellFormed(c: seq<Entry>) { forall i :: 0 <= i < |c| ==> WellSized(c[i]) }

  /** An entry whose payload fell short, completed with zero bytes. */
  function Padded(e: Entry): (r: Entry)
    requires |e.data| <= e.size
    ensures WellSized(r)
    ensures r.(data := e.data) == e
    ensures r.data[..|e.data|] == e.data
    ensures forall k :: |e.data| <= k < r.size ==> r.data[k] == Nul
    ensures WellSized(e) ==> r == e
  {
    e.(data := e.data + Zeros(e.size - |e.data|))
  }

  /** The entries once the last one has been finished. */
  function Finished(es: seq<Entry>): (r: seq<Entry>)
    requires es != [] ==> |es[|es| - 1].data| <= es[|es| - 1].size
    ensures |r| == |es|
    ensures forall i :: 0 <= i < |es| - 1 ==> r[i] == es[i]
  {
    if es == [] then [] else es[..|es| - 1] + [Padded(es[|es| - 1])]
  }

  /** A write handle (archive_write_new + archive_write_open). */
  class ArchiveWriter {
    const format: Format
    /** The entries written so far; the last one is still receiving payload. */
    var entries: seq<Entry>

    ghost predicate Valid()
      reads this
    {
      (forall i :: 0 <= i < |entries| - 1 ==> WellSized(entries[i])) &&
      (entries != [] ==> |entries[|entries| - 1].data| <= entries[|entries| - 1].size)
    }

    constructor (format: Format)
      ensures Valid()
      ensures this.format == format && entries == []
    {
      this.format := format;
      entries := [];
    }

    /** archive_write_header: finish the current entry and start `header`
        with no payload yet. */
    method WriteHeader(header: Entry)
      requires Valid()
      modifies this
      ensures Valid()
      ensures entries == Finished(old(entries)) + [header.(data := [])]
    {
      entries := Finished(entries) + [header.(data := [])];
    }

    /** archive_write_data: append `block` to the current entry's payload, but
        never beyond its declared size; `written` is how much was taken.
        Before any header there is nothing to write to. */
    method WriteData(block: Bytes) returns (written: nat)
      requires Valid()
      modifies this
      ensures Valid()
      ensures old(entries) == [] ==> written == 0 && entries == []
      ensures old(entries) != [] ==>
        var n := |old(entries)|;
        var last := old(entries)[n - 1];
        written == Min(|block|, last.size - |last.data|) &&
        entries == old(entries)[..n - 1] + [last.(data := last.data + block[..written])]
    {
      if entries == [] {
        written := 0;
      } else {
        var n := |entries|;
        var last := entries[n - 1];
        written := Min(|block|, last.size - |last.data|);
        entries := entries[..n - 1] + [last.(data := last.data + block[..written])];
      }
    }

    /** archive_write_close, run by archive_write_free: finish the last
        entry.  Every entry of the container is then well sized. */
    method Close()
      requires Valid()
      modifies this
      ensures Valid()
      ensures entries == Finished(old(entries))
      ensures WellFormed(entries)
    {
      entries := Finished(entries);
    }
  }

  /** A read handle (archive_read_new + archive_read_open) over a container. */
  class ArchiveReader {
    const entries: seq<Entry>
    /** Position of the next header to read. */
    var next: nat
    /** The unread payload of the current entry. */
    var remaining: Bytes

    ghost predicate Valid()
      reads this
    {
      next <= |entries|
    }

    constructor (entries: seq<Entry>)
      ensures Valid()
      ensures this.entries == entries && next == 0 && remaining == []
    {
      this.entries := entries;
      next := 0;
      remaining := [];
    }

    /** archive_read_next_header: skip what is left of the current entry and
        read the next header, or report that the container is exhausted. */
    method NextHeader() returns (e: Option<Entry>)
      requires Valid()
      modifies this
      ensures Valid()
      ensures old(next) < |entries| ==>
        e == Some(entries[old(next)]) && next == old(next) + 1 && remaining == entries[old(next)].data
      ensures old(next) == |entries| ==> e == None && next == old(next) && remaining == []
    {
      if next < |entries| {
        e := Some(entries[next]);
        remaining := entries[next].data;
        next := next + 1;
      } else {
        e := None;
        remaining := [];
      }
    }

    /** archive_read_data: up to `max` bytes of the current payload, in order;
        an empty block means the entry is used up. */
    method ReadData(max: nat) returns (block: Bytes)
      requires Valid()
      modifies this
      ensures Valid() && next == old(next)
      ensures |block| == Min(max, |old(remaining)|)
      ensures old(remaining) == block + remaining
    {
      block := remaining[..Min(max, |remaining|)];
      remaining := remaining[|block|..];
    }
  }
}
