/** The archive session (class Archive in src/Archive.hh).

    A session is either building a container (`create`, then `addItem` any
    number of times, then the destructor, which runs `build`) or reading one
    (`open`, then `nextItem`, `extractItem` and `metadata` in any order).
    The manifest INDEX.json is always the first entry; the item entries
    follow in list order. */
module ArchiveSession {
  import opened Text
  import opened Json
  import opened Adapter
  import opened Codec
  import opened LocalFiles
  import opened Manifest

  /** What `open` gives its caller: no session (a null pointer), a session,
      or undefined behaviour, which is what the code reaches when the
      manifest does not parse or has no string "collection" (a std::string
      is assigned from a null pointer). */
  datatype OpenOutcome = NoSession | Undefined | Session(archive: Archive)

  /** The reading of a container `open` performs, as a value. */
  datatype OpenView = Refused | ManifestUnusable | Opened(origin: Bytes, list: Option<seq<Json>>)

  /** What `open` makes of a container, given whether the codec handle could
      be allocated and the descriptor the backend returned for the source. */
  function OpenSpec(allocOk: bool, descriptor: int, c: seq<Entry>): (v: OpenView)
    ensures !v.Refused? <==>
      allocOk && descriptor >= 0 && c != [] && CStr(c[0].pathname) == IndexName
    ensures v.Opened? ==> Nul !in v.origin
  {
    if !allocOk || OpenCallback(descriptor).status == ArchiveFatal || c == [] then Refused
    else if CStr(c[0].pathname) != IndexName then Refused
    else
      var payload := c[0].data[..Min(c[0].size, |c[0].data|)];
      var json := Decode(CStr(payload));
      var collection := if json.Some? then StringValue(Get(json.value, "collection")) else None;
      if collection.None? then ManifestUnusable
      else Opened(collection.value, if json.Some? then ArrayItems(Get(json.value, "items")) else None)
  }

  /** The entry build writes for a local file that exists: its path, the
      type, permission bits, size and modification time stat reports, and
      its whole content. */
  function FileEntry(path: Bytes, f: LocalFile): Entry
  {
    Entry(path, f.filetype, f.perm, |f.data|, f.mtime, f.data)
  }

  /** `e` is what build leaves in the container for the regular file at
      `path`.  Build only finishes when every item names one (see
      `FailedReadSpins`). */
  ghost predicate PackedFrom(e: Entry, path: Bytes, files: map<Bytes, LocalFile>)
  {
    Readable(files, path) && e == FileEntry(path, files[path])
  }

  /** Build finishes on `item` only when the record names a path (json_string
      accepted it when the item was added) and the path is a readable regular
      file.  Otherwise the filename is NULL or names nothing readable, the
      open fails and the copy loop never ends (see `FailedReadSpins`). */
  ghost predicate Packable(files: map<Bytes, LocalFile>, item: Json)
  {
    ItemPath(item).Some? && Readable(files, ItemPath(item).value)
  }

  /** `c` is a container build produced from `origin`, `items` and the
      local files: the manifest first, then one entry per item, in order. */
  ghost predicate BuiltFrom(c: seq<Entry>, origin: Bytes, items: seq<Json>, files: map<Bytes, LocalFile>)
  {
    (forall i :: 0 <= i < |items| ==> HasPath(items[i])) &&
    |c| == |items| + 1 &&
    c[0] == ManifestEntry(origin, items) &&
    forall i :: 0 <= i < |items| ==> PackedFrom(c[i + 1], ItemPath(items[i]).value, files)
  }

  /** The first `k` items of `items` have been packed after the entry at
      position 0, and every item names a path. */
  ghost predicate ItemsPacked(c: seq<Entry>, items: seq<Json>, files: map<Bytes, LocalFile>, k: nat)
  {
    k <= |items| && (forall i :: 0 <= i < |items| ==> HasPath(items[i])) &&
    |c| == k + 1 &&
    forall i :: 0 <= i < k ==> PackedFrom(c[i + 1], ItemPath(items[i]).value, files)
  }

  /** One more item packed after `k` of them extends the partial container. */
  lemma ItemsPackedStep(before: seq<Entry>, after: seq<Entry>, items: seq<Json>,
                        files: map<Bytes, LocalFile>, k: nat)
    requires ItemsPacked(before, items, files, k) && k < |items|
    requires |after| == k + 2 && after[..k + 1] == before
    requires PackedFrom(after[k + 1], ItemPath(items[k]).value, files)
    ensures ItemsPacked(after, items, files, k + 1)
  {
    forall i | 0 <= i < k + 1
      ensures PackedFrom(after[i + 1], ItemPath(items[i]).value, files)
    {
      if i < k {
        assert after[i + 1] == before[i + 1];
      }
    }
  }

  /** The conversion of read(2)'s ssize_t result to build's size_t `len`:
      the value congruent to it modulo 2^64. */
  function ToSizeT(n: int): (r: nat)
    requires -0x8000_0000_0000_0000 <= n < 0x8000_0000_0000_0000
    ensures r < 0x1_0000_0000_0000_0000 && r % 0x1_0000_0000_0000_0000 == n % 0x1_0000_0000_0000_0000
    ensures n >= 0 ==> r == n
  {
    if n < 0 then n + 0x1_0000_0000_0000_0000 else n
  }

  /** Build's copy loop as written does not stop when read fails: the -1 of
      a failed read (the descriptor of a file that could not be opened) is
      positive once stored in `len`, and a failed read consumes nothing, so
      the next pass reads the same -1 again. */
  lemma FailedReadSpins(off: nat)
    ensures var r := ReadLocal(None, off, BufferSize);
      r.len == -1 && ToSizeT(r.len) > 0 && r.block == [] &&
      ReadLocal(None, off + |r.block|, BufferSize) == r
  {
    var r := ReadLocal(None, off, BufferSize);
    assert ToSizeT(r.len) == 0xFFFF_FFFF_FFFF_FFFF;
  }

  /** On a file that opened, the as-written test of `len` agrees with the
      signed test: the loop runs exactly while read delivers bytes. */
  lemma ReadableReadStops(file: LocalFile, off: nat)
    requires off <= |file.data|
    ensures var r := ReadLocal(Some(file), off, BufferSize);
      ToSizeT(r.len) > 0 <==> off < |file.data|
  {
  }

  class Archive {
    /** The codec handle: a writer in a building session. */
    var writer: ArchiveWriter?
    /** The codec handle: a reader in a reading session. */
    var reader: ArchiveReader?
    /** The current entry; None once the codec has run out of entries. */
    var entry: Option<Entry>
    /** Building (true) or reading (false). */
    const creating: bool
    /** The item records: those added so far when building, the manifest's
        "items" when reading (None when the manifest holds no array there). */
    var list: Option<seq<Json>>
    /** The item index: how many times nextItem has run; build's loop counter. */
    var index: nat
    /** Path of the container. */
    const path: Bytes
    /** The collection the items come from. */
    const origin: Bytes
    /** False once the destructor has run. */
    ghost var live: bool

    ghost predicate Valid()
      reads this, writer, reader
    {
      (creating ==>
        writer != null && reader == null && writer.Valid() &&
        list.Some? &&
        (live ==> writer.entries == [])) &&
      (!creating ==> reader != null && writer == null && reader.Valid())
    }

    constructor Init(writer: ArchiveWriter?, reader: ArchiveReader?, creating: bool,
                     list: Option<seq<Json>>, path: Bytes, collection: Bytes)
      ensures this.writer == writer && this.reader == reader && this.creating == creating
      ensures this.list == list && this.path == path && this.origin == collection
      ensures index == 0 && entry == None && live
    {
      this.writer := writer;
      this.reader := reader;
      this.creating := creating;
      this.list := list;
      this.path := path;
      this.origin := collection;
      index := 0;
      entry := None;
      live := true;
    }

    /** create: set up a building session for `path`.  `allocOk` is whether
        archive_write_new succeeded, `byExtension` whether the codec knows a
        format for the path's extension, and `descriptor` what the backend
        returned when the codec opened the destination. */
    static method Create(allocOk: bool, byExtension: bool, descriptor: int, path: Bytes, collection: Bytes)
      returns (a: Archive?)
      ensures (a != null) == (allocOk && OpenCallback(descriptor).status == ArchiveOk)
      ensures a != null ==>
        fresh(a) && fresh(a.writer) && a.Valid() && a.live && a.creating &&
        a.list == Some([]) && a.index == 0 && a.path == path && a.origin == collection &&
        a.writer.entries == [] &&
        a.writer.format == (if byExtension then ChosenByExtension else GzipUstar)
    {
      if !allocOk {
        return null;
      }
      var format := if byExtension then ChosenByExtension else GzipUstar;
      var w := new ArchiveWriter(format);
      if OpenCallback(descriptor).status != ArchiveOk {
        return null;
      }
      a := new Archive.Init(w, null, true, Some([]), path, collection);
    }

    /** open: start reading `container`.  No session unless the codec opens
        and the first entry is INDEX.json; the manifest then supplies the
        origin and the item list, and the codec is left at the first item. */
    static method Open(allocOk: bool, descriptor: int, container: seq<Entry>, path: Bytes)
      returns (r: OpenOutcome)
      ensures r.NoSession? <==> OpenSpec(allocOk, descriptor, container).Refused?
      ensures r.Undefined? <==> OpenSpec(allocOk, descriptor, container).ManifestUnusable?
      ensures r.Session? ==>
        var v := OpenSpec(allocOk, descriptor, container);
        var a := r.archive;
        fresh(a) && fresh(a.reader) && a.Valid() && a.live && !a.creating &&
        a.origin == v.origin && a.list == v.list && a.index == 0 && a.path == path &&
        a.reader.entries == container && a.reader.next == 1
    {
      if !allocOk {
        return NoSession;
      }
      var rd := new ArchiveReader(container);
      if OpenCallback(descriptor).status != ArchiveOk {
        return NoSession;
      }
      var first := rd.NextHeader();
      if first.None? {
        return NoSession;
      }
      if CStr(first.value.pathname) != IndexName {
        return NoSession;
      }
      var buf := rd.ReadData(first.value.size);
      var json := Decode(CStr(buf));
      var collection := if json.Some? then StringValue(Get(json.value, "collection")) else None;
      if collection.None? {
        return Undefined;
      }
      var items := if json.Some? then ArrayItems(Get(json.value, "items")) else None;
      var a := new Archive.Init(null, rd, false, items, path, collection.value);
      return Session(a);
    }

    /** addItem: append the record {path, metadata} to the item list and
        leave every earlier record as it was. */
    method AddItem(path: Bytes, metadata: Option<Json>)
      requires Valid() && live
      modifies this
      ensures Valid() && live
      ensures writer == old(writer) && reader == old(reader) && entry == old(entry) && index == old(index)
      ensures old(list).Some? ==> list == Some(old(list).value + [ItemRecord(path, metadata)])
      ensures old(list).None? ==> list == None
    {
      if list.Some? {
        list := Some(list.value + [ItemRecord(path, metadata)]);
      }
    }

    /** nextItem: count one more item and move the codec to the next entry;
        its pathname, or the empty string once the container is exhausted. */
    method NextItem() returns (name: Bytes)
      requires Valid() && live && !creating
      modifies this, reader
      ensures Valid() && live
      ensures reader == old(reader) && list == old(list)
      ensures index == old(index) + 1
      ensures old(reader.next) < |reader.entries| ==>
        reader.next == old(reader.next) + 1 &&
        entry == Some(reader.entries[old(reader.next)]) &&
        reader.remaining == reader.entries[old(reader.next)].data &&
        name == CStr(reader.entries[old(reader.next)].pathname)
      ensures old(reader.next) == |reader.entries| ==>
        reader.next == old(reader.next) && entry == None && reader.remaining == [] && name == []
    {
      index := index + 1;
      var e := reader.NextHeader();
      entry := e;
      if e.None? {
        return [];
      }
      return CStr(e.value.pathname);
    }

    /** metadata: the record at position index - 1 of the list (the whole
        {path, metadata} object); nothing before the first nextItem, past the
        end of the list, or when the list is not an array. */
    function Metadata(): (r: Option<Json>)
      reads this
      ensures r.Some? <==> list.Some? && 1 <= index <= |list.value|
      ensures r.Some? ==> r.value == list.value[index - 1]
    {
      if list.Some? && 1 <= index <= |list.value| then Some(list.value[index - 1]) else None
    }

    /** extractItem: create (or truncate) the local file `filename` with the
        current entry's permission bits and copy the rest of the entry's
        payload into it, 8192 bytes at a time.  An exhausted cursor reads as
        an empty entry with permission 0.  `now` is the clock reading the new
        file is stamped with. */
    method ExtractItem(filename: Bytes, fs: LocalFs, now: int) returns (ghost blocks: seq<Bytes>)
      requires Valid() && live && !creating && index > 0 && fs.Valid()
      modifies reader, fs
      ensures Valid() && fs.Valid() && fs.handles == old(fs.handles)
      ensures reader.next == old(reader.next) && reader.remaining == []
      ensures Concat(blocks) == old(reader.remaining)
      ensures forall k :: 0 <= k < |blocks| ==> 0 < |blocks[k]| <= BufferSize
      ensures
        var name := CStr(filename);
        var perm := if entry.Some? then entry.value.perm else 0;
        if name in fs.denied then fs.files == old(fs.files)
        else fs.files == old(fs.files)[name := Truncated(old(fs.files), name, perm, now).(data := old(reader.remaining))]
    {
      var name := CStr(filename);
      var perm := if entry.Some? then entry.value.perm else 0;
      var fd := fs.OpenWrite(name, perm, now);
      ghost var created := fs.files;
      blocks := CopyOut(fd, fs);
      if name !in fs.denied {
        assert created[name].data + old(reader.remaining) == old(reader.remaining);
      }
      fs.Close(fd);
    }

    /** extractItem's loop: read the payload 8192 bytes at a time and write
        each block to `fd` until the codec reports no more. */
    method CopyOut(fd: int, fs: LocalFs) returns (ghost blocks: seq<Bytes>)
      requires Valid() && !creating && fs.Valid()
      modifies reader, fs
      ensures Valid() && fs.Valid() && fs.handles == old(fs.handles)
      ensures reader.next == old(reader.next) && reader.remaining == []
      ensures Concat(blocks) == old(reader.remaining)
      ensures forall k :: 0 <= k < |blocks| ==> 0 < |blocks[k]| <= BufferSize
      ensures fd !in fs.handles ==> fs.files == old(fs.files)
      ensures fd in fs.handles ==>
        var name := fs.handles[fd];
        fs.files == old(fs.files)[name := old(fs.files)[name].(data := old(fs.files)[name].data + old(reader.remaining))]
    {
      ghost var payload := reader.remaining;
      blocks := [];
      if fd in fs.handles {
        var name := fs.handles[fd];
        assert fs.files[name].(data := fs.files[name].data + Concat(blocks)) == fs.files[name];
      }
      var block := reader.ReadData(BufferSize);
      while |block| > 0
        invariant reader.Valid() && fs.Valid() && fs.handles == old(fs.handles)
        invariant reader.next == old(reader.next)
        invariant payload == Concat(blocks) + block + reader.remaining
        invariant |block| <= BufferSize && (|block| == 0 ==> reader.remaining == [])
        invariant forall k :: 0 <= k < |blocks| ==> 0 < |blocks[k]| <= BufferSize
        invariant fd !in fs.handles ==> fs.files == old(fs.files)
        invariant fd in fs.handles ==>
          var name := fs.handles[fd];
          fs.files == old(fs.files)[name := old(fs.files)[name].(data := old(fs.files)[name].data + Concat(blocks))]
        decreases |reader.remaining| + |block|
      {
        fs.Write(fd, block);
        assert (blocks + [block])[..|blocks|] == blocks;
        assert Concat(blocks + [block]) == Concat(blocks) + block;
        if fd in fs.handles {
          var name := fs.handles[fd];
          assert old(fs.files)[name].data + Concat(blocks) + block == old(fs.files)[name].data + Concat(blocks + [block]);
        }
        blocks := blocks + [block];
        block := reader.ReadData(BufferSize);
      }
    }

    /** build: write the manifest as the first entry, then one entry per item,
        in list order, each holding the content of the local file the item
        names.  The last entry is finished when the writer is closed. */
    method Build(fs: LocalFs)
      requires Valid() && live && creating
      requires forall i :: 0 <= i < |list.value| ==> Packable(fs.files, list.value[i])
      modifies this, writer
      ensures writer == old(writer) && reader == old(reader) && list == old(list) && live
      ensures writer.Valid()
      ensures BuiltFrom(Finished(writer.entries), origin, list.value, fs.files)
    {
      var items := list.value;
      WriteIndex(origin, items);
      WriteItems(items, fs, ManifestEntry(origin, items));
    }

    /** build's loop over the list: one entry per item, in list order, after
        the manifest entry already written. */
    method WriteItems(items: seq<Json>, fs: LocalFs, ghost manifest: Entry)
      requires writer != null && writer.Valid() && writer.entries == [manifest] && WellSized(manifest)
      requires forall i :: 0 <= i < |items| ==> Packable(fs.files, items[i])
      modifies this, writer
      ensures writer == old(writer) && reader == old(reader) && list == old(list) && live == old(live)
      ensures writer.Valid() && index == |items|
      ensures Finished(writer.entries) != [] && Finished(writer.entries)[0] == manifest
      ensures ItemsPacked(Finished(writer.entries), items, fs.files, |items|)
    {
      index := 0;
      while index < |items|
        invariant writer == old(writer) && reader == old(reader) && writer.Valid()
        invariant list == old(list) && live == old(live) && index <= |items|
        invariant Finished(writer.entries) != [] && Finished(writer.entries)[0] == manifest
        invariant ItemsPacked(Finished(writer.entries), items, fs.files, index)
      {
        ghost var before := Finished(writer.entries);
        WriteItem(ItemPath(items[index]).value, fs);
        ghost var after := Finished(writer.entries);
        assert after[..index + 1] == writer.entries[..index + 1] == before;
        assert after[index + 1] == Padded(writer.entries[index + 1]);
        ItemsPackedStep(before, after, items, fs.files, index);
        index := index + 1;
      }
    }

    /** The first part of build: serialise {collection, items} and write it
        as INDEX.json, a regular file with permission 0444 whose size is the
        length of the text (strlen: the text holds no NUL). */
    method WriteIndex(collection: Bytes, items: seq<Json>)
      requires writer != null && writer.Valid() && writer.entries == []
      modifies writer
      ensures writer.Valid() && writer.entries == [ManifestEntry(collection, items)]
    {
      var text := Encode(ManifestDoc(collection, items));
      CStrOfNulFree(text);
      var len := |CStr(text)|;
      var header := Entry(IndexName, Regular, IndexPerm, len, 0, []);
      writer.WriteHeader(header);
      assert writer.entries == [header];
      var written := writer.WriteData(text);
      assert text[..written] == text;
      assert header.data + text[..written] == text;
      assert writer.entries == [header.(data := text)];
    }

    /** One iteration of build's loop: stat the file, write its header, then
        copy its content 8192 bytes at a time until read reports no more. */
    method WriteItem(filename: Bytes, fs: LocalFs)
      requires writer != null && writer.Valid()
      requires Readable(fs.files, filename)
      modifies writer
      ensures writer.Valid()
      ensures |writer.entries| == |old(writer.entries)| + 1
      ensures writer.entries[..|old(writer.entries)|] == Finished(old(writer.entries))
      ensures PackedFrom(Padded(writer.entries[|old(writer.entries)|]), filename, fs.files)
    {
      var st := fs.Stat(filename);
      var stat := st.value;
      var header := Entry(filename, stat.filetype, stat.perm, |stat.data|, stat.mtime, []);
      writer.WriteHeader(header);
      CopyIn(stat);
    }

    /** build's inner loop: read the local file 8192 bytes at a time and
        write each block into the current entry while read's result, stored
        in the size_t `len`, is positive. */
    method CopyIn(file: LocalFile)
      requires writer != null && writer.Valid() && writer.entries != []
      requires writer.entries[|writer.entries| - 1].data == []
      requires writer.entries[|writer.entries| - 1].size == |file.data|
      modifies writer
      ensures writer.Valid() && |writer.entries| == |old(writer.entries)|
      ensures writer.entries[..|writer.entries| - 1] == old(writer.entries)[..|writer.entries| - 1]
      ensures writer.entries[|writer.entries| - 1] == old(writer.entries)[|writer.entries| - 1].(data := file.data)
    {
      ghost var n := |writer.entries| - 1;
      ghost var header := writer.entries[n];
      ghost var earlier := writer.entries[..n];
      var off: nat := 0;
      var r := ReadLocal(Some(file), off, BufferSize);
      while ToSizeT(r.len) > 0
        invariant off <= |file.data|
        invariant r == ReadLocal(Some(file), off, BufferSize)
        invariant writer.Valid() && |writer.entries| == n + 1
        invariant writer.entries[..n] == earlier
        invariant writer.entries[n] == header.(data := file.data[..off])
        decreases |file.data| - off
      {
        var taken := writer.WriteData(r.block);
        off := off + |r.block|;
        r := ReadLocal(Some(file), off, BufferSize);
      }
      assert file.data[..off] == file.data;
    }

    /** The destructor: a building session runs build and closes the writer,
        which finishes the last entry; a reading session only releases its
        handle. */
    method Teardown(fs: LocalFs)
      requires Valid() && live
      requires creating ==> forall i :: 0 <= i < |list.value| ==> Packable(fs.files, list.value[i])
      modifies this, writer
      ensures !live && writer == old(writer) && reader == old(reader)
      ensures creating ==>
        BuiltFrom(writer.entries, origin, old(list).value, fs.files) && WellFormed(writer.entries)
    {
      if creating {
        Build(fs);
        writer.Close();
      }
      live := false;
    }
  }

  /** Round trip: a container build produced opens (the codec willing) as a
      session whose origin is the collection build recorded, read as a C
      string, and whose item list is the one build wrote, in the same order.
      When the origin is not valid UTF-8 the manifest has no "collection",
      and when an item's metadata holds a NUL in a string or a key json_loads
      refuses the manifest; either way open reaches undefined behaviour. */
  lemma RoundTrip(c: seq<Entry>, origin: Bytes, items: seq<Json>, files: map<Bytes, LocalFile>, descriptor: int)
    requires BuiltFrom(c, origin, items, files)
    requires descriptor >= 0
    ensures OpenSpec(true, descriptor, c) ==
      if Utf8(CStr(origin)) && forall i :: 0 <= i < |items| ==> NulFree(items[i])
      then Opened(CStr(origin), Some(items))
      else ManifestUnusable
  {
    OpenManifest(c, origin, items, descriptor);
  }

  /** A container whose first entry is the manifest of (origin, items) opens
      with that origin and that list, unless json_loads refuses the manifest
      or the manifest has no "collection". */
  lemma OpenManifest(c: seq<Entry>, origin: Bytes, items: seq<Json>, descriptor: int)
    requires c != [] && c[0] == ManifestEntry(origin, items)
    requires descriptor >= 0
    ensures OpenSpec(true, descriptor, c) ==
      if Utf8(CStr(origin)) && forall i :: 0 <= i < |items| ==> NulFree(items[i])
      then Opened(CStr(origin), Some(items))
      else ManifestUnusable
  {
    IndexNameIsCString();
    ManifestPayload(origin, items);
    ManifestFields(origin, items);
  }

  /** The manifest's name reads the same through a C string. */
  lemma IndexNameIsCString()
    ensures CStr(IndexName) == IndexName
  {
    assert Nul !in IndexName by {
      forall k | 0 <= k < |IndexName| ensures IndexName[k] != Nul { }
    }
    CStrOfNulFree(IndexName);
  }

  /** The manifest's payload, cut to its declared size and read as a C
      string, is its whole text. */
  lemma ManifestPayload(origin: Bytes, items: seq<Json>)
    ensures var e := ManifestEntry(origin, items);
      CStr(e.data[..Min(e.size, |e.data|)]) == e.data
  {
    var e := ManifestEntry(origin, items);
    assert e.data[..Min(e.size, |e.data|)] == e.data;
    CStrOfNulFree(e.data);
  }

  /** After the manifest, the k-th entry of a built container carries the
      path of the k-th item. */
  lemma EntryOrder(c: seq<Entry>, origin: Bytes, items: seq<Json>, files: map<Bytes, LocalFile>, k: nat)
    requires BuiltFrom(c, origin, items, files)
    requires 1 <= k <= |items|
    ensures c[k].pathname == ItemPath(items[k - 1]).value
    ensures c[k].pathname in files && c[k].data == files[c[k].pathname].data
  {
    assert PackedFrom(c[(k - 1) + 1], ItemPath(items[k - 1]).value, files);
  }

  /** `b` reads `container` with list `items` and has advanced `k` times. */
  ghost predicate ReadingAt(b: Archive, container: seq<Entry>, items: seq<Json>, k: nat)
    reads b, b.writer, b.reader
  {
    b.Valid() && b.live && !b.creating && b.list == Some(items) && b.index == k &&
    b.reader.entries == container && b.reader.next == k + 1
  }

  /** The name nextItem reports for the entry after the k-th advance is the
      path of item k. */
  lemma ItemName(c: seq<Entry>, origin: Bytes, items: seq<Json>, files: map<Bytes, LocalFile>, k: nat)
    requires BuiltFrom(c, origin, items, files)
    requires k < |items|
    ensures CStr(c[k + 1].pathname) == ItemPath(items[k]).value
  {
    EntryOrder(c, origin, items, files, k + 1);
    CStrOfNulFree(ItemPath(items[k]).value);
  }

  /** The records addItem makes from (path, metadata) pairs. */
  function Records(pairs: seq<(Bytes, Option<Json>)>): (r: seq<Json>)
    ensures |r| == |pairs|
    ensures forall i :: 0 <= i < |pairs| ==> r[i] == ItemRecord(pairs[i].0, pairs[i].1)
  {
    if pairs == [] then [] else Records(pairs[..|pairs| - 1]) + [ItemRecord(pairs[|pairs| - 1].0, pairs[|pairs| - 1].1)]
  }

  /** An item added under a path that is not valid UTF-8 gets a record
      without "path" (json_string gives NULL), so build never finishes on
      it: the NULL filename fails to open and the copy loop spins. */
  lemma UnencodablePathNotPackable(path: Bytes, metadata: Option<Json>, files: map<Bytes, LocalFile>)
    requires !Utf8(CStr(path))
    ensures ItemPath(ItemRecord(path, metadata)).None?
    ensures !Packable(files, ItemRecord(path, metadata))
  {
    ItemPathOfRecord(path, metadata);
  }

  /** Building end to end: create a session for `dest`, add `pairs` in
      order and tear the session down; the container written is the one build
      promises for those records. */
  method Pack(pairs: seq<(Bytes, Option<Json>)>, dest: Bytes, collection: Bytes, fs: LocalFs, descriptor: int)
    returns (container: seq<Entry>)
    requires descriptor >= 0
    requires forall i :: 0 <= i < |pairs| ==> Utf8(CStr(pairs[i].0)) && Readable(fs.files, CStr(pairs[i].0))
    ensures BuiltFrom(container, collection, Records(pairs), fs.files)
    ensures WellFormed(container)
  {
    var a := Archive.Create(true, true, descriptor, dest, collection);
    var i := 0;
    while i < |pairs|
      invariant i <= |pairs|
      invariant a.Valid() && a.live && a.creating && a.origin == collection
      invariant a.list == Some(Records(pairs[..i]))
      invariant fresh(a) && fresh(a.writer)
    {
      a.AddItem(pairs[i].0, pairs[i].1);
      assert pairs[..i + 1][..i] == pairs[..i];
      i := i + 1;
    }
    assert pairs[..i] == pairs;
    forall j | 0 <= j < |pairs| ensures Packable(fs.files, Records(pairs)[j]) {
      ItemPathOfRecord(pairs[j].0, pairs[j].1);
    }
    a.Teardown(fs);
    container := a.writer.entries;
  }

  /** Opening a container build produced: a session holding the
      collection and the item list, positioned at the first item. */
  method OpenBuilt(container: seq<Entry>, collection: Bytes, items: seq<Json>, files: map<Bytes, LocalFile>,
                   src: Bytes, descriptor: int)
    returns (b: Archive)
    requires BuiltFrom(container, collection, items, files)
    requires Utf8(CStr(collection)) && forall i :: 0 <= i < |items| ==> NulFree(items[i])
    requires descriptor >= 0
    ensures fresh(b) && fresh(b.reader) && b.Valid() && b.live && !b.creating
    ensures b.origin == CStr(collection) && b.list == Some(items) && b.index == 0
    ensures b.reader.entries == container && b.reader.next == 1
  {
    RoundTrip(container, collection, items, files, descriptor);
    var r := Archive.Open(true, descriptor, container, src);
    b := r.archive;
  }

  /** Reading end to end: open a container build produced from `items` and
      advance once per item.  The session sees the collection; after the k-th
      advance nextItem has returned the k-th item's path and metadata()
      returns the k-th record. */
  method Unpack(container: seq<Entry>, collection: Bytes, items: seq<Json>, files: map<Bytes, LocalFile>,
                src: Bytes, descriptor: int)
    returns (origin: Bytes, names: seq<Bytes>, records: seq<Option<Json>>)
    requires BuiltFrom(container, collection, items, files)
    requires Utf8(CStr(collection)) && forall i :: 0 <= i < |items| ==> NulFree(items[i])
    requires descriptor >= 0
    ensures origin == CStr(collection)
    ensures |names| == |records| == |items|
    ensures forall k :: 0 <= k < |items| ==>
      names[k] == ItemPath(items[k]).value && records[k] == Some(items[k])
  {
    var b := OpenBuilt(container, collection, items, files, src, descriptor);
    origin := b.origin;
    names, records := ReadItems(b, container, collection, items, files);
  }

  /** The reading loop of `Unpack`: advance once per item, collecting what
      nextItem and metadata report. */
  method ReadItems(b: Archive, container: seq<Entry>, collection: Bytes, items: seq<Json>,
                   files: map<Bytes, LocalFile>)
    returns (names: seq<Bytes>, records: seq<Option<Json>>)
    requires BuiltFrom(container, collection, items, files)
    requires ReadingAt(b, container, items, 0)
    modifies b, b.reader
    ensures |names| == |records| == |items|
    ensures forall k :: 0 <= k < |items| ==>
      names[k] == ItemPath(items[k]).value && records[k] == Some(items[k])
  {
    names, records := [], [];
    var k := 0;
    while k < |items|
      invariant k <= |items| && |names| == |records| == k
      invariant b.reader == old(b.reader) && ReadingAt(b, container, items, k)
      invariant forall j :: 0 <= j < k ==> names[j] == ItemPath(items[j]).value
      invariant forall j :: 0 <= j < k ==> records[j] == Some(items[j])
    {
      var name := b.NextItem();
      ItemName(container, collection, items, files, k);
      assert name == ItemPath(items[k]).value;
      var record := b.Metadata();
      assert record == Some(items[k]);
      forall j | 0 <= j < k + 1
        ensures (names + [name])[j] == ItemPath(items[j]).value && (records + [record])[j] == Some(items[j])
      {
        if j < k {
          assert (names + [name])[j] == names[j] && (records + [record])[j] == records[j];
        }
      }
      names, records := names + [name], records + [record];
      k := k + 1;
    }
  }

  /** nextItem then extractItem on a container build produced: the k-th
      advance reports item k's path, and the file extracted holds exactly
      that entry's payload, which is the content the local file had when
      the container was built.  A new
      file gets the entry's permission bits, which are the bits the local
      file had. */
  method ExtractNext(b: Archive, container: seq<Entry>, collection: Bytes, items: seq<Json>,
                     files: map<Bytes, LocalFile>, k: nat, filename: Bytes, fs: LocalFs, now: int)
    returns (name: Bytes)
    requires BuiltFrom(container, collection, items, files)
    requires ReadingAt(b, container, items, k) && k < |items|
    requires fs.Valid()
    modifies b, b.reader, fs
    ensures b.reader == old(b.reader) && ReadingAt(b, container, items, k + 1)
    ensures fs.Valid() && fs.handles == old(fs.handles)
    ensures name == ItemPath(items[k]).value
    ensures CStr(filename) in fs.denied ==> fs.files == old(fs.files)
    ensures CStr(filename) !in fs.denied ==>
      var dest, e, p := CStr(filename), container[k + 1], ItemPath(items[k]).value;
      dest in fs.files && fs.files[dest].data == e.data && |e.data| == e.size &&
      p in files && fs.files[dest].data == files[p].data &&
      (dest !in old(fs.files) ==> fs.files[dest].filetype == Regular && fs.files[dest].perm == e.perm) &&
      (dest !in old(fs.files) ==> fs.files[dest].perm == files[p].perm)
  {
    name := b.NextItem();
    ItemName(container, collection, items, files, k);
    assert PackedFrom(container[k + 1], ItemPath(items[k]).value, files);
    var blocks := b.ExtractItem(filename, fs, now);
  }
}
