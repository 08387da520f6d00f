# Archive session model

This project models, in Dafny, the archive session class `Archive` of the
wur-microservices repository (src/Archive.hh). A session packs a set of
objects into a single container file, and unpacks such a container.

- **Building session.** `create` opens a write handle on the codec and starts
  with an empty item list. `addItem` appends `{"path", "metadata"}` records.
  The destructor runs `build`. `build` writes the manifest
  `{"collection": origin, "items": list}` as the first entry, `INDEX.json`
  (a regular file, permission 0444). It then writes one entry per item, in
  list order, each holding the content of the local file the item names.
- **Reading session.** `open` accepts a container only when its first entry is
  `INDEX.json`. It takes the origin collection from the manifest's
  `"collection"` field and the item list from `"items"`. `nextItem` counts one
  more item and moves the codec to the next entry. `extractItem` copies the
  current entry into a local file. `metadata` returns the record at position
  `index - 1`.

The codec (libarchive) is modelled as a sequence of entries. The writer
(`Codec.ArchiveWriter`) appends headers and streams payload into the last
entry. Like libarchive's tar writers, it drops payload beyond the declared
size and pads a short payload with zero bytes. The reader
(`Codec.ArchiveReader`) walks the entries in order. The local file system is
a map from paths to files (`LocalFiles.LocalFs`). The storage backend's
callbacks are modelled as the status mappings they perform
(`Adapter`). jansson's `json_dumps`/`json_loads` pair is modelled by a compact
JSON text codec (`Json.Encode`/`Json.Decode`), and its round trip is proved
for the values the model's `Json` type holds: null, booleans, integers,
strings, arrays and objects, but no real numbers (see "Left out").
`json_loads` is called without `JSON_ALLOW_NUL`, so it refuses a string or key
holding a NUL byte (written `\u0000`). `Json.NulFree` names the documents it
accepts back. `json_string` returns NULL for bytes that are not valid UTF-8;
`Json.Utf8` is the check it applies.

The model follows the code, including these easily missed behaviours:

- `open` does not reject a manifest that fails to parse or has no string
  `"collection"`. The code then assigns a `std::string` from a null pointer,
  which is undefined behaviour. The model reports this as the `Undefined`
  outcome, not as a refusal.
- A manifest whose `"items"` is missing or is not an array still opens. The
  list is then absent (`None`): `metadata` finds nothing and `addItem` appends
  nothing.
- `metadata` before the first `nextItem`, or past the end of the list, returns
  nothing (a null pointer) rather than failing.
- `addItem` on a reading session is not refused. It appends to the manifest's
  item list.
- `a_creat` obtains its descriptor through the read-only helper `_open`, not
  through `_creat` (src/Archive.hh:276). The model keeps the callback as
  written: a status mapping of the descriptor it is given. When the
  destination does not exist yet, the read-only open most likely fails, and
  `create` then returns no session (`Archive.Create` with a negative
  descriptor). When it does exist, the backend writes made through `a_write`
  on that read-only descriptor would most likely fail. `Pack` and `RoundTrip`
  therefore describe the entries handed to libarchive, not bytes that reach
  storage. Backend failures are left out (see "Left out").
- `build` stores `read`'s result in a `size_t` (src/Archive.hh:176). A failed
  read (-1) therefore counts as a positive length, and the copy loop at line
  210 never ends when an item's file is missing or cannot be read. The model
  builds only from items that name readable regular files (`FailedReadSpins`
  shows the endless loop).
- `addItem` and `build` turn C strings into JSON with `json_string`, which
  returns NULL for bytes that are not valid UTF-8, and `json_object_set_new`
  then adds no member. An item added under such a path has no `"path"`:
  `build` reads a NULL filename, its open fails and the copy loop never ends
  (`UnencodablePathNotPackable`, `FailedReadSpins`). An origin that is not
  valid UTF-8 leaves the manifest without `"collection"`: the build finishes,
  but opening the container assigns a `std::string` from a null pointer
  (`RoundTrip` states this outcome).
- Caller metadata whose strings or keys hold a NUL byte is written out, but the
  manifest then no longer loads. Opening such a container assigns a
  `std::string` from a null pointer (`RoundTrip` states this outcome).
- `extractItem` opens the file with `O_CREAT | O_TRUNC`. The entry's
  permission bits apply only when the file is new. An existing file keeps its
  own bits.

Byte strings are `seq<Byte>`, where a byte is a character below 256.
`Text.CStr` models the `c_str()` and `const char*` conversions: it keeps the
bytes before the first NUL.

## Model

| member | source | states |
|---|---|---|
| `Text.CStr` | src/Archive.hh:137-138 | the C-string view of a byte string is its prefix up to the first NUL and holds no NUL |
| `Text.CStrOfNulFree` | src/Archive.hh:179 | a byte string without NUL passes through a C string unchanged |
| `Json.Encode` | src/Archive.hh:181-184 | the manifest text never contains a NUL, so `strlen` of it is its full length |
| `Json.Decode` | src/Archive.hh:106-110 | json_loads accepts only a whole array or object |
| `Json.AsciiUtf8` | src/Archive.hh:138 | every ASCII byte string passes json_string's UTF-8 check |
| `Json.Latin1Refused` | src/Archive.hh:138 | a lone Latin-1 byte 0xE9 fails the UTF-8 check, while its UTF-8 form 0xC3 0xA9 passes |
| `Json.DecodeEncode` | src/Archive.hh:178-181 | json_loads(json_dumps(doc)) gives back doc exactly when no string or key of doc holds a NUL byte, and fails (NULL) otherwise |
| `Adapter.OpenCallback` | src/Archive.hh:272-286 | a_open/a_creat store the backend descriptor and report ARCHIVE_OK exactly when it is non-negative |
| `Adapter.ReadCallback` | src/Archive.hh:288-300 | a_read turns every backend failure into -1 and exposes no bytes; otherwise it passes the count and the first `count` bytes of the transfer buffer |
| `Adapter.WriteCallback` | src/Archive.hh:302-314 | a_write turns every backend failure into -1 and passes byte counts through |
| `Codec.ArchiveWriter.WriteHeader` | src/Archive.hh:185-190 | writing a header finishes the previous entry and starts a new one with an empty payload |
| `Codec.ArchiveWriter.WriteData` | src/Archive.hh:191 | payload goes to the current entry, never beyond its declared size |
| `Codec.ArchiveWriter.Close` | src/Archive.hh:126 | freeing the writer finishes the last entry; every entry's payload then matches its declared size |
| `Codec.ArchiveReader.NextHeader` | src/Archive.hh:146 | the reader yields the entries in order and reports exhaustion once they run out |
| `Codec.ArchiveReader.ReadData` | src/Archive.hh:162 | a read takes at most `max` bytes from the front of the current payload, in order |
| `LocalFiles.ReadLocal` | src/Archive.hh:209-210 | a read of a present file returns at most `max` bytes, the next ones at the offset, and 0 only at end of file; a missing file reads -1 |
| `LocalFiles.Truncated` | src/Archive.hh:161 | open with O_CREAT/O_TRUNC leaves an empty file: a new one is regular with the given bits, an existing one keeps its type and bits |
| `LocalFiles.LocalFs.Stat` | src/Archive.hh:203 | stat finds a file exactly when one exists at the path |
| `LocalFiles.LocalFs.OpenWrite` | src/Archive.hh:161 | the open fails (-1) on refused paths, which include every directory; otherwise it truncates or creates the file and returns a fresh descriptor |
| `LocalFiles.LocalFs.Write` | src/Archive.hh:163 | a write through an open descriptor appends to its file; through -1 it changes nothing |
| `LocalFiles.LocalFs.Close` | src/Archive.hh:165 | close releases the descriptor and leaves the files alone |
| `Manifest.LastMember` | src/Archive.hh:114-115 | an object lookup returns only the value of a member with that key |
| `Manifest.LastMemberFinds` | src/Archive.hh:114-115 | an object lookup finds a member exactly when one has that key, and returns the last such member |
| `Manifest.Get` | src/Archive.hh:114-115 | json_object_get finds a member only in an object (the same lookup reads "path" in build, line 201) |
| `Manifest.StringValue` | src/Archive.hh:114 | json_string_value yields a string's bytes, as a C string, and nothing for a missing or non-string value |
| `Manifest.ArrayItems` | src/Archive.hh:115 | the list is usable only when "items" is an array, and then holds its elements |
| `Manifest.JsonString` | src/Archive.hh:138 | json_string gives a string exactly when the C string is valid UTF-8, and then holds the C string's bytes |
| `Manifest.SetMember` | src/Archive.hh:138-139 | json_object_set(_new) adds one member holding the value, and none for a NULL value |
| `Manifest.ItemRecord` | src/Archive.hh:137-139 | the record addItem builds can be loaded back exactly when its metadata, if any, holds no NUL in a string or key (the path, if stored, is a C string) |
| `Manifest.ItemPath` | src/Archive.hh:200-201 | the path build reads from a record is a C string: it holds no NUL |
| `Manifest.ItemPathOfRecord` | src/Archive.hh:134-141 | a record addItem builds names the path it was given, as a C string, exactly when that path is valid UTF-8 (no path otherwise), and holds its metadata under "metadata", or nothing when there is none |
| `Manifest.ManifestDoc` | src/Archive.hh:178-180 | the document build writes can be loaded back exactly when every item can (origin is a C string, keys hold no NUL) |
| `Manifest.ManifestFields` | src/Archive.hh:178-180 | the manifest's "collection" reads back as the origin exactly when the origin is valid UTF-8 (it is absent otherwise), and its "items" as the list |
| `Manifest.ManifestEntry` | src/Archive.hh:184-191 | the manifest entry is INDEX.json, regular, perm 0444, sized to its text, and its payload decodes to {collection, items} when every item is free of NUL, and fails to decode otherwise |
| `ArchiveSession.OpenSpec` | src/Archive.hh:72-120 | open refuses exactly when the handle cannot be allocated, the backend descriptor is negative, the container is empty, or the first entry is not named INDEX.json |
| `ArchiveSession.Archive.Init` | src/Archive.hh:27-37 | the constructor stores the handle, the mode, the list, the path and the origin, and starts at index 0 with no current entry |
| `ArchiveSession.Archive.Create` | src/Archive.hh:42-67 | create yields a session exactly when the handle is allocated and the destination opens; it then builds with an empty list, the given origin, and the gzip+ustar fallback unless the extension picks a format |
| `ArchiveSession.Archive.Open` | src/Archive.hh:72-120 | open yields no session, undefined behaviour, or a reading session as OpenSpec says; the session holds the manifest's origin and items and stands just past INDEX.json |
| `ArchiveSession.Archive.AddItem` | src/Archive.hh:134-141 | addItem appends exactly one record {path, metadata} at the end and leaves the earlier records unchanged |
| `ArchiveSession.Archive.NextItem` | src/Archive.hh:143-150 | nextItem increases the index by exactly 1 on every call; it makes the next entry current, with its whole payload unread, and returns its pathname; once the container is exhausted it returns "" with no current entry and no payload |
| `ArchiveSession.Archive.Metadata` | src/Archive.hh:168-170 | metadata is the whole record at position index - 1 when 1 <= index <= the list length, and nothing otherwise |
| `ArchiveSession.Archive.ExtractItem` | src/Archive.hh:152-166 | extraction copies exactly the rest of the current payload into the file, in blocks of 1 to 8192 bytes, with the entry's bits on a new file; a refused open leaves the files unchanged |
| `ArchiveSession.Archive.CopyOut` | src/Archive.hh:162-165 | each block the codec yields is appended to the file, in order, until the payload is used up; through a refused descriptor no file changes |
| `ArchiveSession.Archive.WriteIndex` | src/Archive.hh:178-192 | the first entry written is the manifest entry for (origin, list) |
| `ArchiveSession.Archive.WriteItem` | src/Archive.hh:194-214 | for a readable regular file, the item entry carries the item's path, the file's stat fields and its whole content |
| `ArchiveSession.Archive.CopyIn` | src/Archive.hh:209-213 | with the loop tested on the size_t `len` as written, the current entry receives the file's whole content, in order, and the earlier entries stay as they were |
| `ArchiveSession.ToSizeT` | src/Archive.hh:176 | storing read's ssize_t result in `len` gives the value congruent to it modulo 2^64, and leaves non-negative counts unchanged |
| `ArchiveSession.FailedReadSpins` | src/Archive.hh:209-211 | as written, a read on a file that could not be opened gives -1, which the size_t test takes as positive, and consumes nothing, so the loop repeats forever |
| `ArchiveSession.ReadableReadStops` | src/Archive.hh:210 | on a file that opened, the size_t test holds exactly while unread bytes remain |
| `ArchiveSession.Archive.Build` | src/Archive.hh:173-217 | when every item names a path (valid UTF-8 when added) that is a readable regular file, build writes the manifest first, then exactly one entry per list item, in list order |
| `ArchiveSession.Archive.WriteItems` | src/Archive.hh:194-214 | after the manifest entry, the loop over the list leaves exactly one entry per item, in list order, each carrying the item's path and that file's stat fields and content, with the manifest entry untouched |
| `ArchiveSession.Archive.Teardown` | src/Archive.hh:122-132 | tearing down a building session whose items name paths of readable regular files leaves the container build promises, with every entry well sized |
| `ArchiveSession.RoundTrip` | src/Archive.hh:100-119 | opening a built container recovers the origin (as a C string) and the same item list in the same order; when the origin is not valid UTF-8 (no "collection") or an item holds a NUL in a string or key (the manifest does not load), open is undefined |
| `ArchiveSession.OpenManifest` | src/Archive.hh:100-119 | any container whose first entry is the manifest of (origin, items) opens with that origin and that list, whatever follows it, or is undefined when the origin is not valid UTF-8 or the manifest does not load |
| `ArchiveSession.EntryOrder` | src/Archive.hh:194-208 | in a built container, entry k carries the path of item k and the content of that file |
| `ArchiveSession.ItemName` | src/Archive.hh:143-150 | on a built container, the name nextItem reports after its (k+1)-th call is the path of item k |
| `ArchiveSession.Records` | src/Archive.hh:134-141 | the records addItem makes from (path, metadata) pairs, one per pair, in order |
| `ArchiveSession.Pack` | src/Archive.hh:42-141 | create, then addItem for each pair whose path is valid UTF-8 and names a readable regular file, then teardown, writes the container build promises for those records |
| `ArchiveSession.UnencodablePathNotPackable` | src/Archive.hh:199-210 | an item added under a path that is not valid UTF-8 has no "path", so build cannot pack it |
| `ArchiveSession.OpenBuilt` | src/Archive.hh:72-120 | opening a built container whose origin is valid UTF-8 and whose items are NUL-free yields a session with the origin and the items, positioned at the first item |
| `ArchiveSession.Unpack` | src/Archive.hh:143-170 | after the k-th nextItem on a built container, nextItem has returned the k-th item's path and metadata returns the k-th record |
| `ArchiveSession.ReadItems` | src/Archive.hh:143-170 | advancing a freshly opened session once per item yields every item's path and record, in list order |
| `ArchiveSession.ExtractNext` | src/Archive.hh:143-166 | on a built container, extracting after the (k+1)-th nextItem writes exactly item k's entry payload, which is the local file's content at build time; a new file gets the entry's bits, which are the local file's bits |

## Left out

- src/msiGetEpicPID.cc is not part of this model. It is an HTTP client with a privilege check and a credentials lookup.
- Format and filter selection inside libarchive: the writer's choice is an opaque flag (`byExtension`) with the gzip+ustar fallback. The reader's format auto-detection is not modelled.
- Compression, archive framing and the byte stream that reaches the storage backend. The container is a sequence of entries. The callbacks are modelled as status mappings only, and the codec model does not route its I/O through them. Backend failures during a write or read, which libarchive turns into a fatal state, are not modelled.
- a_close and the rsFile* helpers (`_creat`, `_open`, `_read`, `_write`, `_close`) are foreign calls to the backend. `_creat` is never called by the code.
- jansson's text format. json_dumps writes 2-space indentation and escapes control characters; without `JSON_ENSURE_ASCII` it writes non-ASCII bytes as they are. The model's text is compact JSON that escapes only `"`, `\` and NUL (as `\u0000`, which `Json.Decode` refuses, as json_loads does without `JSON_ALLOW_NUL`). The parser accepts unescaped control characters other than NUL, which jansson refuses. It also accepts strings that are not valid UTF-8, which json_loads refuses; the strings build writes are checked by `json_string` before they reach the manifest.
- `Json.Decode` accepts less than json_loads: it refuses whitespace, every escape other than `\"` and `\\` (such as `\n`, `\/` or `\u00e9`) and real numbers. `ArchiveSession.OpenSpec` therefore reports `ManifestUnusable` for manifests the program opens but the model's parser cannot read. That includes every INDEX.json the program itself writes with its indentation. Within the model, build writes compact text, so `RoundTrip` is unaffected.
- `Json.DecodeEncode` is proved for every `Json` value, including objects with duplicate keys, integers of any size and strings that are not valid UTF-8. No jansson value built through its checking constructors has any of these: object keys are unique, `json_int_t` is 64-bit and `json_string` refuses invalid UTF-8 (json_dumps would fail on such a string). The `Json` type has no real numbers (`json_real`), which json_dumps writes and json_loads reads back. Caller metadata holding a real cannot be expressed, so such items are outside `Json.DecodeEncode`, `ArchiveSession.RoundTrip` and `ArchiveSession.Unpack`. On arbitrary text, json_loads keeps only the last of duplicate keys (as `Manifest.LastMember` does) and refuses integers out of range, which `Json.Decode` does not model.
- Shared JSON references: `json_object_set` shares the caller's metadata by reference. The model holds values, so later changes made by the caller are not seen.
- Memory and reference-count management (`new`/`delete`, `json_incref`/`json_decref`, `free`).
- `ArchiveSession.Archive.ExtractItem`: it does not model the umask, short or failed writes, or codec read errors.
- `ArchiveSession.Archive.ExtractItem` requires at least one `nextItem` first. Before that, the `entry` member is uninitialised and the call is undefined.
- `ArchiveSession.Archive.NextItem` requires a reading session. A write handle has no read operations, so the call would reach a null function pointer.
- `ArchiveSession.Archive.WriteItem` and `ArchiveSession.Archive.CopyIn` require the item to name a readable regular file. Otherwise stat fails or the open or the reads fail, and the loop never ends (`FailedReadSpins`). Read permissions are not modelled: every regular file is taken to be readable. Read errors in the middle of a file are not modelled either.
- `ArchiveSession.Archive.Build`, `ArchiveSession.Archive.Teardown` and `ArchiveSession.Pack` require every item to carry a path (so `Pack` requires every path to be valid UTF-8) that names a readable regular file, because the destructor never returns otherwise. The model promises nothing for such a session.
- `LocalFiles.LocalFs`: a directory at a path refuses extraction (EISDIR), because every directory is taken to be a refused path. Other file types keep their type when truncated.
- `ArchiveSession.OpenSpec`: when the manifest entry declares more bytes than its payload holds, the C buffer keeps uninitialised bytes. The model reads only the payload.
- `ArchiveSession.Archive.NextItem`: the `size_t` index is unbounded, so wrap-around after 2^64 calls is not modelled.
- Modification times: the manifest entry has mtime 0 because it is never set. A file that extraction creates or truncates is stamped with the clock reading passed in as `now`.
- `ArchiveSession.Unpack` and `ArchiveSession.OpenBuilt` require the origin to be valid UTF-8 and every item to be free of NUL. For any other origin or item list, `ArchiveSession.RoundTrip` shows that open is undefined.
- Teardown of a reading session only releases the read handle. Nothing observable is modelled there.
