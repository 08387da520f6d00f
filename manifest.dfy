/** The manifest: the JSON document `{"collection": origin, "items": [...]}`
    that every container this system writes carries as its first entry,
    INDEX.json, and the item records the list holds. */
module Manifest {
  import opened Text
  import opened Json
  import opened Codec

  /** Name of the manifest entry. */
  const IndexName: Bytes := "INDEX.json"

  /** Permission bits of the manifest entry: 0444 (octal), read-only for all. */
  const IndexPerm: nat := 0x124

  /** The value of the last member named `key` among `ms` (json_loads keeps
      the last of duplicated keys). */
  function LastMember(ms: seq<Member>, key: Bytes): (r: Option<Json>)
    ensures r.Some? ==> Member(key, r.value) in ms
  {
    if ms == [] then None
    else if ms[|ms| - 1].key == key then Some(ms[|ms| - 1].value)
    else LastMember(ms[..|ms| - 1], key)
  }

  /** An object lookup finds a member exactly when one has that key, and
      what it finds is the value of the last such member. */
  lemma {:induction false} LastMemberFinds(ms: seq<Member>, key: Bytes)
    ensures LastMember(ms, key).Some? <==> exists i :: 0 <= i < |ms| && ms[i].key == key
    ensures LastMember(ms, key).Some? ==>
      exists i :: 0 <= i < |ms| && ms[i] == Member(key, LastMember(ms, key).value) &&
        forall j :: i < j < |ms| ==> ms[j].key != key
  {
    if ms != [] {
      var n := |ms|;
      var r := LastMember(ms, key);
      if ms[n - 1].key == key {
        assert ms[n - 1] == Member(key, r.value);
      } else {
        var init := ms[..n - 1];
        LastMemberFinds(init, key);
        assert r == LastMember(init, key);
        if r.Some? {
          var i :| 0 <= i < n - 1 && init[i] == Member(key, r.value) &&
            forall j :: i < j < n - 1 ==> init[j].key != key;
          assert ms[i] == init[i];
          assert forall j :: i < j < n ==> ms[j].key != key by {
            forall j | i < j < n ensures ms[j].key != key {
              if j < n - 1 { assert ms[j] == init[j]; }
            }
          }
        } else {
          forall i | 0 <= i < n ensures ms[i].key != key {
            if i < n - 1 { assert ms[i] == init[i]; }
          }
        }
      }
    }
  }

  /** json_object_get: a member of an object; nothing for any other value. */
  function Get(v: Json, key: Bytes): (r: Option<Json>)
    ensures r.Some? ==> v.Obj?
  {
    if v.Obj? then LastMember(v.members, key) else None
  }

  /** json_string_value, seen through a C string: the string's bytes up to
      the first NUL; nothing when the value is missing or not a string. */
  function StringValue(v: Option<Json>): (r: Option<Bytes>)
    ensures r.Some? <==> v.Some? && v.value.Str?
    ensures r.Some? ==> r.value == CStr(v.value.s)
  {
    if v.Some? && v.value.Str? then Some(CStr(v.value.s)) else None
  }

  /** The elements when `v` is an array: every json_array_* call on the list
      fails or finds nothing when it is missing or not an array. */
  function ArrayItems(v: Option<Json>): (r: Option<seq<Json>>)
    ensures r.Some? <==> v.Some? && v.value.Arr?
    ensures r.Some? ==> r.value == v.value.elems
  {
    if v.Some? && v.value.Arr? then Some(v.value.elems) else None
  }

  /** The keys the session writes hold no NUL. */
  lemma KeysNulFree()
    ensures Nul !in "path" && Nul !in "metadata" && Nul !in "collection" && Nul !in "items"
  {
    assert forall k :: 0 <= k < |"path"| ==> "path"[k] != Nul;
    assert forall k :: 0 <= k < |"metadata"| ==> "metadata"[k] != Nul;
    assert forall k :: 0 <= k < |"collection"| ==> "collection"[k] != Nul;
    assert forall k :: 0 <= k < |"items"| ==> "items"[k] != Nul;
  }

  /** json_string: the C string as a JSON string, or NULL (None) when its
      bytes are not valid UTF-8. */
  function JsonString(s: Bytes): (r: Option<Json>)
    ensures r.Some? <==> Utf8(CStr(s))
    ensures r.Some? ==> r.value.Str? && r.value.s == CStr(s) && Nul !in r.value.s
  {
    if Utf8(CStr(s)) then Some(Str(CStr(s))) else None
  }

  /** The members json_object_set and json_object_set_new leave for `key`:
      one with the value, or none when the value is NULL, which both refuse. */
  function SetMember(key: Bytes, value: Option<Json>): (r: seq<Member>)
    ensures |r| == (if value.Some? then 1 else 0)
    ensures value.Some? ==> r[0] == Member(key, value.value)
  {
    if value.Some? then [Member(key, value.value)] else []
  }

  /** The record addItem appends: "path" only when the path is valid UTF-8,
      "metadata" only when there is metadata. */
  function ItemRecord(path: Bytes, metadata: Option<Json>): (r: Json)
    ensures NulFree(r) <==> metadata.None? || NulFree(metadata.value)
  {
    KeysNulFree();
    var p := SetMember("path", JsonString(path));
    var m := SetMember("metadata", metadata);
    assert forall k :: 0 <= k < |p| ==> MemberNulFree(p[k]);
    assert metadata.Some? ==> (MemberNulFree(m[0]) <==> NulFree(metadata.value));
    var ms := p + m;
    assert forall k :: 0 <= k < |p| ==> ms[k] == p[k];
    assert metadata.Some? ==> ms[|ms| - 1] == m[0];
    Obj(ms)
  }

  /** The path build packs an item under. */
  function ItemPath(item: Json): (r: Option<Bytes>)
    ensures r.Some? ==> Nul !in r.value
  {
    StringValue(Get(item, "path"))
  }

  predicate HasPath(item: Json) { ItemPath(item).Some? }

  /** A record made by addItem names the path it was given, as a C string,
      exactly when that path is valid UTF-8, and holds the metadata it was
      given, if any. */
  lemma ItemPathOfRecord(path: Bytes, metadata: Option<Json>)
    ensures ItemPath(ItemRecord(path, metadata)) == if Utf8(CStr(path)) then Some(CStr(path)) else None
    ensures Get(ItemRecord(path, metadata), "metadata") == metadata
  {
    var ms := ItemRecord(path, metadata).members;
    var p := SetMember("path", JsonString(path));
    assert "metadata" != "path" by { assert "metadata"[0] != "path"[0]; }
    if metadata.Some? {
      assert ms[|ms| - 1] == Member("metadata", metadata.value);
      assert ms[..|ms| - 1] == p;
    } else {
      assert ms == p;
    }
    assert LastMember(ms, "path") == LastMember(p, "path");
    if Utf8(CStr(path)) {
      assert p == [Member("path", Str(CStr(path)))];
      assert LastMember(p, "path") == Some(Str(CStr(path)));
      CStrOfNulFree(CStr(path));
    } else {
      assert p == [];
    }
  }

  /** The document build writes: "collection" only when the origin is valid
      UTF-8, then "items". */
  function ManifestDoc(origin: Bytes, items: seq<Json>): (r: Json)
    ensures NulFree(r) <==> forall i :: 0 <= i < |items| ==> NulFree(items[i])
  {
    KeysNulFree();
    var c := SetMember("collection", JsonString(origin));
    var ms := c + [Member("items", Arr(items))];
    assert forall k :: 0 <= k < |c| ==> MemberNulFree(c[k]);
    assert MemberNulFree(ms[|ms| - 1]) <==> NulFree(Arr(items));
    assert forall k :: 0 <= k < |ms| - 1 ==> ms[k] == c[k];
    Obj(ms)
  }

  /** The document's "collection" reads back as the origin (as a C string)
      exactly when the origin is valid UTF-8, and its "items" as the list. */
  lemma ManifestFields(origin: Bytes, items: seq<Json>)
    ensures StringValue(Get(ManifestDoc(origin, items), "collection")) ==
      if Utf8(CStr(origin)) then Some(CStr(origin)) else None
    ensures ArrayItems(Get(ManifestDoc(origin, items), "items")) == Some(items)
  {
    var ms := ManifestDoc(origin, items).members;
    var c := SetMember("collection", JsonString(origin));
    assert "collection" != "items" by { assert "collection"[0] != "items"[0]; }
    assert LastMember(ms, "items") == Some(Arr(items));
    assert ms[..|ms| - 1] == c;
    if Utf8(CStr(origin)) {
      assert c[..0] == [];
      assert LastMember(ms, "collection") == Some(Str(CStr(origin)));
      CStrOfNulFree(CStr(origin));
    } else {
      assert LastMember(ms, "collection") == None;
    }
  }

  /** The manifest entry build writes first: INDEX.json, a regular file with
      permission 0444, sized to the document's text.  The text reads back
      as the document unless an item holds a NUL in a string or a key. */
  function ManifestEntry(origin: Bytes, items: seq<Json>): (e: Entry)
    ensures e.pathname == IndexName && e.filetype == Regular && e.perm == IndexPerm
    ensures WellSized(e) && Nul !in e.data
    ensures Decode(e.data) ==
      if forall i :: 0 <= i < |items| ==> NulFree(items[i]) then Some(ManifestDoc(origin, items)) else None
  {
    var text := Encode(ManifestDoc(origin, items));
    DecodeEncode(ManifestDoc(origin, items));
    Entry(IndexName, Regular, IndexPerm, |text|, 0, text)
  }
}
