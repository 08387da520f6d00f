/** Bytes, C strings and optional values shared by every other module.

    The session works on byte strings throughout (std::string, const char*,
    archive payloads).  A byte is modelled as a character below 256 so that
    literals such as "INDEX.json" can be written as they appear in the code. */
module Text {

  type Byte = c: char | c as int < 256 witness '\0'
  type Bytes = seq<Byte>

  /** The terminating byte of a C string. */
  const Nul: Byte := '\0'

  datatype Option<T> = None | Some(value: T)

  function Min(a: nat, b: nat): nat { if a <= b then a else b }

  /** The bytes a `const char*` view of `s` sees (`s.c_str()`): everything
      before the first NUL byte. */
  function CStr(s: Bytes): (r: Bytes)
    ensures Nul !in r
    ensures r <= s
    ensures |r| == |s| || s[|r|] == Nul
  {
    if s == [] then []
    else if s[0] == Nul then []
    else [s[0]] + CStr(s[1..])
  }

  /** A byte string without a NUL survives the trip through a C string. */
  lemma {:induction false} CStrOfNulFree(s: Bytes)
    requires Nul !in s
    ensures CStr(s) == s
  {
    if s != [] {
      assert s[0] in s;
      assert Nul !in s[1..] by {
        forall k | 0 <= k < |s[1..]| ensures s[1..][k] != Nul { assert s[1..][k] == s[k + 1]; }
      }
      CStrOfNulFree(s[1..]);
      assert s == [s[0]] + s[1..];
    }
  }

  /** `n` zero bytes: what a writer pads a short entry with. */
  function Zeros(n: nat): (r: Bytes)
    ensures |r| == n
    ensures forall k :: 0 <= k < n ==> r[k] == Nul
  {
    if n == 0 then [] else Zeros(n - 1) + [Nul]
  }

  /** The blocks of a chunked copy, joined in order. */
  function Concat(blocks: seq<Bytes>): Bytes
  {
    if blocks == [] then [] else Concat(blocks[..|blocks| - 1]) + blocks[|blocks| - 1]
  }
}
