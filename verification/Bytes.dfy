/** Bytes, flattening of chunk lists, and the fixed-width integers the wire formats use. */
module Bytes {

  type Byte = x: int | 0 <= x < 256

  const TWO32: nat := 0x1_0000_0000

  type Uint32 = x: int | 0 <= x < TWO32

  /** Unsigned 32-bit arithmetic keeps the remainder. */
  function Wrap32(x: nat): (r: Uint32)
    ensures x < TWO32 ==> r == x
  {
    x % 0x1_0000_0000
  }

  /** Concatenation of a list of chunks. */
  function Flatten<T>(chunks: seq<seq<T>>): (r: seq<T>) {
    if chunks == [] then [] else chunks[0] + Flatten(chunks[1..])
  }

  lemma FlattenCons<T>(x: seq<T>, rest: seq<seq<T>>)
    ensures Flatten([x] + rest) == x + Flatten(rest)
  {
    assert ([x] + rest)[1..] == rest;
  }

  lemma ConcatAssoc<T>(a: seq<T>, b: seq<T>, c: seq<T>)
    ensures a + (b + c) == (a + b) + c
  {
  }

  lemma {:induction false} FlattenConcat<T>(a: seq<seq<T>>, b: seq<seq<T>>)
    ensures Flatten(a + b) == Flatten(a) + Flatten(b)
  {
    if a == [] {
      assert a + b == b;
    } else {
      FlattenConcat(a[1..], b);
      assert a + b == [a[0]] + (a[1..] + b);
      FlattenCons(a[0], a[1..] + b);
      ConcatAssoc(a[0], Flatten(a[1..]), Flatten(b));
    }
  }

  lemma FlattenSnoc<T>(a: seq<seq<T>>, x: seq<T>)
    ensures Flatten(a + [x]) == Flatten(a) + x
  {
    FlattenConcat(a, [x]);
    assert Flatten([x]) == x;
  }

  lemma DropDrop<T>(s: seq<T>, i: nat, j: nat)
    requires i + j <= |s|
    ensures s[i..][j..] == s[i + j..]
  {
  }

  lemma SplitAt<T>(a: seq<T>, b: seq<T>)
    ensures (a + b)[..|a|] == a && (a + b)[|a|..] == b
  {
  }

  /** memcpy or memmove of x into a buffer at offset `at`. */
  function Overwrite(b: seq<Byte>, at: nat, x: seq<Byte>): (r: seq<Byte>)
    requires at + |x| <= |b|
    ensures |r| == |b|
  {
    b[..at] + x + b[at + |x|..]
  }

  /** A little-endian 32-bit field, as the processors adb and fastboot run on store it. */
  function EncodeLE32(v: Uint32): (r: seq<Byte>)
    ensures |r| == 4
    ensures DecodeLE32(r) == v
  {
    var (h1, b0) := (v / 256, v % 256);
    var (h2, b1) := (h1 / 256, h1 % 256);
    [b0, b1, h2 % 256, h2 / 256]
  }

  function DecodeLE32(s: seq<Byte>): (v: Uint32)
    requires |s| == 4
  {
    s[0] as int + 256 * s[1] as int + 65536 * s[2] as int + 16777216 * s[3] as int
  }

  /** A 4-byte field determines its number and the number determines the field. */
  lemma EncodeDecodeLE32(s: seq<Byte>)
    requires |s| == 4
    ensures EncodeLE32(DecodeLE32(s)) == s
  {
    var v := DecodeLE32(s);
    assert v / 256 == s[1] as int + 256 * s[2] as int + 65536 * s[3] as int;
    assert v / 256 / 256 == s[2] as int + 256 * s[3] as int;
  }
}
