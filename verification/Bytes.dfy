/** Little-endian words in byte buffers, as the FAT code loads and stores them. */
module Bytes {

  type byte = b: int | 0 <= b < 256

  function LdWord(s: seq<byte>, i: nat): (v: nat)
    requires i + 2 <= |s|
    ensures v < 0x1_0000
  {
    s[i] as int + 0x100 * s[i + 1] as int
  }

  function LdDword(s: seq<byte>, i: nat): (v: nat)
    requires i + 4 <= |s|
    ensures v < 0x1_0000_0000
    ensures v == LdWord(s, i) + 0x1_0000 * LdWord(s, i + 2)
  {
    s[i] as int + 0x100 * s[i + 1] as int + 0x1_0000 * s[i + 2] as int + 0x100_0000 * s[i + 3] as int
  }

  /** The lowest byte comes first. */
  lemma LittleEndian(s: seq<byte>, i: nat)
    requires i + 4 <= |s|
    ensures LdWord(s, i) % 0x100 == s[i] as int && LdWord(s, i) / 0x100 == s[i + 1] as int
    ensures LdDword(s, i) % 0x1_0000 == LdWord(s, i) && LdDword(s, i) / 0x1_0000 == LdWord(s, i + 2)
  {
    var lo, hi := LdWord(s, i), LdWord(s, i + 2);
    assert LdDword(s, i) == 0x1_0000 * hi + lo;
  }

  /** Storing truncates to 16 bits, touches two bytes and loads back. */
  function StWord(s: seq<byte>, i: nat, v: nat): (r: seq<byte>)
    requires i + 2 <= |s|
    ensures |r| == |s|
    ensures LdWord(r, i) == v % 0x1_0000
    ensures forall k :: 0 <= k < |s| && (k < i || i + 2 <= k) ==> r[k] == s[k]
  {
    TwoBytes(v);
    s[i := v % 0x100][i + 1 := v / 0x100 % 0x100]
  }

  lemma TwoBytes(v: nat)
    ensures v % 0x100 + 0x100 * (v / 0x100 % 0x100) == v % 0x1_0000
  {
    var q := v / 0x100;
    LowWord(v, q / 0x100, v % 0x100 + 0x100 * (q % 0x100));
  }

  lemma LowWord(v: nat, k: nat, r: nat)
    requires v == 0x1_0000 * k + r && r < 0x1_0000
    ensures v % 0x1_0000 == r
  {
  }

  /** Storing truncates to 32 bits, touches four bytes and loads back. */
  function StDword(s: seq<byte>, i: nat, v: nat): (r: seq<byte>)
    requires i + 4 <= |s|
    ensures |r| == |s|
    ensures LdDword(r, i) == v % 0x1_0000_0000
    ensures forall k :: 0 <= k < |s| && (k < i || i + 4 <= k) ==> r[k] == s[k]
  {
    StWord(StWord(s, i, v), i + 2, v / 0x1_0000)
  }

  /** Stores leave what does not overlap as it was. */
  lemma WordApart(s: seq<byte>, r: seq<byte>, i: nat, lo: nat, hi: nat)
    requires |r| == |s| && i + 2 <= |s| && (i + 2 <= lo || hi <= i)
    requires forall k :: 0 <= k < |s| && (k < lo || hi <= k) ==> r[k] == s[k]
    ensures LdWord(r, i) == LdWord(s, i)
  {
  }

  lemma DwordApart(s: seq<byte>, r: seq<byte>, i: nat, lo: nat, hi: nat)
    requires |r| == |s| && i + 4 <= |s| && (i + 4 <= lo || hi <= i)
    requires forall k :: 0 <= k < |s| && (k < lo || hi <= k) ==> r[k] == s[k]
    ensures LdDword(r, i) == LdDword(s, i)
  {
  }

  method PutWord(a: array<byte>, i: nat, v: nat)
    requires i + 2 <= a.Length
    modifies a
    ensures a[..] == StWord(old(a[..]), i, v)
  {
    a[i] := v % 0x100;
    a[i + 1] := v / 0x100 % 0x100;
  }

  method PutDword(a: array<byte>, i: nat, v: nat)
    requires i + 4 <= a.Length
    modifies a
    ensures a[..] == StDword(old(a[..]), i, v)
  {
    PutWord(a, i, v);
    PutWord(a, i + 2, v / 0x1_0000);
  }

  /** Overwrite a run of a buffer (the memcpy of the C code). */
  function Splice(s: seq<byte>, i: nat, data: seq<byte>): (r: seq<byte>)
    requires i + |data| <= |s|
    ensures |r| == |s|
    ensures r[i..i + |data|] == data
    ensures forall k :: 0 <= k < |s| && (k < i || i + |data| <= k) ==> r[k] == s[k]
    ensures forall k :: i <= k < i + |data| ==> r[k] == data[k - i]
  {
    s[..i] + data + s[i + |data|..]
  }

  method CopyInto(a: array<byte>, i: nat, data: seq<byte>)
    requires i + |data| <= a.Length
    modifies a
    ensures a[..] == Splice(old(a[..]), i, data)
  {
    forall k | 0 <= k < |data| { a[i + k] := data[k]; }
  }
}
