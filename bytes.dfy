/** Byte-level vocabulary shared by the model of the RDP bitmap cache parser:
    the byte type, Python-style slicing and repetition, little-endian integer
    fields, and the join of a list of buffers. */
module Bytes {

  type byte = bv8

  datatype Option<T> = None | Some(value: T)

  datatype Result<T, E> = Ok(value: T) | Err(error: E)

  function Min(a: int, b: int): int { if a < b then a else b }

  function Max(a: int, b: int): int { if a < b then b else a }

  /** Python's `s[k:]` for k >= 0: the empty sequence once k passes the end. */
  function Drop<T>(s: seq<T>, k: nat): (r: seq<T>)
    ensures |r| == Max(|s| - k, 0)
    ensures forall i :: 0 <= i < |r| ==> r[i] == s[k + i]
  {
    if k >= |s| then [] else s[k..]
  }

  /** Python's `s[lo:hi]` for non-negative bounds: both clamp to the length,
      and a reversed range is empty. */
  function Slice<T>(s: seq<T>, lo: nat, hi: nat): (r: seq<T>)
    ensures |r| == Max(Min(hi, |s|) - lo, 0)
    ensures forall i :: 0 <= i < |r| ==> r[i] == s[lo + i]
  {
    if lo >= Min(hi, |s|) then [] else s[lo..Min(hi, |s|)]
  }

  /** Python's `s * n`: n copies of s one after another, nothing when n <= 0. */
  function Repeat<T>(s: seq<T>, n: int): (r: seq<T>)
    ensures |r| == |s| * Max(n, 0)
    decreases n
  {
    if n <= 0 then [] else s + Repeat(s, n - 1)
  }

  lemma MulAtLeast(k: int, m: int)
    requires k >= 1 && m >= 0
    ensures k * m >= m
  {
    if k > 1 {
      MulAtLeast(k - 1, m);
      assert k * m == (k - 1) * m + m;
    }
  }

  /** Euclidean division is determined by any quotient/remainder pair. */
  lemma DivModUnique(a: int, m: int, q: int, r: int)
    requires m > 0 && a == q * m + r && 0 <= r < m
    ensures a / m == q && a % m == r
  {
    var q', r' := a / m, a % m;
    assert a == q' * m + r';
    if q' > q {
      assert (q' - q) * m == r - r' by { assert q' * m - q * m == (q' - q) * m; }
      MulAtLeast(q' - q, m);
    } else if q' < q {
      assert (q - q') * m == r' - r by { assert q * m - q' * m == (q - q') * m; }
      MulAtLeast(q - q', m);
    }
  }

  /** Shifting by a whole number of m-blocks keeps the position inside a block. */
  lemma ModShift(a: int, b: int, m: int)
    requires m > 0 && b % m == 0
    ensures (a - b) % m == a % m
  {
    DivModUnique(a - b, m, a / m - b / m, a % m);
  }

  /** Every byte of a repetition is the byte of the pattern at the same offset
      modulo the pattern length. */
  lemma {:induction false} RepeatAt<T>(s: seq<T>, n: int, i: int)
    requires 0 <= i < |Repeat(s, n)|
    ensures |s| > 0 && Repeat(s, n)[i] == s[i % |s|]
    decreases n
  {
    if i < |s| {
      DivModUnique(i, |s|, 0, i);
    } else {
      RepeatAt(s, n - 1, i - |s|);
      ModShift(i, |s|, |s|);
    }
  }

  /** Little-endian unsigned 16-bit field at offset i. */
  function U16(s: seq<byte>, i: nat): (v: nat)
    requires i + 2 <= |s|
    ensures v < 0x1_0000
  {
    s[i] as nat + 256 * s[i + 1] as nat
  }

  /** Little-endian unsigned 32-bit field at offset i. */
  function U32(s: seq<byte>, i: nat): nat
    requires i + 4 <= |s|
  {
    s[i] as nat + 256 * s[i + 1] as nat + 65536 * s[i + 2] as nat + 16777216 * s[i + 3] as nat
  }

  predicate IsU32(x: int) { 0 <= x < 0x1_0000_0000 }

  /** struct.pack("<L", x): four little-endian bytes. */
  function PackU32(x: nat): (r: seq<byte>)
    requires IsU32(x)
    ensures |r| == 4 && U32(r, 0) == x
  {
    var a, b, c, d := x % 256, x / 256 % 256, x / 65536 % 256, x / 16777216;
    Digits(x);
    [ByteOf(a), ByteOf(b), ByteOf(c), ByteOf(d)]
  }

  /** The four base-256 digits of a 32-bit value. */
  lemma Digits(x: nat)
    requires IsU32(x)
    ensures x / 16777216 < 256
    ensures x == x % 256 + 256 * (x / 256 % 256) + 65536 * (x / 65536 % 256) + 16777216 * (x / 16777216)
  {
    assert x / 256 == x / 256 % 256 + 256 * (x / 65536);
    assert x / 65536 == x / 65536 % 256 + 256 * (x / 16777216);
  }

  /** The base-256 digits of x = a + 256b + 65536c + 16777216d are a, b, c, d. */
  lemma DigitsOf(x: nat, a: nat, b: nat, c: nat, d: nat)
    requires a < 256 && b < 256 && c < 256 && d < 256 && x == a + 256 * b + 65536 * c + 16777216 * d
    ensures IsU32(x) && x % 256 == a && x / 256 % 256 == b && x / 65536 % 256 == c && x / 16777216 == d
  {
    DivModUnique(x, 256, b + 256 * c + 65536 * d, a);
    DivModUnique(b + 256 * c + 65536 * d, 256, c + 256 * d, b);
    DivModUnique(x, 65536, c + 256 * d, a + 256 * b);
    DivModUnique(c + 256 * d, 256, d, c);
    DivModUnique(x, 16777216, d, a + 256 * b + 65536 * c);
  }

  /** struct.unpack("<L") then struct.pack("<L") gives the four bytes back:
      every field read fits in 32 bits, and packing it restores it. */
  lemma UnpackPack(s: seq<byte>, i: nat)
    requires i + 4 <= |s|
    ensures IsU32(U32(s, i)) && PackU32(U32(s, i)) == s[i..i + 4]
  {
    var a, b, c, d := s[i] as nat, s[i + 1] as nat, s[i + 2] as nat, s[i + 3] as nat;
    var y := U32(s, i);
    DigitsOf(y, a, b, c, d);
    ByteOfValue(s[i]);
    ByteOfValue(s[i + 1]);
    ByteOfValue(s[i + 2]);
    ByteOfValue(s[i + 3]);
    PackDigits(y);
    assert PackU32(y) == [s[i], s[i + 1], s[i + 2], s[i + 3]];
    assert s[i..i + 4] == [s[i], s[i + 1], s[i + 2], s[i + 3]];
  }

  /** PackU32 writes the four base-256 digits of x, lowest first. */
  lemma PackDigits(x: nat)
    requires IsU32(x)
    ensures PackU32(x) == [ByteOf(x % 256), ByteOf(x / 256 % 256), ByteOf(x / 65536 % 256), ByteOf(x / 16777216)]
  {
  }

  /** ByteOf inverts the conversion of a byte to its value. */
  lemma ByteOfValue(v: byte)
    ensures ByteOf(v as nat) == v
  {
  }

  /** The byte whose value is v. */
  function ByteOf(v: nat): (b: byte)
    requires v < 256
    ensures b as nat == v
  {
    if v == 0 then 0 else ByteOf(v - 1) + 1
  }

  /** Dropping k elements of a + b, k within a, drops them from a. */
  lemma DropAppend<T>(a: seq<T>, b: seq<T>, k: nat)
    requires k <= |a|
    ensures (a + b)[k..] == a[k..] + b
  {
  }

  /** A slice of s[k..] is a slice of s, k further on. */
  lemma DropSlice<T>(s: seq<T>, k: nat, a: nat, b: nat)
    requires a <= b && k + b <= |s|
    ensures s[k..][a..b] == s[k + a..k + b]
  {
  }

  /** b"".join(blocks). */
  function Concat<T>(blocks: seq<seq<T>>): seq<T>
  {
    if blocks == [] then [] else blocks[0] + Concat(blocks[1..])
  }

  lemma {:induction false} ConcatLength<T>(blocks: seq<seq<T>>, b: nat)
    requires forall j :: 0 <= j < |blocks| ==> |blocks[j]| == b
    ensures |Concat(blocks)| == |blocks| * b
  {
    if blocks != [] {
      var tail := blocks[1..];
      ConcatLength(tail, b);
      assert |blocks| * b == b + |tail| * b;
    }
  }

  /** Joining two lists of blocks one after the other joins each. */
  lemma {:induction false} ConcatAppend<T>(a: seq<seq<T>>, b: seq<seq<T>>)
    ensures Concat(a + b) == Concat(a) + Concat(b)
  {
    if a == [] {
      assert a + b == b;
    } else {
      assert (a + b)[0] == a[0] && (a + b)[1..] == a[1..] + b;
      ConcatAppend(a[1..], b);
    }
  }

  lemma MulLe(a: nat, b: nat, c: nat)
    requires a <= b
    ensures a * c <= b * c
  {
  }

  /** Byte i of block k sits at k * b + i. */
  lemma {:induction false} ConcatBlock<T>(blocks: seq<seq<T>>, b: nat, k: nat, i: nat, p: nat)
    requires forall j :: 0 <= j < |blocks| ==> |blocks[j]| == b
    requires k < |blocks| && i < b && p == k * b + i
    ensures p < |Concat(blocks)| && Concat(blocks)[p] == blocks[k][i]
  {
    var tail := blocks[1..];
    assert Concat(blocks) == blocks[0] + Concat(tail);
    if k > 0 {
      assert p - b == (k - 1) * b + i;
      ConcatBlock(tail, b, k - 1, i, p - b);
    }
  }

}
