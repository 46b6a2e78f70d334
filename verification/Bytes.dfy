/** Octets, machine integers and big-endian conversions shared by the codecs. */
module Bytes {

  datatype Option<+T> = None | Some(value: T)

  datatype Result<+T, +E> = Ok(value: T) | Err(error: E) {
    predicate IsFailure() {
      Err?
    }
    function PropagateFailure<U>(): Result<U, E>
      requires Err?
    {
      Err(error)
    }
    function Extract(): T
      requires Ok?
    {
      value
    }
  }

  type byte = x: int | 0 <= x < 0x100
  type u16 = x: int | 0 <= x < 0x1_0000
  type u32 = x: int | 0 <= x < 0x1_0000_0000
  type i32 = x: int | -0x8000_0000 <= x < 0x8000_0000
  type i64 = x: int | -0x8000_0000_0000_0000 <= x < 0x8000_0000_0000_0000

  function U16Bytes(n: u16): (r: seq<byte>) {
    [n / 0x100, n % 0x100]
  }

  function U16Of(hi: byte, lo: byte): (r: u16) {
    hi * 0x100 + lo
  }

  function U32Bytes(n: u32): (r: seq<byte>) {
    U16Bytes(n / 0x1_0000) + U16Bytes(n % 0x1_0000)
  }

  function U32Of(s: seq<byte>): (r: u32)
    requires |s| == 4
  {
    U16Of(s[0], s[1]) * 0x1_0000 + U16Of(s[2], s[3])
  }

  /** Two's complement, as `i32::to_be_bytes` writes it. */
  function I32Bytes(v: i32): (r: seq<byte>) {
    U32Bytes(if v < 0 then v + 0x1_0000_0000 else v)
  }

  function I32Of(s: seq<byte>): (r: i32)
    requires |s| == 4
  {
    var n := U32Of(s);
    if n < 0x8000_0000 then n else n - 0x1_0000_0000
  }

  /** The high octet comes first. */
  lemma U16Octets(n: u16)
    ensures |U16Bytes(n)| == 2 && U16Bytes(n)[0] as int * 256 + U16Bytes(n)[1] == n
  {
  }

  lemma U32Octets(n: u32)
    ensures var b := U32Bytes(n);
      |b| == 4 && b[0] as int * 16777216 + b[1] as int * 65536 + b[2] as int * 256 + b[3] == n
  {
    U16Octets(n / 0x1_0000);
    U16Octets(n % 0x1_0000);
  }

  /** A negative number is written as its sum with 2 to the 32nd. */
  lemma I32Octets(v: i32)
    ensures var b := I32Bytes(v);
      && |b| == 4
      && b[0] as int * 16777216 + b[1] as int * 65536 + b[2] as int * 256 + b[3] == if v < 0 then v + 4294967296 else v
  {
    hide U32Bytes;
    U32Octets(if v < 0 then v + 0x1_0000_0000 else v);
  }

  lemma U32RoundTrip(n: u32)
    ensures |U32Bytes(n)| == 4 && U32Of(U32Bytes(n)) == n
  {
  }

  lemma U32Unique(s: seq<byte>)
    requires |s| == 4
    ensures U32Bytes(U32Of(s)) == s
  {
    var hi, lo := U16Of(s[0], s[1]), U16Of(s[2], s[3]);
    assert U32Of(s) / 0x1_0000 == hi && U32Of(s) % 0x1_0000 == lo;
    assert U16Bytes(hi) == s[..2] && U16Bytes(lo) == s[2..];
  }

  lemma I32RoundTrip(v: i32)
    ensures |I32Bytes(v)| == 4 && I32Of(I32Bytes(v)) == v
  {
  }

  lemma I32Unique(s: seq<byte>)
    requires |s| == 4
    ensures I32Bytes(I32Of(s)) == s
  {
    U32Unique(s);
  }

  /** The octets `w` stand in `input` from `offset` on. */
  predicate At(input: seq<byte>, offset: nat, w: seq<byte>) {
    offset + |w| <= |input| && input[offset..offset + |w|] == w
  }

  lemma AtConcat(input: seq<byte>, offset: nat, a: seq<byte>, b: seq<byte>)
    ensures At(input, offset, a + b) <==> At(input, offset, a) && At(input, offset + |a|, b)
  {
    if offset + |a| + |b| <= |input| {
      var whole := input[offset..offset + |a| + |b|];
      assert whole[..|a|] == input[offset..offset + |a|];
      assert whole[|a|..] == input[offset + |a|..offset + |a| + |b|];
      assert (a + b)[..|a|] == a && (a + b)[|a|..] == b;
      assert whole == whole[..|a|] + whole[|a|..];
    }
  }

  lemma SliceOfSlice<T>(s: seq<T>, a: nat, b: nat, c: nat, d: nat)
    requires a <= b <= |s| && c <= d <= b - a
    ensures s[a..b][c..d] == s[a + c..a + d]
  {
    var inner, outer := s[a..b][c..d], s[a + c..a + d];
    assert |inner| == |outer| && forall i :: 0 <= i < |inner| ==> inner[i] == outer[i];
  }

  lemma ConcatAssoc<T>(a: seq<T>, b: seq<T>, c: seq<T>)
    ensures (a + b) + c == a + (b + c)
  {
  }
}
