/** The .NET text primitives that the modified UTF-7 codec is built on, as pure
    functions: UTF-16 code units, bytes, String.Replace / String.IndexOf on a
    single character, Encoding.BigEndianUnicode and Encoding.ASCII. */
module Text {

  /** One UTF-16 code unit of a .NET string. Surrogate halves are independent units. */
  type Unit = n: int | 0 <= n < 0x1_0000

  /** One octet. */
  type Byte = n: int | 0 <= n < 0x100

  /** The outcome of an operation that can throw FormatException. */
  datatype Result<T> = Ok(value: T) | FormatError

  const AMPERSAND: Unit := 0x26  // '&'
  const HYPHEN: Unit := 0x2D     // '-'
  const COMMA: Unit := 0x2C      // ','
  const SLASH: Unit := 0x2F      // '/'
  const EQUALS: Unit := 0x3D     // '='

  /** A Dafny string literal as a sequence of code units (all of its characters lie in the BMP). */
  function Units(s: string): (u: seq<Unit>)
    requires forall i | 0 <= i < |s| :: s[i] as int < 0x1_0000
    ensures |u| == |s| && forall i | 0 <= i < |s| :: u[i] == s[i] as int
  {
    seq(|s|, i requires 0 <= i < |s| => s[i] as int)
  }

  /** String.Replace(from, to) on single characters: every occurrence of `from` becomes `to`. */
  function Replace(s: seq<Unit>, from: Unit, to: Unit): (r: seq<Unit>)
    ensures |r| == |s|
    ensures forall i | 0 <= i < |s| && s[i] != from :: r[i] == s[i]
    ensures forall i | 0 <= i < |s| && s[i] == from :: r[i] == to
    ensures from != to ==> from !in r
  {
    seq(|s|, i requires 0 <= i < |s| => if s[i] == from then to else s[i])
  }

  /** Replace changes exactly the occurrences of `from`. */
  lemma ReplaceAt(s: seq<Unit>, from: Unit, to: Unit)
    ensures forall i | 0 <= i < |s| :: Replace(s, from, to)[i] == (if s[i] == from then to else s[i])
  {
  }

  /** Replace works piece by piece. */
  lemma ReplaceAppend(a: seq<Unit>, b: seq<Unit>, from: Unit, to: Unit)
    ensures Replace(a + b, from, to) == Replace(a, from, to) + Replace(b, from, to)
  {
    ReplaceAt(a + b, from, to);
    ReplaceAt(a, from, to);
    ReplaceAt(b, from, to);
  }

  /** The first `x` of a + b, when a holds none and b starts with one, is at |a|. */
  lemma IndexOfAfter(a: seq<Unit>, b: seq<Unit>, x: Unit)
    requires x !in a && b != [] && b[0] == x
    ensures IndexOf(a + b, x) == |a|
  {
    IndexOfFirst(a + b, x);
    assert (a + b)[|a|] == x;
    assert (a + b)[..|a|] == a;
  }

  /** Replacing `from` by `to` and back is the identity on text in which `to` does not occur. */
  lemma ReplaceBack(s: seq<Unit>, from: Unit, to: Unit)
    requires to !in s
    ensures Replace(Replace(s, from, to), to, from) == s
  {
  }

  /** String.IndexOf(x): the position of the first `x`, or -1 when there is none. */
  function IndexOf(s: seq<Unit>, x: Unit): (k: int)
    ensures -1 <= k < |s|
  {
    if s == [] then -1
    else if s[0] == x then 0
    else
      var k := IndexOf(s[1..], x);
      if k < 0 then -1 else k + 1
  }

  /** IndexOf finds the first `x`, and -1 means there is none. */
  lemma {:induction false} IndexOfFirst(s: seq<Unit>, x: Unit)
    ensures IndexOf(s, x) == -1 <==> x !in s
    ensures 0 <= IndexOf(s, x) ==> s[IndexOf(s, x)] == x && x !in s[..IndexOf(s, x)]
  {
    if s != [] && s[0] != x {
      IndexOfFirst(s[1..], x);
      var k := IndexOf(s[1..], x);
      if 0 <= k {
        assert s[..k + 1] == [s[0]] + s[1..][..k];
      } else {
        assert s == [s[0]] + s[1..];
      }
    }
  }

  /** Encoding.BigEndianUnicode.GetBytes: each unit becomes two bytes, high byte first. */
  function BigEndianBytes(u: seq<Unit>): (b: seq<Byte>)
  {
    if u == [] then [] else [u[0] / 0x100, u[0] % 0x100] + BigEndianBytes(u[1..])
  }

  /** Unit i becomes bytes 2i (high) and 2i+1 (low). */
  lemma {:induction false} BigEndianBytesAt(u: seq<Unit>)
    ensures |BigEndianBytes(u)| == 2 * |u|
    ensures forall i | 0 <= i < |u| ::
      BigEndianBytes(u)[2 * i] == u[i] / 0x100 && BigEndianBytes(u)[2 * i + 1] == u[i] % 0x100
  {
    if u != [] {
      BigEndianBytesAt(u[1..]);
      var rest := BigEndianBytes(u[1..]);
      var b := BigEndianBytes(u);
      assert b == [u[0] / 0x100, u[0] % 0x100] + rest;
      forall i | 1 <= i < |u|
        ensures b[2 * i] == u[i] / 0x100 && b[2 * i + 1] == u[i] % 0x100
      {
        assert b[2 * i] == rest[2 * (i - 1)] && b[2 * i + 1] == rest[2 * (i - 1) + 1];
        assert u[1..][i - 1] == u[i];
      }
    }
  }

  /** Encoding.BigEndianUnicode.GetString on whole pairs: bytes 2i and 2i+1 form unit i. */
  function BigEndianUnits(b: seq<Byte>): (u: Result<seq<Unit>>)
    ensures u.Ok? <==> |b| % 2 == 0
    ensures u.Ok? ==> |u.value| * 2 == |b|
    ensures u.Ok? ==> forall i | 0 <= i < |u.value| :: u.value[i] == b[2 * i] as int * 0x100 + b[2 * i + 1]
  {
    if |b| % 2 != 0 then FormatError
    else Ok(seq(|b| / 2, i requires 0 <= i < |b| / 2 => b[2 * i] as int * 0x100 + b[2 * i + 1]))
  }

  /** Decoding the big-endian bytes of any units gives those units back. */
  lemma BigEndianRoundTrip(u: seq<Unit>)
    ensures BigEndianUnits(BigEndianBytes(u)) == Ok(u)
  {
    var b := BigEndianBytes(u);
    BigEndianBytesAt(u);
    var r := BigEndianUnits(b);
    assert r.Ok? && |r.value| == |u|;
    forall i | 0 <= i < |u| ensures r.value[i] == u[i] {
      assert r.value[i] == (u[i] / 0x100) * 0x100 + u[i] % 0x100;
    }
    assert r.value == u;
  }

  /** Every unit is a 7-bit ASCII character. */
  predicate IsAscii(s: seq<Unit>) {
    forall i | 0 <= i < |s| :: s[i] < 0x80
  }

  /** Encoding.ASCII.GetBytes on text that is already ASCII: each unit is its own byte. */
  function AsciiBytes(s: seq<Unit>): (b: seq<Byte>)
    requires IsAscii(s)
    ensures b == s
  {
    seq(|s|, i requires 0 <= i < |s| => s[i])
  }
}
