/** The Serializer without alignment: native byte order of a host, optionally swapped, over a flat byte sequence. */
module Wire {
  type Octet = x: int | 0 <= x < 0x100
  type UInt32 = x: int | 0 <= x < 0x1_0000_0000
  type Int32 = x: int | -0x8000_0000 <= x < 0x8000_0000

  /** An opaque 16-octet identifier; octets are never swapped. */
  type Guid = g: seq<Octet> | |g| == 16 witness [0, 0, 0, 0, 0, 0, 0, 0, 0, 0, 0, 0, 0, 0, 0, 0]

  const GUID_UNKNOWN: Guid := [0, 0, 0, 0, 0, 0, 0, 0, 0, 0, 0, 0, 0, 0, 0, 0]

  function Reverse<T>(s: seq<T>): (r: seq<T>)
    ensures |r| == |s|
    ensures forall i :: 0 <= i < |s| ==> r[i] == s[|s| - 1 - i]
  {
    if s == [] then [] else Reverse(s[1..]) + [s[0]]
  }

  lemma ReverseTwice<T>(s: seq<T>)
    ensures Reverse(Reverse(s)) == s
  {
  }

  lemma ReverseConcat<T>(s: seq<T>, t: seq<T>)
    ensures Reverse(s + t) == Reverse(t) + Reverse(s)
  {
  }

  lemma {:induction false} ReversePermutes<T>(s: seq<T>)
    ensures multiset(Reverse(s)) == multiset(s)
  {
    if s != [] {
      ReversePermutes(s[1..]);
      assert s == [s[0]] + s[1..];
    }
  }

  /** How a host of the given endianness holds x in memory. */
  function Native(x: UInt32, little: bool): (b: seq<Octet>)
    ensures |b| == 4
  {
    var big: seq<Octet> := [x / 0x100_0000, x / 0x1_0000 % 0x100, x / 0x100 % 0x100, x % 0x100];
    if little then Reverse(big) else big
  }

  function Combine(b0: int, b1: int, b2: int, b3: int): (x: int)
    ensures 0 <= b0 < 0x100 && 0 <= b1 < 0x100 && 0 <= b2 < 0x100 && 0 <= b3 < 0x100 ==> 0 <= x < 0x1_0000_0000
  {
    0x100_0000 * b0 + 0x1_0000 * b1 + 0x100 * b2 + b3
  }

  lemma Digits(x: UInt32)
    ensures Combine(x / 0x100_0000, x / 0x1_0000 % 0x100, x / 0x100 % 0x100, x % 0x100) == x
  {
    var a, b := x / 0x100, x / 0x1_0000;
    assert b == a / 0x100 && x / 0x100_0000 == b / 0x100;
  }

  function FromNative(b: seq<Octet>, little: bool): UInt32
    requires |b| == 4
  {
    var big := if little then Reverse(b) else b;
    Combine(big[0], big[1], big[2], big[3])
  }

  /** Serializer::operator<< of a four-byte integer. */
  function Put32(x: UInt32, host: bool, swap: bool): (b: seq<Octet>)
    ensures |b| == 4
  {
    if swap then Reverse(Native(x, host)) else Native(x, host)
  }

  /** Serializer::operator>> of a four-byte integer. */
  function Get32(b: seq<Octet>, host: bool, swap: bool): UInt32
    requires |b| == 4
  {
    FromNative(if swap then Reverse(b) else b, host)
  }

  /** Two's complement. */
  function ToUnsigned(x: Int32): UInt32 { if x < 0 then x + 0x1_0000_0000 else x }

  function ToSigned(x: UInt32): Int32 { if x < 0x8000_0000 then x else x - 0x1_0000_0000 }

  lemma FromNativeNative(x: UInt32, little: bool)
    ensures FromNative(Native(x, little), little) == x
  {
    hide Combine;
    Digits(x);
    ReverseTwice(Native(x, false));
  }

  /** Swapping makes the byte order on the wire independent of the host: the order is `order` on both sides. */
  lemma AcrossHosts(x: UInt32, writer: bool, reader: bool, order: bool)
    ensures Get32(Put32(x, writer, order != writer), reader, order != reader) == x
    ensures Put32(x, writer, order != writer) == Native(x, order)
  {
    SwappedIsOther(x, writer);
    ReverseTwice(Native(x, order));
    ReverseTwice(Native(x, reader));
    SwappedIsOther(x, reader);
    FromNativeNative(x, reader);
  }

  lemma SwappedIsOther(x: UInt32, little: bool)
    ensures Reverse(Native(x, little)) == Native(x, !little)
  {
    ReverseTwice(Native(x, false));
  }

  lemma SignedRoundTrip(x: Int32)
    ensures ToSigned(ToUnsigned(x)) == x
  {
  }
}
