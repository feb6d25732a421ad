/** 64-bit little-endian numbers in byte sequences: os/src/util.rs and `to_le_bytes`. */
module LittleEndian {
  import opened Common

  /** Little-endian bytes of a 64-bit number. */
  function Le64(n: nat): (b: seq<byte>)
    requires n < U64
    ensures |b| == 8
  {
    [n % 256, n / 0x100 % 256, n / 0x1_0000 % 256, n / 0x100_0000 % 256,
     n / 0x1_0000_0000 % 256, n / 0x100_0000_0000 % 256, n / 0x1_0000_0000_0000 % 256, n / 0x100_0000_0000_0000]
  }

  function FromLe64(b: seq<byte>, at: nat): nat
    requires at + 8 <= |b|
  {
    b[at] + 0x100 * b[at + 1] as int + 0x1_0000 * b[at + 2] as int + 0x100_0000 * b[at + 3] as int
    + 0x1_0000_0000 * b[at + 4] as int + 0x100_0000_0000 * b[at + 5] as int
    + 0x1_0000_0000_0000 * b[at + 6] as int + 0x100_0000_0000_0000 * b[at + 7] as int
  }

  lemma Le64Value(n: nat)
    requires n < U64
    ensures FromLe64(Le64(n), 0) == n
  {
    var n1 := n / 256;
    var n2 := n1 / 256;
    var n3 := n2 / 256;
    var n4 := n3 / 256;
    var n5 := n4 / 256;
    var n6 := n5 / 256;
    var n7 := n6 / 256;
    assert n2 == n / 0x1_0000 && n3 == n / 0x100_0000 && n4 == n / 0x1_0000_0000;
    assert n5 == n / 0x100_0000_0000 && n6 == n / 0x1_0000_0000_0000 && n7 == n / 0x100_0000_0000_0000;
  }

  /** The least significant byte comes first. */
  lemma LowByteFirst(b: seq<byte>, at: nat)
    requires at + 8 <= |b|
    ensures FromLe64(b, at) % 256 == b[at] && FromLe64(b, at) / 0x100_0000_0000_0000 == b[at + 7]
  {
  }

  lemma SameEightBytes(a: seq<byte>, i: nat, b: seq<byte>)
    requires i + 8 <= |a| && |b| == 8 && a[i..i + 8] == b
    ensures FromLe64(a, i) == FromLe64(b, 0)
  {
    var c := a[i..i + 8];
    assert c[0] == a[i] && c[1] == a[i + 1] && c[2] == a[i + 2] && c[3] == a[i + 3];
    assert c[4] == a[i + 4] && c[5] == a[i + 5] && c[6] == a[i + 6] && c[7] == a[i + 7];
  }

  lemma WordReads(image: seq<byte>, at: nat, value: nat)
    requires value < U64 && at + 8 <= |image| && image[at..at + 8] == Le64(value)
    ensures FromLe64(image, at) == value
  {
    SameEightBytes(image, at, Le64(value));
    Le64Value(value);
  }
}
