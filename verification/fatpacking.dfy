/** The packed table on the image: two 12-bit links in three bytes. Bytes are numbers below 256; masks
    and shifts of the source are written as remainders, products and quotients by powers of two, and an
    `or` of disjoint bits as a sum. */
module FatPacking {
  import opened FatLinks

  const FAT_BYTES: nat := 0x1200

  function EvenLink(first: nat, second: nat): nat {
    first + (second % 16) * 256
  }

  function OddLink(second: nat, third: nat): nat {
    second / 16 + third * 16
  }

  /** The tool's unpacking of three bytes into two links. */
  function Link(data: seq<Byte>, k: nat): (n: nat)
    requires 3 * (k / 2) + 2 < |data|
    ensures n < 4096
  {
    var i := 3 * (k / 2);
    if k % 2 == 0 then EvenLink(data[i], data[i + 1]) else OddLink(data[i + 1], data[i + 2])
  }

  function Unpacked(data: seq<Byte>): (r: seq<nat>)
    ensures |r| == |data| / 3 * 2
  {
    seq(|data| / 3 * 2, k requires 0 <= k < |data| / 3 * 2 => Link(data, k))
  }

  function PackedFirst(n1: nat, n2: nat): nat {
    n1 % 256
  }

  function PackedSecond(n1: nat, n2: nat): nat {
    (n2 % 16) * 16 + n1 / 256
  }

  function PackedThird(n1: nat, n2: nat): nat {
    n2 / 16
  }

  ghost predicate Links(fat: seq<nat>) {
    |fat| % 2 == 0 && forall i :: 0 <= i < |fat| ==> fat[i] < 4096
  }

  /** Byte `i` of the tool's packing of two links into three bytes. */
  function PackedByte(fat: seq<nat>, i: nat): Byte
    requires Links(fat) && i / 3 * 2 + 1 < |fat|
  {
    var n1, n2 := fat[i / 3 * 2], fat[i / 3 * 2 + 1];
    if i % 3 == 0 then PackedFirst(n1, n2) else if i % 3 == 1 then PackedSecond(n1, n2) else PackedThird(n1, n2)
  }

  function Packed(fat: seq<nat>): (r: seq<Byte>)
    requires Links(fat)
    ensures |r| == |fat| / 2 * 3
  {
    seq(|fat| / 2 * 3, i requires 0 <= i < |fat| / 2 * 3 => PackedByte(fat, i))
  }

  lemma LinksThroughBytes(n1: nat, n2: nat)
    requires n1 < 4096 && n2 < 4096
    ensures EvenLink(PackedFirst(n1, n2), PackedSecond(n1, n2)) == n1
    ensures OddLink(PackedSecond(n1, n2), PackedThird(n1, n2)) == n2
  {
  }

  lemma BytesThroughLinks(a: Byte, b: Byte, c: Byte)
    ensures var n1, n2 := EvenLink(a, b), OddLink(b, c);
            PackedFirst(n1, n2) == a && PackedSecond(n1, n2) == b && PackedThird(n1, n2) == c
  {
    var n1, n2: nat := EvenLink(a, b), OddLink(b, c);
    assert b == 16 * (b / 16) + b % 16;
    assert n1 / 256 == b % 16 && n1 % 256 == a;
    assert n2 / 16 == c && n2 % 16 == b / 16;
  }

  /** Where each half byte goes: the low links first, the middle byte shared between both. */
  lemma HalfBytes(a: Byte, b: Byte, c: Byte)
    ensures Unpacked([a, b, c]) == [a % 16 + 16 * (a / 16) + 256 * (b % 16), b / 16 + 16 * (c % 16) + 256 * (c / 16)]
  {
  }

  lemma UnpackUndoesPack(fat: seq<nat>)
    requires Links(fat)
    ensures Unpacked(Packed(fat)) == fat
  {
    hide EvenLink, OddLink, PackedFirst, PackedSecond, PackedThird;
    forall k | 0 <= k < |fat|
      ensures Unpacked(Packed(fat))[k] == fat[k]
    {
      var i := 3 * (k / 2);
      assert i / 3 == k / 2 == (i + 1) / 3 == (i + 2) / 3;
      assert i % 3 == 0 && (i + 1) % 3 == 1 && (i + 2) % 3 == 2;
      LinksThroughBytes(fat[k / 2 * 2], fat[k / 2 * 2 + 1]);
    }
  }

  lemma PackUndoesUnpack(data: seq<Byte>)
    requires |data| % 3 == 0
    ensures Links(Unpacked(data)) && Packed(Unpacked(data)) == data
  {
    hide EvenLink, OddLink, PackedFirst, PackedSecond, PackedThird;
    forall i | 0 <= i < |data|
      ensures Packed(Unpacked(data))[i] == data[i]
    {
      var k, first := i / 3 * 2, i / 3 * 3;
      assert k / 2 == i / 3 == (k + 1) / 2 && k % 2 == 0 && (k + 1) % 2 == 1;
      assert first + i % 3 == i;
      BytesThroughLinks(data[first], data[first + 1], data[first + 2]);
    }
  }
}
