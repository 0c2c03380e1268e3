/** Numbers as byte strings, most significant byte first. */
module BigEndian {
  import opened Common

  function Pow256(width: nat): (n: nat)
    ensures n > 0
  {
    if width == 0 then 1 else 256 * Pow256(width - 1)
  }

  function ToBytes(n: nat, width: nat): (b: seq<byte>)
    requires n < Pow256(width)
    ensures |b| == width
  {
    if width == 0 then [] else ToBytes(n / 256, width - 1) + [(n % 256) as byte]
  }

  function FromBytes(b: seq<byte>): (n: nat)
    ensures n < Pow256(|b|)
  {
    if b == [] then 0 else 256 * FromBytes(b[..|b| - 1]) + b[|b| - 1] as nat
  }

  lemma {:induction false} FromToBytes(n: nat, width: nat)
    requires n < Pow256(width)
    ensures FromBytes(ToBytes(n, width)) == n
  {
    if width == 0 {
    } else {
      FromToBytes(n / 256, width - 1);
      assert ToBytes(n, width)[..width - 1] == ToBytes(n / 256, width - 1);
    }
  }

  lemma {:induction false} ToFromBytes(b: seq<byte>)
    ensures ToBytes(FromBytes(b), |b|) == b
  {
    if b == [] {
    } else {
      ToFromBytes(b[..|b| - 1]);
    }
  }

  /** Each byte counts 256 times as much as the one after it. */
  function Positional(b: seq<byte>): nat {
    if b == [] then 0 else b[0] as nat * Pow256(|b| - 1) + Positional(b[1..])
  }

  lemma ScaleHead(head: nat, power: nat, rest: nat)
    ensures 256 * (head * power + rest) == head * (256 * power) + 256 * rest
  {
  }

  lemma {:induction false} FromBytesIsPositional(b: seq<byte>)
    ensures FromBytes(b) == Positional(b)
  {
    if b == [] {
    } else if |b| == 1 {
      assert b[..0] == [] && b[1..] == [];
    } else {
      var front, rest := b[..|b| - 1], b[1..];
      FromBytesIsPositional(front);
      FromBytesIsPositional(rest);
      FromBytesIsPositional(front[1..]);
      assert front[1..] == rest[..|rest| - 1];
      ScaleHead(b[0] as nat, Pow256(|b| - 2), Positional(front[1..]));
    }
  }

  /** `width` bytes of the same value. */
  function Fill(value: byte, width: nat): (b: seq<byte>)
    ensures |b| == width
    ensures forall i :: 0 <= i < width ==> b[i] == value
  {
    if width == 0 then [] else Fill(value, width - 1) + [value]
  }

  /** Leading zero bytes do not count. */
  lemma {:induction false} LeadingZeros(n: nat, b: seq<byte>)
    ensures FromBytes(Fill(0, n) + b) == FromBytes(b)
    decreases |b|, n
  {
    if b == [] {
      assert Fill(0, n) + b == Fill(0, n);
      if n == 0 {
      } else {
        LeadingZeros(n - 1, []);
        assert Fill(0, n - 1) + [] == Fill(0, n - 1);
        assert Fill(0, n)[..n - 1] == Fill(0, n - 1);
      }
    } else {
      LeadingZeros(n, b[..|b| - 1]);
      assert (Fill(0, n) + b)[..n + |b| - 1] == Fill(0, n) + b[..|b| - 1];
    }
  }

  /** Byte strings of one width have different values. */
  lemma FromBytesInjective(b: seq<byte>, c: seq<byte>)
    requires |b| == |c|
    ensures FromBytes(b) == FromBytes(c) <==> b == c
  {
    ToFromBytes(b);
    ToFromBytes(c);
  }

  /** All bits set is the largest number of its width. */
  lemma {:induction false} LargestIsAllOnes(width: nat)
    ensures FromBytes(Fill(255, width)) == Pow256(width) - 1
  {
    if width == 0 {
    } else {
      LargestIsAllOnes(width - 1);
      assert Fill(255, width)[..width - 1] == Fill(255, width - 1);
    }
  }

  lemma Widths()
    ensures Pow256(4) == U32_LIMIT && Pow256(8) == U64_LIMIT && Pow256(16) == U128_LIMIT
  {
    assert Pow256(2) == 0x1_0000;
    assert Pow256(4) == 0x1_0000_0000;
    assert Pow256(6) == 0x1_0000_0000_0000;
    assert Pow256(8) == 0x1_0000_0000_0000_0000;
    assert Pow256(10) == 0x1_0000_0000_0000_0000_0000;
    assert Pow256(12) == 0x1_0000_0000_0000_0000_0000_0000;
    assert Pow256(14) == 0x1_0000_0000_0000_0000_0000_0000_0000;
  }
}
