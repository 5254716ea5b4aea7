/** Fixed-width big-endian integers, as `to_be_bytes` and `from_be_bytes`. */
module BigEndian {
  import opened ByteStrings

  const MAX_U16: nat := 0xFFFF
  const TWO_TO_32: nat := 0x1_0000_0000
  const TWO_TO_64: nat := 0x1_0000_0000_0000_0000

  function Range(width: nat): nat {
    if width == 0 then 1 else 256 * Range(width - 1)
  }

  /** The low `width` bytes of `n`, most significant first. */
  function ToBytes(n: nat, width: nat): (r: Bytes)
    ensures |r| == width
  {
    if width == 0 then [] else ToBytes(n / 256, width - 1) + [n % 256]
  }

  function FromBytes(bytes: Bytes): (n: nat)
    ensures n < Range(|bytes|)
  {
    if bytes == [] then 0 else 256 * FromBytes(bytes[..|bytes| - 1]) + bytes[|bytes| - 1]
  }

  lemma {:induction false} Roundtrip(n: nat, width: nat)
    requires n < Range(width)
    ensures FromBytes(ToBytes(n, width)) == n
  {
    if width > 0 {
      var r := ToBytes(n, width);
      Roundtrip(n / 256, width - 1);
      assert r[..width - 1] == ToBytes(n / 256, width - 1);
    }
  }

  lemma {:induction false} BytesBack(bytes: Bytes)
    ensures ToBytes(FromBytes(bytes), |bytes|) == bytes
  {
    if bytes != [] {
      var n := |bytes| - 1;
      BytesBack(bytes[..n]);
      LastByte(FromBytes(bytes[..n]), bytes[n]);
      assert ToBytes(FromBytes(bytes), n + 1) == ToBytes(FromBytes(bytes[..n]), n) + [bytes[n]];
      assert bytes == bytes[..n] + [bytes[n]];
    }
  }

  lemma LastByte(rest: nat, last: Byte)
    ensures (256 * rest + last) / 256 == rest && (256 * rest + last) % 256 == last
  {
  }

  lemma Scale(a: nat, b: nat)
    ensures a * (256 * b) == 256 * (a * b)
  {
  }

  /** The first byte counts most. */
  lemma {:induction false} MostSignificantFirst(first: Byte, rest: Bytes)
    ensures FromBytes([first] + rest) == first * Range(|rest|) + FromBytes(rest)
  {
    if rest == [] {
      assert [first][..0] == [];
    } else {
      var n := |rest| - 1;
      var all := [first] + rest;
      assert all[..|all| - 1] == [first] + rest[..n];
      MostSignificantFirst(first, rest[..n]);
      Scale(first, Range(n));
      assert FromBytes(all) == 256 * (first * Range(n) + FromBytes(rest[..n])) + rest[n];
    }
  }

  lemma Widths()
    ensures Range(2) == MAX_U16 + 1 && Range(4) == TWO_TO_32 && Range(8) == TWO_TO_64
  {
    assert Range(1) == 256 && Range(2) == 65536 && Range(3) == 256 * Range(2) && Range(4) == 256 * Range(3);
    assert Range(5) == 256 * Range(4) && Range(6) == 256 * Range(5) && Range(7) == 256 * Range(6);
  }

  function U32(n: nat): (r: Bytes)
    requires n < TWO_TO_32
    ensures |r| == 4 && FromBytes(r) == n
  {
    Widths();
    Roundtrip(n, 4);
    ToBytes(n, 4)
  }

  function U64(n: nat): (r: Bytes)
    requires n < TWO_TO_64
    ensures |r| == 8 && FromBytes(r) == n
  {
    Widths();
    Roundtrip(n, 8);
    ToBytes(n, 8)
  }

  function U16(n: nat): (r: Bytes)
    requires n <= MAX_U16
    ensures |r| == 2 && FromBytes(r) == n
  {
    Widths();
    Roundtrip(n, 2);
    ToBytes(n, 2)
  }

  function U32At(data: Bytes, offset: nat): (n: nat)
    requires offset + 4 <= |data|
    ensures n < TWO_TO_32
  {
    Widths();
    FromBytes(data[offset..offset + 4])
  }

  function U64At(data: Bytes, offset: nat): (n: nat)
    requires offset + 8 <= |data|
    ensures n < TWO_TO_64
  {
    Widths();
    FromBytes(data[offset..offset + 8])
  }
}
