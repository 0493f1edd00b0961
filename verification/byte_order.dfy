/** Big-endian integers over bytes, as read by `byteorder`'s
    `read_u16::<BigEndian>` and `read_u32::<BigEndian>`. */
module ByteOrder {
  import opened Integers

  function Pow256(n: nat): (p: nat)
    ensures p >= 1
  {
    if n == 0 then 1 else 256 * Pow256(n - 1)
  }

  /** The unsigned value of `s`, most significant byte first. */
  function BigEndian(s: seq<U8>): (v: nat)
    ensures v < Pow256(|s|)
  {
    if |s| == 0 then 0
    else
      var high := BigEndian(s[..|s| - 1]);
      assert high <= Pow256(|s| - 1) - 1;
      high * 256 + s[|s| - 1]
  }

  /** The `n`-byte big-endian representation of `v`. */
  function EncodeBigEndian(v: nat, n: nat): (s: seq<U8>)
    requires v < Pow256(n)
    ensures |s| == n
    ensures BigEndian(s) == v
  {
    if n == 0 then []
    else
      DivideBy256(v, Pow256(n - 1));
      var high := EncodeBigEndian(v / 256, n - 1);
      var low := v % 256;
      BigEndianAppend(high, low);
      high + [low]
  }

  lemma BigEndianAppend(init: seq<U8>, low: U8)
    ensures BigEndian(init + [low]) == BigEndian(init) * 256 + low
  {
    assert (init + [low])[..|init|] == init;
  }

  lemma DivideBy256(v: nat, p: nat)
    requires v < 256 * p
    ensures v / 256 < p
    ensures v == v / 256 * 256 + v % 256
  {
  }

  /** Decoding then re-encoding gives back the bytes: together with
      `EncodeBigEndian`'s contract, the two are inverse bijections between
      `n`-byte sequences and the naturals below 256^n. */
  lemma {:induction false} EncodeBigEndianOfDecode(s: seq<U8>)
    ensures EncodeBigEndian(BigEndian(s), |s|) == s
  {
    if |s| > 0 {
      var n := |s|;
      var init := s[..n - 1];
      var v := BigEndian(s);
      assert v == BigEndian(init) * 256 + s[n - 1];
      assert v / 256 == BigEndian(init);
      assert v % 256 == s[n - 1];
      EncodeBigEndianOfDecode(init);
      assert init + [s[n - 1]] == s;
    }
  }

  /** The four-byte case spelt out with explicit weights. */
  lemma BigEndianFour(s: seq<U8>)
    requires |s| == 4
    ensures BigEndian(s) == s[0] as int * 0x100_0000 + s[1] as int * 0x1_0000 + s[2] as int * 0x100 + s[3]
  {
    var s1, s2, s3 := s[..1], s[..2], s[..3];
    assert s3[..2] == s2 && s2[..1] == s1 && s1[..0] == [];
    assert BigEndian(s1) == s[0];
    assert BigEndian(s2) == s[0] as int * 0x100 + s[1];
    assert BigEndian(s3) == BigEndian(s2) * 0x100 + s[2];
  }

  /** The two-byte case spelt out with explicit weights. */
  lemma BigEndianTwo(s: seq<U8>)
    requires |s| == 2
    ensures BigEndian(s) == s[0] as int * 0x100 + s[1]
  {
    assert s[..1][..0] == [];
    assert BigEndian(s[..1]) == s[0];
  }
}
