/**
 * The bit-stream helpers the mask builder relies on: `bit_pack` and
 * `bit_unpack` from the nvutility library, which is not part of this model.
 *
 * A buffer is a sequence of bytes read as one stream of bits.  Bit `pos` of
 * the stream is bit `pos % 8` of byte `pos / 8`, counting bits inside a byte
 * from the most significant one (MSB-first).  A field of `w` bits written at
 * bit offset `off` is stored most significant bit first, so its highest bit
 * sits at `off` and its lowest at `off + w - 1`.  This bit order is an
 * assumption of the model: the library's source is not shown.
 */
module BitStream {

  type byte = bv8

  /** 2 to the power n. */
  function Pow2(n: nat): (r: nat)
    ensures r >= 1
  {
    if n == 0 then 1 else 2 * Pow2(n - 1)
  }

  /** The mask of bit k of a byte, k = 0 being the most significant bit. */
  function BitMask(k: nat): byte
    requires k < 8
  {
    if k == 0 then 0x80
    else if k == 1 then 0x40
    else if k == 2 then 0x20
    else if k == 3 then 0x10
    else if k == 4 then 0x08
    else if k == 5 then 0x04
    else if k == 6 then 0x02
    else 0x01
  }

  /** Bit k of byte x, counted from the most significant bit. */
  predicate BitOf(x: byte, k: nat)
    requires k < 8
  {
    x & BitMask(k) != 0
  }

  /** Byte x with bit k set to b and its seven other bits kept. */
  function WithBit(x: byte, k: nat, b: bool): (y: byte)
    requires k < 8
    ensures BitOf(y, k) == b
    ensures forall m :: 0 <= m < 8 && m != k ==> BitOf(y, m) == BitOf(x, m)
  {
    if b then x | BitMask(k) else x & !BitMask(k)
  }

  /** A byte is determined by its eight bits. */
  lemma ByteFromBits(x: byte, y: byte)
    requires forall k :: 0 <= k < 8 ==> BitOf(x, k) == BitOf(y, k)
    ensures x == y
  {
    assert BitOf(x, 0) == BitOf(y, 0) && BitOf(x, 1) == BitOf(y, 1);
    assert BitOf(x, 2) == BitOf(y, 2) && BitOf(x, 3) == BitOf(y, 3);
    assert BitOf(x, 4) == BitOf(y, 4) && BitOf(x, 5) == BitOf(y, 5);
    assert BitOf(x, 6) == BitOf(y, 6) && BitOf(x, 7) == BitOf(y, 7);
  }

  /** n zero bytes, the content of a buffer fresh from calloc or memset. */
  function Zeros(n: nat): (r: seq<byte>)
    ensures |r| == n
    ensures forall i :: 0 <= i < n ==> r[i] == 0
  {
    seq(n, _ => 0)
  }

  /** Bit pos of the stream held in buf. */
  predicate GetBit(buf: seq<byte>, pos: nat)
    requires pos < 8 * |buf|
  {
    BitOf(buf[pos / 8], pos % 8)
  }

  /** buf with stream bit pos set to b; every other bit is kept. */
  function SetBit(buf: seq<byte>, pos: nat, b: bool): (r: seq<byte>)
    requires pos < 8 * |buf|
    ensures |r| == |buf|
    ensures GetBit(r, pos) == b
    ensures forall q :: 0 <= q < 8 * |buf| && q != pos ==> GetBit(r, q) == GetBit(buf, q)
  {
    buf[pos / 8 := WithBit(buf[pos / 8], pos % 8, b)]
  }

  /** Two buffers of one length that agree on every bit are equal. */
  lemma BuffersFromBits(a: seq<byte>, b: seq<byte>)
    requires |a| == |b|
    requires forall q :: 0 <= q < 8 * |a| ==> GetBit(a, q) == GetBit(b, q)
    ensures a == b
  {
    forall i | 0 <= i < |a|
      ensures a[i] == b[i]
    {
      forall k | 0 <= k < 8
        ensures BitOf(a[i], k) == BitOf(b[i], k)
      {
        var q := 8 * i + k;
        assert q / 8 == i && q % 8 == k;
        assert GetBit(a, q) == GetBit(b, q);
      }
      ByteFromBits(a[i], b[i]);
    }
  }

  /**
   * bit_pack(buf, off, w, v): the w-bit value v written into the stream at
   * bit offset off, most significant bit first.  Bits outside
   * [off, off + w) are left as they were.
   */
  function BitPack(buf: seq<byte>, off: nat, w: nat, v: nat): (r: seq<byte>)
    requires off + w <= 8 * |buf|
    requires v < Pow2(w)
    ensures |r| == |buf|
    ensures forall q :: 0 <= q < 8 * |buf| && !(off <= q < off + w) ==> GetBit(r, q) == GetBit(buf, q)
    decreases 8 * |buf| - off
  {
    if w == 0 then buf
    else SetBit(BitPack(buf, off + 1, w - 1, v % Pow2(w - 1)), off, v >= Pow2(w - 1))
  }

  /**
   * bit_unpack(buf, off, w): the w-bit value read from the stream at bit
   * offset off; the bit at off weighs 2^(w-1), the bit at off + w - 1 weighs 1.
   */
  function BitUnpack(buf: seq<byte>, off: nat, w: nat): (v: nat)
    requires off + w <= 8 * |buf|
    ensures v < Pow2(w)
    decreases 8 * |buf| - off
  {
    if w == 0 then 0
    else (if GetBit(buf, off) then Pow2(w - 1) else 0) + BitUnpack(buf, off + 1, w - 1)
  }

  /** Reading a field depends only on the bits of that field. */
  lemma {:induction false} UnpackFrame(a: seq<byte>, b: seq<byte>, off: nat, w: nat)
    requires off + w <= 8 * |a| && off + w <= 8 * |b|
    requires forall q :: off <= q < off + w ==> GetBit(a, q) == GetBit(b, q)
    ensures BitUnpack(a, off, w) == BitUnpack(b, off, w)
    decreases w
  {
    if w > 0 {
      UnpackFrame(a, b, off + 1, w - 1);
    }
  }

  /** Conversely, two fields that read the same value agree bit for bit. */
  lemma {:induction false} UnpackDeterminesBits(a: seq<byte>, b: seq<byte>, off: nat, w: nat)
    requires off + w <= 8 * |a| && off + w <= 8 * |b|
    requires BitUnpack(a, off, w) == BitUnpack(b, off, w)
    ensures forall q :: off <= q < off + w ==> GetBit(a, q) == GetBit(b, q)
    decreases w
  {
    if w > 0 {
      var restA, restB := BitUnpack(a, off + 1, w - 1), BitUnpack(b, off + 1, w - 1);
      assert restA < Pow2(w - 1) && restB < Pow2(w - 1);
      assert GetBit(a, off) == GetBit(b, off);
      UnpackDeterminesBits(a, b, off + 1, w - 1);
    }
  }

  /** Reading back a field just written gives the value written. */
  lemma {:induction false} UnpackPack(buf: seq<byte>, off: nat, w: nat, v: nat)
    requires off + w <= 8 * |buf|
    requires v < Pow2(w)
    ensures BitUnpack(BitPack(buf, off, w, v), off, w) == v
    decreases w
  {
    if w > 0 {
      var p := Pow2(w - 1);
      var inner := BitPack(buf, off + 1, w - 1, v % p);
      var r := BitPack(buf, off, w, v);
      assert r == SetBit(inner, off, v >= p);
      UnpackPack(buf, off + 1, w - 1, v % p);
      UnpackFrame(r, inner, off + 1, w - 1);
      ModBelowDouble(v, p);
      var rest := BitUnpack(r, off + 1, w - 1);
      assert rest == v % p;
      assert GetBit(r, off) == (v >= p);
      assert BitUnpack(r, off, w) == (if v >= p then p else 0) + rest;
    }
  }

  /** The remainder of v below 2p after dividing by p: at most one subtraction. */
  lemma ModBelowDouble(v: nat, p: nat)
    requires 1 <= p && v < 2 * p
    ensures v % p == if v >= p then v - p else v
  {
    if v >= p {
      assert v == p * 1 + (v - p);
    } else {
      assert v == p * 0 + v;
    }
  }

  /** A field read from an all-zero buffer is 0. */
  lemma {:induction false} UnpackZeros(n: nat, off: nat, w: nat)
    requires off + w <= 8 * n
    ensures BitUnpack(Zeros(n), off, w) == 0
    decreases w
  {
    if w > 0 {
      assert !GetBit(Zeros(n), off);
      UnpackZeros(n, off + 1, w - 1);
    }
  }
}
