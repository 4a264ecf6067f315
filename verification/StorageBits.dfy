/** The bits of a byte buffer in the order in which a bitfield unit numbers them.

    `View(bigEndian, s)` lists all `8 * |s|` of them; `Pack` is its inverse, so a buffer and its bit
    view determine each other. */
module StorageBits {
  import opened BinaryNumbers
  import opened MachineWords

  /** Which digit of its byte the bit at `index` is. */
  function BitIndex(bigEndian: bool, index: nat): (k: nat)
    ensures k < 8
  {
    if bigEndian then 7 - index % 8 else index % 8
  }

  predicate BitOf(bigEndian: bool, s: seq<u8>, index: nat)
    requires index < 8 * |s|
  {
    Bit(s[index / 8], BitIndex(bigEndian, index))
  }

  function View(bigEndian: bool, s: seq<u8>): (bits: seq<bool>)
    ensures |bits| == 8 * |s|
  {
    seq(8 * |s|, i requires 0 <= i < 8 * |s| => BitOf(bigEndian, s, i))
  }

  /** Bits in the significance order of the target: the last one of a run is the lowest on a
      big-endian target, the first one on a little-endian target. */
  function Orient(bigEndian: bool, bits: seq<bool>): (g: seq<bool>)
    ensures |g| == |bits|
  {
    if bigEndian then Reverse(bits) else bits
  }

  lemma OrientInvolutive(bigEndian: bool, bits: seq<bool>)
    ensures Orient(bigEndian, Orient(bigEndian, bits)) == bits
  {}

  function PackByte(bigEndian: bool, bits: seq<bool>): u8
    requires |bits| == 8
  {
    Pow2Byte();
    FromBitsBound(Orient(bigEndian, bits));
    FromBits(Orient(bigEndian, bits))
  }

  function Pack(bigEndian: bool, bits: seq<bool>): (s: seq<u8>)
    requires |bits| % 8 == 0
    ensures |s| == |bits| / 8
  {
    seq(|bits| / 8, k requires 0 <= k < |bits| / 8 => PackByte(bigEndian, bits[8 * k..8 * k + 8]))
  }

  lemma BitOfPackByte(bigEndian: bool, chunk: seq<bool>, j: nat)
    requires |chunk| == 8 && j < 8
    ensures Bit(PackByte(bigEndian, chunk), BitIndex(bigEndian, j)) == chunk[j]
  {
    BitOfFromBits(Orient(bigEndian, chunk), BitIndex(bigEndian, j));
  }

  lemma PackAt(bigEndian: bool, bits: seq<bool>, k: nat, j: nat)
    requires |bits| % 8 == 0 && 8 * k < |bits| && j < 8
    ensures Bit(Pack(bigEndian, bits)[k], BitIndex(bigEndian, j)) == bits[8 * k + j]
  {
    var chunk := bits[8 * k..8 * k + 8];
    BitOfPackByte(bigEndian, chunk, j);
    assert Pack(bigEndian, bits)[k] == PackByte(bigEndian, chunk);
    assert chunk[j] == bits[8 * k + j];
  }

  /** Packing bits into bytes loses none of them. */
  lemma ViewOfPack(bigEndian: bool, bits: seq<bool>)
    requires |bits| % 8 == 0
    ensures View(bigEndian, Pack(bigEndian, bits)) == bits
  {
    var s := Pack(bigEndian, bits);
    forall i | 0 <= i < |bits| ensures View(bigEndian, s)[i] == bits[i] {
      PackAt(bigEndian, bits, i / 8, i % 8);
      assert 8 * (i / 8) + i % 8 == i;
      assert BitOf(bigEndian, s, i) == Bit(s[i / 8], BitIndex(bigEndian, i % 8));
    }
  }

  /** Two buffers with the same bits are the same bytes. */
  lemma ViewInjective(bigEndian: bool, s: seq<u8>, t: seq<u8>)
    requires View(bigEndian, s) == View(bigEndian, t)
    ensures s == t
  {
    assert |s| == |t|;
    forall k | 0 <= k < |s| ensures s[k] == t[k] {
      forall j | 0 <= j < 8 ensures Bit(s[k], j) == Bit(t[k], j) {
        var i := 8 * k + (if bigEndian then 7 - j else j);
        assert BitOf(bigEndian, s, i) == View(bigEndian, s)[i] == BitOf(bigEndian, t, i);
      }
      Pow2Byte();
      BitsExtensional(s[k], t[k], 8);
    }
  }

  lemma PackOfView(bigEndian: bool, s: seq<u8>)
    ensures Pack(bigEndian, View(bigEndian, s)) == s
  {
    ViewOfPack(bigEndian, View(bigEndian, s));
    ViewInjective(bigEndian, Pack(bigEndian, View(bigEndian, s)), s);
  }

  /** A byte written through a one-bit mask changes one bit of the view. */
  lemma ViewOfByteUpdate(bigEndian: bool, s: seq<u8>, index: nat, b: u8, val: bool)
    requires index < 8 * |s|
    requires forall j :: 0 <= j < 8 ==>
               Bit(b, j) == if j == BitIndex(bigEndian, index) then val else Bit(s[index / 8], j)
    ensures View(bigEndian, s[index / 8 := b]) == View(bigEndian, s)[index := val]
  {
    var t := s[index / 8 := b];
    forall i | 0 <= i < 8 * |s| ensures BitOf(bigEndian, t, i) == View(bigEndian, s)[index := val][i] {
      if i / 8 == index / 8 {
        assert BitIndex(bigEndian, i) == BitIndex(bigEndian, index) ==> i == index;
      }
    }
  }

  lemma BitDuality(s: seq<u8>, i: nat)
    requires i < 8 * |s|
    ensures BitOf(true, s, i) == BitOf(false, Reverse(s), 8 * |s| - 1 - i)
  {
    var j := 8 * |s| - 1 - i;
    assert j / 8 == |s| - 1 - i / 8 && j % 8 == 7 - i % 8;
  }

  /** The two numberings are mirror images: numbering a buffer's bits for a big-endian target is
      numbering the byte-reversed buffer's bits for a little-endian target from the far end. */
  lemma ViewDuality(s: seq<u8>)
    ensures View(true, s) == Reverse(View(false, Reverse(s)))
  {
    var mirror := View(false, Reverse(s));
    forall i | 0 <= i < 8 * |s| ensures View(true, s)[i] == mirror[8 * |s| - 1 - i] {
      BitDuality(s, i);
    }
  }
}
