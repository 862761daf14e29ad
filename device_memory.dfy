/**
 * Fixed-width integers read out of a byte array that holds device memory:
 * the word load of a little-endian target, the two byte-swap macros, and the
 * shift-and-mask extraction of 8- and 16-bit fields from a loaded word.
 */
module DeviceMemory {

  /** The two bytes of `h` as a little-endian target stores them, least significant first. */
  function StoreLE16(h: bv16): (m: seq<bv8>)
    ensures |m| == 2
  {
    [(h & 0xFF) as bv8, ((h >> 8) & 0xFF) as bv8]
  }

  /** The four bytes of `w` as a little-endian target stores them, least significant first. */
  function StoreLE32(w: bv32): (m: seq<bv8>)
    ensures |m| == 4
  {
    [(w & 0xFF) as bv8, ((w >> 8) & 0xFF) as bv8, ((w >> 16) & 0xFF) as bv8, ((w >> 24) & 0xFF) as bv8]
  }

  /** `*(uint32_t *)(mem + off)` on a little-endian target: the least significant byte comes first. */
  function LoadLE32(mem: seq<bv8>, off: nat): (w: bv32)
    requires off + 4 <= |mem|
    ensures StoreLE32(w) == mem[off..off + 4]
  {
    (mem[off] as bv32) | ((mem[off + 1] as bv32) << 8) | ((mem[off + 2] as bv32) << 16) | ((mem[off + 3] as bv32) << 24)
  }

  /** A 32-bit value stored most significant byte first, as the big-endian arrays hold it. */
  function LoadBE32(mem: seq<bv8>, off: nat): (w: bv32)
    requires off + 4 <= |mem|
    ensures StoreLE32(w) == [mem[off + 3], mem[off + 2], mem[off + 1], mem[off]]
  {
    ((mem[off] as bv32) << 24) | ((mem[off + 1] as bv32) << 16) | ((mem[off + 2] as bv32) << 8) | (mem[off + 3] as bv32)
  }

  /** A 16-bit value stored least significant byte first. */
  function LoadLE16(mem: seq<bv8>, off: nat): (h: bv16)
    requires off + 2 <= |mem|
    ensures StoreLE16(h) == mem[off..off + 2]
  {
    (mem[off] as bv16) | ((mem[off + 1] as bv16) << 8)
  }

  /** A 16-bit value stored most significant byte first. */
  function LoadBE16(mem: seq<bv8>, off: nat): (h: bv16)
    requires off + 2 <= |mem|
    ensures StoreLE16(h) == [mem[off + 1], mem[off]]
  {
    ((mem[off] as bv16) << 8) | (mem[off + 1] as bv16)
  }

  /** Storing a word and loading it back gives the word again, and every 4-byte window loads to the word it stores. */
  lemma LoadStoreRoundTrip(w: bv32, mem: seq<bv8>, off: nat)
    requires off + 4 <= |mem|
    ensures LoadLE32(StoreLE32(w), 0) == w
    ensures StoreLE32(LoadLE32(mem, off)) == mem[off..off + 4]
  {
  }

  /** `word >> (8 * k) & 0xFF`: byte `k` of the word, counted from the least significant end. */
  function ByteAt(w: bv32, k: nat): (b: bv8)
    requires k < 4
    ensures b == StoreLE32(w)[k]
  {
    ((w >> (8 * k)) & 0xFF) as bv8
  }

  /** `word & 0xFFFF`: the 16-bit field in bytes 0-1. */
  function LowHalf(w: bv32): (h: bv16)
    ensures StoreLE16(h) == StoreLE32(w)[0..2]
  {
    (w & 0xFFFF) as bv16
  }

  /** `word >> 8 & 0xFFFF`: the 16-bit field in bytes 1-2. */
  function MiddleHalf(w: bv32): (h: bv16)
    ensures StoreLE16(h) == StoreLE32(w)[1..3]
  {
    ((w >> 8) & 0xFFFF) as bv16
  }

  /** `word >> 16 & 0xFFFF`: the 16-bit field in bytes 2-3. */
  function HighHalf(w: bv32): (h: bv16)
    ensures StoreLE16(h) == StoreLE32(w)[2..4]
  {
    ((w >> 16) & 0xFFFF) as bv16
  }

  /** `word >> (8 * k) & 0xFFFF`: the 16-bit field that starts at byte `k` of the word. */
  function HalfAt(w: bv32, k: nat): (h: bv16)
    requires k <= 2
    ensures StoreLE16(h) == StoreLE32(w)[k..k + 2]
  {
    if k == 0 then LowHalf(w) else if k == 1 then MiddleHalf(w) else HighHalf(w)
  }

  /** `REVERSE_BYTES_SHORT`: the two bytes of a 16-bit value exchanged. */
  function ReverseBytesShort(x: bv16): (r: bv16)
    ensures StoreLE16(r) == [StoreLE16(x)[1], StoreLE16(x)[0]]
  {
    (x >> 8) | ((x & 0xFF) << 8)
  }

  /** Swapping the bytes twice gives the value back. */
  lemma ReverseBytesShortInvolution(x: bv16)
    ensures ReverseBytesShort(ReverseBytesShort(x)) == x
  {
  }

  /** A 16-bit field loaded little-endian and swapped is the field read big-endian. */
  lemma ReverseBytesShortDecodesBigEndian(mem: seq<bv8>, off: nat)
    requires off + 2 <= |mem|
    ensures ReverseBytesShort(LoadLE16(mem, off)) == LoadBE16(mem, off)
  {
  }

  /** A 32-bit byte reversal: the byte order of the word turned around. */
  function ByteSwap32(x: bv32): (r: bv32)
    ensures StoreLE32(r) == [StoreLE32(x)[3], StoreLE32(x)[2], StoreLE32(x)[1], StoreLE32(x)[0]]
  {
    (x >> 24) | (((x >> 16) & 0xFF) << 8) | (((x >> 8) & 0xFF) << 16) | ((x & 0xFF) << 24)
  }

  /** A word loaded little-endian and reversed is the word read big-endian. */
  lemma ByteSwap32DecodesBigEndian(mem: seq<bv8>, off: nat)
    requires off + 4 <= |mem|
    ensures ByteSwap32(LoadLE32(mem, off)) == LoadBE32(mem, off)
  {
  }

  /**
   * `REVERSE_BYTES_INT` as written: the third term shifts byte 1 by 24 rather than 16,
   * so the result's byte 2 is always zero, and the argument's byte 1 is ORed with byte 0
   * into the top byte.
   */
  function ReverseBytesInt(x: bv32): (r: bv32)
    ensures var b := StoreLE32(x); StoreLE32(r) == [b[3], b[2], 0, b[1] | b[0]]
  {
    (x >> 24) | (((x >> 16) & 0xFF) << 8) | (((x >> 8) & 0xFF) << 24) | ((x & 0xFF) << 24)
  }

  /** The macro as written reverses the bytes exactly when byte 1 (bits 15-8) of its argument is zero. */
  lemma {:induction false} ReverseBytesIntCorrectIff(x: bv32)
    ensures ReverseBytesInt(x) == ByteSwap32(x) <==> (x >> 8) & 0xFF == 0
  {
    var b := StoreLE32(x);
    if ReverseBytesInt(x) == ByteSwap32(x) {
      assert StoreLE32(ReverseBytesInt(x))[2] == b[1];
    }
  }

  /** The big-endian word 00 01 00 00 holds 65536, but the macro decodes it to 0x0100_0000. */
  lemma ReverseBytesIntMisreads65536()
    ensures LoadBE32([0, 1, 0, 0], 0) == 0x1_0000
    ensures ReverseBytesInt(LoadLE32([0, 1, 0, 0], 0)) == 0x0100_0000
    ensures ByteSwap32(LoadLE32([0, 1, 0, 0], 0)) == 0x1_0000
  {
  }

  /** `device_memory_little_endian`. */
  const LittleEndianMemory: seq<bv8> := [0x01, 0x00, 0x00, 0x00, 0x02, 0x00, 0x00, 0x00, 0x03, 0x00, 0x04, 0x00, 0x05, 0x06, 0x07, 0x08]

  /** `device_memory_big_endian`. */
  const BigEndianMemory: seq<bv8> := [0x00, 0x00, 0x00, 0x01, 0x00, 0x00, 0x00, 0x02, 0x00, 0x03, 0x00, 0x04, 0x05, 0x06, 0x07, 0x08]

  /** `device_memory_little_endian_mixed`. */
  const LittleEndianMixedMemory: seq<bv8> := [0x01, 0x02, 0x00, 0x00]

  /** `device_memory_big_endian_mixed`. */
  const BigEndianMixedMemory: seq<bv8> := [0x01, 0x00, 0x02, 0x00]

  /** The first two little-endian words hold 1 and 2. */
  lemma LittleEndianWords()
    ensures LoadLE32(LittleEndianMemory, 0) == 1 && LoadLE32(LittleEndianMemory, 4) == 2
  {
  }

  /** The halves of the third little-endian word are 3 and 4, read without a swap. */
  lemma LittleEndianHalves()
    ensures HalfAt(LoadLE32(LittleEndianMemory, 8), 0) == 3 && HalfAt(LoadLE32(LittleEndianMemory, 8), 2) == 4
  {
  }

  /** The fourth word's bytes are 5, 6, 7, 8 in both arrays: single bytes have no byte order. */
  lemma FourthWordBytes(k: nat)
    requires k < 4
    ensures ByteAt(LoadLE32(LittleEndianMemory, 12), k) == 5 + k as bv8
    ensures ByteAt(LoadLE32(BigEndianMemory, 12), k) == 5 + k as bv8
  {
  }

  /**
   * The first two big-endian words decode to 1 and 2 through the macro as written, because
   * their byte 1 is zero, so the macro agrees with the true reversal on them.
   */
  lemma {:induction false} BigEndianWords()
    ensures ReverseBytesInt(LoadLE32(BigEndianMemory, 0)) == 1
    ensures ReverseBytesInt(LoadLE32(BigEndianMemory, 4)) == 2
  {
    ReverseBytesIntCorrectIff(LoadLE32(BigEndianMemory, 0));
    ReverseBytesIntCorrectIff(LoadLE32(BigEndianMemory, 4));
    ByteSwap32DecodesBigEndian(BigEndianMemory, 0);
    ByteSwap32DecodesBigEndian(BigEndianMemory, 4);
  }

  /** The halves of the third big-endian word are 3 and 4 once swapped. */
  lemma BigEndianHalves()
    ensures ReverseBytesShort(HalfAt(LoadLE32(BigEndianMemory, 8), 0)) == 3
    ensures ReverseBytesShort(HalfAt(LoadLE32(BigEndianMemory, 8), 2)) == 4
  {
  }

  /** In the mixed layouts the byte at 0 is 1 and the 16-bit field at bytes 1-2 is 2 (swapped in the big-endian one). */
  lemma MixedFields()
    ensures ByteAt(LoadLE32(LittleEndianMixedMemory, 0), 0) == 1
    ensures HalfAt(LoadLE32(LittleEndianMixedMemory, 0), 1) == 2
    ensures ByteAt(LoadLE32(BigEndianMixedMemory, 0), 0) == 1
    ensures ReverseBytesShort(HalfAt(LoadLE32(BigEndianMixedMemory, 0), 1)) == 2
  {
  }
}
