// The bit arithmetic under the masker: a four byte key packed little-endian,
// rotated to the current phase and widened to one machine word.
module WordMask {
  import opened Prelude

  // A masking key as the four big-endian bytes of the header field.
  type Key = k: seq<Byte> | |k| == 4 witness [Byte(0), Byte(0), Byte(0), Byte(0)]

  // The two supported values of `target_pointer_width`.
  datatype WordSize = Bits32 | Bits64

  function WordBytes(word: WordSize): (n: nat)
    ensures n == 4 || n == 8
  {
    match word
    case Bits32 => 4
    case Bits64 => 8
  }

  // A machine word; a 32-bit target leaves the upper half unused.
  datatype Word = Word(bits: bv64)

  function XorWords(v: Word, w: Word): Word {
    Word(v.bits ^ w.bits)
  }

  function Pack(b0: Byte, b1: Byte, b2: Byte, b3: Byte): bv32 {
    b0.bits as bv32 | (b1.bits as bv32 << 8) | (b2.bits as bv32 << 16) | (b3.bits as bv32 << 24)
  }

  // The shift is eight times the low two bits of n; the four shifts are written out.
  function Rotate(key: Key, n: nat): bv32 {
    var packed := Pack(key[0], key[1], key[2], key[3]);
    if n % 4 == 0 then packed.RotateRight(0)
    else if n % 4 == 1 then packed.RotateRight(8)
    else if n % 4 == 2 then packed.RotateRight(16)
    else packed.RotateRight(24)
  }

  // The two 32-bit halves of a word and byte k of a half, in memory order on a little-endian machine.
  function Low(w: Word): bv32 {
    (w.bits & 0xFFFF_FFFF) as bv32
  }

  function High(w: Word): bv32 {
    (w.bits >> 32) as bv32
  }

  function ByteOfHalf(x: bv32, k: nat): Byte
    requires k < 4
  {
    match k
    case 0 => Byte((x & 0xFF) as bv8)
    case 1 => Byte(((x >> 8) & 0xFF) as bv8)
    case 2 => Byte(((x >> 16) & 0xFF) as bv8)
    case 3 => Byte(((x >> 24) & 0xFF) as bv8)
  }

  function ByteOf(w: Word, k: nat): Byte
    requires k < 8
  {
    if k < 4 then ByteOfHalf(Low(w), k) else ByteOfHalf(High(w), k - 4)
  }

  function Join(low: bv32, high: bv32): Word {
    Word(low as bv64 | (high as bv64 << 32))
  }

  function PopulateToUsize(word: WordSize, mask: bv32): Word {
    match word
    case Bits32 => Word(mask as bv64)
    case Bits64 => Join(mask, mask)
  }

  function LoadWord(s: seq<Byte>): Word
    requires |s| == 4 || |s| == 8
  {
    Join(Pack(s[0], s[1], s[2], s[3]), if |s| == 4 then 0 else Pack(s[4], s[5], s[6], s[7]))
  }

  lemma Halves(low: bv32, high: bv32)
    ensures Low(Join(low, high)) == low && High(Join(low, high)) == high
  {
  }

  lemma XorHalves(v: Word, w: Word)
    ensures Low(XorWords(v, w)) == Low(v) ^ Low(w) && High(XorWords(v, w)) == High(v) ^ High(w)
  {
  }

  lemma ZeroExtendedLow(mask: bv32)
    ensures Low(Word(mask as bv64)) == mask
  {
  }

  lemma RotatedByte(key: Key, n: nat, k: nat)
    requires k < 4
    ensures ByteOfHalf(Rotate(key, n), k) == key[(n + k) % 4]
  {
    match n % 4 {
      case 0 => match k { case 0 => case 1 => case 2 => case 3 => }
      case 1 => match k { case 0 => case 1 => case 2 => case 3 => }
      case 2 => match k { case 0 => case 1 => case 2 => case 3 => }
      case _ => match k { case 0 => case 1 => case 2 => case 3 => }
    }
  }

  lemma PackedByte(s: seq<Byte>, k: nat)
    requires k < 4 == |s|
    ensures ByteOfHalf(Pack(s[0], s[1], s[2], s[3]), k) == s[k]
  {
    match k {
      case 0 =>
      case 1 =>
      case 2 =>
      case 3 =>
    }
  }

  lemma XoredByte(v: bv32, w: bv32, k: nat)
    requires k < 4
    ensures ByteOfHalf(v ^ w, k) == Xor(ByteOfHalf(v, k), ByteOfHalf(w, k))
  {
    match k {
      case 0 =>
      case 1 =>
      case 2 =>
      case 3 =>
    }
  }

  // Byte k of the widened rotated key is the key byte a bytewise pass would use k bytes later.
  lemma WordMaskByte(word: WordSize, key: Key, n: nat, k: nat)
    requires k < WordBytes(word)
    ensures ByteOf(PopulateToUsize(word, Rotate(key, n)), k) == key[(n + k) % 4]
  {
    hide ByteOfHalf, Low, High, Join, Rotate;
    ZeroExtendedLow(Rotate(key, n));
    Halves(Rotate(key, n), Rotate(key, n));
    RotatedByte(key, n, k % 4);
    assert (n + k % 4) % 4 == (n + k) % 4;
  }

  // XOR on words is XOR on the bytes that make them up.
  lemma WordXorIsBytewise(s: seq<Byte>, mask: Word, k: nat)
    requires |s| == 4 || |s| == 8
    requires k < |s|
    ensures ByteOf(XorWords(LoadWord(s), mask), k) == Xor(s[k], ByteOf(mask, k))
  {
    hide ByteOfHalf, Low, High, Join, Pack, XorWords, Xor;
    var low := Pack(s[0], s[1], s[2], s[3]);
    var high := if |s| == 4 then 0 else Pack(s[4], s[5], s[6], s[7]);
    Halves(low, high);
    XorHalves(LoadWord(s), mask);
    if k < 4 {
      XoredByte(low, Low(mask), k);
      PackedByte(s[..4], k);
    } else {
      XoredByte(high, High(mask), k - 4);
      PackedByte(s[4..], k - 4);
    }
  }
}
