// The streaming payload masker: a bytewise reference form and the two word-wise forms,
// all working in place on a stretch of a buffer.
module Masker {
  import opened Prelude
  import opened WordMask

  // How the masker's offset is set once the aligned part is done. `AsWritten` is the code;
  // `Additive` is the evident intent, in which the offset keeps counting from its old value.
  datatype OffsetRule = AsWritten | Additive

  datatype WordLoop = Plain | FourAtATime

  // The value of a masker between calls.
  datatype Phase = Phase(offset: nat, key: Key)

  // Where a buffer may be cut into unaligned prefix, whole words and suffix. Every cut is
  // covered: the slice function the source calls promises no particular one.
  datatype Cut = Cut(prefix: nat, words: nat)

  predicate WholeWords(word: WordSize, n: nat) {
    match word
    case Bits32 => n % 4 == 0
    case Bits64 => n % 8 == 0
  }

  // A cut applied to a stretch of n bytes: the lengths of the prefix and of the aligned part.
  function Split(word: WordSize, cut: Cut, n: nat): (r: (nat, nat))
    ensures r.0 + r.1 <= n && WholeWords(word, r.1)
  {
    var p := Min(cut.prefix, n);
    match word
    case Bits32 => (p, 4 * Min(cut.words, (n - p) / 4))
    case Bits64 => (p, 8 * Min(cut.words, (n - p) / 8))
  }

  // One bytewise pass from a given phase: section 5.3 of RFC 6455.
  function Masked(key: Key, phase: nat, s: seq<Byte>): (r: seq<Byte>)
    ensures |r| == |s|
    ensures forall i :: 0 <= i < |s| ==> r[i] == Xor(s[i], key[(phase + i) % 4])
  {
    seq(|s|, i requires 0 <= i < |s| => Xor(s[i], key[(phase + i) % 4]))
  }

  // The offset from which the suffix is masked, once p prefix and a aligned bytes are done.
  function SuffixOffset(rule: OffsetRule, offset: nat, p: nat, a: nat): nat {
    match rule
    case AsWritten => p + a
    case Additive => offset + p + a
  }

  // The position in the key stream that a word-wise form uses for byte i of a chunk cut into
  // prefix p and aligned part a: both continue the phase, the suffix starts from `SuffixOffset`.
  function StreamIndex(rule: OffsetRule, offset: nat, p: nat, a: nat, i: nat): nat {
    if i < p + a then offset + i else SuffixOffset(rule, offset, p, a) + (i - (p + a))
  }

  function ChunkMasked(rule: OffsetRule, word: WordSize, m: Phase, cut: Cut, s: seq<Byte>): (r: seq<Byte>)
    ensures |r| == |s|
    ensures var (p, a) := Split(word, cut, |s|);
            forall i :: 0 <= i < |s| ==> r[i] == Xor(s[i], m.key[StreamIndex(rule, m.offset, p, a, i) % 4])
  {
    var (p, a) := Split(word, cut, |s|);
    seq(|s|, i requires 0 <= i < |s| => Xor(s[i], m.key[StreamIndex(rule, m.offset, p, a, i) % 4]))
  }

  function ChunkPhase(rule: OffsetRule, m: Phase, n: nat): Phase {
    match rule
    case AsWritten => m.(offset := n)
    case Additive => m.(offset := m.offset + n)
  }

  // `now` is `was` with the bytes in [lo, hi) masked and every other byte untouched.
  ghost predicate MaskedWithin(now: seq<Byte>, was: seq<Byte>, lo: nat, hi: nat, key: Key, phase: nat) {
    && |now| == |was|
    && forall i :: 0 <= i < |was| ==>
         now[i] == if lo <= i < hi then Xor(was[i], key[(phase + (i - lo)) % 4]) else was[i]
  }

  lemma FoursLeft(length: nat)
    requires length % 4 == 0
    ensures length > 0 ==> 4 <= length && (length - 4) % 4 == 0
    ensures length >= 16 ==> (length - 16) % 4 == 0
  {
  }

  lemma EightsLeft(length: nat)
    requires length % 8 == 0
    ensures length > 0 ==> 8 <= length && (length - 8) % 8 == 0
    ensures length >= 32 ==> (length - 32) % 8 == 0
  {
  }

  // Taking one word, or four, off a whole number of words.
  lemma WordsLeft(word: WordSize, length: nat)
    requires WholeWords(word, length)
    ensures var n := WordBytes(word);
            && n % 4 == 0
            && (length > 0 ==> n <= length && WholeWords(word, length - n))
            && (4 * n <= length ==> WholeWords(word, length - 4 * n))
  {
    if word.Bits32? {
      FoursLeft(length);
    } else {
      EightsLeft(length);
    }
  }

  // XOR one machine word of the buffer with the widened mask.
  method XorWord(word: WordSize, buf: array<Byte>, at: nat, mask: Word)
    requires at + WordBytes(word) <= buf.Length
    modifies buf
    ensures forall k :: 0 <= k < WordBytes(word) ==> buf[at + k] == Xor(old(buf[at + k]), ByteOf(mask, k))
    ensures forall i :: 0 <= i < buf.Length && !(at <= i < at + WordBytes(word)) ==> buf[i] == old(buf[i])
  {
    hide Xor, ByteOf;
    var n := WordBytes(word);
    var bytes := buf[at..at + n];
    var w := XorWords(LoadWord(bytes), mask);
    for k := 0 to n
      invariant forall j :: 0 <= j < k ==> buf[at + j] == Xor(old(buf[at + j]), ByteOf(mask, j))
      invariant forall i :: 0 <= i < buf.Length && !(at <= i < at + k) ==> buf[i] == old(buf[i])
    {
      WordXorIsBytewise(bytes, mask, k);
      buf[at + k] := ByteOf(w, k);
    }
  }

  // The widened mask continues the key stream at `phase`.
  ghost predicate Continues(word: WordSize, mask: Word, key: Key, phase: nat) {
    forall k :: 0 <= k < WordBytes(word) ==> ByteOf(mask, k) == key[(phase + k) % 4]
  }

  // One step of a word loop that has masked [lo, at) of `orig`.
  method MaskWord(word: WordSize, buf: array<Byte>, ghost orig: seq<Byte>, lo: nat, at: nat, mask: Word,
                  ghost key: Key, ghost phase: nat)
    requires lo <= at && at + WordBytes(word) <= buf.Length && (at - lo) % 4 == 0
    requires Continues(word, mask, key, phase)
    requires MaskedWithin(buf[..], orig, lo, at, key, phase)
    modifies buf
    ensures MaskedWithin(buf[..], orig, lo, at + WordBytes(word), key, phase)
  {
    hide Xor, ByteOf, Continues, MaskedWithin, WordBytes;
    ghost var was := buf[..];
    XorWord(word, buf, at, mask);
    WordExtends(word, buf[..], was, orig, lo, at, mask, key, phase);
  }

  lemma WordExtends(word: WordSize, now: seq<Byte>, was: seq<Byte>, orig: seq<Byte>, lo: nat, at: nat, mask: Word,
                    key: Key, phase: nat)
    requires lo <= at && at + WordBytes(word) <= |was| == |now| && (at - lo) % 4 == 0
    requires Continues(word, mask, key, phase)
    requires MaskedWithin(was, orig, lo, at, key, phase)
    requires forall k :: 0 <= k < WordBytes(word) ==> now[at + k] == Xor(was[at + k], ByteOf(mask, k))
    requires forall i :: 0 <= i < |was| && !(at <= i < at + WordBytes(word)) ==> now[i] == was[i]
    ensures MaskedWithin(now, orig, lo, at + WordBytes(word), key, phase)
  {
    hide Xor, ByteOf, WordBytes;
    forall i | at <= i < at + WordBytes(word)
      ensures now[i] == Xor(orig[i], key[(phase + (i - lo)) % 4])
    {
      var k := i - at;
      assert was[at + k] == orig[at + k] && now[at + k] == Xor(was[at + k], ByteOf(mask, k));
      assert ByteOf(mask, k) == key[(phase + k) % 4];
      ShiftedPhase(phase, at - lo, k);
      assert phase + (i - lo) == phase + (at - lo) + k;
    }
  }

  lemma ShiftedPhase(phase: nat, d: nat, k: nat)
    requires d % 4 == 0
    ensures (phase + d + k) % 4 == (phase + k) % 4
  {
  }

  // The plain word loop, from `at` on.
  method XorPlain(word: WordSize, buf: array<Byte>, ghost orig: seq<Byte>, lo: nat, from: nat, hi: nat, mask: Word,
                  ghost key: Key, ghost phase: nat)
    requires lo <= from <= hi <= buf.Length && WholeWords(word, hi - from) && (from - lo) % 4 == 0
    requires Continues(word, mask, key, phase)
    requires MaskedWithin(buf[..], orig, lo, from, key, phase)
    modifies buf
    ensures MaskedWithin(buf[..], orig, lo, hi, key, phase)
  {
    hide Xor, ByteOf, Continues, MaskedWithin, WholeWords, WordBytes;
    var n := WordBytes(word);
    var at := from;
    while at < hi
      invariant from <= at <= hi && WholeWords(word, hi - at) && (at - lo) % 4 == 0
      invariant MaskedWithin(buf[..], orig, lo, at, key, phase)
    {
      WordsLeft(word, hi - at);
      MaskWord(word, buf, orig, lo, at, mask, key, phase);
      at := at + n;
    }
  }

  // The unrolled body of the loop that takes four words at a time.
  method MaskFourWords(word: WordSize, buf: array<Byte>, ghost orig: seq<Byte>, lo: nat, at: nat, mask: Word,
                       ghost key: Key, ghost phase: nat)
    requires lo <= at && at + 4 * WordBytes(word) <= buf.Length && (at - lo) % 4 == 0
    requires Continues(word, mask, key, phase)
    requires MaskedWithin(buf[..], orig, lo, at, key, phase)
    modifies buf
    ensures MaskedWithin(buf[..], orig, lo, at + 4 * WordBytes(word), key, phase)
  {
    hide Xor, ByteOf, Continues, MaskedWithin;
    var n := WordBytes(word);
    MaskWord(word, buf, orig, lo, at, mask, key, phase);
    MaskWord(word, buf, orig, lo, at + n, mask, key, phase);
    MaskWord(word, buf, orig, lo, at + 2 * n, mask, key, phase);
    MaskWord(word, buf, orig, lo, at + 3 * n, mask, key, phase);
  }

  method XorByFour(word: WordSize, buf: array<Byte>, ghost orig: seq<Byte>, lo: nat, hi: nat, mask: Word,
                   ghost key: Key, ghost phase: nat)
    requires lo <= hi <= buf.Length && WholeWords(word, hi - lo)
    requires Continues(word, mask, key, phase)
    requires MaskedWithin(buf[..], orig, lo, lo, key, phase)
    modifies buf
    ensures MaskedWithin(buf[..], orig, lo, hi, key, phase)
  {
    hide Xor, ByteOf, Continues, MaskedWithin, WholeWords, WordBytes;
    var n := WordBytes(word);
    var at := lo;
    while at + 4 * n <= hi
      invariant lo <= at <= hi && WholeWords(word, hi - at) && (at - lo) % 4 == 0
      invariant MaskedWithin(buf[..], orig, lo, at, key, phase)
    {
      WordsLeft(word, hi - at);
      MaskFourWords(word, buf, orig, lo, at, mask, key, phase);
      at := at + 4 * n;
    }
    XorPlain(word, buf, orig, lo, at, hi, mask, key, phase);
  }

  lemma SamePhase(a: nat, b: nat, d: nat)
    requires a % 4 == b % 4
    ensures (a + d) % 4 == (b + d) % 4
  {
  }

  // Two adjacent stretches masked one after the other are one masked stretch.
  lemma MaskedWithinJoin(now: seq<Byte>, middle: seq<Byte>, orig: seq<Byte>, lo: nat, at: nat, hi: nat,
                         key: Key, phase: nat, next: nat)
    requires lo <= at <= hi <= |orig|
    requires next % 4 == (phase + (at - lo)) % 4
    requires MaskedWithin(middle, orig, lo, at, key, phase)
    requires MaskedWithin(now, middle, at, hi, key, next)
    ensures MaskedWithin(now, orig, lo, hi, key, phase)
  {
    hide Xor;
    forall i | at <= i < hi
      ensures now[i] == Xor(orig[i], key[(phase + (i - lo)) % 4])
    {
      SamePhase(next, phase + (at - lo), i - at);
      assert phase + (at - lo) + (i - at) == phase + (i - lo);
      assert middle[i] == orig[i];
    }
  }

  class PayloadMasker {
    var offset: usize
    const maskKey: Key

    ghost function Value(): Phase
      reads this
    {
      Phase(offset, maskKey)
    }

    constructor (maskKey: Key)
      ensures Value() == Phase(0, maskKey)
    {
      this.maskKey := maskKey;
      offset := 0;
    }

    constructor WithOffset(maskKey: Key, offset: usize)
      ensures Value() == Phase(offset, maskKey)
    {
      this.maskKey := maskKey;
      this.offset := offset;
    }

    method NextMaskByte() returns (b: Byte)
      requires offset + 1 < USIZE_LIMIT
      modifies this
      ensures b == maskKey[old(offset) % 4] && offset == old(offset) + 1
    {
      b := maskKey[offset % 4];
      offset := offset + 1;
    }

    method MaskByte(b: Byte) returns (r: Byte)
      requires offset + 1 < USIZE_LIMIT
      modifies this
      ensures r == Xor(b, maskKey[old(offset) % 4]) && offset == old(offset) + 1
    {
      var m := NextMaskByte();
      r := Xor(b, m);
    }

    // The reference form, byte by byte.
    method MaskSmallChank(buf: array<Byte>, lo: nat, hi: nat)
      requires lo <= hi <= buf.Length && offset + (hi - lo) < USIZE_LIMIT
      modifies this, buf
      ensures MaskedWithin(buf[..], old(buf[..]), lo, hi, maskKey, old(offset))
      ensures offset == old(offset) + (hi - lo)
    {
      for i := lo to hi
        invariant offset == old(offset) + (i - lo)
        invariant MaskedWithin(buf[..], old(buf[..]), lo, i, maskKey, old(offset))
      {
        buf[i] := MaskByte(buf[i]);
      }
    }

    // The aligned part: rotate the key to the current phase, widen it, XOR word by word.
    method MaskAligned(word: WordSize, buf: array<Byte>, lo: nat, hi: nat, loop: WordLoop)
      requires lo <= hi <= buf.Length && WholeWords(word, hi - lo)
      modifies buf
      ensures MaskedWithin(buf[..], old(buf[..]), lo, hi, maskKey, offset)
    {
      hide PopulateToUsize, Rotate, Continues, Xor;
      ghost var was := buf[..];
      var mask := PopulateToUsize(word, Rotate(maskKey, offset));
      MaskContinues(word, maskKey, offset);
      match loop {
        case Plain => XorPlain(word, buf, was, lo, lo, hi, mask, maskKey, offset);
        case FourAtATime => XorByFour(word, buf, was, lo, hi, mask, maskKey, offset);
      }
    }

    // The word-wise form behind `MaskChank` and `MaskChankSimd`.
    method MaskChankImpl(word: WordSize, buf: array<Byte>, lo: nat, hi: nat, cut: Cut, loop: WordLoop)
      requires lo <= hi <= buf.Length && hi - lo < USIZE_LIMIT && offset + Split(word, cut, hi - lo).0 < USIZE_LIMIT
      modifies this, buf
      ensures buf[..lo] == old(buf[..lo]) && buf[hi..] == old(buf[hi..])
      ensures buf[lo..hi] == ChunkMasked(AsWritten, word, old(Value()), cut, old(buf[lo..hi]))
      ensures Value() == ChunkPhase(AsWritten, old(Value()), hi - lo)
    {
      hide MaskedWithin, Xor;
      var (p, a) := Split(word, cut, hi - lo);
      MaskSmallChank(buf, lo, lo + p);
      ghost var afterPrefix := buf[..];
      MaskAligned(word, buf, lo + p, lo + p + a, loop);
      ghost var afterWords := buf[..];
      MaskedWithinJoin(afterWords, afterPrefix, old(buf[..]), lo, lo + p, lo + p + a, maskKey, old(offset), offset);
      offset := p + a;
      MaskSmallChank(buf, lo + p + a, hi);
      ChunkFromStretches(buf[..], afterWords, old(buf[..]), lo, hi, word, cut, old(Value()));
    }

    method MaskChank(word: WordSize, buf: array<Byte>, lo: nat, hi: nat, cut: Cut)
      requires lo <= hi <= buf.Length && hi - lo < USIZE_LIMIT && offset + Split(word, cut, hi - lo).0 < USIZE_LIMIT
      modifies this, buf
      ensures buf[..lo] == old(buf[..lo]) && buf[hi..] == old(buf[hi..])
      ensures buf[lo..hi] == ChunkMasked(AsWritten, word, old(Value()), cut, old(buf[lo..hi]))
      ensures Value() == ChunkPhase(AsWritten, old(Value()), hi - lo)
    {
      MaskChankImpl(word, buf, lo, hi, cut, Plain);
    }

    method MaskChankSimd(word: WordSize, buf: array<Byte>, lo: nat, hi: nat, cut: Cut)
      requires lo <= hi <= buf.Length && hi - lo < USIZE_LIMIT && offset + Split(word, cut, hi - lo).0 < USIZE_LIMIT
      modifies this, buf
      ensures buf[..lo] == old(buf[..lo]) && buf[hi..] == old(buf[hi..])
      ensures buf[lo..hi] == ChunkMasked(AsWritten, word, old(Value()), cut, old(buf[lo..hi]))
      ensures Value() == ChunkPhase(AsWritten, old(Value()), hi - lo)
    {
      MaskChankImpl(word, buf, lo, hi, cut, FourAtATime);
    }
  }

  lemma MaskContinues(word: WordSize, key: Key, n: nat)
    ensures Continues(word, PopulateToUsize(word, Rotate(key, n)), key, n)
  {
    hide ByteOf, PopulateToUsize, Rotate;
    forall k | 0 <= k < WordBytes(word)
      ensures ByteOf(PopulateToUsize(word, Rotate(key, n)), k) == key[(n + k) % 4]
    {
      WordMaskByte(word, key, n, k);
    }
  }

  lemma ChunkFromStretches(now: seq<Byte>, middle: seq<Byte>, orig: seq<Byte>, lo: nat, hi: nat,
                           word: WordSize, cut: Cut, m: Phase)
    requires lo <= hi <= |orig|
    requires var (p, a) := Split(word, cut, hi - lo);
             && MaskedWithin(middle, orig, lo, lo + p + a, m.key, m.offset)
             && MaskedWithin(now, middle, lo + p + a, hi, m.key, p + a)
    ensures now[..lo] == orig[..lo] && now[hi..] == orig[hi..]
    ensures now[lo..hi] == ChunkMasked(AsWritten, word, m, cut, orig[lo..hi])
  {
    hide Xor, Split;
    var (p, a) := Split(word, cut, hi - lo);
    var s, r := orig[lo..hi], ChunkMasked(AsWritten, word, m, cut, orig[lo..hi]);
    forall i: nat | i < hi - lo
      ensures now[lo + i] == r[i]
    {
      var j := StreamIndex(AsWritten, m.offset, p, a, i);
      assert r[i] == Xor(s[i], m.key[j % 4]) && s[i] == orig[lo + i];
      if i < p + a {
        assert j == m.offset + (lo + i - lo);
        assert now[lo + i] == middle[lo + i];
      } else {
        assert j == p + a + (lo + i - (lo + p + a));
        assert middle[lo + i] == orig[lo + i];
      }
    }
  }
}
