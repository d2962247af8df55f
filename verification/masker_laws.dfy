// What the word-wise forms compute, compared with one bytewise pass.
module MaskerLaws {
  import opened Prelude
  import opened WordMask
  import opened Masker

  lemma {:induction false} XorSelfInverse(b: Byte, k: Byte)
    ensures Xor(Xor(b, k), k) == b
  {
  }

  lemma {:induction false} XorInjective(b: Byte, k: Byte, l: Byte)
    requires Xor(b, k) == Xor(b, l)
    ensures k == l
  {
    assert b.bits ^ (b.bits ^ k.bits) == k.bits;
    assert b.bits ^ (b.bits ^ l.bits) == l.bits;
  }

  lemma {:induction false} MaskedAnyPhase(key: Key, a: nat, b: nat, s: seq<Byte>)
    requires a % 4 == b % 4
    ensures Masked(key, a, s) == Masked(key, b, s)
  {
    hide Xor;
    forall i | 0 <= i < |s|
      ensures Masked(key, a, s)[i] == Masked(key, b, s)[i]
    {
      SamePhase(a, b, i);
    }
  }

  lemma {:induction false} MaskedSplit(key: Key, phase: nat, s: seq<Byte>, n: nat)
    requires n <= |s|
    ensures Masked(key, phase, s) == Masked(key, phase, s[..n]) + Masked(key, phase + n, s[n..])
  {
    hide Xor;
    forall i | 0 <= i < |s|
      ensures Masked(key, phase, s)[i] == (Masked(key, phase, s[..n]) + Masked(key, phase + n, s[n..]))[i]
    {
      if i >= n {
        assert phase + i == phase + n + (i - n);
      }
    }
  }

  // Masking is its own inverse.
  lemma {:induction false} MaskedTwice(key: Key, phase: nat, s: seq<Byte>)
    ensures Masked(key, phase, Masked(key, phase, s)) == s
  {
    hide Xor;
    forall i | 0 <= i < |s|
      ensures Masked(key, phase, Masked(key, phase, s))[i] == s[i]
    {
      XorSelfInverse(s[i], key[(phase + i) % 4]);
    }
  }

  // A word-wise form started at offset o and cut at p + a uses the right key byte everywhere
  // unless the suffix is reached from an offset that is not a multiple of four.
  predicate ChunkInPhase(word: WordSize, offset: nat, cut: Cut, n: nat) {
    var (p, a) := Split(word, cut, n);
    offset % 4 == 0 || p + a == n
  }

  lemma {:induction false} ChunkIsMasked(rule: OffsetRule, word: WordSize, m: Phase, cut: Cut, s: seq<Byte>)
    requires rule.Additive? || ChunkInPhase(word, m.offset, cut, |s|)
    ensures ChunkMasked(rule, word, m, cut, s) == Masked(m.key, m.offset, s)
  {
    hide Xor;
    var (p, a) := Split(word, cut, |s|);
    forall i | 0 <= i < |s|
      ensures ChunkMasked(rule, word, m, cut, s)[i] == Masked(m.key, m.offset, s)[i]
    {
      if rule.AsWritten? && i >= p + a {
        SamePhase(m.offset, 0, i);
      }
    }
  }

  // Four different key bytes.
  const DISTINCT: Key := [Byte(0), Byte(1), Byte(2), Byte(3)]

  lemma {:induction false} DistinctBytes(a: nat, b: nat)
    requires DISTINCT[a % 4] == DISTINCT[b % 4]
    ensures a % 4 == b % 4
  {
  }

  // With such a key a wrong phase shows in every byte.
  lemma {:induction false} WrongPhaseShows(b: Byte, i: nat, j: nat)
    requires i % 4 != j % 4
    ensures Xor(b, DISTINCT[i % 4]) != Xor(b, DISTINCT[j % 4])
  {
    hide Xor;
    if Xor(b, DISTINCT[i % 4]) == Xor(b, DISTINCT[j % 4]) {
      XorInjective(b, DISTINCT[i % 4], DISTINCT[j % 4]);
      DistinctBytes(i, j);
    }
  }

  lemma {:induction false} PhaseLeftBehind(offset: nat, n: nat)
    ensures n % 4 == (offset + n) % 4 <==> offset % 4 == 0
  {
  }

  // Byte i is masked with the key byte of another phase.
  lemma {:induction false} ByteOutOfPhase(word: WordSize, offset: nat, phase: nat, cut: Cut, s: seq<Byte>, i: nat)
    requires i < |s|
    requires var (p, a) := Split(word, cut, |s|); StreamIndex(AsWritten, offset, p, a, i) % 4 != (phase + i) % 4
    ensures ChunkMasked(AsWritten, word, Phase(offset, DISTINCT), cut, s) != Masked(DISTINCT, phase, s)
  {
    hide Xor, Split, ChunkMasked, Masked, DISTINCT, StreamIndex;
    var (p, a) := Split(word, cut, |s|);
    var m := Phase(offset, DISTINCT);
    WrongPhaseShows(s[i], StreamIndex(AsWritten, offset, p, a, i), phase + i);
    assert ChunkMasked(AsWritten, word, m, cut, s)[i] == Xor(s[i], m.key[StreamIndex(AsWritten, offset, p, a, i) % 4]);
    assert Masked(DISTINCT, phase, s)[i] == Xor(s[i], DISTINCT[(phase + i) % 4]);
  }

  // The first byte masked out of phase shows.
  lemma {:induction false} ChunkOutOfPhase(word: WordSize, offset: nat, phase: nat, cut: Cut, s: seq<Byte>)
    requires var (p, a) := Split(word, cut, |s|);
             (p + a > 0 && offset % 4 != phase % 4) || (p + a < |s| && phase % 4 != 0)
    ensures ChunkMasked(AsWritten, word, Phase(offset, DISTINCT), cut, s) != Masked(DISTINCT, phase, s)
  {
    hide Split, ChunkMasked, Masked, DISTINCT;
    var (p, a) := Split(word, cut, |s|);
    if p + a > 0 && offset % 4 != phase % 4 {
      ByteOutOfPhase(word, offset, phase, cut, s, 0);
    } else {
      PhaseLeftBehind(phase, p + a);
      ByteOutOfPhase(word, offset, phase, cut, s, p + a);
    }
  }

  // Exactly when the form as written refines the bytewise form, whatever the key and the bytes, and exactly
  // when it leaves the right phase behind.
  lemma {:induction false} ChunkRefinesBytewiseExactly(word: WordSize, offset: nat, cut: Cut, n: nat)
    ensures (forall key: Key, s: seq<Byte> | |s| == n ::
               ChunkMasked(AsWritten, word, Phase(offset, key), cut, s) == Masked(key, offset, s))
            <==> ChunkInPhase(word, offset, cut, n)
    ensures forall key: Key ::
              ChunkPhase(AsWritten, Phase(offset, key), n).offset % 4 == (offset + n) % 4 <==> offset % 4 == 0
  {
    hide ChunkMasked, Masked, Split, DISTINCT, ChunkInPhase;
    PhaseLeftBehind(offset, n);
    if ChunkInPhase(word, offset, cut, n) {
      forall key: Key, s: seq<Byte> | |s| == n
        ensures ChunkMasked(AsWritten, word, Phase(offset, key), cut, s) == Masked(key, offset, s)
      {
        ChunkIsMasked(AsWritten, word, Phase(offset, key), cut, s);
      }
    } else {
      OutOfPhaseShows(word, offset, cut, seq(n, _ => Byte(0)));
    }
  }

  lemma {:induction false} OutOfPhaseShows(word: WordSize, offset: nat, cut: Cut, s: seq<Byte>)
    requires !ChunkInPhase(word, offset, cut, |s|)
    ensures ChunkMasked(AsWritten, word, Phase(offset, DISTINCT), cut, s) != Masked(DISTINCT, offset, s)
  {
    hide ChunkMasked, Masked, Split, DISTINCT;
    ChunkOutOfPhase(word, offset, offset, cut, s);
  }

  // Masking with fresh maskers of one key, through any two forms and alignments, is undone.
  lemma {:induction false} ChunkMaskedTwice(r1: OffsetRule, w1: WordSize, c1: Cut, r2: OffsetRule, w2: WordSize, c2: Cut,
                         key: Key, s: seq<Byte>)
    ensures ChunkMasked(r2, w2, Phase(0, key), c2, ChunkMasked(r1, w1, Phase(0, key), c1, s)) == s
  {
    ChunkIsMasked(r1, w1, Phase(0, key), c1, s);
    ChunkIsMasked(r2, w2, Phase(0, key), c2, Masked(key, 0, s));
    MaskedTwice(key, 0, s);
  }

  // The length of a chunk and the cut its alignment gives it.
  datatype Shape = Shape(len: nat, cut: Cut)

  function Total(shapes: seq<Shape>): nat {
    if shapes == [] then 0 else shapes[0].len + Total(shapes[1..])
  }

  // One masker applied to consecutive chunks of s.
  function Stream(rule: OffsetRule, word: WordSize, m: Phase, shapes: seq<Shape>, s: seq<Byte>): (r: seq<Byte>)
    requires |s| == Total(shapes)
    ensures |r| == |s|
    decreases |shapes|
  {
    if shapes == [] then []
    else
      var n := shapes[0].len;
      ChunkMasked(rule, word, m, shapes[0].cut, s[..n])
      + Stream(rule, word, ChunkPhase(rule, m, n), shapes[1..], s[n..])
  }

  // The additive offset update streams correctly through every cut.
  lemma {:induction false} AdditiveStream(word: WordSize, m: Phase, shapes: seq<Shape>, s: seq<Byte>)
    requires |s| == Total(shapes)
    ensures Stream(Additive, word, m, shapes, s) == Masked(m.key, m.offset, s)
    decreases |shapes|
  {
    hide Xor, ChunkMasked, Masked, Split;
    if shapes != [] {
      var n := shapes[0].len;
      ChunkIsMasked(Additive, word, m, shapes[0].cut, s[..n]);
      AdditiveStream(word, ChunkPhase(Additive, m, n), shapes[1..], s[n..]);
      MaskedSplit(m.key, m.offset, s, n);
    }
  }

  // `offset` is the masker's, `phase` the number of bytes really masked so far. The prefix and the
  // aligned part of a chunk follow the offset; the suffix follows the position inside the chunk.
  predicate PhasesRight(word: WordSize, offset: nat, phase: nat, shapes: seq<Shape>)
    decreases |shapes|
  {
    shapes == [] ||
    var n := shapes[0].len;
    var (p, a) := Split(word, shapes[0].cut, n);
    && (p + a > 0 ==> offset % 4 == phase % 4)
    && (p + a < n ==> phase % 4 == 0)
    && PhasesRight(word, n, phase + n, shapes[1..])
  }

  lemma {:induction false} ChunkFollowsPhase(word: WordSize, m: Phase, phase: nat, cut: Cut, s: seq<Byte>)
    requires var (p, a) := Split(word, cut, |s|);
             (p + a > 0 ==> m.offset % 4 == phase % 4) && (p + a < |s| ==> phase % 4 == 0)
    ensures ChunkMasked(AsWritten, word, m, cut, s) == Masked(m.key, phase, s)
  {
    hide Xor, Split;
    var (p, a) := Split(word, cut, |s|);
    forall i | 0 <= i < |s|
      ensures ChunkMasked(AsWritten, word, m, cut, s)[i] == Masked(m.key, phase, s)[i]
    {
      if i < p + a {
        SamePhase(m.offset, phase, i);
      } else {
        SamePhase(0, phase, i);
      }
    }
  }

  lemma {:induction false} StreamInPhase(word: WordSize, m: Phase, phase: nat, shapes: seq<Shape>, s: seq<Byte>)
    requires |s| == Total(shapes) && PhasesRight(word, m.offset, phase, shapes)
    ensures Stream(AsWritten, word, m, shapes, s) == Masked(m.key, phase, s)
    decreases |shapes|
  {
    hide Xor, ChunkMasked, Masked, Split;
    if shapes != [] {
      var n := shapes[0].len;
      ChunkFollowsPhase(word, m, phase, shapes[0].cut, s[..n]);
      StreamInPhase(word, ChunkPhase(AsWritten, m, n), phase + n, shapes[1..], s[n..]);
      MaskedSplit(m.key, phase, s, n);
    }
  }

  lemma {:induction false} JoinsDiffer(a: seq<Byte>, b: seq<Byte>, c: seq<Byte>, d: seq<Byte>)
    requires |a| == |c| && (a != c || b != d)
    ensures a + b != c + d
  {
    assert (a + b)[..|a|] == a && (a + b)[|a|..] == b;
    assert (c + d)[..|a|] == c && (c + d)[|a|..] == d;
  }

  lemma {:induction false} StreamOutOfPhase(word: WordSize, offset: nat, phase: nat, shapes: seq<Shape>, s: seq<Byte>)
    requires |s| == Total(shapes) && !PhasesRight(word, offset, phase, shapes)
    ensures Stream(AsWritten, word, Phase(offset, DISTINCT), shapes, s) != Masked(DISTINCT, phase, s)
    decreases |shapes|
  {
    hide Xor, ChunkMasked, Masked, Split, DISTINCT;
    var n := shapes[0].len;
    var (p, a) := Split(word, shapes[0].cut, n);
    MaskedSplit(DISTINCT, phase, s, n);
    if (p + a > 0 && offset % 4 != phase % 4) || (p + a < n && phase % 4 != 0) {
      ChunkOutOfPhase(word, offset, phase, shapes[0].cut, s[..n]);
    } else {
      StreamOutOfPhase(word, n, phase + n, shapes[1..], s[n..]);
    }
    JoinsDiffer(ChunkMasked(AsWritten, word, Phase(offset, DISTINCT), shapes[0].cut, s[..n]),
                Stream(AsWritten, word, Phase(n, DISTINCT), shapes[1..], s[n..]),
                Masked(DISTINCT, phase, s[..n]), Masked(DISTINCT, phase + n, s[n..]));
  }

  // Exactly which chunk shapes the code streams correctly from a given starting offset, whatever the key
  // and the bytes. A single shape is `ChunkRefinesBytewiseExactly`.
  lemma {:induction false} StreamExactly(word: WordSize, offset: nat, shapes: seq<Shape>)
    ensures (forall key: Key, s: seq<Byte> | |s| == Total(shapes) ::
               Stream(AsWritten, word, Phase(offset, key), shapes, s) == Masked(key, offset, s))
            <==> PhasesRight(word, offset, offset, shapes)
  {
    hide Xor;
    if PhasesRight(word, offset, offset, shapes) {
      forall key: Key, s: seq<Byte> | |s| == Total(shapes)
        ensures Stream(AsWritten, word, Phase(offset, key), shapes, s) == Masked(key, offset, s)
      {
        StreamInPhase(word, Phase(offset, key), offset, shapes, s);
      }
    } else {
      var s := seq(Total(shapes), _ => Byte(0));
      StreamOutOfPhase(word, offset, offset, shapes, s);
    }
  }

  function Lengths(shapes: seq<Shape>): seq<nat> {
    seq(|shapes|, i requires 0 <= i < |shapes| => shapes[i].len)
  }

  // Every non-empty chunk starts a multiple of four bytes into the stream.
  predicate StartsAligned(phase: nat, lens: seq<nat>)
    decreases |lens|
  {
    lens == [] || ((lens[0] > 0 ==> phase % 4 == 0) && StartsAligned(phase + lens[0], lens[1..]))
  }

  lemma {:induction false} AlignedStartsSuffice(word: WordSize, offset: nat, phase: nat, shapes: seq<Shape>)
    requires StartsAligned(phase, Lengths(shapes))
    requires phase % 4 == 0 ==> offset % 4 == 0
    ensures PhasesRight(word, offset, phase, shapes)
    decreases |shapes|
  {
    if shapes != [] {
      assert Lengths(shapes)[1..] == Lengths(shapes[1..]);
      AlignedStartsSuffice(word, shapes[0].len, phase + shapes[0].len, shapes[1..]);
    }
  }

  // All suffix: the cut in which the slice function aligns nothing.
  function Unaligned(lens: seq<nat>): (shapes: seq<Shape>)
    ensures |shapes| == |lens| && Lengths(shapes) == lens
  {
    seq(|lens|, i requires 0 <= i < |lens| => Shape(lens[i], Cut(0, 0)))
  }

  lemma {:induction false} AlignedStartsNeeded(word: WordSize, offset: nat, phase: nat, lens: seq<nat>)
    requires PhasesRight(word, offset, phase, Unaligned(lens))
    ensures StartsAligned(phase, lens)
    decreases |lens|
  {
    if lens != [] {
      assert Unaligned(lens)[1..] == Unaligned(lens[1..]);
      AlignedStartsNeeded(word, lens[0], phase + lens[0], lens[1..]);
    }
  }

  // The condition a caller can check without knowing any alignment: chunks of the given lengths come out
  // right for every key, all bytes and every alignment exactly when each non-empty one starts a multiple of
  // four bytes into the stream.
  lemma {:induction false} StreamExactlyForEveryAlignment(word: WordSize, lens: seq<nat>)
    ensures (forall shapes: seq<Shape>, key: Key, s: seq<Byte> | Lengths(shapes) == lens && |s| == Total(shapes) ::
               Stream(AsWritten, word, Phase(0, key), shapes, s) == Masked(key, 0, s))
            <==> StartsAligned(0, lens)
  {
    hide Stream, Masked;
    if StartsAligned(0, lens) {
      forall shapes: seq<Shape>, key: Key, s: seq<Byte> | Lengths(shapes) == lens && |s| == Total(shapes)
        ensures Stream(AsWritten, word, Phase(0, key), shapes, s) == Masked(key, 0, s)
      {
        AlignedStartsSuffice(word, 0, 0, shapes);
        StreamInPhase(word, Phase(0, key), 0, shapes, s);
      }
    } else {
      var shapes := Unaligned(lens);
      if PhasesRight(word, 0, 0, shapes) {
        AlignedStartsNeeded(word, 0, 0, lens);
      }
      var s := seq(Total(shapes), _ => Byte(0));
      StreamOutOfPhase(word, 0, 0, shapes, s);
    }
  }

  // A buffer of eleven bytes masked in chunks of nine, as one of the source's own tests does: right for
  // every key and all bytes if the second chunk is taken as prefix, wrong for some key, whatever the bytes,
  // if it is taken as suffix.
  lemma {:induction false} ChunksOfNineDependOnAlignment(word: WordSize, cut: Cut, key: Key, s: seq<Byte>)
    requires |s| == 11
    ensures Total([Shape(9, cut), Shape(2, Cut(2, 0))]) == Total([Shape(9, cut), Shape(2, Cut(0, 0))]) == 11
    ensures Stream(AsWritten, word, Phase(0, key), [Shape(9, cut), Shape(2, Cut(2, 0))], s) == Masked(key, 0, s)
    ensures Stream(AsWritten, word, Phase(0, DISTINCT), [Shape(9, cut), Shape(2, Cut(0, 0))], s) != Masked(DISTINCT, 0, s)
  {
    hide Stream, Masked, PhasesRight;
    var first, right, wrong := Shape(9, cut), Shape(2, Cut(2, 0)), Shape(2, Cut(0, 0));
    TwoChunks(word, first, right);
    TwoChunks(word, first, wrong);
    StreamInPhase(word, Phase(0, key), 0, [first, right], s);
    StreamOutOfPhase(word, 0, 0, [first, wrong], s);
  }

  lemma {:induction false} TwoChunks(word: WordSize, first: Shape, second: Shape)
    ensures Total([first, second]) == first.len + second.len
    ensures PhasesRight(word, 0, 0, [first, second])
            <==> var (p, a) := Split(word, second.cut, second.len);
                 p + a < second.len ==> first.len % 4 == 0
  {
    hide Split;
    var both, last := [first, second], [second];
    assert both[0] == first && both[1..] == last && last[0] == second && last[1..] == [];
    assert Total(last) == second.len + Total([]);
    assert PhasesRight(word, second.len, first.len + second.len, []);
    var (p, a) := Split(word, second.cut, second.len);
    assert PhasesRight(word, first.len, first.len, last) <==> (p + a < second.len ==> first.len % 4 == 0);
    assert PhasesRight(word, 0, 0, both) <==> PhasesRight(word, first.len, 0 + first.len, both[1..]);
  }
}
