/** Key derivation for packs locked to a program (`compute_key_from_executable`):
    8-byte reads at offsets 1, 1 + 0x4000, 1 + 2 * 0x4000, ... below the end
    of the program are XOR-folded into an 8-byte starting key of zeros. The
    fold pairs bytes with `zip`, which stops at the shorter side, so a short
    last read shortens the key instead of being zero-extended. */
module KeyDerivation {
  import opened Base

  const KeySize: nat := 8
  const FirstOffset: nat := 1
  const SampleStride: nat := 0x4000

  /** `bytes(x ^ y for x, y in zip(a, b))`. */
  function XorZip(a: seq<byte>, b: seq<byte>): (r: seq<byte>)
    ensures |r| == Min(|a|, |b|)
    ensures forall i :: 0 <= i < |r| ==> r[i] == XorByte(a[i], b[i])
  {
    seq(Min(|a|, |b|), i requires 0 <= i < Min(|a|, |b|) => XorByte(a[i], b[i]))
  }

  /** `f.seek(offset); f.read1(8)`: up to eight bytes, fewer near the end,
      none at or past it. */
  function ReadBlock(program: seq<byte>, offset: nat): (r: seq<byte>)
    ensures offset < |program| ==> |r| == Min(KeySize, |program| - offset)
    ensures offset >= |program| ==> r == []
    ensures forall i :: 0 <= i < |r| ==> r[i] == program[offset + i]
  {
    Slice(program, offset, offset + KeySize)
  }

  /** The blocks the loop reads, starting at `offset`, while `offset < eof`:
      one per stride that starts inside the program (`SampledBlockAt` gives
      the k-th). */
  function SampledBlocks(program: seq<byte>, offset: nat): (bs: seq<seq<byte>>)
    ensures offset < |program| ==> |bs| == (|program| - 1 - offset) / SampleStride + 1
    ensures offset >= |program| ==> bs == []
    decreases |program| - offset
  {
    if offset < |program| then [ReadBlock(program, offset)] + SampledBlocks(program, offset + SampleStride)
    else []
  }

  /** The k-th block the loop reads is the read at `offset + k * 0x4000`,
      which starts inside the program. */
  lemma {:induction false} SampledBlockAt(program: seq<byte>, offset: nat, k: nat)
    requires k < |SampledBlocks(program, offset)|
    ensures offset + SampleStride * k < |program|
    ensures SampledBlocks(program, offset)[k] == ReadBlock(program, offset + SampleStride * k)
    decreases k
  {
    if k > 0 {
      SampledBlockAt(program, offset + SampleStride, k - 1);
    }
  }

  /** Folding the blocks into the key from left to right. The key never
      grows, and keeps its length when no block is shorter than it. */
  function Fold(key: seq<byte>, blocks: seq<seq<byte>>): (r: seq<byte>)
    ensures |r| <= |key|
    ensures (forall k :: 0 <= k < |blocks| ==> |blocks[k]| >= |key|) ==> |r| == |key|
    decreases |blocks|
  {
    if blocks == [] then key else Fold(XorZip(key, blocks[0]), blocks[1..])
  }

  /** The key `compute_key_from_executable` returns for a program image. */
  function DerivedKey(program: seq<byte>): (key: seq<byte>)
    ensures |program| <= FirstOffset ==> key == Zeros(KeySize)
  {
    Fold(Zeros(KeySize), SampledBlocks(program, FirstOffset))
  }

  /** The offset of the last read of a program of `eof` bytes, eof > 1. */
  function LastSampleOffset(eof: nat, offset: nat): (o: nat)
    requires offset < eof
    ensures offset <= o < eof
  {
    offset + SampleStride * ((eof - 1 - offset) / SampleStride)
  }

  /** `compute_key_from_executable`, with the file replaced by its bytes. */
  method ComputeKeyFromExecutable(program: seq<byte>) returns (key: seq<byte>)
    ensures key == DerivedKey(program)
  {
    var eof := |program|;
    key := Zeros(KeySize);
    var offset := FirstOffset;
    while offset < eof
      invariant Fold(key, SampledBlocks(program, offset)) == DerivedKey(program)
      decreases eof - offset
    {
      var block := Slice(program, offset, offset + KeySize);
      FoldStep(key, program, offset);
      key := XorZip(key, block);
      offset := offset + SampleStride;
    }
    FoldDone(key, program, offset);
  }

  /** One turn of the sampling loop folds the block read at `offset` and
      leaves the reads from the next stride on. */
  lemma FoldStep(key: seq<byte>, program: seq<byte>, offset: nat)
    requires offset < |program|
    ensures Fold(key, SampledBlocks(program, offset))
            == Fold(XorZip(key, Slice(program, offset, offset + KeySize)), SampledBlocks(program, offset + SampleStride))
  {
    var bs := SampledBlocks(program, offset);
    assert bs == [ReadBlock(program, offset)] + SampledBlocks(program, offset + SampleStride);
    assert bs[1..] == SampledBlocks(program, offset + SampleStride);
  }

  /** Past the end of the program nothing is left to fold. */
  lemma FoldDone(key: seq<byte>, program: seq<byte>, offset: nat)
    requires offset >= |program|
    ensures Fold(key, SampledBlocks(program, offset)) == key
  {
  }

  lemma XorZipCommutes(a: seq<byte>, b: seq<byte>)
    ensures XorZip(a, b) == XorZip(b, a)
  {
    forall i | 0 <= i < Min(|a|, |b|)
      ensures XorZip(a, b)[i] == XorZip(b, a)[i]
    {
      XorCommutes(a[i], b[i]);
    }
  }

  lemma XorZipAssociates(a: seq<byte>, b: seq<byte>, c: seq<byte>)
    ensures XorZip(XorZip(a, b), c) == XorZip(a, XorZip(b, c))
  {
    var l, r := XorZip(XorZip(a, b), c), XorZip(a, XorZip(b, c));
    forall i | 0 <= i < |l|
      ensures l[i] == r[i]
    {
      XorAssociates(a[i], b[i], c[i]);
    }
  }

  /** A block folded in first can as well be folded in last. */
  lemma {:induction false} FoldAbsorb(key: seq<byte>, blocks: seq<seq<byte>>, c: seq<byte>)
    ensures Fold(XorZip(key, c), blocks) == XorZip(Fold(key, blocks), c)
    decreases |blocks|
  {
    if blocks != [] {
      var b := blocks[0];
      calc {
        Fold(XorZip(key, c), blocks);
        Fold(XorZip(XorZip(key, c), b), blocks[1..]);
        { XorZipAssociates(key, c, b); XorZipCommutes(c, b); XorZipAssociates(key, b, c); }
        Fold(XorZip(XorZip(key, b), c), blocks[1..]);
        { FoldAbsorb(XorZip(key, b), blocks[1..], c); }
        XorZip(Fold(XorZip(key, b), blocks[1..]), c);
        XorZip(Fold(key, blocks), c);
      }
    }
  }

  /** A block anywhere in the sequence can be folded in last. */
  lemma {:induction false} FoldMoved(key: seq<byte>, xs: seq<seq<byte>>, c: seq<byte>, ys: seq<seq<byte>>)
    ensures Fold(key, xs + [c] + ys) == XorZip(Fold(key, xs + ys), c)
    decreases |xs|
  {
    if xs == [] {
      assert xs + [c] + ys == [c] + ys && xs + ys == ys;
      assert ([c] + ys)[1..] == ys;
      assert Fold(key, [c] + ys) == Fold(XorZip(key, c), ys);
      FoldAbsorb(key, ys, c);
    } else {
      var x := xs[0];
      assert (xs + [c] + ys)[0] == x && (xs + [c] + ys)[1..] == xs[1..] + [c] + ys;
      assert (xs + ys)[0] == x && (xs + ys)[1..] == xs[1..] + ys;
      FoldMoved(XorZip(key, x), xs[1..], c, ys);
    }
  }

  /** The derived key does not depend on the order in which the blocks are
      folded: any permutation of them gives the same key. */
  lemma {:induction false} FoldOrderInvariant(key: seq<byte>, bs: seq<seq<byte>>, cs: seq<seq<byte>>)
    requires multiset(bs) == multiset(cs)
    ensures Fold(key, bs) == Fold(key, cs)
    decreases |bs|
  {
    if bs == [] {
      assert |cs| == |multiset(cs)| == 0;
    } else {
      var b := bs[0];
      assert b in multiset(cs);
      var j :| 0 <= j < |cs| && cs[j] == b;
      var rest := cs[..j] + cs[j + 1..];
      assert cs == cs[..j] + [b] + cs[j + 1..];
      assert bs == [b] + bs[1..];
      assert multiset(cs) == multiset(cs[..j]) + multiset([b]) + multiset(cs[j + 1..]);
      assert multiset(bs) == multiset([b]) + multiset(bs[1..]);
      assert multiset(rest) == multiset(cs[..j]) + multiset(cs[j + 1..]);
      assert multiset(bs[1..]) == multiset(bs) - multiset([b]);
      assert multiset(rest) == multiset(cs) - multiset([b]);
      calc {
        Fold(key, bs);
        Fold(XorZip(key, b), bs[1..]);
        { FoldAbsorb(key, bs[1..], b); }
        XorZip(Fold(key, bs[1..]), b);
        { FoldOrderInvariant(key, bs[1..], rest); }
        XorZip(Fold(key, rest), b);
        { FoldMoved(key, cs[..j], b, cs[j + 1..]); }
        Fold(key, cs);
      }
    }
  }

  /** Reads before the last one are whole eight-byte blocks; the last one
      holds what is left of the program, at most eight bytes. So the key is
      eight bytes long unless the last read came up short. */
  lemma {:induction false} SampledKeyLength(program: seq<byte>, offset: nat, key: seq<byte>)
    requires offset < |program|
    ensures |Fold(key, SampledBlocks(program, offset))|
            == Min(|key|, Min(KeySize, |program| - LastSampleOffset(|program|, offset)))
    decreases |program| - offset
  {
    var block := ReadBlock(program, offset);
    var next := offset + SampleStride;
    if next < |program| {
      assert |block| == KeySize;
      assert LastSampleOffset(|program|, offset) == LastSampleOffset(|program|, next) by {
        assert (|program| - 1 - offset) / SampleStride == 1 + (|program| - 1 - next) / SampleStride;
      }
      SampledKeyLength(program, next, XorZip(key, block));
    } else {
      assert SampledBlocks(program, next) == [];
      assert LastSampleOffset(|program|, offset) == offset;
    }
  }

  /** The derived key is eight zero bytes when the program has at most one
      byte, and otherwise min(8, eof - last offset read) bytes long. */
  lemma DerivedKeyLength(program: seq<byte>)
    ensures |program| <= FirstOffset ==> DerivedKey(program) == Zeros(KeySize)
    ensures |program| > FirstOffset ==>
              |DerivedKey(program)| == Min(KeySize, |program| - LastSampleOffset(|program|, FirstOffset))
  {
    if |program| > FirstOffset {
      SampledKeyLength(program, FirstOffset, Zeros(KeySize));
    }
  }
}
