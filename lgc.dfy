/** The XOR-feedback cipher of pack headers (`LgcDecrypt`): every byte is
    XORed with `get_next(254) + 1` from a Delphi generator that is reset to a
    fixed seed. Also home of `decrypt_block`'s prefix rule, which the block
    cipher stream (`TfDecrypt`) inherits. */
module Lgc {
  import opened Base
  import opened Delphi

  /** The seed `reset` installs. */
  const ResetSeed: int := 0x135C80A1

  /** The key byte used when the generator is at `seed` before the step:
      `get_next(254) + 1`, which is never 0, so every byte is altered. */
  function KeyByte(seed: int): (k: byte)
    ensures 1 <= k <= 254
  {
    Scaled(NextSeed(seed, DefaultMultiplier, DefaultIncrement), 254) + 1
  }

  /** The bytes `get_next` produces for `data`, starting from `seed`. */
  function Stream(seed: int, data: seq<byte>): (r: seq<byte>)
    ensures |r| == |data|
    decreases |data|
  {
    if data == [] then []
    else [XorByte(data[0], KeyByte(seed))] + Stream(SeedAfter(seed, 1), data[1..])
  }

  /** The prefix length `decrypt_block` transforms: `size or len(data)`
      (absent or zero means the whole buffer), IndexError when that exceeds
      the buffer, and Python's slice rules for a negative size. */
  function SplitPoint(length: nat, size: Option<int>): (r: Result<nat, Error>)
    ensures r.Err? <==> size.Some? && size.value > length
    ensures r.Err? ==> r.error == IndexError
    ensures r.Ok? ==> r.value <= length
    ensures size == None || size == Some(0) ==> r == Ok(length)
    ensures size.Some? && 0 < size.value <= length ==> r == Ok(size.value)
  {
    var n := if size.None? || size.value == 0 then length else size.value;
    if n > length then Err(IndexError)
    else if n >= 0 then Ok(n)
    else Ok(Max(0, length + n))
  }

  /** What `decrypt_block(data, size)` returns when the generator is at `seed`. */
  function BlockResult(seed: int, data: seq<byte>, size: Option<int>): (r: Result<seq<byte>, Error>)
    ensures r.Err? <==> size.Some? && size.value > |data|
    ensures r.Ok? ==> |r.value| == |data|
    ensures r.Ok? ==> forall i :: SplitPoint(|data|, size).value <= i < |data| ==> r.value[i] == data[i]
    ensures r.Ok? ==> forall i :: 0 <= i < SplitPoint(|data|, size).value ==> r.value[i] != data[i]
  {
    match SplitPoint(|data|, size)
    case Err(e) => Err(e)
    case Ok(n) =>
      EveryByteAltered(seed, data[..n]);
      Ok(Stream(seed, data[..n]) + data[n..])
  }

  /** Stepping once and then n times is stepping n + 1 times. */
  lemma {:induction false} SeedAfterShift(seed: int, n: nat)
    ensures SeedAfter(SeedAfter(seed, 1), n) == SeedAfter(seed, n + 1)
    decreases n
  {
    if n > 0 {
      SeedAfterShift(seed, n - 1);
    }
  }

  /** Byte i is XORed with the key byte of the generator after i steps: the
      keystream is a function of the position only, not of the data. */
  lemma {:induction false} StreamAt(seed: int, data: seq<byte>, i: nat)
    requires i < |data|
    ensures Stream(seed, data)[i] == XorByte(data[i], KeyByte(SeedAfter(seed, i)))
    decreases i
  {
    if i > 0 {
      StreamAt(SeedAfter(seed, 1), data[1..], i - 1);
      SeedAfterShift(seed, i - 1);
    }
  }

  /** Decrypting one more byte appends one byte and leaves the rest alone. */
  lemma {:induction false} StreamSnoc(seed: int, data: seq<byte>, x: byte)
    ensures Stream(seed, data + [x]) == Stream(seed, data) + [XorByte(x, KeyByte(SeedAfter(seed, |data|)))]
    decreases |data|
  {
    if data == [] {
      assert [x][1..] == [];
    } else {
      var s1 := SeedAfter(seed, 1);
      var head := [XorByte(data[0], KeyByte(seed))];
      var last := [XorByte(x, KeyByte(SeedAfter(seed, |data|)))];
      assert (data + [x])[0] == data[0];
      assert (data + [x])[1..] == data[1..] + [x];
      SeedAfterShift(seed, |data| - 1);
      calc {
        Stream(seed, data + [x]);
        head + Stream(s1, data[1..] + [x]);
        { StreamSnoc(s1, data[1..], x); }
        head + (Stream(s1, data[1..]) + last);
        (head + Stream(s1, data[1..])) + last;
        Stream(seed, data) + last;
      }
    }
  }

  /** Every byte of the processed prefix differs from its input byte, since
      the key byte is never zero. */
  lemma EveryByteAltered(seed: int, data: seq<byte>)
    ensures forall i :: 0 <= i < |data| ==> Stream(seed, data)[i] != data[i]
  {
    forall i | 0 <= i < |data|
      ensures Stream(seed, data)[i] != data[i]
    {
      StreamAt(seed, data, i);
      XorChanges(data[i], KeyByte(SeedAfter(seed, i)));
    }
  }

  /** Replaying the cipher from the same seed over its own output gives the
      input back: the header's outer layer is its own inverse. */
  lemma {:induction false} StreamInvolution(seed: int, data: seq<byte>)
    ensures Stream(seed, Stream(seed, data)) == data
    decreases |data|
  {
    if data != [] {
      var out := Stream(seed, data);
      assert out[1..] == Stream(SeedAfter(seed, 1), data[1..]);
      StreamInvolution(SeedAfter(seed, 1), data[1..]);
      XorTwice(data[0], KeyByte(seed));
    }
  }

  class LgcDecrypt {
    const randGen: RandIntGenDelphi

    /** The generator keeps Delphi's constants. */
    ghost predicate Valid() {
      randGen.multiplier == DefaultMultiplier && randGen.increment == DefaultIncrement
    }

    constructor ()
      ensures Valid() && fresh(randGen)
      ensures randGen.seed == ResetSeed
    {
      randGen := new RandIntGenDelphi();
      new;
      Reset();
    }

    method Reset()
      modifies randGen
      ensures randGen.seed == ResetSeed
    {
      randGen.seed := ResetSeed;
    }

    /** Decrypts one byte and advances the generator once. */
    method GetNext(x: byte) returns (y: byte)
      requires Valid()
      modifies randGen
      ensures randGen.seed == SeedAfter(old(randGen.seed), 1)
      ensures y == XorByte(x, KeyByte(old(randGen.seed)))
    {
      var k := randGen.GetNext(254);
      y := XorByte(x, k + 1);
    }

    /** `decrypt_block`: decrypts the first `size` bytes (all when absent or
        zero), keeps the rest, and raises IndexError before touching the
        generator when `size` exceeds the buffer. */
    method DecryptBlock(data: seq<byte>, size: Option<int> := None) returns (r: Result<seq<byte>, Error>)
      requires Valid()
      modifies randGen
      ensures r == BlockResult(old(randGen.seed), data, size)
      ensures randGen.seed == if r.Ok? then SeedAfter(old(randGen.seed), SplitPoint(|data|, size).value)
                              else old(randGen.seed)
    {
      var split := SplitPoint(|data|, size);
      if split.Err? {
        return Err(IndexError);
      }
      var n := split.value;
      var out: seq<byte> := [];
      var i := 0;
      while i < n
        invariant 0 <= i <= n
        invariant out == Stream(old(randGen.seed), data[..i])
        invariant randGen.seed == SeedAfter(old(randGen.seed), i)
      {
        var y := GetNext(data[i]);
        StreamSnoc(old(randGen.seed), data[..i], data[i]);
        assert data[..i + 1] == data[..i] + [data[i]];
        out := out + [y];
        i := i + 1;
      }
      assert data[..n] == data[..i];
      r := Ok(out + data[n..]);
    }
  }
}
