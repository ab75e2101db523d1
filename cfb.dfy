/** The block-keystream cipher (`TfDecrypt`): a 16-byte window is encrypted
    with Twofish, the first byte of the result is XORed into the data byte,
    and the INPUT byte is shifted into the window. This is 8-bit cipher
    feedback decryption (section 6.3 of NIST SP 800-38A): the feedback is the
    ciphertext, which is what the decrypting side reads. Twofish itself is
    not modelled: it is the parameter `cipher`, any function from a key and
    a block to a 16-byte block. */
module Cfb {
  import opened Base
  import Lgc

  /** `TfDecrypt.VECTOR_SIZE`, the window length. */
  const VectorSize: nat := 16

  /** The fixed default initialisation vector. */
  const InitVector: seq<byte> :=
    [0x11, 0x22, 0x33, 0x44, 0x55, 0x66, 0x77, 0x88,
     0x99, 0xAA, 0xBB, 0xCC, 0xDD, 0xEE, 0xFF, 0x00]

  /** `Twofish(key).encrypt(block)`, as an arbitrary function into 16-byte blocks. */
  type BlockCipher = f: (seq<byte>, seq<byte>) -> seq<byte> | forall key, block :: |f(key, block)| == VectorSize
    witness (key: seq<byte>, block: seq<byte>) => Zeros(VectorSize)

  /** `copy_sized`: `data.ljust(size, b"\x00")`, padding with zeros and never truncating. */
  function CopySized(data: seq<byte>, size: nat): (r: seq<byte>)
    ensures |r| == Max(size, |data|)
    ensures r[..|data|] == data
    ensures forall i :: |data| <= i < |r| ==> r[i] == 0
  {
    if |data| < size then data + Zeros(size - |data|) else data
  }

  /** `data_block[1:] + bytes([x])`. */
  function Shift(window: seq<byte>, x: byte): (r: seq<byte>)
    ensures |window| >= 1 ==> |r| == |window| && r == (window + [x])[1..]
  {
    (if window == [] then [] else window[1..]) + [x]
  }

  /** The bytes `get_next` produces for `data`, starting from `window`: each
      byte XORed with the first byte of `tf.encrypt` of the window before it. */
  function Stream(cipher: BlockCipher, key: seq<byte>, window: seq<byte>, data: seq<byte>): (r: seq<byte>)
    ensures |r| == |data|
    decreases |data|
  {
    if data == [] then []
    else [XorByte(data[0], cipher(key, window)[0])]
         + Stream(cipher, key, Shift(window, data[0]), data[1..])
  }

  /** The window after `data` has been fed through `get_next`: as long as it
      was, and ending with the last byte fed. */
  function WindowAfter(window: seq<byte>, data: seq<byte>): (w: seq<byte>)
    ensures |window| >= 1 ==> |w| == |window|
    ensures data != [] ==> w != [] && w[|w| - 1] == data[|data| - 1]
    decreases |data|
  {
    if data == [] then window else WindowAfter(Shift(window, data[0]), data[1..])
  }

  /** The encrypting direction of the same construction (what the packing
      tool must have done): the window takes the byte it produces. */
  function Encrypt(cipher: BlockCipher, key: seq<byte>, window: seq<byte>, plain: seq<byte>): (r: seq<byte>)
    ensures |r| == |plain|
    decreases |plain|
  {
    if plain == [] then []
    else
      var c := XorByte(plain[0], cipher(key, window)[0]);
      [c] + Encrypt(cipher, key, Shift(window, c), plain[1..])
  }

  /** What `decrypt_block(data, size)` returns from the given window. */
  function BlockResult(cipher: BlockCipher, key: seq<byte>, window: seq<byte>, data: seq<byte>, size: Option<int>)
    : (r: Result<seq<byte>, Error>)
    ensures r.Err? <==> size.Some? && size.value > |data|
    ensures r.Ok? ==> |r.value| == |data|
    ensures r.Ok? ==> forall i :: Lgc.SplitPoint(|data|, size).value <= i < |data| ==> r.value[i] == data[i]
  {
    match Lgc.SplitPoint(|data|, size)
    case Err(e) => Err(e)
    case Ok(n) => Ok(Stream(cipher, key, window, data[..n]) + data[n..])
  }

  /** The window is always the last |window| bytes of the vector followed by
      the input read so far: it never changes length. */
  lemma {:induction false} WindowIsSuffix(window: seq<byte>, data: seq<byte>)
    requires |window| >= 1
    ensures WindowAfter(window, data) == (window + data)[|data|..]
    decreases |data|
  {
    if data != [] {
      var w' := Shift(window, data[0]);
      WindowIsSuffix(w', data[1..]);
      assert w' + data[1..] == (window + data)[1..];
    }
  }

  /** With the vector padded to 16 bytes, the window after n input bytes is
      exactly the last 16 bytes of `iv ++ input[0..n)`. */
  lemma LastSixteen(iv: seq<byte>, data: seq<byte>)
    requires |iv| <= VectorSize
    ensures |WindowAfter(CopySized(iv, VectorSize), data)| == VectorSize
    ensures WindowAfter(CopySized(iv, VectorSize), data)
            == (CopySized(iv, VectorSize) + data)[|data|..]
  {
    WindowIsSuffix(CopySized(iv, VectorSize), data);
  }

  /** Output byte i is input byte i XORed with the keystream of the window
      after bytes [0, i). */
  lemma {:induction false} StreamAt(cipher: BlockCipher, key: seq<byte>, window: seq<byte>, data: seq<byte>, i: nat)
    requires i < |data|
    ensures Stream(cipher, key, window, data)[i]
            == XorByte(data[i], cipher(key, WindowAfter(window, data[..i]))[0])
    decreases i
  {
    if i > 0 {
      StreamAt(cipher, key, Shift(window, data[0]), data[1..], i - 1);
      assert data[..i] == [data[0]] + data[1..][..i - 1];
    }
  }

  /** Output byte i depends only on the key, the window and input bytes
      [0, i]: two inputs that agree up to i decrypt alike up to i. */
  lemma OutputDependsOnPrefix(cipher: BlockCipher, key: seq<byte>, window: seq<byte>,
                              d1: seq<byte>, d2: seq<byte>, i: nat)
    requires i < |d1| && i < |d2|
    requires d1[..i + 1] == d2[..i + 1]
    ensures Stream(cipher, key, window, d1)[i] == Stream(cipher, key, window, d2)[i]
  {
    StreamAt(cipher, key, window, d1, i);
    StreamAt(cipher, key, window, d2, i);
    assert d1[..i] == d1[..i + 1][..i] && d2[..i] == d2[..i + 1][..i];
    assert d1[i] == d1[..i + 1][i] && d2[i] == d2[..i + 1][i];
  }

  /** Feeding one more byte shifts that byte into the window. */
  lemma {:induction false} WindowSnoc(window: seq<byte>, data: seq<byte>, x: byte)
    ensures WindowAfter(window, data + [x]) == Shift(WindowAfter(window, data), x)
    decreases |data|
  {
    if data == [] {
      assert [x][1..] == [];
    } else {
      assert (data + [x])[1..] == data[1..] + [x];
      WindowSnoc(Shift(window, data[0]), data[1..], x);
    }
  }

  /** Decrypting one more byte appends one byte and leaves the rest alone. */
  lemma {:induction false} StreamSnoc(cipher: BlockCipher, key: seq<byte>, window: seq<byte>, data: seq<byte>, x: byte)
    ensures Stream(cipher, key, window, data + [x])
            == Stream(cipher, key, window, data) + [XorByte(x, cipher(key, WindowAfter(window, data))[0])]
    decreases |data|
  {
    if data == [] {
      assert [x][1..] == [];
    } else {
      var w' := Shift(window, data[0]);
      var head := [XorByte(data[0], cipher(key, window)[0])];
      var last := [XorByte(x, cipher(key, WindowAfter(window, data))[0])];
      assert (data + [x])[0] == data[0];
      assert (data + [x])[1..] == data[1..] + [x];
      assert WindowAfter(window, data) == WindowAfter(w', data[1..]);
      calc {
        Stream(cipher, key, window, data + [x]);
        head + Stream(cipher, key, w', data[1..] + [x]);
        { StreamSnoc(cipher, key, w', data[1..], x); }
        head + (Stream(cipher, key, w', data[1..]) + last);
        (head + Stream(cipher, key, w', data[1..])) + last;
        Stream(cipher, key, window, data) + last;
      }
    }
  }

  /** Decryption undoes encryption from the same key and window. */
  lemma {:induction false} DecryptEncrypt(cipher: BlockCipher, key: seq<byte>, window: seq<byte>, plain: seq<byte>)
    ensures Stream(cipher, key, window, Encrypt(cipher, key, window, plain)) == plain
    decreases |plain|
  {
    if plain != [] {
      var c := Encrypt(cipher, key, window, plain);
      assert c[1..] == Encrypt(cipher, key, Shift(window, c[0]), plain[1..]);
      DecryptEncrypt(cipher, key, Shift(window, c[0]), plain[1..]);
      XorTwice(plain[0], cipher(key, window)[0]);
    }
  }

  /** Encryption undoes decryption from the same key and window. */
  lemma {:induction false} EncryptDecrypt(cipher: BlockCipher, key: seq<byte>, window: seq<byte>, data: seq<byte>)
    ensures Encrypt(cipher, key, window, Stream(cipher, key, window, data)) == data
    decreases |data|
  {
    if data != [] {
      var k := cipher(key, window)[0];
      var w' := Shift(window, data[0]);
      var p := Stream(cipher, key, window, data);
      assert p == [XorByte(data[0], k)] + Stream(cipher, key, w', data[1..]);
      XorTwice(data[0], k);
      assert XorByte(p[0], k) == data[0];
      assert p[1..] == Stream(cipher, key, w', data[1..]);
      EncryptDecrypt(cipher, key, w', data[1..]);
      assert Encrypt(cipher, key, window, p) == [data[0]] + Encrypt(cipher, key, w', p[1..]);
    }
  }

  class TfDecrypt {
    var dataBlock: seq<byte>
    var key: seq<byte>
    const cipher: BlockCipher

    constructor (cipher: BlockCipher, key: seq<byte>, initVector: seq<byte> := InitVector)
      ensures this.cipher == cipher && this.key == key
      ensures dataBlock == CopySized(initVector, VectorSize)
    {
      this.cipher := cipher;
      new;
      Reset(key, initVector);
    }

    /** Restarts the stream: the window becomes the padded vector. */
    method Reset(key: seq<byte>, initVector: seq<byte> := InitVector)
      modifies this
      ensures this.key == key
      ensures dataBlock == CopySized(initVector, VectorSize)
    {
      dataBlock := CopySized(initVector, VectorSize);
      this.key := key;
    }

    /** Decrypts one byte and shifts that input byte into the window. */
    method GetNext(x: byte) returns (y: byte)
      modifies this
      ensures key == old(key)
      ensures dataBlock == Shift(old(dataBlock), x)
      ensures y == XorByte(x, cipher(key, old(dataBlock))[0])
    {
      var tfResult := cipher(key, dataBlock);
      dataBlock := (if dataBlock == [] then [] else dataBlock[1..]) + [x];
      y := XorByte(x, tfResult[0]);
    }

    /** `decrypt_block`, inherited: the prefix rule is the generator
        cipher's, the per-byte step is this class's. */
    method DecryptBlock(data: seq<byte>, size: Option<int> := None) returns (r: Result<seq<byte>, Error>)
      modifies this
      ensures key == old(key)
      ensures r == BlockResult(cipher, key, old(dataBlock), data, size)
      ensures dataBlock == if r.Ok? then WindowAfter(old(dataBlock), data[..Lgc.SplitPoint(|data|, size).value])
                           else old(dataBlock)
    {
      var split := Lgc.SplitPoint(|data|, size);
      if split.Err? {
        return Err(IndexError);
      }
      var n := split.value;
      var out: seq<byte> := [];
      var i := 0;
      while i < n
        invariant 0 <= i <= n
        invariant key == old(key)
        invariant out == Stream(cipher, key, old(dataBlock), data[..i])
        invariant dataBlock == WindowAfter(old(dataBlock), data[..i])
      {
        var y := GetNext(data[i]);
        StreamSnoc(cipher, key, old(dataBlock), data[..i], data[i]);
        WindowSnoc(old(dataBlock), data[..i], data[i]);
        assert data[..i + 1] == data[..i] + [data[i]];
        out := out + [y];
        i := i + 1;
      }
      assert data[..n] == data[..i];
      r := Ok(out + data[n..]);
    }
  }

  /** Resetting with the same key and vector restarts the stream from
      position zero: decrypting the same buffer again gives the same bytes. */
  method ReplayAfterReset(cipher: BlockCipher, key: seq<byte>, iv: seq<byte>, data: seq<byte>)
    returns (first: seq<byte>, second: seq<byte>)
    ensures first == second
    ensures first == Stream(cipher, key, CopySized(iv, VectorSize), data)
  {
    var tf := new TfDecrypt(cipher, key, iv);
    var r1 := tf.DecryptBlock(data);
    tf.Reset(key, iv);
    var r2 := tf.DecryptBlock(data);
    assert data[..|data|] == data && data[|data|..] == [];
    first, second := r1.value, r2.value;
  }
}
