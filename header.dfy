/** Pack header decryption (`decrypt_header`). The first 0x588 bytes of the
    pack go through three layers:
      1. the generator cipher from its reset seed, over all of them;
      2. the block-keystream cipher under a fixed key, over all of them;
      3. the block-keystream cipher again, restarted under a second key,
         over the first 0x544 bytes only.
    Byte 0x544 of layer 2 gives the length (at most 0x43) of the name of the
    program the pack is locked to, stored from byte 0x545 on. An unlocked
    pack (length 0) uses eight zero bytes as second key; a locked one needs
    the program, whose bytes give the key (`compute_key_from_executable`). */
module Header {
  import opened Base
  import opened Ascii
  import Lgc
  import opened Cfb
  import opened KeyDerivation

  const HeaderTotalLen: nat := 0x588
  const HeaderMainLen: nat := 0x544
  /** Index of the lock-name length byte, right after the main part. */
  const LockLengthAt: nat := 0x544
  const MaxLockNameLen: nat := 0x43

  /** `JBF_PAK_HEADER_KEY`, the fixed key of the second layer. */
  const HeaderKey: seq<byte> := [0xF0, 0x3E, 0xC8, 0x34, 0xB7, 0xA0, 0x54, 0x72]

  /** The header after the first two layers. */
  function Layer2(cipher: BlockCipher, raw: seq<byte>): (r: seq<byte>)
    ensures |r| == |raw|
  {
    Cfb.Stream(cipher, HeaderKey, InitVector, Lgc.Stream(Lgc.ResetSeed, raw))
  }

  /** `min(header[0x544], 0x43)`. */
  function LockNameLength(layer2: seq<byte>): (n: nat)
    requires |layer2| > LockLengthAt
    ensures n <= MaxLockNameLen
    ensures n == 0 <==> layer2[LockLengthAt] == 0
  {
    Min(layer2[LockLengthAt], MaxLockNameLen)
  }

  /** The decoded name of the program the pack is locked to: None exactly
      when its bytes are not ASCII, otherwise a clean name no longer than
      the length byte allows. */
  function LockName(layer2: seq<byte>): (r: Option<string>)
    requires |layer2| > LockLengthAt
    ensures r.None? <==> !IsAscii(Slice(layer2, LockLengthAt + 1, LockLengthAt + 1 + LockNameLength(layer2)))
    ensures r.Some? ==> IsDecodedName(r.value) && |r.value| <= LockNameLength(layer2)
  {
    DecodeAscii(Slice(layer2, LockLengthAt + 1, LockLengthAt + 1 + LockNameLength(layer2)))
  }

  /** The key of the third layer, or the exception raised while choosing it:
      a lock name that is not ASCII raises UnicodeDecodeError while it is
      decoded, and a locked pack with no program raises FailedDecryptHeader. */
  function ThirdKey(layer2: seq<byte>, program: Option<seq<byte>>): (r: Result<seq<byte>, Error>)
    requires |layer2| > LockLengthAt
    ensures LockNameLength(layer2) == 0 ==> r == Ok(Zeros(KeySize))
    ensures r.Err? ==> LockNameLength(layer2) > 0
    ensures r == Err(UnicodeDecodeError) <==> LockNameLength(layer2) > 0 && LockName(layer2).None?
    ensures r.Err? && r.error.FailedDecryptHeader? <==>
              LockNameLength(layer2) > 0 && LockName(layer2).Some? && program.None?
    ensures r.Err? && r.error.FailedDecryptHeader? ==> r.error.lockName == LockName(layer2).value
    ensures LockNameLength(layer2) > 0 && program.Some? && LockName(layer2).Some? ==>
              r == Ok(DerivedKey(program.value))
  {
    if LockNameLength(layer2) == 0 then Ok(Zeros(KeySize))
    else match LockName(layer2)
      case None => Err(UnicodeDecodeError)
      case Some(name) =>
        if program.None? then Err(FailedDecryptHeader(name)) else Ok(DerivedKey(program.value))
  }

  /** What `decrypt_header` returns for a pack and an optional program: the
      whole header read (up to 0x588 bytes), with layer 3 applied to the
      first 0x544 bytes. A pack of at most 0x544 bytes has no lock-length
      byte and raises IndexError. */
  function HeaderResult(cipher: BlockCipher, container: seq<byte>, program: Option<seq<byte>>)
    : (r: Result<seq<byte>, Error>)
    ensures r == Err(IndexError) <==> |container| <= LockLengthAt
    ensures r.Ok? ==> |r.value| == Min(|container|, HeaderTotalLen) && |r.value| > LockLengthAt
  {
    var layer2 := Layer2(cipher, Slice(container, 0, HeaderTotalLen));
    if |layer2| <= LockLengthAt then Err(IndexError)
    else match ThirdKey(layer2, program)
      case Err(e) => Err(e)
      case Ok(key) => Ok(Cfb.Stream(cipher, key, InitVector, layer2[..HeaderMainLen]) + layer2[HeaderMainLen..])
  }

  /** The padded vector the third layer restarts from is the vector itself. */
  lemma InitVectorSized()
    ensures CopySized(InitVector, VectorSize) == InitVector
  {
  }

  /** `decrypt_header`, with the pack and the program given as their bytes. */
  method DecryptHeader(cipher: BlockCipher, container: seq<byte>, program: Option<seq<byte>>)
    returns (r: Result<seq<byte>, Error>)
    ensures r == HeaderResult(cipher, container, program)
  {
    var lgc := new Lgc.LgcDecrypt();
    var tf := new TfDecrypt(cipher, HeaderKey);
    InitVectorSized();
    var header := Slice(container, 0, HeaderTotalLen);
    ghost var layer2 := Layer2(cipher, header);
    var pass := lgc.DecryptBlock(header);
    assert header[..|header|] == header && header[|header|..] == [];
    header := pass.value;
    pass := tf.DecryptBlock(header);
    assert header[..|header|] == header && header[|header|..] == [];
    header := pass.value;
    assert header == layer2;
    if |header| <= LockLengthAt {
      return Err(IndexError);
    }
    var key := ChooseKey(header, program);
    if key.Err? {
      return Err(key.error);
    }
    tf.Reset(key.value);
    r := tf.DecryptBlock(header, Some(HeaderMainLen));
  }

  /** The key choice of `decrypt_header`: eight zero bytes unless the pack
      is locked, in which case the lock name is decoded and the program's
      key computed. */
  method ChooseKey(header: seq<byte>, program: Option<seq<byte>>) returns (r: Result<seq<byte>, Error>)
    requires |header| > LockLengthAt
    ensures r == ThirdKey(header, program)
  {
    var key := Zeros(KeySize);
    var lockNameLength := Min(header[LockLengthAt], MaxLockNameLen);
    if lockNameLength > 0 {
      var lockName := DecodeAscii(Slice(header, LockLengthAt + 1, LockLengthAt + 1 + lockNameLength));
      if lockName.None? {
        return Err(UnicodeDecodeError);
      }
      if program.None? {
        return Err(FailedDecryptHeader(lockName.value));
      }
      key := ComputeKeyFromExecutable(program.value);
    }
    r := Ok(key);
  }

  /** The lock name lies inside the header read: 0x545 + 0x43 == 0x588. */
  lemma LockNameWithinHeader(layer2: seq<byte>)
    requires |layer2| > LockLengthAt
    ensures LockLengthAt + 1 + LockNameLength(layer2) <= HeaderTotalLen
  {
  }

  /** The three ways `decrypt_header` fails, each exactly characterised. */
  lemma HeaderErrors(cipher: BlockCipher, container: seq<byte>, program: Option<seq<byte>>)
    ensures var r := HeaderResult(cipher, container, program);
            var layer2 := Layer2(cipher, Slice(container, 0, HeaderTotalLen));
            && (r == Err(IndexError) <==> |container| <= LockLengthAt)
            && (r == Err(UnicodeDecodeError) <==>
                  |container| > LockLengthAt && LockNameLength(layer2) > 0 && LockName(layer2).None?)
            && (r.Err? && r.error.FailedDecryptHeader? <==>
                  |container| > LockLengthAt && LockNameLength(layer2) > 0 && LockName(layer2).Some?
                  && program.None?)
            && (r.Err? ==> r.error.IndexError? || r.error.UnicodeDecodeError? || r.error.FailedDecryptHeader?)
  {
  }

  /** An unlocked pack decrypts the same with or without a program, and its
      third layer runs under eight zero bytes. */
  lemma UnlockedUsesZeroKey(cipher: BlockCipher, container: seq<byte>, p1: Option<seq<byte>>, p2: Option<seq<byte>>)
    requires |container| > LockLengthAt
    requires LockNameLength(Layer2(cipher, Slice(container, 0, HeaderTotalLen))) == 0
    ensures HeaderResult(cipher, container, p1) == HeaderResult(cipher, container, p2)
    ensures var layer2 := Layer2(cipher, Slice(container, 0, HeaderTotalLen));
            HeaderResult(cipher, container, p1)
            == Ok(Cfb.Stream(cipher, Zeros(KeySize), InitVector, layer2[..HeaderMainLen]) + layer2[HeaderMainLen..])
  {
  }

  /** The third layer rewrites only bytes [0, 0x544): from 0x544 on the
      result is layer 2 unchanged, and the lock-length byte survives. */
  lemma ThirdLayerKeepsTail(cipher: BlockCipher, container: seq<byte>, program: Option<seq<byte>>)
    requires HeaderResult(cipher, container, program).Ok?
    ensures var h := HeaderResult(cipher, container, program).value;
            var layer2 := Layer2(cipher, Slice(container, 0, HeaderTotalLen));
            && h[HeaderMainLen..] == layer2[HeaderMainLen..]
            && h[LockLengthAt] == layer2[LockLengthAt]
            && exists key :: ThirdKey(layer2, program) == Ok(key)
                             && h[..HeaderMainLen] == Cfb.Stream(cipher, key, InitVector, layer2[..HeaderMainLen])
  {
    var layer2 := Layer2(cipher, Slice(container, 0, HeaderTotalLen));
    var key := ThirdKey(layer2, program).value;
    var main := Cfb.Stream(cipher, key, InitVector, layer2[..HeaderMainLen]);
    var h := HeaderResult(cipher, container, program).value;
    assert h == main + layer2[HeaderMainLen..];
    assert h[..HeaderMainLen] == main;
  }

  /** How a packing tool produces a header from its plain text and the
      third-layer key: the three layers inverted, in reverse order. */
  function EncodeHeader(cipher: BlockCipher, plain: seq<byte>, key: seq<byte>): (raw: seq<byte>)
    requires |plain| >= HeaderMainLen
    ensures |raw| == |plain|
  {
    var layer2 := Cfb.Encrypt(cipher, key, InitVector, plain[..HeaderMainLen]) + plain[HeaderMainLen..];
    Lgc.Stream(Lgc.ResetSeed, Cfb.Encrypt(cipher, HeaderKey, InitVector, layer2))
  }

  /** The key a pack with this plain header is decrypted under: zeros when
      it is unlocked, the program's key when it is locked. */
  predicate KeyMatches(plain: seq<byte>, key: seq<byte>, program: Option<seq<byte>>)
    requires |plain| > LockLengthAt
  {
    if LockNameLength(plain) == 0 then key == Zeros(KeySize)
    else program.Some? && LockName(plain).Some? && key == DerivedKey(program.value)
  }

  /** Peeling the two outer layers off an encoded header leaves the
      third-layer ciphertext followed by the plain tail. */
  lemma Layer2OfEncoded(cipher: BlockCipher, plain: seq<byte>, key: seq<byte>)
    requires |plain| >= HeaderMainLen
    ensures Layer2(cipher, EncodeHeader(cipher, plain, key))
            == Cfb.Encrypt(cipher, key, InitVector, plain[..HeaderMainLen]) + plain[HeaderMainLen..]
  {
    var middle := Cfb.Encrypt(cipher, key, InitVector, plain[..HeaderMainLen]) + plain[HeaderMainLen..];
    Lgc.StreamInvolution(Lgc.ResetSeed, Cfb.Encrypt(cipher, HeaderKey, InitVector, middle));
    DecryptEncrypt(cipher, HeaderKey, InitVector, middle);
  }

  /** The key choice reads only bytes from 0x544 on, so it agrees on two
      headers that share them. */
  lemma ThirdKeyReadsTail(h1: seq<byte>, h2: seq<byte>, program: Option<seq<byte>>)
    requires |h1| == |h2| > LockLengthAt
    requires h1[HeaderMainLen..] == h2[HeaderMainLen..]
    ensures ThirdKey(h1, program) == ThirdKey(h2, program)
  {
    assert h1[LockLengthAt] == h1[HeaderMainLen..][0] == h2[LockLengthAt];
    var n := LockNameLength(h1);
    assert Slice(h1, LockLengthAt + 1, LockLengthAt + 1 + n) == Slice(h2, LockLengthAt + 1, LockLengthAt + 1 + n) by {
      forall i | LockLengthAt + 1 <= i < |h1|
        ensures h1[i] == h2[i]
      {
        assert h1[i] == h1[HeaderMainLen..][i - HeaderMainLen];
        assert h2[i] == h2[HeaderMainLen..][i - HeaderMainLen];
      }
    }
  }

  /** Round trip: a header encoded under the key `decrypt_header` will choose
      decrypts back to its plain text, whatever follows it in the pack. */
  lemma HeaderRoundTrip(cipher: BlockCipher, plain: seq<byte>, key: seq<byte>,
                        program: Option<seq<byte>>, payload: seq<byte>)
    requires LockLengthAt < |plain| <= HeaderTotalLen
    requires |plain| < HeaderTotalLen ==> payload == []
    requires KeyMatches(plain, key, program)
    ensures HeaderResult(cipher, EncodeHeader(cipher, plain, key) + payload, program) == Ok(plain)
  {
    var raw := EncodeHeader(cipher, plain, key);
    var middle := EncodedLayer2(cipher, plain, key, program, payload);
    HeaderOfLayer2(cipher, raw + payload, program, middle, key);
    DecryptEncrypt(cipher, key, InitVector, plain[..HeaderMainLen]);
    var main := Cfb.Stream(cipher, key, InitVector, middle[..HeaderMainLen]);
    assert main == plain[..HeaderMainLen];
    assert main + middle[HeaderMainLen..] == plain;
  }

  /** The first two layers of an encoded pack give the third-layer
      ciphertext followed by the plain tail, and the key choice on them gives
      the key it was encoded under. */
  lemma EncodedLayer2(cipher: BlockCipher, plain: seq<byte>, key: seq<byte>,
                      program: Option<seq<byte>>, payload: seq<byte>) returns (middle: seq<byte>)
    requires LockLengthAt < |plain| <= HeaderTotalLen
    requires |plain| < HeaderTotalLen ==> payload == []
    requires KeyMatches(plain, key, program)
    ensures middle == Cfb.Encrypt(cipher, key, InitVector, plain[..HeaderMainLen]) + plain[HeaderMainLen..]
    ensures Layer2(cipher, Slice(EncodeHeader(cipher, plain, key) + payload, 0, HeaderTotalLen)) == middle
    ensures |middle| > LockLengthAt && ThirdKey(middle, program) == Ok(key)
    ensures middle[..HeaderMainLen] == Cfb.Encrypt(cipher, key, InitVector, plain[..HeaderMainLen])
    ensures middle[HeaderMainLen..] == plain[HeaderMainLen..]
  {
    var raw := EncodeHeader(cipher, plain, key);
    var inner := Cfb.Encrypt(cipher, key, InitVector, plain[..HeaderMainLen]);
    middle := inner + plain[HeaderMainLen..];
    assert Slice(raw + payload, 0, HeaderTotalLen) == raw;
    Layer2OfEncoded(cipher, plain, key);
    assert middle[..HeaderMainLen] == inner && middle[HeaderMainLen..] == plain[HeaderMainLen..];
    ThirdKeyReadsTail(middle, plain, program);
  }

  /** The header of a pack whose first two layers give `layer2` and whose
      key choice gives `key`. */
  lemma HeaderOfLayer2(cipher: BlockCipher, container: seq<byte>, program: Option<seq<byte>>,
                       layer2: seq<byte>, key: seq<byte>)
    requires Layer2(cipher, Slice(container, 0, HeaderTotalLen)) == layer2
    requires |layer2| > LockLengthAt && ThirdKey(layer2, program) == Ok(key)
    ensures HeaderResult(cipher, container, program)
            == Ok(Cfb.Stream(cipher, key, InitVector, layer2[..HeaderMainLen]) + layer2[HeaderMainLen..])
  {
  }
}
