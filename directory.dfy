/** The pack directory: 64 slots of 16 bytes at the start of the decrypted
    header (`FileEntry`). A slot holds an 8-byte per-module key followed by
    two little-endian 32-bit words, the module's offset in the pack and its
    size; the key bytes double as the two words `struct` reads first and
    discards. */
module Directory {
  import opened Base
  import opened Cfb

  const EntrySize: nat := 16
  const EntryKeySize: nat := 8
  const NumIndices: nat := 64
  const Word: nat := 0x1_0000_0000

  datatype FileEntry = FileEntry(offset: nat, size: nat, key: seq<byte>)

  /** An unsigned 32-bit little-endian word, as `struct`'s `<I`. */
  function Le32(b: seq<byte>): (n: nat)
    requires |b| == 4
    ensures n < Word
  {
    var b0, b1, b2, b3 := b[0] as int, b[1] as int, b[2] as int, b[3] as int;
    b0 + 0x100 * (b1 + 0x100 * (b2 + 0x100 * b3))
  }

  /** The four little-endian bytes of a 32-bit word. */
  function Le32Bytes(n: nat): (b: seq<byte>)
    requires n < Word
    ensures |b| == 4
  {
    var q1 := n / 0x100;
    var q2 := q1 / 0x100;
    [n % 0x100, q1 % 0x100, q2 % 0x100, q2 / 0x100]
  }

  /** `FileEntry.from_bytes`: `struct.unpack("<IIII", data)` raises
      `struct.error` unless `data` is exactly 16 bytes; otherwise the key is
      bytes [0, 8), the offset the word at byte 8, the size the word at 12. */
  function FromBytes(data: seq<byte>): (r: Result<FileEntry, Error>)
    ensures r.Err? <==> |data| != EntrySize
    ensures r.Err? ==> r.error == StructError
    ensures r.Ok? ==> r.value.key == data[..EntryKeySize] && r.value.offset < Word && r.value.size < Word
  {
    if |data| != EntrySize then Err(StructError)
    else Ok(FileEntry(Le32(data[8..12]), Le32(data[12..16]), data[..EntryKeySize]))
  }

  /** The 16 bytes of a slot, as the packing tool writes them. */
  function ToBytes(e: FileEntry): (data: seq<byte>)
    requires WellFormed(e)
    ensures |data| == EntrySize
  {
    e.key + Le32Bytes(e.offset) + Le32Bytes(e.size)
  }

  /** What a slot can hold: an 8-byte key and two 32-bit words. */
  predicate WellFormed(e: FileEntry) {
    |e.key| == EntryKeySize && e.offset < Word && e.size < Word
  }

  /** Splitting off the low byte: x is its low byte plus 0x100 times the rest. */
  lemma LowByte(x: nat, lo: nat, hi: nat)
    requires lo < 0x100
    ensures x == lo + 0x100 * hi <==> lo == x % 0x100 && hi == x / 0x100
  {
  }

  lemma Le32RoundTrip(n: nat)
    requires n < Word
    ensures Le32(Le32Bytes(n)) == n
  {
    var q1 := n / 0x100;
    var q2 := q1 / 0x100;
    LowByte(n, n % 0x100, q1);
    LowByte(q1, q1 % 0x100, q2);
    LowByte(q2, q2 % 0x100, q2 / 0x100);
  }

  lemma Le32BytesRoundTrip(b: seq<byte>)
    requires |b| == 4
    ensures Le32Bytes(Le32(b)) == b
  {
    var b0, b1, b2, b3 := b[0] as int, b[1] as int, b[2] as int, b[3] as int;
    var q2 := b2 + 0x100 * b3;
    var q1 := b1 + 0x100 * q2;
    var n := b0 + 0x100 * q1;
    assert n == Le32(b);
    LowByte(n, b0, q1);
    LowByte(q1, b1, q2);
    LowByte(q2, b2, b3);
  }

  /** Parsing a written slot gives the slot back. */
  lemma FromToBytes(e: FileEntry)
    requires WellFormed(e)
    ensures FromBytes(ToBytes(e)) == Ok(e)
  {
    var d := ToBytes(e);
    assert d[..EntryKeySize] == e.key;
    assert d[8..12] == Le32Bytes(e.offset);
    assert d[12..16] == Le32Bytes(e.size);
    Le32RoundTrip(e.offset);
    Le32RoundTrip(e.size);
  }

  /** Writing a parsed slot gives its 16 bytes back: no byte is ignored. */
  lemma ToFromBytes(data: seq<byte>)
    requires |data| == EntrySize
    ensures WellFormed(FromBytes(data).value) && ToBytes(FromBytes(data).value) == data
  {
    Le32BytesRoundTrip(data[8..12]);
    Le32BytesRoundTrip(data[12..16]);
    assert data == data[..8] + data[8..12] + data[12..16];
  }

  /** `header[16 * index : 16 * index + 16]`: the sixteen bytes of the slot
      when the header holds them all, fewer past its end. */
  function SlotBytes(header: seq<byte>, index: nat): (r: seq<byte>)
    ensures |r| <= EntrySize
    ensures EntrySize * index + EntrySize <= |header| ==> |r| == EntrySize
    ensures |r| > 0 ==> EntrySize * index + |r| <= |header|
    ensures forall i :: 0 <= i < |r| ==> r[i] == header[EntrySize * index + i]
  {
    Slice(header, EntrySize * index, EntrySize * index + EntrySize)
  }

  /** The slot at `index` of a header long enough to hold all 64 slots. */
  function Slot(header: seq<byte>, index: nat): (e: FileEntry)
    requires index < NumIndices && |header| >= EntrySize * NumIndices
    ensures FromBytes(SlotBytes(header, index)) == Ok(e)
  {
    FromBytes(SlotBytes(header, index)).value
  }

  /** The slot-selection rule of `extract_pak`: a non-empty module that ends
      within the pack, so it starts inside the pack and is no longer than it. */
  predicate IsValid(e: FileEntry, eof: nat): (b: bool)
    ensures b ==> e.offset < eof && 0 < e.size <= eof
  {
    e.size != 0 && e.offset + e.size <= eof
  }

  /** `read_from_file`: `read1(size)` from `offset` (fewer bytes near the
      end), decrypted from the default vector under the slot's key. */
  function ModuleData(cipher: BlockCipher, e: FileEntry, container: seq<byte>): (r: seq<byte>)
    ensures |r| == Max(0, Min(e.offset + e.size, |container|) - e.offset)
    ensures IsValid(e, |container|) ==> |r| == e.size
  {
    Cfb.Stream(cipher, e.key, InitVector, Slice(container, e.offset, e.offset + e.size))
  }

  /** `FileEntry.read_from_file`, with the pack given as its bytes. */
  method ReadFromFile(cipher: BlockCipher, e: FileEntry, container: seq<byte>) returns (data: seq<byte>)
    ensures data == ModuleData(cipher, e, container)
  {
    var buffer := Slice(container, e.offset, e.offset + e.size);
    var tf := new TfDecrypt(cipher, e.key);
    var r := tf.DecryptBlock(buffer);
    assert CopySized(InitVector, VectorSize) == InitVector;
    assert buffer[..|buffer|] == buffer && buffer[|buffer|..] == [];
    data := r.value;
  }

  /** A module stored encrypted under its slot's key at its slot's place is
      read back as it was stored. */
  lemma ReadRoundTrip(cipher: BlockCipher, e: FileEntry, container: seq<byte>, stored: seq<byte>)
    requires IsValid(e, |container|)
    requires container[e.offset..e.offset + e.size] == Cfb.Encrypt(cipher, e.key, InitVector, stored)
    ensures ModuleData(cipher, e, container) == stored
  {
    DecryptEncrypt(cipher, e.key, InitVector, stored);
  }

  /** The 64 slots of a header long enough to hold them, in index order. */
  function Entries(header: seq<byte>): (es: seq<FileEntry>)
    requires |header| >= EntrySize * NumIndices
    ensures |es| == NumIndices
    ensures forall i :: 0 <= i < NumIndices ==> FromBytes(SlotBytes(header, i)) == Ok(es[i])
  {
    seq(NumIndices, i requires 0 <= i < NumIndices => Slot(header, i))
  }
}
