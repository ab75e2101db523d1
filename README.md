# jbfmod pack unpacker — a verified model

This project models the unpacker for the pack files of the jbfmod tracker
(`jbfmod_unpacker/jbfmod_unpacker.py`). A pack starts with a 0x588-byte
header encrypted in three layers:

1. A byte-wise XOR stream from a Delphi-style linear congruential generator
   (`LgcDecrypt`).
2. Twofish in 8-bit cipher-feedback mode under a fixed key (`TfDecrypt`).
3. The same Twofish mode again, restarted under a second key, over the first
   0x544 bytes only.

The second key is eight zero bytes for an unlocked pack. For a pack locked to
a program, the key is XORed together from 8-byte samples of the program's
file (`compute_key_from_executable`). The decrypted header holds:

- a directory of 64 sixteen-byte slots, each with a per-module key, an offset
  and a size (`FileEntry`);
- a pack description at 0x441;
- the lock name at 0x544.

Every valid slot's module is decrypted under its own key. Its format is
sniffed as ProTracker, ScreamTracker 3, FastTracker 2 or Impulse Tracker,
with an untyped "bin" fallback. The module is then given a file name built
from its slot index, its cleaned song name and its extension.

How the model is laid out:

- **Byte streams.** Files are byte sequences (`seq<byte>`). The pack and the
  program are passed in as their contents. The Twofish block encryption is
  the parameter `cipher`, an arbitrary function from a key and a block to a
  16-byte block, so every cipher result holds for every block cipher.
- **State and loops.** The classes that keep state become classes: the
  generator's seed, and the cipher's feedback window and key. Their loops
  become methods with loop invariants. These are the generator, the two
  stream ciphers, the key derivation, header decryption and the slot loop.
- **Pure steps.** The purely computational steps become functions: the
  directory slot parser, the ASCII decoder, the format detectors and the file
  name.
- **Method specifications.** Each method is proved equal to a specification
  function. Lemmas then state what the source promises about that function:
  - round trips: the cipher with its encryption, the header with a packing
    tool's encoding, and a directory slot with its bytes;
  - the exact error cases;
  - the first-match order of the format detectors;
  - the independence of the key from the order of the samples;
  - properties of the extracted modules: one per valid slot, in slot order,
    with the size the slot gives and pairwise distinct file names.

Modules:

| file | module | models |
|---|---|---|
| base.dfy | Base | bytes, `Result`/`Option`, Python's clipped slicing, bitwise XOR on naturals |
| delphi.dfy | Delphi | `RandIntGenDelphi` |
| lgc.dfy | Lgc | `LgcDecrypt`, `decrypt_block` |
| cfb.dfy | Cfb | `copy_sized`, `TfDecrypt` |
| key_derivation.dfy | KeyDerivation | `compute_key_from_executable` |
| ascii.dfy | Ascii | `decode_as_ascii` |
| header.dfy | Header | `decrypt_header` |
| directory.dfy | Directory | `FileEntry.from_bytes`, `FileEntry.read_from_file` |
| sniffer.dfy | Sniffer | `decode_protracker`, `decode_screamtracker`, `decode_fasttracker`, `decode_impulsetracker`, `determine_module_type` |
| filename.dfy | FileName | the file name `save_module` builds |
| extract.dfy | Extract | `extract_pak` |

Notes on the code's behaviour, which the model follows:

- `decrypt_header` returns the whole buffer it read (`min(0x588, file
  size)` bytes), with only the first 0x544 bytes run through the third layer.
  It does not return the 0x544-byte main part alone.
- `compute_key_from_executable` combines samples with `zip`. A last sample
  shorter than 8 bytes therefore shortens the key; it is not zero-extended.
- A locked pack with no program raises `FailedDecryptHeader`. A lock name
  that is not ASCII raises `UnicodeDecodeError` earlier, before the program
  is looked at.
- A pack of at most 0x544 bytes makes `header[0x544]` raise `IndexError`.

## Model

| member | source | states |
|---|---|---|
| Base.Slice | jbfmod_unpacker/jbfmod_unpacker.py:345 | Python's `s[lo:hi]`: as long as the part of [lo, hi) inside the sequence, element i being s[lo + i]; the plain slice when the range lies inside |
| Delphi.NextSeed | jbfmod_unpacker/jbfmod_unpacker.py:43-44 | the new seed is a 32-bit value congruent to multiplier * seed + increment modulo 2^32 |
| Delphi.Scaled | jbfmod_unpacker/jbfmod_unpacker.py:45-46 | the drawn number is a byte, and below x for a 32-bit seed and 0 < x <= 256 |
| Delphi.RandIntGenDelphi.constructor | jbfmod_unpacker/jbfmod_unpacker.py:31-39 | the generator starts with the given seed, multiplier and increment (defaults 0, 0x8088405, 1) |
| Delphi.RandIntGenDelphi.GetNext | jbfmod_unpacker/jbfmod_unpacker.py:42-47 | advances the seed one LCG step and returns the high 32 bits of seed * x, truncated to a byte and below x |
| Lgc.KeyByte | jbfmod_unpacker/jbfmod_unpacker.py:61-67 | the byte XORed in is `get_next(254) + 1`, always in 1..254, so never 0 |
| Lgc.Stream | jbfmod_unpacker/jbfmod_unpacker.py:61-67 | the bytes `get_next` produces keep the input's length; StreamAt, StreamSnoc and StreamInvolution give each byte and the round trip |
| Lgc.SplitPoint | jbfmod_unpacker/jbfmod_unpacker.py:71-73 | `size or len(data)`: no size or 0 means the whole buffer; a size past the end raises IndexError; otherwise the prefix decrypted is that size |
| Lgc.BlockResult | jbfmod_unpacker/jbfmod_unpacker.py:70-75 | `decrypt_block` fails exactly when size > len(data); it keeps the length, leaves bytes past the size unchanged and changes every byte before it |
| Lgc.SeedAfterShift | jbfmod_unpacker/jbfmod_unpacker.py:43-44 | n + 1 generator steps are one step and then n more |
| Lgc.StreamAt | jbfmod_unpacker/jbfmod_unpacker.py:61-67 | byte i of the output is input byte i XOR the key byte of the i-th seed: the keystream depends on the position only |
| Lgc.StreamSnoc | jbfmod_unpacker/jbfmod_unpacker.py:74 | one more input byte adds one output byte, under the next seed |
| Lgc.EveryByteAltered | jbfmod_unpacker/jbfmod_unpacker.py:62-65 | no byte passes through the generator cipher unaltered |
| Lgc.StreamInvolution | jbfmod_unpacker/jbfmod_unpacker.py:66 | applying the generator cipher twice from the same seed gives the input back |
| Lgc.LgcDecrypt.constructor | jbfmod_unpacker/jbfmod_unpacker.py:51-53 | a new decryptor's generator starts at the reset seed 0x135C80A1 |
| Lgc.LgcDecrypt.Reset | jbfmod_unpacker/jbfmod_unpacker.py:56-58 | reset puts the seed back to 0x135C80A1 |
| Lgc.LgcDecrypt.GetNext | jbfmod_unpacker/jbfmod_unpacker.py:61-67 | XORs the byte with the key byte of the current seed and advances the seed one step |
| Lgc.LgcDecrypt.DecryptBlock | jbfmod_unpacker/jbfmod_unpacker.py:70-75 | the loop returns `BlockResult` of the old seed and leaves the seed advanced by the number of bytes decrypted |
| Cfb.CopySized | jbfmod_unpacker/jbfmod_unpacker.py:25-27 | `ljust`: the data, zero-padded up to the size, never truncated |
| Cfb.Shift | jbfmod_unpacker/jbfmod_unpacker.py:95 | the window drops its first byte and takes the ciphertext byte, keeping its length; WindowSnoc, WindowIsSuffix and LastSixteen build on it |
| Cfb.Stream | jbfmod_unpacker/jbfmod_unpacker.py:92-97 | the bytes `get_next` produces keep the input's length; StreamAt gives each byte, DecryptEncrypt and EncryptDecrypt the round trips |
| Cfb.WindowAfter | jbfmod_unpacker/jbfmod_unpacker.py:95 | the window after some input keeps the length of a non-empty window and ends with the last byte fed in |
| Cfb.BlockResult | jbfmod_unpacker/jbfmod_unpacker.py:70-75 | the inherited `decrypt_block` on the feedback cipher fails exactly when size > len(data), keeps the length and the bytes past the size |
| Cfb.WindowIsSuffix | jbfmod_unpacker/jbfmod_unpacker.py:95 | after some input, the window is the last bytes, as many as it holds, of the old window followed by that input |
| Cfb.LastSixteen | jbfmod_unpacker/jbfmod_unpacker.py:87 | from a vector of at most 16 bytes, the window after n bytes is exactly the last 16 bytes of the padded vector followed by those n ciphertext bytes |
| Cfb.StreamAt | jbfmod_unpacker/jbfmod_unpacker.py:92-97 | output byte i is input byte i XOR the first byte of the block cipher applied to the window before it |
| Cfb.OutputDependsOnPrefix | jbfmod_unpacker/jbfmod_unpacker.py:92-97 | output byte i depends only on input bytes 0..i (self-synchronising feedback) |
| Cfb.WindowSnoc | jbfmod_unpacker/jbfmod_unpacker.py:95 | the window after one more byte is the shifted window |
| Cfb.StreamSnoc | jbfmod_unpacker/jbfmod_unpacker.py:92-97 | one more input byte adds one output byte, keyed by the current window |
| Cfb.DecryptEncrypt | jbfmod_unpacker/jbfmod_unpacker.py:92-97 | decrypting an encryption under the same key and vector gives the plain text back, for every block cipher |
| Cfb.EncryptDecrypt | jbfmod_unpacker/jbfmod_unpacker.py:92-97 | encrypting a decryption gives the ciphertext back |
| Cfb.TfDecrypt.constructor | jbfmod_unpacker/jbfmod_unpacker.py:82-83 | a new decryptor holds the key and the zero-padded vector |
| Cfb.TfDecrypt.Reset | jbfmod_unpacker/jbfmod_unpacker.py:86-89 | reset installs the new key and restarts the window from the padded vector |
| Cfb.TfDecrypt.GetNext | jbfmod_unpacker/jbfmod_unpacker.py:92-97 | XORs the byte with the first byte of the encrypted window and shifts the byte into the window |
| Cfb.TfDecrypt.DecryptBlock | jbfmod_unpacker/jbfmod_unpacker.py:70-75 | the loop returns `BlockResult` of the old window and leaves the window advanced over the bytes decrypted |
| Cfb.ReplayAfterReset | jbfmod_unpacker/jbfmod_unpacker.py:86-89 | after a reset to the same key and vector, the decryptor gives the same plain text again |
| KeyDerivation.XorZip | jbfmod_unpacker/jbfmod_unpacker.py:129 | `zip` then XOR, byte by byte, as long as the shorter side; its laws are XorZipCommutes and XorZipAssociates, which FoldOrderInvariant uses |
| KeyDerivation.ReadBlock | jbfmod_unpacker/jbfmod_unpacker.py:127-128 | `read1(8)` at an offset: min(8, eof - offset) bytes of the program from that offset, none at or past the end |
| KeyDerivation.SampledBlocks | jbfmod_unpacker/jbfmod_unpacker.py:126-131 | one block per stride starting below the end: (eof - 1 - offset) / 0x4000 + 1 of them, none from the end on |
| KeyDerivation.SampledBlockAt | jbfmod_unpacker/jbfmod_unpacker.py:126-131 | the k-th block read is the read at offset + k * 0x4000, which starts below the end |
| KeyDerivation.Fold | jbfmod_unpacker/jbfmod_unpacker.py:126-131 | folding the blocks never lengthens the key, and keeps its length when no block is shorter |
| KeyDerivation.DerivedKey | jbfmod_unpacker/jbfmod_unpacker.py:120-132 | a program of at most one byte yields eight zero bytes |
| KeyDerivation.LastSampleOffset | jbfmod_unpacker/jbfmod_unpacker.py:126-130 | the last offset sampled is below the end of the program |
| KeyDerivation.ComputeKeyFromExecutable | jbfmod_unpacker/jbfmod_unpacker.py:120-132 | the sampling loop computes `DerivedKey` of the program |
| KeyDerivation.XorZipCommutes | jbfmod_unpacker/jbfmod_unpacker.py:129 | combining a sample into the key is commutative |
| KeyDerivation.XorZipAssociates | jbfmod_unpacker/jbfmod_unpacker.py:129 | combining a sample into the key is associative |
| KeyDerivation.FoldAbsorb | jbfmod_unpacker/jbfmod_unpacker.py:126-131 | a block combined into the starting key can instead be combined in after the fold |
| KeyDerivation.FoldMoved | jbfmod_unpacker/jbfmod_unpacker.py:126-131 | any one block can be moved to the end of the fold |
| KeyDerivation.FoldOrderInvariant | jbfmod_unpacker/jbfmod_unpacker.py:126-131 | the key depends only on the multiset of sampled blocks, not their order |
| KeyDerivation.SampledKeyLength | jbfmod_unpacker/jbfmod_unpacker.py:126-131 | the folded key is as long as the shortest of the starting key and the blocks |
| KeyDerivation.DerivedKeyLength | jbfmod_unpacker/jbfmod_unpacker.py:124-131 | the key is 8 zero bytes for a program of at most 1 byte, and otherwise as long as the last sample, min(8, eof - last offset) |
| Ascii.RemoveControls | jbfmod_unpacker/jbfmod_unpacker.py:175 | no character in 0x00..0x1f remains; a string without one is kept whole, one made only of them is emptied; the result is no longer and stays ASCII |
| Ascii.StripStart | jbfmod_unpacker/jbfmod_unpacker.py:176 | the leading run of white space ends at the first character that is not white space |
| Ascii.StripEnd | jbfmod_unpacker/jbfmod_unpacker.py:176 | the trailing run of white space starts after the last character that is not white space |
| Ascii.Strip | jbfmod_unpacker/jbfmod_unpacker.py:176 | `strip()`: the slice between the first and last characters that are not white space, empty exactly when all is white space, and the whole string when neither end is white space |
| Ascii.Chars | jbfmod_unpacker/jbfmod_unpacker.py:174 | `decode("ascii")` of ASCII bytes, one character per byte; DecodedWhole, DecodeIdempotent and DecodeExample state what decoding does with it |
| Ascii.DecodeAscii | jbfmod_unpacker/jbfmod_unpacker.py:173-177 | fails (UnicodeDecodeError) exactly when a byte is >= 0x80; otherwise a name no longer than the data, free of control characters and without outer white space, and exactly the bytes' characters when those already form such a name |
| Ascii.OnlySpaceRemains | jbfmod_unpacker/jbfmod_unpacker.py:175-176 | once controls are removed, the only white space left in ASCII is the blank |
| Ascii.RemoveControlsSameLength | jbfmod_unpacker/jbfmod_unpacker.py:175 | if nothing was removed, the string is unchanged |
| Ascii.StripSameLength | jbfmod_unpacker/jbfmod_unpacker.py:176 | if stripping removed nothing, the string is unchanged |
| Ascii.DecodedWhole | jbfmod_unpacker/jbfmod_unpacker.py:173-177 | a decoded name as long as its bytes is those bytes, character for character |
| Ascii.DecodeIdempotent | jbfmod_unpacker/jbfmod_unpacker.py:173-177 | decoding the bytes of a decoded name gives the same name |
| Ascii.NameKept | jbfmod_unpacker/jbfmod_unpacker.py:175-176 | a name without control characters or outer blanks passes through removal and stripping unchanged |
| Ascii.RemoveControlsAppend | jbfmod_unpacker/jbfmod_unpacker.py:175 | control removal distributes over concatenation, so every other character is kept in order |
| Ascii.DecodeAsciiSteps | jbfmod_unpacker/jbfmod_unpacker.py:173-177 | on ASCII bytes the result is strip() of the control-free decoded text, in that order |
| Ascii.DecodeExample | jbfmod_unpacker/jbfmod_unpacker.py:173-177 | the bytes `Song\x01 Name\x1f` followed by two blanks decode to "Song Name" |
| Header.LockNameLength | jbfmod_unpacker/jbfmod_unpacker.py:153 | `min(header[0x544], 0x43)`: at most 0x43, and 0 exactly when the byte is 0 |
| Header.Layer2 | jbfmod_unpacker/jbfmod_unpacker.py:147-149 | the first two layers keep the header's length; Layer2OfEncoded undoes an encoding through them |
| Header.LockName | jbfmod_unpacker/jbfmod_unpacker.py:155-156 | None exactly when the lock-name bytes are not ASCII; otherwise a clean name of at most `min(header[0x544], 0x43)` characters |
| Header.ThirdKey | jbfmod_unpacker/jbfmod_unpacker.py:151-166 | zero key when unlocked; UnicodeDecodeError exactly when a non-zero-length lock name is not ASCII; FailedDecryptHeader carrying the name exactly when the pack is locked and no program is given; otherwise the program's derived key |
| Header.HeaderResult | jbfmod_unpacker/jbfmod_unpacker.py:139-170 | IndexError exactly when the pack has at most 0x544 bytes; otherwise a header of min(size, 0x588) bytes |
| Header.DecryptHeader | jbfmod_unpacker/jbfmod_unpacker.py:139-170 | the three decryption passes compute `HeaderResult` |
| Header.ChooseKey | jbfmod_unpacker/jbfmod_unpacker.py:151-166 | the key choice computes `ThirdKey` |
| Header.LockNameWithinHeader | jbfmod_unpacker/jbfmod_unpacker.py:153-156 | the lock name ends within the 0x588 bytes read |
| Header.HeaderErrors | jbfmod_unpacker/jbfmod_unpacker.py:139-170 | the only errors are IndexError, UnicodeDecodeError and FailedDecryptHeader, each one exactly characterised |
| Header.UnlockedUsesZeroKey | jbfmod_unpacker/jbfmod_unpacker.py:151-169 | an unlocked pack decrypts the same with or without a program, under eight zero bytes |
| Header.ThirdLayerKeepsTail | jbfmod_unpacker/jbfmod_unpacker.py:168-169 | the third layer rewrites bytes [0, 0x544) only; the rest, including the lock-length byte, is layer 2 unchanged |
| Header.Layer2OfEncoded | jbfmod_unpacker/jbfmod_unpacker.py:147-149 | removing the two outer layers of an encoded header leaves the third-layer ciphertext and the plain tail |
| Header.ThirdKeyReadsTail | jbfmod_unpacker/jbfmod_unpacker.py:153-166 | the key choice reads only bytes from 0x544 on |
| Header.EncodedLayer2 | jbfmod_unpacker/jbfmod_unpacker.py:147-166 | on an encoded pack, the first two layers and the key choice recover the third-layer ciphertext and its key |
| Header.HeaderOfLayer2 | jbfmod_unpacker/jbfmod_unpacker.py:168-170 | the header is the third layer over layer 2's main part, followed by its tail |
| Header.HeaderRoundTrip | jbfmod_unpacker/jbfmod_unpacker.py:139-170 | a header encoded under the key the pack's lock selects decrypts back to its plain text, whatever follows it |
| Directory.Le32 | jbfmod_unpacker/jbfmod_unpacker.py:108 | a little-endian unsigned 32-bit word is below 2^32 |
| Directory.FromBytes | jbfmod_unpacker/jbfmod_unpacker.py:106-110 | struct.error exactly when the slot is not 16 bytes; otherwise key = bytes [0, 8), offset and size are 32-bit words |
| Directory.Le32RoundTrip | jbfmod_unpacker/jbfmod_unpacker.py:108 | reading back a written word gives the word |
| Directory.Le32BytesRoundTrip | jbfmod_unpacker/jbfmod_unpacker.py:108 | writing a read word gives its four bytes |
| Directory.FromToBytes | jbfmod_unpacker/jbfmod_unpacker.py:106-110 | parsing a written slot gives the slot |
| Directory.ToFromBytes | jbfmod_unpacker/jbfmod_unpacker.py:106-110 | writing a parsed slot gives its 16 bytes: the parser ignores no byte |
| Directory.Slot | jbfmod_unpacker/jbfmod_unpacker.py:344-346 | slot `index` of a full header parses without error |
| Directory.SlotBytes | jbfmod_unpacker/jbfmod_unpacker.py:344-345 | `header[16i:16i+16]`: at most 16 bytes, exactly 16 when the header holds them, byte j being header[16i + j] |
| Directory.IsValid | jbfmod_unpacker/jbfmod_unpacker.py:347 | a slot chosen for extraction starts inside the pack, is non-empty and is no longer than the pack |
| Directory.Entries | jbfmod_unpacker/jbfmod_unpacker.py:342-346 | the 64 slots, each the parse of its 16 bytes; ExtractSlot and ExtractedModules use them |
| Directory.ModuleData | jbfmod_unpacker/jbfmod_unpacker.py:112-117 | `read1(size)` from offset is cut at the end of the file; for a valid slot the module has exactly `size` bytes |
| Directory.ReadFromFile | jbfmod_unpacker/jbfmod_unpacker.py:112-117 | the decryptor loop computes `ModuleData` |
| Directory.ReadRoundTrip | jbfmod_unpacker/jbfmod_unpacker.py:112-117 | a module stored encrypted under its slot key at its slot's place is read back as stored |
| Sniffer.Lower | jbfmod_unpacker/jbfmod_unpacker.py:233 | `lower()` character by character; FasttrackerMatch and FoldedMagicIsName use it for the magic |
| Sniffer.NameAt | jbfmod_unpacker/jbfmod_unpacker.py:203 | the name read from a byte range, when ASCII, is a clean decoded name |
| Sniffer.DecodeProtracker | jbfmod_unpacker/jbfmod_unpacker.py:184-207 | a match is typed "mod" and carries the name decoded from bytes [0, 20) |
| Sniffer.DecodeScreamtracker | jbfmod_unpacker/jbfmod_unpacker.py:210-224 | matches exactly when byte 28 exists and is 0x1A and bytes [0, 28) are ASCII; typed "s3m" with the name decoded from bytes [0, 28) |
| Sniffer.DecodeFasttracker | jbfmod_unpacker/jbfmod_unpacker.py:227-241 | a match is typed "xm" and carries the name decoded from bytes [17, 37) |
| Sniffer.DecodeImpulsetracker | jbfmod_unpacker/jbfmod_unpacker.py:244-260 | a match is typed "it" and carries the name decoded from bytes [4, 30) |
| Sniffer.ModuleType | jbfmod_unpacker/jbfmod_unpacker.py:263-290 | each type is reported exactly when its detector matches and every earlier one failed, and then the result is that detector's own; "bin" with an empty name exactly when all four fail |
| Sniffer.ProtrackerMatch | jbfmod_unpacker/jbfmod_unpacker.py:184-207 | matches exactly when bytes [1080, 1084) exist, are ASCII and spell one of the six signatures, and bytes [0, 20) are ASCII |
| Sniffer.SignatureIsName | jbfmod_unpacker/jbfmod_unpacker.py:190-197 | each signature is four printable characters without outer blanks, so it decodes to itself |
| Sniffer.FasttrackerMatch | jbfmod_unpacker/jbfmod_unpacker.py:227-241 | matches exactly when bytes [0, 16) exist, are ASCII and spell "extended module:" up to letter case, and bytes [17, 37) are ASCII |
| Sniffer.FoldedMagicIsName | jbfmod_unpacker/jbfmod_unpacker.py:233 | ASCII text whose lower case is the FastTracker magic is printable without outer blanks |
| Sniffer.ImpulsetrackerMatch | jbfmod_unpacker/jbfmod_unpacker.py:244-260 | matches exactly when the buffer starts with the ASCII bytes "IMPM" and bytes [4, 30) are ASCII |
| FileName.RemoveForbidden | jbfmod_unpacker/jbfmod_unpacker.py:296 | no forbidden punctuation or control character remains; a string without one is kept whole, one made only of them is emptied |
| FileName.RemoveForbiddenAppend | jbfmod_unpacker/jbfmod_unpacker.py:296 | the removal distributes over concatenation, keeping every allowed character in order |
| FileName.CleanName | jbfmod_unpacker/jbfmod_unpacker.py:296 | the cleaned name has no forbidden character and no outer white space, and a name that has neither is kept as it is |
| FileName.Decimal | jbfmod_unpacker/jbfmod_unpacker.py:300-302 | `str(index)` is a non-empty run of decimal digits |
| FileName.ParseDecimal | jbfmod_unpacker/jbfmod_unpacker.py:300-302 | reading `str(n)` as a number gives n |
| FileName.DigitRunAppend | jbfmod_unpacker/jbfmod_unpacker.py:300-302 | the leading digits of digits followed by a non-digit are exactly those digits |
| FileName.Suffix | jbfmod_unpacker/jbfmod_unpacker.py:299-305 | what follows the index starts with a blank or a dot, and ends with "." + type |
| FileName.ModuleFileName | jbfmod_unpacker/jbfmod_unpacker.py:293-305 | the index in decimal, then a blank and the cleaned name when that is non-empty, then a dot and the type when that is non-empty |
| FileName.FileNameIndex | jbfmod_unpacker/jbfmod_unpacker.py:299-302 | the slot index can be read back from the start of the file name |
| FileName.IndexReadBack | jbfmod_unpacker/jbfmod_unpacker.py:299-302 | a decimal index followed by text that starts with no digit reads back as the index |
| FileName.FileNamesDistinct | jbfmod_unpacker/jbfmod_unpacker.py:299-305 | modules of different slots never get the same file name, whatever their names and types |
| FileName.CleanNameNoDot | jbfmod_unpacker/jbfmod_unpacker.py:296 | the cleaned name holds no dot |
| FileName.SuffixDots | jbfmod_unpacker/jbfmod_unpacker.py:299-305 | with a dot-free name and type, the only dot after the index is the one before the type |
| FileName.OnlyDotIsExtension | jbfmod_unpacker/jbfmod_unpacker.py:296-305 | the only dot in a file name is the one before the extension |
| FileName.SaveModuleName | jbfmod_unpacker/jbfmod_unpacker.py:293-305 | the saved name always ends with "." and one of the five detected types, and its leading digits read back as the slot index |
| FileName.TypesNotEmpty | jbfmod_unpacker/jbfmod_unpacker.py:285 | every module type is 2 or 3 letters without a dot |
| FileName.NamedFileName | jbfmod_unpacker/jbfmod_unpacker.py:299-305 | a name that survives cleaning, with a non-empty type, gives index, blank, cleaned name, dot and type |
| FileName.ExampleNamed | jbfmod_unpacker/jbfmod_unpacker.py:296-305 | slot 3 named "A/B*C" of type mod is saved as "3 ABC.mod" |
| FileName.ExampleUnnamed | jbfmod_unpacker/jbfmod_unpacker.py:299-305 | slot 7 without a name, of type bin, is saved as "7.bin" |
| FileName.ExampleCleaned | jbfmod_unpacker/jbfmod_unpacker.py:296 | cleaning "A/B*C" gives "ABC" |
| Extract.PackInfo | jbfmod_unpacker/jbfmod_unpacker.py:329-334 | a clean name of at most `header[0x441]` characters: empty when its bytes are not ASCII, their decoding otherwise, and exactly their characters when those are already clean |
| Extract.InfoWithinMainPart | jbfmod_unpacker/jbfmod_unpacker.py:329-332 | the description lies within the part the third layer decrypts |
| Extract.Extraction | jbfmod_unpacker/jbfmod_unpacker.py:347-349 | a slot's module carries its index, holds `size` bytes when the slot is valid, and is saved under a name whose leading digits read back as the index |
| Extract.SlotOutcome | jbfmod_unpacker/jbfmod_unpacker.py:347-351 | a slot yields a module exactly when its size is non-zero and it ends within the pack |
| Extract.Outcomes | jbfmod_unpacker/jbfmod_unpacker.py:342-351 | one outcome per slot, in slot order; OutcomeAt gives each |
| Extract.OutcomeAt | jbfmod_unpacker/jbfmod_unpacker.py:342-351 | the outcome at position i is that of slot i |
| Extract.FoundSnoc | jbfmod_unpacker/jbfmod_unpacker.py:347-351 | one more slot adds its module, if any, at the end |
| Extract.FoundAtPositions | jbfmod_unpacker/jbfmod_unpacker.py:347-351 | the k-th module found is the module of the k-th yielding slot |
| Extract.PositionsMembers | jbfmod_unpacker/jbfmod_unpacker.py:347 | an index is listed exactly when its slot yields |
| Extract.PositionsIncreasing | jbfmod_unpacker/jbfmod_unpacker.py:342 | the yielding slots are listed in increasing order |
| Extract.Modules | jbfmod_unpacker/jbfmod_unpacker.py:340-351 | at most 64 modules, one per slot at most |
| Extract.ValidSlots | jbfmod_unpacker/jbfmod_unpacker.py:340-347 | the slots extracted from are below 64 and in strictly increasing order |
| Extract.PackResult | jbfmod_unpacker/jbfmod_unpacker.py:317-351 | fails exactly when `decrypt_header` fails, with its exception; otherwise the count is the number of modules, at most 64 |
| Extract.ExtractPak | jbfmod_unpacker/jbfmod_unpacker.py:317-351 | the extraction computes `PackResult` |
| Extract.ExtractSlots | jbfmod_unpacker/jbfmod_unpacker.py:340-351 | the slot loop yields the modules of slots 0 to 63 in order, and `num_modules_found` counts them |
| Extract.ExtractSlot | jbfmod_unpacker/jbfmod_unpacker.py:344-349 | one turn of the loop computes entry `index` of `Outcomes`, which `OutcomeAt` shows is the slot's own outcome |
| Extract.ValidSlotsMembers | jbfmod_unpacker/jbfmod_unpacker.py:347 | a slot is extracted exactly when it is valid |
| Extract.OutcomeModule | jbfmod_unpacker/jbfmod_unpacker.py:347-349 | a module a slot yields carries the slot's index and exactly as many bytes as the slot's size |
| Extract.ExtractedModules | jbfmod_unpacker/jbfmod_unpacker.py:342-351 | one module per valid slot, in strictly increasing slot order, each holding its slot's size, with pairwise distinct file names |
| Extract.DistinctNames | jbfmod_unpacker/jbfmod_unpacker.py:349 | modules of two different slots are saved under different names |
| Extract.PackModules | jbfmod_unpacker/jbfmod_unpacker.py:327-351 | a successful extraction yields the modules of the decrypted header's slots, counted once per valid slot |

## Left out

- Twofish itself: the block encryption is the parameter `cipher`. Its key
  schedule, and the exception it raises for a key length it does not accept,
  are not modelled.
- File I/O: `seek`, `tell` and `read1` are modelled as slices of the file's
  contents, reading up to the end of the file. A `read1` that returns fewer
  bytes than are available is not modelled.
- `save_module`'s directory creation and file writing (`os.makedirs`,
  `open`, `write`) are left out. The model returns the file name with the
  module's bytes.
- `extract_pak`'s `print` output and `textwrap.fill` of the description are
  left out. The description is returned as a value.
- The command line (`jbfmod_unpacker/__main__.py`) and `setup.py` are not
  part of this model.
- Header.ThirdKey: `FailedDecryptHeader` keeps only the lock name, not the
  formatted message text.
- Sniffer.ModuleType: the loop over the detector tuple is modelled as a
  first-match function. Its intermediate assignments of `""`/`"bin"` are
  visible only in the final result.
- FileName.ModuleFileName: the slot index is a natural number; `str()` of a
  negative index is not modelled, because the slot loop never produces one.
- Cfb.LastSixteen: stated only for a vector of at most 16 bytes. A longer
  vector is kept whole by `ljust`, and then the window stays longer than 16
  bytes, as in the source.
- Sniffer.DecodeProtracker, Sniffer.DecodeFasttracker,
  Sniffer.DecodeImpulsetracker: their contracts give the type and the name
  of a match. The exact byte conditions for a match are stated as
  if-and-only-if lemmas beside them: `ProtrackerMatch`, `FasttrackerMatch`
  and `ImpulsetrackerMatch`.
- Extract.Outcomes: its contract gives the number of outcomes only; which
  slots yield a module is stated by `OutcomeAt` and `ValidSlotsMembers`,
  keeping the slot loop's proof small.
