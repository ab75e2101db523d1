/** Module-format sniffing (`decode_*` and `determine_module_type`). Each
    detector checks a magic value at a fixed place and, on a match, reads
    the song name from a fixed range; a magic that does not match or a range
    that is not ASCII counts as a failed type check. The dispatcher tries
    ProTracker, ScreamTracker 3, FastTracker 2 and Impulse Tracker in that
    order and takes the first match, falling back to an unnamed "bin". */
module Sniffer {
  import opened Base
  import opened Ascii

  /** A detector's result: the decoded song name and the file extension. */
  datatype Detection = Detection(name: string, moduleType: string)

  const ModuleTypes: set<string> := {"mod", "s3m", "xm", "it", "bin"}

  const ProtrackerMagics: set<string> := {"M.K.", "M!K!", "FLT4", "FLT8", "6CHN", "8CHN"}
  const ProtrackerMagicAt: nat := 1080
  const ProtrackerNameLen: nat := 20

  const ScreamtrackerMarkAt: nat := 28
  const ScreamtrackerMark: byte := 0x1A

  const FasttrackerMagic: string := "extended module:"
  const FasttrackerNameAt: nat := 17
  const FasttrackerNameEnd: nat := 37

  const ImpulsetrackerMagic: string := "IMPM"
  const ImpulsetrackerNameEnd: nat := 30

  /** Lower case of an ASCII character: capitals move to small letters. */
  function LowerChar(c: char): char {
    if 'A' <= c <= 'Z' then (c as int + 0x20) as char else c
  }

  /** `str.lower()` on a string of ASCII characters. */
  function Lower(s: string): (r: string)
    ensures |r| == |s|
    ensures forall i :: 0 <= i < |s| ==> r[i] == LowerChar(s[i])
  {
    seq(|s|, i requires 0 <= i < |s| => LowerChar(s[i]))
  }

  /** The name in `buf[lo:hi]`, None when it is not ASCII. */
  function NameAt(buf: seq<byte>, lo: nat, hi: nat): (r: Option<string>)
    ensures r.Some? ==> IsDecodedName(r.value)
  {
    DecodeAscii(Slice(buf, lo, hi))
  }

  /** `decode_protracker`: the four bytes at 1080 decode to one of the
      ProTracker signatures; the name is in bytes [0, 20). */
  function DecodeProtracker(buf: seq<byte>): (r: Option<Detection>)
    ensures r.Some? ==> r.value.moduleType == "mod" && IsDecodedName(r.value.name)
    ensures r.Some? ==> NameAt(buf, 0, ProtrackerNameLen) == Some(r.value.name)
  {
    match DecodeAscii(Slice(buf, ProtrackerMagicAt, ProtrackerMagicAt + 4))
    case None => None
    case Some(magic) =>
      if magic !in ProtrackerMagics then None
      else match NameAt(buf, 0, ProtrackerNameLen)
        case None => None
        case Some(name) => Some(Detection(name, "mod"))
  }

  /** `decode_screamtracker`: byte 28 is 0x1A (a buffer too short to have
      it fails, the IndexError being caught); the name is in bytes [0, 28). */
  function DecodeScreamtracker(buf: seq<byte>): (r: Option<Detection>)
    ensures r.Some? <==> |buf| > ScreamtrackerMarkAt && buf[ScreamtrackerMarkAt] == ScreamtrackerMark
                         && IsAscii(buf[..ScreamtrackerMarkAt])
    ensures r.Some? ==> r.value.moduleType == "s3m" && IsDecodedName(r.value.name)
                        && |r.value.name| <= ScreamtrackerMarkAt
    ensures r.Some? ==> NameAt(buf, 0, ScreamtrackerMarkAt) == Some(r.value.name)
  {
    if |buf| <= ScreamtrackerMarkAt then None
    else if buf[ScreamtrackerMarkAt] != ScreamtrackerMark then None
    else match NameAt(buf, 0, ScreamtrackerMarkAt)
      case None => None
      case Some(name) => Some(Detection(name, "s3m"))
  }

  /** `decode_fasttracker`: bytes [0, 16) decode, ignoring case, to
      "extended module:"; the name is in bytes [17, 37). */
  function DecodeFasttracker(buf: seq<byte>): (r: Option<Detection>)
    ensures r.Some? ==> r.value.moduleType == "xm" && IsDecodedName(r.value.name)
    ensures r.Some? ==> NameAt(buf, FasttrackerNameAt, FasttrackerNameEnd) == Some(r.value.name)
  {
    match DecodeAscii(Slice(buf, 0, |FasttrackerMagic|))
    case None => None
    case Some(magic) =>
      if Lower(magic) != FasttrackerMagic then None
      else match NameAt(buf, FasttrackerNameAt, FasttrackerNameEnd)
        case None => None
        case Some(name) => Some(Detection(name, "xm"))
  }

  /** `decode_impulsetracker`: bytes [0, 4) decode to "IMPM"; the name is in
      bytes [4, 30). */
  function DecodeImpulsetracker(buf: seq<byte>): (r: Option<Detection>)
    ensures r.Some? ==> r.value.moduleType == "it" && IsDecodedName(r.value.name)
    ensures r.Some? ==> NameAt(buf, |ImpulsetrackerMagic|, ImpulsetrackerNameEnd) == Some(r.value.name)
  {
    match DecodeAscii(Slice(buf, 0, |ImpulsetrackerMagic|))
    case None => None
    case Some(magic) =>
      if magic != ImpulsetrackerMagic then None
      else match NameAt(buf, |ImpulsetrackerMagic|, ImpulsetrackerNameEnd)
        case None => None
        case Some(name) => Some(Detection(name, "it"))
  }

  /** `determine_module_type`: the first detector that matches, in the order
      mod, s3m, xm, it; ("", "bin") when none does. Each type is reported
      exactly when its detector matches and every detector tried before it
      failed, with that detector's name, and the unnamed fallback exactly
      when all four fail. */
  function ModuleType(buf: seq<byte>): (r: Detection)
    ensures r.moduleType in ModuleTypes
    ensures IsDecodedName(r.name)
    ensures r.moduleType == "mod" <==> DecodeProtracker(buf).Some?
    ensures r.moduleType == "s3m" <==> DecodeProtracker(buf).None? && DecodeScreamtracker(buf).Some?
    ensures r.moduleType == "xm" <==> DecodeProtracker(buf).None? && DecodeScreamtracker(buf).None?
                                       && DecodeFasttracker(buf).Some?
    ensures r.moduleType == "it" <==> DecodeProtracker(buf).None? && DecodeScreamtracker(buf).None?
                                       && DecodeFasttracker(buf).None? && DecodeImpulsetracker(buf).Some?
    ensures r.moduleType == "bin" <==> DecodeProtracker(buf).None? && DecodeScreamtracker(buf).None?
                                        && DecodeFasttracker(buf).None? && DecodeImpulsetracker(buf).None?
    ensures r.moduleType == "bin" ==> r.name == ""
    ensures DecodeProtracker(buf).Some? ==> r == DecodeProtracker(buf).value
    ensures DecodeProtracker(buf).None? && DecodeScreamtracker(buf).Some?
            ==> r == DecodeScreamtracker(buf).value
    ensures DecodeProtracker(buf).None? && DecodeScreamtracker(buf).None? && DecodeFasttracker(buf).Some?
            ==> r == DecodeFasttracker(buf).value
    ensures DecodeProtracker(buf).None? && DecodeScreamtracker(buf).None? && DecodeFasttracker(buf).None?
            && DecodeImpulsetracker(buf).Some?
            ==> r == DecodeImpulsetracker(buf).value
  {
    match DecodeProtracker(buf)
    case Some(d) => d
    case None =>
      match DecodeScreamtracker(buf)
      case Some(d) => d
      case None =>
        match DecodeFasttracker(buf)
        case Some(d) => d
        case None =>
          match DecodeImpulsetracker(buf)
          case Some(d) => d
          case None => Detection("", "bin")
  }

  /** `decode_protracker` matches exactly when the buffer reaches byte 1084,
      bytes [1080, 1084) are ASCII and spell one of the signatures, and the
      name bytes [0, 20) are ASCII. */
  lemma ProtrackerMatch(buf: seq<byte>)
    ensures DecodeProtracker(buf).Some? <==>
              |buf| >= ProtrackerMagicAt + 4 && IsAscii(buf[ProtrackerMagicAt..ProtrackerMagicAt + 4])
              && Chars(buf[ProtrackerMagicAt..ProtrackerMagicAt + 4]) in ProtrackerMagics
              && IsAscii(Slice(buf, 0, ProtrackerNameLen))
  {
    var data := Slice(buf, ProtrackerMagicAt, ProtrackerMagicAt + 4);
    if DecodeProtracker(buf).Some? {
      var magic := DecodeAscii(data).value;
      SignatureIsName(magic);
      DecodedWhole(data);
      assert |buf| >= ProtrackerMagicAt + 4;
    }
    if |buf| >= ProtrackerMagicAt + 4 && IsAscii(buf[ProtrackerMagicAt..ProtrackerMagicAt + 4])
       && Chars(buf[ProtrackerMagicAt..ProtrackerMagicAt + 4]) in ProtrackerMagics
    {
      assert data == buf[ProtrackerMagicAt..ProtrackerMagicAt + 4];
      SignatureIsName(Chars(data));
    }
  }

  /** Every ProTracker signature is four printable characters with no space
      at either end, so decoding its bytes gives it back. */
  lemma SignatureIsName(m: string)
    requires m in ProtrackerMagics
    ensures |m| == 4 && IsDecodedName(m)
  {
  }

  /** `decode_fasttracker` matches exactly when bytes [0, 16) are ASCII and
      spell "extended module:" up to the case of letters, and the name bytes
      [17, 37) are ASCII. */
  lemma FasttrackerMatch(buf: seq<byte>)
    ensures DecodeFasttracker(buf).Some? <==>
              |buf| >= |FasttrackerMagic| && IsAscii(buf[..|FasttrackerMagic|])
              && Lower(Chars(buf[..|FasttrackerMagic|])) == FasttrackerMagic
              && IsAscii(Slice(buf, FasttrackerNameAt, FasttrackerNameEnd))
  {
    var data := Slice(buf, 0, |FasttrackerMagic|);
    if DecodeFasttracker(buf).Some? {
      var magic := DecodeAscii(data).value;
      assert |Lower(magic)| == |FasttrackerMagic|;
      DecodedWhole(data);
      assert |buf| >= |FasttrackerMagic|;
    }
    if |buf| >= |FasttrackerMagic| && IsAscii(buf[..|FasttrackerMagic|])
       && Lower(Chars(buf[..|FasttrackerMagic|])) == FasttrackerMagic
    {
      assert data == buf[..|FasttrackerMagic|];
      FoldedMagicIsName(Chars(data));
    }
  }

  /** ASCII text whose lower case is "extended module:" is printable and has
      no space at either end, so decoding its bytes gives it back. */
  lemma FoldedMagicIsName(c: string)
    requires forall i :: 0 <= i < |c| ==> c[i] as int < 0x80
    requires Lower(c) == FasttrackerMagic
    ensures IsDecodedName(c)
  {
    assert forall i :: 0 <= i < |FasttrackerMagic| ==> FasttrackerMagic[i] as int >= 0x20;
    forall i | 0 <= i < |c|
      ensures 0x20 <= c[i] as int
    {
      assert LowerChar(c[i]) == FasttrackerMagic[i];
    }
    assert LowerChar(c[0]) == 'e' && LowerChar(c[|c| - 1]) == ':';
  }

  /** `decode_impulsetracker` matches exactly when the buffer starts with the
      ASCII bytes of "IMPM" and the name bytes [4, 30) are ASCII. */
  lemma ImpulsetrackerMatch(buf: seq<byte>)
    ensures DecodeImpulsetracker(buf).Some? <==>
              |buf| >= |ImpulsetrackerMagic| && IsAscii(buf[..|ImpulsetrackerMagic|])
              && Chars(buf[..|ImpulsetrackerMagic|]) == ImpulsetrackerMagic
              && IsAscii(Slice(buf, |ImpulsetrackerMagic|, ImpulsetrackerNameEnd))
  {
    var data := Slice(buf, 0, |ImpulsetrackerMagic|);
    if DecodeImpulsetracker(buf).Some? {
      DecodedWhole(data);
      assert |buf| >= |ImpulsetrackerMagic|;
    }
    if |buf| >= |ImpulsetrackerMagic| && IsAscii(buf[..|ImpulsetrackerMagic|])
       && Chars(buf[..|ImpulsetrackerMagic|]) == ImpulsetrackerMagic
    {
      assert data == buf[..|ImpulsetrackerMagic|];
      assert IsDecodedName(ImpulsetrackerMagic);
    }
  }
}
