/** Pack extraction (`extract_pak`): decrypt the header, read the pack
    description, then walk the 64 directory slots in index order and
    extract, type and name every module whose slot is valid, counting them. */
module Extract {
  import opened Base
  import opened Ascii
  import opened Cfb
  import opened Header
  import opened Directory
  import opened Sniffer
  import opened FileName

  /** Where the pack description's length byte and text live. */
  const InfoLengthAt: nat := 0x441

  /** One module written out: its slot, the name it is saved under and its
      decrypted bytes. */
  datatype Extracted = Extracted(index: nat, filename: string, data: seq<byte>)

  /** What extraction yields: the description, the modules in slot order and
      `num_modules_found`. */
  datatype Pack = Pack(info: string, modules: seq<Extracted>, count: nat)

  /** The bytes of the pack description: `header[0x441]` bytes from 0x442. */
  function InfoBytes(header: seq<byte>): seq<byte>
    requires |header| > InfoLengthAt
  {
    Slice(header, InfoLengthAt + 1, InfoLengthAt + 1 + header[InfoLengthAt])
  }

  /** The pack description: its bytes decoded as ASCII, or empty when they
      are not ASCII (the UnicodeDecodeError is caught). A description that
      is a clean name already is read exactly. */
  function PackInfo(header: seq<byte>): (info: string)
    requires |header| > InfoLengthAt
    ensures IsDecodedName(info)
    ensures |info| <= header[InfoLengthAt]
    ensures !IsAscii(InfoBytes(header)) ==> info == ""
    ensures IsAscii(InfoBytes(header)) ==> DecodeAscii(InfoBytes(header)) == Some(info)
    ensures IsAscii(InfoBytes(header)) && IsDecodedName(Chars(InfoBytes(header)))
            ==> info == Chars(InfoBytes(header))
  {
    match DecodeAscii(InfoBytes(header))
    case None => ""
    case Some(s) => s
  }

  /** The description lies in the part the third layer decrypts. */
  lemma InfoWithinMainPart(header: seq<byte>)
    requires |header| > InfoLengthAt
    ensures InfoLengthAt + 1 + header[InfoLengthAt] <= HeaderMainLen
  {
  }

  /** The module extracted from slot `index`, whose entry is `e`: it carries
      the index, holds as many bytes as a valid entry says, and its file
      name reads back as the index. */
  function Extraction(cipher: BlockCipher, e: FileEntry, container: seq<byte>, index: nat): (r: Extracted)
    ensures r.index == index
    ensures IsValid(e, |container|) ==> |r.data| == e.size
    ensures LeadingIndex(r.filename) == index
  {
    var data := ModuleData(cipher, e, container);
    Extracted(index, SaveModuleName(data, index), data)
  }

  /** What one turn of the slot loop produces: the slot's module when the
      slot is valid, nothing when it is skipped. */
  function SlotOutcome(cipher: BlockCipher, e: FileEntry, container: seq<byte>, index: nat): (r: Option<Extracted>)
    ensures r.Some? <==> IsValid(e, |container|)
  {
    if IsValid(e, |container|) then Some(Extraction(cipher, e, container, index)) else None
  }

  /** The outcomes of slots [0, n), in slot order. */
  function Outcomes(cipher: BlockCipher, es: seq<FileEntry>, container: seq<byte>, n: nat): (os: seq<Option<Extracted>>)
    requires n <= |es|
    ensures |os| == n
    decreases n
  {
    if n == 0 then [] else Outcomes(cipher, es, container, n - 1) + [SlotOutcome(cipher, es[n - 1], container, n - 1)]
  }

  lemma {:induction false} OutcomeAt(cipher: BlockCipher, es: seq<FileEntry>, container: seq<byte>, n: nat, i: nat)
    requires i < n <= |es|
    ensures Outcomes(cipher, es, container, n)[i] == SlotOutcome(cipher, es[i], container, i)
    decreases n
  {
    if i < n - 1 {
      OutcomeAt(cipher, es, container, n - 1, i);
    }
  }

  /** The present values of a run of outcomes, in order. */
  function Found<T>(os: seq<Option<T>>): (r: seq<T>)
    ensures |r| <= |os|
    decreases |os|
  {
    if os == [] then [] else Found(os[..|os| - 1]) + Present(os[|os| - 1])
  }

  function Present<T>(o: Option<T>): seq<T> {
    if o.Some? then [o.value] else []
  }

  /** The positions of the present outcomes, in order. */
  function Positions<T>(os: seq<Option<T>>): (r: seq<nat>)
    ensures |r| <= |os|
    ensures forall j :: 0 <= j < |r| ==> r[j] < |os|
    decreases |os|
  {
    if os == [] then [] else Positions(os[..|os| - 1]) + (if os[|os| - 1].Some? then [|os| - 1] else [])
  }

  lemma FoundSnoc<T>(os: seq<Option<T>>, o: Option<T>)
    ensures Found(os + [o]) == Found(os) + Present(o)
  {
    assert (os + [o])[..|os|] == os;
  }

  /** The values found in a longer prefix: those of the shorter one, then
      the next outcome's value, if any. */
  lemma FoundPrefix<T>(os: seq<Option<T>>, n: nat)
    requires n < |os|
    ensures Found(os[..n + 1]) == Found(os[..n]) + Present(os[n])
  {
    assert os[..n + 1] == os[..n] + [os[n]];
    FoundSnoc(os[..n], os[n]);
  }

  /** The k-th value found sits at the k-th position. */
  lemma {:induction false} FoundAtPositions<T>(os: seq<Option<T>>)
    ensures |Found(os)| == |Positions(os)|
    ensures forall k :: 0 <= k < |Found(os)| ==> os[Positions(os)[k]] == Some(Found(os)[k])
    decreases |os|
  {
    if os != [] {
      var init := os[..|os| - 1];
      FoundAtPositions(init);
      forall k | 0 <= k < |Found(os)|
        ensures os[Positions(os)[k]] == Some(Found(os)[k])
      {
        if k < |Found(init)| {
          assert Found(os)[k] == Found(init)[k] && Positions(os)[k] == Positions(init)[k];
          assert os[Positions(init)[k]] == init[Positions(init)[k]];
        }
      }
    }
  }

  /** A position is listed exactly when its outcome is present. */
  lemma {:induction false} PositionsMembers<T>(os: seq<Option<T>>)
    ensures forall i: nat :: i in Positions(os) <==> i < |os| && os[i].Some?
    decreases |os|
  {
    if os != [] {
      var init := os[..|os| - 1];
      PositionsMembers(init);
      var last := if os[|os| - 1].Some? then [|os| - 1] else [];
      forall i: nat
        ensures i in Positions(init) + last <==> i < |os| && os[i].Some?
      {
        assert i in Positions(init) + last <==> i in Positions(init) || i in last;
        if i < |init| {
          assert os[i] == init[i];
        }
      }
    }
  }

  predicate Increasing(s: seq<nat>) {
    forall j, k :: 0 <= j < k < |s| ==> s[j] < s[k]
  }

  /** Positions are listed in strictly increasing order. */
  lemma {:induction false} PositionsIncreasing<T>(os: seq<Option<T>>)
    ensures Increasing(Positions(os))
    decreases |os|
  {
    if os != [] {
      var init := os[..|os| - 1];
      PositionsIncreasing(init);
      if os[|os| - 1].Some? {
        AppendIncreasing(Positions(init), |os| - 1);
      }
    }
  }

  lemma AppendIncreasing(s: seq<nat>, x: nat)
    requires Increasing(s)
    requires forall j :: 0 <= j < |s| ==> s[j] < x
    ensures Increasing(s + [x])
  {
  }

  /** The modules extracted from the slots of a header, in slot order. */
  function Modules(cipher: BlockCipher, es: seq<FileEntry>, container: seq<byte>): (r: seq<Extracted>)
    requires |es| == NumIndices
    ensures |r| <= NumIndices
  {
    Found(Outcomes(cipher, es, container, NumIndices))
  }

  /** The slots extracted from, in slot order. */
  function ValidSlots(cipher: BlockCipher, es: seq<FileEntry>, container: seq<byte>): (r: seq<nat>)
    requires |es| == NumIndices
    ensures forall j :: 0 <= j < |r| ==> r[j] < NumIndices
    ensures Increasing(r)
  {
    var os := Outcomes(cipher, es, container, NumIndices);
    PositionsIncreasing(os);
    Positions(os)
  }

  /** What `extract_pak` produces for a pack and an optional program: the
      header's exception, or the description and the extracted modules. */
  function PackResult(cipher: BlockCipher, container: seq<byte>, program: Option<seq<byte>>): (r: Result<Pack, Error>)
    ensures r.Err? <==> HeaderResult(cipher, container, program).Err?
    ensures r.Err? ==> r.error == HeaderResult(cipher, container, program).error
    ensures r.Ok? ==> r.value.count == |r.value.modules| <= NumIndices
  {
    match HeaderResult(cipher, container, program)
    case Err(e) => Err(e)
    case Ok(header) =>
      var modules := Modules(cipher, Entries(header), container);
      Ok(Pack(PackInfo(header), modules, |modules|))
  }

  /** `extract_pak`, with the pack and the program given as their bytes and
      the written files returned instead of written. */
  method ExtractPak(cipher: BlockCipher, container: seq<byte>, program: Option<seq<byte>>)
    returns (r: Result<Pack, Error>)
    ensures r == PackResult(cipher, container, program)
  {
    var decrypted := DecryptHeader(cipher, container, program);
    if decrypted.Err? {
      return Err(decrypted.error);
    }
    var header := decrypted.value;
    var info := PackInfo(header);
    var modules, numModulesFound := ExtractSlots(cipher, header, container);
    r := Ok(Pack(info, modules, numModulesFound));
  }

  /** The slot loop of `extract_pak`: slots 0 to 63 in order, each valid one
      read, typed, named and counted. */
  method ExtractSlots(cipher: BlockCipher, header: seq<byte>, container: seq<byte>)
    returns (modules: seq<Extracted>, numModulesFound: nat)
    requires |header| >= EntrySize * NumIndices
    ensures modules == Modules(cipher, Entries(header), container)
    ensures numModulesFound == |modules|
  {
    ghost var os := Outcomes(cipher, Entries(header), container, NumIndices);
    modules := [];
    numModulesFound := 0;
    for index := 0 to NumIndices
      invariant modules == Found(os[..index])
      invariant numModulesFound == |modules|
    {
      var found := ExtractSlot(cipher, header, container, index);
      FoundPrefix(os, index);
      if found.Some? {
        modules := modules + [found.value];
        numModulesFound := numModulesFound + 1;
      }
    }
    assert os[..NumIndices] == os;
  }

  /** One turn of the slot loop: the module of slot `index`, or None when the
      slot is empty or points past the end of the pack. */
  method ExtractSlot(cipher: BlockCipher, header: seq<byte>, container: seq<byte>, index: nat)
    returns (found: Option<Extracted>)
    requires |header| >= EntrySize * NumIndices && index < NumIndices
    ensures found == Outcomes(cipher, Entries(header), container, NumIndices)[index]
  {
    OutcomeAt(cipher, Entries(header), container, NumIndices, index);
    var eof := |container|;
    var offset := EntrySize * index;
    var entryRaw := Slice(header, offset, offset + EntrySize);
    var entry := FromBytes(entryRaw).value;
    assert entry == Entries(header)[index];
    if entry.size != 0 && entry.offset + entry.size <= eof {
      var moduleBuffer := ReadFromFile(cipher, entry, container);
      var filename := SaveModuleName(moduleBuffer, index);
      found := Some(Extracted(index, filename, moduleBuffer));
    } else {
      found := None;
    }
  }

  /** A slot is extracted from exactly when it is valid. */
  lemma ValidSlotsMembers(cipher: BlockCipher, es: seq<FileEntry>, container: seq<byte>)
    requires |es| == NumIndices
    ensures forall i: nat :: i in ValidSlots(cipher, es, container) <==> i < NumIndices && IsValid(es[i], |container|)
  {
    var os := Outcomes(cipher, es, container, NumIndices);
    PositionsMembers(os);
    forall i: nat | i < NumIndices
      ensures os[i].Some? <==> IsValid(es[i], |container|)
    {
      OutcomeAt(cipher, es, container, NumIndices, i);
    }
  }

  /** A module that slot `p` yields: it carries the slot's index, holds as
      many bytes as the slot says, and is the slot's extraction. */
  lemma OutcomeModule(cipher: BlockCipher, es: seq<FileEntry>, container: seq<byte>, p: nat, m: Extracted)
    requires p < |es| == NumIndices
    requires Outcomes(cipher, es, container, NumIndices)[p] == Some(m)
    ensures m == Extraction(cipher, es[p], container, p)
    ensures m.index == p && IsValid(es[p], |container|) && |m.data| == es[p].size
  {
    OutcomeAt(cipher, es, container, NumIndices, p);
  }

  /** Every module extracted comes from a valid slot and holds exactly as
      many bytes as the slot says; there is one per valid slot, and modules
      come in strictly increasing slot order, so no two share a file name. */
  lemma ExtractedModules(cipher: BlockCipher, es: seq<FileEntry>, container: seq<byte>)
    requires |es| == NumIndices
    ensures var ms, vs := Modules(cipher, es, container), ValidSlots(cipher, es, container);
            && |ms| == |vs|
            && (forall k :: 0 <= k < |ms| ==>
                  ms[k].index == vs[k]
                  && ms[k].index < NumIndices
                  && IsValid(es[ms[k].index], |container|)
                  && |ms[k].data| == es[ms[k].index].size)
            && (forall j, k :: 0 <= j < k < |ms| ==> ms[j].index < ms[k].index && ms[j].filename != ms[k].filename)
  {
    var os := Outcomes(cipher, es, container, NumIndices);
    var ms, ps := Found(os), Positions(os);
    FoundAtPositions(os);
    PositionsIncreasing(os);
    forall k | 0 <= k < |ms|
      ensures ms[k].index == ps[k] && ms[k].index < NumIndices && IsValid(es[ms[k].index], |container|)
              && |ms[k].data| == es[ms[k].index].size
    {
      OutcomeModule(cipher, es, container, ps[k], ms[k]);
    }
    forall j, k | 0 <= j < k < |ms|
      ensures ms[j].index < ms[k].index && ms[j].filename != ms[k].filename
    {
      OutcomeModule(cipher, es, container, ps[j], ms[j]);
      OutcomeModule(cipher, es, container, ps[k], ms[k]);
      DistinctNames(cipher, es, container, ps[j], ps[k]);
    }
  }

  /** Modules extracted from two different slots have different names. */
  lemma DistinctNames(cipher: BlockCipher, es: seq<FileEntry>, container: seq<byte>, i: nat, j: nat)
    requires i < |es| && j < |es| && i != j
    ensures Extraction(cipher, es[i], container, i).filename != Extraction(cipher, es[j], container, j).filename
  {
    var di, dj := ModuleData(cipher, es[i], container), ModuleData(cipher, es[j], container);
    var ti, tj := ModuleType(di), ModuleType(dj);
    FileNamesDistinct(i, j, ti.name, tj.name, ti.moduleType, tj.moduleType);
  }

  /** Extracting a pack whose header decrypts yields the modules of that
      header's slots, one per valid slot, as `ExtractedModules` describes. */
  lemma PackModules(cipher: BlockCipher, container: seq<byte>, program: Option<seq<byte>>)
    requires PackResult(cipher, container, program).Ok?
    ensures var es := Entries(HeaderResult(cipher, container, program).value);
            && PackResult(cipher, container, program).value.modules == Modules(cipher, es, container)
            && PackResult(cipher, container, program).value.count == |ValidSlots(cipher, es, container)|
  {
    var es := Entries(HeaderResult(cipher, container, program).value);
    FoundAtPositions(Outcomes(cipher, es, container, NumIndices));
  }
}
