/** The file name `save_module` gives an extracted module: the slot index,
    then the song name with every character a file system may refuse
    removed, then the extension of the detected type. */
module FileName {
  import opened Base
  import opened Ascii
  import opened Sniffer

  // The punctuation the name-cleaning pattern removes: backslash, dot,
  // slash, star, question mark, colon, double quote, angle brackets, bar, bang.
  const ForbiddenChars: string := "\\./*?:\"<>|!"

  /** A character the name-cleaning pattern removes. */
  predicate Forbidden(c: char) {
    c in ForbiddenChars || IsControl(c)
  }

  /** A name with no forbidden character and no white space at either end. */
  predicate IsClean(s: string) {
    (forall i :: 0 <= i < |s| ==> !Forbidden(s[i]))
    && (s != [] ==> !IsSpace(s[0]) && !IsSpace(s[|s| - 1]))
  }

  /** The `re.sub` of `save_module`: every forbidden character removed, a
      string without any kept whole, one made only of them emptied. */
  function RemoveForbidden(s: string): (r: string)
    ensures |r| <= |s|
    ensures forall i :: 0 <= i < |r| ==> !Forbidden(r[i])
    ensures (forall i :: 0 <= i < |s| ==> !Forbidden(s[i])) ==> r == s
    ensures (forall i :: 0 <= i < |s| ==> Forbidden(s[i])) ==> r == []
    decreases |s|
  {
    if s == [] then []
    else (if Forbidden(s[0]) then [] else [s[0]]) + RemoveForbidden(s[1..])
  }

  /** The cleaned name: forbidden characters removed, then stripped. A name
      that is clean already is kept as it is. */
  function CleanName(name: string): (r: string)
    ensures |r| <= |name|
    ensures forall i :: 0 <= i < |r| ==> !Forbidden(r[i])
    ensures r != [] ==> !IsSpace(r[0]) && !IsSpace(r[|r| - 1])
    ensures IsClean(name) ==> r == name
  {
    var s := RemoveForbidden(name);
    StripAllowed(s);
    Strip(s)
  }

  /** Removing forbidden characters acts on each character on its own: it
      distributes over concatenation, keeping the others in order. */
  lemma {:induction false} RemoveForbiddenAppend(a: string, b: string)
    ensures RemoveForbidden(a + b) == RemoveForbidden(a) + RemoveForbidden(b)
    decreases |a|
  {
    if a == [] {
      assert a + b == b;
    } else {
      assert (a + b)[1..] == a[1..] + b;
      RemoveForbiddenAppend(a[1..], b);
    }
  }

  /** Stripping keeps only characters of the string stripped. */
  lemma StripAllowed(s: string)
    requires forall i :: 0 <= i < |s| ==> !Forbidden(s[i])
    ensures forall i :: 0 <= i < |Strip(s)| ==> !Forbidden(Strip(s)[i])
  {
    var r := Strip(s);
    forall i | 0 <= i < |r|
      ensures !Forbidden(r[i])
    {
      assert r[i] == s[StripStart(s) + i];
    }
  }

  predicate IsDigit(c: char) {
    '0' <= c <= '9'
  }

  function Digit(d: nat): (c: char)
    requires d < 10
    ensures IsDigit(c)
  {
    ('0' as int + d) as char
  }

  /** `str(n)` for a non-negative integer: its decimal digits, no leading zero. */
  function Decimal(n: nat): (s: string)
    ensures s != []
    ensures forall i :: 0 <= i < |s| ==> IsDigit(s[i])
    decreases n
  {
    if n < 10 then [Digit(n)] else Decimal(n / 10) + [Digit(n % 10)]
  }

  /** The value of a string of decimal digits. */
  function Parse(s: string): nat
    requires forall i :: 0 <= i < |s| ==> IsDigit(s[i])
    decreases |s|
  {
    if s == [] then 0 else 10 * Parse(s[..|s| - 1]) + DigitValue(s[|s| - 1])
  }

  function DigitValue(c: char): (d: nat)
    requires IsDigit(c)
    ensures d < 10
  {
    c as int - '0' as int
  }

  lemma {:induction false} ParseDecimal(n: nat)
    ensures Parse(Decimal(n)) == n
    decreases n
  {
    if n >= 10 {
      var s := Decimal(n);
      assert s[..|s| - 1] == Decimal(n / 10);
      ParseDecimal(n / 10);
    }
  }

  /** The length of the run of digits a string starts with. */
  function DigitRun(s: string): (n: nat)
    ensures n <= |s|
    ensures forall i :: 0 <= i < n ==> IsDigit(s[i])
    decreases |s|
  {
    if s == [] || !IsDigit(s[0]) then 0 else 1 + DigitRun(s[1..])
  }

  /** The index a file name starts with. */
  function LeadingIndex(filename: string): nat {
    Parse(filename[..DigitRun(filename)])
  }

  lemma {:induction false} DigitRunAppend(digits: string, rest: string)
    requires forall i :: 0 <= i < |digits| ==> IsDigit(digits[i])
    requires rest != [] ==> !IsDigit(rest[0])
    ensures DigitRun(digits + rest) == |digits|
    decreases |digits|
  {
    if digits == [] {
      assert digits + rest == rest;
    } else {
      assert (digits + rest)[1..] == digits[1..] + rest;
      DigitRunAppend(digits[1..], rest);
    }
  }

  /** What follows the index in a file name: " {clean}" unless the cleaned
      name is empty, then ".{filetype}" unless the type is empty. It starts
      with a space or a dot, never with a digit, and ends with the
      extension. */
  function Suffix(clean: string, filetype: string): (r: string)
    ensures r != [] ==> r[0] == ' ' || r[0] == '.'
    ensures filetype != [] ==> |r| > |filetype| && r[|r| - |filetype| - 1..] == "." + filetype
  {
    var titled := if clean != [] then " " + clean else "";
    if filetype != [] then
      EndsWith(titled, "." + filetype);
      titled + ("." + filetype)
    else titled
  }

  /** The name `save_module` builds: "{index} {clean}" or, when the cleaned
      name is empty, "{index}"; then joined with the type by a dot unless the
      type is empty. */
  function ModuleFileName(index: nat, name: string, filetype: string): (r: string)
    ensures filetype != [] ==> |r| > |filetype| && r[|r| - |filetype| - 1..] == "." + filetype
    ensures r == Decimal(index) + (if CleanName(name) != [] then " " + CleanName(name) else [])
                 + (if filetype != [] then "." + filetype else [])
  {
    var d, suffix := Decimal(index), Suffix(CleanName(name), filetype);
    if filetype != [] then
      SameEnd(d, suffix, |filetype| + 1);
      d + suffix
    else d + suffix
  }

  lemma EndsWith(a: string, b: string)
    ensures (a + b)[|a|..] == b
  {
  }

  /** The last n characters of a + b are those of b. */
  lemma SameEnd(a: string, b: string, n: nat)
    requires n <= |b|
    ensures (a + b)[|a + b| - n..] == b[|b| - n..]
  {
  }

  /** The file name starts with the index and nothing else: the index can be
      read back from it. */
  lemma FileNameIndex(index: nat, name: string, filetype: string)
    ensures LeadingIndex(ModuleFileName(index, name, filetype)) == index
  {
    IndexReadBack(index, Suffix(CleanName(name), filetype));
  }

  /** A decimal index followed by anything not starting with a digit reads
      back as that index. */
  lemma IndexReadBack(n: nat, rest: string)
    requires rest != [] ==> !IsDigit(rest[0])
    ensures LeadingIndex(Decimal(n) + rest) == n
  {
    var d := Decimal(n);
    DigitRunAppend(d, rest);
    assert (d + rest)[..|d|] == d;
    ParseDecimal(n);
  }

  /** Modules from different slots never share a file name. */
  lemma FileNamesDistinct(i: nat, j: nat, name1: string, name2: string, type1: string, type2: string)
    requires i != j
    ensures ModuleFileName(i, name1, type1) != ModuleFileName(j, name2, type2)
  {
    FileNameIndex(i, name1, type1);
    FileNameIndex(j, name2, type2);
  }

  predicate NoDot(s: string) {
    forall k :: 0 <= k < |s| ==> s[k] != '.'
  }

  /** The cleaned name holds no dot: the dot is one of the removed characters. */
  lemma CleanNameNoDot(name: string)
    ensures NoDot(CleanName(name))
  {
    var clean := CleanName(name);
    assert ForbiddenChars[1] == '.';
    forall k | 0 <= k < |clean|
      ensures clean[k] != '.'
    {
      assert !Forbidden(clean[k]);
    }
  }

  /** With a dot-free name and type, the only dot of the suffix is the one
      before the type. */
  lemma SuffixDots(clean: string, filetype: string)
    requires NoDot(clean) && NoDot(filetype)
    ensures var r := Suffix(clean, filetype);
            forall k :: 0 <= k < |r| && r[k] == '.' ==> filetype != [] && k == |r| - |filetype| - 1
  {
    var r := Suffix(clean, filetype);
    var titled := if clean != [] then " " + clean else "";
    assert NoDot(titled) by {
      if clean != [] {
        assert forall j :: 0 < j < |titled| ==> titled[j] == clean[j - 1];
      }
    }
    forall k | 0 <= k < |r| && !(filetype != [] && k == |r| - |filetype| - 1)
      ensures r[k] != '.'
    {
      if filetype != [] && k > |titled| {
        assert r[k] == filetype[k - |titled| - 1];
      } else {
        assert r[k] == titled[k];
      }
    }
  }

  /** The cleaned name holds no dot, so with an extension that holds none
      either, the only dot in the file name is the one before the extension. */
  lemma OnlyDotIsExtension(index: nat, name: string, filetype: string)
    requires NoDot(filetype)
    ensures var r := ModuleFileName(index, name, filetype);
            forall k :: 0 <= k < |r| && r[k] == '.' ==> filetype != [] && k == |r| - |filetype| - 1
  {
    var d, clean := Decimal(index), CleanName(name);
    var suffix := Suffix(clean, filetype);
    CleanNameNoDot(name);
    SuffixDots(clean, filetype);
    var r := ModuleFileName(index, name, filetype);
    forall k | 0 <= k < |r| && !(filetype != [] && k == |r| - |filetype| - 1)
      ensures r[k] != '.'
    {
      if k < |d| {
        assert r[k] == d[k] && IsDigit(d[k]);
      } else {
        assert r[k] == suffix[k - |d|];
      }
    }
  }

  /** The name `save_module` returns for a module buffer in slot `index`:
      the detected type is never empty, so the name always ends with a dot
      and one of the five extensions. */
  function SaveModuleName(buf: seq<byte>, index: nat): (r: string)
    ensures var t := ModuleType(buf).moduleType;
            t in ModuleTypes && |r| > |t| && r[|r| - |t| - 1..] == "." + t
    ensures LeadingIndex(r) == index
  {
    var detection := ModuleType(buf);
    TypesNotEmpty(detection.moduleType);
    FileNameIndex(index, detection.name, detection.moduleType);
    ModuleFileName(index, detection.name, detection.moduleType)
  }

  /** Every extension is a short word without a dot. */
  lemma TypesNotEmpty(t: string)
    requires t in ModuleTypes
    ensures 2 <= |t| <= 3
    ensures NoDot(t)
  {
  }

  /** Worked example: slot 3 named "A/B*C" of type mod is saved as "3 ABC.mod". */
  lemma ExampleNamed(index: nat, name: string, filetype: string)
    requires index == 3 && name == "A/B*C" && filetype == "mod"
    ensures ModuleFileName(index, name, filetype) == "3 ABC.mod"
  {
    ExampleCleaned(name);
    NamedFileName(index, name, filetype);
    ExampleJoinedName(Decimal(index), CleanName(name), filetype);
  }

  /** A name that survives cleaning and a non-empty type: index, blank,
      cleaned name, dot, type. */
  lemma NamedFileName(index: nat, name: string, filetype: string)
    requires CleanName(name) != [] && filetype != []
    ensures ModuleFileName(index, name, filetype) == Decimal(index) + " " + CleanName(name) + "." + filetype
  {
  }

  lemma ExampleJoinedName(d: string, clean: string, filetype: string)
    requires d == ['3'] && clean == "ABC" && filetype == "mod"
    ensures d + " " + clean + "." + filetype == "3 ABC.mod"
  {
  }

  /** Worked example: slot 7 with no name, of type bin, is saved as "7.bin". */
  lemma ExampleUnnamed(index: nat, name: string, filetype: string)
    requires index == 7 && name == [] && filetype == "bin"
    ensures ModuleFileName(index, name, filetype) == "7.bin"
  {
    var d, clean := Decimal(index), CleanName(name);
    assert d == ['7'];
    assert clean == [];
    assert ModuleFileName(index, name, filetype) == d + "." + filetype;
    ExampleJoinedUnnamed(d, filetype);
  }

  lemma ExampleJoinedUnnamed(d: string, filetype: string)
    requires d == ['7'] && filetype == "bin"
    ensures d + "." + filetype == "7.bin"
  {
  }

  lemma ExampleCleaned(name: string)
    requires name == "A/B*C"
    ensures CleanName(name) == "ABC"
  {
    ExampleNameRemoved(name);
    var s := RemoveForbidden(name);
    assert !IsSpace(s[0]) && !IsSpace(s[2]);
    assert Strip(s) == s;
  }

  lemma ExampleNameRemoved(name: string)
    requires name == "A/B*C"
    ensures RemoveForbidden(name) == "ABC"
  {
    assert ForbiddenChars[2] == '/' && ForbiddenChars[3] == '*';
    AlternateRemoved('A', '/', 'B', '*', 'C');
    assert name == ['A', '/', 'B', '*', 'C'];
  }

  /** Allowed characters alternating with forbidden ones keep the allowed. */
  lemma AlternateRemoved(x: char, f: char, y: char, g: char, z: char)
    requires !Forbidden(x) && !Forbidden(y) && !Forbidden(z)
    requires Forbidden(f) && Forbidden(g)
    ensures RemoveForbidden([x, f, y, g, z]) == [x, y, z]
  {
    assert [x, f, y, g, z] == [x, f] + [y, g] + [z];
    RemoveForbiddenAppend([x, f] + [y, g], [z]);
    RemoveForbiddenAppend([x, f], [y, g]);
    KeepThenDrop(x, f);
    KeepThenDrop(y, g);
  }

  /** An allowed character followed by a forbidden one leaves the first. */
  lemma KeepThenDrop(c: char, f: char)
    requires !Forbidden(c) && Forbidden(f)
    ensures RemoveForbidden([c, f]) == [c]
  {
    assert [c, f][1..] == [f];
  }
}
