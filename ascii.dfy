/** `decode_as_ascii`: bytes are decoded as ASCII (any byte >= 0x80 raises
    UnicodeDecodeError), every character 0x00-0x1F is removed, and the result
    is stripped of leading and trailing whitespace as `str.strip()` does. */
module Ascii {
  import opened Base

  /** The characters Python's `str.isspace` accepts, which `strip()` removes. */
  predicate IsSpace(c: char) {
    var n := c as int;
    n == 0x20 || 0x09 <= n <= 0x0D || 0x1C <= n <= 0x1F
    || n == 0x85 || n == 0xA0 || n == 0x1680 || 0x2000 <= n <= 0x200A
    || n == 0x2028 || n == 0x2029 || n == 0x202F || n == 0x205F || n == 0x3000
  }

  /** A character the pattern `[\x00-\x1f]` matches. */
  predicate IsControl(c: char) {
    c as int < 0x20
  }

  /** `re.sub(r"[\x00-\x1f]", "", s)`: control characters go, a string
      without any is kept whole, and one made only of them disappears. */
  function RemoveControls(s: string): (r: string)
    ensures |r| <= |s|
    ensures forall i :: 0 <= i < |r| ==> !IsControl(r[i])
    ensures (forall i :: 0 <= i < |s| ==> !IsControl(s[i])) ==> r == s
    ensures (forall i :: 0 <= i < |s| ==> IsControl(s[i])) ==> r == []
    ensures (forall i :: 0 <= i < |s| ==> s[i] as int < 0x80) ==> forall i :: 0 <= i < |r| ==> r[i] as int < 0x80
    decreases |s|
  {
    if s == [] then []
    else (if IsControl(s[0]) then [] else [s[0]]) + RemoveControls(s[1..])
  }

  /** The index of the first non-whitespace character, |s| if there is none. */
  function StripStart(s: string): (n: nat)
    ensures n <= |s|
    ensures forall k :: 0 <= k < n ==> IsSpace(s[k])
    ensures n < |s| ==> !IsSpace(s[n])
    decreases |s|
  {
    if s == [] || !IsSpace(s[0]) then 0 else 1 + StripStart(s[1..])
  }

  /** One past the last non-whitespace character, 0 if there is none. */
  function StripEnd(s: string): (n: nat)
    ensures n <= |s|
    ensures forall k :: n <= k < |s| ==> IsSpace(s[k])
    ensures n > 0 ==> !IsSpace(s[n - 1])
    decreases |s|
  {
    if s == [] || !IsSpace(s[|s| - 1]) then |s| else StripEnd(s[..|s| - 1])
  }

  /** `s.strip()`: the slice between the leading and the trailing whitespace;
      a string that neither starts nor ends with whitespace is kept whole. */
  function Strip(s: string): (r: string)
    ensures |r| <= |s|
    ensures (s != [] ==> !IsSpace(s[0]) && !IsSpace(s[|s| - 1])) ==> r == s
    ensures r != [] ==> !IsSpace(r[0]) && !IsSpace(r[|r| - 1])
    ensures r == [] <==> forall k :: 0 <= k < |s| ==> IsSpace(s[k])
    ensures r != [] ==> r == s[StripStart(s)..StripEnd(s)]
    ensures StripStart(s) + |r| <= |s| && forall i :: 0 <= i < |r| ==> r[i] == s[StripStart(s) + i]
  {
    var lo, hi := StripStart(s), StripEnd(s);
    if lo < hi then s[lo..hi]
    else
      assert forall k :: 0 <= k < |s| ==> IsSpace(s[k]) by {
        forall k | 0 <= k < |s| ensures IsSpace(s[k]) {
          if k >= lo && k < hi {
            assert false;
          }
        }
      }
      []
  }

  /** Every byte below 0x80. */
  predicate IsAscii(data: seq<byte>) {
    forall i :: 0 <= i < |data| ==> data[i] < 0x80
  }

  /** `data.decode("ascii")` when it succeeds. */
  function Chars(data: seq<byte>): (s: string)
    requires IsAscii(data)
    ensures |s| == |data|
    ensures forall i :: 0 <= i < |data| ==> s[i] as int == data[i]
  {
    seq(|data|, i requires 0 <= i < |data| => data[i] as char)
  }

  /** `s.encode("ascii")` for a string of ASCII characters. */
  function Bytes(s: string): (data: seq<byte>)
    requires forall i :: 0 <= i < |s| ==> s[i] as int < 0x80
    ensures |data| == |s|
    ensures forall i :: 0 <= i < |s| ==> data[i] == s[i] as int
  {
    seq(|s|, i requires 0 <= i < |s| => s[i] as int)
  }

  /** What `decode_as_ascii` can return: printable ASCII characters only,
      with no space at either end. */
  predicate IsDecodedName(s: string) {
    (forall i :: 0 <= i < |s| ==> 0x20 <= s[i] as int < 0x80)
    && (s != [] ==> s[0] != ' ' && s[|s| - 1] != ' ')
  }

  /** `decode_as_ascii`; None stands for the UnicodeDecodeError it raises,
      which happens exactly when some byte is 0x80 or above. The bytes of a
      name that is already clean decode to exactly that name. */
  function DecodeAscii(data: seq<byte>): (r: Option<string>)
    ensures r.None? <==> !IsAscii(data)
    ensures r.Some? ==> |r.value| <= |data| && IsDecodedName(r.value)
    ensures IsAscii(data) && IsDecodedName(Chars(data)) ==> r == Some(Chars(data))
  {
    if IsAscii(data) then
      var c := Chars(data);
      CleanedIsName(c);
      NameKept(c);
      Some(Strip(RemoveControls(c)))
    else None
  }

  /** What control removal and stripping leave of ASCII text is a clean name. */
  lemma CleanedIsName(c: string)
    requires forall i :: 0 <= i < |c| ==> c[i] as int < 0x80
    ensures IsDecodedName(Strip(RemoveControls(c)))
  {
    var s := RemoveControls(c);
    assert forall j :: 0 <= j < |s| ==> 0x20 <= s[j] as int < 0x80;
    assert IsSpace(' ');
  }

  /** A clean name passes through control removal and stripping unchanged. */
  lemma NameKept(s: string)
    ensures IsDecodedName(s) ==> Strip(RemoveControls(s)) == s
  {
    if IsDecodedName(s) {
      assert RemoveControls(s) == s;
      if s != [] {
        OnlySpaceRemains(s[0]);
        OnlySpaceRemains(s[|s| - 1]);
      }
    }
  }

  /** Past control removal, the only ASCII whitespace left is the space. */
  lemma OnlySpaceRemains(c: char)
    requires 0x20 <= c as int < 0x80
    ensures IsSpace(c) <==> c == ' '
  {
  }

  /** Removing controls shortens nothing only when there was nothing to remove. */
  lemma {:induction false} RemoveControlsSameLength(s: string)
    requires |RemoveControls(s)| == |s|
    ensures RemoveControls(s) == s
    decreases |s|
  {
    if s != [] {
      var rest := RemoveControls(s[1..]);
      if IsControl(s[0]) {
        assert false;
      }
      assert RemoveControls(s) == [s[0]] + rest;
      RemoveControlsSameLength(s[1..]);
    }
  }

  /** Stripping that keeps the length keeps the string. */
  lemma StripSameLength(s: string)
    requires |Strip(s)| == |s|
    ensures Strip(s) == s
  {
    if s != [] {
      assert StripStart(s) == 0 && StripEnd(s) == |s|;
    }
  }

  /** A decoded result as long as its input is exactly the input's characters. */
  lemma DecodedWhole(data: seq<byte>)
    requires DecodeAscii(data).Some?
    requires |DecodeAscii(data).value| == |data|
    ensures IsAscii(data) && DecodeAscii(data).value == Chars(data)
  {
    var s := RemoveControls(Chars(data));
    RemoveControlsSameLength(Chars(data));
    StripSameLength(s);
  }

  /** `decode_as_ascii` is idempotent: encoding its result and decoding that
      again gives the same string. */
  lemma DecodeIdempotent(data: seq<byte>)
    requires DecodeAscii(data).Some?
    ensures DecodeAscii(Bytes(DecodeAscii(data).value)) == DecodeAscii(data)
  {
    var r := DecodeAscii(data).value;
    var b := Bytes(r);
    assert Chars(b) == r;
  }

  /** Control removal acts on each character on its own: it distributes over
      concatenation, so it keeps every other character, in order. */
  lemma {:induction false} RemoveControlsAppend(a: string, b: string)
    ensures RemoveControls(a + b) == RemoveControls(a) + RemoveControls(b)
    decreases |a|
  {
    if a == [] {
      assert a + b == b;
    } else {
      assert (a + b)[1..] == a[1..] + b;
      RemoveControlsAppend(a[1..], b);
    }
  }

  /** The three steps of `decode_as_ascii` on ASCII input, in order. */
  lemma DecodeAsciiSteps(data: seq<byte>)
    requires IsAscii(data)
    ensures DecodeAscii(data) == Some(Strip(RemoveControls(Chars(data))))
  {
  }

  /** A worked example: `b"Song\x01 Name\x1f  "` decodes to "Song Name". */
  lemma DecodeExample(data: seq<byte>)
    requires data == [0x53, 0x6F, 0x6E, 0x67, 0x01, 0x20, 0x4E, 0x61, 0x6D, 0x65, 0x1F, 0x20, 0x20]
    ensures DecodeAscii(data) == Some("Song Name")
  {
    var chars := Chars(data);
    ExampleChars(data, chars);
    var removed := RemoveControls(chars);
    ExampleRemoved(chars, removed);
    ExampleStripped(removed);
  }

  lemma ExampleChars(data: seq<byte>, chars: string)
    requires data == [0x53, 0x6F, 0x6E, 0x67, 0x01, 0x20, 0x4E, 0x61, 0x6D, 0x65, 0x1F, 0x20, 0x20]
    requires IsAscii(data) && chars == Chars(data)
    ensures chars == "Song" + [0x01 as char] + " Name" + [0x1F as char] + "  "
  {
  }

  lemma ExampleRemoved(chars: string, removed: string)
    requires chars == "Song" + [0x01 as char] + " Name" + [0x1F as char] + "  "
    requires removed == RemoveControls(chars)
    ensures removed == "Song Name  "
  {
    var left, right := "Song" + [0x01 as char] + " Name", [0x1F as char] + "  ";
    assert chars == left + right;
    RemoveControlsAppend(left, right);
    ExampleLeft(left);
    ExampleRight(right);
    ExampleJoined();
  }

  lemma ExampleLeft(left: string)
    requires left == "Song" + [0x01 as char] + " Name"
    ensures RemoveControls(left) == "Song" + " Name"
  {
    var soh := 0x01 as char;
    NoControls("Song");
    NoControls(" Name");
    RemoveControlsAppend("Song", [soh]);
    RemoveControlsAppend("Song" + [soh], " Name");
    assert RemoveControls([soh]) == [];
    assert RemoveControls("Song" + [soh]) == "Song";
  }

  lemma ExampleRight(right: string)
    requires right == [0x1F as char] + "  "
    ensures RemoveControls(right) == "  "
  {
    NoControls("  ");
    RemoveControlsAppend([0x1F as char], "  ");
    assert RemoveControls([0x1F as char]) == [];
  }

  lemma ExampleJoined()
    ensures "Song" + " Name" + "  " == "Song Name  "
  {
  }

  lemma ExampleStripped(removed: string)
    requires removed == "Song Name  "
    ensures Strip(removed) == "Song Name"
  {
    var name := "Song Name";
    assert StripStart(removed) == 0;
    assert StripEnd(removed) == |name| by {
      assert !IsSpace(removed[|name| - 1]) && IsSpace(removed[|name|]) && IsSpace(removed[|name| + 1]);
    }
    assert Strip(removed) == removed[..|name|] == name;
  }

  lemma NoControls(s: string)
    requires forall i :: 0 <= i < |s| ==> s[i] as int >= 0x20
    ensures RemoveControls(s) == s
  {
  }
}
