/** Shared vocabulary of the unpacker: bytes, optional values, results and
    the exceptions the core raises, plus Python's clipped slicing. */
module Base {

  /** One byte of a Python `bytes` object. */
  type byte = x: int | 0 <= x < 256

  datatype Option<+T> = None | Some(value: T)

  datatype Result<+T, +E> = Ok(value: T) | Err(error: E)

  /** The exceptions that escape the core (or are caught inside it). */
  datatype Error =
    | IndexError                        // size beyond the buffer, or header[0x544] past the end
    | UnicodeDecodeError                // a byte >= 0x80 met by bytes.decode("ascii")
    | StructError                       // struct.unpack("<IIII") on anything but 16 bytes
    | FailedDecryptHeader(lockName: string) // pack locked to a program that was not supplied

  function Min(a: int, b: int): int { if a <= b then a else b }

  function Max(a: int, b: int): int { if a <= b then b else a }

  /** `n` zero bytes, as `b"\x00" * n`. */
  function Zeros(n: nat): (r: seq<byte>)
    ensures |r| == n
    ensures forall i :: 0 <= i < n ==> r[i] == 0
  {
    seq(n, _ => 0)
  }

  /** Python's `s[lo:hi]` for non-negative bounds: both ends are clipped to
      the sequence, and an empty range gives an empty slice. */
  function Slice<T>(s: seq<T>, lo: nat, hi: nat): (r: seq<T>)
    ensures |r| == Max(0, Min(hi, |s|) - lo)
    ensures lo <= hi <= |s| ==> r == s[lo..hi]
    ensures forall i :: 0 <= i < |r| ==> r[i] == s[lo + i]
  {
    var h := Min(hi, |s|);
    if lo <= h then s[lo..h] else []
  }

  /** Python's `^` on non-negative integers, bit by bit from the lowest. */
  function Xor(a: nat, b: nat): nat
    decreases a + b
  {
    if a == 0 then b
    else if b == 0 then a
    else 2 * Xor(a / 2, b / 2) + (a + b) % 2
  }

  /** XOR of two bytes, which is again a byte. */
  function XorByte(a: byte, b: byte): (r: byte)
    ensures r == Xor(a, b)
  {
    XorBelow(a, b, 256);
    Xor(a, b)
  }

  /** Dropping the lowest bit of an XOR is XORing the dropped halves, and its
      lowest bit is the sum of the two lowest bits modulo 2. */
  lemma XorHalves(a: nat, b: nat)
    ensures Xor(a, b) / 2 == Xor(a / 2, b / 2)
    ensures Xor(a, b) % 2 == (a + b) % 2
  {
  }

  /** XOR of two values below a power of two stays below it. */
  lemma {:induction false} XorBelow(a: nat, b: nat, m: nat)
    requires m in {1, 2, 4, 8, 16, 32, 64, 128, 256}
    requires a < m && b < m
    ensures Xor(a, b) < m
    decreases m
  {
    if a != 0 && b != 0 {
      XorBelow(a / 2, b / 2, m / 2);
    }
  }

  lemma {:induction false} XorCommutes(a: nat, b: nat)
    ensures Xor(a, b) == Xor(b, a)
    decreases a + b
  {
    if a != 0 && b != 0 {
      XorCommutes(a / 2, b / 2);
    }
  }

  lemma {:induction false} XorAssociates(a: nat, b: nat, c: nat)
    ensures Xor(Xor(a, b), c) == Xor(a, Xor(b, c))
    decreases a + b + c
  {
    if a != 0 && b != 0 && c != 0 {
      var ab, bc := Xor(a, b), Xor(b, c);
      var l, r := Xor(ab, c), Xor(a, bc);
      XorHalves(a, b);
      XorHalves(b, c);
      XorHalves(ab, c);
      XorHalves(a, bc);
      assert l / 2 == r / 2 by {
        XorAssociates(a / 2, b / 2, c / 2);
      }
      assert l % 2 == r % 2 by {
        SameParity(ab, a + b, c);
        SameParity(bc, b + c, a);
      }
      assert l == 2 * (l / 2) + l % 2;
      assert r == 2 * (r / 2) + r % 2;
    }
  }

  lemma SameParity(x: nat, y: nat, c: nat)
    requires x % 2 == y % 2
    ensures (x + c) % 2 == (y + c) % 2
  {
  }

  lemma {:induction false} XorSelf(a: nat)
    ensures Xor(a, a) == 0
    decreases a
  {
    if a != 0 {
      XorSelf(a / 2);
    }
  }

  /** XORing twice with the same value restores the input. */
  lemma XorTwice(a: nat, b: nat)
    ensures Xor(Xor(a, b), b) == a
  {
    XorAssociates(a, b, b);
    XorSelf(b);
  }

  /** XOR with a non-zero value changes its input. */
  lemma XorChanges(a: nat, b: nat)
    requires b != 0
    ensures Xor(a, b) != a
  {
    if Xor(a, b) == a {
      XorCommutes(a, b);
      XorTwice(b, a);
      assert false;
    }
  }
}
