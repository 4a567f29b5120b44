/** Bytes of a std::string / fbstring and the shared digit tables that the
    escaping, hex and URI routines look bytes up in. */
module Bytes {

  /** One byte of a string, as the value the library reads through
      `static_cast<unsigned char>`. The subset of `char` lets string literals
      stand for byte strings. */
  type byte = c: char | c as int < 256

  type bytes = seq<byte>

  function ByteOf(n: int): (b: byte)
    requires 0 <= n < 256
    ensures b as int == n
  {
    n as char
  }

  /** `hexValues`: the lower-case digits every encoder in the library emits. */
  const HexValues: bytes := "0123456789abcdef"

  /** The hex digit for a nibble, looked up in `hexValues`. */
  function LowerHex(v: int): (d: byte)
    requires 0 <= v < 16
    ensures IsHexDigit(d) && !('A' <= d <= 'F')
    ensures HexTable(d) == v
  {
    assert |HexValues| == 16;
    HexValues[v]
  }

  /** The sixteen entries of `hexValues`. */
  lemma LowerHexDigits()
    ensures LowerHex(0) == '0' && LowerHex(1) == '1' && LowerHex(2) == '2' && LowerHex(3) == '3'
    ensures LowerHex(4) == '4' && LowerHex(5) == '5' && LowerHex(6) == '6' && LowerHex(7) == '7'
    ensures LowerHex(8) == '8' && LowerHex(9) == '9' && LowerHex(10) == 'a' && LowerHex(11) == 'b'
    ensures LowerHex(12) == 'c' && LowerHex(13) == 'd' && LowerHex(14) == 'e' && LowerHex(15) == 'f'
  {
  }

  /** The test's `isHex`: a decimal digit or a letter a-f in either case. */
  predicate IsHexDigit(b: byte)
  {
    ('0' <= b <= '9') || ('A' <= b <= 'F') || ('a' <= b <= 'f')
  }

  /** `detail::hexTable`: the value of a hex digit of either case, and 16 for
      every other byte. */
  function HexTable(b: byte): (v: int)
    ensures 0 <= v <= 16
    ensures v < 16 <==> IsHexDigit(b)
  {
    if '0' <= b <= '9' then b as int - '0' as int
    else if 'a' <= b <= 'f' then b as int - 'a' as int + 10
    else if 'A' <= b <= 'F' then b as int - 'A' as int + 10
    else 16
  }

  /** The byte two hex digits denote, high nibble first. */
  function HexPair(hi: byte, lo: byte): (b: byte)
    requires IsHexDigit(hi) && IsHexDigit(lo)
  {
    ByteOf(16 * HexTable(hi) + HexTable(lo))
  }

  /** A byte that `uriEscape`, `cEscape` and `backslashify` may leave in
      their output: the test's `expectPrintable` bound 32..127. */
  predicate IsPrintable(b: byte)
  {
    32 <= b as int <= 127
  }

  predicate AllPrintable(s: bytes)
  {
    forall i | 0 <= i < |s| :: IsPrintable(s[i])
  }

  // Sequence facts, proved once here so that proofs about the string
  // routines need not rediscover them.

  lemma ConcatAssoc<T>(a: seq<T>, b: seq<T>, c: seq<T>)
    ensures (a + b) + c == a + (b + c)
  {
  }

  lemma PrefixJoin<T>(s: seq<T>, j: nat, k: nat)
    requires j <= k <= |s|
    ensures s[..j] + s[j..k] == s[..k]
  {
  }

  lemma PrefixNext<T>(s: seq<T>, j: nat)
    requires j < |s|
    ensures s[..j] + [s[j]] == s[..j + 1]
  {
  }

  lemma SuffixSplit<T>(s: seq<T>, j: nat, k: nat)
    requires j <= k <= |s|
    ensures s[j..] == s[j..k] + s[k..]
  {
  }

  lemma DropDrop<T>(s: seq<T>, j: nat, k: nat)
    requires j + k <= |s|
    ensures s[j..][k..] == s[j + k..]
  {
  }

  lemma DropSlice<T>(s: seq<T>, q: nat, i: nat, j: nat)
    requires i <= j && q + j <= |s|
    ensures s[q..][i..j] == s[q + i..q + j]
  {
  }

  lemma SliceInit<T>(s: seq<T>, i: nat, k: nat)
    requires i < k <= |s|
    ensures s[i..k][..k - 1 - i] == s[i..k - 1]
  {
  }

  lemma SliceCons<T>(s: seq<T>, i: nat, k: nat)
    requires i < k <= |s|
    ensures [s[i]] + s[i + 1..k] == s[i..k]
  {
  }

  lemma PrefixGrows<T>(a: seq<T>, b: seq<T>, c: seq<T>)
    requires a <= b
    ensures a <= b + c
  {
    assert (b + c)[..|a|] == b[..|a|];
  }
}
