/** `hexlify` writes two lower-case hex digits per byte; `unhexlify` reads
    digit pairs of either case back and reports failure with `false`. */
module HexCoding {
  import opened Wrappers
  import opened Bytes
  import opened Buffers

  /** The value `int ch = input[i]` takes where `char` is signed. */
  function SignedChar(b: byte): (v: int)
    ensures -128 <= v < 128
    ensures v % 256 == b as int
  {
    if b as int < 128 then b as int else b as int - 256
  }

  /** `(ch >> 4) & 0xf`: an arithmetic shift (a floor division by 16) and a
      two's-complement mask (a remainder modulo 16). */
  function HighNibble(b: byte): (v: int)
    ensures v == b as int / 16
  {
    var ch := SignedChar(b);
    assert ch < 0 ==> ch / 16 == b as int / 16 - 16;
    (ch / 16) % 16
  }

  /** `ch & 0xf`: the mask ignores the sign extension. */
  function LowNibble(b: byte): (v: int)
    ensures v == b as int % 16
  {
    SignedChar(b) % 16
  }

  /** The digit for the high nibble of `b`, and for its low nibble. */
  function HighDigit(b: byte): byte
  {
    LowerHex(b as int / 16)
  }

  function LowDigit(b: byte): byte
  {
    LowerHex(b as int % 16)
  }

  /** The digits `hexlify` writes for a whole input: digit `2 i` is the high
      nibble of byte `i`, digit `2 i + 1` its low nibble. */
  function Hexlify(s: bytes): (r: bytes)
    ensures |r| == 2 * |s|
    ensures forall i | 0 <= i < |s| :: r[2 * i] == HighDigit(s[i]) && r[2 * i + 1] == LowDigit(s[i])
  {
    if s == [] then []
    else
      var tail := Hexlify(s[1..]);
      assert forall i | 1 <= i < |s| :: s[i] == s[1..][i - 1];
      [HighDigit(s[0]), LowDigit(s[0])] + tail
  }

  /** Every digit is one `hexValues` entry: a lower-case hex digit. */
  lemma HexlifyDigits(s: bytes)
    ensures forall p | 0 <= p < |Hexlify(s)| :: IsHexDigit(Hexlify(s)[p]) && !('A' <= Hexlify(s)[p] <= 'F')
  {
    var r := Hexlify(s);
    forall p | 0 <= p < |r|
      ensures IsHexDigit(r[p]) && !('A' <= r[p] <= 'F')
    {
      var i := p / 2;
      if p % 2 == 0 {
        assert r[p] == r[2 * i] == HighDigit(s[i]);
      } else {
        assert r[p] == r[2 * i + 1] == LowDigit(s[i]);
      }
    }
  }

  /** One more input byte adds its two digits at the end. */
  lemma {:induction false} HexlifySnoc(s: bytes, b: byte)
    ensures Hexlify(s + [b]) == Hexlify(s) + [HighDigit(b), LowDigit(b)]
  {
    if s == [] {
      assert [] + [b] == [b];
    } else {
      assert (s + [b])[1..] == s[1..] + [b];
      HexlifySnoc(s[1..], b);
      ConcatAssoc([HighDigit(s[0]), LowDigit(s[0])], Hexlify(s[1..]), [HighDigit(b), LowDigit(b)]);
    }
  }

  /** `hexlify(input, output, append_output)`: clears `output` unless asked
      to append, grows it by two bytes per input byte, writes the digits in
      place and reports success. */
  method HexlifyInto(input: bytes, output: ByteString, appendOutput: bool) returns (ok: bool)
    modifies output
    ensures ok
    ensures output.bytes == (if appendOutput then old(output.bytes) else []) + Hexlify(input)
  {
    if !appendOutput {
      output.Clear();
    }
    ghost var prefix := output.bytes;
    var j := |output.bytes|;
    output.Resize(2 * |input| + |output.bytes|);
    assert output.bytes[..j] == prefix;
    var i := 0;
    while i < |input|
      invariant 0 <= i <= |input|
      invariant j == |prefix| + 2 * i
      invariant |output.bytes| == |prefix| + 2 * |input|
      invariant output.bytes[..j] == prefix + Hexlify(input[..i])
    {
      WriteDigits(output, j, input[i]);
      HexlifySnoc(input[..i], input[i]);
      assert input[..i + 1] == input[..i] + [input[i]];
      ConcatAssoc(prefix, Hexlify(input[..i]), [HighDigit(input[i]), LowDigit(input[i])]);
      j := j + 2;
      i := i + 1;
    }
    assert input[..i] == input;
    assert output.bytes == output.bytes[..j];
    ok := true;
  }

  /** The body of `hexlify`'s loop: the digits of `b` overwrite positions
      `j` and `j + 1`, looked up in `hexValues` by the nibbles of the signed
      `ch`. */
  method WriteDigits(output: ByteString, j: nat, b: byte)
    requires j + 2 <= |output.bytes|
    modifies output
    ensures |output.bytes| == |old(output.bytes)|
    ensures output.bytes[..j + 2] == old(output.bytes)[..j] + [HighDigit(b), LowDigit(b)]
  {
    ghost var before := output.bytes;
    output.Set(j, HexValues[HighNibble(b)]);
    output.Set(j + 1, HexValues[LowNibble(b)]);
    assert output.bytes[..j + 2] == before[..j] + [HighDigit(b), LowDigit(b)];
  }

  /** Every byte of `s` is a hex digit. */
  predicate AllHexDigits(s: bytes)
  {
    forall k | 0 <= k < |s| :: IsHexDigit(s[k])
  }

  /** What `unhexlify` accepts and produces: nothing for an odd length or a
      byte that is not a hex digit, otherwise byte `i` is the value of the
      digit pair at `2 i`. Whatever it accepts, `hexlify` writes back with
      its letters in lower case. */
  function Unhexlify(s: bytes): (r: Option<bytes>)
    ensures r.Some? <==> |s| % 2 == 0 && AllHexDigits(s)
    ensures r.Some? ==> Hexlify(r.value) == seq(|s|, p requires 0 <= p < |s| => LowerDigit(s[p]))
  {
    if |s| % 2 != 0 || !AllHexDigits(s) then None
    else
      var u := seq(|s| / 2, i requires 0 <= i < |s| / 2 => HexPair(s[2 * i], s[2 * i + 1]));
      HexlifyPairs(s, u);
      Some(u)
  }

  /** `unhexlify(input, output)`: an odd length fails before `output` is
      touched; otherwise `output` is resized to half the input and filled
      pair by pair, failing at the first pair that is not two hex digits. */
  method UnhexlifyInto(input: bytes, output: ByteString) returns (ok: bool)
    modifies output
    ensures ok <==> Unhexlify(input).Some?
    ensures ok ==> output.bytes == Unhexlify(input).value
    ensures !ok && |input| % 2 != 0 ==> output.bytes == old(output.bytes)
    ensures !ok && |input| % 2 == 0 ==> |output.bytes| == |input| / 2
  {
    if |input| % 2 != 0 {
      return false;
    }
    output.Resize(|input| / 2);
    var i, j := 0, 0;
    while i < |input|
      invariant i % 2 == 0 && 0 <= i <= |input|
      invariant j == i / 2
      invariant |output.bytes| == |input| / 2
      invariant forall k | 0 <= k < i :: IsHexDigit(input[k])
      invariant forall k | 0 <= k < j :: output.bytes[k] == HexPair(input[2 * k], input[2 * k + 1])
    {
      var highBits := HexTable(input[i]);
      var lowBits := HexTable(input[i + 1]);
      if highBits == 16 || lowBits == 16 {
        return false;
      }
      output.Set(j, HexPair(input[i], input[i + 1]));
      i, j := i + 2, j + 1;
    }
    ok := true;
  }

  /** The two digits of a byte read back as that byte. */
  lemma HexPairOfDigits(b: byte)
    ensures HexPair(HighDigit(b), LowDigit(b)) == b
  {
  }

  /** Reading back what `hexlify` wrote gives the input. */
  lemma UnhexlifyHexlify(s: bytes)
    ensures Unhexlify(Hexlify(s)) == Some(s)
  {
    forall i | 0 <= i < |s|
      ensures IsHexDigit(Hexlify(s)[2 * i]) && IsHexDigit(Hexlify(s)[2 * i + 1])
      ensures HexPair(Hexlify(s)[2 * i], Hexlify(s)[2 * i + 1]) == s[i]
    {
      PairReadsBack(s, i);
    }
    UnhexlifyPairs(Hexlify(s), s);
  }

  /** `unhexlify` accepts a string of digit pairs and gives the byte of each. */
  lemma UnhexlifyPairs(t: bytes, v: bytes)
    requires |t| == 2 * |v|
    requires forall i | 0 <= i < |v| :: IsHexDigit(t[2 * i]) && IsHexDigit(t[2 * i + 1])
    requires forall i | 0 <= i < |v| :: HexPair(t[2 * i], t[2 * i + 1]) == v[i]
    ensures Unhexlify(t) == Some(v)
  {
    forall p | 0 <= p < |t|
      ensures IsHexDigit(t[p])
    {
      var i := p / 2;
      assert p == 2 * i || p == 2 * i + 1;
    }
    assert AllHexDigits(t);
    var c := seq(|t| / 2, i requires 0 <= i < |t| / 2 => HexPair(t[2 * i], t[2 * i + 1]));
    assert c == v;
    assert Unhexlify(t) == Some(c);
  }

  /** The digit pair `hexlify` writes for byte `i` reads back as that byte. */
  lemma PairReadsBack(s: bytes, i: nat)
    requires i < |s|
    ensures 2 * i + 1 < |Hexlify(s)|
    ensures IsHexDigit(Hexlify(s)[2 * i]) && IsHexDigit(Hexlify(s)[2 * i + 1])
    ensures HexPair(Hexlify(s)[2 * i], Hexlify(s)[2 * i + 1]) == s[i]
  {
    var r := Hexlify(s);
    assert r[2 * i] == HighDigit(s[i]) && r[2 * i + 1] == LowDigit(s[i]);
    HexPairOfDigits(s[i]);
  }

  /** The digit `hexlify` would write for the value of hex digit `d`: `d`
      itself when lower case. */
  function LowerDigit(d: byte): (r: byte)
    requires IsHexDigit(d)
    ensures r == LowerHex(HexTable(d))
    ensures !('A' <= d <= 'F') ==> r == d
  {
    if 'A' <= d <= 'F' then ByteOf(d as int - 'A' as int + 'a' as int) else d
  }

  /** The byte of a digit pair writes back as those digits in lower case. */
  lemma DigitsOfHexPair(x: byte, y: byte)
    requires IsHexDigit(x) && IsHexDigit(y)
    ensures HighDigit(HexPair(x, y)) == LowerDigit(x)
    ensures LowDigit(HexPair(x, y)) == LowerDigit(y)
  {
    var b := HexPair(x, y);
    assert b as int / 16 == HexTable(x) && b as int % 16 == HexTable(y);
  }

  /** The digits of the bytes of a string of digit pairs are those pairs in
      lower case. */
  lemma HexlifyPairs(t: bytes, u: bytes)
    requires |t| == 2 * |u| && AllHexDigits(t)
    requires forall i | 0 <= i < |u| :: u[i] == HexPair(t[2 * i], t[2 * i + 1])
    ensures Hexlify(u) == seq(|t|, p requires 0 <= p < |t| => LowerDigit(t[p]))
  {
    var r := Hexlify(u);
    var l := seq(|t|, p requires 0 <= p < |t| => LowerDigit(t[p]));
    forall p | 0 <= p < |t|
      ensures r[p] == l[p]
    {
      var i := p / 2;
      assert p == 2 * i || p == 2 * i + 1;
      PairDigits(t, u, i);
    }
    assert |r| == |l|;
  }

  /** The two digits written for byte `i` are digit pair `i` in lower case. */
  lemma PairDigits(t: bytes, u: bytes, i: nat)
    requires |t| == 2 * |u| && AllHexDigits(t) && i < |u|
    requires u[i] == HexPair(t[2 * i], t[2 * i + 1])
    ensures Hexlify(u)[2 * i] == LowerDigit(t[2 * i])
    ensures Hexlify(u)[2 * i + 1] == LowerDigit(t[2 * i + 1])
  {
    DigitsOfHexPair(t[2 * i], t[2 * i + 1]);
  }

  lemma HexlifyCons(b: byte, s: bytes)
    ensures Hexlify([b] + s) == [HighDigit(b), LowDigit(b)] + Hexlify(s)
  {
    assert ([b] + s)[1..] == s;
  }

  /** The digits of four bytes, and of seven, one pair per byte. */
  lemma HexlifyFour(a: byte, b: byte, c: byte, d: byte)
    ensures Hexlify([a, b, c, d])
         == [HighDigit(a), LowDigit(a), HighDigit(b), LowDigit(b), HighDigit(c), LowDigit(c), HighDigit(d), LowDigit(d)]
  {
    HexlifyCons(d, []);
    assert [c, d] == [c] + [d];
    HexlifyCons(c, [d]);
    assert [b, c, d] == [b] + [c, d];
    HexlifyCons(b, [c, d]);
    assert [a, b, c, d] == [a] + [b, c, d];
    HexlifyCons(a, [b, c, d]);
  }

  lemma HexlifySeven(a: byte, b: byte, c: byte, d: byte, e: byte, f: byte, g: byte)
    ensures Hexlify([a, b, c, d, e, f, g])
         == [HighDigit(a), LowDigit(a), HighDigit(b), LowDigit(b), HighDigit(c), LowDigit(c)]
          + [HighDigit(d), LowDigit(d), HighDigit(e), LowDigit(e), HighDigit(f), LowDigit(f), HighDigit(g), LowDigit(g)]
  {
    HexlifyFour(d, e, f, g);
    HexlifyThree(a, b, c);
    assert [a, b, c, d, e, f, g] == [a, b, c] + [d, e, f, g];
    HexlifyAppend([a, b, c], [d, e, f, g]);
  }

  lemma HexlifyThree(a: byte, b: byte, c: byte)
    ensures Hexlify([a, b, c]) == [HighDigit(a), LowDigit(a), HighDigit(b), LowDigit(b), HighDigit(c), LowDigit(c)]
  {
    HexlifyCons(c, []);
    assert [b, c] == [b] + [c];
    HexlifyCons(b, [c]);
    assert [a, b, c] == [a] + [b, c];
    HexlifyCons(a, [b, c]);
  }

  /** The digits of two strings laid end to end are their digits end to end. */
  lemma {:induction false} HexlifyAppend(s: bytes, t: bytes)
    ensures Hexlify(s + t) == Hexlify(s) + Hexlify(t)
  {
    if s != [] {
      var h := [HighDigit(s[0]), LowDigit(s[0])];
      assert (s + t)[0] == s[0] && (s + t)[1..] == s[1..] + t;
      assert Hexlify(s + t) == h + Hexlify(s[1..] + t);
      HexlifyAppend(s[1..], t);
      assert Hexlify(s) == h + Hexlify(s[1..]);
      ConcatAssoc(h, Hexlify(s[1..]), Hexlify(t));
    } else {
      assert s + t == t;
    }
  }

  /** `hexlify` examples: the digits of `"0123"`, and of a string holding a
      NUL byte and bytes at and above 0x80. */
  lemma HexlifyTextExample()
    ensures Hexlify("0123") == "30313233"
  {
    HexlifyFour('0', '1', '2', '3');
    LowerHexDigits();
  }

  lemma HexlifyBinaryExample()
    ensures Hexlify(['a', '\0', 'c', '\U{FF}', 'e', '\U{B6}', 'g']) == "610063ff65b667"
  {
    HexlifySeven('a', '\0', 'c', '\U{FF}', 'e', '\U{B6}', 'g');
    BinaryDigits();
  }

  lemma BinaryDigits()
    ensures HighDigit('a') == '6' && LowDigit('a') == '1' && HighDigit('\0') == '0' && LowDigit('\0') == '0'
    ensures HighDigit('c') == '6' && LowDigit('c') == '3' && HighDigit('\U{FF}') == 'f' && LowDigit('\U{FF}') == 'f'
    ensures HighDigit('e') == '6' && LowDigit('e') == '5' && HighDigit('\U{B6}') == 'b' && LowDigit('\U{B6}') == '6'
    ensures HighDigit('g') == '6' && LowDigit('g') == '7'
  {
    LowerHexDigits();
  }

  /** `unhexlify` examples: the digit strings above read back, an odd
      length and a non-hex pair are refused. */
  lemma UnhexlifyExamples()
    ensures Unhexlify("30313233") == Some("0123")
    ensures Unhexlify("x") == None
    ensures Unhexlify("xy") == None
  {
    HexlifyTextExample();
    UnhexlifyHexlify("0123");
    assert !IsHexDigit("xy"[0]);
  }

  lemma UnhexlifyBinaryExample()
    ensures Unhexlify("610063ff65b667") == Some(['a', '\0', 'c', '\U{FF}', 'e', '\U{B6}', 'g'])
  {
    HexlifyBinaryExample();
    UnhexlifyHexlify(['a', '\0', 'c', '\U{FF}', 'e', '\U{B6}', 'g']);
  }
}
