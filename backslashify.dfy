/** `backslashify`: renders a byte string printable, writing `\` escapes for
    control bytes, bytes above `~` and the backslash itself. */
module Backslashing {
  import opened Wrappers
  import opened Bytes
  import opened Buffers
  import opened HexCoding

  /** Bytes below space or above `~`, and the backslash, are escaped. */
  predicate NeedsEscape(c: byte)
  {
    c as int < 0x20 || c as int > 0x7e || c == '\\'
  }

  /** The letter of the short escapes written when `hex_style` is off:
      `\r`, `\n`, `\t`, `\a`, `\b`, `\0` and `\\`. */
  function NamedEscape(c: byte): Option<byte>
  {
    if c == '\r' then Some('r')
    else if c == '\n' then Some('n')
    else if c == '\t' then Some('t')
    else if c == '\U{7}' then Some('a')
    else if c == '\U{8}' then Some('b')
    else if c == '\0' then Some('0')
    else if c == '\\' then Some('\\')
    else None
  }

  /** What `backslashify` writes for one byte: the byte itself, a short
      escape, or `\x` and two lower-case hex digits. */
  function BackslashifyByte(c: byte, hexStyle: bool): (r: bytes)
    ensures AllPrintable(r)
    ensures r == [c] <==> !NeedsEscape(c)
  {
    if !NeedsEscape(c) then [c]
    else if !hexStyle && NamedEscape(c).Some? then ['\\', NamedEscape(c).value]
    else ['\\', 'x', HighDigit(c), LowDigit(c)]
  }

  /** `backslashify(input, hex_style)`, the value-returning form. Every
      output byte is printable, at most four per input byte. */
  function Backslashify(s: bytes, hexStyle: bool): (r: bytes)
    ensures AllPrintable(r)
    ensures |s| <= |r| <= 4 * |s|
  {
    if s == [] then [] else BackslashifyByte(s[0], hexStyle) + Backslashify(s[1..], hexStyle)
  }

  lemma {:induction false} BackslashifyAppend(a: bytes, b: bytes, hexStyle: bool)
    ensures Backslashify(a + b, hexStyle) == Backslashify(a, hexStyle) + Backslashify(b, hexStyle)
  {
    if a == [] {
      assert a + b == b;
    } else {
      assert (a + b)[1..] == a[1..] + b;
      BackslashifyAppend(a[1..], b, hexStyle);
    }
  }

  lemma BackslashifyNext(s: bytes, p: nat, hexStyle: bool)
    requires p < |s|
    ensures Backslashify(s[..p + 1], hexStyle) == Backslashify(s[..p], hexStyle) + BackslashifyByte(s[p], hexStyle)
  {
    BackslashifyAppend(s[..p], [s[p]], hexStyle);
    PrefixNext(s, p);
    assert Backslashify([s[p]], hexStyle) == BackslashifyByte(s[p], hexStyle) + Backslashify([], hexStyle);
  }

  /** The body of `backslashify`'s loop: one byte's escape pushed onto
      `output`. */
  method AppendEscaped(output: ByteString, c: byte, hexStyle: bool)
    modifies output
    ensures output.bytes == old(output.bytes) + BackslashifyByte(c, hexStyle)
  {
    if NeedsEscape(c) {
      var hexAppend := false;
      output.PushBack('\\');
      if hexStyle {
        hexAppend := true;
      } else {
        hexAppend := AppendNamed(output, c);
      }
      if hexAppend {
        AppendHex(output, c);
      }
    } else {
      output.PushBack(c);
    }
  }

  /** `x` and the two `hexValues` digits of `c`, high nibble first. */
  method AppendHex(output: ByteString, c: byte)
    modifies output
    ensures output.bytes == old(output.bytes) + ['x', HighDigit(c), LowDigit(c)]
  {
    output.PushBack('x');
    output.PushBack(HexValues[(c as int / 16) % 16]);
    output.PushBack(HexValues[c as int % 16]);
  }

  /** The short escapes of `backslashify`'s loop: pushes the letter for `c`,
      or pushes nothing and asks for the hex form. */
  method AppendNamed(output: ByteString, c: byte) returns (hexAppend: bool)
    modifies output
    ensures hexAppend <==> NamedEscape(c).None?
    ensures output.bytes == old(output.bytes) + (if hexAppend then [] else [NamedEscape(c).value])
  {
    hexAppend := false;
    if c == '\r' {
      output.PushBack('r');
    } else if c == '\n' {
      output.PushBack('n');
    } else if c == '\t' {
      output.PushBack('t');
    } else if c == '\U{7}' {
      output.PushBack('a');
    } else if c == '\U{8}' {
      output.PushBack('b');
    } else if c == '\0' {
      output.PushBack('0');
    } else if c == '\\' {
      output.PushBack('\\');
    } else {
      hexAppend := true;
    }
  }

  /** `backslashify(input, output, hex_style)`: replaces the contents of
      `output` with the escaped form of `input`. */
  method BackslashifyInto(input: bytes, output: ByteString, hexStyle: bool)
    modifies output
    ensures output.bytes == Backslashify(input, hexStyle)
  {
    output.Clear();
    var i := 0;
    while i < |input|
      invariant 0 <= i <= |input|
      invariant output.bytes == Backslashify(input[..i], hexStyle)
    {
      BackslashifyNext(input, i, hexStyle);
      AppendEscaped(output, input[i], hexStyle);
      i := i + 1;
    }
    assert input[..i] == input;
  }

  /** The byte a short escape letter stands for. */
  function NamedUnescape(e: byte): Option<byte>
  {
    if e == 'r' then Some('\r')
    else if e == 'n' then Some('\n')
    else if e == 't' then Some('\t')
    else if e == 'a' then Some('\U{7}')
    else if e == 'b' then Some('\U{8}')
    else if e == '0' then Some('\0')
    else if e == '\\' then Some('\\')
    else None
  }

  lemma NamedUnescapeNamedEscape(c: byte)
    requires NamedEscape(c).Some?
    ensures NamedUnescape(NamedEscape(c).value) == Some(c)
    ensures NamedEscape(c).value != 'x'
  {
  }

  /** A reading of `backslashify`'s output back into bytes: a byte other than
      `\` stands for itself, `\` is followed by a short escape letter or by
      `x` and two hex digits; anything else is refused. */
  function Unbackslashify(s: bytes): (r: Option<bytes>)
    decreases |s|
  {
    if s == [] then Some([])
    else if s[0] != '\\' then
      match Unbackslashify(s[1..])
      case Some(t) => Some([s[0]] + t)
      case None => None
    else if |s| >= 2 && NamedUnescape(s[1]).Some? then
      match Unbackslashify(s[2..])
      case Some(t) => Some([NamedUnescape(s[1]).value] + t)
      case None => None
    else if |s| >= 4 && s[1] == 'x' && IsHexDigit(s[2]) && IsHexDigit(s[3]) then
      match Unbackslashify(s[4..])
      case Some(t) => Some([HexPair(s[2], s[3])] + t)
      case None => None
    else None
  }

  /** One byte's escape reads back as that byte, ahead of whatever follows. */
  lemma UnbackslashifyByte(c: byte, hexStyle: bool, t: bytes)
    ensures Unbackslashify(BackslashifyByte(c, hexStyle) + t)
         == match Unbackslashify(t) case Some(u) => Some([c] + u) case None => None
  {
    var e := BackslashifyByte(c, hexStyle);
    var s := e + t;
    if !NeedsEscape(c) {
      assert s[1..] == t;
    } else if !hexStyle && NamedEscape(c).Some? {
      NamedUnescapeNamedEscape(c);
      assert s[1] == NamedEscape(c).value;
      assert s[2..] == t;
    } else {
      HexPairOfDigits(c);
      assert s[1] == 'x' && s[2] == HighDigit(c) && s[3] == LowDigit(c);
      assert NamedUnescape('x') == None;
      assert s[4..] == t;
    }
  }

  /** `backslashify` loses nothing: its output reads back as its input, in
      either style. */
  lemma {:induction false} UnbackslashifyBackslashify(s: bytes, hexStyle: bool)
    ensures Unbackslashify(Backslashify(s, hexStyle)) == Some(s)
  {
    if s != [] {
      UnbackslashifyBackslashify(s[1..], hexStyle);
      UnbackslashifyByte(s[0], hexStyle, Backslashify(s[1..], hexStyle));
      assert [s[0]] + s[1..] == s;
    }
  }

  /** A run of bytes that need no escape is copied unchanged. */
  lemma {:induction false} BackslashifyPlainRun(s: bytes, hexStyle: bool)
    requires forall i | 0 <= i < |s| :: !NeedsEscape(s[i])
    ensures Backslashify(s, hexStyle) == s
  {
    if s != [] {
      BackslashifyPlainRun(s[1..], hexStyle);
    }
  }

  /** `backslashify` examples: printable text is unchanged, a carriage return
      becomes `\r` or, in hex style, `\x0d`, and NUL bytes become `\0`. */
  lemma BackslashifyPlainExample()
    ensures Backslashify("abc", false) == "abc"
  {
    BackslashifyPlainRun("abc", false);
  }

  lemma BackslashifyReturnExamples()
    ensures var abc: bytes := "abc"; Backslashify(abc + "\r", false) == abc + "\\r"
    ensures var abc: bytes := "abc"; Backslashify(abc + "\r", true) == abc + "\\x0d"
  {
    var abc: bytes := "abc";
    BackslashifyPlainThen(abc, '\r', false);
    BackslashifyPlainThen(abc, '\r', true);
    LowerHexDigits();
    assert BackslashifyByte('\r', true) == "\\x0d";
  }

  /** A run of bytes that need no escape, then one byte. */
  lemma BackslashifyPlainThen(a: bytes, c: byte, hexStyle: bool)
    requires forall i | 0 <= i < |a| :: !NeedsEscape(a[i])
    ensures Backslashify(a + [c], hexStyle) == a + BackslashifyByte(c, hexStyle)
  {
    BackslashifyPlainRun(a, hexStyle);
    BackslashifyAppend(a, [c], hexStyle);
    assert Backslashify([c], hexStyle) == BackslashifyByte(c, hexStyle) + Backslashify([], hexStyle);
  }

  lemma BackslashifyNulExample()
    ensures Backslashify(['\0', '\0'], false) == "\\0\\0"
  {
    assert ['\0', '\0'] == ['\0'] + ['\0'];
    BackslashifyAppend(['\0'], ['\0'], false);
    assert Backslashify(['\0'], false) == BackslashifyByte('\0', false) + Backslashify([], false);
  }
}
