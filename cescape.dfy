/** C-style escaping: `cEscape` renders bytes as the body of a C string
    literal, `cUnescape` reads such a body back. */
module CEscapes {
  import opened Wrappers
  import opened Bytes
  import opened Buffers

  /** An entry of `detail::cEscapeTable`: copy the byte, write a three-digit
      octal escape, or write a backslash followed by `letter`. */
  datatype EscapeClass = Printable | Octal | Short(letter: byte)

  function CEscapeTable(b: byte): EscapeClass
  {
    if b == '"' then Short('"')
    else if b == '\\' then Short('\\')
    else if b == '?' then Short('?')
    else if b == '\n' then Short('n')
    else if b == '\r' then Short('r')
    else if b == '\t' then Short('t')
    else if b as int < 32 || b as int > 126 then Octal
    else Printable
  }

  function OctalDigit(v: int): (d: byte)
    requires 0 <= v < 8
    ensures '0' <= d <= '7' && HexTable(d) == v
  {
    ByteOf('0' as int + v)
  }

  /** The escape `cEscape` writes for one byte (`esc[1..3]` are the digits of
      `(v >> 6) & 7`, `(v >> 3) & 7` and `v & 7`). */
  function CEscapeByte(b: byte): (r: bytes)
    ensures AllPrintable(r)
    ensures r == [b] <==> CEscapeTable(b) == Printable
  {
    match CEscapeTable(b)
    case Printable => [b]
    case Octal =>
      ['\\', OctalDigit((b as int / 64) % 8), OctalDigit((b as int / 8) % 8), OctalDigit(b as int % 8)]
    case Short(e) => ['\\', e]
  }

  /** `cEscape`: the value-returning form. Every output byte is printable. */
  function CEscape(s: bytes): (r: bytes)
    ensures AllPrintable(r)
    ensures |s| <= |r| <= 4 * |s|
  {
    if s == [] then [] else CEscapeByte(s[0]) + CEscape(s[1..])
  }

  lemma {:induction false} CEscapeAppend(a: bytes, b: bytes)
    ensures CEscape(a + b) == CEscape(a) + CEscape(b)
  {
    if a == [] {
      assert a + b == b;
    } else {
      assert (a + b)[1..] == a[1..] + b;
      CEscapeAppend(a[1..], b);
    }
  }

  lemma CEscapeNext(s: bytes, p: nat)
    requires p < |s|
    ensures CEscape(s[..p + 1]) == CEscape(s[..p]) + CEscapeByte(s[p])
  {
    CEscapeAppend(s[..p], [s[p]]);
    PrefixNext(s, p);
    CEscapeSingle(s[p]);
  }

  lemma CEscapeSingle(b: byte)
    ensures CEscape([b]) == CEscapeByte(b)
  {
    assert CEscape([b]) == CEscapeByte(b) + CEscape([]);
  }

  /** A run of bytes that `cEscape` copies unchanged. */
  lemma {:induction false} CEscapePlainRun(s: bytes)
    requires forall i | 0 <= i < |s| :: CEscapeTable(s[i]) == Printable
    ensures CEscape(s) == s
  {
    if s != [] {
      CEscapePlainRun(s[1..]);
    }
  }

  /** `cEscape(str, out)`: appends the escaped form of `str` to `out`,
      copying each run of printable bytes in one `append`. */
  method CEscapeInto(str: bytes, out: ByteString)
    modifies out
    ensures out.bytes == old(out.bytes) + CEscape(str)
  {
    ghost var base := out.bytes;
    var p, last := 0, 0;
    while p < |str|
      invariant 0 <= last <= p <= |str|
      invariant out.bytes == base + CEscape(str[..last])
      invariant forall i | last <= i < p :: CEscapeTable(str[i]) == Printable
    {
      var v := str[p];
      var e := CEscapeTable(v);
      if e == Printable {
        p := p + 1;
      } else {
        Flush(str, last, p, out, base);
        AppendEscape(str, p, out, base);
        p := p + 1;
        last := p;
      }
    }
    Flush(str, last, p, out, base);
    assert str[..p] == str;
  }

  /** The one-letter or three-digit octal escape `cEscape` appends for a byte
      that is not printable as it is. */
  method AppendEscape(str: bytes, p: nat, out: ByteString, ghost base: bytes)
    requires p < |str| && CEscapeTable(str[p]) != Printable
    requires out.bytes == base + CEscape(str[..p])
    modifies out
    ensures out.bytes == base + CEscape(str[..p + 1])
  {
    var v := str[p];
    var e := CEscapeTable(v);
    var esc: bytes;
    if e == Octal {
      esc := ['\\', OctalDigit((v as int / 64) % 8), OctalDigit((v as int / 8) % 8), OctalDigit(v as int % 8)];
    } else {
      esc := ['\\', e.letter];
    }
    assert esc == CEscapeByte(v);
    CEscapeNext(str, p);
    ConcatAssoc(base, CEscape(str[..p]), esc);
    out.Append(esc);
  }

  /** `out.append(&*last, p - last)` for a run of printable bytes. */
  method Flush(str: bytes, last: nat, p: nat, out: ByteString, ghost base: bytes)
    requires last <= p <= |str|
    requires forall i | last <= i < p :: CEscapeTable(str[i]) == Printable
    requires out.bytes == base + CEscape(str[..last])
    modifies out
    ensures out.bytes == base + CEscape(str[..p])
  {
    CEscapeRun(str, last, p);
    ConcatAssoc(base, CEscape(str[..last]), str[last..p]);
    out.Append(str[last..p]);
  }

  lemma CEscapeRun(str: bytes, last: nat, p: nat)
    requires last <= p <= |str|
    requires forall i | last <= i < p :: CEscapeTable(str[i]) == Printable
    ensures CEscape(str[..p]) == CEscape(str[..last]) + str[last..p]
  {
    var run := str[last..p];
    CEscapePlainRun(run);
    CEscapeAppend(str[..last], run);
    PrefixJoin(str, last, p);
  }

  /** An entry of `detail::cUnescapeTable`, indexed by the byte after a
      backslash: the byte a one-letter escape stands for, the first digit of
      an octal escape, the `x` of a hex escape, or an invalid escape. */
  datatype UnescapeClass = Simple(value: byte) | OctalStart | HexStart | Invalid

  function CUnescapeTable(b: byte): UnescapeClass
  {
    if b == '\'' then Simple('\'')
    else if b == '?' then Simple('?')
    else if b == '\\' then Simple('\\')
    else if b == '"' then Simple('"')
    else if b == 'a' then Simple(ByteOf(7))
    else if b == 'b' then Simple(ByteOf(8))
    else if b == 'f' then Simple(ByteOf(12))
    else if b == 'n' then Simple('\n')
    else if b == 'r' then Simple('\r')
    else if b == 't' then Simple('\t')
    else if b == 'v' then Simple(ByteOf(11))
    else if '0' <= b <= '7' then OctalStart
    else if b == 'x' then HexStart
    else Invalid
  }

  /** The three `std::invalid_argument` messages of strict `cUnescape`. */
  datatype UnescapeError =
    | IncompleteEscape     // a backslash is the last byte
    | IncompleteHexEscape  // `\x` ends the input
    | InvalidEscape        // the byte after a backslash starts no escape

  predicate IsOctalDigit(b: byte)
  {
    '0' <= b <= '7'
  }

  /** How many leading bytes of `s` the octal loop consumes: octal digits,
      at most three. */
  function OctalRun(s: bytes): (k: nat)
    ensures k <= 3 && k <= |s|
    ensures forall i | 0 <= i < k :: IsOctalDigit(s[i])
    ensures k < 3 && k < |s| ==> !IsOctalDigit(s[k])
  {
    if 0 < |s| && IsOctalDigit(s[0]) then
      (if 1 < |s| && IsOctalDigit(s[1]) then
         (if 2 < |s| && IsOctalDigit(s[2]) then 3 else 2)
       else 1)
    else 0
  }

  /** How many leading bytes of `s` the hex loop consumes: every hex digit,
      with no bound on their number. */
  function HexRun(s: bytes): (k: nat)
    ensures k <= |s|
    ensures forall i | 0 <= i < k :: IsHexDigit(s[i])
    ensures k < |s| ==> !IsHexDigit(s[k])
  {
    if s != [] && IsHexDigit(s[0]) then 1 + HexRun(s[1..]) else 0
  }

  /** The `unsigned char` the digit loops accumulate: `val = (val << 3) | d`
      or `val = (val << 4) | d`, where the shift clears the bits `d` sets, so
      each step is `val * base + d` cut to eight bits. */
  function DigitsValue(ds: bytes, base: nat): (v: byte)
    requires forall i | 0 <= i < |ds| :: IsHexDigit(ds[i])
  {
    if ds == [] then ByteOf(0)
    else ByteOf((DigitsValue(ds[..|ds| - 1], base) as int * base + HexTable(ds[|ds| - 1])) % 256)
  }

  /** What one escape sequence stands for, and how many bytes it takes. */
  datatype Decoded = Decoded(produced: bytes, consumed: nat)

  /** The escape sequence that starts with the backslash `s[q]`: what it
      stands for and how many bytes, the backslash included, it takes. */
  function EscapeAt(s: bytes, q: nat, strict: bool): (r: Result<Decoded, UnescapeError>)
    requires q < |s| && s[q] == '\\'
    ensures r.Ok? ==> 0 < r.value.consumed <= |s| - q
  {
    if q + 1 == |s| then
      if strict then Err(IncompleteEscape) else Ok(Decoded(['\\'], 1))
    else
      match CUnescapeTable(s[q + 1])
      case OctalStart =>
        var k := OctalRun(s[q + 1..]);
        Ok(Decoded([DigitsValue(s[q + 1..q + 1 + k], 8)], 1 + k))
      case HexStart =>
        if q + 2 == |s| then
          if strict then Err(IncompleteHexEscape) else Ok(Decoded(['\\', 'x'], 2))
        else
          var k := HexRun(s[q + 2..]);
          Ok(Decoded([DigitsValue(s[q + 2..q + 2 + k], 16)], 2 + k))
      case Invalid =>
        if strict then Err(InvalidEscape) else Ok(Decoded(['\\', s[q + 1]], 2))
      case Simple(c) =>
        Ok(Decoded([c], 2))
  }

  /** `cUnescape`, value-returning form. `strict` is the library's flag
      (true by default): when false, the three malformed escapes are copied
      through instead of raising. */
  function CUnescape(s: bytes, strict: bool): Result<bytes, UnescapeError>
    decreases |s|
  {
    if s == [] then Ok([])
    else if s[0] != '\\' then Prepend([s[0]], CUnescape(s[1..], strict))
    else
      match EscapeAt(s, 0, strict)
      case Err(e) => Err(e)
      case Ok(d) => Prepend(d.produced, CUnescape(s[d.consumed..], strict))
  }

  lemma OctalExpansion(x: int)
    requires 0 <= x < 256
    ensures (x / 64) % 8 < 4
    ensures x == ((x / 64) % 8) * 64 + ((x / 8) % 8) * 8 + x % 8
  {
  }

  /** Three octal digits accumulate to their value, which fits in a byte
      when the first digit is below 4. */
  lemma OctalDigitsValue(h: int, m: int, l: int)
    requires 0 <= h < 4 && 0 <= m < 8 && 0 <= l < 8
    ensures DigitsValue([OctalDigit(h), OctalDigit(m), OctalDigit(l)], 8) as int == h * 64 + m * 8 + l
  {
    var d := [OctalDigit(h), OctalDigit(m), OctalDigit(l)];
    assert d[..2] == [OctalDigit(h), OctalDigit(m)];
    assert d[..2][..1] == [OctalDigit(h)];
    assert [OctalDigit(h)][..0] == [];
    assert DigitsValue([OctalDigit(h)], 8) as int == h;
    assert DigitsValue(d[..2], 8) as int == h * 8 + m;
  }

  /** The three digits of an octal escape accumulate to the escaped byte. */
  lemma OctalEscapeValue(b: byte)
    requires CEscapeTable(b) == Octal
    ensures DigitsValue(CEscapeByte(b)[1..], 8) == b
  {
    var x := b as int;
    OctalExpansion(x);
    OctalDigitsValue((x / 64) % 8, (x / 8) % 8, x % 8);
    assert CEscapeByte(b)[1..] == [OctalDigit((x / 64) % 8), OctalDigit((x / 8) % 8), OctalDigit(x % 8)];
  }

  /** Unescaping the escape of one byte gives that byte back, whatever follows. */
  lemma CUnescapeEscapedByte(b: byte, rest: bytes, strict: bool)
    ensures CUnescape(CEscapeByte(b) + rest, strict) == Prepend([b], CUnescape(rest, strict))
  {
    var t := CEscapeByte(b) + rest;
    match CEscapeTable(b)
    case Printable =>
      assert t[1..] == rest;
    case Short(e) =>
      assert t[2..] == rest;
    case Octal =>
      OctalEscapeReads(b, rest, strict);
      assert t[4..] == rest;
  }

  /** A three-digit octal escape reads back as its byte, whatever follows. */
  lemma OctalEscapeReads(b: byte, rest: bytes, strict: bool)
    requires CEscapeTable(b) == Octal
    ensures EscapeAt(CEscapeByte(b) + rest, 0, strict) == Ok(Decoded([b], 4))
  {
    var t := CEscapeByte(b) + rest;
    var d := CEscapeByte(b)[1..];
    assert t[1..][..3] == d && t[1..4] == d;
    assert OctalRun(t[1..]) == 3;
    OctalEscapeValue(b);
  }

  /** `cUnescape` inverts `cEscape` for every byte string, in both modes. */
  lemma {:induction false} CUnescapeCEscape(s: bytes, strict: bool)
    ensures CUnescape(CEscape(s), strict) == Ok(s)
  {
    if s != [] {
      CUnescapeEscapedByte(s[0], CEscape(s[1..]), strict);
      CUnescapeCEscape(s[1..], strict);
      assert [s[0]] + s[1..] == s;
    }
  }

  /** One step of `cUnescape` over a byte that is not a backslash. */
  lemma CUnescapeLiteralStep(str: bytes, p: nat, strict: bool)
    requires p < |str| && str[p] != '\\'
    ensures CUnescape(str[p..], strict) == Prepend([str[p]], CUnescape(str[p + 1..], strict))
  {
    DropDrop(str, p, 1);
  }

  /** An escape sequence reads the same inside the whole input as in the
      suffix starting at its backslash. */
  lemma EscapeAtSuffix(str: bytes, q: nat, strict: bool)
    requires q < |str| && str[q] == '\\'
    ensures EscapeAt(str[q..], 0, strict) == EscapeAt(str, q, strict)
  {
    if q + 1 < |str| {
      DropDrop(str, q, 1);
      match CUnescapeTable(str[q + 1])
      case OctalStart =>
        OctalSuffix(str, q, strict);
      case HexStart =>
        HexSuffix(str, q, strict);
      case Invalid =>
      case Simple(_) =>
    }
  }

  /** The octal case of `EscapeAtSuffix`. */
  lemma OctalSuffix(str: bytes, q: nat, strict: bool)
    requires q + 1 < |str| && str[q] == '\\' && CUnescapeTable(str[q + 1]) == OctalStart
    ensures EscapeAt(str[q..], 0, strict) == EscapeAt(str, q, strict)
  {
    DropDrop(str, q, 1);
    DropSlice(str, q, 1, 1 + OctalRun(str[q + 1..]));
  }

  /** The hex case of `EscapeAtSuffix`. */
  lemma HexSuffix(str: bytes, q: nat, strict: bool)
    requires q + 1 < |str| && str[q] == '\\' && CUnescapeTable(str[q + 1]) == HexStart
    ensures EscapeAt(str[q..], 0, strict) == EscapeAt(str, q, strict)
  {
    if q + 2 < |str| {
      DropDrop(str, q, 2);
      DropSlice(str, q, 2, 2 + HexRun(str[q + 2..]));
    }
  }

  /** One step of `cUnescape` over the backslash escape at `q`. */
  lemma CUnescapeEscapeStep(str: bytes, q: nat, strict: bool)
    requires q < |str| && str[q] == '\\'
    ensures
      var e := EscapeAt(str, q, strict);
      CUnescape(str[q..], strict) ==
        if e.Err? then Err(e.error)
        else Prepend(e.value.produced, CUnescape(str[q + e.value.consumed..], strict))
  {
    EscapeAtSuffix(str, q, strict);
    var e := EscapeAt(str, q, strict);
    if e.Ok? {
      DropDrop(str, q, e.value.consumed);
    }
  }

  /** The octal loop of `cUnescape`: reads up to three octal digits from
      position `start` and returns their value and the position after them. */
  method ReadOctal(str: bytes, start: nat) returns (val: byte, p: nat)
    requires start <= |str|
    ensures p == start + OctalRun(str[start..])
    ensures val == DigitsValue(str[start..p], 8)
  {
    val, p := ByteOf(0), start;
    var i := 0;
    while i < 3 && p < |str| && '0' <= str[p] <= '7'
      invariant start <= p <= |str| && p == start + i && i <= 3
      invariant forall j | start <= j < p :: IsOctalDigit(str[j])
      invariant val == DigitsValue(str[start..p], 8)
    {
      SliceInit(str, start, p + 1);
      val := ByteOf((val as int * 8 + (str[p] as int - '0' as int)) % 256);
      i, p := i + 1, p + 1;
    }
  }

  /** The hex loop of `cUnescape`: reads every hex digit from position
      `start` and returns their value and the position after them. */
  method ReadHex(str: bytes, start: nat) returns (val: byte, p: nat)
    requires start <= |str|
    ensures p == start + HexRun(str[start..])
    ensures val == DigitsValue(str[start..p], 16)
  {
    val, p := ByteOf(0), start;
    while p < |str| && HexTable(str[p]) < 16
      invariant start <= p <= |str|
      invariant forall j | start <= j < p :: IsHexDigit(str[j])
      invariant val == DigitsValue(str[start..p], 16)
    {
      SliceInit(str, start, p + 1);
      val := ByteOf((val as int * 16 + HexTable(str[p])) % 256);
      p := p + 1;
    }
  }

  /** A run of bytes without a backslash unescapes to itself. */
  lemma {:induction false} CUnescapeLiteralRun(str: bytes, last: nat, p: nat, strict: bool)
    requires last <= p <= |str|
    requires forall i | last <= i < p :: str[i] != '\\'
    ensures CUnescape(str[last..], strict) == Prepend(str[last..p], CUnescape(str[p..], strict))
    decreases p - last
  {
    if last == p {
      assert str[last..p] == [];
      assert CUnescape(str[p..], strict).Ok? ==> [] + CUnescape(str[p..], strict).value == CUnescape(str[p..], strict).value;
    } else {
      CUnescapeLiteralStep(str, last, strict);
      CUnescapeLiteralRun(str, last + 1, p, strict);
      PrependPrepend([str[last]], str[last + 1..p], CUnescape(str[p..], strict));
      SliceCons(str, last, p);
    }
  }

  /** The body of `cUnescape`'s loop for the backslash at `q`: decodes one
      escape sequence, appends what it stands for, and returns the position
      after it. */
  method UnescapeSequence(str: bytes, q: nat, out: ByteString, strict: bool)
    returns (p: nat, r: Outcome<UnescapeError>)
    requires q < |str| && str[q] == '\\'
    modifies out
    ensures q < p <= |str| && old(out.bytes) <= out.bytes
    ensures
      var e := EscapeAt(str, q, strict);
      && (r.Pass? <==> e.Ok?)
      && (r.Pass? ==> p == q + e.value.consumed && out.bytes == old(out.bytes) + e.value.produced)
      && (r.Fail? ==> r.error == e.error && out.bytes == old(out.bytes))
  {
    p := q + 1;
    if p == |str| {
      if strict {
        return p, Fail(IncompleteEscape);
      }
      out.PushBack('\\');
      return p, Pass;
    }
    var e := CUnescapeTable(str[p]);
    if e == OctalStart {
      p := OctalSequence(str, q, out, strict);
      r := Pass;
    } else if e == HexStart {
      p, r := HexSequence(str, q, out, strict);
    } else if e == Invalid {
      if strict {
        return p, Fail(InvalidEscape);
      }
      out.PushBack('\\');
      out.PushBack(str[p]);
      p := p + 1;
      r := Pass;
    } else {
      out.PushBack(e.value);
      p := p + 1;
      r := Pass;
    }
  }

  /** An octal escape: up to three digits after the backslash. */
  method OctalSequence(str: bytes, q: nat, out: ByteString, strict: bool) returns (p: nat)
    requires q + 1 < |str| && str[q] == '\\' && CUnescapeTable(str[q + 1]) == OctalStart
    modifies out
    ensures EscapeAt(str, q, strict).Ok?
    ensures p == q + EscapeAt(str, q, strict).value.consumed
    ensures out.bytes == old(out.bytes) + EscapeAt(str, q, strict).value.produced
  {
    var val;
    val, p := ReadOctal(str, q + 1);
    out.PushBack(val);
  }

  /** A hex escape: `x` and every hex digit after it. */
  method HexSequence(str: bytes, q: nat, out: ByteString, strict: bool)
    returns (p: nat, r: Outcome<UnescapeError>)
    requires q + 1 < |str| && str[q] == '\\' && CUnescapeTable(str[q + 1]) == HexStart
    modifies out
    ensures q < p <= |str|
    ensures
      var e := EscapeAt(str, q, strict);
      && (r.Pass? <==> e.Ok?)
      && (r.Pass? ==> p == q + e.value.consumed && out.bytes == old(out.bytes) + e.value.produced)
      && (r.Fail? ==> r.error == e.error && out.bytes == old(out.bytes))
  {
    p := q + 2;
    if p == |str| {
      if strict {
        return p, Fail(IncompleteHexEscape);
      }
      out.Append(['\\', 'x']);
      return p, Pass;
    }
    var val;
    val, p := ReadHex(str, p);
    out.PushBack(val);
    r := Pass;
  }

  /** The account `cUnescape`'s loop keeps, when it reaches the backslash at
      `p` and the escape sequence there fails: the whole unescape fails. */
  lemma SequenceFails(str: bytes, last: nat, p: nat, base: bytes, outBytes: bytes, strict: bool)
    requires last <= p < |str| && str[p] == '\\'
    requires forall i | last <= i < p :: str[i] != '\\'
    requires Prepend(base, CUnescape(str, strict)) == Prepend(outBytes, CUnescape(str[last..], strict))
    requires EscapeAt(str, p, strict).Err?
    ensures CUnescape(str, strict) == Err(EscapeAt(str, p, strict).error)
  {
    CUnescapeLiteralRun(str, last, p, strict);
    CUnescapeEscapeStep(str, p, strict);
  }

  /** The account `cUnescape`'s loop keeps, when it reaches the backslash at
      `p`: once the pending run and the escape sequence's bytes are appended, it
      holds again after the sequence. */
  lemma SequenceDone(str: bytes, last: nat, p: nat, base: bytes, outBytes: bytes, after: bytes, next: nat, strict: bool)
    requires last <= p < |str| && str[p] == '\\'
    requires forall i | last <= i < p :: str[i] != '\\'
    requires Prepend(base, CUnescape(str, strict)) == Prepend(outBytes, CUnescape(str[last..], strict))
    requires EscapeAt(str, p, strict).Ok?
    requires next == p + EscapeAt(str, p, strict).value.consumed
    requires after == outBytes + str[last..p] + EscapeAt(str, p, strict).value.produced
    ensures next <= |str|
    ensures Prepend(base, CUnescape(str, strict)) == Prepend(after, CUnescape(str[next..], strict))
  {
    var x := outBytes + str[last..p];
    var e := EscapeAt(str, p, strict).value;
    RunDone(str, last, p, base, outBytes, strict);
    EscapeDone(str, p, x, strict);
    assert after == x + e.produced && next == p + e.consumed;
  }

  /** The pending run at `last..p` moves from the input to the output. */
  lemma RunDone(str: bytes, last: nat, p: nat, base: bytes, outBytes: bytes, strict: bool)
    requires last <= p <= |str|
    requires forall i | last <= i < p :: str[i] != '\\'
    requires Prepend(base, CUnescape(str, strict)) == Prepend(outBytes, CUnescape(str[last..], strict))
    ensures Prepend(base, CUnescape(str, strict)) == Prepend(outBytes + str[last..p], CUnescape(str[p..], strict))
  {
    CUnescapeLiteralRun(str, last, p, strict);
    PrependPrepend(outBytes, str[last..p], CUnescape(str[p..], strict));
  }

  /** The escape sequence at `p` moves from the input to the output. */
  lemma EscapeDone(str: bytes, p: nat, x: bytes, strict: bool)
    requires p < |str| && str[p] == '\\' && EscapeAt(str, p, strict).Ok?
    ensures p + EscapeAt(str, p, strict).value.consumed <= |str|
    ensures Prepend(x, CUnescape(str[p..], strict))
         == Prepend(x + EscapeAt(str, p, strict).value.produced, CUnescape(str[p + EscapeAt(str, p, strict).value.consumed..], strict))
  {
    CUnescapeEscapeStep(str, p, strict);
    var e := EscapeAt(str, p, strict).value;
    PrependPrepend(x, e.produced, CUnescape(str[p + e.consumed..], strict));
  }

  /** What `cUnescape`'s loop does at the backslash at `p`: append the pending
      run `str[last..p]`, then decode the escape sequence. */
  method FlushAndDecode(str: bytes, last: nat, p: nat, out: ByteString, strict: bool, ghost base: bytes)
    returns (next: nat, r: Outcome<UnescapeError>)
    requires last <= p < |str| && str[p] == '\\'
    requires forall i | last <= i < p :: str[i] != '\\'
    requires base <= out.bytes
    requires Prepend(base, CUnescape(str, strict)) == Prepend(out.bytes, CUnescape(str[last..], strict))
    modifies out
    ensures p < next <= |str| && base <= out.bytes
    ensures r.Fail? ==> CUnescape(str, strict) == Err(r.error)
    ensures r.Pass? ==> Prepend(base, CUnescape(str, strict)) == Prepend(out.bytes, CUnescape(str[next..], strict))
  {
    ghost var before := out.bytes;
    PrefixGrows(base, out.bytes, str[last..p]);
    out.Append(str[last..p]);
    ghost var flushed := out.bytes;
    next, r := UnescapeSequence(str, p, out, strict);
    assert flushed <= out.bytes;
    if r.Pass? {
      SequenceDone(str, last, p, base, before, out.bytes, next, strict);
    } else {
      SequenceFails(str, last, p, base, before, strict);
    }
  }

  /** `cUnescape(str, out, strict)`: appends the unescaped form of `str` to
      `out`. On an error it stops (the C++ code throws) having appended only
      part of the result. */
  method CUnescapeInto(str: bytes, out: ByteString, strict: bool) returns (r: Outcome<UnescapeError>)
    modifies out
    ensures r.Pass? <==> CUnescape(str, strict).Ok?
    ensures r.Pass? ==> out.bytes == old(out.bytes) + CUnescape(str, strict).value
    ensures r.Fail? ==> r.error == CUnescape(str, strict).error
    ensures r.Fail? ==> old(out.bytes) <= out.bytes
  {
    var p, last := 0, 0;
    assert str[0..] == str;
    while p < |str|
      invariant 0 <= last <= p <= |str|
      invariant old(out.bytes) <= out.bytes
      invariant forall i | last <= i < p :: str[i] != '\\'
      invariant Prepend(old(out.bytes), CUnescape(str, strict)) == Prepend(out.bytes, CUnescape(str[last..], strict))
    {
      if str[p] != '\\' {
        p := p + 1;
      } else {
        var next, step := FlushAndDecode(str, last, p, out, strict, old(out.bytes));
        if step.Fail? {
          return step;
        }
        p, last := next, next;
      }
    }
    CUnescapeLiteralRun(str, last, p, strict);
    PrependPrepend(out.bytes, str[last..p], CUnescape(str[p..], strict));
    out.Append(str[last..p]);
    assert str[p..] == [];
    assert out.bytes + [] == out.bytes;
    r := Pass;
  }

  /** A byte string without a backslash unescapes to itself. */
  lemma CUnescapeNoBackslash(s: bytes, strict: bool)
    requires forall i | 0 <= i < |s| :: s[i] != '\\'
    ensures CUnescape(s, strict) == Ok(s)
  {
    CUnescapeLiteralRun(s, 0, |s|, strict);
    assert s[0..] == s && s[0..|s|] == s && s[|s|..] == [];
    assert s + [] == s;
  }

  /** A leading run without a backslash is copied ahead of what follows. */
  lemma CUnescapeLiteralThen(a: bytes, b: bytes, strict: bool)
    requires forall i | 0 <= i < |a| :: a[i] != '\\'
    ensures CUnescape(a + b, strict) == Prepend(a, CUnescape(b, strict))
  {
    var t := a + b;
    CUnescapeLiteralRun(t, 0, |a|, strict);
    assert t[0..] == t && t[0..|a|] == a && t[|a|..] == b;
  }

  /** With `strict` false the three malformed escapes are copied through, so
      `cUnescape` never fails. */
  lemma {:induction false} CUnescapeLenientSucceeds(s: bytes)
    ensures CUnescape(s, false).Ok?
    decreases |s|
  {
    if s != [] {
      if s[0] != '\\' {
        CUnescapeLenientSucceeds(s[1..]);
      } else {
        var d := EscapeAt(s, 0, false).value;
        CUnescapeLenientSucceeds(s[d.consumed..]);
      }
    }
  }

  /** Where strict unescaping succeeds, the lenient one gives the same bytes:
      the flag only decides what happens to malformed escapes. */
  lemma {:induction false} CUnescapeStrictAgrees(s: bytes)
    requires CUnescape(s, true).Ok?
    ensures CUnescape(s, false) == CUnescape(s, true)
    decreases |s|
  {
    if s != [] {
      if s[0] != '\\' {
        CUnescapeStrictAgrees(s[1..]);
      } else {
        var d := EscapeAt(s, 0, true).value;
        assert EscapeAt(s, 0, false) == EscapeAt(s, 0, true);
        CUnescapeStrictAgrees(s[d.consumed..]);
      }
    }
  }

  /** Printable runs around one byte: only that byte is escaped. */
  lemma CEscapeAroundOne(a: bytes, x: byte, b: bytes)
    requires forall i | 0 <= i < |a| :: CEscapeTable(a[i]) == Printable
    requires forall i | 0 <= i < |b| :: CEscapeTable(b[i]) == Printable
    ensures CEscape(a + [x] + b) == a + CEscapeByte(x) + b
  {
    CEscapePlainRun(a);
    CEscapePlainRun(b);
    CEscapeAppend(a + [x], b);
    CEscapeAppend(a, [x]);
    CEscapeSingle(x);
  }

  /** Printable runs around two bytes: only those bytes are escaped. */
  lemma CEscapeAroundTwo(a: bytes, x: byte, b: bytes, y: byte, c: bytes)
    requires forall i | 0 <= i < |a| :: CEscapeTable(a[i]) == Printable
    requires forall i | 0 <= i < |b| :: CEscapeTable(b[i]) == Printable
    requires forall i | 0 <= i < |c| :: CEscapeTable(c[i]) == Printable
    ensures CEscape(a + [x] + b + [y] + c) == a + CEscapeByte(x) + b + CEscapeByte(y) + c
  {
    CEscapeAroundOne(a, x, b);
    CEscapePlainRun(c);
    CEscapeAppend(a + [x] + b + [y], c);
    CEscapeAppend(a + [x] + b, [y]);
    CEscapeSingle(y);
  }

  /** `cEscape` examples: printable text is copied, a backslash and a double
      quote get a backslash, a newline becomes `\n` and bytes above 126 get
      three octal digits. */
  lemma CEscapePlainExample()
    ensures CEscape("hello world") == "hello world"
  {
    CEscapePlainRun("hello world");
  }

  lemma CEscapeQuoteExample()
    ensures
      var hello: bytes, world: bytes, goodbye: bytes := "hello ", "world", " goodbye";
      CEscape(hello + ['\\'] + world + ['"'] + goodbye)
        == hello + ['\\', '\\'] + world + ['\\', '"'] + goodbye
  {
    CEscapeAroundTwo("hello ", '\\', "world", '"', " goodbye");
  }

  lemma CEscapeNewlineExample()
    ensures
      var hello: bytes, world: bytes := "hello", "world";
      CEscape(hello + ['\n'] + world) == hello + ['\\', 'n'] + world
  {
    CEscapeAroundOne("hello", '\n', "world");
  }

  lemma CEscapeOctalExample()
    ensures
      var hello: bytes := "hello";
      CEscape(hello + ['\U{FF}', '\U{FE}']) == hello + "\\377\\376"
  {
    var hello: bytes := "hello";
    CEscapePlainRun(hello);
    CEscapeAppend(hello, ['\U{FF}', '\U{FE}']);
    CEscapeFFFE();
  }

  /** Bytes 0xff and 0xfe on their own. */
  lemma CEscapeFFFE()
    ensures CEscape(['\U{FF}', '\U{FE}']) == "\\377\\376"
  {
    var xy: bytes := ['\U{FF}', '\U{FE}'];
    assert xy == [xy[0]] + [xy[1]];
    CEscapeAppend([xy[0]], [xy[1]]);
    CEscapeSingle(xy[0]);
    CEscapeSingle(xy[1]);
    OctalEscapesFFFE();
  }

  lemma OctalEscapesFFFE()
    ensures CEscapeByte('\U{FF}') == "\\377" && CEscapeByte('\U{FE}') == "\\376"
  {
    assert OctalDigit(3) == '3' && OctalDigit(7) == '7' && OctalDigit(6) == '6';
  }

  /** An escape sequence `e` that reads to `v` at the front of `e + r`. */
  lemma CUnescapeEscapeThen(e: bytes, r: bytes, v: bytes, strict: bool)
    requires 0 < |e| && e[0] == '\\'
    requires EscapeAt(e + r, 0, strict) == Ok(Decoded(v, |e|))
    ensures CUnescape(e + r, strict) == Prepend(v, CUnescape(r, strict))
  {
    assert (e + r)[|e|..] == r;
  }

  /** Runs without a backslash around one escape sequence that reads to `v`. */
  lemma CUnescapeAroundOne(a: bytes, e: bytes, b: bytes, v: bytes, strict: bool)
    requires forall i | 0 <= i < |a| :: a[i] != '\\'
    requires forall i | 0 <= i < |b| :: b[i] != '\\'
    requires 0 < |e| && e[0] == '\\'
    requires EscapeAt(e + b, 0, strict) == Ok(Decoded(v, |e|))
    ensures CUnescape(a + e + b, strict) == Ok(a + v + b)
  {
    ConcatAssoc(a, e, b);
    CUnescapeLiteralThen(a, e + b, strict);
    CUnescapeEscapeThen(e, b, v, strict);
    CUnescapeNoBackslash(b, strict);
    ConcatAssoc(a, v, b);
  }

  /** Runs without a backslash around two escape sequences. */
  lemma CUnescapeAroundTwo(a: bytes, e1: bytes, b: bytes, e2: bytes, c: bytes, v1: bytes, v2: bytes, strict: bool)
    requires forall i | 0 <= i < |a| :: a[i] != '\\'
    requires forall i | 0 <= i < |b| :: b[i] != '\\'
    requires 0 < |e1| && e1[0] == '\\'
    requires EscapeAt(e1 + (b + e2 + c), 0, strict) == Ok(Decoded(v1, |e1|))
    requires 0 < |e2| && e2[0] == '\\'
    requires EscapeAt(e2 + c, 0, strict) == Ok(Decoded(v2, |e2|))
    requires forall i | 0 <= i < |c| :: c[i] != '\\'
    ensures CUnescape(a + e1 + b + e2 + c, strict) == Ok(a + v1 + b + v2 + c)
  {
    var r := b + e2 + c;
    ConcatAssoc(a + e1, b, e2);
    ConcatAssoc(a + e1, b + e2, c);
    ConcatAssoc(a, e1, r);
    CUnescapeLiteralThen(a, e1 + r, strict);
    CUnescapeEscapeThen(e1, r, v1, strict);
    CUnescapeAroundOne(b, e2, c, v2, strict);
    ConcatAssoc(a + v1, b, v2);
    ConcatAssoc(a + v1, b + v2, c);
    ConcatAssoc(a, v1, b + v2 + c);
  }

  /** A run without a backslash followed by two escape sequences. */
  lemma CUnescapeTwoEscapes(a: bytes, e1: bytes, e2: bytes, v1: bytes, v2: bytes, strict: bool)
    requires forall i | 0 <= i < |a| :: a[i] != '\\'
    requires 0 < |e1| && e1[0] == '\\'
    requires EscapeAt(e1 + e2, 0, strict) == Ok(Decoded(v1, |e1|))
    requires 0 < |e2| && e2[0] == '\\'
    requires EscapeAt(e2 + [], 0, strict) == Ok(Decoded(v2, |e2|))
    ensures CUnescape(a + e1 + e2, strict) == Ok(a + v1 + v2)
  {
    ConcatAssoc(a, e1, e2);
    CUnescapeLiteralThen(a, e1 + e2, strict);
    CUnescapeEscapeThen(e1, e2, v1, strict);
    CUnescapeEscapeThen(e2, [], v2, strict);
    assert e2 + [] == e2 && v2 + [] == v2;
    ConcatAssoc(a, v1, v2);
  }

  /** The hex escape `\xHL` of a byte, with lower-case digits. */
  function HexEscapeOf(b: byte): (r: bytes)
    ensures |r| == 4 && r[0] == '\\' && r[1] == 'x' && IsHexDigit(r[2]) && IsHexDigit(r[3])
  {
    ['\\', 'x', LowerHex(b as int / 16), LowerHex(b as int % 16)]
  }

  /** A two-digit hex escape reads back as its byte when no hex digit follows. */
  lemma HexEscapeReads(b: byte, rest: bytes, strict: bool)
    requires rest == [] || !IsHexDigit(rest[0])
    ensures EscapeAt(HexEscapeOf(b) + rest, 0, strict) == Ok(Decoded([b], 4))
  {
    var t := HexEscapeOf(b) + rest;
    assert |t| == 4 || t[4] == rest[0];
    HexEscapeOfTwo(t, strict);
    HexDigitsValue(b, t[2], t[3]);
  }

  /** The two digits of `\xHL` accumulate to the byte they were written for. */
  lemma HexDigitsValue(b: byte, h: byte, l: byte)
    requires h == LowerHex(b as int / 16) && l == LowerHex(b as int % 16)
    ensures DigitsValue([h, l], 16) == b
  {
    var hi, lo := b as int / 16, b as int % 16;
    assert HexTable(h) == hi && HexTable(l) == lo;
    assert hi * 16 + lo == b as int;
    DigitsValueTwo(h, l, 16);
    assert (hi * 16 + lo) % 256 == hi * 16 + lo;
  }

  /** A run without a backslash followed by an escape sequence that fails. */
  lemma CUnescapeFailsAfter(a: bytes, t: bytes, strict: bool)
    requires forall i | 0 <= i < |a| :: a[i] != '\\'
    requires 0 < |t| && t[0] == '\\' && EscapeAt(t, 0, strict).Err?
    ensures CUnescape(a + t, strict) == Err(EscapeAt(t, 0, strict).error)
  {
    CUnescapeLiteralThen(a, t, strict);
  }

  /** Two digits accumulate to `d1 * base + d2`, cut to eight bits. */
  lemma DigitsValueTwo(a: byte, b: byte, base: nat)
    requires IsHexDigit(a) && IsHexDigit(b)
    ensures DigitsValue([a, b], base) as int == (HexTable(a) * base + HexTable(b)) % 256
  {
    assert [a, b][..1] == [a] && [a][..0] == [];
    assert DigitsValue([a], base) as int == HexTable(a);
  }

  /** Three digits accumulate the same way, one digit at a time. */
  lemma DigitsValueThree(a: byte, b: byte, c: byte, base: nat)
    requires IsHexDigit(a) && IsHexDigit(b) && IsHexDigit(c)
    ensures DigitsValue([a, b, c], base) as int
         == (((HexTable(a) * base + HexTable(b)) % 256) * base + HexTable(c)) % 256
  {
    assert [a, b, c][..2] == [a, b];
    DigitsValueTwo(a, b, base);
  }

  /** An octal escape with three digits takes four bytes, whatever follows. */
  lemma OctalEscapeOfThree(t: bytes, strict: bool)
    requires 4 <= |t| && t[0] == '\\' && IsOctalDigit(t[1]) && IsOctalDigit(t[2]) && IsOctalDigit(t[3])
    ensures EscapeAt(t, 0, strict) == Ok(Decoded([DigitsValue([t[1], t[2], t[3]], 8)], 4))
  {
    assert t[1..][..3] == [t[1], t[2], t[3]];
    assert t[1..4] == [t[1], t[2], t[3]];
  }

  /** A hex escape with two digits takes four bytes when no hex digit follows. */
  lemma HexEscapeOfTwo(t: bytes, strict: bool)
    requires 4 <= |t| && t[0] == '\\' && t[1] == 'x' && IsHexDigit(t[2]) && IsHexDigit(t[3])
    requires |t| == 4 || !IsHexDigit(t[4])
    ensures EscapeAt(t, 0, strict) == Ok(Decoded([DigitsValue([t[2], t[3]], 16)], 4))
  {
    var u := t[2..];
    assert u[1..][1..] == t[4..];
    assert HexRun(u[1..][1..]) == 0;
    assert HexRun(u) == 2;
    assert t[2..4] == [t[2], t[3]];
  }

  /** `cUnescape` examples, in the default strict mode. */
  lemma CUnescapePlainExample()
    ensures CUnescape("hello world", true) == Ok("hello world")
  {
    CUnescapeNoBackslash("hello world", true);
  }

  lemma CUnescapeQuoteExample()
    ensures
      var hello: bytes, world: bytes, goodbye: bytes := "hello ", "world", " goodbye";
      CUnescape(hello + ['\\', '\\'] + world + ['\\', '"'] + goodbye, true)
        == Ok(hello + ['\\'] + world + ['"'] + goodbye)
  {
    var hello: bytes, world: bytes, goodbye: bytes := "hello ", "world", " goodbye";
    var e1: bytes, e2: bytes := ['\\', '\\'], ['\\', '"'];
    assert EscapeAt(e1 + (world + e2 + goodbye), 0, true) == Ok(Decoded(['\\'], 2));
    assert EscapeAt(e2 + goodbye, 0, true) == Ok(Decoded(['"'], 2));
    CUnescapeAroundTwo(hello, e1, world, e2, goodbye, ['\\'], ['"'], true);
  }

  /** A newline written as `\n`, as `\012` and as `\x0a`. */
  lemma CUnescapeNewlineExample()
    ensures
      var hello: bytes, world: bytes := "hello", "world";
      CUnescape(hello + "\\n" + world, true) == Ok(hello + "\n" + world)
  {
    var world: bytes := "world";
    var n: bytes := "\\n";
    assert EscapeAt(n + world, 0, true) == Ok(Decoded("\n", 2));
    CUnescapeAroundOne("hello", n, world, "\n", true);
  }

  lemma CUnescapeOctalNewlineExample()
    ensures
      var hello: bytes, world: bytes := "hello", "world";
      CUnescape(hello + "\\012" + world, true) == Ok(hello + "\n" + world)
  {
    var world: bytes := "world";
    var o: bytes := "\\012";
    var t := o + world;
    assert t[1] == '0' && t[2] == '1' && t[3] == '2';
    OctalEscapeOfThree(t, true);
    assert [t[1], t[2], t[3]] == ['0', '1', '2'];
    OctalNewline();
    assert EscapeAt(t, 0, true) == Ok(Decoded("\n", 4));
    CUnescapeAroundOne("hello", o, world, "\n", true);
  }

  /** The octal digits `012` make a newline. */
  lemma OctalNewline()
    ensures DigitsValue(['0', '1', '2'], 8) == '\n'
  {
    DigitsValueThree('0', '1', '2', 8);
  }

  lemma CUnescapeHexNewlineExample()
    ensures
      var hello: bytes, world: bytes := "hello", "world";
      CUnescape(hello + "\\x0a" + world, true) == Ok(hello + "\n" + world)
  {
    var world: bytes := "world";
    var x: bytes := "\\x0a";
    HexEscapeOfTwo(x + world, true);
    DigitsValueTwo('0', 'a', 16);
    CUnescapeAroundOne("hello", x, world, "\n", true);
  }

  /** Bytes 0xff and 0xfe written as octal and as hex escapes. */
  lemma CUnescapeOctalPairExample()
    ensures
      var hello: bytes := "hello";
      CUnescape(hello + "\\377\\376", true) == Ok(hello + ['\U{FF}', '\U{FE}'])
  {
    var hello: bytes := "hello";
    CEscapeOctalExample();
    CUnescapeCEscape(hello + ['\U{FF}', '\U{FE}'], true);
  }

  lemma CUnescapeHexPairExample()
    ensures
      var hello: bytes := "hello";
      CUnescape(hello + "\\xff" + "\\xfe", true) == Ok(hello + ['\U{FF}'] + ['\U{FE}'])
  {
    var e1, e2 := HexEscapeOf('\U{FF}'), HexEscapeOf('\U{FE}');
    assert e1 == "\\xff" && e2 == "\\xfe";
    HexEscapeReads('\U{FF}', e2, true);
    HexEscapeReads('\U{FE}', [], true);
    CUnescapeTwoEscapes("hello", e1, e2, ['\U{FF}'], ['\U{FE}'], true);
  }

  /** Strict `cUnescape` rejects a trailing backslash, a `\x` with nothing
      after it and an unknown escape letter. */
  lemma CUnescapeErrorExamples()
    ensures
      var hello: bytes := "hello";
      && CUnescape(hello + "\\", true) == Err(IncompleteEscape)
      && CUnescape(hello + "\\x", true) == Err(IncompleteHexEscape)
      && CUnescape(hello + "\\q", true) == Err(InvalidEscape)
  {
    CUnescapeFailsAfter("hello", "\\", true);
    CUnescapeFailsAfter("hello", "\\x", true);
    CUnescapeFailsAfter("hello", "\\q", true);
  }

  /** The same inputs with `strict` false: the malformed escapes are copied. */
  lemma CUnescapeLenientExamples()
    ensures
      var hello: bytes := "hello";
      && CUnescape(hello + "\\", false) == Ok(hello + "\\")
      && CUnescape(hello + "\\x", false) == Ok(hello + "\\x")
      && CUnescape(hello + "\\q", false) == Ok(hello + "\\q")
  {
    var hello: bytes := "hello";
    CUnescapeAroundOne(hello, "\\", [], "\\", false);
    CUnescapeAroundOne(hello, "\\x", [], "\\x", false);
    CUnescapeAroundOne(hello, "\\q", [], "\\q", false);
    assert hello + "\\" + [] == hello + "\\";
    assert hello + "\\x" + [] == hello + "\\x";
    assert hello + "\\q" + [] == hello + "\\q";
  }
}
