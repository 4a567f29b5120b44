/** Percent-encoding for URIs: `uriEscape` writes `%XX` (lower-case hex) for
    every byte its mode does not let through, `uriUnescape` reads `%XX` in
    either case back. */
module UriEscapes {
  import opened Wrappers
  import opened Bytes
  import opened Buffers

  /** `UriEscapeMode`. The library compares a table entry against the mode's
      underlying value, so the order ALL = 0, QUERY = 1, PATH = 2 matters. */
  datatype UriEscapeMode = All | Query | Path

  function ModeValue(mode: UriEscapeMode): (v: nat)
    ensures v <= 2
  {
    match mode
    case All => 0
    case Query => 1
    case Path => 2
  }

  predicate IsAlnum(b: byte)
  {
    ('0' <= b <= '9') || ('A' <= b <= 'Z') || ('a' <= b <= 'z')
  }

  /** `detail::uriEscapeTable`: 0 for the unreserved bytes (letters, digits
      and `-_.~`), 2 for `/`, 3 for space and 4 for every other byte. A byte
      passes through when its entry is at most the mode's value. */
  function UriEscapeTable(b: byte): (d: nat)
    ensures d == 0 || d == 2 || d == 3 || d == 4
  {
    if IsAlnum(b) || b == '-' || b == '_' || b == '.' || b == '~' then 0
    else if b == '/' then 2
    else if b == ' ' then 3
    else 4
  }

  predicate PassesThrough(b: byte, mode: UriEscapeMode)
  {
    UriEscapeTable(b) <= ModeValue(mode)
  }

  /** What `uriEscape` writes for one byte. */
  function UriEscapeByte(b: byte, mode: UriEscapeMode): (r: bytes)
    ensures AllPrintable(r)
    ensures r == [b] <==> PassesThrough(b, mode)
    ensures |r| == 1 || |r| == 3
  {
    if PassesThrough(b, mode) then [b]
    else if mode == Query && UriEscapeTable(b) == 3 then ['+']
    else ['%', LowerHex(b as int / 16), LowerHex(b as int % 16)]
  }

  /** `uriEscape`, value-returning form. Its output is printable and at most
      three times as long as its input. */
  function UriEscape(s: bytes, mode: UriEscapeMode): (r: bytes)
    ensures AllPrintable(r)
    ensures |s| <= |r| <= 3 * |s|
  {
    if s == [] then [] else UriEscapeByte(s[0], mode) + UriEscape(s[1..], mode)
  }

  lemma {:induction false} UriEscapeAppend(a: bytes, b: bytes, mode: UriEscapeMode)
    ensures UriEscape(a + b, mode) == UriEscape(a, mode) + UriEscape(b, mode)
  {
    if a == [] {
      assert a + b == b;
    } else {
      assert (a + b)[1..] == a[1..] + b;
      UriEscapeAppend(a[1..], b, mode);
    }
  }

  lemma UriEscapeSingle(b: byte, mode: UriEscapeMode)
    ensures UriEscape([b], mode) == UriEscapeByte(b, mode)
  {
    assert UriEscape([b], mode) == UriEscapeByte(b, mode) + UriEscape([], mode);
  }

  lemma UriEscapeNext(s: bytes, p: nat, mode: UriEscapeMode)
    requires p < |s|
    ensures UriEscape(s[..p + 1], mode) == UriEscape(s[..p], mode) + UriEscapeByte(s[p], mode)
  {
    UriEscapeAppend(s[..p], [s[p]], mode);
    PrefixNext(s, p);
    UriEscapeSingle(s[p], mode);
  }

  /** A run of bytes the mode lets through is copied unchanged. */
  lemma {:induction false} UriEscapePlainRun(s: bytes, mode: UriEscapeMode)
    requires forall i | 0 <= i < |s| :: PassesThrough(s[i], mode)
    ensures UriEscape(s, mode) == s
  {
    if s != [] {
      UriEscapePlainRun(s[1..], mode);
    }
  }

  lemma UriEscapeRun(str: bytes, last: nat, p: nat, mode: UriEscapeMode)
    requires last <= p <= |str|
    requires forall i | last <= i < p :: PassesThrough(str[i], mode)
    ensures UriEscape(str[..p], mode) == UriEscape(str[..last], mode) + str[last..p]
  {
    var run := str[last..p];
    UriEscapePlainRun(run, mode);
    UriEscapeAppend(str[..last], run, mode);
    PrefixJoin(str, last, p);
  }

  /** `out.append(&*last, p - last)` for a run of bytes that pass through. */
  method FlushRun(str: bytes, last: nat, p: nat, out: ByteString, mode: UriEscapeMode, ghost base: bytes)
    requires last <= p <= |str|
    requires forall i | last <= i < p :: PassesThrough(str[i], mode)
    requires out.bytes == base + UriEscape(str[..last], mode)
    modifies out
    ensures out.bytes == base + UriEscape(str[..p], mode)
  {
    UriEscapeRun(str, last, p, mode);
    ConcatAssoc(base, UriEscape(str[..last], mode), str[last..p]);
    out.Append(str[last..p]);
  }

  /** `uriEscape(str, out, mode)`: appends the escaped form of `str` to `out`,
      copying each run of bytes that pass through in one `append`. */
  method UriEscapeInto(str: bytes, out: ByteString, mode: UriEscapeMode)
    modifies out
    ensures out.bytes == old(out.bytes) + UriEscape(str, mode)
  {
    ghost var base := out.bytes;
    var minEncode := ModeValue(mode);
    var p, last := 0, 0;
    while p < |str|
      invariant 0 <= last <= p <= |str|
      invariant out.bytes == base + UriEscape(str[..last], mode)
      invariant forall i | last <= i < p :: PassesThrough(str[i], mode)
    {
      var v := str[p];
      var discriminator := UriEscapeTable(v);
      if discriminator <= minEncode {
        p := p + 1;
      } else {
        FlushRun(str, last, p, out, mode, base);
        AppendEscape(str, p, out, mode, base);
        p := p + 1;
        last := p;
      }
    }
    FlushRun(str, last, p, out, mode, base);
    assert str[..p] == str;
  }

  /** The `+` or `%XX` that `uriEscape` appends for a byte its mode does not
      let through. */
  method AppendEscape(str: bytes, p: nat, out: ByteString, mode: UriEscapeMode, ghost base: bytes)
    requires p < |str| && !PassesThrough(str[p], mode)
    requires out.bytes == base + UriEscape(str[..p], mode)
    modifies out
    ensures out.bytes == base + UriEscape(str[..p + 1], mode)
  {
    var v := str[p];
    var esc: bytes;
    if mode == Query && UriEscapeTable(v) == 3 {
      esc := ['+'];
    } else {
      esc := ['%', HexValues[v as int / 16], HexValues[v as int % 16]];
    }
    assert esc == UriEscapeByte(v, mode);
    UriEscapeNext(str, p, mode);
    ConcatAssoc(base, UriEscape(str[..p], mode), esc);
    out.Append(esc);
  }

  /** The two `std::invalid_argument` messages of `uriUnescape`. */
  datatype UriError =
    | IncompletePercent  // fewer than two bytes follow a `%`
    | InvalidPercent     // a byte after `%` is not a hex digit

  /** A byte `uriUnescape` copies: anything but `%`, and anything but `+` in
      QUERY mode. */
  predicate IsPlain(b: byte, mode: UriEscapeMode)
  {
    b != '%' && !(b == '+' && mode == Query)
  }

  /** How many bytes the sequence starting with `b` takes: three for `%XY`,
      one for the `+` of QUERY mode. */
  function TokenLength(b: byte): nat
  {
    if b == '%' then 3 else 1
  }

  /** What the `%XY` or `+` at `s[q]` stands for. The length check comes
      before the digit check, as in the library. */
  function DecodeAt(s: bytes, q: nat, mode: UriEscapeMode): (r: Result<byte, UriError>)
    requires q < |s| && !IsPlain(s[q], mode)
    ensures r.Ok? ==> q + TokenLength(s[q]) <= |s|
  {
    if s[q] == '+' then Ok(' ')
    else if |s| - q < 3 then Err(IncompletePercent)
    else if HexTable(s[q + 1]) == 16 || HexTable(s[q + 2]) == 16 then Err(InvalidPercent)
    else Ok(HexPair(s[q + 1], s[q + 2]))
  }

  /** `uriUnescape`, value-returning form. */
  function UriUnescape(s: bytes, mode: UriEscapeMode): Result<bytes, UriError>
    decreases |s|
  {
    if s == [] then Ok([])
    else if IsPlain(s[0], mode) then Prepend([s[0]], UriUnescape(s[1..], mode))
    else
      match DecodeAt(s, 0, mode)
      case Err(e) => Err(e)
      case Ok(v) => Prepend([v], UriUnescape(s[TokenLength(s[0])..], mode))
  }

  /** Unescaping the escape of one byte gives that byte back, whatever follows. */
  lemma UriUnescapeEscapedByte(b: byte, rest: bytes, mode: UriEscapeMode)
    ensures UriUnescape(UriEscapeByte(b, mode) + rest, mode) == Prepend([b], UriUnescape(rest, mode))
  {
    var e := UriEscapeByte(b, mode);
    var t := e + rest;
    assert t[|e|..] == rest;
    if !PassesThrough(b, mode) && !(mode == Query && UriEscapeTable(b) == 3) {
      var hi, lo := b as int / 16, b as int % 16;
      assert t[1] == LowerHex(hi) && t[2] == LowerHex(lo);
      assert hi * 16 + lo == b as int;
      assert DecodeAt(t, 0, mode) == Ok(b);
    }
  }

  /** `uriUnescape` inverts `uriEscape` in every mode: the property behind the
      test that escapes and unescapes every two-byte string. */
  lemma {:induction false} UriUnescapeUriEscape(s: bytes, mode: UriEscapeMode)
    ensures UriUnescape(UriEscape(s, mode), mode) == Ok(s)
  {
    if s != [] {
      UriUnescapeEscapedByte(s[0], UriEscape(s[1..], mode), mode);
      UriUnescapeUriEscape(s[1..], mode);
      assert [s[0]] + s[1..] == s;
    }
  }

  /** A three-byte `%XY` decodes to one byte exactly when both `X` and `Y`
      are hex digits of either case, and that byte is the value of `XY`. */
  lemma PercentDecoding(x: byte, y: byte, mode: UriEscapeMode)
    ensures UriUnescape(['%', x, y], mode).Ok? <==> IsHexDigit(x) && IsHexDigit(y)
    ensures UriUnescape(['%', x, y], mode).Ok? ==>
      UriUnescape(['%', x, y], mode).value == [HexPair(x, y)]
    ensures UriUnescape(['%', x, y], mode).Err? ==>
      UriUnescape(['%', x, y], mode).error == InvalidPercent
  {
    var t: bytes := ['%', x, y];
    assert t[3..] == [];
    assert UriUnescape([], mode) == Ok([]);
  }

  /** A run of plain bytes unescapes to itself. */
  lemma {:induction false} UriUnescapePlainRun(str: bytes, last: nat, p: nat, mode: UriEscapeMode)
    requires last <= p <= |str|
    requires forall i | last <= i < p :: IsPlain(str[i], mode)
    ensures UriUnescape(str[last..], mode) == Prepend(str[last..p], UriUnescape(str[p..], mode))
    decreases p - last
  {
    if last == p {
      assert str[last..p] == [];
      assert UriUnescape(str[p..], mode).Ok? ==>
        [] + UriUnescape(str[p..], mode).value == UriUnescape(str[p..], mode).value;
    } else {
      DropDrop(str, last, 1);
      UriUnescapePlainRun(str, last + 1, p, mode);
      PrependPrepend([str[last]], str[last + 1..p], UriUnescape(str[p..], mode));
      SliceCons(str, last, p);
    }
  }

  /** A sequence reads the same inside the whole input as in the suffix
      starting at it. */
  lemma DecodeAtSuffix(str: bytes, q: nat, mode: UriEscapeMode)
    requires q < |str| && !IsPlain(str[q], mode)
    ensures DecodeAt(str[q..], 0, mode) == DecodeAt(str, q, mode)
  {
    if q + 2 < |str| {
      DropDrop(str, q, 1);
      DropDrop(str, q, 2);
    }
  }

  /** One step of `uriUnescape` over the `%XY` or `+` at `q`. */
  lemma UriUnescapeTokenStep(str: bytes, q: nat, mode: UriEscapeMode)
    requires q < |str| && !IsPlain(str[q], mode)
    ensures
      var d := DecodeAt(str, q, mode);
      UriUnescape(str[q..], mode) ==
        if d.Err? then Err(d.error)
        else Prepend([d.value], UriUnescape(str[q + TokenLength(str[q])..], mode))
  {
    DecodeAtSuffix(str, q, mode);
    var d := DecodeAt(str, q, mode);
    if d.Ok? {
      DropDrop(str, q, TokenLength(str[q]));
    }
  }

  /** The account `uriUnescape`'s loop keeps, when the sequence at `p` fails:
      the whole unescape fails. */
  lemma TokenFails(str: bytes, last: nat, p: nat, base: bytes, outBytes: bytes, mode: UriEscapeMode)
    requires last <= p < |str| && !IsPlain(str[p], mode)
    requires forall i | last <= i < p :: IsPlain(str[i], mode)
    requires Prepend(base, UriUnescape(str, mode)) == Prepend(outBytes, UriUnescape(str[last..], mode))
    requires DecodeAt(str, p, mode).Err?
    ensures UriUnescape(str, mode) == Err(DecodeAt(str, p, mode).error)
  {
    UriUnescapePlainRun(str, last, p, mode);
    UriUnescapeTokenStep(str, p, mode);
  }

  /** The account `uriUnescape`'s loop keeps, when the sequence at `p`
      decodes: once the pending run and the decoded byte are appended, it
      holds again after the sequence. */
  lemma TokenDone(str: bytes, last: nat, p: nat, base: bytes, outBytes: bytes, after: bytes, next: nat, mode: UriEscapeMode)
    requires last <= p < |str| && !IsPlain(str[p], mode)
    requires forall i | last <= i < p :: IsPlain(str[i], mode)
    requires Prepend(base, UriUnescape(str, mode)) == Prepend(outBytes, UriUnescape(str[last..], mode))
    requires DecodeAt(str, p, mode).Ok?
    requires next == p + TokenLength(str[p])
    requires after == outBytes + str[last..p] + [DecodeAt(str, p, mode).value]
    ensures next <= |str|
    ensures Prepend(base, UriUnescape(str, mode)) == Prepend(after, UriUnescape(str[next..], mode))
  {
    UriUnescapePlainRun(str, last, p, mode);
    PrependPrepend(outBytes, str[last..p], UriUnescape(str[p..], mode));
    UriUnescapeTokenStep(str, p, mode);
    PrependPrepend(outBytes + str[last..p], [DecodeAt(str, p, mode).value], UriUnescape(str[next..], mode));
  }

  /** The body of `uriUnescape`'s loop at a `%` or at the `+` of QUERY mode:
      check the sequence, then append the pending run and the decoded byte. */
  method DecodeToken(str: bytes, last: nat, p: nat, out: ByteString, mode: UriEscapeMode)
    returns (next: nat, r: Outcome<UriError>)
    requires last <= p < |str| && !IsPlain(str[p], mode)
    modifies out
    ensures p < next <= |str|
    ensures
      var d := DecodeAt(str, p, mode);
      && (r.Pass? <==> d.Ok?)
      && (r.Pass? ==> next == p + TokenLength(str[p])
                      && out.bytes == old(out.bytes) + str[last..p] + [d.value])
      && (r.Fail? ==> r.error == d.error && out.bytes == old(out.bytes))
  {
    if str[p] == '%' {
      if |str| - p < 3 {
        return p + 1, Fail(IncompletePercent);
      }
      var h1, h2 := HexTable(str[p + 1]), HexTable(str[p + 2]);
      if h1 == 16 || h2 == 16 {
        return p + 1, Fail(InvalidPercent);
      }
      out.Append(str[last..p]);
      out.PushBack(ByteOf(h1 * 16 + h2));
      next := p + 3;
    } else {
      out.Append(str[last..p]);
      out.PushBack(' ');
      next := p + 1;
    }
    r := Pass;
  }

  /** One `%XY` or `+` of the loop, with the account it keeps. */
  method FlushAndDecode(str: bytes, last: nat, p: nat, out: ByteString, mode: UriEscapeMode, ghost base: bytes)
    returns (next: nat, r: Outcome<UriError>)
    requires last <= p < |str| && !IsPlain(str[p], mode)
    requires forall i | last <= i < p :: IsPlain(str[i], mode)
    requires base <= out.bytes
    requires Prepend(base, UriUnescape(str, mode)) == Prepend(out.bytes, UriUnescape(str[last..], mode))
    modifies out
    ensures p < next <= |str| && base <= out.bytes
    ensures r.Fail? ==> UriUnescape(str, mode) == Err(r.error)
    ensures r.Pass? ==> Prepend(base, UriUnescape(str, mode)) == Prepend(out.bytes, UriUnescape(str[next..], mode))
  {
    ghost var before := out.bytes;
    next, r := DecodeToken(str, last, p, out, mode);
    if r.Pass? {
      ghost var v := DecodeAt(str, p, mode).value;
      PrefixGrows(base, before, str[last..p] + [v]);
      ConcatAssoc(before, str[last..p], [v]);
      TokenDone(str, last, p, base, before, out.bytes, next, mode);
    } else {
      TokenFails(str, last, p, base, before, mode);
    }
  }

  /** `uriUnescape(str, out, mode)`: appends the unescaped form of `str` to
      `out`. On an error it stops (the C++ code throws) without appending the
      pending run. */
  method UriUnescapeInto(str: bytes, out: ByteString, mode: UriEscapeMode) returns (r: Outcome<UriError>)
    modifies out
    ensures r.Pass? <==> UriUnescape(str, mode).Ok?
    ensures r.Pass? ==> out.bytes == old(out.bytes) + UriUnescape(str, mode).value
    ensures r.Fail? ==> r.error == UriUnescape(str, mode).error
    ensures r.Fail? ==> old(out.bytes) <= out.bytes
  {
    var p, last := 0, 0;
    assert str[0..] == str;
    while p < |str|
      invariant 0 <= last <= p <= |str|
      invariant old(out.bytes) <= out.bytes
      invariant forall i | last <= i < p :: IsPlain(str[i], mode)
      invariant Prepend(old(out.bytes), UriUnescape(str, mode)) == Prepend(out.bytes, UriUnescape(str[last..], mode))
    {
      if IsPlain(str[p], mode) {
        p := p + 1;
      } else {
        var next, step := FlushAndDecode(str, last, p, out, mode, old(out.bytes));
        if step.Fail? {
          return step;
        }
        p, last := next, next;
      }
    }
    UriUnescapePlainRun(str, last, p, mode);
    PrependPrepend(out.bytes, str[last..p], UriUnescape(str[p..], mode));
    out.Append(str[last..p]);
    assert str[p..] == [];
    assert out.bytes + [] == out.bytes;
    r := Pass;
  }

  /** Passing runs around a middle part: only the middle is escaped. */
  lemma UriEscapeAround(a: bytes, m: bytes, b: bytes, mode: UriEscapeMode)
    requires forall i | 0 <= i < |a| :: PassesThrough(a[i], mode)
    requires forall i | 0 <= i < |b| :: PassesThrough(b[i], mode)
    ensures UriEscape(a + m + b, mode) == a + UriEscape(m, mode) + b
  {
    UriEscapePlainRun(a, mode);
    UriEscapePlainRun(b, mode);
    UriEscapeAppend(a + m, b, mode);
    UriEscapeAppend(a, m, mode);
  }

  lemma UriEscapeThree(x: byte, y: byte, z: byte, mode: UriEscapeMode)
    ensures UriEscape([x, y, z], mode) == UriEscapeByte(x, mode) + UriEscapeByte(y, mode) + UriEscapeByte(z, mode)
  {
    assert [x, y, z] == [x] + [y] + [z];
    UriEscapeAppend([x] + [y], [z], mode);
    UriEscapeAppend([x], [y], mode);
    UriEscapeSingle(x, mode);
    UriEscapeSingle(y, mode);
    UriEscapeSingle(z, mode);
  }

  /** Passing runs around three bytes: only those bytes are escaped. */
  lemma UriEscapeAroundThree(a: bytes, x: byte, y: byte, z: byte, b: bytes, mode: UriEscapeMode)
    requires forall i | 0 <= i < |a| :: PassesThrough(a[i], mode)
    requires forall i | 0 <= i < |b| :: PassesThrough(b[i], mode)
    ensures UriEscape(a + [x, y, z] + b, mode)
         == a + (UriEscapeByte(x, mode) + UriEscapeByte(y, mode) + UriEscapeByte(z, mode)) + b
  {
    UriEscapeAround(a, [x, y, z], b, mode);
    UriEscapeThree(x, y, z, mode);
  }

  /** A byte written as a percent escape, given its two nibbles. */
  lemma UriEscapePercent(b: byte, mode: UriEscapeMode, hi: int, lo: int)
    requires !PassesThrough(b, mode) && !(mode == Query && b == ' ')
    requires 0 <= hi < 16 && 0 <= lo < 16 && b as int == 16 * hi + lo
    ensures UriEscapeByte(b, mode) == ['%', LowerHex(hi), LowerHex(lo)]
  {
    assert UriEscapeTable(b) != 3 || mode != Query;
    assert b as int / 16 == hi && b as int % 16 == lo;
  }

  /** How each mode writes the three separators of the examples below. */
  lemma UriEscapeSeparators(mode: UriEscapeMode)
    ensures UriEscapeByte(',', mode) == "%2c"
    ensures UriEscapeByte(' ', mode) == if mode == Query then "+" else "%20"
    ensures UriEscapeByte('/', mode) == if mode == Path then "/" else "%2f"
  {
    LowerHexDigits();
    UriEscapePercent(',', mode, 2, 12);
    if mode != Query {
      UriEscapePercent(' ', mode, 2, 0);
    }
    if mode != Path {
      UriEscapePercent('/', mode, 2, 15);
    }
  }

  /** `uriEscape` examples: ALL escapes the comma, the space and the slash
      with lower-case digits, PATH keeps the slash, QUERY writes the space
      as `+`. */
  lemma UriEscapeAllExample()
    ensures
      var hello: bytes, world: bytes := "hello", "world";
      UriEscape(hello + ", /" + world, All) == hello + "%2c%20%2f" + world
  {
    var hello: bytes, world: bytes := "hello", "world";
    UriEscapeAroundThree(hello, ',', ' ', '/', world, All);
    UriEscapeSeparators(All);
  }

  lemma UriEscapePathExample()
    ensures
      var hello: bytes, world: bytes := "hello", "world";
      UriEscape(hello + ", /" + world, Path) == hello + "%2c%20/" + world
  {
    var hello: bytes, world: bytes := "hello", "world";
    UriEscapeAroundThree(hello, ',', ' ', '/', world, Path);
    UriEscapeSeparators(Path);
  }

  lemma UriEscapeQueryExample()
    ensures
      var hello: bytes, world: bytes := "hello", "world";
      UriEscape(hello + ", /" + world, Query) == hello + "%2c+%2f" + world
  {
    var hello: bytes, world: bytes := "hello", "world";
    UriEscapeAroundThree(hello, ',', ' ', '/', world, Query);
    UriEscapeSeparators(Query);
  }

  /** A leading run of plain bytes is copied ahead of what follows. */
  lemma UriUnescapePlainThen(a: bytes, t: bytes, mode: UriEscapeMode)
    requires forall i | 0 <= i < |a| :: IsPlain(a[i], mode)
    ensures UriUnescape(a + t, mode) == Prepend(a, UriUnescape(t, mode))
  {
    var s := a + t;
    UriUnescapePlainRun(s, 0, |a|, mode);
    assert s[0..] == s && s[0..|a|] == a && s[|a|..] == t;
  }

  /** A `%XY` with two hex digits decodes to one byte ahead of what follows. */
  lemma UriUnescapePercentThen(x: byte, y: byte, t: bytes, mode: UriEscapeMode)
    requires IsHexDigit(x) && IsHexDigit(y)
    ensures UriUnescape(['%', x, y] + t, mode) == Prepend([HexPair(x, y)], UriUnescape(t, mode))
  {
    assert (['%', x, y] + t)[3..] == t;
  }

  /** `uriUnescape` examples. Bytes other than `%` and `+` are copied. */
  lemma UriUnescapePlainExample()
    ensures
      var hello: bytes, world: bytes := "hello", "world";
      UriUnescape(hello + ", /" + world, All) == Ok(hello + ", /" + world)
  {
    var t: bytes := "hello" + ", /" + "world";
    UriUnescapePlainThen(t, [], All);
    assert t + [] == t;
  }

  /** The escaped forms above read back. */
  lemma UriUnescapeAllExample()
    ensures
      var hello: bytes, world: bytes := "hello", "world";
      UriUnescape(hello + "%2c%20%2f" + world, All) == Ok(hello + ", /" + world)
  {
    var hello: bytes, world: bytes := "hello", "world";
    UriEscapeAllExample();
    UriUnescapeUriEscape(hello + ", /" + world, All);
  }

  lemma UriUnescapeQueryExample()
    ensures
      var hello: bytes, world: bytes := "hello", "world";
      UriUnescape(hello + "%2c+%2f" + world, Query) == Ok(hello + ", /" + world)
  {
    var hello: bytes, world: bytes := "hello", "world";
    UriEscapeQueryExample();
    UriUnescapeUriEscape(hello + ", /" + world, Query);
  }

  /** Outside QUERY mode a `+` is an ordinary byte. */
  lemma UriUnescapePlusExample()
    ensures
      var hello: bytes, world: bytes := "hello", "world";
      UriUnescape(hello + "%2c+%2f" + world, All) == Ok(hello + ",+/" + world)
  {
    var hello: bytes, world: bytes := "hello", "world";
    var t := ['%', '2', 'c', '+', '%', '2', 'f'] + world;
    assert hello + "%2c+%2f" + world == hello + t;
    UriUnescapePlusMiddle(world);
    UriUnescapePlainThen(hello, t, All);
    assert hello + ([','] + (['+'] + (['/'] + world))) == hello + ",+/" + world;
  }

  lemma UriUnescapePlusMiddle(world: bytes)
    requires forall i | 0 <= i < |world| :: IsPlain(world[i], All)
    ensures UriUnescape(['%', '2', 'c', '+', '%', '2', 'f'] + world, All) == Ok([','] + (['+'] + (['/'] + world)))
  {
    UriUnescapePlainThen(world, [], All);
    assert world + [] == world;
    HexPairsCommaSlash();
    PercentPlusPercent('2', 'c', '2', 'f', world, world);
  }

  /** The constant part of `UriUnescapePlusMiddle`'s input, with its digits
      left open. */
  lemma PercentPlusPercent(x: byte, y: byte, z: byte, w: byte, t: bytes, v: bytes)
    requires IsHexDigit(x) && IsHexDigit(y) && IsHexDigit(z) && IsHexDigit(w)
    requires UriUnescape(t, All) == Ok(v)
    ensures UriUnescape(['%', x, y, '+', '%', z, w] + t, All) == Ok([HexPair(x, y)] + (['+'] + ([HexPair(z, w)] + v)))
  {
    var rest := ['%', z, w] + t;
    assert ['%', x, y, '+', '%', z, w] + t == ['%', x, y] + (['+'] + rest);
    PercentThenOk(z, w, t, v, All);
    PlainThenOk(['+'], rest, [HexPair(z, w)] + v, All);
    PercentThenOk(x, y, ['+'] + rest, ['+'] + ([HexPair(z, w)] + v), All);
  }

  lemma HexPairsCommaSlash()
    ensures HexPair('2', 'c') == ',' && HexPair('2', 'f') == '/'
  {
  }

  lemma PercentThenOk(x: byte, y: byte, t: bytes, v: bytes, mode: UriEscapeMode)
    requires IsHexDigit(x) && IsHexDigit(y) && UriUnescape(t, mode) == Ok(v)
    ensures UriUnescape(['%', x, y] + t, mode) == Ok([HexPair(x, y)] + v)
  {
    UriUnescapePercentThen(x, y, t, mode);
  }

  lemma PlainThenOk(a: bytes, t: bytes, v: bytes, mode: UriEscapeMode)
    requires forall i | 0 <= i < |a| :: IsPlain(a[i], mode)
    requires UriUnescape(t, mode) == Ok(v)
    ensures UriUnescape(a + t, mode) == Ok(a + v)
  {
    UriUnescapePlainThen(a, t, mode);
  }

  /** Hex digits of either case are accepted. */
  lemma UriUnescapeSlashExamples()
    ensures
      var hello: bytes := "hello";
      && UriUnescape(hello + "%2f", All) == Ok(hello + "/")
      && UriUnescape(hello + "%2F", All) == Ok(hello + "/")
  {
    var hello: bytes := "hello";
    UriUnescapePlainThen(hello, "%2f", All);
    UriUnescapePlainThen(hello, "%2F", All);
    PercentDecoding('2', 'f', All);
    PercentDecoding('2', 'F', All);
    assert HexPair('2', 'f') == '/' && HexPair('2', 'F') == '/';
  }

  /** A `%` with fewer than two bytes after it, or with a byte that is not a
      hex digit, is an error. */
  lemma UriUnescapeErrorExamples()
    ensures
      var hello: bytes := "hello";
      && UriUnescape(hello + "%", All) == Err(IncompletePercent)
      && UriUnescape(hello + "%2", All) == Err(IncompletePercent)
      && UriUnescape(hello + "%2g", All) == Err(InvalidPercent)
  {
    var hello: bytes := "hello";
    UriUnescapePlainThen(hello, "%", All);
    UriUnescapePlainThen(hello, "%2", All);
    UriUnescapePlainThen(hello, "%2g", All);
    PercentDecoding('2', 'g', All);
  }
}
