/** `split`: cuts a byte string at each occurrence of a delimiter (one byte
    or a string), scanning left to right, into a growable vector or into a
    fixed number of fields. */
module Splitting {
  import opened Wrappers
  import opened Bytes
  import opened Buffers
  import opened Joining

  /** `atDelim`: the delimiter occurs at position `j` of `s`. */
  predicate MatchAt(s: bytes, d: bytes, j: int)
  {
    0 <= j && j + |d| <= |s| && MatchFrom(s, d, j, 0)
  }

  /** The bytes of `d` from index `k` on agree with those of `s` at `j`,
      compared one at a time. */
  predicate MatchFrom(s: bytes, d: bytes, j: nat, k: nat)
    requires j + |d| <= |s| && k <= |d|
    decreases |d| - k
  {
    k == |d| || (s[j + k] == d[k] && MatchFrom(s, d, j, k + 1))
  }

  lemma {:induction false} MatchFromSlice(s: bytes, d: bytes, j: nat, k: nat)
    requires j + |d| <= |s| && k <= |d|
    ensures MatchFrom(s, d, j, k) <==> s[j + k..j + |d|] == d[k..]
    decreases |d| - k
  {
    if k < |d| {
      MatchFromSlice(s, d, j, k + 1);
      assert s[j + k..j + |d|] == [s[j + k]] + s[j + k + 1..j + |d|];
      assert d[k..] == [d[k]] + d[k + 1..];
    }
  }

  /** A match is the delimiter found among the bytes at `j`. */
  lemma MatchAtSlice(s: bytes, d: bytes, j: nat)
    requires j + |d| <= |s|
    ensures MatchAt(s, d, j) <==> s[j..j + |d|] == d
  {
    MatchFromSlice(s, d, j, 0);
    assert d[0..] == d;
  }

  /** `atDelim(&s[i], delim)`: a `memcmp` of the delimiter against the bytes
      at `i`. */
  function AtDelim(s: bytes, i: nat, d: bytes): (r: bool)
    requires i + |d| <= |s|
    ensures r <==> MatchAt(s, d, i)
  {
    MatchAtSlice(s, d, i);
    s[i..i + |d|] == d
  }

  /** The first occurrence of `d` in `s` at or after `i`, as
      `StringPiece::find` reports it (an empty delimiter is found at once). */
  function FindFrom(s: bytes, d: bytes, i: nat): (r: Option<nat>)
    ensures r.Some? ==> i <= r.value && MatchAt(s, d, r.value)
    decreases |s| - i
  {
    if i + |d| > |s| then None
    else if MatchAt(s, d, i) then Some(i)
    else FindFrom(s, d, i + 1)
  }

  /** `find` reports the first occurrence, and none when there is none. */
  lemma {:induction false} FindFromFirst(s: bytes, d: bytes, i: nat)
    ensures FindFrom(s, d, i).Some? ==> forall j | i <= j < FindFrom(s, d, i).value :: !MatchAt(s, d, j)
    ensures FindFrom(s, d, i).None? ==> forall j | i <= j :: !MatchAt(s, d, j)
    decreases |s| - i
  {
    if i + |d| <= |s| && !MatchAt(s, d, i) {
      FindFromFirst(s, d, i + 1);
    }
  }

  /** The tokens `internalSplit` emits from the token starting at `t` once
      its scan has reached `i`: a match at `i` ends the token and the scan
      resumes after the delimiter; once fewer than `|d|` bytes are left the
      rest is the final token. */
  function Scan(s: bytes, d: bytes, t: nat, i: nat): (r: seq<bytes>)
    requires 0 < |d| && t <= i <= |s|
    ensures r != []
    decreases |s| - i, 1
  {
    if i + |d| > |s| then [s[t..]] else Probe(s, d, t, i)
  }

  /** The scan at a position with room for the delimiter: `atDelim` decides
      between ending the token there and moving on by one byte. */
  function Probe(s: bytes, d: bytes, t: nat, i: nat): (r: seq<bytes>)
    requires 0 < |d| && t <= i && i + |d| <= |s|
    ensures r != []
    decreases |s| - i, 0
  {
    if MatchAt(s, d, i) then [s[t..i]] + Scan(s, d, i + |d|, i + |d|)
    else Scan(s, d, t, i + 1)
  }

  /** `internalSplit` with empty pieces kept. An empty delimiter leaves the
      input whole; so does one longer than the input (`ScanLonger`). */
  function Pieces(s: bytes, d: bytes): (r: seq<bytes>)
    ensures r != []
  {
    if |d| == 0 then [s] else Scan(s, d, 0, 0)
  }

  lemma ScanLonger(s: bytes, d: bytes)
    requires |s| < |d|
    ensures Pieces(s, d) == [s]
  {
    assert s[0..] == s;
  }

  /** The pieces that are not empty, in order. */
  function NonEmpty(ps: seq<bytes>): (r: seq<bytes>)
    ensures |r| <= |ps|
    ensures forall k | 0 <= k < |r| :: r[k] != []
  {
    if ps == [] then [] else (if ps[0] == [] then [] else [ps[0]]) + NonEmpty(ps[1..])
  }

  /** What `split(delim, input, out, ignoreEmpty)` appends to `out`. */
  function Split(s: bytes, d: bytes, ignoreEmpty: bool): seq<bytes>
  {
    if ignoreEmpty then NonEmpty(Pieces(s, d)) else Pieces(s, d)
  }

  lemma {:induction false} NonEmptyAppend(a: seq<bytes>, b: seq<bytes>)
    ensures NonEmpty(a + b) == NonEmpty(a) + NonEmpty(b)
  {
    if a == [] {
      assert a + b == b;
    } else {
      assert (a + b)[1..] == a[1..] + b;
      NonEmptyAppend(a[1..], b);
      ConcatAssoc(if a[0] == [] then [] else [a[0]], NonEmpty(a[1..]), NonEmpty(b));
    }
  }

  /** The pieces emitted so far, filtered as `ignoreEmpty` asks. */
  function Kept(ps: seq<bytes>, ignoreEmpty: bool): seq<bytes>
  {
    if ignoreEmpty then NonEmpty(ps) else ps
  }

  lemma KeptAppend(a: seq<bytes>, b: seq<bytes>, ignoreEmpty: bool)
    ensures Kept(a + b, ignoreEmpty) == Kept(a, ignoreEmpty) + Kept(b, ignoreEmpty)
  {
    if ignoreEmpty {
      NonEmptyAppend(a, b);
    }
  }

  lemma KeptOne(p: bytes, ignoreEmpty: bool)
    ensures Kept([p], ignoreEmpty) == if !ignoreEmpty || |p| > 0 then [p] else []
  {
    assert [p][1..] == [];
  }

  /** Emits one piece the way `*out++ = sp.subpiece(...)` does, unless it is
      empty and `ignoreEmpty` is set. */
  method EmitPiece(out: StringVector, piece: bytes, ignoreEmpty: bool, ghost base: seq<bytes>, ghost done: seq<bytes>)
    requires out.items == base + Kept(done, ignoreEmpty)
    modifies out
    ensures out.items == base + Kept(done + [piece], ignoreEmpty)
  {
    KeptAppend(done, [piece], ignoreEmpty);
    KeptOne(piece, ignoreEmpty);
    if !ignoreEmpty || |piece| > 0 {
      ConcatAssoc(base, Kept(done, ignoreEmpty), [piece]);
      out.PushBack(piece);
    } else {
      assert Kept(done + [piece], ignoreEmpty) == Kept(done, ignoreEmpty) + [];
    }
  }

  /** Emits the final piece, which completes the pieces. */
  method EmitLast(out: StringVector, piece: bytes, ignoreEmpty: bool, ghost base: seq<bytes>, ghost done: seq<bytes>, ghost whole: seq<bytes>)
    requires out.items == base + Kept(done, ignoreEmpty)
    requires done + [piece] == whole
    modifies out
    ensures out.items == base + Kept(whole, ignoreEmpty)
  {
    EmitPiece(out, piece, ignoreEmpty, base, done);
  }

  /** `split(delim, input, out, ignoreEmpty)` through `internalSplit`:
      appends the pieces of `s` to `out` without clearing it. */
  method SplitInto(d: bytes, s: bytes, out: StringVector, ignoreEmpty: bool)
    modifies out
    ensures out.items == old(out.items) + Split(s, d, ignoreEmpty)
  {
    var strSize, dSize := |s|, |d|;
    if dSize > strSize || dSize == 0 {
      if dSize > 0 {
        ScanLonger(s, d);
      }
      KeptOne(s, ignoreEmpty);
      assert Split(s, d, ignoreEmpty) == Kept([s], ignoreEmpty);
      if !ignoreEmpty || strSize > 0 {
        out.PushBack(s);
      } else {
        assert old(out.items) + [] == old(out.items);
      }
      return;
    }
    ScanPieces(d, s, out, ignoreEmpty);
  }

  /** The scanning loop of `internalSplit`, for a delimiter no longer than
      the input. */
  method ScanPieces(d: bytes, s: bytes, out: StringVector, ignoreEmpty: bool)
    requires 0 < |d| <= |s|
    modifies out
    ensures out.items == old(out.items) + Kept(Scan(s, d, 0, 0), ignoreEmpty)
  {
    var strSize, dSize := |s|, |d|;
    var tokenStartPos: nat, tokenSize: nat := 0, 0;
    ghost var base, done: seq<bytes> := out.items, [];
    ghost var whole := Scan(s, d, 0, 0);
    var i: nat := 0;
    assert done + Scan(s, d, tokenStartPos, i) == whole;
    while i <= strSize - dSize
      invariant tokenStartPos <= i <= strSize
      invariant tokenSize == i - tokenStartPos
      invariant out.items == base + Kept(done, ignoreEmpty)
      invariant done + Scan(s, d, tokenStartPos, i) == whole
      decreases strSize - i
    {
      var atDelim := AtDelim(s, i, d);
      ScanAdvance(s, d, tokenStartPos, i, tokenSize, i + dSize, done, whole, atDelim);
      if atDelim {
        done := CutToken(out, s, d, ignoreEmpty, tokenStartPos, tokenSize, i + dSize, base, done, whole);
        tokenStartPos := i + dSize;
        tokenSize := 0;
        i := i + dSize;
      } else {
        tokenSize := tokenSize + 1;
        i := i + 1;
        assert done + Scan(s, d, tokenStartPos, i) == whole;
      }
    }
    tokenSize := strSize - tokenStartPos;
    ScanEnd(s, d, tokenStartPos, i, tokenSize, done, whole);
    EmitLast(out, s[tokenStartPos..tokenStartPos + tokenSize], ignoreEmpty, base, done, whole);
  }

  /** A match ends the token `s[t..t + size]`: it is emitted, and the scan
      goes on from `next`, just after the delimiter. */
  method CutToken(out: StringVector, s: bytes, d: bytes, ignoreEmpty: bool, t: nat, size: nat, next: nat,
                  ghost base: seq<bytes>, ghost done: seq<bytes>, ghost whole: seq<bytes>) returns (ghost done': seq<bytes>)
    requires 0 < |d| && t + size <= next <= |s|
    requires out.items == base + Kept(done, ignoreEmpty)
    requires (done + [s[t..t + size]]) + Scan(s, d, next, next) == whole
    modifies out
    ensures out.items == base + Kept(done', ignoreEmpty)
    ensures done' + Scan(s, d, next, next) == whole
  {
    EmitPiece(out, s[t..t + size], ignoreEmpty, base, done);
    done' := done + [s[t..t + size]];
  }

  /** One step of the scan: a match closes the token, anything else moves
      the scan on by one byte. */
  lemma ScanAdvance(s: bytes, d: bytes, t: nat, i: nat, size: nat, next: nat, done: seq<bytes>, whole: seq<bytes>, atDelim: bool)
    requires 0 < |d| && t <= i && i + |d| <= |s| && size == i - t && next == i + |d|
    requires atDelim == MatchAt(s, d, i)
    requires done + Scan(s, d, t, i) == whole
    ensures atDelim ==> (done + [s[t..t + size]]) + Scan(s, d, next, next) == whole
    ensures !atDelim ==> done + Scan(s, d, t, i + 1) == whole
  {
    if atDelim {
      ConcatAssoc(done, [s[t..i]], Scan(s, d, i + |d|, i + |d|));
    }
  }

  /** The end of the scan: what is left is the final token. */
  lemma ScanEnd(s: bytes, d: bytes, t: nat, i: nat, size: nat, done: seq<bytes>, whole: seq<bytes>)
    requires 0 < |d| && t <= i <= |s| && |s| < i + |d| && size == |s| - t
    requires done + Scan(s, d, t, i) == whole
    ensures done + [s[t..t + size]] == whole
  {
    assert s[t..t + size] == s[t..];
  }

  // Properties of the pieces.

  /** Joining the tokens with the delimiter gives back the input from the
      token start on. */
  lemma {:induction false} JoinScan(s: bytes, d: bytes, t: nat, i: nat)
    requires 0 < |d| && t <= i <= |s|
    ensures Join(Scan(s, d, t, i), d) == s[t..]
    decreases |s| - i
  {
    if i + |d| <= |s| {
      if MatchAt(s, d, i) {
        JoinScan(s, d, i + |d|, i + |d|);
        JoinAtMatch(s, d, t, i, Scan(s, d, i + |d|, i + |d|));
      } else {
        JoinScan(s, d, t, i + 1);
      }
    }
  }

  /** The piece before a match, the delimiter and the join of what follows
      make up the whole suffix. */
  lemma JoinAtMatch(s: bytes, d: bytes, start: nat, m: nat, rest: seq<bytes>)
    requires start <= m && MatchAt(s, d, m)
    requires rest != [] && Join(rest, d) == s[m + |d|..]
    ensures Join([s[start..m]] + rest, d) == s[start..]
  {
    var ps := [s[start..m]] + rest;
    MatchAtSlice(s, d, m);
    assert ps[1..] == rest;
    assert Join(ps, d) == s[start..m] + d + Join(rest, d);
    SuffixSplit(s, start, m);
    SuffixSplit(s, m, m + |d|);
    ConcatAssoc(s[start..m], d, s[m + |d|..]);
  }

  /** `split` loses nothing: joining the pieces with the delimiter gives
      back the input. */
  lemma JoinPieces(s: bytes, d: bytes)
    ensures Join(Pieces(s, d), d) == s
  {
    if 0 < |d| {
      JoinScan(s, d, 0, 0);
    }
  }

  /** `d` occurs somewhere in `p`. */
  predicate Contains(p: bytes, d: bytes)
  {
    exists k | 0 <= k <= |p| :: MatchAt(p, d, k)
  }

  /** No token contains the delimiter: every occurrence was cut at. */
  lemma {:induction false} ScanAvoid(s: bytes, d: bytes, t: nat, i: nat)
    requires 0 < |d| && t <= i <= |s|
    requires forall j | t <= j < i :: !MatchAt(s, d, j)
    ensures forall k | 0 <= k < |Scan(s, d, t, i)| :: !Contains(Scan(s, d, t, i)[k], d)
    decreases |s| - i
  {
    var r := Scan(s, d, t, i);
    if i + |d| > |s| {
      NoMatchInSlice(s, d, t, i, |s|);
      assert r[0] == s[t..|s|];
    } else if MatchAt(s, d, i) {
      var rest := Scan(s, d, i + |d|, i + |d|);
      ScanAvoid(s, d, i + |d|, i + |d|);
      NoMatchInSlice(s, d, t, i, i);
      assert r == Probe(s, d, t, i) == [s[t..i]] + rest;
      forall k | 0 <= k < |r|
        ensures !Contains(r[k], d)
      {
        if k > 0 {
          assert r[k] == rest[k - 1];
        }
      }
    } else {
      assert r == Probe(s, d, t, i) == Scan(s, d, t, i + 1);
      ScanAvoid(s, d, t, i + 1);
    }
  }

  /** A slice `s[a..b]` contains no occurrence when no match of `s` starts
      in `[a, c)` and fewer than `|d|` bytes follow `c` within the slice. */
  lemma NoMatchInSlice(s: bytes, d: bytes, a: nat, c: nat, b: nat)
    requires 0 < |d| && a <= c <= b <= |s| && b < c + |d|
    requires forall j | a <= j < c :: !MatchAt(s, d, j)
    ensures !Contains(s[a..b], d)
  {
    var p := s[a..b];
    forall k | 0 <= k <= |p|
      ensures !MatchAt(p, d, k)
    {
      if k + |d| <= |p| {
        assert !MatchAt(s, d, a + k);
        MatchAtSlice(s, d, a + k);
        MatchAtSlice(p, d, k);
        SliceSlice(s, a, b, k, k + |d|);
      }
    }
  }

  lemma SliceSlice(s: bytes, a: nat, b: nat, i: nat, j: nat)
    requires a <= b <= |s| && i <= j <= b - a
    ensures s[a..b][i..j] == s[a + i..a + j]
  {
    assert |s[a..b][i..j]| == j - i;
    forall q | 0 <= q < j - i
      ensures s[a..b][i..j][q] == s[a + i..a + j][q]
    {
      assert s[a..b][i..j][q] == s[a..b][i + q];
    }
  }

  /** Without `ignoreEmpty` no piece contains the delimiter. */
  lemma PiecesAvoid(s: bytes, d: bytes)
    requires 0 < |d|
    ensures forall k | 0 <= k < |Pieces(s, d)| :: !Contains(Pieces(s, d)[k], d)
  {
    ScanAvoid(s, d, 0, 0);
  }

  /** The number of times byte `c` occurs in `s`. */
  function Occurrences(s: bytes, c: byte): nat
  {
    multiset(s)[c]
  }

  /** With a one-byte delimiter, one token more than there are delimiter
      bytes left to scan. */
  lemma {:induction false} ScanCount(s: bytes, c: byte, t: nat, i: nat)
    requires t <= i <= |s|
    ensures |Scan(s, [c], t, i)| == Occurrences(s[i..], c) + 1
    decreases |s| - i
  {
    if i < |s| {
      assert s[i..] == [s[i]] + s[i + 1..];
      MatchByte(s, c, i);
      if s[i] == c {
        ScanCount(s, c, i + 1, i + 1);
      } else {
        ScanCount(s, c, t, i + 1);
      }
    }
  }

  /** `split` at a byte gives one piece more than the byte's occurrences. */
  lemma PiecesCount(s: bytes, c: byte)
    ensures |Pieces(s, [c])| == Occurrences(s, c) + 1
  {
    ScanCount(s, c, 0, 0);
    assert s[0..] == s;
  }

  /** A run with no match does not end the token. */
  lemma {:induction false} ScanSkip(s: bytes, d: bytes, t: nat, i: nat, k: nat)
    requires 0 < |d| && t <= i <= k <= |s|
    requires forall j | i <= j < k :: !MatchAt(s, d, j)
    ensures Scan(s, d, t, i) == Scan(s, d, t, k)
    decreases k - i
  {
    if i < k {
      assert !MatchAt(s, d, i);
      ScanSkip(s, d, t, i + 1, k);
    }
  }

  /** The tokens do not depend on what precedes the token start. */
  lemma {:induction false} ScanShift(a: bytes, u: bytes, d: bytes, t: nat, i: nat)
    requires 0 < |d| && t <= i <= |u|
    ensures Scan(a + u, d, |a| + t, |a| + i) == Scan(u, d, t, i)
    decreases |u| - i
  {
    if i + |d| > |u| {
      ShiftEnd(a, u, d, t, i);
    } else if MatchAt(u, d, i) {
      ScanShift(a, u, d, i + |d|, i + |d|);
      ShiftCut(a, u, d, t, i);
    } else {
      ScanShift(a, u, d, t, i + 1);
      ShiftMatch(a, u, d, i);
    }
  }

  lemma ShiftEnd(a: bytes, u: bytes, d: bytes, t: nat, i: nat)
    requires 0 < |d| && t <= i <= |u| && |u| < i + |d|
    ensures Scan(a + u, d, |a| + t, |a| + i) == Scan(u, d, t, i)
  {
    ShiftSlice(a, u, t, |u|);
    assert (a + u)[|a| + t..] == (a + u)[|a| + t..|a| + |u|];
    assert u[t..] == u[t..|u|];
  }

  lemma ShiftCut(a: bytes, u: bytes, d: bytes, t: nat, i: nat)
    requires 0 < |d| && t <= i && i + |d| <= |u| && MatchAt(u, d, i)
    requires Scan(a + u, d, |a| + (i + |d|), |a| + (i + |d|)) == Scan(u, d, i + |d|, i + |d|)
    ensures Scan(a + u, d, |a| + t, |a| + i) == Scan(u, d, t, i)
  {
    ShiftMatch(a, u, d, i);
    ShiftSlice(a, u, t, i);
  }

  lemma ShiftMatch(a: bytes, u: bytes, d: bytes, i: nat)
    requires i <= |u|
    ensures MatchAt(a + u, d, |a| + i) <==> MatchAt(u, d, i)
  {
    if i + |d| <= |u| {
      MatchAtSlice(a + u, d, |a| + i);
      MatchAtSlice(u, d, i);
      ShiftSlice(a, u, i, i + |d|);
    }
  }

  lemma ShiftSlice(a: bytes, u: bytes, p: nat, q: nat)
    requires p <= q <= |u|
    ensures (a + u)[|a| + p..|a| + q] == u[p..q]
  {
  }

  /** When no element contains the byte `c`, `split` at `c` undoes `join`. */
  lemma {:induction false} PiecesJoin(elems: seq<bytes>, c: byte)
    requires elems != []
    requires forall k | 0 <= k < |elems| :: c !in elems[k]
    ensures Pieces(Join(elems, [c]), [c]) == elems
  {
    var s := Join(elems, [c]);
    var e := elems[0];
    forall j | 0 <= j < |e|
      ensures !MatchAt(s, [c], j)
    {
      assert s[j] == e[j];
      MatchByte(s, c, j);
    }
    if |elems| == 1 {
      ScanSkip(s, [c], 0, 0, |e|);
      assert s[0..] == e;
    } else {
      var rest := Join(elems[1..], [c]);
      assert s == (e + [c]) + rest;
      assert s[|e|] == c;
      MatchByte(s, c, |e|);
      ScanSkip(s, [c], 0, 0, |e|);
      assert s[0..|e|] == e;
      PiecesJoin(elems[1..], c);
      ScanShift(e + [c], rest, [c], 0, 0);
      assert [e] + elems[1..] == elems;
    }
  }

  /** The pieces as `find` sees them: the bytes before the first occurrence,
      then the pieces of what follows it. */
  lemma PiecesFind(s: bytes, d: bytes)
    requires 0 < |d|
    ensures FindFrom(s, d, 0).None? ==> Pieces(s, d) == [s]
    ensures FindFrom(s, d, 0).Some? ==> Pieces(s, d) == [s[..FindFrom(s, d, 0).value]] + Pieces(s[FindFrom(s, d, 0).value + |d|..], d)
  {
    FindFromFirst(s, d, 0);
    match FindFrom(s, d, 0)
    case None =>
      if |s| < |d| {
        ScanLonger(s, d);
      } else {
        ScanSkip(s, d, 0, 0, |s| - |d| + 1);
        assert s[0..] == s;
      }
    case Some(m) =>
      ScanSkip(s, d, 0, 0, m);
      var u := s[m + |d|..];
      assert s == s[..m + |d|] + u;
      ScanShift(s[..m + |d|], u, d, 0, 0);
  }

  /** `split<exact>(delim, input, outs...)` with `n` outputs: `None` where
      the call returns false (and assigns no output), else the `n` values.
      Each output but the last takes the bytes before the next `find`; the
      last takes the rest, which under `exact` must not hold the delimiter. */
  function SplitFixed(s: bytes, d: bytes, n: nat, exact: bool): (r: Option<seq<bytes>>)
    requires 1 <= n
    ensures r.Some? ==> |r.value| == n
    decreases n
  {
    if n == 1 then
      if exact && FindFrom(s, d, 0).Some? then None else Some([s])
    else
      match FindFrom(s, d, 0)
      case None => None
      case Some(cut) =>
        match SplitFixed(s[cut + |d|..], d, n - 1, exact)
        case None => None
        case Some(tail) => Some([s[..cut]] + tail)
  }

  /** The exact form succeeds just when there are `n` pieces, and then gives
      the pieces. */
  lemma {:induction false} SplitFixedExact(s: bytes, d: bytes, n: nat)
    requires 0 < |d| && 1 <= n
    ensures SplitFixed(s, d, n, true).Some? <==> |Pieces(s, d)| == n
    ensures SplitFixed(s, d, n, true).Some? ==> SplitFixed(s, d, n, true).value == Pieces(s, d)
    decreases n
  {
    PiecesFind(s, d);
    if n > 1 {
      match FindFrom(s, d, 0)
      case None =>
      case Some(cut) =>
        SplitFixedExact(s[cut + |d|..], d, n - 1);
    }
  }

  /** The outputs of the non-exact form against the pieces: the first
      `n - 1` are the first pieces and the last holds the remaining pieces,
      delimiters included. */
  predicate LooseOutputs(r: seq<bytes>, ps: seq<bytes>, d: bytes, n: nat)
  {
    1 <= n == |r| <= |ps| && r[..n - 1] == ps[..n - 1] && r[n - 1] == Join(ps[n - 1..], d)
  }

  /** The non-exact form succeeds just when there are at least `n` pieces,
      and then its outputs are as `LooseOutputs` says. */
  lemma {:induction false} SplitFixedLoose(s: bytes, d: bytes, n: nat)
    requires 0 < |d| && 1 <= n
    ensures SplitFixed(s, d, n, false).Some? <==> |Pieces(s, d)| >= n
    ensures SplitFixed(s, d, n, false).Some? ==> LooseOutputs(SplitFixed(s, d, n, false).value, Pieces(s, d), d, n)
    decreases n
  {
    if n == 1 {
      LooseOne(s, d);
    } else if FindFrom(s, d, 0).None? {
      NoneFixed(s, d, n, false);
    } else {
      var cut := FindFrom(s, d, 0).value;
      SplitFixedLoose(s[cut + |d|..], d, n - 1);
      LooseCons(s, d, n, cut);
    }
  }

  /** With an empty delimiter `find` matches at once: every output but the
      last is empty and the last takes the whole input, which the exact form
      then refuses, since the empty delimiter occurs in it. */
  lemma {:induction false} SplitFixedEmptyDelimiter(s: bytes, n: nat, exact: bool)
    requires 1 <= n
    ensures exact ==> SplitFixed(s, [], n, exact) == None
    ensures !exact ==> SplitFixed(s, [], n, exact) == Some(seq(n - 1, _ => []) + [s])
    decreases n
  {
    assert MatchAt(s, [], 0);
    assert FindFrom(s, [], 0) == Some(0);
    if n > 1 {
      SplitFixedEmptyDelimiter(s, n - 1, exact);
      assert s[0..] == s && s[..0] == [];
      if !exact {
        var tail: seq<bytes> := seq(n - 2, _ => []) + [s];
        assert SplitFixed(s, [], n, exact) == Some([[]] + tail);
        assert [[]] + tail == seq(n - 1, _ => []) + [s];
      }
    } else if !exact {
      assert seq(0, _ => []) + [s] == [s];
    }
  }

  /** Without an occurrence there is one piece, and more than one output
      cannot be filled. */
  lemma NoneFixed(s: bytes, d: bytes, n: nat, exact: bool)
    requires 0 < |d| && 2 <= n && FindFrom(s, d, 0).None?
    ensures SplitFixed(s, d, n, exact) == None
    ensures Pieces(s, d) == [s]
  {
    PiecesFind(s, d);
  }

  lemma LooseOne(s: bytes, d: bytes)
    requires 0 < |d|
    ensures SplitFixed(s, d, 1, false) == Some([s])
    ensures LooseOutputs([s], Pieces(s, d), d, 1)
  {
    JoinPieces(s, d);
    assert Pieces(s, d)[0..] == Pieces(s, d);
  }

  /** The step of `SplitFixedLoose` after the first `find`. */
  lemma LooseCons(s: bytes, d: bytes, n: nat, cut: nat)
    requires 0 < |d| && 2 <= n && FindFrom(s, d, 0) == Some(cut)
    requires var u := s[cut + |d|..];
      (SplitFixed(u, d, n - 1, false).Some? <==> |Pieces(u, d)| >= n - 1) &&
      (SplitFixed(u, d, n - 1, false).Some? ==> LooseOutputs(SplitFixed(u, d, n - 1, false).value, Pieces(u, d), d, n - 1))
    ensures SplitFixed(s, d, n, false).Some? <==> |Pieces(s, d)| >= n
    ensures SplitFixed(s, d, n, false).Some? ==> LooseOutputs(SplitFixed(s, d, n, false).value, Pieces(s, d), d, n)
  {
    PiecesFind(s, d);
    var u := s[cut + |d|..];
    var rec := SplitFixed(u, d, n - 1, false);
    assert SplitFixed(s, d, n, false) == if rec.Some? then Some([s[..cut]] + rec.value) else None;
    assert Pieces(s, d) == [s[..cut]] + Pieces(u, d);
    if rec.Some? {
      LooseStep(s[..cut], Pieces(u, d), rec.value, d, n);
    }
  }

  /** One more output in front: the outputs and the pieces gain the same
      head. */
  lemma LooseStep(h: bytes, pu: seq<bytes>, tail: seq<bytes>, d: bytes, n: nat)
    requires 2 <= n && |tail| == n - 1 && n - 1 <= |pu|
    requires tail[..n - 2] == pu[..n - 2] && tail[n - 2] == Join(pu[n - 2..], d)
    ensures LooseOutputs([h] + tail, [h] + pu, d, n)
  {
    assert ([h] + tail)[..n - 1] == [h] + tail[..n - 2];
    assert ([h] + pu)[..n - 1] == [h] + pu[..n - 2];
    assert ([h] + pu)[n - 1..] == pu[n - 2..];
  }

  /** The edge cases: an empty input is one empty piece, an empty delimiter
      leaves the input whole, and `ignoreEmpty` drops empty pieces. */
  lemma SplitEmptyInput(d: bytes)
    ensures Split([], d, false) == [[]]
    ensures Split([], d, true) == []
  {
    if 0 < |d| {
      assert Pieces([], d) == [[]];
    }
    assert NonEmpty([[]]) == [] + NonEmpty([]);
  }

  lemma SplitEmptyDelimiter(s: bytes, ignoreEmpty: bool)
    ensures Split(s, [], ignoreEmpty) == if ignoreEmpty && s == [] then [] else [s]
  {
    assert [s][1..] == [];
  }

  lemma {:induction false} NonEmptyDrops(ps: seq<bytes>)
    ensures forall k | 0 <= k < |NonEmpty(ps)| :: NonEmpty(ps)[k] in ps
    ensures forall k | 0 <= k < |ps| :: ps[k] != [] ==> ps[k] in NonEmpty(ps)
  {
    if ps != [] {
      NonEmptyDrops(ps[1..]);
      var r := NonEmpty(ps);
      var head := if ps[0] == [] then [] else [ps[0]];
      assert r == head + NonEmpty(ps[1..]);
      forall k | 0 <= k < |ps| && ps[k] != []
        ensures ps[k] in r
      {
        if k > 0 {
          assert ps[k] == ps[1..][k - 1];
        }
      }
    }
  }

  /** `split` with `ignoreEmpty` keeps exactly the non-empty pieces. */
  lemma SplitIgnoreEmpty(s: bytes, d: bytes)
    ensures forall k | 0 <= k < |Split(s, d, true)| :: Split(s, d, true)[k] != [] && Split(s, d, true)[k] in Pieces(s, d)
    ensures forall k | 0 <= k < |Pieces(s, d)| :: Pieces(s, d)[k] != [] ==> Pieces(s, d)[k] in Split(s, d, true)
  {
    NonEmptyDrops(Pieces(s, d));
  }

  /** The first occurrence found after a run free of the delimiter ends the
      first piece. */
  lemma PiecesAtFirst(h: bytes, d: bytes, u: bytes)
    requires 0 < |d|
    requires forall j | 0 <= j < |h| :: !MatchAt(h + d + u, d, j)
    ensures Pieces(h + d + u, d) == [h] + Pieces(u, d)
  {
    var s := h + d + u;
    ScanSkip(s, d, 0, 0, |h|);
    MatchAtSlice(s, d, |h|);
    assert s[|h|..|h| + |d|] == d;
    assert s[0..|h|] == h;
    assert s == (h + d) + u;
    ScanShift(h + d, u, d, 0, 0);
  }

  /** Without an occurrence the input is one piece. */
  lemma PiecesNone(s: bytes, d: bytes)
    requires 0 < |d|
    requires forall j | 0 <= j < |s| :: !MatchAt(s, d, j)
    ensures Pieces(s, d) == [s]
  {
    if |s| < |d| {
      ScanLonger(s, d);
    } else {
      ScanSkip(s, d, 0, 0, |s| - |d| + 1);
      assert s[0..] == s;
    }
  }

  /** A one-byte delimiter matches where that byte is. */
  lemma MatchByte(s: bytes, c: byte, j: nat)
    requires j < |s|
    ensures MatchAt(s, [c], j) <==> s[j] == c
  {
    assert MatchFrom(s, [c], j, 1);
  }

  /** No match starts at a byte other than the delimiter's first. */
  lemma NoMatchAtByte(s: bytes, d: bytes, j: int)
    requires 0 < |d| && 0 <= j < |s| && s[j] != d[0]
    ensures !MatchAt(s, d, j)
  {
  }

  /** The shapes the examples below are built from: a run without the
      delimiter's first byte is a whole piece, and so is such a run ahead of
      the delimiter. */
  lemma PiecesWhole(s: bytes, d: bytes)
    requires 0 < |d| && d[0] !in s
    ensures Pieces(s, d) == [s]
  {
    forall j | 0 <= j < |s|
      ensures !MatchAt(s, d, j)
    {
      NoMatchAtByte(s, d, j);
    }
    PiecesNone(s, d);
  }

  lemma PiecesAfter(h: bytes, d: bytes, u: bytes)
    requires 0 < |d| && d[0] !in h
    ensures Pieces(h + d + u, d) == [h] + Pieces(u, d)
  {
    forall j | 0 <= j < |h|
      ensures !MatchAt(h + d + u, d, j)
    {
      assert (h + d + u)[j] == h[j];
      NoMatchAtByte(h + d + u, d, j);
    }
    PiecesAtFirst(h, d, u);
  }

  /** `split` examples: commas between single letters, and an empty piece
      kept or, under `ignoreEmpty`, dropped. */
  lemma SplitCommaExample()
    ensures Split("a,b,c", ",", false) == ["a", "b", "c"]
  {
    var a, b, c: bytes := "a", "b", "c";
    PiecesWhole(c, ",");
    PiecesAfter(b, ",", c);
    PiecesAfter(a, ",", b + "," + c);
    assert a + "," + (b + "," + c) == "a,b,c";
  }

  lemma SplitEmptyPieceExamples()
    ensures Split("a,,c", ",", false) == ["a", "", "c"]
    ensures Split("a,,c", ",", true) == ["a", "c"]
  {
    var a, c, e: bytes := "a", "c", "";
    PiecesWhole(c, ",");
    PiecesAfter(e, ",", c);
    PiecesAfter(a, ",", e + "," + c);
    assert a + "," + (e + "," + c) == "a,,c";
    DropEmpty(a, c);
  }

  /** An empty piece between two non-empty ones is dropped. */
  lemma DropEmpty(a: bytes, c: bytes)
    requires a != [] && c != []
    ensures NonEmpty([a, [], c]) == [a, c]
  {
    assert [a, [], c] == [a] + [[]] + [c];
    NonEmptyAppend([a] + [[]], [c]);
    NonEmptyAppend([a], [[]]);
    assert NonEmpty([c]) == [c] + NonEmpty([]);
    assert NonEmpty([a]) == [a] + NonEmpty([]);
    assert NonEmpty([[]]) == [] + NonEmpty([]);
  }

  lemma NonEmptyCons(p: bytes, ps: seq<bytes>)
    ensures NonEmpty([p] + ps) == (if p == [] then [] else [p]) + NonEmpty(ps)
  {
    assert ([p] + ps)[1..] == ps;
  }

  /** A multi-byte delimiter, as a search for the two bytes together. */
  lemma PiecesMultiByteExample()
    ensures Pieces("dabcabkdbkab", "ab") == ["d", "c", "kdbk", ""]
  {
    var ab, x, c, k, e: bytes := "ab", "d", "c", "kdbk", "";
    var t2 := k + ab + e;
    var t3 := c + ab + t2;
    var t4 := x + ab + t3;
    assert t4 == "dabcabkdbkab";
    PiecesWhole(e, ab);
    PiecesAfter(k, ab, e);
    PiecesAfter(c, ab, t2);
    PiecesAfter(x, ab, t3);
  }

  /** Under `ignoreEmpty` the empty last piece is dropped. */
  lemma SplitMultiByteExample()
    ensures Split("dabcabkdbkab", "ab", true) == ["d", "c", "kdbk"]
  {
    PiecesMultiByteExample();
    var x, c, k, e: bytes := "d", "c", "kdbk", "";
    NonEmptyCons(e, []);
    NonEmptyCons(k, [e]);
    NonEmptyCons(c, [k, e]);
    NonEmptyCons(x, [c, k, e]);
  }

  /** An empty first piece is dropped under `ignoreEmpty`. */
  lemma SplitLeadingExample()
    ensures Split("abcdefg", "a", true) == ["bcdefg"]
  {
    var a, rest, e: bytes := "a", "bcdefg", "";
    PiecesWhole(rest, a);
    PiecesAfter(e, a, rest);
    assert e + a + rest == "abcdefg";
    NonEmptyCons(rest, []);
    NonEmptyCons(e, [rest]);
  }

  /** A delimiter longer than the input leaves the input whole. */
  lemma SplitLongDelimiterExample()
    ensures Split("asfds", "452x;o38asfsajsdlfdf.j", true) == ["asfds"]
  {
    ScanLonger("asfds", "452x;o38asfsajsdlfdf.j");
    NonEmptyCons("asfds", []);
  }

  /** Runs of delimiters at both ends and in the middle leave only the
      non-empty pieces under `ignoreEmpty`. */
  lemma SplitRunsExample()
    ensures Split(",,a,,c,,,", ",", true) == ["a", "c"]
  {
    var a, c, e, comma: bytes := "a", "c", "", ",";
    var t2 := e + comma + e;
    var t3 := e + comma + t2;
    var t4 := c + comma + t3;
    var t5 := e + comma + t4;
    var t6 := a + comma + t5;
    var t7 := e + comma + t6;
    var t8 := e + comma + t7;
    assert t8 == ",,a,,c,,,";
    PiecesWhole(e, comma);
    PiecesAfter(e, comma, e);
    PiecesAfter(e, comma, t2);
    PiecesAfter(c, comma, t3);
    PiecesAfter(e, comma, t4);
    PiecesAfter(a, comma, t5);
    PiecesAfter(e, comma, t6);
    PiecesAfter(e, comma, t7);
    var ps := [e, e, a, e, c, e, e, e];
    assert Pieces(t8, comma) == ps;
    DropEmptyRuns(a, c);
  }

  lemma DropEmptyRuns(a: bytes, c: bytes)
    requires a != [] && c != []
    ensures NonEmpty([[], [], a, [], c, [], [], []]) == [a, c]
  {
    var e: bytes := [];
    NonEmptyCons(e, []);
    NonEmptyCons(e, [e]);
    NonEmptyCons(e, [e, e]);
    NonEmptyCons(c, [e, e, e]);
    NonEmptyCons(e, [c, e, e, e]);
    NonEmptyCons(a, [e, c, e, e, e]);
    NonEmptyCons(e, [a, e, c, e, e, e]);
    NonEmptyCons(e, [e, a, e, c, e, e, e]);
  }

  /** The first byte of the delimiter alone does not cut: `rul,es!` stays
      one piece. */
  lemma PiecesPartialExample()
    ensures Pieces(", Facebook, rul,es!, ", ", ") == ["", "Facebook", "rul,es!", ""]
  {
    var w2, w3: bytes := "Facebook", "rul,es!";
    assert "" + ", " + (w2 + ", " + (w3 + ", " + "")) == ", Facebook, rul,es!, ";
    PartialRun(w3);
    PartialChain(w2, w3);
  }

  lemma PartialRun(w3: bytes)
    requires w3 == "rul,es!"
    ensures forall j | 0 <= j < |w3| :: !MatchAt(w3 + ", " + [], ", ", j)
  {
    var t2: bytes := w3 + ", " + [];
    forall j | 0 <= j < |w3|
      ensures !MatchAt(t2, ", ", j)
    {
      if j == 3 {
        assert t2[j + 1] == 'e';
        assert !MatchFrom(t2, ", ", j, 1);
      } else {
        assert t2[j] == w3[j];
        NoMatchAtByte(t2, ", ", j);
      }
    }
  }

  lemma PartialChain(w2: bytes, w3: bytes)
    requires ',' !in w2
    requires forall j | 0 <= j < |w3| :: !MatchAt(w3 + ", " + [], ", ", j)
    ensures var d: bytes := ", ";
      Pieces([] + d + (w2 + d + (w3 + d + [])), d) == [[], w2, w3, []]
  {
    var d, e: bytes := ", ", [];
    var t2 := w3 + d + e;
    var t3 := w2 + d + t2;
    PiecesWhole(e, d);
    PiecesAtFirst(w3, d, e);
    PiecesAfter(w2, d, t2);
    PiecesAfter(e, d, t3);
  }

  /** The fixed-arity form on `a.b.c`: three outputs take the three pieces
      in either form; two outputs fail under `exact` and otherwise leave
      `b.c` in the last. */
  lemma SplitFixedThreeExamples()
    ensures SplitFixed("a.b.c", ".", 3, true) == Some(["a", "b", "c"])
    ensures SplitFixed("a.b.c", ".", 3, false) == Some(["a", "b", "c"])
    ensures SplitFixed("a.b.c", ".", 2, true) == None
  {
    PiecesDots();
    SplitFixedExact("a.b.c", ".", 3);
    SplitFixedExact("a.b.c", ".", 2);
    SplitFixedLoose("a.b.c", ".", 3);
    var a, b, c: bytes := "a", "b", "c";
    var r3 := SplitFixed("a.b.c", ".", 3, false).value;
    assert r3[..2] == [a, b];
    assert [a, b, c][2..] == [c];
    assert r3 == [r3[0], r3[1], r3[2]];
  }

  lemma SplitFixedRestExample()
    ensures SplitFixed("a.b.c", ".", 2, false) == Some(["a", "b.c"])
  {
    PiecesDots();
    SplitFixedLoose("a.b.c", ".", 2);
    var a, b, c, dot: bytes := "a", "b", "c", ".";
    JoinAppend([b], [c], dot);
    assert [a, b, c][1..] == [b] + [c];
    var r := SplitFixed("a.b.c", dot, 2, false).value;
    assert r[..1] == [a];
    assert r == [r[0], r[1]];
  }

  lemma PiecesDots()
    ensures Pieces("a.b.c", ".") == ["a", "b", "c"]
  {
    var a, b, c, dot: bytes := "a", "b", "c", ".";
    var t2 := b + dot + c;
    assert a + dot + t2 == "a.b.c";
    PiecesWhole(c, dot);
    PiecesAfter(b, dot, c);
    PiecesAfter(a, dot, t2);
  }

  /** On `a.b` and `a`: too few pieces fail in either form, and one output
      takes the whole input unless `exact` finds a delimiter in it. */
  lemma SplitFixedShortExamples()
    ensures SplitFixed("a.b", ".", 3, true) == None && SplitFixed("a.b", ".", 3, false) == None
    ensures SplitFixed("a.b", ".", 2, true) == Some(["a", "b"])
    ensures SplitFixed("a.b", ".", 1, false) == Some(["a.b"]) && SplitFixed("a.b", ".", 1, true) == None
    ensures SplitFixed("a", ".", 2, true) == None && SplitFixed("a", ".", 2, false) == None
    ensures SplitFixed("a", ".", 1, true) == Some(["a"])
  {
    var a, b, dot: bytes := "a", "b", ".";
    assert a + dot + b == "a.b";
    PiecesWhole(b, dot);
    PiecesAfter(a, dot, b);
    PiecesWhole(a, dot);
    assert Pieces("a.b", dot) == [a, b];
    SplitFixedExact("a.b", dot, 3);
    SplitFixedLoose("a.b", dot, 3);
    SplitFixedExact("a.b", dot, 2);
    SplitFixedExact("a.b", dot, 1);
    SplitFixedExact("a", dot, 2);
    SplitFixedLoose("a", dot, 2);
    SplitFixedExact("a", dot, 1);
  }

  /** The calls that must succeed: four outputs on `a.b.c.d` and one on
      `a`, in either form (`a.b.c` into three is above). */
  lemma SplitFixedFourExamples()
    ensures SplitFixed("a.b.c.d", ".", 4, true) == Some(["a", "b", "c", "d"])
    ensures SplitFixed("a.b.c.d", ".", 4, false).Some?
  {
    PiecesFourDots();
    SplitFixedExact("a.b.c.d", ".", 4);
    SplitFixedLoose("a.b.c.d", ".", 4);
  }

  lemma SplitFixedOneExample()
    ensures SplitFixed("a", ".", 1, false) == Some(["a"])
  {
    LooseOne("a", ".");
  }

  /** Two outputs on `a.b` without `exact` take the two pieces. */
  lemma SplitFixedPairExample()
    ensures SplitFixed("a.b", ".", 2, false) == Some(["a", "b"])
  {
    var a, b, dot: bytes := "a", "b", ".";
    assert a + dot + b == "a.b";
    PiecesWhole(b, dot);
    PiecesAfter(a, dot, b);
    SplitFixedLoose("a.b", dot, 2);
    var r := SplitFixed("a.b", dot, 2, false).value;
    assert r[..1] == [a];
    assert [a, b][1..] == [b];
    assert r == [r[0], r[1]];
  }

  lemma PiecesFourDots()
    ensures Pieces("a.b.c.d", ".") == ["a", "b", "c", "d"]
  {
    var a, b, c, d, dot: bytes := "a", "b", "c", "d", ".";
    var t3 := c + dot + d;
    var t2 := b + dot + t3;
    assert a + dot + t2 == "a.b.c.d";
    PiecesWhole(d, dot);
    PiecesAfter(c, dot, d);
    PiecesAfter(b, dot, t3);
    PiecesAfter(a, dot, t2);
  }

  /** Splitting twice: the two pieces of a comma split, each split again at
      its underscore. */
  lemma SplitRoundsExample()
    ensures Split("a_b,c_d", ",", false) == ["a_b", "c_d"]
  {
    var ab, cd, comma: bytes := "a_b", "c_d", ",";
    assert ab + comma + cd == "a_b,c_d";
    PiecesWhole(cd, comma);
    PiecesAfter(ab, comma, cd);
  }

  lemma SplitRoundsPiecesExample()
    ensures Split("a_b", "_", false) == ["a", "b"]
    ensures Split("c_d", "_", false) == ["c", "d"]
  {
    var a, b, c, d, u: bytes := "a", "b", "c", "d", "_";
    assert a + u + b == "a_b" && c + u + d == "c_d";
    PiecesWhole(b, u);
    PiecesAfter(a, u, b);
    PiecesWhole(d, u);
    PiecesAfter(c, u, d);
  }

  /** Six one-letter fields between dashes. */
  lemma SplitDashExample()
    ensures Split("a-b-c-d-f-e", "-", false) == ["a", "b", "c", "d", "f", "e"]
  {
    var a, b, c, d, f, e, m: bytes := "a", "b", "c", "d", "f", "e", "-";
    var t2 := f + m + e;
    var t3 := d + m + t2;
    var t4 := c + m + t3;
    var t5 := b + m + t4;
    assert a + m + t5 == "a-b-c-d-f-e";
    PiecesWhole(e, m);
    PiecesAfter(f, m, e);
    PiecesAfter(d, m, t2);
    PiecesAfter(c, m, t3);
    PiecesAfter(b, m, t4);
    PiecesAfter(a, m, t5);
  }

  /** Under `ignoreEmpty` the empty pieces at both ends go. */
  lemma SplitPartialExample()
    ensures Split(", Facebook, rul,es!, ", ", ", true) == ["Facebook", "rul,es!"]
  {
    PiecesPartialExample();
    var w2, w3, e: bytes := "Facebook", "rul,es!", "";
    NonEmptyCons(e, []);
    NonEmptyCons(w3, [e]);
    NonEmptyCons(w2, [w3, e]);
    NonEmptyCons(e, [w2, w3, e]);
  }

  /** A two-byte delimiter with empty pieces between adjacent occurrences. */
  lemma PiecesBaseExample()
    ensures Pieces("All, , your base, are , , belong to us", ", ")
         == ["All", "", "your base", "are ", "", "belong to us"]
  {
    var w1, w3, w4, w6: bytes := "All", "your base", "are ", "belong to us";
    BaseText();
    BaseWords();
    BaseChain(w1, w3, w4, w6);
  }

  /** The test input, written as words between delimiters. */
  lemma BaseText()
    ensures var w1, w3, w4, w6, d: bytes := "All", "your base", "are ", "belong to us", ", ";
      w1 + d + ([] + d + (w3 + d + (w4 + d + ([] + d + w6)))) == "All, , your base, are , , belong to us"
  {
  }

  lemma BaseWords()
    ensures ',' !in "All" && ',' !in "your base" && ',' !in "are " && ',' !in "belong to us"
  {
  }

  lemma BaseChain(w1: bytes, w3: bytes, w4: bytes, w6: bytes)
    requires ',' !in w1 && ',' !in w3 && ',' !in w4 && ',' !in w6
    ensures var d: bytes := ", ";
      Pieces(w1 + d + ([] + d + (w3 + d + (w4 + d + ([] + d + w6)))), d) == [w1, [], w3, w4, [], w6]
  {
    var d, e: bytes := ", ", [];
    var t5 := e + d + w6;
    var t4 := w4 + d + t5;
    var t3 := w3 + d + t4;
    var t2 := e + d + t3;
    PiecesWhole(w6, d);
    PiecesAfter(e, d, w6);
    PiecesAfter(w4, d, t5);
    PiecesAfter(w3, d, t4);
    PiecesAfter(e, d, t3);
    PiecesAfter(w1, d, t2);
  }

  lemma SplitBaseExample()
    ensures Split("All, , your base, are , , belong to us", ", ", true)
         == ["All", "your base", "are ", "belong to us"]
  {
    PiecesBaseExample();
    var w1, w3, w4, w6: bytes := "All", "your base", "are ", "belong to us";
    DropEmptyBase(w1, w3, w4, w6);
  }

  lemma DropEmptyBase(w1: bytes, w3: bytes, w4: bytes, w6: bytes)
    requires w1 != [] && w3 != [] && w4 != [] && w6 != []
    ensures NonEmpty([w1, [], w3, w4, [], w6]) == [w1, w3, w4, w6]
  {
    var e: bytes := [];
    NonEmptyCons(w6, []);
    NonEmptyCons(e, [w6]);
    NonEmptyCons(w4, [e, w6]);
    NonEmptyCons(w3, [w4, e, w6]);
    NonEmptyCons(e, [w3, w4, e, w6]);
    NonEmptyCons(w1, [e, w3, w4, e, w6]);
  }
}
