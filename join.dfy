/** `join`: the elements of a sequence with a separator between each two
    consecutive ones. */
module Joining {
  import opened Bytes
  import opened Buffers

  /** `join(delimiter, elems)`, the value-returning form (the model takes
      the elements first and the separator second). One separator goes
      between each two elements and nothing else is added: the joined length
      is the elements' total plus `|elems| - 1` separators. */
  function Join(elems: seq<bytes>, sep: bytes): (r: bytes)
    ensures elems != [] ==> |r| == TotalLength(elems) + (|elems| - 1) * |sep|
  {
    if |elems| == 0 then []
    else if |elems| == 1 then
      assert elems[1..] == [];
      elems[0]
    else
      var tail := Join(elems[1..], sep);
      assert (|elems| - 1) * |sep| == |sep| + (|elems| - 2) * |sep|;
      elems[0] + sep + tail
  }

  /** The elements laid end to end. */
  function Concat(elems: seq<bytes>): (r: bytes)
  {
    if elems == [] then [] else elems[0] + Concat(elems[1..])
  }

  /** The total length of the elements. */
  function TotalLength(elems: seq<bytes>): (n: nat)
  {
    if elems == [] then 0 else |elems[0]| + TotalLength(elems[1..])
  }

  /** An empty separator concatenates the elements. */
  lemma {:induction false} JoinEmptySeparator(elems: seq<bytes>)
    ensures Join(elems, []) == Concat(elems)
  {
    if |elems| == 1 {
      assert elems[1..] == [];
      assert Concat(elems) == elems[0] + [];
    } else if |elems| > 1 {
      JoinEmptySeparator(elems[1..]);
      assert elems[0] + [] == elems[0];
    }
  }

  /** Joining a longer prefix adds one separator and the next element. */
  lemma {:induction false} JoinSnoc(elems: seq<bytes>, e: bytes, sep: bytes)
    requires elems != []
    ensures Join(elems + [e], sep) == Join(elems, sep) + sep + e
  {
    var s := elems + [e];
    if |elems| == 1 {
      assert s[1..] == [e];
    } else {
      assert s[1..] == elems[1..] + [e];
      JoinSnoc(elems[1..], e, sep);
      ConcatAssoc(elems[0] + sep, Join(elems[1..], sep) + sep, e);
      ConcatAssoc(elems[0] + sep, Join(elems[1..], sep), sep);
    }
  }

  /** Joining two parts puts one separator where they meet. */
  lemma {:induction false} JoinAppend(a: seq<bytes>, b: seq<bytes>, sep: bytes)
    requires a != [] && b != []
    ensures Join(a + b, sep) == Join(a, sep) + sep + Join(b, sep)
  {
    var s := a + b;
    if |a| == 1 {
      assert s[1..] == b;
    } else {
      assert s[1..] == a[1..] + b;
      JoinAppend(a[1..], b, sep);
      ConcatAssoc(a[0] + sep, Join(a[1..], sep) + sep, Join(b, sep));
      ConcatAssoc(a[0] + sep, Join(a[1..], sep), sep);
    }
  }

  /** `join(delimiter, elems, output)`: replaces the contents of `output`
      with the first element followed by the separator and the element for
      each later one. */
  method JoinInto(sep: bytes, elems: seq<bytes>, output: ByteString)
    modifies output
    ensures output.bytes == Join(elems, sep)
  {
    output.Clear();
    if |elems| == 0 {
      return;
    }
    output.Append(elems[0]);
    var i := 1;
    while i < |elems|
      invariant 1 <= i <= |elems|
      invariant output.bytes == Join(elems[..i], sep)
    {
      JoinSnoc(elems[..i], elems[i], sep);
      assert elems[..i + 1] == elems[..i] + [elems[i]];
      output.Append(sep);
      output.Append(elems[i]);
      i := i + 1;
    }
    assert elems[..i] == elems;
  }

  /** `join` examples: nothing to join gives an empty string, an empty last
      element leaves a trailing separator, an empty separator concatenates,
      and empty first and last elements leave separators at both ends. */
  lemma JoinEmptyExample()
    ensures Join([], ":") == []
  {
  }

  lemma JoinTrailingExample()
    ensures Join(["1", "23", "456", ""], ":") == "1:23:456:"
  {
    var a, b, c, e: bytes := "1", "23", "456", "";
    assert [a, b, c, e] == [a, b] + [c, e];
    JoinAppend([a, b], [c, e], ":");
    assert [a, b] == [a] + [b] && [c, e] == [c] + [e];
    JoinAppend([a], [b], ":");
    JoinAppend([c], [e], ":");
  }

  lemma JoinSeparatorExample()
    ensures Join(["1", "23", "456"], "-*-") == "1-*-23-*-456"
  {
    var a, b, c: bytes := "1", "23", "456";
    assert [a, b, c] == [a] + [b, c] && [b, c] == [b] + [c];
    JoinAppend([a], [b, c], "-*-");
    JoinAppend([b], [c], "-*-");
  }

  lemma JoinCharsExample()
    ensures Join(["f", "a", "c", "e", "b", "o", "o", "k"], "") == "facebook"
  {
    var f, a, c, e, b, o, k, n: bytes := "f", "a", "c", "e", "b", "o", "k", "";
    JoinFour(f, a, c, e, n);
    JoinFour(b, o, o, k, n);
    JoinAppend([f, a, c, e], [b, o, o, k], n);
    assert [f, a, c, e] + [b, o, o, k] == ["f", "a", "c", "e", "b", "o", "o", "k"];
    CharsText();
  }

  lemma CharsText()
    ensures var f, a, c, e, b, o, k, n: bytes := "f", "a", "c", "e", "b", "o", "k", "";
      (f + n + (a + n + (c + n + e))) + n + (b + n + (o + n + (o + n + k))) == "facebook"
  {
  }

  /** Empty first and last elements put a separator at each end. */
  lemma JoinEmptyEnds(m: seq<bytes>, sep: bytes)
    requires m != []
    ensures Join([[]] + m + [[]], sep) == sep + Join(m, sep) + sep
  {
    JoinAppend([[]], m, sep);
    JoinAppend([[]] + m, [[]], sep);
  }

  /** Four elements with a separator between each two. */
  lemma JoinFour(a: bytes, b: bytes, c: bytes, d: bytes, sep: bytes)
    ensures Join([a, b, c, d], sep) == a + sep + (b + sep + (c + sep + d))
  {
    assert [c, d][1..] == [d];
    assert Join([c, d], sep) == c + sep + d;
    assert [b, c, d][1..] == [c, d];
    assert Join([b, c, d], sep) == b + sep + Join([c, d], sep);
    assert [a, b, c, d][1..] == [b, c, d];
  }

  /** Empty first and last elements with one-letter ones between them. */
  lemma JoinWrappedExample()
    ensures Join(["", "f", "a", "c", "e", "b", "o", "o", "k", ""], "_") == "_f_a_c_e_b_o_o_k_"
  {
    var f, a, c, e, b, o, k, u: bytes := "f", "a", "c", "e", "b", "o", "k", "_";
    var m1, m2 := [f, a, c, e], [b, o, o, k];
    JoinFour(f, a, c, e, u);
    JoinFour(b, o, o, k, u);
    JoinAppend(m1, m2, u);
    JoinEmptyEnds(m1 + m2, u);
    assert [[]] + (m1 + m2) + [[]] == ["", "f", "a", "c", "e", "b", "o", "o", "k", ""];
    WrappedText();
  }

  lemma WrappedText()
    ensures var f, a, c, e, b, o, k, u: bytes := "f", "a", "c", "e", "b", "o", "k", "_";
      u + ((f + u + (a + u + (c + u + e))) + u + (b + u + (o + u + (o + u + k)))) + u == "_f_a_c_e_b_o_o_k_"
  {
  }
}
