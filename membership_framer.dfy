/** One reading of the documentation of `observeStringStream`, which names
    '\r' and '\n' "as delimiter" without saying whether they end a token
    together or one by one: here every delimiter byte ends exactly one
    token, and a non-empty tail is flushed at the end of the stream. With a
    single delimiter, where the two readings coincide, the written framer
    departs from it (see `FramerProperties.SingleDelimiterMergesLines`);
    it is given here with the guarantees a caller would rely on. */
module MembershipFraming {
  import opened Framing
  import opened FramerProperties

  /** The tokens ended so far, the delimiter byte that ended each, and the
      bytes of the token still open. */
  datatype SplitState = SplitState(tokens: seq<seq<Byte>>, terminators: seq<Byte>, pending: seq<Byte>)

  function SplitFeed(delimiter: seq<int>, input: seq<Byte>): SplitState
    decreases |input|
  {
    if input == [] then SplitState([], [], [])
    else
      var s := SplitFeed(delimiter, input[..|input| - 1]);
      var b := input[|input| - 1];
      if IsDelimiter(delimiter, b) then SplitState(s.tokens + [s.pending], s.terminators + [b], [])
      else s.(pending := s.pending + [b])
  }

  /** The tokens of `input` followed by the end of the stream. */
  function Split(delimiter: seq<int>, input: seq<Byte>): seq<seq<Byte>> {
    var s := SplitFeed(delimiter, input);
    s.tokens + (if s.pending != [] then [s.pending] else [])
  }

  /** Each token followed by the byte that ended it, laid end to end. */
  function Rejoin(tokens: seq<seq<Byte>>, terminators: seq<Byte>): seq<Byte>
    requires |tokens| == |terminators|
    decreases |tokens|
  {
    if tokens == [] then []
    else Rejoin(tokens[..|tokens| - 1], terminators[..|terminators| - 1]) +
         tokens[|tokens| - 1] + [terminators[|terminators| - 1]]
  }

  /** Putting every token back with the delimiter byte that ended it, and
      the open tail after them, gives the input back exactly, with one
      ended token per delimiter byte. */
  lemma {:induction false} SplitRejoins(delimiter: seq<int>, input: seq<Byte>)
    ensures var s := SplitFeed(delimiter, input);
            |s.tokens| == |s.terminators| == DelimiterCount(delimiter, input) &&
            Rejoin(s.tokens, s.terminators) + s.pending == input
    decreases |input|
  {
    if input != [] {
      var prefix, b := input[..|input| - 1], input[|input| - 1];
      SplitRejoins(delimiter, prefix);
      assert prefix + [b] == input;
      if IsDelimiter(delimiter, b) {
        var s, t := SplitFeed(delimiter, prefix), SplitFeed(delimiter, input);
        assert t.tokens[..|t.tokens| - 1] == s.tokens;
        assert t.terminators[..|t.terminators| - 1] == s.terminators;
        assert Rejoin(t.tokens, t.terminators) == Rejoin(s.tokens, s.terminators) + s.pending + [b];
      }
    }
  }

  /** Every terminator is a delimiter byte, and neither an ended token nor
      the open tail holds one. */
  lemma {:induction false} SplitClean(delimiter: seq<int>, input: seq<Byte>)
    ensures var s := SplitFeed(delimiter, input);
            (forall k :: 0 <= k < |s.terminators| ==> IsDelimiter(delimiter, s.terminators[k])) &&
            (forall k :: 0 <= k < |s.tokens| ==> DelimiterFree(delimiter, s.tokens[k])) &&
            DelimiterFree(delimiter, s.pending)
    decreases |input|
  {
    if input != [] {
      var prefix, b := input[..|input| - 1], input[|input| - 1];
      SplitClean(delimiter, prefix);
      var s, t := SplitFeed(delimiter, prefix), SplitFeed(delimiter, input);
      if IsDelimiter(delimiter, b) {
        forall k | 0 <= k < |t.tokens|
          ensures DelimiterFree(delimiter, t.tokens[k])
        {
          if k < |s.tokens| {
            assert t.tokens[k] == s.tokens[k];
          }
        }
        forall k | 0 <= k < |t.terminators|
          ensures IsDelimiter(delimiter, t.terminators[k])
        {
          if k < |s.terminators| {
            assert t.terminators[k] == s.terminators[k];
          }
        }
      }
    }
  }

  /** The whole of the above: the split reassembles into the input, one
      ended token per delimiter byte, each ended by a delimiter, no token
      holds a delimiter, and the tail is empty exactly when the input is
      empty or ends with a delimiter. */
  lemma SplitReassembles(delimiter: seq<int>, input: seq<Byte>)
    ensures var s := SplitFeed(delimiter, input);
            |s.tokens| == |s.terminators| == DelimiterCount(delimiter, input) &&
            Rejoin(s.tokens, s.terminators) + s.pending == input
    ensures var s := SplitFeed(delimiter, input);
            (forall k :: 0 <= k < |s.terminators| ==> IsDelimiter(delimiter, s.terminators[k])) &&
            (forall k :: 0 <= k < |s.tokens| ==> DelimiterFree(delimiter, s.tokens[k])) &&
            DelimiterFree(delimiter, s.pending)
    ensures var s := SplitFeed(delimiter, input);
            s.pending == [] <==> input == [] || IsDelimiter(delimiter, input[|input| - 1])
  {
    SplitRejoins(delimiter, input);
    SplitClean(delimiter, input);
  }

  /** One token per delimiter byte, plus one for a non-empty tail: "\r\n"
      with both default delimiters gives two tokens. */
  lemma SplitCount(delimiter: seq<int>, input: seq<Byte>)
    ensures |Split(delimiter, input)| ==
            DelimiterCount(delimiter, input) +
            (if input != [] && !IsDelimiter(delimiter, input[|input| - 1]) then 1 else 0)
  {
    SplitReassembles(delimiter, input);
  }

  /** A stream that ends before any byte arrives produces no token. */
  lemma SplitNoBytes(delimiter: seq<int>)
    ensures Split(delimiter, []) == []
  {
  }

  /** Splitting one more byte. */
  lemma SplitFeedSnoc(delimiter: seq<int>, input: seq<Byte>, b: Byte)
    ensures var s := SplitFeed(delimiter, input);
            SplitFeed(delimiter, input + [b]) ==
            if IsDelimiter(delimiter, b) then SplitState(s.tokens + [s.pending], s.terminators + [b], [])
            else s.(pending := s.pending + [b])
  {
    assert (input + [b])[..|input|] == input;
  }

  /** Bytes that are not delimiters only extend the open token. */
  lemma {:induction false} SplitFeedDelimiterFree(delimiter: seq<int>, input: seq<Byte>, chunk: seq<Byte>)
    requires DelimiterFree(delimiter, chunk)
    ensures var s := SplitFeed(delimiter, input);
            SplitFeed(delimiter, input + chunk) == s.(pending := s.pending + chunk)
    decreases |chunk|
  {
    var s := SplitFeed(delimiter, input);
    if chunk == [] {
      assert input + chunk == input;
      assert s.pending + chunk == s.pending;
    } else {
      var rest, b := chunk[..|chunk| - 1], chunk[|chunk| - 1];
      assert DelimiterFree(delimiter, rest) by {
        forall j | 0 <= j < |rest|
          ensures !IsDelimiter(delimiter, rest[j])
        {
          assert rest[j] == chunk[j];
        }
      }
      SplitFeedDelimiterFree(delimiter, input, rest);
      assert input + chunk == (input + rest) + [b];
      SplitFeedSnoc(delimiter, input + rest, b);
      assert s.pending + rest + [b] == s.pending + chunk;
    }
  }

  /** With a single delimiter, two lines each ended by it come out as those
      two lines: with '\n', "ab\ncd\n" gives "ab" and "cd", where the
      written framer gives "abcd". */
  lemma SplitSingleDelimiter(n: Byte, line1: seq<Byte>, line2: seq<Byte>)
    requires DelimiterFree([n as int], line1) && DelimiterFree([n as int], line2)
    ensures Split([n as int], line1 + [n] + line2 + [n]) == [line1, line2]
  {
    var d := [n as int];
    assert IsDelimiter(d, n) by { assert d[0] == n as int; }
    SplitFeedDelimiterFree(d, [], line1);
    assert [] + line1 == line1;
    SplitFeedSnoc(d, line1, n);
    assert SplitFeed(d, line1 + [n]) == SplitState([line1], [n], []);
    SplitFeedDelimiterFree(d, line1 + [n], line2);
    assert SplitFeed(d, line1 + [n] + line2) == SplitState([line1], [n], line2);
    SplitFeedSnoc(d, line1 + [n] + line2, n);
  }
}
