/** What the framer of `observeStringStream` guarantees, and where it
    departs from "one token per delimiter byte". */
module FramerProperties {
  import opened Framing

  /** All tokens laid end to end. */
  function Flatten(tokens: seq<seq<Byte>>): seq<Byte>
    decreases |tokens|
  {
    if tokens == [] then [] else Flatten(tokens[..|tokens| - 1]) + tokens[|tokens| - 1]
  }

  /** The bytes of `input` that are not delimiters, in order. */
  function NonDelimiters(delimiter: seq<int>, input: seq<Byte>): seq<Byte>
    decreases |input|
  {
    if input == [] then []
    else
      var last := input[|input| - 1];
      NonDelimiters(delimiter, input[..|input| - 1]) + (if IsDelimiter(delimiter, last) then [] else [last])
  }

  /** How many bytes of `input` are delimiters. */
  function DelimiterCount(delimiter: seq<int>, input: seq<Byte>): nat
    decreases |input|
  {
    if input == [] then 0
    else DelimiterCount(delimiter, input[..|input| - 1]) + (if IsDelimiter(delimiter, input[|input| - 1]) then 1 else 0)
  }

  /** No byte of `token` is a delimiter. */
  predicate DelimiterFree(delimiter: seq<int>, token: seq<Byte>) {
    forall j :: 0 <= j < |token| ==> !IsDelimiter(delimiter, token[j])
  }

  lemma FlattenAppend(tokens: seq<seq<Byte>>, token: seq<Byte>)
    ensures Flatten(tokens + [token]) == Flatten(tokens) + token
  {
    assert (tokens + [token])[..|tokens|] == tokens;
  }

  /** One `onNext` keeps the framer's bookkeeping: the emitted bytes and the
      buffer together are the non-delimiter bytes seen, at most one token
      is emitted, and only for a delimiter, and no delimiter is ever
      buffered. */
  lemma NextKeepsBytes(delimiter: seq<int>, s: FramerState, b: Byte)
    requires DelimiterFree(delimiter, s.buffer)
    ensures var t := Next(delimiter, s, b);
            Flatten(t.tokens) + t.buffer ==
              Flatten(s.tokens) + s.buffer + (if IsDelimiter(delimiter, b) then [] else [b])
    ensures var t := Next(delimiter, s, b);
            |t.tokens| <= |s.tokens| + (if IsDelimiter(delimiter, b) then 1 else 0)
    ensures var t := Next(delimiter, s, b);
            DelimiterFree(delimiter, t.buffer) &&
            t.tokens[..|s.tokens|] == s.tokens &&
            (|t.tokens| > |s.tokens| ==> t.tokens[|s.tokens|] == s.buffer)
  {
    if IsDelimiter(delimiter, b) {
      FlattenAppend(s.tokens, s.buffer);
    }
  }

  /** After any input, the tokens emitted so far followed by the buffer are
      exactly the non-delimiter bytes of the input: nothing is lost, nothing
      is repeated, the order is kept. Neither a token nor the buffer holds a
      delimiter, and there are no more tokens than delimiter bytes. */
  lemma {:induction false} FeedKeepsBytes(delimiter: seq<int>, input: seq<Byte>)
    ensures var s := Feed(delimiter, Initial, input);
            Flatten(s.tokens) + s.buffer == NonDelimiters(delimiter, input)
    ensures var s := Feed(delimiter, Initial, input);
            DelimiterFree(delimiter, s.buffer) &&
            (forall k :: 0 <= k < |s.tokens| ==> DelimiterFree(delimiter, s.tokens[k]))
    ensures |Feed(delimiter, Initial, input).tokens| <= DelimiterCount(delimiter, input)
    decreases |input|
  {
    if input != [] {
      var prefix := input[..|input| - 1];
      var b := input[|input| - 1];
      FeedKeepsBytes(delimiter, prefix);
      var s := Feed(delimiter, Initial, prefix);
      NextKeepsBytes(delimiter, s, b);
      var t := Next(delimiter, s, b);
      forall k | 0 <= k < |t.tokens|
        ensures DelimiterFree(delimiter, t.tokens[k])
      {
        if k < |s.tokens| {
          assert t.tokens[k] == t.tokens[..|s.tokens|][k] == s.tokens[k];
        }
      }
    }
  }

  /** The whole framing loses and duplicates nothing: the tokens laid end to
      end are the non-delimiter bytes of the input, in order, and no token
      holds a delimiter. */
  lemma FrameKeepsBytes(delimiter: seq<int>, input: seq<Byte>)
    ensures Flatten(Frame(delimiter, input)) == NonDelimiters(delimiter, input)
    ensures forall k :: 0 <= k < |Frame(delimiter, input)| ==> DelimiterFree(delimiter, Frame(delimiter, input)[k])
  {
    FeedKeepsBytes(delimiter, input);
    var s := Feed(delimiter, Initial, input);
    if s.buffer != [] {
      FlattenAppend(s.tokens, s.buffer);
    }
  }

  /** At most one token per delimiter byte, plus one for the flush at the
      end of the stream. */
  lemma FrameTokenBound(delimiter: seq<int>, input: seq<Byte>)
    ensures |Frame(delimiter, input)| <= DelimiterCount(delimiter, input) + 1
  {
    FeedKeepsBytes(delimiter, input);
  }

  /** A stream that ends before any byte arrives produces no token. */
  lemma FrameNoBytes(delimiter: seq<int>)
    ensures Frame(delimiter, []) == []
  {
  }

  /** A delimiter outside the range of a Java byte matches no byte. */
  lemma NoByteMatches(delimiter: seq<int>, b: Byte)
    requires forall i :: 0 <= i < |delimiter| ==> delimiter[i] < -128 || 127 < delimiter[i]
    ensures !IsDelimiter(delimiter, b)
  {
    forall i | 0 <= i < |delimiter|
      ensures delimiter[i] != b as int
    {
    }
  }

  /** A delimiter outside the range of a Java byte never matches, so with
      only such delimiters the whole input comes out as one token at the
      end of the stream. */
  lemma UnmatchableDelimiters(delimiter: seq<int>, input: seq<Byte>)
    requires forall i :: 0 <= i < |delimiter| ==> delimiter[i] < -128 || 127 < delimiter[i]
    ensures Feed(delimiter, Initial, input) == FramerState(input, [], [])
    ensures Frame(delimiter, input) == if input == [] then [] else [input]
  {
    forall j | 0 <= j < |input|
      ensures !IsDelimiter(delimiter, input[j])
    {
      NoByteMatches(delimiter, input[j]);
    }
    FeedDelimiterFree(delimiter, Initial, input);
    assert Initial.buffer + input == input;
  }

  /** Feeding one more byte is one more `onNext`. */
  lemma FeedSnoc(delimiter: seq<int>, s: FramerState, input: seq<Byte>, b: Byte)
    ensures Feed(delimiter, s, input + [b]) == Next(delimiter, Feed(delimiter, s, input), b)
  {
    assert (input + [b])[..|input|] == input;
  }

  /** Feeding two inputs one after the other is feeding their
      concatenation: the framer carries its whole state across. */
  lemma {:induction false} FeedAppend(delimiter: seq<int>, s: FramerState, first: seq<Byte>, second: seq<Byte>)
    ensures Feed(delimiter, s, first + second) == Feed(delimiter, Feed(delimiter, s, first), second)
    decreases |second|
  {
    if second == [] {
      assert first + second == first;
    } else {
      var rest, b := second[..|second| - 1], second[|second| - 1];
      FeedAppend(delimiter, s, first, rest);
      assert first + second == (first + rest) + [b];
      FeedSnoc(delimiter, s, first + rest, b);
    }
  }

  /** Bytes that are not delimiters are only buffered. */
  lemma {:induction false} FeedDelimiterFree(delimiter: seq<int>, s: FramerState, chunk: seq<Byte>)
    requires DelimiterFree(delimiter, chunk)
    ensures Feed(delimiter, s, chunk) == s.(buffer := s.buffer + chunk)
    decreases |chunk|
  {
    if chunk == [] {
      assert s.buffer + chunk == s.buffer;
    } else {
      var rest, b := chunk[..|chunk| - 1], chunk[|chunk| - 1];
      assert DelimiterFree(delimiter, rest) by {
        forall j | 0 <= j < |rest|
          ensures !IsDelimiter(delimiter, rest[j])
        {
          assert rest[j] == chunk[j];
        }
      }
      FeedDelimiterFree(delimiter, s, rest);
      assert s.buffer + rest + [b] == s.buffer + chunk;
    }
  }

  lemma CarriageReturnIsDefault()
    ensures IsDelimiter(DefaultDelimiters, 13 as Byte)
  {
    assert DefaultDelimiters[0] == 13;
  }

  lemma LineFeedIsDefault()
    ensures IsDelimiter(DefaultDelimiters, 10 as Byte)
  {
    assert DefaultDelimiters[1] == 10;
  }

  /** With the default delimiters, "\r\n" with nothing buffered and nothing
      received emits exactly one "": the '\r' emits the empty buffer
      without clearing the received list, and the '\n' then completes the
      list `[13, 10]` and is swallowed. A fresh framer is one such state. */
  lemma DefaultCrLfEmitsOneEmptyToken(s: FramerState)
    requires s.buffer == [] && s.receivedDelimiters == []
    ensures Flush(Feed(DefaultDelimiters, s, [13, 10])).tokens == s.tokens + [[]]
    ensures Feed(DefaultDelimiters, s, [13, 10]).receivedDelimiters == DefaultDelimiters
  {
    var d := DefaultDelimiters;
    CarriageReturnIsDefault();
    LineFeedIsDefault();
    var s1 := Next(d, s, 13);
    assert s1 == FramerState([], [13], s.tokens + [[]]) by { assert |s.receivedDelimiters + [13]| == 1; }
    var s2 := Next(d, s1, 10);
    assert s2 == FramerState([], [13, 10], s.tokens + [[]]);
    FeedSnoc(d, s, [], 13);
    assert [] + [13 as Byte] == [13];
    FeedSnoc(d, s, [13], 10);
    assert [13 as Byte] + [10] == [13, 10];
  }

  /** Once an empty token has left the received list full, a further
      "\r\n" with nothing buffered emits two empty tokens, not one, and
      the list only grows: "ab\r\n\r\n" gives "ab", "", "", "". */
  lemma DefaultCrLfAfterEmptyToken(s: FramerState)
    requires s.buffer == [] && s.receivedDelimiters == DefaultDelimiters
    ensures Feed(DefaultDelimiters, s, [13, 10]) == FramerState([], DefaultDelimiters + [13, 10], s.tokens + [[], []])
  {
    var d := DefaultDelimiters;
    CarriageReturnIsDefault();
    LineFeedIsDefault();
    var s1 := Next(d, s, 13);
    assert s1 == FramerState([], d + [13], s.tokens + [[]]) by { assert |d + [13]| == 3; }
    var s2 := Next(d, s1, 10);
    assert s2 == FramerState([], d + [13, 10], s.tokens + [[], []]) by { assert |d + [13] + [10]| == 4; }
    FeedSnoc(d, s, [], 13);
    assert [] + [13 as Byte] == [13];
    FeedSnoc(d, s, [13], 10);
    assert [13 as Byte] + [10] == [13, 10];
  }

  /** A non-empty line without delimiters followed by '\r' gives exactly
      that line, and leaves nothing buffered or received, so the end of the
      stream adds nothing: "ab\r" gives "ab". */
  lemma DefaultTerminatedLine(line: seq<Byte>)
    requires line != [] && DelimiterFree(DefaultDelimiters, line)
    ensures Feed(DefaultDelimiters, Initial, line + [13]) == FramerState([], [], [line])
    ensures Frame(DefaultDelimiters, line + [13]) == [line]
  {
    var d := DefaultDelimiters;
    CarriageReturnIsDefault();
    FeedDelimiterFree(d, Initial, line);
    assert [] + line == line;
    FeedSnoc(d, Initial, line, 13);
    assert |Initial.receivedDelimiters + [13]| != |d|;
  }

  /** A line followed by "\r\n" gives the line and then "": once the line
      is emitted the received list is cleared, so the '\n' alone does not
      complete `[13, 10]`. "ab\r\n" gives "ab" and "". */
  lemma DefaultCrLfAfterText(line: seq<Byte>)
    requires line != [] && DelimiterFree(DefaultDelimiters, line)
    ensures Feed(DefaultDelimiters, Initial, line + [13, 10]).tokens == [line, []]
  {
    var d := DefaultDelimiters;
    DefaultTerminatedLine(line);
    LineFeedIsDefault();
    FeedSnoc(d, Initial, line + [13], 10);
    assert line + [13] + [10] == line + [13, 10];
  }

  /** With a single delimiter, the list of received delimiters equals the
      configured one right after the first delimiter of the stream and the
      first one after each non-empty emission, so that delimiter is
      swallowed and two lines come out as one: with '\n', "ab\ncd\n"
      gives the single token "abcd". */
  lemma SingleDelimiterMergesLines(n: Byte, line1: seq<Byte>, line2: seq<Byte>)
    requires DelimiterFree([n as int], line1) && DelimiterFree([n as int], line2)
    requires line1 + line2 != []
    ensures Frame([n as int], line1 + [n] + line2 + [n]) == [line1 + line2]
  {
    var d := [n as int];
    assert IsDelimiter(d, n) by { assert d[0] == n as int; }
    FeedDelimiterFree(d, Initial, line1);
    assert [] + line1 == line1;
    FeedSnoc(d, Initial, line1, n);
    assert Initial.receivedDelimiters + [n as int] == d;
    var s2 := FramerState(line1, d, []);
    assert Feed(d, Initial, line1 + [n]) == s2;
    FeedAppend(d, Initial, line1 + [n], line2);
    FeedDelimiterFree(d, s2, line2);
    FeedSnoc(d, Initial, line1 + [n] + line2, n);
    assert |d + [n as int]| == 2;
  }

  /** Empty lines are not merged: with a single delimiter, three of them in
      a row give two empty tokens. The first is swallowed; the second emits
      an empty buffer, which leaves the received list full, so from then on
      every delimiter emits. */
  lemma SingleDelimiterEmptyLines(n: Byte)
    ensures Frame([n as int], [n, n, n]) == [[], []]
  {
    var d := [n as int];
    assert IsDelimiter(d, n) by { assert d[0] == n as int; }
    var s1 := Next(d, Initial, n);
    assert s1 == FramerState([], d, []) by { assert Initial.receivedDelimiters + [n as int] == d; }
    var s2 := Next(d, s1, n);
    assert s2 == FramerState([], [n as int, n as int], [[]]) by { assert |s1.receivedDelimiters + [n as int]| == 2; }
    var s3 := Next(d, s2, n);
    assert s3 == FramerState([], [n as int, n as int, n as int], [[], []]) by {
      assert |s2.receivedDelimiters + [n as int]| == 3;
    }
    FeedSnoc(d, Initial, [], n);
    assert [] + [n] == [n];
    FeedSnoc(d, Initial, [n], n);
    assert [n] + [n] == [n, n];
    FeedSnoc(d, Initial, [n, n], n);
    assert [n, n] + [n] == [n, n, n];
  }
}
