/** The string framer of `BluetoothConnection.observeStringStream(int...)`:
    one `Subscriber<Byte>` per downstream subscriber, holding a `buffer` of
    bytes and the list of `receivedDelimiters`, both updated in place.

    It is modelled as written. A byte equal to one of the configured
    delimiters is appended to `receivedDelimiters`; it is swallowed when that
    list now equals the whole delimiter array, and otherwise emits the
    buffer. Emitting an empty buffer sends "" and leaves
    `receivedDelimiters` as it was; emitting a non-empty one clears both
    lists. Tokens are kept as bytes: the charset decoding of
    `new String(bytes)` is not part of this model.

    `FramerState`, `Next`, `Emit`, `Flush`, `Feed` and `Frame` are the
    reference definition; the class `StringFramer` is the subscriber itself,
    and `FrameAll` drives it and is proved to agree with `Frame`. */
module Framing {

  /** Java's `byte`: the read loop casts each value read to it. */
  type Byte = b: int | -128 <= b < 128

  const CarriageReturn: int := 13
  const LineFeed: int := 10

  /** The delimiters of `observeStringStream()`: '\r' then '\n'. */
  const DefaultDelimiters: seq<int> := [CarriageReturn, LineFeed]

  /** The terminal signal the framer has forwarded downstream, if any. */
  datatype Terminal = Open | Completed | Errored

  /** What one framer holds: its two lists and the tokens it has passed to
      `subscriber.onNext` so far. */
  datatype FramerState = FramerState(buffer: seq<Byte>, receivedDelimiters: seq<int>, tokens: seq<seq<Byte>>)

  const Initial: FramerState := FramerState([], [], [])

  /** `b == d` for some configured `d`: a Java byte compared with an int,
      so a delimiter outside -128..127 never matches. */
  predicate IsDelimiter(delimiter: seq<int>, b: Byte) {
    exists i :: 0 <= i < |delimiter| && delimiter[i] == b
  }

  /** `emit()`. */
  function Emit(s: FramerState): FramerState {
    if s.buffer == [] then s.(tokens := s.tokens + [[]])
    else FramerState([], [], s.tokens + [s.buffer])
  }

  /** `onNext(b)`. */
  function Next(delimiter: seq<int>, s: FramerState, b: Byte): FramerState {
    if IsDelimiter(delimiter, b) then
      var s' := s.(receivedDelimiters := s.receivedDelimiters + [b as int]);
      if s'.receivedDelimiters == delimiter then s' else Emit(s')
    else
      s.(buffer := s.buffer + [b])
  }

  /** What `onComplete()` and `onError(e)` do before forwarding the signal:
      emit the buffer only when it is not empty. */
  function Flush(s: FramerState): FramerState {
    if s.buffer != [] then Emit(s) else s
  }

  /** The framer state after `onNext` has seen every byte of `input`. */
  function Feed(delimiter: seq<int>, s: FramerState, input: seq<Byte>): FramerState
    decreases |input|
  {
    if input == [] then s
    else Next(delimiter, Feed(delimiter, s, input[..|input| - 1]), input[|input| - 1])
  }

  /** The tokens a subscriber receives for `input` followed by completion
      (or by an error: the framer treats both alike). */
  function Frame(delimiter: seq<int>, input: seq<Byte>): seq<seq<Byte>> {
    Flush(Feed(delimiter, Initial, input)).tokens
  }

  // ---------------------------------------------------------------------
  // The subscriber, updating its lists in place.

  class StringFramer {
    const delimiter: seq<int>
    var buffer: seq<Byte>
    var receivedDelimiters: seq<int>
    /** The strings passed to `subscriber.onNext`, as bytes. */
    var emitted: seq<seq<Byte>>
    /** The terminal signal passed downstream. */
    var terminal: Terminal

    function State(): FramerState
      reads this
    {
      FramerState(buffer, receivedDelimiters, emitted)
    }

    constructor (delimiter: seq<int>)
      ensures this.delimiter == delimiter
      ensures State() == Initial && terminal == Open
    {
      this.delimiter := delimiter;
      buffer, receivedDelimiters, emitted := [], [], [];
      terminal := Open;
    }

    /** `onNext(Byte b)`: look `b` up among the delimiters (stopping at the
        first match), then either buffer it or emit. */
    method OnNext(b: Byte)
      modifies this
      ensures State() == Next(delimiter, old(State()), b)
      ensures terminal == old(terminal)
    {
      var found := false;
      var k := 0;
      while k < |delimiter|
        invariant 0 <= k <= |delimiter|
        invariant !found
        invariant forall j :: 0 <= j < k ==> delimiter[j] != b
        invariant State() == old(State())
      {
        if b as int == delimiter[k] {
          receivedDelimiters := receivedDelimiters + [b as int];
          found := true;
          break;
        }
        k := k + 1;
      }
      if found {
        var matched := DelimitersMatched();
        if !matched {
          Emit();
        }
      } else {
        buffer := buffer + [b];
      }
    }

    /** `emit()`: an empty buffer sends "" and returns early; otherwise the
        buffer is copied into an array, sent, and both lists are cleared. */
    method Emit()
      modifies this
      ensures old(buffer) == [] ==> emitted == old(emitted) + [[]] &&
                                    buffer == [] && receivedDelimiters == old(receivedDelimiters)
      ensures old(buffer) != [] ==> emitted == old(emitted) + [old(buffer)] &&
                                    buffer == [] && receivedDelimiters == []
      ensures terminal == old(terminal)
    {
      if |buffer| == 0 {
        emitted := emitted + [[]];
        return;
      }
      var bArray := new Byte[|buffer|];
      for i := 0 to |buffer|
        modifies bArray
        invariant bArray[..i] == buffer[..i]
      {
        bArray[i] := buffer[i];
      }
      assert bArray[..] == buffer[..|buffer|] == buffer;
      emitted := emitted + [bArray[..]];
      buffer := [];
      receivedDelimiters := [];
    }

    /** `delimitersMatched()`: copy the received delimiters into an array
        and compare it with the configured one element by element. */
    method DelimitersMatched() returns (matched: bool)
      ensures matched <==> receivedDelimiters == delimiter
    {
      var received := new int[|receivedDelimiters|];
      for i := 0 to |receivedDelimiters|
        modifies received
        invariant received[..i] == receivedDelimiters[..i]
      {
        received[i] := receivedDelimiters[i];
      }
      matched := received[..] == delimiter;
    }

    /** `onComplete()`. */
    method OnComplete()
      modifies this
      ensures State() == Flush(old(State()))
      ensures terminal == Completed
    {
      if |buffer| != 0 {
        Emit();
      }
      terminal := Completed;
    }

    /** `onError(e)`. */
    method OnError()
      modifies this
      ensures State() == Flush(old(State()))
      ensures terminal == Errored
    {
      if |buffer| != 0 {
        Emit();
      }
      terminal := Errored;
    }
  }

  /** Runs one fresh framer over `input` and then ends the stream as
      `ending` says (`Open`: the subscriber cancels and no terminal signal
      comes). The class and the reference definition agree. */
  method FrameAll(delimiter: seq<int>, input: seq<Byte>, ending: Terminal)
    returns (tokens: seq<seq<Byte>>, terminal: Terminal)
    ensures terminal == ending
    ensures ending != Open ==> tokens == Frame(delimiter, input)
    ensures ending == Open ==> tokens == Feed(delimiter, Initial, input).tokens
  {
    var framer := new StringFramer(delimiter);
    for i := 0 to |input|
      invariant framer.State() == Feed(delimiter, Initial, input[..i])
      invariant framer.delimiter == delimiter && framer.terminal == Open
    {
      assert input[..i + 1][..i] == input[..i];
      framer.OnNext(input[i]);
    }
    assert input[..|input|] == input;
    if ending == Completed {
      framer.OnComplete();
    } else if ending == Errored {
      framer.OnError();
    }
    tokens, terminal := framer.emitted, framer.terminal;
  }
}
