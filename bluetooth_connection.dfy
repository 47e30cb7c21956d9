/** `BluetoothConnection`: a socket and its two streams, the `connected`
    flag that gates writing, the shared byte stream fed by a read loop, and
    `closeConnection`, which releases everything.

    Every I/O outcome the connection depends on (whether a stream can be
    obtained, whether a write and flush succeed, whether a read yields a
    byte or fails) is a parameter of the operation that meets it. The
    socket and the streams are `Resource`s with a `released` flag, and
    `Utils.close` is a release that never fails. `Link` and the functions
    over it are the reference definition of the lifecycle; the class is
    proved to follow it. */
module Connections {
  import opened Framing

  /** A closeable the connection holds: the socket or one of its streams. */
  class Resource {
    var released: bool

    constructor ()
      ensures !released
    {
      released := false;
    }
  }

  /** `Utils.close(closeable)`: nothing for null, and a failure to close is
      swallowed, so the release always takes effect. */
  method CloseQuietly(closeable: Resource?)
    modifies closeable
    ensures closeable != null ==> closeable.released
  {
    if closeable != null {
      closeable.released := true;
    }
  }

  /** How the connection holds a stream: not at all (the socket refused
      it), or with its `released` flag. */
  datatype Held = Absent | Holding(released: bool)

  /** The lifecycle state of a connection, and the chunks written to and
      flushed on the output stream so far. */
  datatype Link = Link(connected: bool, input: Held, output: Held, socketReleased: bool, delivered: seq<seq<Byte>>)

  /** A stream that is absent or released. */
  predicate Done(h: Held) {
    h != Holding(false)
  }

  /** A connected link holds both streams unreleased; a disconnected one
      has released every resource it holds. */
  predicate Valid(l: Link) {
    if l.connected then l.input == Holding(false) && l.output == Holding(false)
    else Done(l.input) && Done(l.output) && l.socketReleased
  }

  function Release(h: Held): (r: Held)
    ensures Done(r) && (r == Absent <==> h == Absent)
  {
    match h
    case Absent => Absent
    case Holding(_) => Holding(true)
  }

  /** `closeConnection()`. */
  function Closed(l: Link): Link {
    Link(false, Release(l.input), Release(l.output), true, l.delivered)
  }

  /** What the constructor leaves for a socket: the input stream is asked
      for first, then the output stream; if either is refused the
      connection is closed again. */
  function Opened(socketReleased: bool, inputAvailable: bool, outputAvailable: bool): Link {
    if inputAvailable && outputAvailable then Link(true, Holding(false), Holding(false), socketReleased, [])
    else Closed(Link(false, if inputAvailable then Holding(false) else Absent, Absent, socketReleased, []))
  }

  /** `send(bytes)`: the new state and the result. */
  function SendStep(l: Link, bytes: seq<Byte>, writeSucceeds: bool): (Link, bool) {
    if !l.connected then (l, false)
    else if writeSucceeds then (l.(delivered := l.delivered + [bytes]), true)
    else (Closed(l), false)
  }

  /** One result of `inputStream.read()`. */
  datatype ReadResult = ReadByte(b: Byte) | ReadFails

  /** What the byte stream passes to its subscriber: a byte, or the
      `ConnectionClosedException` error. */
  datatype ByteSignal = NextByte(b: Byte) | ClosedWhileReading

  function AsSignal(r: ReadResult): ByteSignal {
    match r
    case ReadByte(b) => NextByte(b)
    case ReadFails => ClosedWhileReading
  }

  /** The connection after one pass of the read loop's body: a failed read
      clears `connected`, and the `finally` block closes the connection
      whenever it is no longer connected. */
  function ReadNext(l: Link, r: ReadResult): Link {
    match r
    case ReadFails => Closed(l.(connected := false))
    case ReadByte(_) => if l.connected then l else Closed(l)
  }

  /** The read loop of `observeByteStream()` over the reads it performs
      until the subscriber cancels: each byte is passed on, and the
      connection is closed again after it if it is no longer connected; a
      failed read clears `connected`, signals the error and closes the
      connection, and the emitter, now terminated, ends the loop. */
  function ReadLoop(l: Link, script: seq<ReadResult>): (Link, seq<ByteSignal>)
    decreases |script|
  {
    if script == [] then (l, [])
    else match script[0]
      case ReadFails => (Closed(l.(connected := false)), [ClosedWhileReading])
      case ReadByte(b) =>
        var next := ReadLoop(if l.connected then l else Closed(l), script[1..]);
        (next.0, [NextByte(b)] + next.1)
  }

  /** The bytes carried by a run of signals. */
  function Bytes(signals: seq<ByteSignal>): seq<Byte>
    decreases |signals|
  {
    if signals == [] then []
    else (if signals[0].NextByte? then [signals[0].b] else []) + Bytes(signals[1..])
  }

  // ---------------------------------------------------------------------
  // Properties of the lifecycle.

  /** Construction connects exactly when both streams are obtained, and
      otherwise releases the socket and whatever stream it obtained. */
  lemma OpenedOutcomes(socketReleased: bool, inputAvailable: bool, outputAvailable: bool)
    ensures var l := Opened(socketReleased, inputAvailable, outputAvailable);
            Valid(l) && l.delivered == [] &&
            (l.connected <==> inputAvailable && outputAvailable) &&
            (!l.connected ==> l.socketReleased && l.output == Absent &&
                              (l.input == Absent <==> !inputAvailable))
  {
  }

  /** `closeConnection` disconnects and releases every held resource, keeps
      what was delivered, and a second call changes nothing. */
  lemma ClosedIdempotent(l: Link)
    ensures var c := Closed(l);
            !c.connected && c.socketReleased && Done(c.input) && Done(c.output) &&
            c.delivered == l.delivered && Valid(c) && Closed(c) == c
  {
  }

  /** The three outcomes of `send`: refused without writing when
      disconnected; delivered and still connected when the write succeeds;
      otherwise false, nothing delivered, and everything released. The
      invariant is kept. */
  lemma SendOutcomes(l: Link, bytes: seq<Byte>, writeSucceeds: bool)
    ensures var (n, ok) := SendStep(l, bytes, writeSucceeds);
            (ok <==> l.connected && writeSucceeds) &&
            (!l.connected ==> n == l) &&
            (ok ==> n.connected && n.delivered == l.delivered + [bytes] &&
                    n.input == l.input && n.output == l.output && n.socketReleased == l.socketReleased) &&
            (!ok ==> n.delivered == l.delivered) &&
            (l.connected && !writeSucceeds ==> n == Closed(l))
    ensures Valid(l) ==> Valid(SendStep(l, bytes, writeSucceeds).0)
  {
  }

  /** Once disconnected, a connection never sends again. This only collects,
      for a disconnected link, what `SendOutcomes` and `ClosedIdempotent`
      already state. */
  lemma DisconnectedIsFinal(l: Link, bytes: seq<Byte>, writeSucceeds: bool)
    requires !l.connected
    ensures SendStep(l, bytes, writeSucceeds) == (l, false)
    ensures !Closed(l).connected
  {
  }

  /** The read loop passes on, in order, the bytes read up to the first
      failure and then one error, and nothing after it. */
  lemma {:induction false} ReadLoopSignalOrder(l: Link, script: seq<ReadResult>)
    ensures var signals := ReadLoop(l, script).1;
            |signals| <= |script| && (script != [] ==> signals != []) &&
            (forall k :: 0 <= k < |signals| ==> signals[k] == AsSignal(script[k])) &&
            (forall k :: 0 <= k < |signals| - 1 ==> script[k].ReadByte?) &&
            (|signals| < |script| ==> signals[|signals| - 1] == ClosedWhileReading)
    decreases |script|
  {
    if script != [] && script[0].ReadByte? {
      var l' := if l.connected then l else Closed(l);
      ReadLoopSignalOrder(l', script[1..]);
      var rest := ReadLoop(l', script[1..]).1;
      var signals := [NextByte(script[0].b)] + rest;
      assert ReadLoop(l, script).1 == signals;
      forall k | 0 <= k < |signals|
        ensures signals[k] == AsSignal(script[k])
      {
        if k > 0 {
          assert signals[k] == rest[k - 1];
          assert script[1..][k - 1] == script[k];
        }
      }
      forall k | 0 <= k < |signals| - 1
        ensures script[k].ReadByte?
      {
        if k > 0 {
          assert script[1..][k - 1] == script[k];
        }
      }
    }
  }

  /** After the read loop the connection is still connected exactly when it
      was before and no read failed; the loop writes nothing and keeps the
      invariant. */
  lemma {:induction false} ReadLoopFinalState(l: Link, script: seq<ReadResult>)
    ensures var n := ReadLoop(l, script).0;
            (n.connected <==> l.connected && ReadFails !in script) &&
            n.delivered == l.delivered &&
            (Valid(l) ==> Valid(n))
    decreases |script|
  {
    if script != [] && script[0].ReadByte? {
      var l' := if l.connected then l else Closed(l);
      ReadLoopFinalState(l', script[1..]);
      assert ReadLoop(l, script).0 == ReadLoop(l', script[1..]).0;
      assert script == [script[0]] + script[1..];
      assert ReadFails in script <==> ReadFails in script[1..];
    }
  }

  /** Both of the above, for one run of the loop: this only collects
      `ReadLoopSignalOrder` and `ReadLoopFinalState`. */
  lemma ReadLoopSignals(l: Link, script: seq<ReadResult>)
    ensures var (n, signals) := ReadLoop(l, script);
            |signals| <= |script| && (script != [] ==> signals != []) &&
            (forall k :: 0 <= k < |signals| ==> signals[k] == AsSignal(script[k])) &&
            (forall k :: 0 <= k < |signals| - 1 ==> script[k].ReadByte?) &&
            (|signals| < |script| ==> signals[|signals| - 1] == ClosedWhileReading)
    ensures var n := ReadLoop(l, script).0;
            (n.connected <==> l.connected && ReadFails !in script) &&
            n.delivered == l.delivered &&
            (Valid(l) ==> Valid(n))
  {
    ReadLoopSignalOrder(l, script);
    ReadLoopFinalState(l, script);
  }

  /** One pass of the read loop, from position `i` of the script. */
  lemma ReadLoopStep(l: Link, script: seq<ReadResult>, i: nat)
    requires i < |script|
    ensures script[i].ReadFails? ==>
              ReadLoop(l, script[i..]) == (ReadNext(l, script[i]), [ClosedWhileReading])
    ensures script[i].ReadByte? ==>
              var next := ReadLoop(ReadNext(l, script[i]), script[i + 1..]);
              ReadLoop(l, script[i..]) == (next.0, [NextByte(script[i].b)] + next.1)
  {
    assert script[i..][1..] == script[i + 1..];
  }

  /** A read failure leaves the connection disconnected, so every later
      `send` returns false without writing. */
  lemma ReadFailureThenSendFails(l: Link, script: seq<ReadResult>, bytes: seq<Byte>, writeSucceeds: bool)
    requires ReadFails in script
    ensures var n := ReadLoop(l, script).0;
            !n.connected && SendStep(n, bytes, writeSucceeds) == (n, false)
  {
    ReadLoopSignals(l, script);
  }

  // ---------------------------------------------------------------------
  // The connection object.

  function HeldBy(stream: Resource?): Held
    reads stream
  {
    if stream == null then Absent else Holding(stream.released)
  }

  class BluetoothConnection {
    const socket: Resource
    var inputStream: Resource?
    var outputStream: Resource?
    var connected: bool
    /** The chunks written to and flushed on `outputStream`. */
    var delivered: seq<seq<Byte>>
    /** The shared byte stream, created on first use. */
    var observeInputStream: ByteStream?

    function State(): Link
      reads this, socket, inputStream, outputStream
    {
      Link(connected, HeldBy(inputStream), HeldBy(outputStream), socket.released, delivered)
    }

    /** The shared byte stream, once created, reads from this connection. */
    predicate Wired()
      reads this
    {
      observeInputStream != null ==> observeInputStream.connection == this
    }

    /** `BluetoothConnection(socket)` for a non-null socket: ask for the
        input stream, then the output stream, and close everything again if
        either is refused (the Java constructor then throws). */
    constructor (socket: Resource, inputAvailable: bool, outputAvailable: bool)
      modifies socket
      ensures this.socket == socket && observeInputStream == null && Wired()
      ensures State() == Opened(old(socket.released), inputAvailable, outputAvailable)
      ensures inputStream != null ==> fresh(inputStream)
      ensures outputStream != null ==> fresh(outputStream)
    {
      this.socket := socket;
      connected := false;
      delivered := [];
      observeInputStream := null;
      inputStream := null;
      outputStream := null;
      new;
      if inputAvailable {
        inputStream := new Resource();
        if outputAvailable {
          outputStream := new Resource();
          connected := true;
        }
      }
      if !connected {
        CloseConnection();
      }
    }

    /** `observeByteStream()`: the stream is created on the first call and
        the same object is returned on every later one. */
    method ObserveByteStream() returns (stream: ByteStream)
      requires Wired()
      modifies this
      ensures old(observeInputStream) != null ==> stream == old(observeInputStream)
      ensures old(observeInputStream) == null ==> fresh(stream)
      ensures observeInputStream == stream && stream.connection == this && Wired()
      ensures State() == old(State())
      ensures inputStream == old(inputStream) && outputStream == old(outputStream)
    {
      if observeInputStream == null {
        observeInputStream := new ByteStream(this);
      }
      stream := observeInputStream;
    }

    /** `observeStringStream(delimiter)` for one subscriber: the framer of
        `Framing` fed with the byte stream, which ends with an error when a
        read fails and otherwise when the subscriber cancels. */
    method ObserveStringStream(delimiter: seq<int>, script: seq<ReadResult>)
      returns (tokens: seq<seq<Byte>>, terminal: Terminal)
      requires Wired()
      modifies this, socket, inputStream, outputStream
      ensures var (n, signals) := ReadLoop(old(State()), script);
              State() == n &&
              (terminal == Errored <==> ClosedWhileReading in signals) &&
              (terminal == Errored ==> tokens == Frame(delimiter, Bytes(signals))) &&
              (terminal != Errored ==> terminal == Open &&
                                       tokens == Feed(delimiter, Initial, Bytes(signals)).tokens)
      ensures inputStream == old(inputStream) && outputStream == old(outputStream)
      ensures old(observeInputStream) != null ==> observeInputStream == old(observeInputStream)
      ensures observeInputStream != null && Wired()
    {
      var stream := ObserveByteStream();
      var signals := stream.Subscribe(script);
      var ending := if ClosedWhileReading in signals then Errored else Open;
      tokens, terminal := FrameAll(delimiter, Bytes(signals), ending);
    }

    /** One pass of the read loop's body: a byte read is passed on; a failed
        read clears `connected` and signals the error; then the connection
        is closed if it is no longer connected. */
    method ReadOnce(r: ReadResult) returns (signal: ByteSignal)
      modifies this, socket, inputStream, outputStream
      ensures State() == ReadNext(old(State()), r) && signal == AsSignal(r)
      ensures inputStream == old(inputStream) && outputStream == old(outputStream)
      ensures observeInputStream == old(observeInputStream)
    {
      match r {
        case ReadByte(b) =>
          signal := NextByte(b);
        case ReadFails =>
          connected := false;
          signal := ClosedWhileReading;
      }
      if !connected {
        CloseConnection();
      }
    }

    /** `send(bytes)`: refused when disconnected; a failed write clears
        `connected`, and the `finally` block then closes the connection. */
    method Send(bytes: seq<Byte>, writeSucceeds: bool) returns (sent: bool)
      modifies this, socket, inputStream, outputStream
      ensures (State(), sent) == SendStep(old(State()), bytes, writeSucceeds)
      ensures inputStream == old(inputStream) && outputStream == old(outputStream)
      ensures observeInputStream == old(observeInputStream)
    {
      if !connected {
        return false;
      }
      if writeSucceeds {
        delivered := delivered + [bytes];
        sent := true;
      } else {
        connected := false;
        sent := false;
      }
      if !connected {
        CloseConnection();
      }
    }

    /** `send(oneByte)`: a one-byte array. */
    method SendByte(oneByte: Byte, writeSucceeds: bool) returns (sent: bool)
      modifies this, socket, inputStream, outputStream
      ensures (State(), sent) == SendStep(old(State()), [oneByte], writeSucceeds)
      ensures inputStream == old(inputStream) && outputStream == old(outputStream)
      ensures observeInputStream == old(observeInputStream)
    {
      sent := Send([oneByte], writeSucceeds);
    }

    /** `closeConnection()`: clear the flag, then release the input stream,
        the output stream and the socket, each on its own. */
    method CloseConnection()
      modifies this, socket, inputStream, outputStream
      ensures State() == Closed(old(State()))
      ensures inputStream == old(inputStream) && outputStream == old(outputStream)
      ensures observeInputStream == old(observeInputStream)
    {
      connected := false;
      CloseQuietly(inputStream);
      CloseQuietly(outputStream);
      CloseQuietly(socket);
    }
  }

  /** The `Flowable<Byte>` of `observeByteStream()`; subscribing runs the
      read loop against the connection it was created by. */
  class ByteStream {
    const connection: BluetoothConnection

    constructor (connection: BluetoothConnection)
      ensures this.connection == connection
    {
      this.connection := connection;
    }

    /** One subscription, performing the reads of `script` until the subscriber cancels
        or a read fails. */
    method Subscribe(script: seq<ReadResult>) returns (signals: seq<ByteSignal>)
      modifies connection, connection.socket, connection.inputStream, connection.outputStream
      ensures (connection.State(), signals) == ReadLoop(old(connection.State()), script)
      ensures connection.inputStream == old(connection.inputStream)
      ensures connection.outputStream == old(connection.outputStream)
      ensures connection.observeInputStream == old(connection.observeInputStream)
    {
      ghost var start := connection.State();
      signals := [];
      var i := 0;
      assert script[i..] == script;
      while i < |script|
        invariant 0 <= i <= |script|
        invariant connection.inputStream == old(connection.inputStream)
        invariant connection.outputStream == old(connection.outputStream)
        invariant connection.observeInputStream == old(connection.observeInputStream)
        invariant ReadLoop(connection.State(), script[i..]).0 == ReadLoop(start, script).0
        invariant signals + ReadLoop(connection.State(), script[i..]).1 == ReadLoop(start, script).1
        decreases |script| - i
      {
        ReadLoopStep(connection.State(), script, i);
        var signal := connection.ReadOnce(script[i]);
        signals := signals + [signal];
        if signal == ClosedWhileReading {
          // The emitter has terminated: `isCancelled()` now holds.
          i := |script|;
        } else {
          i := i + 1;
        }
      }
      assert script[i..] == [];
      assert signals + [] == signals;
    }
  }

  datatype ConnectionError = InvalidParameter | StreamUnavailable

  datatype Result<T, E> = Success(value: T) | Failure(error: E)

  /** `new BluetoothConnection(socket)`: a null socket is rejected before
      anything happens; a refused stream leaves the socket released and the
      constructor throws; otherwise the new connection is connected. */
  method NewConnection(socket: Resource?, inputAvailable: bool, outputAvailable: bool)
    returns (r: Result<BluetoothConnection, ConnectionError>)
    modifies socket
    ensures socket == null ==> r == Failure(InvalidParameter)
    ensures socket != null && !(inputAvailable && outputAvailable) ==>
              r == Failure(StreamUnavailable) && socket.released
    ensures socket != null && inputAvailable && outputAvailable ==>
              r.Success? && fresh(r.value) && r.value.socket == socket && r.value.Wired() &&
              r.value.connected && Valid(r.value.State()) && r.value.delivered == [] &&
              socket.released == old(socket.released) &&
              r.value.inputStream != null && fresh(r.value.inputStream) &&
              r.value.outputStream != null && fresh(r.value.outputStream) &&
              r.value.observeInputStream == null
  {
    if socket == null {
      return Failure(InvalidParameter);
    }
    var c := new BluetoothConnection(socket, inputAvailable, outputAvailable);
    if !c.connected {
      return Failure(StreamUnavailable);
    }
    return Success(c);
  }
}
