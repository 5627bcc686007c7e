/**
 * The connection state of the client (`clientSocket`, `input`, `output`) and
 * the commands that change it or use it: `connect`, `close`, `timeout`, and
 * `send` / `read` over the current streams. The socket is abstracted to its
 * peer, its read timeout and an identity; the network is a parameter.
 */
module Sessions {
  import opened Wrappers
  import opened JavaText
  import opened Literals
  import opened Codec

  /** The read timeout `connect` installs, in milliseconds. */
  const DefaultReadTimeout := 200

  datatype Peer = Peer(host: JString, port: int)

  /** An open socket; `conn` names the socket object, so its streams can refer to it. */
  datatype Socket = Socket(peer: Peer, soTimeout: int, conn: nat)

  /** The `DataOutputStream` of socket `conn`, with every byte written to it so far. */
  datatype OutStream = OutStream(conn: nat, written: seq<Byte>)

  /** The `DataInputStream` of socket `conn`: what the peer sends, and how much has been read. */
  datatype InStream = InStream(conn: nat, data: seq<Byte>, pos: nat)

  /** How the network answers `new Socket(host, port)`: refusal, unreachability and unknown hosts are alike. */
  datatype Network = Unreachable | Accepts(incoming: seq<Byte>)

  datatype CloseOutcome =
    | NotOpen          // "client socket is null"
    | Closed
    | CloseFailed      // `Socket.close` threw; the reference is dropped anyway

  datatype ConnectOutcome =
    | Established
    | BadPortLiteral   // NumberFormatException from `Integer.valueOf`
    | PortOutOfRange   // IllegalArgumentException from `new Socket`, which nothing catches
    | ConnectFailed    // IOException from `new Socket`

  datatype TimeoutOutcome =
    | TimeoutSet
    | NotAnInteger     // NumberFormatException, raised before the null check
    | NoSocket         // NullPointerException: "Connect to a socket first."
    | NegativeTimeout  // IllegalArgumentException from `setSoTimeout`, which nothing catches

  datatype SendOutcome =
    | Sent
    | UnrecognizedType
    | Refused(why: SendError)   // nothing was written
    | NullStream                // NullPointerException: never connected
    | StreamClosed              // IOException: the streams belong to a closed socket

  datatype ReadOutcome =
    | ReadValue(value: Value)
    | ReadUnrecognizedType
    | ReadNullStream
    | ReadStreamClosed
    | ReadExhausted(shown: JString)  // end of stream or timeout; `shown` was already printed
    | ReadMalformed
    | ReadNotModelled

  class Client {
    var clientSocket: Option<Socket>
    var input: Option<InStream>
    var output: Option<OutStream>
    /** How many sockets have been opened: the identity the next one gets. */
    var socketsOpened: nat

    /**
     * An open socket owns the current streams; streams left over from a closed
     * socket stay referenced (close does not clear them) but belong to no open socket.
     */
    ghost predicate Valid()
      reads this
    {
      && (clientSocket.Some? ==>
            && input.Some? && output.Some?
            && input.value.conn == clientSocket.value.conn
            && output.value.conn == clientSocket.value.conn
            && clientSocket.value.conn < socketsOpened
            && clientSocket.value.soTimeout >= 0)
      && (input.Some? ==> input.value.pos <= |input.value.data| && input.value.conn < socketsOpened)
      && (output.Some? ==> output.value.conn < socketsOpened)
    }

    /** True when a socket is open. */
    predicate Connected()
      reads this
    {
      clientSocket.Some?
    }

    constructor ()
      ensures Valid()
      ensures clientSocket == None && input == None && output == None && socketsOpened == 0
    {
      clientSocket, input, output, socketsOpened := None, None, None, 0;
    }

    /** `close`: drops the socket; `closeFails` says whether `Socket.close` throws. */
    method Close(closeFails: bool) returns (r: CloseOutcome)
      requires Valid()
      modifies this
      ensures Valid()
      ensures old(clientSocket).None? ==> r == NotOpen && clientSocket == None
      ensures old(clientSocket).Some? ==> r == (if closeFails then CloseFailed else Closed)
      ensures clientSocket == None
      ensures input == old(input) && output == old(output) && socketsOpened == old(socketsOpened)
    {
      if clientSocket == None {
        r := NotOpen;
      } else {
        r := if closeFails then CloseFailed else Closed;
        clientSocket := None;
      }
    }

    /**
     * `connect host port`: closes an open socket first (`replaced`), then parses
     * the port and asks the network. Only success installs a new socket and
     * streams, with the default read timeout.
     */
    method Connect(host: JString, portText: JString, closeFails: bool, net: Network)
      returns (replaced: Option<CloseOutcome>, r: ConnectOutcome)
      requires Valid()
      modifies this
      ensures Valid()
      ensures replaced.Some? <==> old(clientSocket).Some?
      ensures replaced.Some? ==> replaced.value == (if closeFails then CloseFailed else Closed)
      ensures r == BadPortLiteral <==> ParseInt(portText).None?
      ensures r == PortOutOfRange <==> ParseInt(portText).Some? && !(0 <= ParseInt(portText).value <= 0xFFFF)
      ensures r == ConnectFailed <==>
        ParseInt(portText).Some? && 0 <= ParseInt(portText).value <= 0xFFFF && net == Unreachable
      ensures r == Established ==>
        && clientSocket == Some(Socket(Peer(host, ParseInt(portText).value), DefaultReadTimeout, old(socketsOpened)))
        && input == Some(InStream(old(socketsOpened), net.incoming, 0))
        && output == Some(OutStream(old(socketsOpened), []))
        && socketsOpened == old(socketsOpened) + 1
      ensures r != Established ==>
        clientSocket == None && input == old(input) && output == old(output) && socketsOpened == old(socketsOpened)
    {
      replaced := None;
      if clientSocket != None {
        var c := Close(closeFails);
        replaced := Some(c);
      }
      var port := ParseInt(portText);
      if port == None {
        r := BadPortLiteral;
      } else if !(0 <= port.value <= 0xFFFF) {
        r := PortOutOfRange;
      } else if net == Unreachable {
        r := ConnectFailed;
      } else {
        clientSocket := Some(Socket(Peer(host, port.value), DefaultReadTimeout, socketsOpened));
        output := Some(OutStream(socketsOpened, []));
        input := Some(InStream(socketsOpened, net.incoming, 0));
        socketsOpened := socketsOpened + 1;
        r := Established;
      }
    }

    /** `timeout` with no argument: the read timeout of the open socket, or None for "Connect to a socket first." */
    method Timeout() returns (t: Option<int>)
      requires Valid()
      ensures t.Some? <==> Connected()
      ensures t.Some? ==> t.value == clientSocket.value.soTimeout && t.value >= 0
    {
      if clientSocket == None {
        t := None;
      } else {
        t := Some(clientSocket.value.soTimeout);
      }
    }

    /** `timeout value`: the literal is parsed before the socket is looked at. */
    method SetTimeout(text: JString) returns (r: TimeoutOutcome)
      requires Valid()
      modifies this
      ensures Valid()
      ensures r == NotAnInteger <==> ParseInt(text).None?
      ensures r == NoSocket <==> ParseInt(text).Some? && old(clientSocket).None?
      ensures r == NegativeTimeout <==> ParseInt(text).Some? && old(clientSocket).Some? && ParseInt(text).value < 0
      ensures r == TimeoutSet ==>
        clientSocket == Some(old(clientSocket).value.(soTimeout := ParseInt(text).value))
      ensures r != TimeoutSet ==> clientSocket == old(clientSocket)
      ensures input == old(input) && output == old(output) && socketsOpened == old(socketsOpened)
    {
      var v := ParseInt(text);
      if v == None {
        r := NotAnInteger;
      } else if clientSocket == None {
        r := NoSocket;
      } else if v.value < 0 {
        r := NegativeTimeout;
      } else {
        clientSocket := Some(clientSocket.value.(soTimeout := v.value));
        r := TimeoutSet;
      }
    }

    /** The `for` loop of `send bytestring`: each code unit's low byte, then the sentinel. */
    method WriteByteString(data: JString)
      requires Valid() && Connected()
      modifies this
      ensures Valid()
      ensures output == Some(old(output).value.(written := old(output).value.written + EncodeByteString(data)))
      ensures clientSocket == old(clientSocket) && input == old(input) && socketsOpened == old(socketsOpened)
    {
      ghost var start := output.value.written;
      assert LowBytes(data[..0]) == [];
      assert start + [] == start;
      for i := 0 to |data|
        invariant Valid() && Connected()
        invariant clientSocket == old(clientSocket) && input == old(input) && socketsOpened == old(socketsOpened)
        invariant output == Some(old(output).value.(written := start + LowBytes(data[..i])))
      {
        assert LowBytes(data[..i + 1]) == LowBytes(data[..i]) + [LowByte(data[i])];
        output := Some(output.value.(written := output.value.written + [LowByte(data[i])]));
        assert start + LowBytes(data[..i]) + [LowByte(data[i])] == start + LowBytes(data[..i + 1]);
      }
      assert data[..|data|] == data;
      output := Some(output.value.(written := output.value.written + [0]));
      assert start + LowBytes(data) + [0] == start + EncodeByteString(data);
    }

    /**
     * `send type data`: an unknown tag, a bad literal or a wrong-length char is
     * reported whatever the connection; otherwise a stream that was never opened
     * gives a null-pointer report and a stale one an I/O error (a too-long
     * `writeUTF` reports its length instead). Bytes are written only on `Sent`.
     */
    method Send(typeName: JString, data: JString) returns (r: SendOutcome)
      requires Valid()
      modifies this
      ensures Valid()
      ensures clientSocket == old(clientSocket) && input == old(input) && socketsOpened == old(socketsOpened)
      ensures ParseTag(typeName).None? ==> r == UnrecognizedType
      ensures ParseTag(typeName).Some? ==>
        var e := Encode(ParseTag(typeName).value, data);
        r == (if e.Rejected? && !e.why.TooLong? then Refused(e.why)
              else if old(output).None? then NullStream
              else if e.Rejected? then Refused(e.why)
              else if old(clientSocket).None? then StreamClosed
              else Sent)
      ensures r == Sent ==>
        output == Some(old(output).value.(written := old(output).value.written + Encode(ParseTag(typeName).value, data).bytes))
      ensures r != Sent ==> output == old(output)
    {
      var tag := ParseTag(typeName);
      if tag == None {
        return UnrecognizedType;
      }
      var e := Encode(tag.value, data);
      if e.Rejected? && !e.why.TooLong? {
        r := Refused(e.why);
      } else if output == None {
        r := NullStream;
      } else if e.Rejected? {
        r := Refused(e.why);
      } else if clientSocket == None {
        r := StreamClosed;
      } else if tag.value == ByteStringTag {
        WriteByteString(data);
        r := Sent;
      } else {
        output := Some(output.value.(written := output.value.written + e.bytes));
        r := Sent;
      }
    }

    /** The remaining bytes of the current input stream. */
    function Available(): seq<Byte>
      reads this
      requires Valid() && input.Some?
    {
      input.value.data[input.value.pos..]
    }

    /** The `while (true)` loop of `read bytestring`: one byte at a time until 0x00. */
    method ReadByteString() returns (r: ReadStep)
      requires Valid() && Connected()
      modifies this
      ensures Valid()
      ensures r == ScanByteString(old(Available()))
      ensures clientSocket == old(clientSocket) && output == old(output) && socketsOpened == old(socketsOpened)
      ensures input.Some? && input.value.conn == old(input).value.conn && input.value.data == old(input).value.data
      ensures r.Got? ==> input.value.pos == old(input).value.pos + r.used
      ensures r.Exhausted? ==> input.value.pos == |input.value.data|
    {
      var s := input.value;
      var pos := s.pos;
      var chars: JString := [];
      while true
        invariant s.pos <= pos <= |s.data|
        invariant 0 !in s.data[s.pos..pos]
        invariant chars == SignExtendAll(s.data[s.pos..pos])
        decreases |s.data| - pos
      {
        if pos == |s.data| {
          input := Some(s.(pos := pos));
          assert s.data[s.pos..pos] == old(Available());
          return Exhausted(chars);
        }
        var next := s.data[pos];
        assert s.data[s.pos..pos + 1] == s.data[s.pos..pos] + [next];
        pos := pos + 1;
        if next == 0 {
          break;
        }
        chars := chars + [SignExtend(next)];
      }
      input := Some(s.(pos := pos));
      ghost var avail := old(Available());
      assert avail[pos - 1 - s.pos] == 0;
      assert avail[..pos - 1 - s.pos] == s.data[s.pos..pos - 1];
      assert FirstZero(avail) == pos - 1 - s.pos;
      r := Got(Text(chars), pos - s.pos);
    }

    /**
     * `read type`: an unknown tag is reported whatever the connection; otherwise
     * a stream never opened gives a null-pointer report, a stale one an I/O
     * error, and an open one yields what `ReadFrom` takes from the available bytes.
     */
    method Read(typeName: JString) returns (r: ReadOutcome)
      requires Valid()
      modifies this
      ensures Valid()
      ensures clientSocket == old(clientSocket) && output == old(output) && socketsOpened == old(socketsOpened)
      ensures ParseTag(typeName).None? ==> r == ReadUnrecognizedType && input == old(input)
      ensures ParseTag(typeName).Some? && old(input).None? ==> r == ReadNullStream && input == old(input)
      ensures ParseTag(typeName).Some? && old(input).Some? && old(clientSocket).None? ==>
        r == ReadStreamClosed && input == old(input)
      ensures ParseTag(typeName).Some? && old(clientSocket).Some? ==>
        var step := ReadFrom(ParseTag(typeName).value, old(Available()));
        && input.Some?
        && input.value == old(input).value.(pos := input.value.pos)
        && match step
           case Got(v, n) => r == ReadValue(v) && input.value.pos == old(input).value.pos + n
           case Exhausted(shown) => r == ReadExhausted(shown) && input.value.pos == |input.value.data|
           case Malformed(n) => r == ReadMalformed && input.value.pos == old(input).value.pos + n
           case NotModelledRead => r == ReadNotModelled && input == old(input)
    {
      var tag := ParseTag(typeName);
      if tag == None {
        return ReadUnrecognizedType;
      }
      if input == None {
        return ReadNullStream;
      }
      if clientSocket == None {
        return ReadStreamClosed;
      }
      if tag.value == ByteStringTag {
        var step := ReadByteString();
        r := if step.Got? then ReadValue(step.value) else ReadExhausted(step.shown);
        return;
      }
      var s := input.value;
      var step := ReadFrom(tag.value, s.data[s.pos..]);
      match step {
        case Got(v, n) =>
          input := Some(s.(pos := s.pos + n));
          r := ReadValue(v);
        case Exhausted(shown) =>
          input := Some(s.(pos := |s.data|));
          r := ReadExhausted(shown);
        case Malformed(n) =>
          input := Some(s.(pos := s.pos + n));
          r := ReadMalformed;
        case NotModelledRead =>
          r := ReadNotModelled;
      }
    }
  }

  /**
   * Two connects in a row: the second closes the first socket before opening
   * its own; a timeout set to 300 then reads back as 300.
   */
  method ReconnectScenario(host1: JString, host2: JString, incoming: seq<Byte>)
  {
    var c := new Client();
    ParseIntFormat(80);
    ParseIntFormat(300);
    var replaced, r := c.Connect(host1, FormatDecimal(80), false, Accepts(incoming));
    assert replaced == None && r == Established;
    replaced, r := c.Connect(host2, FormatDecimal(80), false, Accepts([]));
    assert replaced == Some(Closed) && r == Established;
    assert c.clientSocket.value.peer == Peer(host2, 80);
    var t := c.SetTimeout(FormatDecimal(300));
    assert t == TimeoutSet;
    var now := c.Timeout();
    assert now == Some(300);
  }

  /**
   * On an open client, `send int 42` writes 00 00 00 2A; after `close` a second
   * close is refused and a read meets the stale stream.
   */
  method SendAfterCloseScenario(c: Client, intTag: JString)
    requires c.Valid() && c.Connected() && c.output.value.written == []
    requires MatchesKeyword(intTag, Keyword(IntTag))
    modifies c
  {
    SendInt42();
    var sent := c.Send(intTag, Lit("42"));
    assert sent == Sent && c.output.value.written == [0x00, 0x00, 0x00, 0x2A];
    var closed := c.Close(false);
    assert closed == Closed;
    closed := c.Close(false);
    assert closed == NotOpen;
    var got := c.Read(intTag);
    assert got == ReadStreamClosed;
  }
}
