# GenericTCPClient — a Dafny model of the client core

GenericTCPClient is an interactive console tool for poking at a raw TCP
connection: the user types `connect <host> <port>`, `send <type> <value>`,
`read <type>`, `timeout [value]`, `close`, and the client writes or reads one
primitive value in a fixed binary layout. This project models the core of
`Client.java`:

- **Interpreter** (`interpreter.dfy`): `processInput` splits a line at its
  first space and splits the rest with Java's `split(" ")`. `processCommand`
  matches the command name ignoring case, checks the argument count
  (`arrayIsEmpty`, `hasArguments`, `expectArguments`, `wrongNumberArguments`)
  and returns the call it makes as an `Action`.
- **Codec** (`codec.dfy`, using `literals.dfy` and `javatext.dfy`): for each
  type tag, the bytes `send` writes (`Encode`) and the value `read` takes from
  the available input (`ReadFrom`), each with its round-trip lemma.
- **Session** (`session.dfy`): the class `Client` holds the fields
  `clientSocket`, `input` and `output`. Its methods are `Connect`, `Close`,
  `Timeout`, `SetTimeout`, `Send` and `Read`. The source's byte-string loops
  are the methods `WriteByteString` and `ReadByteString`.

Java text is a sequence of UTF-16 code units (`JString`), and bytes are
integers 0..255. A socket is abstracted to its peer, its read timeout and an
identity. The network is a parameter: `Network` says whether the peer accepts
and which bytes it will send, and `closeFails` says whether `Socket.close`
throws. An output stream records what was written to it. An input stream
holds the peer's bytes and a read position that only moves forward.

The model keeps these behaviours of the code as written:

- `help` accepts any arguments.
- `boolean` never fails: anything other than "true" sends 0x00.
- `bytestring` does not reject a NUL.
- `utfstring` is Java's modified UTF-8: U+0000 takes two bytes, and the decoder is `readUTF`'s.
- A negative timeout, a port outside 0..65535, and `send` without a space after its type each throw an exception that nothing catches.
- `close` leaves `input` and `output` pointing at the closed socket's streams.
- A bad literal is reported before a missing connection, because Java evaluates `Integer.valueOf(data)` before it dereferences `output` or `clientSocket`.

## Model

| member | source | states |
|---|---|---|
| JavaText.MatchesKeywordSpellings | Client.java:75-111 | `equalsIgnoreCase` against a lower-case keyword accepts, position by position, the keyword letter, its upper case, or the four non-ASCII units Java folds to `i`, `s`, `k` |
| JavaText.IndexOf | Client.java:302 | `indexOf(' ')` is -1 exactly when there is no space; otherwise it is a position holding a space with no space before it |
| JavaText.Trim | Client.java:311 | `trim` removes the leading and then the trailing units at or below U+0020; what is left starts and ends above U+0020 |
| JavaText.JavaSplit | Client.java:316 | `split(" ")` gives fields without spaces; it gives `[""]` exactly for the empty text; its last field is non-empty |
| JavaText.JoinJavaSplit | Client.java:316 | joining the fields of `split(" ")` with single spaces gives the text without its trailing spaces |
| JavaText.JavaSplitJoin | Client.java:316 | `split(" ")` of non-empty, space-free words joined by single spaces gives exactly those words |
| JavaText.JoinSplitAll | Client.java:316 | cutting at every space and joining again is the identity |
| JavaText.SplitAllJoin | Client.java:316 | cutting space-free fields joined by spaces gives the fields back |
| Literals.ParseDecimal | Client.java:60 | `valueOf` accepts exactly an optional sign followed by at least one digit, with the signed value of the digits |
| Literals.ParseInRange | Client.java:80-84 | `Integer`/`Long`/`Byte.valueOf` succeed exactly when the literal parses and its value lies in the type's range |
| Literals.ParseFormatDecimal | Client.java:80 | every integer's decimal spelling parses back to that integer |
| Literals.ParseIntFormat | Client.java:189 | every 32-bit value written in decimal is accepted by `Integer.valueOf` |
| Literals.LoneSignRejected | Client.java:60 | a lone `-` or `+` is a number format error |
| Codec.ParseTag | Client.java:75-111 | the type-name chain selects tag t exactly when the name equals t's keyword ignoring case; no tag otherwise |
| Codec.UnsignedBigEndian | Client.java:127-132 | the big-endian bytes of n read back as n |
| Codec.BigEndianUnsigned | Client.java:79-84 | every byte sequence is the big-endian encoding of the number it spells |
| Codec.SignedTwosComplement | Client.java:79-84 | an integer in range written in two's complement reads back as itself |
| Codec.TwosComplementSigned | Client.java:127-132 | every byte pattern read as a signed integer is written back as the same bytes |
| Codec.SignExtend | Client.java:148 | `(char)` of a signed byte keeps the byte as its low byte, with high byte 0x00 below 0x80 and 0xFF from 0x80 up (so 0x80..0xFF become 0xFF80..0xFFFF) |
| Codec.EncodeByteString | Client.java:85-89 | the byte string is one low byte per unit followed by the 0x00 sentinel, `|data|+1` bytes |
| Codec.FirstZero | Client.java:135-139 | the byte-string scan stops at the first 0x00, with no 0x00 before it |
| Codec.EncodeUnit | Client.java:76 | modified UTF-8 per unit: 0x0001-0x007F one byte, 0x0000 and 0x0080-0x07FF two, the rest three, with the lead and continuation bit patterns |
| Codec.DecodeModifiedUtf8 | Client.java:124 | `readUTF`'s decoding of N bytes yields between N/3 and N units, returns bytes below 0x80 unchanged as units, and inverts `writeUTF` (`DecodeModifiedUtf8RoundTrip`) |
| Codec.EncodeUtf | Client.java:76 | `writeUTF` writes nothing when the encoding exceeds 65535 bytes, else a 2-byte big-endian length N followed by the N bytes |
| Codec.DecodeModifiedUtf8RoundTrip | Client.java:123-124 | `readUTF`'s decoding returns exactly the text `writeUTF` encoded |
| Codec.ParseBoolean | Client.java:93 | `Boolean.valueOf` never fails; true needs four units and holds for "true", "TRUE" and "True"; "false" gives false (all spellings: `BooleanSendThenRead`) |
| Codec.Encode | Client.java:73-111 | per tag: `float`/`double` are not modelled; `boolean` and `bytestring` never refuse; accepted integers take 4/8/1 bytes, boolean and char8 one, char16 two, a byte string `|data|+1` ending in 0x00, a UTF string 2 + N ≤ 65537; the exact bytes are stated by the send-then-read lemmas |
| Codec.ReadFrom | Client.java:121-151 | per tag: only `float`/`double` are not modelled and only `utfstring` can be malformed; the integer, boolean and char tags succeed exactly when their width is available and consume exactly that width; `bytestring` succeeds exactly when a 0x00 is available |
| Codec.ReadFixed | Client.java:127-132 | `readInt`/`readLong`/`readByte` succeed exactly when enough bytes are available and consume exactly the width |
| Codec.ReadUtf | Client.java:123-124 | `readUTF` fails for lack of input exactly when fewer than 2 + N bytes are available, N being the 2-byte length; otherwise it consumes 2 + N bytes and is malformed exactly when `DecodeModifiedUtf8` rejects the N bytes, else yields their decoding |
| Codec.ScanByteString | Client.java:133-139 | `read bytestring` succeeds exactly when a 0x00 is available, consumes through it and yields the sign-extended bytes before it; without one it shows every byte |
| Codec.IntegerSendThenRead | Client.java:79-84 | `int`/`long`/`byte` write exactly 4/8/1 bytes precisely when the literal parses in range, write nothing on a number format error, and read back as the literal's value |
| Codec.IntegerReadThenSend | Client.java:127-132 | any 4/8/1 bytes read as an integer are sent back as the same bytes |
| Codec.SendInt42 | Client.java:79-80 | `send int 42` writes 00 00 00 2A |
| Codec.ByteStringSendThenRead | Client.java:85-89 | reading back a byte string consumes exactly `|data|+1` bytes and yields each unit's low byte sign-extended, when no unit has a zero low byte |
| Codec.ByteStringAsciiRoundTrip | Client.java:133-139 | a byte string of units 0x01..0x7F reads back unchanged |
| Codec.ByteStringEmbeddedNul | Client.java:85-89 | a unit with a zero low byte is sent without complaint, and reading back stops at it |
| Codec.BooleanSendThenRead | Client.java:92-93 | `boolean` never fails, sends 0x01 exactly for "true" ignoring case, and any nonzero byte reads as true |
| Codec.CharLengthChecked | Client.java:94-107 | `char16`/`char8` refuse, writing nothing, exactly when the data is not one unit |
| Codec.Char16SendThenRead | Client.java:94-100 | `char16` writes the unit as 2 big-endian bytes and reads it back unchanged |
| Codec.Char8SendThenRead | Client.java:101-107 | `char8` writes the low byte; reading sign-extends it, so units up to 0x7F come back unchanged |
| Codec.UtfSendThenRead | Client.java:75-76 | `utfstring` is refused exactly when its encoding exceeds 65535 bytes; otherwise reading back yields the same text after 2+N bytes |
| Codec.UtfByteCountBounds | Client.java:76 | the encoded length lies between `|s|` and `3|s|`, and equals `|s|` for units 0x01..0x7F |
| Codec.ModifiedUtf8Length | Client.java:76 | the encoding's length is the sum of the per-unit byte counts that `writeUTF` adds up first |
| Sessions.Client.constructor | Client.java:6-8 | a client starts with no socket and no streams |
| Sessions.Client.Close | Client.java:41-53 | without a socket it reports the error and changes nothing; with one it drops the socket even when closing throws, and leaves `input`/`output` as they were |
| Sessions.Client.Connect | Client.java:54-72 | an open socket is closed first; a bad port literal, a port outside 0..65535 or an unreachable peer leave the client disconnected with its old streams; success opens socket and streams with read timeout 200 |
| Sessions.Client.Timeout | Client.java:178-186 | reports the open socket's read timeout, or that there is no socket |
| Sessions.Client.SetTimeout | Client.java:187-198 | a bad literal is reported first, then a missing socket, then a negative value; otherwise exactly the socket's timeout changes |
| Sessions.Client.WriteByteString | Client.java:85-89 | the loop appends each unit's low byte and then 0x00 to the output stream |
| Sessions.Client.Send | Client.java:73-120 | an unknown tag, a bad literal or a wrong-length char writes nothing whatever the connection; a missing stream is a null-pointer report; a too-long UTF string or a stale stream an I/O error; bytes are appended only on success, and exactly `Encode`'s bytes |
| Sessions.Client.ReadByteString | Client.java:133-140 | the loop consumes through the first 0x00 and yields the bytes before it sign-extended; without a 0x00 it consumes everything and reports what it showed |
| Sessions.Client.Read | Client.java:121-157 | an unknown tag, a missing stream or a stale stream consume nothing; on an open stream the result and the new position are those of `ReadFrom` on the available bytes |
| Interpreter.ArrayIsEmpty | Client.java:201-214 | true exactly for a null or zero-length array |
| Interpreter.HasArguments | Client.java:238-250 | holds exactly when the argument count equals the number asked for |
| Interpreter.WrongNumberArguments | Client.java:216-226 | "Too many" exactly when have > expected, "Too few" exactly when have < expected, with both counts |
| Interpreter.ExpectArguments | Client.java:228-236 | accepts exactly the right count; otherwise reports the too-many/too-few diagnostic, never the internal error |
| Interpreter.ProcessCommand | Client.java:252-297 | dispatching a command never amounts to doing nothing; the cases are stated by the lemmas below |
| Interpreter.ProcessInput | Client.java:299-319 | a line dispatches nothing exactly when it is empty; the other cases are stated by `LineWithoutSpace` and `LineWithSpace` |
| Interpreter.EmptyLineOnly | Client.java:302-308 | a line does nothing exactly when it is empty |
| Interpreter.LineWithoutSpace | Client.java:303-311 | a non-empty line without a space is dispatched as its trimmed self with no arguments |
| Interpreter.LineWithSpace | Client.java:313-317 | otherwise the command is the text before the first space, the raw arguments everything after it, and the arguments their `split(" ")` |
| Interpreter.LineOfWords | Client.java:313-317 | a command followed by single-space-separated words receives exactly those words |
| Interpreter.TrailingSpaceIsOneArgument | Client.java:315-316 | a command followed by a lone space gets one empty argument |
| Interpreter.CloseWithTrailingSpace | Client.java:256-259 | so `close ` is refused with "Too many", have 1, expected 0 |
| Interpreter.HelpTakesAnyArguments | Client.java:254-255 | `help` is dispatched whatever arguments follow |
| Interpreter.FixedArityCommands | Client.java:256-290 | `close`, `status`, `ping` (0), `connect` (2) and `read` (1) run exactly with that count, and otherwise report the count diagnostic |
| Interpreter.TimeoutDispatch | Client.java:273-282 | `timeout` reads with 0 arguments, sets with 1, and only complains otherwise |
| Interpreter.SendKeepsPayload | Client.java:264-268 | `send` takes its type up to the first space and the data after it verbatim, later spaces included |
| Interpreter.SendLine | Client.java:264-268 | a whole line `send <type> <data>` delivers the data untouched |
| Interpreter.SendWithoutData | Client.java:264-266 | `send` with no space in its raw arguments ends in the uncaught index exception |
| Interpreter.UnknownNames | Client.java:291-293 | a name matching no command is reported as unknown and nothing runs |

## Left out

- `float` and `double`, for `send` and `read`: IEEE-754 encoding and decimal float parsing are floating-point work. The tags are recognised, and the model answers "not modelled".
- Real socket I/O is not modelled: name resolution, blocking reads, `SO_TIMEOUT` expiry and write failures on an open stream. A read that runs short is one outcome, whether the cause is end of stream or a timeout, and it consumes every available byte.
- Sessions.Client.Close: when `Socket.close` throws, the model still treats that socket's streams as closed.
- `status` and `ping` (`isReachable`), the `help` text, the `Scanner` loop in the constructor, and all message text. The model only decides which diagnostic is chosen.
- Process termination is not modelled. The uncaught exceptions become the outcomes `SendMissingData`, `PortOutOfRange` and `NegativeTimeout`, but nothing models the program stopping.
- Calling the `Commands` method that an `Action` names is a direct one-to-one call, and the model does not write it out. The effect of each call is specified by the `Client` method of the same name.
- Literals.ParseDecimal: accepts ASCII digits only. `Integer.valueOf` also takes other Unicode decimal digits.
- JavaText.Fold: covers ASCII and the four non-ASCII code units that fold onto ASCII letters. That is exact for every comparison the client makes, but it is not Java's full case table.
