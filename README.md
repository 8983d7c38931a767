# Launcher server request engine, modelled in Dafny

This project models the request and response engine of the launcher server
(`TcpServer` in the bare-keyword protocol version). A game client connects
over TCP and sends one command per line. The server answers the first line
of each completed read with exactly one reply. The commands are `GET_NOTICE` (the operator's
announcement text), `GET_SERVER_INFO` (the advertised address, port and
name) and `GET_FILE` (not implemented). Anything else gets an error reply.
Every reply starts with the UTF-8 byte-order mark `EF BB BF` and ends with
the marker `<END_OF_MESSAGE>`.

The model works on byte sequences (`Bytes.Bytes`), because the server keeps
every text as a `std::string` of raw bytes. It has these modules:

- `Bytes`: the byte type, ASCII literals, and `std::string::find`.
- `Protocol`: the command keywords, the `MessageType` codes, and the packed
  `PacketHeader`.
- `NoticeEscape`: the loop that rewrites each line feed of the notice as
  backslash, `n`. It is proved against a recursive reference definition.
- `Decimal`: `std::to_string(int)` for the port.
- `Lines`: taking a command from a line (`std::getline`, then removing one
  trailing carriage return).
- `Notice`: loading the notice from the file's bytes, less a leading
  byte-order mark.
- `Replies`: which reply a command gets (`Dispatch`) and its bytes
  (`Encode`). A client-side reader (`Decode`) is included as the partner of
  `Encode`.
- `Server`: the `TcpServer` class. It holds the running flag, the notice,
  the advertised configuration, and a trace `io` of the network operations
  the server starts: the asynchronous accept, read and reply write, and the
  synchronous closing of the listener. Its invariant `Valid()` says that every reply written so far is
  framed by the byte-order mark and the end marker.

## Model

| member | source | states |
|---|---|---|
| `Bytes.ReplaceByte` | Troice_Dazzling_Window/WindowManager.cpp:102 | `replace(pos, 1, "\\n")`: the result's length is the input's, less the one byte replaced, plus the replacement's. Only the length is in the contract; the body gives the contents (the bytes before `pos`, the replacement, then the bytes after `pos`) |
| `Bytes.FindByte` | Troice_Dazzling_Window/WindowManager.cpp:101 | `find('\n', pos)` gives the first index at or after `pos` that holds the byte, or none when no later index holds it |
| `Protocol.Code` | Troice_Dazzling_Window/Protocol.h:9-16 | the `uint16_t` value of each `MessageType` enumerator: 0 to 4 in declaration order and 999 for `ERROR_RESPONSE`. The contract states that 999 belongs to `ERROR_RESPONSE` alone and that every other value is at most 4. The body gives each value, and `FromCode` inverts it |
| `Protocol.FromCode` | Troice_Dazzling_Window/Protocol.h:9-16 | maps a `uint16_t` to the enumerator whose code it is, and to none when no enumerator has that code (0, 1, 2, 3, 4, 999) |
| `Protocol.CodesDistinct` | Troice_Dazzling_Window/Protocol.h:9-16 | distinct message types have distinct codes |
| `Protocol.Pack` | Troice_Dazzling_Window/Protocol.h:6-27 | a packed header is exactly `PACKET_HEADER_SIZE` (8) bytes: the type at offset 0, the body length at 2, the version at 6, with no padding |
| `Protocol.Unpack` | Troice_Dazzling_Window/Protocol.h:19-27 | a header can be read from a byte sequence exactly when it has `PACKET_HEADER_SIZE` bytes |
| `Protocol.UnpackPack` | Troice_Dazzling_Window/Protocol.h:19-27 | reading back the packed bytes of any header gives that header |
| `Protocol.PackUnpack` | Troice_Dazzling_Window/Protocol.h:19-27 | every 8 bytes are the packed form of the header read from them, so with `UnpackPack` the layout is a bijection between headers and 8-byte sequences |
| `Protocol.DefaultHeader` | Troice_Dazzling_Window/Protocol.h:25 | the default `PacketHeader()` has message type `UNKNOWN` (code 0), body length 0 and version 1 |
| `Protocol.DefaultHeaderBytes` | Troice_Dazzling_Window/Protocol.h:25 | the default header has type 0, body length 0 and version 1, packed as `00 00 00 00 00 00 01 00` |
| `Protocol.CommandsWellFormed` | Troice_Dazzling_Window/Protocol.h:30-35 | the four command strings are pairwise distinct and non-empty, hold no line feed and no carriage return, and do not end in a space |
| `NoticeEscape.Escape` | Troice_Dazzling_Window/WindowManager.cpp:100-104 | the escaped text is longer than the input by the number of line feeds in it |
| `NoticeEscape.EscapeHasNoLineFeed` | Troice_Dazzling_Window/WindowManager.cpp:100-104 | the escaped notice holds no line feed |
| `NoticeEscape.EscapeIdentity` | Troice_Dazzling_Window/WindowManager.cpp:100-104 | escaping leaves a text unchanged if and only if it holds no line feed |
| `NoticeEscape.UnescapeEscape` | Troice_Dazzling_Window/WindowManager.cpp:100-104 | for a notice without a backslash, turning each backslash-`n` back into a line feed restores the notice |
| `NoticeEscape.EscapeNotInjective` | Troice_Dazzling_Window/WindowManager.cpp:100-104 | two different notices can be sent as the same bytes (a line feed and a literal backslash-`n`), so the backslash restriction above is needed |
| `NoticeEscape.EscapeNewlines` | Troice_Dazzling_Window/WindowManager.cpp:100-104 | the in-place loop (find the next line feed from `pos`, replace it by two bytes, step `pos` past them) ends, and its result is the input with every line feed replaced by backslash-`n` |
| `Decimal.ToString` | Troice_Dazzling_Window/WindowManager.cpp:124 | the decimal text of the port is non-empty, starts with `-` exactly for a negative port, holds no pipe, and its digits after the sign have no leading zero (zero itself is `0`) |
| `Decimal.ParseToString` | Troice_Dazzling_Window/WindowManager.cpp:124 | reading the decimal text back gives the port, for every `int` |
| `Lines.GetLine` | Troice_Dazzling_Window/WindowManager.cpp:72-74 | the line is the longest prefix of the received bytes before the first line feed |
| `Lines.CommandOf` | Troice_Dazzling_Window/WindowManager.cpp:76-79 | the command is the line with one trailing carriage return removed when there is one, and the line itself otherwise, so an empty line stays empty |
| `Lines.FramedCommandRecovered` | Troice_Dazzling_Window/WindowManager.cpp:72-79 | a command without line feed or trailing carriage return, sent with CR LF or with LF alone, is extracted intact whatever bytes follow in the buffer |
| `Lines.OneCarriageReturnRemoved` | Troice_Dazzling_Window/WindowManager.cpp:77-78 | only one carriage return is removed: a line ending in two keeps one |
| `Lines.KeywordsRecovered` | Troice_Dazzling_Window/WindowManager.cpp:72-82 | each of the four command strings, sent as a line, reaches the dispatcher unchanged |
| `Notice.StripBom` | Troice_Dazzling_Window/WindowManager.cpp:160-173 | content that begins with `EF BB BF` loses exactly those three bytes, and other content is kept unchanged |
| `Notice.LoadedNotice` | Troice_Dazzling_Window/WindowManager.cpp:158-173 | a file shorter than 3 bytes gives an empty notice (the failed 3-byte read makes the seek and the rest of the read do nothing); a longer file that begins with the mark gives the bytes after it, and any other file gives its bytes unchanged |
| `Notice.MarkedFileLoaded` | Troice_Dazzling_Window/WindowManager.cpp:158-173 | a text saved with a byte-order mark is loaded as that text |
| `Notice.MarkStrippedOnce` | Troice_Dazzling_Window/WindowManager.cpp:158-173 | only one mark is removed: a doubly marked file keeps its second mark |
| `Replies.Dispatch` | Troice_Dazzling_Window/WindowManager.cpp:93-142 | the reply is a notice reply exactly for `GET_NOTICE`, a server-information reply exactly for `GET_SERVER_INFO`, the file reply exactly for `GET_FILE`, and the error reply for everything else. The notice reply carries the notice; the server-information reply carries only the address, port and name, not the notice |
| `Replies.Encode` | Troice_Dazzling_Window/WindowManager.cpp:107-140 | every reply starts with `EF BB BF` and ends with `<END_OF_MESSAGE>` |
| `Replies.EncodeIsFramedFields` | Troice_Dazzling_Window/WindowManager.cpp:107-140 | each reply is the mark, then its keyword and fields joined by pipes (`NOTICE`, escaped notice; `SERVER_INFO`, address, decimal port, name; `FILE`, 未实现; `ERROR`, `Unknown command`), then the end marker |
| `Replies.DecodeEncode` | Troice_Dazzling_Window/WindowManager.cpp:107-140 | a client that checks the mark and the end marker and cuts the text at each pipe gets back the reply's fields, provided the notice, address and name hold no pipe |
| `Replies.NoticeReadBack` | Troice_Dazzling_Window/WindowManager.cpp:100-107 | a client that decodes a notice reply and turns each backslash-`n` of its second field back into a line feed gets the notice, when the notice holds neither a pipe nor a backslash |
| `Replies.ServerInfoPortRecovered` | Troice_Dazzling_Window/WindowManager.cpp:122-126 | the server-information reply has four fields, and its third one reads back as the server's port |
| `Replies.EndMarkerOnlyAtEnd` | Troice_Dazzling_Window/WindowManager.cpp:107-140 | when the joined fields hold no end marker, the marker occurs in the reply only at its end, so a reader that stops at the first marker gets exactly this reply |
| `Replies.FixedRepliesHoldNoMarker` | Troice_Dazzling_Window/WindowManager.cpp:136-141 | the file reply and the error reply satisfy that condition |
| `Replies.NearMissesAreUnknown` | Troice_Dazzling_Window/WindowManager.cpp:95-141 | the comparison is exact: `INIT_SERVER_INFO`, and any command string followed by a space or by a carriage return, get the error reply |
| `Server.TcpServer.Response` | Troice_Dazzling_Window/WindowManager.cpp:93-142 | the reply to any command in the server's current state is framed by the mark and the end marker |
| `Server.TcpServer.constructor` | Troice_Dazzling_Window/WindowManager.cpp:27-32 | a new server is not running, has started no operation, and advertises an empty address and name. Its notice is empty when the notice file cannot be opened, and is what `LoadedNotice` gives for the file's bytes otherwise (empty for a file shorter than 3 bytes, the bytes less a leading mark for a file of at least 3 bytes) |
| `Server.TcpServer.LoadNotice` | Troice_Dazzling_Window/WindowManager.cpp:156-192 | a file that cannot be opened leaves the notice as it was; otherwise the notice becomes `LoadedNotice` of the file's bytes: empty for a file shorter than 3 bytes, the bytes less a leading mark for a file of at least 3 bytes |
| `Server.TcpServer.Start` | Troice_Dazzling_Window/WindowManager.cpp:34-37 | sets the running flag and starts one accept |
| `Server.TcpServer.Stop` | Troice_Dazzling_Window/WindowManager.cpp:39-42 | clears the running flag and closes the listener |
| `Server.TcpServer.IsRunning` | Troice_Dazzling_Window/WindowManager.h:22 | returns the current running flag and changes nothing |
| `Server.TcpServer.SetServerConfig` | Troice_Dazzling_Window/WindowManager.h:26-30 | stores the address, port and name, and changes nothing else (neither the running flag nor the notice) |
| `Server.ReconfigureTwice` | Troice_Dazzling_Window/WindowManager.h:26-30 | two configuration calls leave the second call's values, as a single call with them would: last write wins |
| `Server.TcpServer.StartAccept` | Troice_Dazzling_Window/WindowManager.cpp:44-49 | starts one accept |
| `Server.TcpServer.HandleAccept` | Troice_Dazzling_Window/WindowManager.cpp:51-64 | a read of the new connection and the next accept are started, in that order, exactly when there is no error and the server is running; otherwise nothing is started |
| `Server.TcpServer.HandleRead` | Troice_Dazzling_Window/WindowManager.cpp:66-91 | after an error nothing happens; otherwise the reply to the first received line, less one trailing carriage return, is written and the next read is started |
| `Server.TcpServer.HandleCommand` | Troice_Dazzling_Window/WindowManager.cpp:93-142 | writes exactly one reply, the one `Dispatch` and `Encode` give, building a notice reply through the escaping loop; every written reply stays framed |
| `Server.TcpServer.SendResponse` | Troice_Dazzling_Window/WindowManager.cpp:144-154 | records one write of the given bytes |

## Left out

- Network I/O and concurrency: the acceptor, `async_accept`, `async_read_until`, `async_write`, the `io_context` and its thread. These are foreign calls. The model records the operations the server starts, in order, in the `io` trace. The completion handlers for accept and read are modelled, with the error flag as a parameter. The model does not say which completion follows which started operation, and it does not model the completion of a write, write errors or the interleaving of connections.
- Stream buffers are not modelled across reads. `HandleRead` takes the received bytes as a parameter. In the source, `getline` consumes the line and `consume(bytes_transferred)` then discards as many bytes again. So when one read delivers several lines, only the first is answered, the following bytes are dropped, and a later line can be cut short and then answered as an unknown command. The model makes no claim about a sequence of requests on one connection.
- File access in `LoadNotice`: the file's bytes, or `None` when it cannot be opened, are a parameter. The error dialog shown for a missing file is not modelled.
- `Server.TcpServer.LoadNotice`: for a file shorter than 3 bytes the source compares bytes of the mark buffer that the read did not fill. The model does not represent those indeterminate bytes. It does not need them, since the notice is empty whichever way that comparison goes.
- `Server.TcpServer.constructor`: states nothing about the advertised port. The source leaves `m_serverPort` uninitialised until `SetServerConfig`. The constructor's `short` listening port only binds the acceptor, which is not modelled, and neither is the narrowing of ports above 32767.
- `Replies.DecodeEncode`: holds only for texts without `|`. The source does not escape `|` in the notice, address or name, so such texts make the fields ambiguous.
- `Replies.NoticeReadBack`: holds only for notices without `|` and without a backslash. The source escapes neither, so a notice holding a literal backslash-`n` reads back with a line feed in its place (`NoticeEscape.EscapeNotInjective`).
- `Protocol.Pack`: the header is never put on the wire by these files. The little-endian byte order is an assumption, matching the x86 Windows target.
- The Win32 text conversions (`WideCharToMultiByte`, `MultiByteToWideChar`), `MessageBoxW`, the ImGui window `MainWindow`, `InitializeServerName`, the global statics and the port clamp to 1..65535 are user interface code.
- `main.h` holds only includes and a declaration.
