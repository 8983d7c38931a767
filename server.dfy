/** The request and response engine of the launcher server: a running flag,
    the notice text, the advertised configuration, and the asynchronous
    operations it hands to the network layer. */
module Server {
  import opened Bytes
  import opened Notice
  import opened Lines
  import opened Replies
  import Protocol
  import NoticeEscape
  import Decimal

  newtype int32 = x: int | -0x8000_0000 <= x < 0x8000_0000

  /** An operation the server hands to the network layer: the asynchronous
      ones (accepting the next connection, reading a connection up to its
      next line feed, writing a reply to it) and the synchronous closing of
      the listening socket. */
  datatype IoAction = PostAccept | PostRead | Write(data: Bytes) | CloseAcceptor

  class TcpServer {
    var isRunning: bool
    var noticeContent: Bytes
    var serverIP: Bytes
    var serverPort: int32
    var serverName: Bytes
    /** Every network operation started so far, oldest first. */
    var io: seq<IoAction>

    /** Everything the server has written is a framed reply. */
    ghost predicate Valid()
      reads this
    {
      forall k :: 0 <= k < |io| && io[k].Write? ==> Framed(io[k].data)
    }

    /** The reply the server gives to `command` in its current state. */
    function Response(command: Bytes): (m: Bytes)
      reads this
      ensures Framed(m)
    {
      Encode(Dispatch(command, noticeContent, serverIP, serverPort as int, serverName))
    }

    /** A new server is stopped, advertises an empty address and name, and
        holds the notice file's content (or nothing when the file cannot be
        opened). The port it advertises is not initialised. */
    constructor (noticeFile: Option<Bytes>)
      ensures Valid()
      ensures !isRunning && io == [] && serverIP == [] && serverName == []
      ensures noticeFile.None? ==> noticeContent == []
      ensures noticeFile.Some? ==> noticeContent == LoadedNotice(noticeFile.value)
    {
      isRunning := false;
      noticeContent := [];
      serverIP := [];
      serverPort := 0;
      serverName := [];
      io := [];
      new;
      LoadNotice(noticeFile);
    }

    /** Loads the notice from the file's bytes; `None` stands for a file that
        cannot be opened, which leaves the notice as it was. */
    method LoadNotice(file: Option<Bytes>)
      requires Valid()
      modifies this`noticeContent
      ensures Valid()
      ensures file.None? ==> noticeContent == old(noticeContent)
      ensures file.Some? ==> noticeContent == LoadedNotice(file.value)
    {
      if file.Some? {
        noticeContent := LoadedNotice(file.value);
      }
    }

    method Start()
      requires Valid()
      modifies this`isRunning, this`io
      ensures Valid()
      ensures isRunning && io == old(io) + [PostAccept]
    {
      isRunning := true;
      StartAccept();
    }

    method Stop()
      requires Valid()
      modifies this`isRunning, this`io
      ensures Valid()
      ensures !isRunning && io == old(io) + [CloseAcceptor]
    {
      isRunning := false;
      io := io + [CloseAcceptor];
    }

    method IsRunning() returns (running: bool)
      ensures running == isRunning
    {
      running := isRunning;
    }

    method SetServerConfig(ip: Bytes, port: int32, name: Bytes)
      requires Valid()
      modifies this`serverIP, this`serverPort, this`serverName
      ensures Valid()
      ensures serverIP == ip && serverPort == port && serverName == name
    {
      serverIP := ip;
      serverPort := port;
      serverName := name;
    }

    method StartAccept()
      requires Valid()
      modifies this`io
      ensures Valid()
      ensures io == old(io) + [PostAccept]
    {
      io := io + [PostAccept];
    }

    /** Completion of an accept: only without an error and while running does
        the server start reading the new connection and accept the next one. */
    method HandleAccept(error: bool)
      requires Valid()
      modifies this`io
      ensures Valid()
      ensures io == old(io) + (if !error && isRunning then [PostRead, PostAccept] else [])
    {
      if !error && isRunning {
        io := io + [PostRead];
        StartAccept();
      }
    }

    /** Completion of a read: without an error, the first line of what was
        received, less one trailing carriage return, is answered and the
        connection is read again; after an error the connection is dropped. */
    method HandleRead(error: bool, received: Bytes)
      requires Valid()
      modifies this`io
      ensures Valid()
      ensures error ==> io == old(io)
      ensures !error ==> io == old(io) + [Write(Response(CommandOf(GetLine(received)))), PostRead]
    {
      if !error {
        var command := GetLine(received);
        if |command| > 0 && command[|command| - 1] == CR {
          command := command[..|command| - 1];
        }
        HandleCommand(command);
        io := io + [PostRead];
      }
    }

    /** Sends exactly one reply to a command. */
    method HandleCommand(command: Bytes)
      requires Valid()
      modifies this`io
      ensures Valid()
      ensures io == old(io) + [Write(Response(command))]
    {
      var response: Bytes;
      if command == Protocol.GET_NOTICE {
        var processedContent := NoticeEscape.EscapeNewlines(noticeContent);
        response := BOM + Ascii("NOTICE|") + processedContent + END_OF_MESSAGE;
      } else if command == Protocol.GET_SERVER_INFO {
        response := BOM + Ascii("SERVER_INFO|") + serverIP + Ascii("|") + Decimal.ToString(serverPort as int)
          + Ascii("|") + serverName + END_OF_MESSAGE;
      } else if command == Protocol.GET_FILE {
        response := BOM + Ascii("FILE|") + NOT_IMPLEMENTED + END_OF_MESSAGE;
      } else {
        response := BOM + Ascii("ERROR|Unknown command") + END_OF_MESSAGE;
      }
      SendResponse(response);
    }

    /** Hands a reply to the network layer. */
    method SendResponse(response: Bytes)
      requires Valid() && Framed(response)
      modifies this`io
      ensures Valid()
      ensures io == old(io) + [Write(response)]
    {
      io := io + [Write(response)];
    }
  }

  /** Setting the configuration twice leaves the second one in place, as a
      single call with the second arguments would, and touches neither the
      running flag nor the notice. */
  method ReconfigureTwice(server: TcpServer, ip1: Bytes, port1: int32, name1: Bytes,
                          ip2: Bytes, port2: int32, name2: Bytes)
    requires server.Valid()
    modifies server
    ensures server.Valid()
    ensures server.serverIP == ip2 && server.serverPort == port2 && server.serverName == name2
    ensures server.isRunning == old(server.isRunning) && server.noticeContent == old(server.noticeContent)
    ensures server.io == old(server.io)
  {
    server.SetServerConfig(ip1, port1, name1);
    server.SetServerConfig(ip2, port2, name2);
  }
}
