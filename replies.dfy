/** The replies of the bare-keyword protocol: which reply a command gets,
    and the bytes it is sent as. */
module Replies {
  import opened Bytes
  import opened Protocol
  import opened NoticeEscape
  import opened Decimal

  /** The marker that ends every reply. */
  const END_OF_MESSAGE: Bytes := Ascii("<END_OF_MESSAGE>")

  /** "未实现" ("not implemented") in UTF-8. */
  const NOT_IMPLEMENTED: Bytes := [0xE6, 0x9C, 0xAA, 0xE5, 0xAE, 0x9E, 0xE7, 0x8E, 0xB0]

  const NOTICE_TAG: Bytes := Ascii("NOTICE")
  const SERVER_INFO_TAG: Bytes := Ascii("SERVER_INFO")
  const FILE_TAG: Bytes := Ascii("FILE")
  const ERROR_TAG: Bytes := Ascii("ERROR")
  const UNKNOWN_COMMAND: Bytes := Ascii("Unknown command")

  /** A message as every reply is framed: the byte-order mark first and the
      end marker last. */
  predicate Framed(m: Bytes)
  {
    |m| >= |BOM| + |END_OF_MESSAGE| && m[..|BOM|] == BOM && m[|m| - |END_OF_MESSAGE|..] == END_OF_MESSAGE
  }

  datatype Reply =
    | NoticeReply(notice: Bytes)
    | ServerInfoReply(ip: Bytes, port: int, name: Bytes)
    | FileReply
    | ErrorReply

  /** The reply a command gets. The command is compared for exact equality
      with the keywords; anything else is unknown. */
  function Dispatch(command: Bytes, notice: Bytes, ip: Bytes, port: int, name: Bytes): (r: Reply)
    ensures r.NoticeReply? <==> command == GET_NOTICE
    ensures r.ServerInfoReply? <==> command == GET_SERVER_INFO
    ensures r.FileReply? <==> command == GET_FILE
    ensures r.NoticeReply? ==> r.notice == notice
    ensures r.ServerInfoReply? ==> r.ip == ip && r.port == port && r.name == name
  {
    if command == GET_NOTICE then NoticeReply(notice)
    else if command == GET_SERVER_INFO then ServerInfoReply(ip, port, name)
    else if command == GET_FILE then FileReply
    else ErrorReply
  }

  /** The bytes sent for a reply: the byte-order mark, the keyword and its
      fields joined by '|', and the end marker. */
  function Encode(r: Reply): (m: Bytes)
    ensures Framed(m)
  {
    match r
    case NoticeReply(notice) =>
      BOM + Ascii("NOTICE|") + Escape(notice) + END_OF_MESSAGE
    case ServerInfoReply(ip, port, name) =>
      BOM + Ascii("SERVER_INFO|") + ip + Ascii("|") + ToString(port) + Ascii("|") + name + END_OF_MESSAGE
    case FileReply =>
      BOM + Ascii("FILE|") + NOT_IMPLEMENTED + END_OF_MESSAGE
    case ErrorReply =>
      BOM + Ascii("ERROR|Unknown command") + END_OF_MESSAGE
  }

  /** The fields a reply carries, keyword first. */
  function Fields(r: Reply): seq<Bytes>
  {
    match r
    case NoticeReply(notice) => [NOTICE_TAG, Escape(notice)]
    case ServerInfoReply(ip, port, name) => [SERVER_INFO_TAG, ip, ToString(port), name]
    case FileReply => [FILE_TAG, NOT_IMPLEMENTED]
    case ErrorReply => [ERROR_TAG, UNKNOWN_COMMAND]
  }

  /** Fields joined by a separator byte. */
  function Join(fields: seq<Bytes>, sep: byte): Bytes
  {
    if |fields| == 0 then []
    else if |fields| == 1 then fields[0]
    else fields[0] + [sep] + Join(fields[1..], sep)
  }

  /** A text cut at every separator byte. */
  function Split(s: Bytes, sep: byte): (r: seq<Bytes>)
    ensures |r| > 0
    decreases |s|
  {
    match FindByte(s, sep, 0)
    case None => [s]
    case Some(i) => [s[..i]] + Split(s[i + 1..], sep)
  }

  lemma {:induction false} SplitJoin(fields: seq<Bytes>, sep: byte)
    requires |fields| > 0
    requires forall i :: 0 <= i < |fields| ==> sep !in fields[i]
    ensures Split(Join(fields, sep), sep) == fields
  {
    if |fields| == 1 {
      assert FindByte(fields[0], sep, 0).None?;
    } else {
      var f, tail := fields[0], Join(fields[1..], sep);
      var s := f + [sep] + tail;
      assert s[|f|] == sep;
      assert forall k :: 0 <= k < |f| ==> s[k] == f[k];
      assert FindByte(s, sep, 0) == Some(|f|);
      assert s[..|f|] == f;
      assert s[|f| + 1..] == tail;
      SplitJoin(fields[1..], sep);
    }
  }

  lemma NoticeFramedFields(notice: Bytes)
    ensures Encode(NoticeReply(notice)) == BOM + Join(Fields(NoticeReply(notice)), PIPE) + END_OF_MESSAGE
  {
  }

  lemma JoinFour(a: Bytes, b: Bytes, c: Bytes, d: Bytes)
    ensures Join([a, b, c, d], PIPE) == a + [PIPE] + b + [PIPE] + c + [PIPE] + d
  {
    var fs := [a, b, c, d];
    assert fs[1..][1..] == fs[2..] == [c, d];
    assert Join(fs[2..], PIPE) == c + [PIPE] + d;
    assert Join(fs[1..], PIPE) == b + [PIPE] + Join(fs[2..], PIPE);
  }

  /** Six pieces between a prefix and a suffix, regrouped. */
  lemma Regroup(pre: Bytes, a: Bytes, b: Bytes, c: Bytes, d: Bytes, e: Bytes, f: Bytes, post: Bytes)
    ensures pre + a + b + c + d + e + f + post == pre + (a + b + c + d + e + f) + post
  {
  }

  lemma ServerInfoLiterals()
    ensures Ascii("SERVER_INFO|") == SERVER_INFO_TAG + [PIPE]
    ensures Ascii("|") == [PIPE]
  {
  }

  lemma ServerInfoFramedFields(ip: Bytes, port: int, name: Bytes)
    ensures Encode(ServerInfoReply(ip, port, name)) == BOM + Join(Fields(ServerInfoReply(ip, port, name)), PIPE) + END_OF_MESSAGE
  {
    var text := ToString(port);
    Regroup(BOM, Ascii("SERVER_INFO|"), ip, Ascii("|"), text, Ascii("|"), name, END_OF_MESSAGE);
    JoinFour(SERVER_INFO_TAG, ip, text, name);
    ServerInfoLiterals();
  }

  /** The reply's bytes are its joined fields between the mark and the end
      marker. */
  lemma EncodeIsFramedFields(r: Reply)
    ensures Encode(r) == BOM + Join(Fields(r), PIPE) + END_OF_MESSAGE
  {
    match r
    case NoticeReply(notice) =>
      NoticeFramedFields(notice);
    case ServerInfoReply(ip, port, name) =>
      ServerInfoFramedFields(ip, port, name);
    case FileReply =>
      assert Ascii("FILE|") == FILE_TAG + [PIPE];
    case ErrorReply =>
      assert Ascii("ERROR|Unknown command") == ERROR_TAG + [PIPE] + UNKNOWN_COMMAND;
  }

  /** How a client reads a reply: check the mark and the end marker, then cut
      the text between them at every '|'. */
  function Decode(m: Bytes): Option<seq<Bytes>>
  {
    if Framed(m) then Some(Split(m[|BOM|..|m| - |END_OF_MESSAGE|], PIPE))
    else None
  }

  /** The reply's own texts hold no '|': the notice, or the address and the
      name of the server. */
  predicate PipeFree(r: Reply)
  {
    match r
    case NoticeReply(notice) => PIPE !in notice
    case ServerInfoReply(ip, _, name) => PIPE !in ip && PIPE !in name
    case _ => true
  }

  /** A client that decodes a reply gets back its fields, provided its texts
      hold no '|'. */
  lemma DecodeEncode(r: Reply)
    requires PipeFree(r)
    ensures Decode(Encode(r)) == Some(Fields(r))
  {
    EncodeIsFramedFields(r);
    var m, body := Encode(r), Join(Fields(r), PIPE);
    assert m[|BOM|..|m| - |END_OF_MESSAGE|] == body;
    if r.NoticeReply? {
      EscapeKeepsAbsent(r.notice, PIPE);
    }
    assert PIPE !in NOT_IMPLEMENTED && PIPE !in UNKNOWN_COMMAND;
    assert PIPE !in NOTICE_TAG && PIPE !in SERVER_INFO_TAG && PIPE !in FILE_TAG && PIPE !in ERROR_TAG;
    SplitJoin(Fields(r), PIPE);
  }

  /** In particular the port of a server-information reply is read back as
      the number the server holds. */
  lemma ServerInfoPortRecovered(ip: Bytes, port: int, name: Bytes)
    requires PIPE !in ip && PIPE !in name
    ensures var fields := Decode(Encode(ServerInfoReply(ip, port, name)));
      fields.Some? && |fields.value| == 4 && ParseInt(fields.value[2]) == Some(port)
  {
    DecodeEncode(ServerInfoReply(ip, port, name));
    ParseToString(port);
  }

  /** A client that decodes a notice reply and unescapes its second field
      reads the notice, provided it holds neither '|' nor a backslash. */
  lemma NoticeReadBack(notice: Bytes)
    requires PIPE !in notice && BACKSLASH !in notice
    ensures var fields := Decode(Encode(NoticeReply(notice)));
      fields.Some? && |fields.value| == 2 && Unescape(fields.value[1]) == notice
  {
    DecodeEncode(NoticeReply(notice));
    UnescapeEscape(notice);
  }

  predicate OccursAt(s: Bytes, pattern: Bytes, i: nat)
  {
    i + |pattern| <= |s| && s[i..i + |pattern|] == pattern
  }

  /** Before the end marker, the marker occurs in a reply where it occurs in
      the body. */
  lemma OccursInFront(body: Bytes, i: nat)
    requires |BOM| <= i
    ensures i + |END_OF_MESSAGE| <= |BOM| + |body| ==>
      (OccursAt(BOM + body + END_OF_MESSAGE, END_OF_MESSAGE, i) <==> OccursAt(body, END_OF_MESSAGE, i - |BOM|))
  {
    var n := |END_OF_MESSAGE|;
    if i + n <= |BOM| + |body| {
      var m, front := BOM + body + END_OF_MESSAGE, BOM + body;
      assert m[..|front|] == front;
      assert m[i..i + n] == front[i..i + n];
      assert front[|BOM|..] == body;
      assert front[i..i + n] == body[i - |BOM|..i - |BOM| + n];
    }
  }

  /** The end marker starts with '<' and holds no other '<', so it cannot
      overlap itself: appended to a text that lacks it, it occurs only at the
      end. */
  lemma MarkerOnlyAtEnd(body: Bytes)
    requires forall j :: !OccursAt(body, END_OF_MESSAGE, j)
    ensures forall i :: OccursAt(BOM + body + END_OF_MESSAGE, END_OF_MESSAGE, i) ==> i == |BOM| + |body|
  {
    var m := BOM + body + END_OF_MESSAGE;
    var n, at := |END_OF_MESSAGE|, |BOM| + |body|;
    assert forall j :: 1 <= j < n ==> END_OF_MESSAGE[j] != LESS_THAN;
    assert m[at..] == END_OF_MESSAGE;
    forall i: nat | OccursAt(m, END_OF_MESSAGE, i) ensures i == at {
      var window := m[i..i + n];
      assert window == END_OF_MESSAGE;
      assert m[i] == window[0] == LESS_THAN;
      assert i >= |BOM|;
      OccursInFront(body, i);
      assert !OccursAt(body, END_OF_MESSAGE, i - |BOM|);
      assert forall k :: i < k < i + n ==> m[k] != LESS_THAN by {
        forall k | i < k < i + n ensures m[k] != LESS_THAN {
          assert m[k] == window[k - i];
        }
      }
      assert m[at] == LESS_THAN;
    }
  }

  /** When the joined fields hold no end marker, the end marker of a reply
      occurs only at its end: a client that reads up to the first marker
      reads exactly this reply. */
  lemma EndMarkerOnlyAtEnd(r: Reply)
    requires forall j :: !OccursAt(Join(Fields(r), PIPE), END_OF_MESSAGE, j)
    ensures forall i :: OccursAt(Encode(r), END_OF_MESSAGE, i) ==> i == |Encode(r)| - |END_OF_MESSAGE|
  {
    EncodeIsFramedFields(r);
    MarkerOnlyAtEnd(Join(Fields(r), PIPE));
  }

  /** The fixed replies satisfy that condition. */
  lemma FixedRepliesHoldNoMarker()
    ensures forall j :: !OccursAt(Join(Fields(FileReply), PIPE), END_OF_MESSAGE, j)
    ensures forall j :: !OccursAt(Join(Fields(ErrorReply), PIPE), END_OF_MESSAGE, j)
  {
    assert LESS_THAN !in Join(Fields(FileReply), PIPE);
    assert LESS_THAN !in Join(Fields(ErrorReply), PIPE);
    assert END_OF_MESSAGE[0] == LESS_THAN;
  }

  /** Exact comparison: the merged command of the newer protocol, and any
      keyword followed by a space or by a second carriage return, are
      unknown commands. */
  lemma NearMissesAreUnknown(notice: Bytes, ip: Bytes, port: int, name: Bytes)
    ensures Dispatch(INIT_SERVER_INFO, notice, ip, port, name) == ErrorReply
    ensures forall c :: c in Commands() ==> Dispatch(c + [SPACE], notice, ip, port, name) == ErrorReply
    ensures forall c :: c in Commands() ==> Dispatch(c + [CR], notice, ip, port, name) == ErrorReply
  {
    // No keyword is one byte longer than another, so appending a byte
    // never turns one keyword into another.
    assert |GET_NOTICE| == 10 && |INIT_SERVER_INFO| == 16 && |GET_FILE| == 8 && |GET_SERVER_INFO| == 15;
  }
}
