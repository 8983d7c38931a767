/** How a request is taken from the bytes a read delivered: the first line,
    without its line feed and without one trailing carriage return. */
module Lines {
  import opened Bytes
  import Protocol

  /** `std::getline`: the bytes before the first line feed, or all of them
      when there is none. */
  function GetLine(buffer: Bytes): (line: Bytes)
    ensures line <= buffer
    ensures LF !in line
    ensures |line| < |buffer| ==> buffer[|line|] == LF
  {
    match FindByte(buffer, LF, 0)
    case None => buffer
    case Some(i) => buffer[..i]
  }

  /** The command a line carries: the line with exactly one trailing
      carriage return removed when it ends in one, and unchanged otherwise. */
  function CommandOf(line: Bytes): (command: Bytes)
    ensures line == command + [CR] || (line == command && (line == [] || line[|line| - 1] != CR))
  {
    if |line| > 0 && line[|line| - 1] == CR then line[..|line| - 1] else line
  }

  /** A command sent as one line, ended by CR LF or by LF alone, is read
      back intact whatever follows it in the buffer. */
  lemma FramedCommandRecovered(c: Bytes, rest: Bytes)
    requires LF !in c && (c == [] || c[|c| - 1] != CR)
    ensures CommandOf(GetLine(c + [CR, LF] + rest)) == c
    ensures CommandOf(GetLine(c + [LF] + rest)) == c
  {
    var crlf := c + [CR, LF] + rest;
    assert crlf[..|c| + 1] == c + [CR];
    assert crlf[|c| + 1] == LF;
    var lf := c + [LF] + rest;
    assert lf[..|c|] == c;
    assert lf[|c|] == LF;
  }

  /** Only one carriage return is removed: a line ending in two keeps one. */
  lemma OneCarriageReturnRemoved(c: Bytes)
    ensures CommandOf(c + [CR, CR]) == c + [CR]
  {
  }

  /** Every keyword of the protocol survives line framing. */
  lemma KeywordsRecovered(rest: Bytes)
    ensures forall c :: c in Protocol.Commands() ==>
      CommandOf(GetLine(c + [CR, LF] + rest)) == c && CommandOf(GetLine(c + [LF] + rest)) == c
  {
    Protocol.CommandsWellFormed();
    forall c | c in Protocol.Commands()
      ensures CommandOf(GetLine(c + [CR, LF] + rest)) == c && CommandOf(GetLine(c + [LF] + rest)) == c
    {
      assert Protocol.SingleLine(c);
      FramedCommandRecovered(c, rest);
    }
  }
}
