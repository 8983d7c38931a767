/** The notice reply carries the notice on a single line: every line feed is
    written as the two characters backslash and `n`. */
module NoticeEscape {
  import opened Bytes

  /** The number of occurrences of `b` in `s`. */
  function Count(s: Bytes, b: byte): nat
  {
    if s == [] then 0 else (if s[0] == b then 1 else 0) + Count(s[1..], b)
  }

  /** `s` with each line feed replaced by backslash, `n`. */
  function Escape(s: Bytes): (r: Bytes)
    ensures |r| == |s| + Count(s, LF)
  {
    if s == [] then []
    else (if s[0] == LF then [BACKSLASH, LOWER_N] else [s[0]]) + Escape(s[1..])
  }

  /** The escaped text holds no line feed. */
  lemma {:induction false} EscapeHasNoLineFeed(s: Bytes)
    ensures LF !in Escape(s)
  {
    if s != [] {
      EscapeHasNoLineFeed(s[1..]);
    }
  }

  lemma {:induction false} EscapeAppend(a: Bytes, b: Bytes)
    ensures Escape(a + b) == Escape(a) + Escape(b)
  {
    if a == [] {
      assert a + b == b;
    } else {
      assert (a + b)[1..] == a[1..] + b;
      EscapeAppend(a[1..], b);
    }
  }

  /** Escaping changes exactly the texts that hold a line feed. */
  lemma {:induction false} EscapeIdentity(s: Bytes)
    ensures Escape(s) == s <==> LF !in s
  {
    if s != [] {
      EscapeIdentity(s[1..]);
      if s[0] == LF {
        assert |Escape(s)| > |s|;
      } else {
        assert s == [s[0]] + s[1..];
      }
    }
  }

  /** A byte other than the two that escaping writes occurs in the escaped
      text only where it occurred before. */
  lemma {:induction false} EscapeKeepsAbsent(s: Bytes, b: byte)
    requires b != BACKSLASH && b != LOWER_N
    requires b !in s
    ensures b !in Escape(s)
  {
    if s != [] {
      EscapeKeepsAbsent(s[1..], b);
    }
  }

  /** The reverse transformation a client applies: a backslash followed by
      `n` becomes a line feed. */
  function Unescape(s: Bytes): Bytes
  {
    if s == [] then []
    else if |s| >= 2 && s[0] == BACKSLASH && s[1] == LOWER_N then [LF] + Unescape(s[2..])
    else [s[0]] + Unescape(s[1..])
  }

  /** Unescaping undoes escaping for every text without a backslash. */
  lemma {:induction false} UnescapeEscape(s: Bytes)
    requires BACKSLASH !in s
    ensures Unescape(Escape(s)) == s
  {
    if s != [] {
      UnescapeEscape(s[1..]);
      var e := Escape(s);
      if s[0] == LF {
        assert e == [BACKSLASH, LOWER_N] + Escape(s[1..]);
        assert e[2..] == Escape(s[1..]);
      } else {
        assert e == [s[0]] + Escape(s[1..]);
        assert e[1..] == Escape(s[1..]);
      }
    }
  }

  /** Without that restriction the escaping loses information: a line feed
      and a literal backslash-`n` are sent as the same bytes. */
  lemma EscapeNotInjective()
    ensures exists a, b :: a != b && Escape(a) == Escape(b)
  {
    var a, b := [LF], [BACKSLASH, LOWER_N];
    assert Escape(a) == [BACKSLASH, LOWER_N];
    assert Escape(b) == [BACKSLASH] + Escape([LOWER_N]);
    assert Escape(a) == Escape(b);
  }

  /** Escaping a prefix that ends in its first line feed since `done`. */
  lemma EscapePrefixStep(content: Bytes, done: nat, k: nat)
    requires done + k < |content|
    requires LF !in content[done..done + k] && content[done + k] == LF
    ensures Escape(content[..done + k + 1]) == Escape(content[..done]) + content[done..done + k] + [BACKSLASH, LOWER_N]
  {
    var plain := content[done..done + k];
    EscapeIdentity(plain);
    assert content[..done + k + 1] == content[..done] + plain + [LF];
    EscapeAppend(content[..done] + plain, [LF]);
    EscapeAppend(content[..done], plain);
  }

  /** One pass of the rewrite loop keeps `processed` an escaped prefix of
      `content` followed by the unprocessed rest. */
  lemma RewriteStep(content: Bytes, done: nat, processed: Bytes, pos: nat, p: nat)
    requires done <= |content|
    requires processed == Escape(content[..done]) + content[done..]
    requires pos == |Escape(content[..done])|
    requires pos <= p < |processed| && processed[p] == LF
    requires forall k :: pos <= k < p ==> processed[k] != LF
    ensures done + (p - pos) < |content|
    ensures ReplaceByte(processed, p, [BACKSLASH, LOWER_N])
            == Escape(content[..done + (p - pos) + 1]) + content[done + (p - pos) + 1..]
    ensures |Escape(content[..done + (p - pos) + 1])| == p + 2
  {
    var k := p - pos;
    assert processed[pos..] == content[done..];
    assert content[done + k] == LF;
    assert content[done..done + k] == processed[pos..p];
    EscapePrefixStep(content, done, k);
    assert processed[..p] == Escape(content[..done]) + content[done..done + k];
    assert processed[p + 1..] == content[done + k + 1..];
  }

  /** Once no line feed remains after `pos`, the rewrite is complete. */
  lemma RewriteDone(content: Bytes, done: nat, processed: Bytes, pos: nat)
    requires done <= |content|
    requires processed == Escape(content[..done]) + content[done..]
    requires pos == |Escape(content[..done])|
    requires forall k :: pos <= k < |processed| ==> processed[k] != LF
    ensures processed == Escape(content)
  {
    var rest := content[done..];
    assert processed[pos..] == rest;
    assert LF !in rest by {
      forall i | 0 <= i < |rest| ensures rest[i] != LF {
        assert rest[i] == processed[pos + i];
      }
    }
    EscapeIdentity(rest);
    EscapeAppend(content[..done], rest);
    assert content[..done] + rest == content;
  }

  /** The rewrite loop of the notice reply: find the next line feed at or
      after `pos`, replace it by the two escape bytes, and continue just
      past them. */
  method EscapeNewlines(content: Bytes) returns (processed: Bytes)
    ensures processed == Escape(content)
  {
    processed := content;
    var pos: nat := 0;
    ghost var done: nat := 0;
    var found := FindByte(processed, LF, pos);
    while found.Some?
      invariant done <= |content|
      invariant processed == Escape(content[..done]) + content[done..]
      invariant pos == |Escape(content[..done])|
      invariant found == FindByte(processed, LF, pos)
      decreases |processed| - pos
    {
      var p := found.value;
      RewriteStep(content, done, processed, pos, p);
      processed := ReplaceByte(processed, p, [BACKSLASH, LOWER_N]);
      done := done + (p - pos) + 1;
      pos := p + 2;
      found := FindByte(processed, LF, pos);
    }
    RewriteDone(content, done, processed, pos);
  }
}
