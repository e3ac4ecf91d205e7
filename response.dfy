/** The response `handle_connection` builds at src/main.rs:37-38:
    status line, a single `Content-Length` header field, a blank line, and
    the file contents (the message layout of section 2.1 of RFC 9112, with
    the field of section 8.6 of RFC 9110). Beside it, the reading a client
    makes of those bytes, so that what the server writes can be shown to
    frame the body correctly. */
module Response {
  import opened Wrappers
  import opened Utf8
  import Decimal

  // The field name is spelled as bytes and its text recovered through
  // `AsciiText`: a string literal handed to the recursive `Encode` is
  // unfolded character by character, which is far more costly to reason
  // about than a byte list.

  /** The bytes of "Content-Length: ", the field name and the space after it. */
  const ContentLengthBytes: seq<byte> :=
    [0x43, 0x6F, 0x6E, 0x74, 0x65, 0x6E, 0x74, 0x2D, 0x4C, 0x65, 0x6E, 0x67, 0x74, 0x68, 0x3A, 0x20]
  const ContentLengthName: string := AsciiText(ContentLengthBytes)
  const Crlf: seq<byte> := [CR, LF]
  const BlankLine: seq<byte> := [CR, LF, CR, LF]

  /** The text of the status line and header section, blank line included. */
  function Head(statusLine: string, length: nat): string {
    statusLine + "\r\n" + ContentLengthName + Decimal.Render(length) + "\r\n\r\n"
  }

  /** `format!("{status_line}\r\nContent-Length: {length}\r\n\r\n{contents}")`
      as bytes, where `length` is the byte length of `contents`. */
  function FormatResponse(statusLine: string, contents: seq<byte>): (r: seq<byte>)
    ensures Encode(statusLine) <= r
    ensures |r| >= |contents| && r[|r| - |contents|..] == contents
  {
    ResponseLayout(statusLine, |contents|);
    Encode(Head(statusLine, |contents|)) + contents
  }

  /** The response is the format string of src/main.rs:38 filled in. */
  lemma FormatResponseText(statusLine: string, contents: seq<byte>)
    ensures FormatResponse(statusLine, contents) ==
      Encode(statusLine + "\r\n" + "Content-Length: " + Decimal.Render(|contents|) + "\r\n\r\n") + contents
  {
    ContentLengthNameText();
  }

  /** The header field name reads "Content-Length: ". */
  lemma ContentLengthNameText()
    ensures ContentLengthName == "Content-Length: "
  {
  }

  /** The bytes of the response, piece by piece. */
  lemma FormatResponseLayout(statusLine: string, contents: seq<byte>)
    ensures FormatResponse(statusLine, contents) ==
      Encode(statusLine) + Crlf + ContentLengthBytes + Encode(Decimal.Render(|contents|)) + BlankLine + contents
  {
    ResponseLayout(statusLine, |contents|);
  }

  /** The bytes of the head, piece by piece. */
  lemma ResponseLayout(statusLine: string, length: nat)
    ensures Encode(Head(statusLine, length)) ==
      Encode(statusLine) + Crlf + ContentLengthBytes + Encode(Decimal.Render(length)) + BlankLine
  {
    var d := Decimal.Render(length);
    var a := statusLine + "\r\n";
    var b := a + ContentLengthName;
    var c := b + d;
    EncodeAppend(c, "\r\n\r\n");
    EncodeAppend(b, d);
    EncodeAppend(a, ContentLengthName);
    EncodeAppend(statusLine, "\r\n");
    EncodeCrlf();
  }

  lemma EncodeCrlf()
    ensures Encode("\r\n") == Crlf
    ensures Encode("\r\n\r\n") == BlankLine
  {
  }

  predicate OccursAt(r: seq<byte>, pattern: seq<byte>, k: nat) {
    k + |pattern| <= |r| && r[k..k + |pattern|] == pattern
  }

  /** An occurrence one position further into `r` is an occurrence in its tail. */
  lemma OccursAtShift(r: seq<byte>, pattern: seq<byte>, k: nat)
    requires |r| > 0
    ensures OccursAt(r, pattern, k + 1) <==> OccursAt(r[1..], pattern, k)
  {
  }

  /** The position of the first occurrence of `pattern` in `r`, if any. */
  function Find(r: seq<byte>, pattern: seq<byte>): (i: Option<nat>)
    requires |pattern| > 0
    ensures i.Some? ==> OccursAt(r, pattern, i.value)
    ensures i.Some? ==> forall k: nat :: k < i.value ==> !OccursAt(r, pattern, k)
    ensures i.None? ==> forall k: nat :: !OccursAt(r, pattern, k)
    decreases |r|
  {
    if |r| < |pattern| then None
    else if r[..|pattern|] == pattern then Some(0)
    else
      var rest := Find(r[1..], pattern);
      assert forall k: nat :: OccursAt(r, pattern, k + 1) <==> OccursAt(r[1..], pattern, k) by {
        forall k: nat ensures OccursAt(r, pattern, k + 1) <==> OccursAt(r[1..], pattern, k) {
          OccursAtShift(r, pattern, k);
        }
      }
      assert forall k: nat :: OccursAt(r, pattern, k) && k > 0 ==> OccursAt(r[1..], pattern, k - 1);
      if rest.None? then None else Some(rest.value + 1)
  }

  /** What a client reads from a response: the status line bytes, the
      `Content-Length` value and the bytes after the blank line. */
  datatype Message = Message(statusLine: seq<byte>, contentLength: nat, body: seq<byte>)

  predicate AllDigitBytes(bs: seq<byte>) {
    forall i :: 0 <= i < |bs| ==> '0' as byte <= bs[i] <= '9' as byte
  }

  /** Reads a response written in the layout above: the header section ends
      at the first blank line, and what follows it is the body. */
  function ParseResponse(r: seq<byte>): (m: Option<Message>)
  {
    match Find(r, BlankLine)
    case None => None
    case Some(b) =>
      match ParseHead(r[..b])
      case None => None
      case Some(status) =>
        Some(Message(status.0, status.1, r[b + |BlankLine|..]))
  }

  /** The header section: a status line, CR LF, then one field. */
  function ParseHead(head: seq<byte>): Option<(seq<byte>, nat)>
  {
    match Find(head, Crlf)
    case None => None
    case Some(i) =>
      match ParseContentLength(head[i + |Crlf|..])
      case None => None
      case Some(n) => Some((head[..i], n))
  }

  /** A `Content-Length` field whose value is one or more decimal digits. */
  function ParseContentLength(field: seq<byte>): Option<nat>
  {
    var name := ContentLengthBytes;
    if |field| <= |name| || field[..|name|] != name then None
    else
      var value := field[|name|..];
      if !AllDigitBytes(value) then None
      else Some(Decimal.Parse(AsciiText(value)))
  }

  /** The response frames its body: a client that splits it at the first
      blank line finds the status line, a `Content-Length` equal to the
      length of what follows the blank line, and the contents unchanged. */
  lemma ResponseRoundTrip(statusLine: string, contents: seq<byte>)
    requires '\r' !in statusLine
    ensures ParseResponse(FormatResponse(statusLine, contents)) ==
      Some(Message(Encode(statusLine), |contents|, contents))
  {
    var d := Decimal.Render(|contents|);
    ResponseLayout(statusLine, |contents|);
    RenderedLengthBytes(|contents|);
    EncodeLineBreaks(statusLine);
    ParseLaidOutResponse(Encode(statusLine), Encode(d), contents);
    Decimal.ParseRender(|contents|);
  }

  /** Exactly one blank line separates head from body: the first CR LF CR LF
      in the response is the one right before the contents. */
  lemma FirstBlankLineEndsHead(statusLine: string, contents: seq<byte>)
    requires '\r' !in statusLine
    ensures var r := FormatResponse(statusLine, contents);
      |r| >= |contents| + |BlankLine| && Find(r, BlankLine) == Some(|r| - |contents| - |BlankLine|)
  {
    var e := Encode(statusLine);
    var digits := Encode(Decimal.Render(|contents|));
    var layout := e + Crlf + ContentLengthBytes + digits + BlankLine + contents;
    assert FormatResponse(statusLine, contents) == layout by {
      FormatResponseLayout(statusLine, contents);
    }
    assert Find(layout, BlankLine) == Some(|layout| - |contents| - |BlankLine|) by {
      RenderedLengthBytes(|contents|);
      EncodeLineBreaks(statusLine);
      FirstBlankLineOfLayout(e, digits, contents);
    }
  }

  /** The first blank line of a laid-out response ends its head. */
  lemma FirstBlankLineOfLayout(e: seq<byte>, digits: seq<byte>, body: seq<byte>)
    requires CR !in e
    requires AllDigitBytes(digits)
    ensures var r := e + Crlf + ContentLengthBytes + digits + BlankLine + body;
      Find(r, BlankLine) == Some(|r| - |body| - |BlankLine|)
  {
    var head := e + Crlf + ContentLengthBytes + digits;
    var r := e + Crlf + ContentLengthBytes + digits + BlankLine + body;
    assert r == head + (BlankLine + body);
    assert CR !in digits;
    HeadEndsAtFirstBlankLine(e, ContentLengthBytes, digits, head);
    FirstBlankLineAfterHead(head, BlankLine + body);
  }

  /** The rendered length goes on the wire as ASCII digit bytes, which read
      back as the same text. */
  lemma RenderedLengthBytes(n: nat)
    ensures AllDigitBytes(Encode(Decimal.Render(n)))
    ensures AsciiText(Encode(Decimal.Render(n))) == Decimal.Render(n)
  {
    var d := Decimal.Render(n);
    var digits := Encode(d);
    assert IsAscii(d);
    forall i | 0 <= i < |digits|
      ensures '0' as byte <= digits[i] <= '9' as byte
    {
      assert digits[i] as int == d[i] as int;
    }
    Utf8.AsciiTextEncode(d);
  }

  /** Reading a response laid out as status, CR LF, `Content-Length: `,
      digits, blank line and body. */
  lemma ParseLaidOutResponse(e: seq<byte>, digits: seq<byte>, body: seq<byte>)
    requires CR !in e
    requires |digits| > 0 && AllDigitBytes(digits)
    ensures ParseResponse(e + Crlf + ContentLengthBytes + digits + BlankLine + body) ==
      Some(Message(e, Decimal.Parse(AsciiText(digits)), body))
  {
    var name := ContentLengthBytes;
    var head := e + Crlf + name + digits;
    var r := e + Crlf + name + digits + BlankLine + body;
    assert r == head + (BlankLine + body);
    FirstBlankLineOfLayout(e, digits, body);
    assert r[..|head|] == head;
    assert r[|head| + |BlankLine|..] == body;
    ParseLaidOutHead(e, digits, head);
  }

  lemma ParseLaidOutHead(e: seq<byte>, digits: seq<byte>, head: seq<byte>)
    requires CR !in e
    requires |digits| > 0 && AllDigitBytes(digits)
    requires head == e + Crlf + ContentLengthBytes + digits
    ensures ParseHead(head) == Some((e, Decimal.Parse(AsciiText(digits))))
  {
    var name := ContentLengthBytes;
    FirstCrlfAfterStatus(e, name + digits, head);
    var field := head[|e| + |Crlf|..];
    assert field == name + digits;
    assert field[..|name|] == name;
    assert field[|name|..] == digits;
    assert head[..|e|] == e;
  }

  /** Where the only CR of a head is never two bytes before another CR, the
      first blank line of `head + rest` is the one `rest` starts with. */
  lemma FirstBlankLineAfterHead(head: seq<byte>, rest: seq<byte>)
    requires forall k :: 0 <= k < |head| && head[k] == CR ==> k + 2 < |head| && head[k + 2] != CR
    requires BlankLine <= rest
    ensures Find(head + rest, BlankLine) == Some(|head|)
  {
    var r := head + rest;
    assert OccursAt(r, BlankLine, |head|) by {
      assert r[|head|..|head| + 4] == BlankLine;
    }
    forall k: nat | k < |head|
      ensures !OccursAt(r, BlankLine, k)
    {
      assert r[k] == head[k];
      if head[k] == CR {
        assert r[k + 2] == head[k + 2];
      }
      if k + 4 <= |r| {
        assert r[k..k + 4][0] == r[k] && r[k..k + 4][2] == r[k + 2];
      }
    }
    FindFirst(r, BlankLine, |head|);
  }

  /** Where the status bytes hold no CR, the first CR LF of the head is the
      one that ends the status line. */
  lemma FirstCrlfAfterStatus(e: seq<byte>, fields: seq<byte>, head: seq<byte>)
    requires CR !in e
    requires head == e + Crlf + fields
    ensures Find(head, Crlf) == Some(|e|)
  {
    assert OccursAt(head, Crlf, |e|) by {
      assert head[|e|..|e| + 2] == Crlf;
    }
    forall k: nat | k < |e|
      ensures !OccursAt(head, Crlf, k)
    {
      assert head[k] == e[k];
      assert e[k] in e;
    }
    FindFirst(head, Crlf, |e|);
  }

  /** An occurrence with none before it is the one `Find` returns. */
  lemma FindFirst(r: seq<byte>, pattern: seq<byte>, p: nat)
    requires |pattern| > 0
    requires OccursAt(r, pattern, p)
    requires forall k: nat :: k < p ==> !OccursAt(r, pattern, k)
    ensures Find(r, pattern) == Some(p)
  {
  }

  /** The header section contains no blank line before its own end: the
      only carriage return before it is the one that ends the status line,
      and that one is followed by `Content-Length`, not by another CR LF. */
  lemma HeadEndsAtFirstBlankLine(e: seq<byte>, name: seq<byte>, digits: seq<byte>, head: seq<byte>)
    requires CR !in e && CR !in name && CR !in digits
    requires |name| > 0 && name[0] != CR
    requires head == e + Crlf + name + digits
    ensures forall k :: 0 <= k < |head| && head[k] == CR ==> k == |e| && head[k + 2] != CR
  {
  }
}
