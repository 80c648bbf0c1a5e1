/** The queued text of each answer, byte for byte. */
module AnswerTexts {
  import opened Bytes
  import opened Numbers
  import opened KeyOrders
  import opened Messages
  import opened Clients
  import opened Answers
  import Reading
  import Requests
  import Responses
  import Wire

  /** A printed header. */
  function Field(k: bytes, v: bytes): bytes {
    k + Ascii(": ") + v + Ascii("\r\n")
  }

  lemma ThreeHeaders(h: Headers, a: bytes, b: bytes, c: bytes)
    requires h.Keys == {a, b, c} && Less(a, b) && Less(b, c)
    ensures Wire.PrintedHeaders(h) == Field(a, h[a]) + Field(b, h[b]) + Field(c, h[c]) + Ascii("\r\n")
  {
    hide Ascii, Wire.PrintedHeaders, Less, Wire.HeaderText;
    LessTransitive(a, b, c);
    Wire.PrintedHeadersExactly(h, [a, b, c]);
    Wire.HeaderTextOne(h, a);
    Wire.HeaderTextOne(h, b);
    Wire.HeaderTextOne(h, c);
    assert [a, b] == [a] + [b] && [a, b, c] == [a, b] + [c];
    Wire.HeaderTextAppend(h, [a], [b]);
    Wire.HeaderTextAppend(h, [a, b], [c]);
  }

  lemma TwoHeaders(h: Headers, a: bytes, b: bytes)
    requires h.Keys == {a, b} && Less(a, b)
    ensures Wire.PrintedHeaders(h) == Field(a, h[a]) + Field(b, h[b]) + Ascii("\r\n")
  {
    hide Ascii, Wire.PrintedHeaders, Less, Wire.HeaderText;
    Wire.PrintedHeadersExactly(h, [a, b]);
    Wire.HeaderTextOne(h, a);
    Wire.HeaderTextOne(h, b);
    assert [a, b] == [a] + [b];
    Wire.HeaderTextAppend(h, [a], [b]);
  }

  lemma NamesInOrder()
    ensures Less(ALLOW, CONNECTION) && Less(CONNECTION, Wire.CONTENT_LENGTH)
    ensures Less(Wire.CONTENT_LENGTH, CONTENT_TYPE)
  {
    assert ALLOW[..0] == CONNECTION[..0];
    assert CONNECTION[..3] == Wire.CONTENT_LENGTH[..3];
    assert Wire.CONTENT_LENGTH[..8] == CONTENT_TYPE[..8];
    assert Precedes(ALLOW, CONNECTION) && Precedes(CONNECTION, Wire.CONTENT_LENGTH) && Precedes(Wire.CONTENT_LENGTH, CONTENT_TYPE);
    LessExactly(ALLOW, CONNECTION);
    LessExactly(CONNECTION, Wire.CONTENT_LENGTH);
    LessExactly(Wire.CONTENT_LENGTH, CONTENT_TYPE);
  }

  /** The digits of the three statuses. */
  lemma StatusDigits()
    ensures DecimalInt(200) == Ascii("200") && DecimalInt(400) == Ascii("400") && DecimalInt(501) == Ascii("501")
  {
    assert Decimal(20) == Decimal(2) + [48] && Decimal(40) == Decimal(4) + [48] && Decimal(50) == Decimal(5) + [48];
  }

  /** The status line of an answer. */
  function StatusLine(status: bytes, reason: bytes): bytes {
    Ascii("HTTP/1.1") + Ascii(" ") + status + Ascii(" ") + reason + Ascii("\r\n")
  }

  /** The three headers of an answer that closes the connection, and the blank line. */
  function ClosingHeaders(length: bytes, kind: bytes): bytes {
    Field(Ascii("Connection"), Ascii("close")) + Field(Ascii("Content-Length"), length) +
    Field(Ascii("Content-Type"), kind) + Ascii("\r\n")
  }

  /** The queued list of allowed methods. */
  function MethodListItem(): SendQueueItem {
    SendQueueItem(StatusLine(DecimalInt(200), Ascii("OK")) +
                  (Field(Ascii("Allow"), Ascii("POST, HEAD, GET, OPTIONS, TRACE")) +
                   Field(Ascii("Connection"), Ascii("close")) +
                   Field(Ascii("Content-Length"), Ascii("0")) + Ascii("\r\n")), true)
  }

  /** The queued empty page behind which the connection stays. */
  function EmptyPageItem(): SendQueueItem {
    SendQueueItem(StatusLine(DecimalInt(200), Ascii("OK")) +
                  (Field(Ascii("Content-Length"), Ascii("0")) +
                   Field(Ascii("Content-Type"), Ascii("text/html")) + Ascii("\r\n")), false)
  }

  /** A queued answer that closes the connection: behind the blank line stands its data. */
  function LastItem(status: int, reason: bytes, kind: bytes, data: bytes): SendQueueItem {
    SendQueueItem(StatusLine(DecimalInt(status), reason) + (ClosingHeaders(Decimal(|data|), kind) + data), true)
  }

  lemma MethodListText()
    ensures Item(Send(MethodList(), true)) == MethodListItem()
  {
    hide Less, Wire.PrintedHeaders, Responses.ResponseText, Field, Ascii, DecimalInt;
    var r := MethodList();
    NamesInOrder();
    LessIrreflexive(CONNECTION);
    LessIrreflexive(ALLOW);
    LessTransitive(ALLOW, CONNECTION, Wire.CONTENT_LENGTH);
    NameLiterals();
    ThreeHeaders(r.headers, ALLOW, CONNECTION, Wire.CONTENT_LENGTH);
    Responses.ResponseTextExactly(r);
    assert Wire.PrintedHeaders(r.headers) + [] == Wire.PrintedHeaders(r.headers);
  }

  lemma EmptyPageText()
    ensures Item(Send(EmptyPage(), false)) == EmptyPageItem()
  {
    hide Less, Wire.PrintedHeaders, Responses.ResponseText, Field, Ascii, DecimalInt;
    var r := EmptyPage();
    NamesInOrder();
    LessIrreflexive(Wire.CONTENT_LENGTH);
    NameLiterals();
    TwoHeaders(r.headers, Wire.CONTENT_LENGTH, CONTENT_TYPE);
    Responses.ResponseTextExactly(r);
    assert Wire.PrintedHeaders(r.headers) + [] == Wire.PrintedHeaders(r.headers);
  }

  lemma LastHeadersPrinted(h: Headers, kind: bytes, length: bytes)
    requires h == map[CONTENT_TYPE := kind, Wire.CONTENT_LENGTH := length, CONNECTION := Ascii("close")]
    ensures Wire.PrintedHeaders(h) == ClosingHeaders(length, kind)
  {
    hide Less, Wire.PrintedHeaders, Field, Ascii;
    NamesInOrder();
    LessIrreflexive(CONNECTION);
    LessIrreflexive(Wire.CONTENT_LENGTH);
    LessTransitive(CONNECTION, Wire.CONTENT_LENGTH, CONTENT_TYPE);
    NameLiterals();
    ThreeHeaders(h, CONNECTION, Wire.CONTENT_LENGTH, CONTENT_TYPE);
  }

  lemma LastAnswerText(status: int, reason: bytes, kind: bytes, data: bytes)
    ensures Item(Send(LastAnswer(status, reason, kind, data), true)) == LastItem(status, reason, kind, data)
  {
    hide Wire.PrintedHeaders, Responses.ResponseText, ClosingHeaders, Ascii, DecimalInt, Decimal;
    var r := LastAnswer(status, reason, kind, data);
    NameLiterals();
    LastHeadersPrinted(r.headers, kind, Decimal(|data|));
    Responses.ResponseTextExactly(r);
  }
}
