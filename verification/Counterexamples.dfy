/** Concrete inputs on which the code does less than its comments or its header fields say. The exact
    conditions are proved beside the functions; here is one failing input for each. */
module Counterexamples {
  import opened Bytes
  import opened Numbers
  import opened Messages
  import opened Reading
  import opened Answers
  import Requests
  import Responses
  import Wire

  /** Content-Length one above the one byte that is left: accepted, and the body ends with a byte of fresh memory. */
  lemma LengthOneAbove(uninit: byte)
    ensures Wire.ParseBody(Ascii("x"), 0, map[Wire.CONTENT_LENGTH := Ascii("2")], [], uninit) ==
            Wire.Body(Ascii("x") + [uninit])
  {
    assert Ascii("2") == Decimal(2);
    AtoiReadsDecimal(2);
  }

  /** Content-Length one below the two bytes that are left: the copy leaves its allocation. */
  lemma LengthOneBelow(uninit: byte)
    ensures Wire.ParseBody(Ascii("xy"), 0, map[Wire.CONTENT_LENGTH := Ascii("1")], [], uninit) ==
            Wire.BodyFault(Undefined)
  {
    assert Ascii("1") == Decimal(1);
    AtoiReadsDecimal(1);
  }

  /** Between two line feeds stands a blank line, and `getLine` takes it along: the header block that it
      should end goes on, and the line of the body behind it becomes a header. */
  lemma BlankLineIsSwallowed()
    ensures Wire.GetLine([97, COLON, 98, LF, LF, 99, COLON, 100, LF], 0) == ([97, COLON, 98], 5)
    ensures Wire.ParseHeaders([97, COLON, 98, LF, LF, 99, COLON, 100, LF], 0, map[]) ==
            Ok((map[[97] := [98], [99] := [100]], 9))
  {
    hide Wire.GetLine, Wire.ParseHeaders, Wire.SplitHeader;
    var s: bytes := [97, COLON, 98, LF, LF, 99, COLON, 100, LF];
    assert At(s, 0, [97, COLON, 98] + [LF]) && At(s, 5, [99, COLON, 100] + [LF]);
    Wire.GetLineConsumes(s, 0, [97, COLON, 98], LF);
    Wire.GetLineConsumes(s, 5, [99, COLON, 100], LF);
    ParseOneHeader(s, 0, map[], 97, 98, 5);
    ParseOneHeader(s, 5, map[[97] := [98]], 99, 100, 9);
    assert Wire.GetLine(s, 9) == ([], 9) && Wire.ParseHeaders(s, 9, map[[97] := [98], [99] := [100]]) ==
        Ok((map[[97] := [98], [99] := [100]], 9)) by {
      NothingLeft(s, map[[97] := [98], [99] := [100]]);
    }
  }

  lemma NothingLeft(s: bytes, h: Headers)
    ensures Wire.GetLine(s, |s|) == ([], |s|) && Wire.ParseHeaders(s, |s|, h) == Ok((h, |s|))
  {
  }

  lemma ParseOneHeader(s: bytes, p: nat, h: Headers, k: byte, v: byte, q: nat)
    requires Wire.GetLine(s, p) == ([k, COLON, v], q) && p < q && [k] !in h
    requires k != COLON && v != SPACE && v != COMMA
    ensures Wire.ParseHeaders(s, p, h) == Wire.ParseHeaders(s, q, h[[k] := [v]])
  {
    hide Wire.GetLine, Wire.SplitHeader;
    assert [k] + [COLON] + Wire.Spaces(0) + [v] == [k, COLON, v];
    Wire.HeaderSplits([k], 0, [v]);
  }

  /** A request may announce its length as "9", a NUL: the answer that quotes it ends there, and zeros follow. */
  lemma NulCutsAnswer(uninit: byte)
    ensures Wire.ParseBody([], 0, map[Wire.CONTENT_LENGTH := [57, NUL]], [], uninit) ==
            Wire.TooLong(Wire.TooLongError([57, NUL], 0))
    ensures var msg := Wire.TooLongError([57, NUL], 0);
            var a := StatusAnswer(Responses.BAD_REQUEST, msg);
            a.Send? && a.response.data != Ascii("Bad Request") + Ascii(": ") + msg
  {
    assert Atoi([57, NUL]) == Some(9) by {
      var text: bytes := [57, NUL];
      assert text[1..] == [NUL] && DigitsValue([NUL], 9) == 9 && DigitsValue(text, 0) == 9;
    }
    var msg := Wire.TooLongError([57, NUL], 0);
    var body := Ascii("Bad Request") + Ascii(": ") + msg;
    QuotedLength(body, [57, NUL], Decimal(0) + Ascii(")"));
    PaddedCopyExactly(body);
  }

  lemma QuotedLength(body: bytes, length: bytes, end: bytes)
    requires body == Ascii("Bad Request") + Ascii(": ") +
                     (Ascii("Content-Length (") + length + Ascii(") is greater than remaining bytes (") + end)
    requires length != [] && length[|length| - 1] == NUL
    ensures !NulsLast(body)
  {
    var start := Ascii("Bad Request") + Ascii(": ") + Ascii("Content-Length (");
    var rest := Ascii(") is greater than remaining bytes (") + end;
    var n := |start| + |length|;
    assert rest[0] == 41;
    assert body == start + length + rest;
    assert body[n - 1] == NUL && body[n] == 41;
  }

  // ----- a client that sends its body at once -----

  const LINE := Wire.StartLine(Ascii("POST"), Ascii("/"), DEFAULT_VERSION)
  const EXPECT_LINE := Wire.HeaderLine(Ascii("Expect"), Ascii("100-continue"))
  const LENGTH_LINE := Wire.HeaderLine(Wire.CONTENT_LENGTH, Ascii("1"))

  /** A request that announces Expect and a body of one byte. */
  const EXPECTING := LINE + (EXPECT_LINE + CRLF + (LENGTH_LINE + CRLF + CRLF))
  const FIELDS := Requests.Request(Requests.POST, Ascii("/"), DEFAULT_VERSION,
                    map[Ascii("Expect") := Ascii("100-continue"), Wire.CONTENT_LENGTH := Ascii("1")], [])

  lemma LineIsText()
    ensures LINE == Wire.StartLine(Requests.MethodName(Requests.POST), Ascii("/"), DEFAULT_VERSION)
    ensures |LINE| == 17 && Free(LINE, Stops(NUL, NUL))
    ensures Free(Ascii("/"), Stops(SPACE, NUL)) && Free(DEFAULT_VERSION, EOL)
  {
    hide Wire.StartLine;
    Wire.StartLineText(Ascii("POST"), Ascii("/"), DEFAULT_VERSION);
  }

  lemma ExpectLineIsText()
    ensures EXPECT_LINE == EXPECT && |EXPECT_LINE| == 20 && Free(EXPECT_LINE, Stops(NUL, NUL))
    ensures Wire.IsKey(Ascii("Expect")) && Wire.IsValue(Ascii("100-continue"))
  {
  }

  lemma LengthLineIsText()
    ensures |LENGTH_LINE| == 17 && Free(LENGTH_LINE, Stops(NUL, NUL))
    ensures Wire.IsKey(Wire.CONTENT_LENGTH) && Wire.IsValue(Ascii("1"))
    ensures Ascii("Expect") != Wire.CONTENT_LENGTH && Atoi(Ascii("1")) == Some(1)
  {
    assert |Ascii("Expect")| == 6 && |Wire.CONTENT_LENGTH| == 14;
    assert Ascii("1") == Decimal(1);
    AtoiReadsDecimal(1);
  }

  lemma UnbrokenLine(a: bytes, block: seq<seq<bytes>>)
    requires Wire.IsBroken([a]) && Wire.IsBlock(block)
    ensures Wire.IsBlock([[a]] + block) && Wire.Lines([[a]] + block) == [a] + Wire.Lines(block)
    ensures Wire.BlockText([[a]] + block) == a + CRLF + Wire.BlockText(block)
  {
    hide Wire.IsBroken;
    assert ([[a]] + block)[1..] == block && [a][1..] == [];
    assert Wire.Join([a]) == a + [] == a && Wire.PiecesText([a]) == a + CRLF + [] == a + CRLF;
    assert ([[a]] + block)[0] == [a];
  }

  lemma BlockOfTwo(a: bytes, b: bytes)
    requires Wire.IsBroken([a]) && Wire.IsBroken([b])
    ensures Wire.IsBlock([[a], [b]]) && Wire.Lines([[a], [b]]) == [a, b]
    ensures Wire.BlockText([[a], [b]]) == a + CRLF + (b + CRLF + CRLF)
  {
    UnbrokenLine(b, []);
    UnbrokenLine(a, [[b]]);
    assert [[b]] + [] == [[b]] && [[a]] + [[b]] == [[a], [b]];
  }

  lemma AddTwo(a: bytes, b: bytes, k: bytes, v: bytes, l: bytes, w: bytes)
    requires k != l && Wire.SplitHeader(a) == Ok(Some((k, v))) && Wire.SplitHeader(b) == Ok(Some((l, w)))
    ensures Wire.AddLines(map[], [a, b]) == Ok(map[k := v, l := w])
  {
    hide Wire.SplitHeader;
    assert [a, b][1..] == [b] && [b][1..] == [];
    var one := map[k := v];
    assert map[][k := v] == one && one[l := w] == map[k := v, l := w];
    assert Wire.AddLine(map[], a) == Ok(one) && Wire.AddLine(one, b) == Ok(one[l := w]);
    assert Wire.AddLines(one, [b]) == Ok(one[l := w]);
  }

  lemma ExpectingIsExpecting(body: bytes)
    requires |body| == 1
    ensures IsExpecting(EXPECTING, FIELDS, body)
  {
    hide Wire.IsBroken, Wire.IsBlock, Wire.AddLines, Wire.Lines, Wire.BlockText, Wire.SplitHeader, Wire.StartLine, Wire.HeaderLine,
      Atoi, LINE, EXPECT_LINE, LENGTH_LINE, EXPECT, Requests.MethodName, Wire.IsKey, Wire.IsValue, Ascii, Free, Contains;
    LineIsText();
    ExpectLineIsText();
    LengthLineIsText();
    SplitTwo();
    BlockOfTwo(EXPECT_LINE, LENGTH_LINE);
    AddTwo(EXPECT_LINE, LENGTH_LINE, Ascii("Expect"), Ascii("100-continue"), Wire.CONTENT_LENGTH, Ascii("1"));
    FreeOfNul();
    assert Contains(EXPECTING, EXPECT) by {
      Layout(LINE, EXPECT_LINE, CRLF + (LENGTH_LINE + CRLF + CRLF));
      Associative(EXPECT_LINE, CRLF, LENGTH_LINE + CRLF + CRLF);
      HeldAt(EXPECTING, |LINE|, EXPECT);
    }
  }

  lemma HeldAt(s: bytes, i: nat, w: bytes)
    requires At(s, i, w)
    ensures Contains(s, w)
  {
  }

  lemma SplitTwo()
    ensures Wire.IsBroken([EXPECT_LINE]) && Wire.SplitHeader(EXPECT_LINE) == Ok(Some((Ascii("Expect"), Ascii("100-continue"))))
    ensures Wire.IsBroken([LENGTH_LINE]) && Wire.SplitHeader(LENGTH_LINE) == Ok(Some((Wire.CONTENT_LENGTH, Ascii("1"))))
  {
    hide Wire.IsBroken, Wire.SplitHeader;
    ExpectLineIsText();
    LengthLineIsText();
    Wire.HeaderLineSplits(Ascii("Expect"), Ascii("100-continue"));
    Wire.HeaderLineSplits(Wire.CONTENT_LENGTH, Ascii("1"));
  }

  lemma FreeOfNul()
    ensures Free(EXPECTING, Stops(NUL, NUL))
  {
    LineIsText();
    ExpectLineIsText();
    LengthLineIsText();
    hide LINE, EXPECT_LINE, LENGTH_LINE;
    FreeAppend(LENGTH_LINE, CRLF, Stops(NUL, NUL));
    FreeAppend(LENGTH_LINE + CRLF, CRLF, Stops(NUL, NUL));
    FreeAppend(EXPECT_LINE, CRLF, Stops(NUL, NUL));
    FreeAppend(EXPECT_LINE + CRLF, LENGTH_LINE + CRLF + CRLF, Stops(NUL, NUL));
    FreeAppend(LINE, EXPECT_LINE + CRLF + (LENGTH_LINE + CRLF + CRLF), Stops(NUL, NUL));
  }

  /** The one byte of the body arrives with the head: the server waits for ever. It arrives later: the
      message is read. */
  lemma BodyWithHeadHangs(x: byte, uninit: byte)
    ensures ReadRequest(Received(EXPECTING + [x]), [], uninit) == Waiting
    ensures ReadRequest(Received(EXPECTING), [Received([x])], uninit) ==
            Complete(EXPECTING + [x])
  {
    hide IsExpecting, ReadRequest, EXPECTING, FIELDS;
    ExpectingIsExpecting([x]);
    Arriving(x);
    assert EXPECTING + [] == EXPECTING;
    ExpectedBodyIsRead(EXPECTING, FIELDS, [x], [], uninit);
    FragmentationExactly(EXPECTING, FIELDS, [], [[x]], uninit);
  }

  lemma Arriving(x: byte)
    ensures Concat([]) == [] && Concat([[x]]) == [x] && [x] + [] == [x] && [] + [x] == [x]
    ensures Arrivals([]) == [] && Arrivals([[x]]) == [Received([x])] && NulsLast([x])
  {
    assert [[x]][1..] == [] && Concat([]) == [] && Arrivals([]) == [];
    assert [Received([x])] + [] == [Received([x])];
  }
}
