/** The line, token, header and body reader and writer that requests and responses share. A
    message owns the byte buffer it reads from and prints into. */
module Messages {
  import opened Bytes
  import opened Numbers
  import opened KeyOrders
  import opened ByteBuffers
  import Wire

  type Headers = Wire.Headers

  const DEFAULT_VERSION := Ascii("HTTP/1.1")

  /** How a call of `parse` ends. */
  datatype Verdict = Accept | Reject | Crash(fault: Fault)

  /** What a `parse` leaves behind: the parsed fields, the error text of a rejected message, or nothing. */
  datatype Outcome<+T> = Accepted(value: T) | Rejected(error: bytes, value: T) | Crashed(fault: Fault)

  /** `parseHeaders` from the point where the line `piece` has been read. */
  function FromPiece(s: bytes, p: nat, h: Headers, piece: bytes): Result<(Headers, nat)> {
    if piece == [] then Ok((h, p))
    else
      match Wire.LogicalLine(s, p, piece, piece)
      case Err(f) => Err(f)
      case Ok((line, q)) =>
        match Wire.AddLine(h, line)
        case Err(f) => Err(f)
        case Ok(h') => Wire.ParseHeaders(s, q, h')
  }

  /** One turn of the printing loop: the least key left comes first in the text left. */
  lemma NextHeader(h: Headers, todo: set<bytes>, k: bytes, before: bytes)
    requires todo <= h.Keys && IsLeast(k, todo)
    requires forall x :: x in KeyOrder(todo) ==> x in h
    ensures forall x :: x in KeyOrder(todo - {k}) ==> x in h
    ensures before + Wire.HeaderText(h, KeyOrder(todo)) ==
            before + (Wire.HeaderLine(k, h[k]) + CRLF) + Wire.HeaderText(h, KeyOrder(todo - {k}))
  {
    KeyOrderStep(todo, k);
    KeyOrderAscends(todo - {k});
    var line, rest := Wire.HeaderLine(k, h[k]) + CRLF, Wire.HeaderText(h, KeyOrder(todo - {k}));
    assert KeyOrder(todo)[1..] == KeyOrder(todo - {k});
    assert before + (line + rest) == before + line + rest;
  }

  class HTTPMessage {
    const buffer: ByteBuffer
    var headers: Headers
    var parseErrorStr: bytes
    var version: bytes
    var data: bytes

    ghost predicate Fresh()
      reads this
    {
      headers == map[] && parseErrorStr == [] && version == DEFAULT_VERSION && data == []
    }

    constructor ()
      ensures fresh(buffer) && buffer.State() == BufferState([], 0, 0)
      ensures Fresh()
    {
      buffer := new ByteBuffer();
      headers, parseErrorStr, version, data := map[], [], DEFAULT_VERSION, [];
    }

    constructor Receive(pData: array<byte>, len: nat)
      requires len <= pData.Length
      ensures fresh(buffer) && buffer.State() == BufferState(pData[..len], 0, len)
      ensures Fresh()
    {
      buffer := new ByteBuffer.Consume(pData, len);
      headers, parseErrorStr, version, data := map[], [], DEFAULT_VERSION, [];
    }

    // ----- printing -----

    method PutLine(str: bytes, crlfEnd: bool)
      modifies buffer`buf, buffer`wpos
      ensures var line := if crlfEnd then str + CRLF else str;
              buffer.buf == Overwrite(old(buffer.buf), old(buffer.wpos), line) &&
              buffer.wpos == old(buffer.wpos) + |line|
    {
      var line := if crlfEnd then str + CRLF else str;
      buffer.PutBytes(line);
    }

    /** Writes every header in key order and a blank line at the write cursor. */
    method PutHeaders()
      modifies buffer`buf, buffer`wpos
      ensures var text := Wire.PrintedHeaders(headers);
              buffer.buf == Overwrite(old(buffer.buf), old(buffer.wpos), text) &&
              buffer.wpos == old(buffer.wpos) + |text|
    {
      hide Overwrite, IsLeast, KeyOrder, Wire.HeaderLine;
      ghost var was, w, written := buffer.buf, buffer.wpos, [];
      NothingWritten(was, w, []);
      var todo := headers.Keys;
      KeyOrderAscends(todo);
      while todo != {}
        invariant todo <= headers.Keys
        invariant buffer.buf == Overwrite(was, w, written) && buffer.wpos == w + |written|
        invariant forall k :: k in KeyOrder(todo) ==> k in headers
        invariant written + Wire.HeaderText(headers, KeyOrder(todo)) ==
                  Wire.HeaderText(headers, KeyOrder(headers.Keys))
        decreases |todo|
      {
        var it := NextKey(todo);
        NextHeader(headers, todo, it, written);
        var final := Wire.HeaderLine(it, headers[it]);
        OverwriteTwice(was, w, written, final + CRLF);
        PutLine(final, true);
        written := written + (final + CRLF);
        todo := todo - {it};
      }
      KeyOrderEmpty();
      assert written + [] == written && [] + CRLF == CRLF;
      OverwriteTwice(was, w, written, CRLF);
      PutLine([], true);
    }

    /** The part `create` has in common for requests and responses: clears the buffer, prints the
        first line, the headers and the data, and returns a copy of the buffer. */
    method Print(line: bytes) returns (ret: array<byte>)
      modifies buffer
      ensures fresh(ret) && ret[..] == line + CRLF + (Wire.PrintedHeaders(headers) + data)
      ensures buffer.State() == BufferState(ret[..], ret.Length, ret.Length)
    {
      hide Overwrite, Wire.PrintedHeaders;
      buffer.Clear();
      ghost var first, head := line + CRLF, Wire.PrintedHeaders(headers);
      OverwriteAtEnd([], first);
      assert [] + first == first;
      PutLine(line, true);
      OverwriteAtEnd(first, head);
      PutHeaders();
      OverwriteAtEnd(first + head, data);
      PutData();
      Associative(first, head, data);
      ret := new byte[|buffer.buf|];
      buffer.rpos := 0;
      buffer.GetBytes(ret, |buffer.buf|);
      assert ret[..] == buffer.buf;
    }

    /** Writes the data, if there is any, at the write cursor. */
    method PutData()
      modifies buffer`buf, buffer`wpos
      ensures buffer.buf == Overwrite(old(buffer.buf), old(buffer.wpos), data)
      ensures buffer.wpos == old(buffer.wpos) + |data|
    {
      if |data| > 0 {
        buffer.PutBytes(data);
      }
    }

    /** The key a map iterator is at when the keys `todo` are still to come. */
    method NextKey(todo: set<bytes>) returns (it: bytes)
      requires todo != {}
      ensures it in todo && IsLeast(it, todo)
    {
      LeastExists(todo);
      it :| IsLeast(it, todo);
    }

    // ----- reading lines and tokens -----

    method GetLine() returns (ret: bytes)
      modifies buffer`rpos
      ensures (ret, buffer.rpos) == Wire.GetLine(buffer.buf, old(buffer.rpos))
    {
      ret := [];
      var startPos := buffer.rpos;
      var newLineReached := false;
      var i := startPos;
      while i < |buffer.buf|
        invariant startPos <= i && (i <= |buffer.buf| || i == startPos)
        invariant buffer.rpos == i
        invariant i <= |buffer.buf| ==> ret == buffer.buf[startPos..i]
        invariant i <= |buffer.buf| ==> forall j :: startPos <= j < i ==> !EOL.Has(buffer.buf[j])
      {
        var c := buffer.Peek();
        if c == 13 || c == 10 {
          newLineReached := true;
          break;
        }
        c := buffer.Get();
        ret := ret + [c];
        i := i + 1;
      }
      if !newLineReached {
        buffer.rpos := startPos;
        ret := [];
        if startPos <= |buffer.buf| {
          assert FirstIn(buffer.buf, startPos, EOL) == |buffer.buf|;
          Wire.ScanLineEnds(buffer.buf, startPos, startPos);
        }
        return;
      }
      ghost var e := i;
      assert FirstIn(buffer.buf, startPos, EOL) == e;
      Wire.ScanLineEnds(buffer.buf, startPos, startPos);
      var k := 0;
      i := buffer.rpos;
      while i < |buffer.buf|
        invariant e <= i <= |buffer.buf| && k == i - e <= 2 && buffer.rpos == i
        invariant forall j :: e <= j < i ==> EOL.Has(buffer.buf[j])
      {
        if k >= 2 {
          break;
        }
        k := k + 1;
        var c := buffer.Get();
        if c != 13 && c != 10 {
          buffer.rpos := buffer.rpos - 1;
          break;
        }
        i := i + 1;
      }
    }

    method GetStrElement(delim: byte) returns (ret: bytes)
      modifies buffer`rpos
      ensures (ret, buffer.rpos) == Wire.Token(buffer.buf, old(buffer.rpos), delim)
    {
      var startPos := buffer.rpos;
      if startPos <= |buffer.buf| {
        Wire.ScanTokenEnds(buffer.buf, startPos, startPos, delim);
      }
      var endPos := buffer.FindByte(delim, startPos);
      if endPos == -1 {
        return [];
      }
      var size := endPos + 1 - startPos;
      var str := new byte[size];
      buffer.GetBytes(str, size);
      str[size - 1] := 0;
      ret := CString(str[..]);
      buffer.rpos := endPos + 1;
      assert str[..size - 1] == buffer.buf[startPos..endPos];
      assert FirstIn(str[..], 0, Stops(NUL, NUL)) == size - 1;
    }

    // ----- the header map -----

    /** `addHeader(key, value)`. */
    method AddHeader(key: bytes, value: bytes)
      modifies this`headers
      ensures headers == Wire.InsertHeader(old(headers), key, value)
      ensures headers == if key in old(headers) then old(headers) else old(headers)[key := value]
    {
      if key !in headers {
        headers := headers[key := value];
      }
    }

    /** `addHeader(key, value)` for an `int` value. */
    method AddHeaderInt(key: bytes, value: int)
      modifies this`headers
      ensures headers == Wire.InsertHeader(old(headers), key, DecimalInt(value))
    {
      AddHeader(key, DecimalInt(value));
    }

    /** `addHeader(line)`: splits "Header: value" and drops the spaces before the value. */
    method AddHeaderLine(line: bytes) returns (fault: Option<Fault>)
      modifies this`headers
      ensures match Wire.AddLine(old(headers), line)
              case Err(f) => fault == Some(f)
              case Ok(h) => fault == None && headers == h
    {
      var kpos := FirstIn(line, 0, Stops(COLON, COLON));
      if kpos == |line| {
        return None;
      }
      var key := line[..kpos];
      var value := line[kpos + 1..];
      var i := 0;
      while true
        invariant i <= |value| && forall j :: 0 <= j < i ==> value[j] == SPACE
        decreases |value| - i
      {
        if i >= |value| {
          return Some(OutOfRange);
        }
        if value[i] != SPACE {
          break;
        }
        i := i + 1;
      }
      assert FirstOther(value, SPACE) == i;
      AddHeader(key, value[i..]);
      return None;
    }

    method GetHeaderValue(key: bytes) returns (value: bytes)
      ensures value == Wire.HeaderValue(headers, key) == if key in headers then headers[key] else []
    {
      if key !in headers {
        return [];
      }
      return headers[key];
    }

    method ClearHeaders()
      modifies this`headers
      ensures headers == map[]
    {
      headers := map[];
    }

    // ----- reading header blocks and bodies -----

    method ParseHeaders() returns (fault: Option<Fault>)
      modifies this`headers, buffer`rpos
      ensures old(buffer.rpos) <= |buffer.buf| ==> buffer.rpos <= |buffer.buf|
      ensures match Wire.ParseHeaders(buffer.buf, old(buffer.rpos), old(headers))
              case Err(f) => fault == Some(f)
              case Ok((h, p)) => fault == None && headers == h && buffer.rpos == p
    {
      hide Wire.GetLine, Wire.AddLine;
      ghost var goal := Wire.ParseHeaders(buffer.buf, buffer.rpos, headers);
      var hline := GetLine();
      while |hline| > 0
        invariant hline != [] || old(buffer.rpos) <= |buffer.buf| ==> buffer.rpos <= |buffer.buf|
        invariant goal == FromPiece(buffer.buf, buffer.rpos, headers, hline)
        decreases |buffer.buf| - buffer.rpos, |hline|
      {
        var app := hline;
        ghost var first := Wire.LogicalLine(buffer.buf, buffer.rpos, app, hline);
        ghost var from := buffer.rpos;
        while true
          invariant from <= buffer.rpos <= |buffer.buf|
          invariant first == Wire.LogicalLine(buffer.buf, buffer.rpos, app, hline)
          modifies buffer`rpos
          decreases |buffer.buf| - buffer.rpos, |app|
        {
          if app == [] {
            return Some(Undefined);
          }
          if app[|app| - 1] != COMMA {
            break;
          }
          app := GetLine();
          hline := hline + app;
        }
        fault := AddHeaderLine(hline);
        if fault.Some? {
          return;
        }
        assert goal == Wire.ParseHeaders(buffer.buf, buffer.rpos, headers);
        hline := GetLine();
      }
      fault := None;
    }

    /** The copy loop writes one byte for every byte left, into an allocation of Content-Length bytes. */
    method ParseBody(uninit: byte) returns (verdict: Verdict)
      requires |buffer.buf| < INT_MAX
      modifies this`data, this`parseErrorStr
      ensures match Wire.ParseBody(buffer.buf, buffer.rpos, headers, old(data), uninit)
              case Body(d) => verdict == Accept && data == d && parseErrorStr == old(parseErrorStr)
              case TooLong(e) => verdict == Reject && parseErrorStr == e && data == old(data)
              case BodyFault(f) => verdict == Crash(f)
    {
      hide Atoi, Wire.TooLongError;
      var hlenstr := GetHeaderValue(Wire.CONTENT_LENGTH);
      if hlenstr == [] {
        return Accept;
      }
      var parsed := Atoi(hlenstr);
      if parsed.None? {
        return Crash(Undefined);
      }
      var contentLen: nat := ToUnsigned(parsed.value);
      var remaining := buffer.BytesRemaining();
      if contentLen > (remaining + 1) % UINT_RANGE {
        parseErrorStr := Wire.TooLongError(hlenstr, remaining);
        return Reject;
      }
      var copy := CopyRest(contentLen, uninit);
      if copy.None? {
        return Crash(Undefined);
      }
      data := copy.value;
      return Accept;
    }

    /** The copy loop of `parseBody`; None when it writes behind its allocation. */
    method CopyRest(contentLen: nat, uninit: byte) returns (r: Option<bytes>)
      ensures r.None? <==> contentLen < |buffer.buf| - buffer.rpos
      ensures r.Some? ==> |r.value| == contentLen
      ensures r.Some? ==>
                forall j :: 0 <= j < contentLen ==>
                  r.value[j] == if buffer.rpos + j < |buffer.buf| then buffer.buf[buffer.rpos + j] else uninit
    {
      var d := new byte[contentLen](_ => uninit);
      var dIdx := 0;
      var i := buffer.rpos;
      while i < |buffer.buf|
        invariant dIdx == i - buffer.rpos <= d.Length
        invariant i <= |buffer.buf| || dIdx == 0
        invariant forall j :: 0 <= j < dIdx ==> d[j] == buffer.buf[buffer.rpos + j]
        invariant forall j :: dIdx <= j < d.Length ==> d[j] == uninit
      {
        if dIdx == d.Length {
          return None;
        }
        d[dIdx] := ByteAt(buffer.buf, i);
        dIdx := dIdx + 1;
        i := i + 1;
      }
      return Some(d[..]);
    }
  }
}
