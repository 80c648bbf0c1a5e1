/** The message format: how lines, tokens, header blocks and bodies are read out of a byte
    string, how they are printed, and why reading undoes printing. The methods of `HTTPMessage`
    are proved equal to the reading functions; the grammar below describes CRLF-framed header blocks. */
module Wire {
  import opened Bytes
  import opened Numbers
  import opened KeyOrders

  type Headers = map<bytes, bytes>

  const CONTENT_LENGTH := Ascii("Content-Length")

  // ----- reading -----

  /** The scan for the end of a line that began at `start`, from i on. */
  function ScanLine(s: bytes, start: nat, i: nat): (r: (bytes, nat))
    requires start <= i && forall j :: start <= j < i && j < |s| ==> !EOL.Has(s[j])
    ensures start <= r.1 && (start <= |s| ==> r.1 <= |s|)
    ensures r.0 != [] ==> start + |r.0| < r.1 <= |s|
    ensures Free(r.0, EOL)
    decreases |s| - i
  {
    if i >= |s| then ([], start)
    else if !EOL.Has(s[i]) then ScanLine(s, start, i + 1)
    else (s[start..i], if i + 1 < |s| && EOL.Has(s[i + 1]) then i + 2 else i + 1)
  }

  /** `getLine`: the line from p on and the cursor behind it. At most two terminator bytes are
      skipped; without a terminator the cursor stays. */
  function GetLine(s: bytes, p: nat): (r: (bytes, nat))
    ensures p <= r.1 && (p <= |s| ==> r.1 <= |s|)
    ensures r.0 != [] ==> p + |r.0| < r.1 <= |s|
    ensures Free(r.0, EOL)
  {
    ScanLine(s, p, p)
  }

  /** The scan for the end of a token that began at `start`, from i on. */
  function ScanToken(s: bytes, start: nat, i: nat, delim: byte): (r: (bytes, nat))
    requires start <= i && forall j :: start <= j < i && j < |s| ==> !Stops(delim, NUL).Has(s[j])
    ensures start <= r.1 && (start <= |s| ==> r.1 <= |s|)
    ensures Free(r.0, Stops(delim, NUL))
    decreases |s| - i
  {
    if i >= |s| then ([], start)
    else if s[i] == delim then (s[start..i], i + 1)
    else if s[i] == NUL then ([], start)
    else ScanToken(s, start, i + 1, delim)
  }

  /** `getStrElement`: the bytes before the next delimiter, unless a NUL or the end comes first. */
  function Token(s: bytes, p: nat, delim: byte): (r: (bytes, nat))
    ensures p <= r.1 && (p <= |s| ==> r.1 <= |s|)
    ensures Free(r.0, Stops(delim, NUL))
  {
    ScanToken(s, p, p, delim)
  }

  /** The line ends where the first terminator is. */
  lemma {:induction false} ScanLineEnds(s: bytes, start: nat, i: nat)
    requires start <= i <= |s| && forall j :: start <= j < i ==> !EOL.Has(s[j])
    ensures var e := FirstIn(s, i, EOL);
            ScanLine(s, start, i) ==
            if e == |s| then ([], start)
            else (s[start..e], if e + 1 < |s| && EOL.Has(s[e + 1]) then e + 2 else e + 1)
    decreases |s| - i
  {
    if i < |s| && !EOL.Has(s[i]) {
      ScanLineEnds(s, start, i + 1);
    }
  }

  /** The token ends where the first delimiter or NUL is. */
  lemma {:induction false} ScanTokenEnds(s: bytes, start: nat, i: nat, delim: byte)
    requires start <= i <= |s| && forall j :: start <= j < i ==> !Stops(delim, NUL).Has(s[j])
    ensures var e := FirstIn(s, i, Stops(delim, NUL));
            ScanToken(s, start, i, delim) ==
            if e < |s| && s[e] == delim then (s[start..e], e + 1) else ([], start)
    decreases |s| - i
  {
    if i < |s| && !Stops(delim, NUL).Has(s[i]) {
      ScanTokenEnds(s, start, i + 1, delim);
    }
  }

  /** The rest of a header line whose last piece `app` may ask for a continuation. */
  function LogicalLine(s: bytes, p: nat, app: bytes, line: bytes): (r: Result<(bytes, nat)>)
    ensures r.Ok? ==> p <= r.value.1 && (p <= |s| ==> r.value.1 <= |s|)
    decreases if p <= |s| then |s| - p else 0, |app|
  {
    if app == [] then Err(Undefined)
    else if app[|app| - 1] != COMMA then Ok((line, p))
    else
      var (next, q) := GetLine(s, p);
      LogicalLine(s, q, next, line + next)
  }

  /** `addHeader(line)`: None for a line without a colon; a blank value runs off its end. */
  function SplitHeader(line: bytes): Result<Option<(bytes, bytes)>> {
    var c := FirstIn(line, 0, Stops(COLON, COLON));
    if c == |line| then Ok(None)
    else
      var value := line[c + 1..];
      var i := FirstOther(value, SPACE);
      if i == |value| then Err(OutOfRange) else Ok(Some((line[..c], value[i..])))
  }

  /** `std::map::insert`: the first value for a key stays. */
  function InsertHeader(h: Headers, k: bytes, v: bytes): Headers {
    if k in h then h else h[k := v]
  }

  function AddLine(h: Headers, line: bytes): Result<Headers> {
    match SplitHeader(line)
    case Err(f) => Err(f)
    case Ok(None) => Ok(h)
    case Ok(Some((k, v))) => Ok(InsertHeader(h, k, v))
  }

  /** `parseHeaders`. */
  function ParseHeaders(s: bytes, p: nat, h: Headers): (r: Result<(Headers, nat)>)
    ensures r.Ok? ==> p <= r.value.1 && (p <= |s| ==> r.value.1 <= |s|)
    decreases if p <= |s| then |s| - p else 0
  {
    var (piece, p1) := GetLine(s, p);
    if piece == [] then Ok((h, p1))
    else
      match LogicalLine(s, p1, piece, piece)
      case Err(f) => Err(f)
      case Ok((line, p2)) =>
        match AddLine(h, line)
        case Err(f) => Err(f)
        case Ok(h') => ParseHeaders(s, p2, h')
  }

  function HeaderValue(h: Headers, k: bytes): bytes {
    if k in h then h[k] else []
  }

  datatype Body = Body(data: bytes) | TooLong(error: bytes) | BodyFault(fault: Fault)

  function TooLongError(length: bytes, remaining: nat): bytes {
    Ascii("Content-Length (") + length + Ascii(") is greater than remaining bytes (") + Decimal(remaining) + Ascii(")")
  }

  lemma TooLongErrorLength(length: bytes, remaining: nat)
    ensures |TooLongError(length, remaining)| == |length| + |Decimal(remaining)| + 52
  {
  }

  /** The body when the cursor is behind the end: what remains wraps, and nothing is copied. */
  function BodyPastEnd(length: bytes, n: int, remaining: nat, uninit: byte): Body
    requires INT_MIN <= n <= INT_MAX
  {
    if ToUnsigned(n) > (remaining + 1) % UINT_RANGE then TooLong(TooLongError(length, remaining))
    else Body(seq(ToUnsigned(n), _ => uninit))
  }

  /** `parseBody`: everything from p on is copied into an allocation of Content-Length bytes. A
      length one larger than the rest is admitted, and leaves one byte of fresh memory as it was;
      a smaller one is overrun. */
  function ParseBody(s: bytes, p: nat, h: Headers, before: bytes, uninit: byte): Body {
    var length := HeaderValue(h, CONTENT_LENGTH);
    if length == [] then Body(before)
    else
      match Atoi(length)
      case None => BodyFault(Undefined)
      case Some(n) =>
        if p > |s| then BodyPastEnd(length, n, (|s| - p) % UINT_RANGE, uninit)
        else if n < 0 || n > |s| - p + 1 then TooLong(TooLongError(length, |s| - p))
        else if n < |s| - p then BodyFault(Undefined)
        else Body(if n == |s| - p then s[p..] else s[p..] + [uninit])
  }

  // ----- a grammar of header blocks -----

  /** A physical line: not blank, and free of line terminators. */
  predicate IsPiece(x: bytes) {
    x != [] && Free(x, EOL)
  }

  /** A logical line broken into pieces: every piece but the last ends with a comma. */
  predicate IsBroken(pieces: seq<bytes>) {
    pieces != [] && IsPiece(pieces[0]) &&
    if |pieces| == 1 then pieces[0][|pieces[0]| - 1] != COMMA
    else pieces[0][|pieces[0]| - 1] == COMMA && IsBroken(pieces[1..])
  }

  function Join(pieces: seq<bytes>): bytes {
    if pieces == [] then [] else pieces[0] + Join(pieces[1..])
  }

  function PiecesText(pieces: seq<bytes>): bytes {
    if pieces == [] then [] else pieces[0] + CRLF + PiecesText(pieces[1..])
  }

  predicate IsBlock(block: seq<seq<bytes>>) {
    block == [] || (IsBroken(block[0]) && IsBlock(block[1..]))
  }

  /** The text of a header block, with the blank line that ends it. */
  function BlockText(block: seq<seq<bytes>>): bytes {
    if block == [] then CRLF else PiecesText(block[0]) + BlockText(block[1..])
  }

  function Lines(block: seq<seq<bytes>>): seq<bytes> {
    if block == [] then [] else [Join(block[0])] + Lines(block[1..])
  }

  /** The lines added to the map one after the other. */
  function AddLines(h: Headers, lines: seq<bytes>): Result<Headers>
    decreases |lines|
  {
    if lines == [] then Ok(h)
    else
      match AddLine(h, lines[0])
      case Err(f) => Err(f)
      case Ok(h') => AddLines(h', lines[1..])
  }

  /** A terminated line is read back. The one byte behind its terminator decides what is left: a
      second terminator byte, even one that stands for a blank line, is consumed too. */
  lemma GetLineConsumes(s: bytes, p: nat, line: bytes, t: byte)
    requires Free(line, EOL) && EOL.Has(t) && At(s, p, line + [t])
    ensures var next := p + |line| + 1;
            GetLine(s, p) == (line, if next < |s| && EOL.Has(s[next]) then next + 1 else next)
  {
    AtSplit(s, p, line, [t]);
    assert s[p + |line|] == s[p + |line|..p + |line| + 1][0] == t;
    FirstInAt(s, p, line, EOL);
    ScanLineEnds(s, p, p);
  }

  /** A line followed by CRLF is read back, and the cursor is left right behind the CRLF, whatever follows. */
  lemma GetLineFrames(s: bytes, p: nat, line: bytes)
    requires Free(line, EOL) && At(s, p, line + CRLF)
    ensures GetLine(s, p) == (line, p + |line| + 2)
  {
    assert line + CRLF == line + [CR] + [LF];
    AtSplit(s, p, line + [CR], [LF]);
    assert s[p + |line| + 1] == s[p + |line| + 1..p + |line| + 2][0] == LF;
    GetLineConsumes(s, p, line, CR);
  }

  /** The cursor stays exactly when no terminator is left, and then nothing is returned. */
  lemma GetLineStays(s: bytes, p: nat)
    requires p <= |s|
    ensures GetLine(s, p).1 == p <==> Free(s[p..], EOL)
    ensures GetLine(s, p).1 == p ==> GetLine(s, p).0 == []
  {
    ScanLineEnds(s, p, p);
  }

  /** A token followed by its delimiter is read back. */
  lemma TokenFrames(s: bytes, p: nat, w: bytes, delim: byte)
    requires Free(w, Stops(delim, NUL)) && At(s, p, w + [delim])
    ensures Token(s, p, delim) == (w, p + |w| + 1)
  {
    AtSplit(s, p, w, [delim]);
    assert s[p + |w|] == s[p + |w|..p + |w| + 1][0] == delim;
    FirstInAt(s, p, w, Stops(delim, NUL));
    ScanTokenEnds(s, p, p, delim);
  }

  // ----- what any bytes are read as -----

  /** From p on stands `line` with its terminator, and q is behind the one or two terminator bytes;
      or there is no terminator, and nothing is read. */
  ghost predicate IsLine(s: bytes, p: nat, line: bytes, q: nat) {
    if p <= |s| && !Free(s[p..], EOL) then
      Free(line, EOL) && At(s, p, line) && p + |line| < |s| && EOL.Has(s[p + |line|]) &&
      q == p + |line| + if p + |line| + 1 < |s| && EOL.Has(s[p + |line| + 1]) then 2 else 1
    else
      line == [] && q == p
  }

  /** `getLine` reads exactly that, from anywhere in any bytes. */
  lemma GetLineExactly(s: bytes, p: nat, line: bytes, q: nat)
    ensures GetLine(s, p) == (line, q) <==> IsLine(s, p, line, q)
  {
    if p <= |s| {
      ScanLineEnds(s, p, p);
      if !Free(s[p..], EOL) {
        var i :| 0 <= i < |s[p..]| && EOL.Has(s[p..][i]);
        assert EOL.Has(s[p + i]);
        if IsLine(s, p, line, q) {
          FirstInAt(s, p, line, EOL);
        }
      }
    }
  }

  /** A delimiter stands at e, and no delimiter or NUL between p and there. */
  predicate Delimits(s: bytes, p: nat, e: nat, delim: byte) {
    p <= e < |s| && s[e] == delim && Free(s[p..e], Stops(delim, NUL))
  }

  /** From p on stands the token w with its delimiter, and q is behind it; or a NUL or the end comes
      before any delimiter, and nothing is read. */
  ghost predicate IsToken(s: bytes, p: nat, delim: byte, w: bytes, q: nat) {
    if exists e :: Delimits(s, p, e, delim) then
      At(s, p, w) && Delimits(s, p, p + |w|, delim) && q == p + |w| + 1
    else
      w == [] && q == p
  }

  lemma DelimitsOnce(s: bytes, p: nat, e: nat, delim: byte)
    requires Delimits(s, p, e, delim)
    ensures FirstIn(s, p, Stops(delim, NUL)) == e
  {
    var w := s[p..e];
    assert At(s, p, w);
    FirstInAt(s, p, w, Stops(delim, NUL));
  }

  lemma {:induction false} TokenExactly(s: bytes, p: nat, delim: byte, w: bytes, q: nat)
    ensures Token(s, p, delim) == (w, q) <==> IsToken(s, p, delim, w, q)
  {
    if p <= |s| {
      ScanTokenEnds(s, p, p, delim);
      var f := FirstIn(s, p, Stops(delim, NUL));
      if f < |s| && s[f] == delim {
        assert Delimits(s, p, f, delim);
      }
      forall e | Delimits(s, p, e, delim)
        ensures e == f
      {
        DelimitsOnce(s, p, e, delim);
      }
    }
  }

  /** The lines stand one behind the other between p and q. */
  ghost predicate AreLines(s: bytes, p: nat, lines: seq<bytes>, q: nat)
    decreases |lines|
  {
    if lines == [] then q == p else exists p1 :: IsLine(s, p, lines[0], p1) && AreLines(s, p1, lines[1..], q)
  }

  /** Pieces that all ask for a continuation. */
  predicate IsOpen(pieces: seq<bytes>) {
    forall i :: 0 <= i < |pieces| ==> pieces[i] != [] && pieces[i][|pieces[i]| - 1] == COMMA
  }

  /** From p on stands a header block, its lines ended in any way, and q is behind the blank line or at
      the end of what can be read. */
  ghost predicate IsRead(s: bytes, p: nat, block: seq<seq<bytes>>, q: nat)
    decreases |block|
  {
    if block == [] then IsLine(s, p, [], q)
    else IsBroken(block[0]) && exists p1 :: AreLines(s, p, block[0], p1) && IsRead(s, p1, block[1..], q)
  }

  /** From p on stands a header block whose last line ends with a comma and has no line behind it. */
  ghost predicate BreaksOff(s: bytes, p: nat, block: seq<seq<bytes>>, last: seq<bytes>)
    decreases |block|
  {
    if block == [] then last != [] && IsOpen(last) && exists q :: AreLines(s, p, last + [[]], q)
    else IsBroken(block[0]) && exists p1 :: AreLines(s, p, block[0], p1) && BreaksOff(s, p1, block[1..], last)
  }

  /** The inner loop joins the pieces of any broken line, and fails on one that breaks off. */
  lemma {:induction false} LogicalLineExactly(s: bytes, p: nat, first: bytes, more: seq<bytes>, q: nat, line: bytes)
    requires AreLines(s, p, more, q)
    ensures IsBroken([first] + more) ==> LogicalLine(s, p, first, line) == Ok((line + Join(more), q))
    ensures more != [] && more[|more| - 1] == [] && IsOpen([first] + more[..|more| - 1]) ==>
              LogicalLine(s, p, first, line) == Err(Undefined)
    decreases |more|
  {
    hide IsLine, GetLine;
    var pieces := [first] + more;
    assert pieces[1..] == more;
    if more == [] {
      assert line + [] == line;
    } else {
      var next, rest := more[0], more[1..];
      var p1 :| IsLine(s, p, next, p1) && AreLines(s, p1, rest, q);
      GetLineExactly(s, p, next, p1);
      assert [next] + rest == more;
      LogicalLineExactly(s, p1, next, rest, q, line + next);
      Associative(line, next, Join(rest));
      if more[|more| - 1] == [] && IsOpen([first] + more[..|more| - 1]) {
        OpenStep(first, more);
      }
    }
  }

  lemma OpenStep(first: bytes, more: seq<bytes>)
    requires more != [] && IsOpen([first] + more[..|more| - 1])
    ensures first != [] && first[|first| - 1] == COMMA
    ensures |more| > 1 ==> IsOpen([more[0]] + more[1..][..|more| - 2])
  {
    var pieces := [first] + more[..|more| - 1];
    assert pieces[0] == first;
    if |more| > 1 {
      assert pieces[1..] == [more[0]] + more[1..][..|more| - 2];
      assert forall i :: 0 <= i < |pieces| - 1 ==> pieces[1..][i] == pieces[i + 1];
    }
  }

  /** One logical line as `parseHeaders` gathers it. */
  lemma AnyLineParses(s: bytes, p: nat, pieces: seq<bytes>, q: nat)
    requires IsBroken(pieces) && AreLines(s, p, pieces, q)
    ensures var (piece, p1) := GetLine(s, p);
            piece == pieces[0] != [] && p < p1 && LogicalLine(s, p1, piece, piece) == Ok((Join(pieces), q))
  {
    hide IsLine, GetLine, LogicalLine;
    var p1 :| IsLine(s, p, pieces[0], p1) && AreLines(s, p1, pieces[1..], q);
    GetLineExactly(s, p, pieces[0], p1);
    assert [pieces[0]] + pieces[1..] == pieces;
    LogicalLineExactly(s, p1, pieces[0], pieces[1..], q, pieces[0]);
  }

  lemma BrokenOffLineFails(s: bytes, p: nat, last: seq<bytes>, q: nat)
    requires last != [] && IsOpen(last) && AreLines(s, p, last + [[]], q)
    ensures var (piece, p1) := GetLine(s, p);
            piece != [] && LogicalLine(s, p1, piece, piece) == Err(Undefined)
  {
    hide IsLine, GetLine, LogicalLine;
    var lines := last + [[]];
    var p1 :| IsLine(s, p, lines[0], p1) && AreLines(s, p1, lines[1..], q);
    GetLineExactly(s, p, lines[0], p1);
    assert lines[1..] == last[1..] + [[]] && lines[0] == last[0];
    assert [last[0]] + (last[1..] + [[]])[..|last| - 1] == last;
    LogicalLineExactly(s, p1, last[0], last[1..] + [[]], q, last[0]);
  }

  /** `parseHeaders` adds the logical lines of a block in their order, whatever ends its lines. */
  lemma {:induction false} AnyBlockParses(s: bytes, p: nat, block: seq<seq<bytes>>, q: nat, h: Headers)
    requires IsRead(s, p, block, q)
    ensures ParseHeaders(s, p, h) ==
            match AddLines(h, Lines(block)) case Err(f) => Err(f) case Ok(h') => Ok((h', q))
    decreases |block|
  {
    hide GetLine, LogicalLine, AddLine, IsBroken, IsLine, AreLines;
    if block == [] {
      GetLineExactly(s, p, [], q);
    } else {
      var p1 :| AreLines(s, p, block[0], p1) && IsRead(s, p1, block[1..], q);
      AnyLineParses(s, p, block[0], p1);
      LinesStep(block);
      match AddLine(h, Join(block[0]))
      case Err(_) =>
      case Ok(h') => AnyBlockParses(s, p1, block[1..], q, h');
    }
  }

  lemma LinesStep(block: seq<seq<bytes>>)
    requires block != []
    ensures Lines(block) != [] && Lines(block)[0] == Join(block[0]) && Lines(block)[1..] == Lines(block[1..])
  {
  }

  /** A block that breaks off ends in undefined behaviour, unless a blank value throws before that. */
  lemma {:induction false} BrokenOffBlockFails(s: bytes, p: nat, block: seq<seq<bytes>>, last: seq<bytes>, h: Headers)
    requires BreaksOff(s, p, block, last)
    ensures ParseHeaders(s, p, h) ==
            match AddLines(h, Lines(block)) case Err(f) => Err(f) case Ok(_) => Err(Undefined)
    decreases |block|
  {
    hide GetLine, LogicalLine, AddLine, IsBroken, IsLine, AreLines, IsOpen;
    if block == [] {
      var q :| AreLines(s, p, last + [[]], q);
      BrokenOffLineFails(s, p, last, q);
    } else {
      var p1 :| AreLines(s, p, block[0], p1) && BreaksOff(s, p1, block[1..], last);
      AnyLineParses(s, p, block[0], p1);
      LinesStep(block);
      match AddLine(h, Join(block[0]))
      case Err(_) =>
      case Ok(h') => BrokenOffBlockFails(s, p1, block[1..], last, h');
    }
  }

  lemma OneMoreLine(s: bytes, p: nat, line: bytes, p1: nat, lines: seq<bytes>, q: nat)
    requires IsLine(s, p, line, p1) && AreLines(s, p1, lines, q)
    ensures AreLines(s, p, [line] + lines, q)
  {
    hide IsLine;
    assert ([line] + lines)[1..] == lines;
  }

  ghost predicate IsGathered(s: bytes, p: nat, pieces: seq<bytes>, q: nat) {
    IsBroken(pieces) && AreLines(s, p, pieces, q)
  }

  ghost predicate IsCutShort(s: bytes, p: nat, last: seq<bytes>, q: nat) {
    last != [] && IsOpen(last) && AreLines(s, p, last + [[]], q)
  }

  lemma {:induction false} EveryLineIsGathered(s: bytes, p: nat)
    requires GetLine(s, p).0 != []
    ensures (exists pieces, q :: IsGathered(s, p, pieces, q) && p < q) || (exists last, q :: IsCutShort(s, p, last, q))
    decreases if p <= |s| then |s| - p else 0
  {
    hide GetLine, IsLine;
    var (piece, p1) := GetLine(s, p);
    GetLineExactly(s, p, piece, p1);
    assert AreLines(s, p1, [], p1) && [piece] + [] == [piece];
    OneMoreLine(s, p, piece, p1, [], p1);
    if piece[|piece| - 1] != COMMA {
      assert IsGathered(s, p, [piece], p1);
    } else {
      var (next, p2) := GetLine(s, p1);
      GetLineExactly(s, p1, next, p2);
      if next == [] {
        var blank: seq<bytes> := [[]];
        assert AreLines(s, p2, [], p2) && blank + [] == blank;
        OneMoreLine(s, p1, [], p2, [], p2);
        OneMoreLine(s, p, piece, p1, [[]], p2);
        assert IsCutShort(s, p, [piece], p2);
      } else {
        EveryLineIsGathered(s, p1);
        if pieces, q :| IsGathered(s, p1, pieces, q) && p1 < q {
          OneMoreLine(s, p, piece, p1, pieces, q);
          BrokenBefore(piece, pieces);
          assert IsGathered(s, p, [piece] + pieces, q);
        } else {
          var last, q :| IsCutShort(s, p1, last, q);
          OneMoreLine(s, p, piece, p1, last + [[]], q);
          assert [piece] + (last + [[]]) == [piece] + last + [[]];
          assert IsCutShort(s, p, [piece] + last, q);
        }
      }
    }
  }

  /** Whatever the bytes, a header block stands there or one that breaks off, so that the two lemmas above
      cover every input. */
  lemma {:induction false} EveryBlockIsRead(s: bytes, p: nat)
    ensures (exists block, q :: IsRead(s, p, block, q)) || (exists block, last :: BreaksOff(s, p, block, last))
    decreases if p <= |s| then |s| - p else 0
  {
    hide GetLine, IsLine, AreLines, IsBroken, IsOpen;
    var (piece, p1) := GetLine(s, p);
    GetLineExactly(s, p, piece, p1);
    if piece == [] {
      assert IsRead(s, p, [], p1);
    } else {
      EveryLineIsGathered(s, p);
      if pieces, q :| IsGathered(s, p, pieces, q) && p < q {
        EveryBlockIsRead(s, q);
        if block, r :| IsRead(s, q, block, r) {
          assert ([pieces] + block)[1..] == block;
          assert IsRead(s, p, [pieces] + block, r);
        } else {
          var block, last :| BreaksOff(s, q, block, last);
          assert ([pieces] + block)[1..] == block;
          assert BreaksOff(s, p, [pieces] + block, last);
        }
      } else {
        var last, q :| IsCutShort(s, p, last, q);
        assert BreaksOff(s, p, [], last);
      }
    }
  }

  lemma {:induction false} LogicalLineJoins(s: bytes, p: nat, pieces: seq<bytes>, line: bytes)
    requires IsBroken(pieces) && At(s, p, PiecesText(pieces[1..]))
    ensures LogicalLine(s, p, pieces[0], line) ==
            Ok((line + Join(pieces[1..]), p + |PiecesText(pieces[1..])|))
    decreases |pieces|
  {
    hide At, GetLine;
    if |pieces| == 1 {
      assert pieces[1..] == [] && line + [] == line;
    } else {
      var rest := pieces[1..];
      AtSplit(s, p, rest[0] + CRLF, PiecesText(rest[1..]));
      GetLineFrames(s, p, rest[0]);
      LogicalLineJoins(s, p + |rest[0]| + 2, rest, line + rest[0]);
      Associative(line, rest[0], Join(rest[1..]));
    }
  }

  lemma BlankLineParses(s: bytes, p: nat)
    requires At(s, p, CRLF)
    ensures GetLine(s, p) == ([], p + 2)
  {
  }

  /** One logical line of a block is gathered, whatever its breaks. */
  lemma BrokenLineParses(s: bytes, p: nat, pieces: seq<bytes>)
    requires IsBroken(pieces) && At(s, p, PiecesText(pieces))
    ensures var (piece, p1) := GetLine(s, p);
            piece == pieces[0] != [] &&
            LogicalLine(s, p1, piece, piece) == Ok((Join(pieces), p + |PiecesText(pieces)|))
  {
    hide GetLine, At;
    var head, tail := pieces[0] + CRLF, PiecesText(pieces[1..]);
    assert PiecesText(pieces) == head + tail;
    AtSplit(s, p, head, tail);
    GetLineFrames(s, p, pieces[0]);
    LogicalLineJoins(s, p + |head|, pieces, pieces[0]);
  }

  /** `parseHeaders` on a CRLF-framed block reads exactly the block, and its map is the
      first-wins fold of the logical lines, however each of them is broken. */
  lemma {:induction false} BlockParses(s: bytes, p: nat, block: seq<seq<bytes>>, h: Headers)
    requires IsBlock(block) && At(s, p, BlockText(block))
    ensures ParseHeaders(s, p, h) ==
            match AddLines(h, Lines(block))
            case Err(f) => Err(f)
            case Ok(h') => Ok((h', p + |BlockText(block)|))
    decreases |block|
  {
    hide GetLine, LogicalLine, At, AddLine, IsBroken;
    if block == [] {
      BlankLineParses(s, p);
    } else {
      var line, rest := PiecesText(block[0]), BlockText(block[1..]);
      assert BlockText(block) == line + rest;
      AtSplit(s, p, line, rest);
      BrokenLineParses(s, p, block[0]);
      var lines := Lines(block);
      assert lines[0] == Join(block[0]) && lines[1..] == Lines(block[1..]);
      match AddLine(h, Join(block[0]))
      case Err(_) =>
      case Ok(h') => BlockParses(s, p + |line|, block[1..], h');
    }
  }

  /** Words separated by single spaces. */
  function Words(ws: seq<bytes>): bytes {
    if ws == [] then [] else if |ws| == 1 then ws[0] else ws[0] + [SPACE] + Words(ws[1..])
  }

  /** The first line of a message. */
  function StartLine(a: bytes, b: bytes, c: bytes): bytes {
    Words([a, b, c]) + CRLF
  }

  lemma StartLineText(a: bytes, b: bytes, c: bytes)
    ensures StartLine(a, b, c) == a + [SPACE] + b + [SPACE] + c + CRLF
    ensures StartLine(a, b, c) == a + [SPACE] + (b + [SPACE] + (c + CRLF))
  {
    assert [a, b, c][1..] == [b, c] && [b, c][1..] == [c];
    assert Words([c]) == c && Words([b, c]) == b + [SPACE] + c;
    assert Words([a, b, c]) == a + [SPACE] + (b + [SPACE] + c);
  }

  /** Two tokens and a line take a start line apart again. */
  lemma StartLineParses(s: bytes, p: nat, a: bytes, b: bytes, c: bytes)
    requires Free(a, Stops(SPACE, NUL)) && Free(b, Stops(SPACE, NUL)) && Free(c, EOL)
    requires At(s, p, StartLine(a, b, c))
    ensures Token(s, p, SPACE) == (a, p + |a| + 1)
    ensures Token(s, p + |a| + 1, SPACE) == (b, p + |a| + 1 + |b| + 1)
    ensures GetLine(s, p + |a| + 1 + |b| + 1) == (c, p + |StartLine(a, b, c)|)
  {
    hide At, Token, GetLine, StartLine;
    StartLineText(a, b, c);
    AtSplit(s, p, a + [SPACE], b + [SPACE] + (c + CRLF));
    TokenFrames(s, p, a, SPACE);
    AtSplit(s, p + |a| + 1, b + [SPACE], c + CRLF);
    TokenFrames(s, p + |a| + 1, b, SPACE);
    GetLineFrames(s, p + |a| + 1 + |b| + 1, c);
  }

  /** At p stands a header block with these logical lines, each broken somehow or not at all. */
  ghost predicate Spells(s: bytes, p: nat, lines: seq<bytes>) {
    exists block :: IsBlock(block) && Lines(block) == lines && At(s, p, BlockText(block))
  }

  function MapOf(r: Result<(Headers, nat)>): Result<Headers> {
    match r
    case Err(f) => Err(f)
    case Ok((h, _)) => Ok(h)
  }

  /** Breaking header lines after commas does not change what is parsed, nor whether it throws. */
  lemma ContinuationInvariance(s: bytes, p: nat, t: bytes, q: nat, lines: seq<bytes>, h: Headers)
    requires Spells(s, p, lines) && Spells(t, q, lines)
    ensures MapOf(ParseHeaders(s, p, h)) == MapOf(ParseHeaders(t, q, h))
  {
    hide At, IsBlock, ParseHeaders, AddLines, BlockText, Lines;
    var a :| IsBlock(a) && Lines(a) == lines && At(s, p, BlockText(a));
    var b :| IsBlock(b) && Lines(b) == lines && At(t, q, BlockText(b));
    BlockParses(s, p, a, h);
    BlockParses(t, q, b, h);
  }

  /** Positions of commas in a line that do not end it. */
  predicate InnerCommas(line: bytes, cuts: set<nat>) {
    forall c :: c in cuts ==> c + 1 < |line| && line[c] == COMMA
  }

  /** The line cut behind each position in `cuts`: the pieces from the one that began at `start`, when
      there are no cuts between `start` and i. */
  function Cuts(line: bytes, start: nat, i: nat, cuts: set<nat>): (pieces: seq<bytes>)
    requires start <= i <= |line|
    ensures pieces != []
    decreases |line| - i
  {
    if i == |line| then [line[start..]]
    else if i in cuts then [line[start..i + 1]] + Cuts(line, i + 1, i + 1, cuts)
    else Cuts(line, start, i + 1, cuts)
  }

  /** The positions of the last bytes of all pieces but the last, when the first piece is at `offset`. */
  function Ends(pieces: seq<bytes>, offset: nat): set<int> {
    if |pieces| <= 1 then {} else {offset + |pieces[0]| - 1} + Ends(pieces[1..], offset + |pieces[0]|)
  }

  lemma TailIsBroken(line: bytes, start: nat)
    requires IsBroken([line]) && start < |line|
    ensures IsBroken([line[start..]]) && Join([line[start..]]) == line[start..]
  {
    var tail := [line[start..]];
    assert tail[1..] == [] && line[start..] + [] == line[start..];
  }

  lemma BrokenBefore(piece: bytes, rest: seq<bytes>)
    requires IsPiece(piece) && piece[|piece| - 1] == COMMA && IsBroken(rest)
    ensures IsBroken([piece] + rest) && Join([piece] + rest) == piece + Join(rest)
  {
    assert ([piece] + rest)[1..] == rest;
  }

  lemma {:induction false} CutsAreBroken(line: bytes, start: nat, i: nat, cuts: set<nat>)
    requires IsBroken([line]) && InnerCommas(line, cuts) && start <= i <= |line| && start < |line|
    ensures IsBroken(Cuts(line, start, i, cuts)) && Join(Cuts(line, start, i, cuts)) == line[start..]
    decreases |line| - i
  {
    if i == |line| {
      TailIsBroken(line, start);
    } else if i !in cuts {
      CutsAreBroken(line, start, i + 1, cuts);
    } else {
      CutsAreBroken(line, i + 1, i + 1, cuts);
      var piece, rest := line[start..i + 1], Cuts(line, i + 1, i + 1, cuts);
      assert IsPiece(piece) && piece[|piece| - 1] == COMMA;
      hide IsBroken, Join;
      BrokenBefore(piece, rest);
      assert line[start..] == piece + line[i + 1..];
    }
  }

  /** The cuts that are not yet passed at i. */
  function From(cuts: set<nat>, i: nat): set<int> {
    set c: nat | c in cuts && i <= c :: c as int
  }

  lemma {:induction false} CutsEnd(line: bytes, start: nat, i: nat, cuts: set<nat>)
    requires InnerCommas(line, cuts) && start <= i <= |line|
    ensures Ends(Cuts(line, start, i, cuts), start) == From(cuts, i)
    decreases |line| - i
  {
    if i == |line| {
      assert forall c: nat :: c in cuts ==> c < i;
    } else if i !in cuts {
      CutsEnd(line, start, i + 1, cuts);
      assert From(cuts, i) == From(cuts, i + 1);
    } else {
      CutsEnd(line, i + 1, i + 1, cuts);
      var piece, rest := line[start..i + 1], Cuts(line, i + 1, i + 1, cuts);
      assert ([piece] + rest)[1..] == rest;
      assert From(cuts, i) == {i as int} + From(cuts, i + 1);
    }
  }

  /** A line may be broken after any set of its commas that do not end it: the pieces are a broken line,
      joined they are the line, and they end at exactly these commas. */
  lemma BreakAfterCommas(line: bytes, cuts: set<nat>)
    requires IsBroken([line]) && InnerCommas(line, cuts)
    ensures var pieces := Cuts(line, 0, 0, cuts);
            IsBroken(pieces) && Join(pieces) == line && Ends(pieces, 0) == From(cuts, 0)
  {
    CutsAreBroken(line, 0, 0, cuts);
    CutsEnd(line, 0, 0, cuts);
    assert line[0..] == line;
  }

  /** Conversely, a broken line is broken after inner commas of the joined line. */
  lemma {:induction false} BreaksAreCommas(pieces: seq<bytes>, before: bytes)
    requires IsBroken(pieces)
    ensures var line := before + Join(pieces);
            forall c :: c in Ends(pieces, |before|) ==> |before| <= c && c + 1 < |line| && line[c] == COMMA
    decreases |pieces|
  {
    if |pieces| > 1 {
      var rest := pieces[1..];
      BreaksAreCommas(rest, before + pieces[0]);
      Associative(before, pieces[0], Join(rest));
    }
  }

  // ----- what a list of lines means -----

  function Spaces(n: nat): (r: bytes)
    ensures |r| == n && forall i :: 0 <= i < n ==> r[i] == SPACE
  {
    seq(n, _ => SPACE)
  }

  ghost predicate IsHeader(line: bytes, k: bytes, v: bytes) {
    Free(k, Stops(COLON, COLON)) && v != [] && v[0] != SPACE && exists n: nat :: line == k + [COLON] + Spaces(n) + v
  }

  /** A line yields the header (k, v) exactly when it is k, the first colon, any number of spaces, and v. */
  lemma SplitHeaderExactly(line: bytes, k: bytes, v: bytes)
    ensures SplitHeader(line) == Ok(Some((k, v))) <==> IsHeader(line, k, v)
  {
    if SplitHeader(line) == Ok(Some((k, v))) {
      SplitIsHeader(line, k, v);
    }
    if IsHeader(line, k, v) {
      var n: nat :| line == k + [COLON] + Spaces(n) + v;
      HeaderSplits(k, n, v);
    }
  }

  /** Where the parts of a split line stand in it. */
  lemma SplitParts(line: bytes, k: bytes, v: bytes)
    requires SplitHeader(line) == Ok(Some((k, v)))
    ensures Free(k, Stops(COLON, COLON)) && v != [] && v[0] != SPACE
    ensures |k| + 1 + |v| <= |line|
    ensures var n := |line| - |k| - 1 - |v|;
            line[..|k|] == k && line[|k|] == COLON && line[|k| + 1..][..n] == Spaces(n) && line[|k| + 1..][n..] == v
  {
  }

  lemma SplitIsHeader(line: bytes, k: bytes, v: bytes)
    requires SplitHeader(line) == Ok(Some((k, v)))
    ensures IsHeader(line, k, v)
  {
    SplitParts(line, k, v);
    hide SplitHeader, Spaces, Free;
    var n := |line| - |k| - 1 - |v|;
    Pieces(line, |k|, COLON);
    Cut(line[|k| + 1..], n);
    Associative(k + [COLON], Spaces(n), v);
  }

  lemma HeaderSplits(k: bytes, n: nat, v: bytes)
    requires Free(k, Stops(COLON, COLON)) && v != [] && v[0] != SPACE
    ensures SplitHeader(k + [COLON] + Spaces(n) + v) == Ok(Some((k, v)))
  {
    var line := k + [COLON] + Spaces(n) + v;
    assert FirstIn(line, 0, Stops(COLON, COLON)) == |k| && line[..|k|] == k by {
      assert At(line, 0, k) && line[|k|] == COLON;
      FirstInAt(line, 0, k, Stops(COLON, COLON));
    }
    assert line[|k| + 1..] == Spaces(n) + v;
    SkipsSpaces(n, v);
    assert (Spaces(n) + v)[n..] == v;
  }

  lemma SkipsSpaces(n: nat, v: bytes)
    requires v != [] && v[0] != SPACE
    ensures FirstOther(Spaces(n) + v, SPACE) == n
  {
    var s := Spaces(n) + v;
    assert s[n] == v[0] && forall i :: 0 <= i < n ==> s[i] == SPACE;
  }

  predicate AllSpaces(s: bytes) {
    forall i :: 0 <= i < |s| ==> s[i] == SPACE
  }

  /** The line has a colon, and nothing but spaces behind the first one. */
  predicate IsBlank(line: bytes) {
    exists c :: 0 <= c < |line| && line[c] == COLON && Free(line[..c], Stops(COLON, COLON)) && AllSpaces(line[c + 1..])
  }

  /** Adding a line throws exactly when its value is blank. */
  lemma ThrowsExactly(line: bytes)
    ensures SplitHeader(line).Err? <==> IsBlank(line)
  {
    var c := FirstIn(line, 0, Stops(COLON, COLON));
    if IsBlank(line) {
      var b :| 0 <= b < |line| && line[b] == COLON && Free(line[..b], Stops(COLON, COLON)) && AllSpaces(line[b + 1..]);
      assert forall j :: 0 <= j < b ==> line[..b][j] == line[j];
      assert c == b;
    }
  }

  ghost predicate Defines(line: bytes, k: bytes) {
    exists v :: SplitHeader(line) == Ok(Some((k, v)))
  }

  ghost predicate IsFirstDefinition(lines: seq<bytes>, i: nat, k: bytes, v: bytes) {
    i < |lines| && SplitHeader(lines[i]) == Ok(Some((k, v))) && forall j :: 0 <= j < i ==> !Defines(lines[j], k)
  }

  /** Adding lines throws exactly when one of them is blank behind its colon. */
  lemma {:induction false} AddingThrowsExactly(h: Headers, lines: seq<bytes>)
    ensures AddLines(h, lines).Err? <==> exists i :: 0 <= i < |lines| && IsBlank(lines[i])
    decreases |lines|
  {
    hide SplitHeader, IsBlank;
    if lines != [] {
      ThrowsExactly(lines[0]);
      var h' := AddLine(h, lines[0]);
      if h'.Ok? {
        AddingThrowsExactly(h'.value, lines[1..]);
      }
    }
  }

  /** After the lines are added, the keys are those there before and those that some line defines. */
  lemma {:induction false} KeysAreDefined(h: Headers, lines: seq<bytes>, k: bytes)
    requires AddLines(h, lines).Ok?
    ensures k in AddLines(h, lines).value <==> k in h || exists i :: 0 <= i < |lines| && Defines(lines[i], k)
    decreases |lines|
  {
    hide SplitHeader;
    if lines != [] {
      KeysAreDefined(AddLine(h, lines[0]).value, lines[1..], k);
    }
  }

  /** A value that is there stays. */
  lemma {:induction false} EarlierValueStays(h: Headers, lines: seq<bytes>, k: bytes)
    requires AddLines(h, lines).Ok? && k in h
    ensures k in AddLines(h, lines).value && AddLines(h, lines).value[k] == h[k]
    decreases |lines|
  {
    hide SplitHeader;
    if lines != [] {
      EarlierValueStays(AddLine(h, lines[0]).value, lines[1..], k);
    }
  }

  /** A new key gets the value of the first line that defines it. */
  lemma {:induction false} FirstOccurrenceWins(h: Headers, lines: seq<bytes>, k: bytes, i: nat, v: bytes)
    requires AddLines(h, lines).Ok? && k !in h && IsFirstDefinition(lines, i, k, v)
    ensures k in AddLines(h, lines).value && AddLines(h, lines).value[k] == v
    decreases |lines|
  {
    hide SplitHeader;
    var h' := AddLine(h, lines[0]).value;
    if i == 0 {
      EarlierValueStays(h', lines[1..], k);
    } else {
      assert !Defines(lines[0], k);
      assert forall j :: 0 <= j < |lines| - 1 ==> lines[1..][j] == lines[j + 1];
      FirstOccurrenceWins(h', lines[1..], k, i - 1, v);
    }
  }

  // ----- printing header maps -----

  function HeaderLine(k: bytes, v: bytes): bytes {
    k + [COLON, SPACE] + v
  }

  /** One line for each of the keys ks, in that order. */
  function HeaderText(h: Headers, ks: seq<bytes>): bytes
    requires forall k :: k in ks ==> k in h
  {
    if ks == [] then [] else HeaderLine(ks[0], h[ks[0]]) + CRLF + HeaderText(h, ks[1..])
  }

  /** What `putHeaders` writes: the headers in key order, and a blank line. */
  ghost function PrintedHeaders(h: Headers): bytes {
    KeyOrderAscends(h.Keys);
    HeaderText(h, KeyOrder(h.Keys)) + CRLF
  }

  lemma HeaderTextOne(h: Headers, k: bytes)
    requires k in h
    ensures HeaderText(h, [k]) == k + Ascii(": ") + h[k] + Ascii("\r\n")
  {
    assert [k][1..] == [] && Ascii(": ") == [COLON, SPACE] && Ascii("\r\n") == CRLF;
  }

  lemma HeaderTextStep(h: Headers, k: bytes, ks: seq<bytes>)
    requires k in h && forall x :: x in ks ==> x in h
    ensures HeaderText(h, [k] + ks) == HeaderLine(k, h[k]) + CRLF + HeaderText(h, ks)
  {
    assert ([k] + ks)[1..] == ks;
  }

  lemma {:induction false} HeaderTextAppend(h: Headers, a: seq<bytes>, b: seq<bytes>)
    requires (forall k :: k in a ==> k in h) && (forall k :: k in b ==> k in h)
    ensures HeaderText(h, a + b) == HeaderText(h, a) + HeaderText(h, b)
  {
    if a == [] {
      assert a + b == b && [] + HeaderText(h, b) == HeaderText(h, b);
    } else {
      hide HeaderLine, HeaderText;
      var k, rest := a[0], a[1..];
      assert a == [k] + rest && a + b == [k] + (rest + b);
      HeaderTextStep(h, k, rest);
      HeaderTextStep(h, k, rest + b);
      HeaderTextAppend(h, rest, b);
      Associative(HeaderLine(k, h[k]) + CRLF, HeaderText(h, rest), HeaderText(h, b));
    }
  }

  /** The headers are printed in the strictly ascending order of their keys, each as "key: value" and CRLF,
      and a blank line follows. */
  lemma PrintedHeadersExactly(h: Headers, ks: seq<bytes>)
    requires Ascending(ks) && forall k :: k in ks <==> k in h
    ensures PrintedHeaders(h) == HeaderText(h, ks) + Ascii("\r\n")
  {
    hide HeaderText;
    AscendingIsKeyOrder(ks, h.Keys);
    assert Ascii("\r\n") == CRLF;
  }

  predicate IsKey(k: bytes) {
    Free(k, Stops(COLON, COLON)) && Free(k, EOL)
  }

  predicate IsValue(v: bytes) {
    v != [] && Free(v, EOL) && v[0] != SPACE && v[|v| - 1] != COMMA
  }

  /** The header maps that survive printing and parsing. */
  predicate PrintableHeaders(h: Headers) {
    forall k :: k in h ==> IsKey(k) && IsValue(h[k])
  }

  /** The printed line of a header is one unbroken logical line, and it splits into key and value. */
  lemma HeaderLineSplits(k: bytes, v: bytes)
    requires IsKey(k) && IsValue(v)
    ensures IsBroken([HeaderLine(k, v)]) && Join([HeaderLine(k, v)]) == HeaderLine(k, v)
    ensures SplitHeader(HeaderLine(k, v)) == Ok(Some((k, v)))
  {
    var line := HeaderLine(k, v);
    assert IsBroken([line]) && Join([line]) == line by {
      assert Free(line, EOL) && line[|line| - 1] == v[|v| - 1];
      var pieces := [line];
      assert pieces[1..] == [] && line + [] == line;
    }
    assert Spaces(1) == [SPACE] && k + [COLON] + [SPACE] + v == k + [COLON, SPACE] + v;
    HeaderSplits(k, 1, v);
  }

  function Unbroken(h: Headers, ks: seq<bytes>): seq<seq<bytes>>
    requires forall k :: k in ks ==> k in h
  {
    if ks == [] then [] else [[HeaderLine(ks[0], h[ks[0]])]] + Unbroken(h, ks[1..])
  }

  lemma {:induction false} PrintedIsBlock(h: Headers, ks: seq<bytes>)
    requires PrintableHeaders(h) && forall k :: k in ks ==> k in h
    ensures IsBlock(Unbroken(h, ks))
    ensures BlockText(Unbroken(h, ks)) == HeaderText(h, ks) + CRLF
  {
    if ks == [] {
      assert [] + CRLF == CRLF;
    } else {
      var line := HeaderLine(ks[0], h[ks[0]]);
      HeaderLineSplits(ks[0], h[ks[0]]);
      PrintedIsBlock(h, ks[1..]);
      var pieces, rest := [line], Unbroken(h, ks[1..]);
      var block := [pieces] + rest;
      assert block[1..] == rest && block == Unbroken(h, ks);
      assert pieces[1..] == [] && PiecesText(pieces) == line + CRLF;
      assert (line + CRLF) + (HeaderText(h, ks[1..]) + CRLF) == (line + CRLF + HeaderText(h, ks[1..])) + CRLF;
    }
  }

  lemma StillNew(ks: seq<bytes>, acc: Headers, v: bytes)
    requires ks != [] && Ascending(ks) && forall k :: k in ks ==> k !in acc
    ensures Ascending(ks[1..]) && forall k :: k in ks[1..] ==> k !in acc[ks[0] := v]
  {
    forall k | k in ks[1..]
      ensures k != ks[0] && k !in acc
    {
      var i :| 0 <= i < |ks[1..]| && ks[1..][i] == k;
      assert Less(ks[0], ks[i + 1]);
      LessIrreflexive(k);
    }
  }

  function Entries(h: Headers, ks: seq<bytes>): Headers {
    map k | k in ks && k in h :: h[k]
  }

  lemma EntriesStep(h: Headers, ks: seq<bytes>, acc: Headers)
    requires ks != [] && ks[0] in h
    ensures acc[ks[0] := h[ks[0]]] + Entries(h, ks[1..]) == acc + Entries(h, ks)
  {
  }

  /** Adding the printed lines of distinct new keys adds exactly those entries. */
  lemma {:induction false} PrintedLinesAdd(h: Headers, ks: seq<bytes>, acc: Headers)
    requires PrintableHeaders(h) && (forall k :: k in ks ==> k in h) && Ascending(ks)
    requires forall k :: k in ks ==> k !in acc
    ensures AddLines(acc, Lines(Unbroken(h, ks))) == Ok(acc + Entries(h, ks))
    decreases |ks|
  {
    if ks == [] {
      assert acc + Entries(h, ks) == acc;
    } else {
      var k := ks[0];
      HeaderLineSplits(k, h[k]);
      StillNew(ks, acc, h[k]);
      PrintedLinesAdd(h, ks[1..], acc[k := h[k]]);
      EntriesStep(h, ks, acc);
      var block := Unbroken(h, ks);
      var lines := Lines(block);
      assert block[1..] == Unbroken(h, ks[1..]);
      assert lines[0] == HeaderLine(k, h[k]) && lines[1..] == Lines(block[1..]);
    }
  }

  lemma EntriesOfAll(h: Headers, ks: seq<bytes>)
    requires forall k :: k in ks <==> k in h
    ensures map[] + Entries(h, ks) == h
  {
  }

  /** Parsing the printed headers gives the map back, and stops right behind the blank line. */
  lemma PrintedHeadersParse(s: bytes, p: nat, h: Headers)
    requires PrintableHeaders(h) && At(s, p, PrintedHeaders(h))
    ensures ParseHeaders(s, p, map[]) == Ok((h, p + |PrintedHeaders(h)|))
  {
    hide At, ParseHeaders, BlockText, Lines, Unbroken, AddLines, KeyOrder, HeaderText, Entries, Ascending;
    KeyOrderAscends(h.Keys);
    var ks := KeyOrder(h.Keys);
    PrintedIsBlock(h, ks);
    PrintedLinesAdd(h, ks, map[]);
    EntriesOfAll(h, ks);
    BlockParses(s, p, Unbroken(h, ks), map[]);
  }

  // ----- every parsed header map can be printed -----

  lemma {:induction false} LogicalLineShape(s: bytes, p: nat, app: bytes, line: bytes)
    requires Free(line, EOL) && |app| <= |line| && app == line[|line| - |app|..]
    ensures var r := LogicalLine(s, p, app, line);
            r.Ok? ==> var l := r.value.0; l != [] && Free(l, EOL) && l[|l| - 1] != COMMA
    decreases if p <= |s| then |s| - p else 0, |app|
  {
    if app != [] && app[|app| - 1] == COMMA {
      var (next, q) := GetLine(s, p);
      assert (line + next)[|line|..] == next;
      LogicalLineShape(s, q, next, line + next);
    }
  }

  lemma SplitHeaderShape(line: bytes)
    requires line != [] && Free(line, EOL) && line[|line| - 1] != COMMA
    ensures var r := SplitHeader(line);
            r.Ok? && r.value.Some? ==> IsKey(r.value.value.0) && IsValue(r.value.value.1)
  {
  }

  /** Whatever bytes they come from, parsed headers are printable. */
  lemma {:induction false} ParsedIsPrintable(s: bytes, p: nat, h: Headers)
    requires PrintableHeaders(h)
    ensures ParseHeaders(s, p, h).Ok? ==> PrintableHeaders(ParseHeaders(s, p, h).value.0)
    decreases if p <= |s| then |s| - p else 0
  {
    var (piece, p1) := GetLine(s, p);
    if piece != [] {
      LogicalLineShape(s, p1, piece, piece);
      var line := LogicalLine(s, p1, piece, piece);
      if line.Ok? {
        SplitHeaderShape(line.value.0);
        var h' := AddLine(h, line.value.0);
        if h'.Ok? {
          ParsedIsPrintable(s, line.value.1, h'.value);
        }
      }
    }
  }

  // ----- bodies -----

  /** Content-Length, when there is one, says how long the data is; without it there is no data. */
  predicate BodyMatches(h: Headers, data: bytes) {
    if CONTENT_LENGTH in h then Atoi(h[CONTENT_LENGTH]) == Some(|data|) else data == []
  }

  /** A length added as an `int` is read back by `atoi`, unless an earlier value for the key stays in its way. */
  lemma LengthReadsBack(h: Headers, k: bytes, n: int)
    requires INT_MIN <= n <= INT_MAX
    ensures Atoi(HeaderValue(InsertHeader(h, k, DecimalInt(n)), k)) == Some(n) <==>
            k !in h || Atoi(h[k]) == Some(n)
  {
    AtoiReadsDecimal(n);
  }

  /** A body announced by a Content-Length is the rest of the message, no more and no less, exactly when
      the length is that of the rest. */
  lemma BodyIsRestExactly(s: bytes, p: nat, h: Headers, before: bytes, uninit: byte)
    requires p <= |s| && HeaderValue(h, CONTENT_LENGTH) != []
    ensures ParseBody(s, p, h, before, uninit) == Body(s[p..]) <==>
            Atoi(HeaderValue(h, CONTENT_LENGTH)) == Some(|s| - p)
  {
    assert |s[p..] + [uninit]| == |s| - p + 1;
  }

  /** Everything `parseBody` accepts has the announced length. */
  lemma ParsedBodyMatches(s: bytes, p: nat, h: Headers, uninit: byte)
    requires p <= |s| && PrintableHeaders(h)
    ensures var b := ParseBody(s, p, h, [], uninit); b.Body? ==> BodyMatches(h, b.data)
  {
  }

  /** The error text for a Content-Length value that exceeds what is left. */
  predicate IsTooLongText(e: bytes, length: bytes, left: nat) {
    e == Ascii("Content-Length (") + length + Ascii(") is greater than remaining bytes (") + DecimalInt(left) + Ascii(")")
  }

  /** With a Content-Length that `atoi` reads as n, the body is accepted if and only if n is what is left or
      one more, refused if and only if n is negative or larger still, and copied out of bounds otherwise. */
  lemma BodyExactly(s: bytes, p: nat, h: Headers, before: bytes, uninit: byte, n: int)
    requires p <= |s| && CONTENT_LENGTH in h && h[CONTENT_LENGTH] != [] && Atoi(h[CONTENT_LENGTH]) == Some(n)
    ensures var b, left := ParseBody(s, p, h, before, uninit), |s| - p;
            (b.Body? <==> n == left || n == left + 1) &&
            (b.TooLong? <==> n < 0 || n > left + 1) &&
            (n == left ==> b == Body(s[p..])) &&
            (n == left + 1 ==> b == Body(s[p..] + [uninit])) &&
            (b.TooLong? ==> IsTooLongText(b.error, h[CONTENT_LENGTH], left)) &&
            (0 <= n < left ==> b == BodyFault(Undefined))
  {
    hide Atoi;
  }

  /** Without a Content-Length, or with an empty one, the data stays as it was; a Content-Length that is no
      `int` is undefined. */
  lemma BodyWithoutLength(s: bytes, p: nat, h: Headers, before: bytes, uninit: byte)
    ensures CONTENT_LENGTH !in h || h[CONTENT_LENGTH] == [] ==> ParseBody(s, p, h, before, uninit) == Body(before)
    ensures CONTENT_LENGTH in h && h[CONTENT_LENGTH] != [] && Atoi(h[CONTENT_LENGTH]) == None ==>
              ParseBody(s, p, h, before, uninit) == BodyFault(Undefined)
  {
    hide Atoi;
  }

  /** With the cursor behind the end, what is left wraps around to a large unsigned number: any length up to
      one more than that is accepted, as so many bytes of fresh memory. Right behind the end the one more wraps to 0. */
  lemma BodyBehindEnd(s: bytes, p: nat, h: Headers, before: bytes, uninit: byte, n: int)
    requires |s| < p <= |s| + INT_MAX
    requires CONTENT_LENGTH in h && h[CONTENT_LENGTH] != [] && Atoi(h[CONTENT_LENGTH]) == Some(n)
    ensures var b, left, length := ParseBody(s, p, h, before, uninit), 0x1_0000_0000 - (p - |s|), n % 0x1_0000_0000;
            if length > (if p == |s| + 1 then 0 else left + 1) then b.TooLong? && IsTooLongText(b.error, h[CONTENT_LENGTH], left)
            else b.Body? && |b.data| == length && forall i :: 0 <= i < length ==> b.data[i] == uninit
  {
    hide Atoi;
  }

  /** Without headers there is no body, wherever the cursor is. */
  lemma NoHeadersNoBody(s: bytes, p: nat, uninit: byte)
    requires p > |s|
    ensures ParseHeaders(s, p, map[]) == Ok((map[], p)) && ParseBody(s, p, map[], [], uninit) == Body([])
  {
  }

  /** A body of the announced length at the end of the message is read back. */
  lemma MatchingBodyParses(s: bytes, p: nat, h: Headers, data: bytes, uninit: byte)
    requires p <= |s| && s[p..] == data && BodyMatches(h, data) && PrintableHeaders(h)
    ensures ParseBody(s, p, h, [], uninit) == Body(data)
  {
  }
}
