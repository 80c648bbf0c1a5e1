/** How the server turns what `recv` returns into the bytes of one request. */
module Reading {
  import opened Bytes
  import opened Numbers
  import opened ByteBuffers
  import opened Messages
  import Wire
  import Requests

  const DATA_LEN := 555555
  const EXPECT := Ascii("Expect: 100-continue")

  /** What one `recv` into a buffer of DATA_LEN bytes can return. */
  type Chunk = d: bytes | |d| <= DATA_LEN

  datatype Recv = Received(data: Chunk) | Failed {
    /** The value `recv` returns. */
    function Len(): int {
      if Received? then |data| else -1
    }

    /** The zeroed buffer after the call. */
    function Buffer(): (r: bytes)
      ensures |r| == DATA_LEN
    {
      if Received? then data + Zeros(DATA_LEN - |data|) else Zeros(DATA_LEN)
    }
  }

  /** The connection is gone, a request is complete, more input is awaited, or the read breaks off. */
  datatype ReadResult = Hangup | Complete(request: bytes) | Waiting | Broken(fault: Fault)

  /** `strcat` in memory; None where a string has no terminator or the result does not fit. */
  function StrCat(p: bytes, q: bytes): Option<bytes> {
    var i, j := |CString(p)|, |CString(q)|;
    if i == |p| || j == |q| || i + j >= |p| then None else Some(p[..i] + q[..j] + [NUL] + p[i + j + 1..])
  }

  /** The loop that collects a body announced with "Expect: 100-continue". */
  function Collect(pData: bytes, lenRecv: nat, temp: int, contLen: int, more: seq<Recv>): ReadResult
    decreases |more|
  {
    if more == [] then Waiting
    else
      match StrCat(pData, more[0].Buffer())
      case None => Broken(Undefined)
      case Some(p) =>
        var temp' := temp + more[0].Len();
        if temp' != contLen then Collect(p, lenRecv, temp', contLen, more[1..])
        else if 0 <= lenRecv + temp' <= |p| then Complete(p[..lenRecv + temp'])
        else Broken(Undefined)
  }

  /** One turn of the loop. */
  lemma CollectTurn(pData: bytes, lenRecv: nat, temp: int, contLen: int, first: Recv, rest: seq<Recv>)
    ensures Collect(pData, lenRecv, temp, contLen, [first] + rest) ==
            match StrCat(pData, first.Buffer())
            case None => Broken(Undefined)
            case Some(p) =>
              var temp' := temp + first.Len();
              if temp' != contLen then Collect(p, lenRecv, temp', contLen, rest)
              else if 0 <= lenRecv + temp' <= |p| then Complete(p[..lenRecv + temp'])
              else Broken(Undefined)
  {
    hide StrCat;
    assert ([first] + rest)[1..] == rest;
  }

  lemma CollectNothing(pData: bytes, lenRecv: nat, temp: int, contLen: int)
    ensures Collect(pData, lenRecv, temp, contLen, []) == Waiting
  {
  }

  /** The reading part of `readClient`: `first` is the first `recv`, `more` are those of the loop. */
  function ReadRequest(first: Recv, more: seq<Recv>, uninit: byte): ReadResult {
    if first.Len() <= 0 then Hangup
    else
      var pData := first.Buffer();
      if |CString(pData)| == |pData| then Broken(Undefined)
      else if !Contains(CString(pData), EXPECT) then Complete(first.data)
      else
        match Requests.ParseRequest(first.data, 0, Requests.FRESH, uninit)
        case Crashed(f) => Broken(f)
        case Accepted(r) => CollectBody(pData, |first.data|, r.headers, more)
        case Rejected(_, r) => CollectBody(pData, |first.data|, r.headers, more)
  }

  function CollectBody(pData: bytes, lenRecv: nat, h: Headers, more: seq<Recv>): ReadResult {
    match Atoi(Wire.HeaderValue(h, Wire.CONTENT_LENGTH))
    case None => Broken(Undefined)
    case Some(contLen) => Collect(pData, lenRecv, 0, contLen, more)
  }

  // ----- fragmentation -----

  function Concat(parts: seq<bytes>): bytes {
    if parts == [] then [] else parts[0] + Concat(parts[1..])
  }

  /** A way to cut a body into the chunks that successive calls of `recv` deliver. */
  predicate IsFragmented(parts: seq<bytes>) {
    forall i :: 0 <= i < |parts| ==> 0 < |parts[i]| < DATA_LEN
  }

  function Arrivals(parts: seq<bytes>): seq<Recv>
    requires IsFragmented(parts)
  {
    if parts == [] then [] else [Received(parts[0])] + Arrivals(parts[1..])
  }

  /** Some non-empty run of first chunks has n bytes. */
  ghost predicate AddsUp(parts: seq<bytes>, n: int) {
    exists k :: 0 < k <= |parts| && |Concat(parts[..k])| == n
  }

  lemma AddsUpStep(parts: seq<bytes>, n: int)
    ensures AddsUp(parts, n) <==> parts != [] && (|parts[0]| == n || AddsUp(parts[1..], n - |parts[0]|))
  {
    forall k | 0 < k <= |parts|
      ensures |Concat(parts[..k])| == |parts[0]| + |Concat(parts[1..][..k - 1])|
    {
      assert parts[..k][1..] == parts[1..][..k - 1];
    }
    if parts != [] {
      var rest := parts[1..];
      if |parts[0]| == n {
        assert |Concat(parts[..1])| == n;
      } else if AddsUp(rest, n - |parts[0]|) {
        var k :| 0 < k <= |rest| && |Concat(rest[..k])| == n - |parts[0]|;
        assert |Concat(parts[..k + 1])| == n;
      }
    }
  }

  lemma {:induction false} AddsUpAtMost(parts: seq<bytes>, n: int)
    ensures AddsUp(parts, n) ==> parts != [] && n <= |Concat(parts)|
    decreases |parts|
  {
    AddsUpStep(parts, n);
    if parts != [] {
      hide AddsUp;
      AddsUpAtMost(parts[1..], n - |parts[0]|);
    }
  }

  // ----- what the loop does to the text -----

  /** The texts that `strcat` takes from the chunks: each up to its first NUL. */
  function Texts(parts: seq<bytes>): (r: bytes)
    ensures Free(r, Stops(NUL, NUL)) && |r| <= |Concat(parts)|
  {
    if parts == [] then [] else CString(parts[0]) + Texts(parts[1..])
  }

  /** The first `total` bytes of a zeroed buffer that holds a text and those of the chunks. */
  function Gathered(text: bytes, parts: seq<bytes>, total: nat): bytes
    requires total <= DATA_LEN
  {
    (text + Texts(parts) + Zeros(DATA_LEN))[..total]
  }

  /** A zeroed tail does not change the C string of a buffer. */
  lemma CStringOfBuffer(q: bytes, n: nat)
    requires n > 0
    ensures CString(q + Zeros(n)) == CString(q)
  {
    var s, c := q + Zeros(n), CString(q);
    assert At(s, 0, c) && s[|c|] == NUL;
    FirstInAt(s, 0, c, Stops(NUL, NUL));
  }

  lemma CStringOfText(a: bytes)
    requires Free(a, Stops(NUL, NUL))
    ensures CString(a) == a
  {
  }

  /** Appending a chunk to a text, both in zeroed buffers. */
  lemma StrCatTexts(a: bytes, m: nat, q: bytes, n: nat)
    requires Free(a, Stops(NUL, NUL)) && |q| < m && n > 0
    ensures StrCat(a + Zeros(m), q + Zeros(n)) == Some(a + CString(q) + Zeros(m - |CString(q)|))
  {
    CStringOfBuffer(a, m);
    CStringOfText(a);
    CStringOfBuffer(q, n);
    hide CString;
    var p, c := a + Zeros(m), CString(q);
    assert (q + Zeros(n))[..|c|] == c && p[..|a|] == a;
    assert [NUL] + p[|a| + |c| + 1..] == Zeros(m - |c|);
    assert a + c + [NUL] + p[|a| + |c| + 1..] == a + c + ([NUL] + p[|a| + |c| + 1..]);
  }

  /** When two C strings fit together, `strcat` joins them in place. */
  lemma StrCatFits(p: bytes, q: bytes)
    requires |CString(p)| + |CString(q)| < |p| && |CString(q)| < |q|
    ensures StrCat(p, q).Some? && |StrCat(p, q).value| == |p|
    ensures |CString(StrCat(p, q).value)| == |CString(p)| + |CString(q)|
  {
    var t := CString(p) + CString(q);
    var r := StrCat(p, q).value;
    assert r[..|t|] == t && r[|t|] == NUL;
    assert At(r, 0, t);
    FirstInAt(r, 0, t, Stops(NUL, NUL));
  }

  /** The loop ends with the chunk that makes up Content-Length, and has then gathered the texts of the
      chunks so far, moved together, and zeros. */
  lemma {:induction false} CollectsUpTo(text: bytes, lenRecv: nat, temp: nat, contLen: int, parts: seq<bytes>, k: nat)
    requires Free(text, Stops(NUL, NUL)) && IsFragmented(parts) && |text| + |Concat(parts)| < DATA_LEN
    requires 0 < k <= |parts| && contLen == temp + |Concat(parts[..k])| && lenRecv + contLen <= DATA_LEN
    ensures Collect(text + Zeros(DATA_LEN - |text|), lenRecv, temp, contLen, Arrivals(parts)) ==
            Complete(Gathered(text, parts[..k], lenRecv + contLen))
    decreases |parts|
  {
    hide StrCat, CString, Free, Collect, Zeros, Gathered;
    var c, others := parts[0], parts[1..];
    var longer := text + CString(c);
    StrCatTexts(text, DATA_LEN - |text|, c, DATA_LEN - |c|);
    CollectTurn(text + Zeros(DATA_LEN - |text|), lenRecv, temp, contLen, Received(c), Arrivals(others));
    assert parts[..k][1..] == others[..k - 1];
    GatheredFirst(text, c, others[..k - 1], lenRecv + contLen);
    assert parts[..k] == [c] + others[..k - 1];
    if k == 1 {
      assert others[..0] == [] && Concat(parts[..k]) == c + [];
      GatheredAll(longer, lenRecv + contLen);
    } else {
      assert |Concat(others[..k - 1])| >= |others[0]| > 0;
      FreeAppend(text, CString(c), Stops(NUL, NUL));
      CollectsUpTo(longer, lenRecv, temp + |c|, contLen, others, k - 1);
    }
  }

  lemma GatheredFirst(text: bytes, c: bytes, rest: seq<bytes>, total: nat)
    requires total <= DATA_LEN
    ensures Gathered(text, [c] + rest, total) == Gathered(text + CString(c), rest, total)
  {
    hide CString, Zeros;
    assert ([c] + rest)[1..] == rest;
    Associative(text, CString(c), Texts(rest));
  }

  lemma GatheredAll(text: bytes, total: nat)
    requires total <= DATA_LEN && |text| <= DATA_LEN
    ensures Gathered(text, [], total) == (text + Zeros(DATA_LEN - |text|))[..total]
  {
    assert text + Texts([]) == text;
  }

  /** The loop waits for ever when no first chunks make up Content-Length: a chunk that goes past it is
      never made up for. */
  lemma {:induction false} CollectsForever(pData: bytes, lenRecv: nat, temp: int, contLen: int, parts: seq<bytes>)
    requires IsFragmented(parts) && |pData| == DATA_LEN && |CString(pData)| + |Concat(parts)| < DATA_LEN
    requires !AddsUp(parts, contLen - temp)
    ensures Collect(pData, lenRecv, temp, contLen, Arrivals(parts)) == Waiting
    decreases |parts|
  {
    hide StrCat, CString, Collect, Zeros, AddsUp;
    if parts == [] {
      CollectNothing(pData, lenRecv, temp, contLen);
    } else {
      var c, others := parts[0], parts[1..];
      AddsUpStep(parts, contLen - temp);
      CStringOfBuffer(c, DATA_LEN - |c|);
      StrCatFits(pData, Received(c).Buffer());
      CollectTurn(pData, lenRecv, temp, contLen, Received(c), Arrivals(others));
      CollectsForever(StrCat(pData, Received(c).Buffer()).value, lenRecv, temp + |c|, contLen, others);
    }
  }

  /** The loop ends exactly when the bytes of some first chunks add up to Content-Length, and then it has
      gathered their texts; otherwise it waits for ever. */
  lemma CollectsExactly(text: bytes, lenRecv: nat, temp: nat, contLen: int, parts: seq<bytes>)
    requires Free(text, Stops(NUL, NUL)) && IsFragmented(parts) && |text| + |Concat(parts)| < DATA_LEN
    requires lenRecv + contLen <= DATA_LEN
    ensures var r := Collect(text + Zeros(DATA_LEN - |text|), lenRecv, temp, contLen, Arrivals(parts));
            (r.Complete? || r.Waiting?) && (r.Complete? <==> AddsUp(parts, contLen - temp)) &&
            forall k :: 0 < k <= |parts| && |Concat(parts[..k])| == contLen - temp ==>
              r == Complete(Gathered(text, parts[..k], lenRecv + contLen))
  {
    hide CString, Collect, Zeros, Gathered, IsFragmented;
    if AddsUp(parts, contLen - temp) {
      forall k | 0 < k <= |parts| && |Concat(parts[..k])| == contLen - temp
        ensures Collect(text + Zeros(DATA_LEN - |text|), lenRecv, temp, contLen, Arrivals(parts)) ==
                Complete(Gathered(text, parts[..k], lenRecv + contLen))
      {
        CollectsUpTo(text, lenRecv, temp, contLen, parts, k);
      }
    } else {
      CStringOfBuffer(text, DATA_LEN - |text|);
      CStringOfText(text);
      CollectsForever(text + Zeros(DATA_LEN - |text|), lenRecv, temp, contLen, parts);
    }
  }

  // ----- when the gathered bytes are the body -----

  lemma {:induction false} NoTexts(parts: seq<bytes>)
    requires forall i :: 0 <= i < |Concat(parts)| ==> Concat(parts)[i] == NUL
    ensures Texts(parts) == []
  {
    if parts != [] {
      var c, rest := parts[0], Concat(parts[1..]);
      assert forall i :: 0 <= i < |c| ==> Concat(parts)[i] == c[i];
      assert forall i :: 0 <= i < |rest| ==> Concat(parts)[|c| + i] == rest[i];
      NoTexts(parts[1..]);
    }
  }

  /** A chunk that holds a NUL is the last one with a text. */
  lemma LastText(c: bytes, rest: bytes)
    requires NulsLast(c + rest) && |CString(c)| < |c|
    ensures c + rest == CString(c) + Zeros(|c + rest| - |CString(c)|)
    ensures forall i :: 0 <= i < |rest| ==> rest[i] == NUL
  {
    var n, body := |CString(c)|, c + rest;
    assert body[n] == NUL;
    assert forall i :: n < i < |body| ==> body[i] == NUL;
    assert forall i :: 0 <= i < |rest| ==> rest[i] == body[|c| + i];
  }

  lemma NulsLastBehind(c: bytes, rest: bytes)
    requires NulsLast(c + rest)
    ensures NulsLast(rest)
  {
    assert forall i :: 0 <= i < |rest| ==> rest[i] == (c + rest)[|c| + i];
  }

  /** A chunk without a NUL keeps the rest in its place. */
  lemma WholeText(c: bytes, texts: bytes, rest: bytes)
    requires |texts| <= |rest| && texts + Zeros(|rest| - |texts|) == rest && |CString(c)| == |c|
    ensures CString(c) + texts + Zeros(|c + rest| - |CString(c) + texts|) == c + rest
  {
    hide Zeros;
    assert CString(c) == c;
    Associative(c, texts, Zeros(|rest| - |texts|));
  }

  /** The texts of the chunks, zero-filled, are the body when only NULs follow its first NUL. */
  lemma {:induction false} TextsAreBody(parts: seq<bytes>)
    requires NulsLast(Concat(parts))
    ensures Texts(parts) + Zeros(|Concat(parts)| - |Texts(parts)|) == Concat(parts)
  {
    if parts != [] {
      hide CString, NulsLast, Zeros, Free;
      var c, rest, texts := parts[0], Concat(parts[1..]), Texts(parts[1..]);
      assert Concat(parts) == c + rest && Texts(parts) == CString(c) + texts;
      if |CString(c)| < |c| {
        LastText(c, rest);
        NoTexts(parts[1..]);
        assert CString(c) + [] == CString(c);
      } else {
        NulsLastBehind(c, rest);
        TextsAreBody(parts[1..]);
        WholeText(c, texts, rest);
      }
    }
  }

  /** A text without NULs and zeros behind it. */
  lemma PaddedNulsLast(text: bytes, n: nat)
    requires Free(text, Stops(NUL, NUL))
    ensures NulsLast(text + Zeros(n))
  {
  }

  lemma GatheredIsPadded(head: bytes, parts: seq<bytes>, n: nat)
    requires |Texts(parts)| <= n && |head| + n <= DATA_LEN
    ensures Gathered(head, parts, |head| + n) == head + (Texts(parts) + Zeros(n - |Texts(parts)|))
  {
    hide Texts;
  }

  lemma GatheredExactly(head: bytes, parts: seq<bytes>)
    requires |head| + |Concat(parts)| < DATA_LEN
    ensures Gathered(head, parts, |head| + |Concat(parts)|) == head + Concat(parts) <==> NulsLast(Concat(parts))
  {
    hide Concat, Texts, Zeros, Gathered, NulsLast;
    var body, texts := Concat(parts), Texts(parts);
    var padded := texts + Zeros(|body| - |texts|);
    GatheredIsPadded(head, parts, |body|);
    PaddedNulsLast(texts, |body| - |texts|);
    assert (head + padded)[|head|..] == padded && (head + body)[|head|..] == body;
    if NulsLast(body) {
      TextsAreBody(parts);
    }
  }

  // ----- messages read in one piece -----

  /** The client is gone if and only if the first `recv` failed or returned nothing. */
  lemma HangupExactly(first: Recv, more: seq<Recv>, uninit: byte)
    ensures ReadRequest(first, more, uninit) == Hangup <==> first.Failed? || first.data == []
  {
    hide Contains, CString, Requests.ParseRequest, Atoi, Collect;
    if first.Received? {
      forall lenRecv: nat, contLen: int
        ensures Collect(first.Buffer(), lenRecv, 0, contLen, more) != Hangup
      {
        CollectStays(first.Buffer(), lenRecv, 0, contLen, more);
      }
    }
  }

  lemma {:induction false} CollectStays(pData: bytes, lenRecv: nat, temp: int, contLen: int, more: seq<Recv>)
    ensures Collect(pData, lenRecv, temp, contLen, more) != Hangup
    decreases |more|
  {
    hide StrCat;
    if more != [] {
      var p := StrCat(pData, more[0].Buffer());
      if p.Some? {
        CollectStays(p.value, lenRecv, temp + more[0].Len(), contLen, more[1..]);
      }
    }
  }

  /** The bytes fill the array and have no NUL, so that the text in it does not end. */
  predicate IsUnterminated(s: bytes) {
    |s| >= 555555 && Free(s, Stops(NUL, NUL))
  }

  lemma BufferText(s: Chunk)
    ensures CString(Received(s).Buffer()) == CString(s)
    ensures |CString(Received(s).Buffer())| == DATA_LEN <==> IsUnterminated(s)
  {
    var n := DATA_LEN - |s|;
    if n > 0 {
      CStringOfBuffer(s, n);
    } else {
      assert s + Zeros(n) == s;
    }
    assert |CString(s)| == |s| ==> CString(s) == s;
  }

  /** A request without "Expect: 100-continue" in its text is complete after one `recv`: all of its bytes are
      handed over, and nothing more is read. */
  lemma PlainReadExactly(s: Chunk, more: seq<Recv>, uninit: byte)
    requires s != [] && !Contains(CString(s), Ascii("Expect: 100-continue"))
    ensures ReadRequest(Received(s), more, uninit) == if IsUnterminated(s) then Broken(Undefined) else Complete(s)
  {
    hide Contains, CString, Requests.ParseRequest, CollectBody, IsUnterminated;
    BufferText(s);
  }

  /** A request with it is parsed for its length; when that crashes or the length is no `int`, so does the read. */
  lemma ExpectingReadExactly(s: Chunk, more: seq<Recv>, uninit: byte)
    requires s != [] && Contains(CString(s), Ascii("Expect: 100-continue"))
    ensures IsUnterminated(s) ==> ReadRequest(Received(s), more, uninit) == Broken(Undefined)
    ensures var o := Requests.ParseRequest(s, 0, Requests.FRESH, uninit);
            !IsUnterminated(s) && o.Crashed? ==> ReadRequest(Received(s), more, uninit) == Broken(o.fault)
    ensures var o := Requests.ParseRequest(s, 0, Requests.FRESH, uninit);
            !IsUnterminated(s) && !o.Crashed? && Announced(o.value.headers) == None ==>
              ReadRequest(Received(s), more, uninit) == Broken(Undefined)
  {
    hide Contains, CString, Requests.ParseRequest, Collect, IsUnterminated, Atoi;
    AtoiEmpty();
    BufferText(s);
  }

  /** The Content-Length that `atoi` reads, 0 if there is none. */
  function Announced(h: Headers): Option<int> {
    if Wire.CONTENT_LENGTH in h then Atoi(h[Wire.CONTENT_LENGTH]) else Some(0)
  }

  /** Otherwise the read ends if and only if some of the chunks that follow make up that length. */
  lemma ExpectingReadEnds(s: Chunk, parts: seq<bytes>, n: int, uninit: byte)
    requires s != [] && Contains(s, Ascii("Expect: 100-continue")) && Free(s, Stops(NUL, NUL)) && IsFragmented(parts)
    requires |s| + |Concat(parts)| < DATA_LEN && |s| + n <= DATA_LEN
    requires var o := Requests.ParseRequest(s, 0, Requests.FRESH, uninit);
             !o.Crashed? && Announced(o.value.headers) == Some(n)
    ensures var r := ReadRequest(Received(s), Arrivals(parts), uninit);
            (r.Complete? || r.Waiting?) && (r.Complete? <==> AddsUp(parts, n)) &&
            forall k :: 0 < k <= |parts| && |Concat(parts[..k])| == n ==> r == Complete(Gathered(s, parts[..k], |s| + n))
  {
    hide Contains, CString, Requests.ParseRequest, Collect, IsFragmented, Atoi, Gathered, AddsUp, Zeros, Concat;
    CStringOfText(s);
    AtoiEmpty();
    BufferText(s);
    CollectsExactly(s, |s|, 0, n, parts);
  }

  /** A `recv` in the loop that fails counts -1, one that finds the connection closed counts 0, and neither
      adds a byte. */
  lemma QuietRecv(text: bytes, lenRecv: nat, temp: int, contLen: int, first: Recv, more: seq<Recv>)
    requires Free(text, Stops(NUL, NUL)) && |text| < DATA_LEN && (first.Failed? || first.data == [])
    ensures var (p, temp') := (text + Zeros(DATA_LEN - |text|), if first.Failed? then temp - 1 else temp);
            Collect(p, lenRecv, temp, contLen, [first] + more) ==
            if temp' != contLen then Collect(p, lenRecv, temp', contLen, more)
            else if 0 <= lenRecv + contLen <= DATA_LEN then Complete(p[..lenRecv + contLen])
            else Broken(Undefined)
  {
    hide StrCat, CString, Free, Collect, Zeros;
    var m := DATA_LEN - |text|;
    assert first.Buffer() == [] + Zeros(DATA_LEN);
    StrCatTexts(text, m, [], DATA_LEN);
    assert CString([]) == [] && text + [] == text;
    CollectTurn(text + Zeros(m), lenRecv, temp, contLen, first, more);
  }

  /** Texts that together fill the array leave it: the terminator has no place. */
  lemma OverflowBreaks(text: bytes, lenRecv: nat, temp: int, contLen: int, c: Chunk, more: seq<Recv>)
    requires Free(text, Stops(NUL, NUL)) && |text| < DATA_LEN && |text| + |CString(c)| >= DATA_LEN
    ensures Collect(text + Zeros(DATA_LEN - |text|), lenRecv, temp, contLen, [Received(c)] + more) == Broken(Undefined)
  {
    CStringOfBuffer(text, DATA_LEN - |text|);
    CStringOfText(text);
    BufferText(c);
    hide CString, Free, Collect, Zeros;
    CollectTurn(text + Zeros(DATA_LEN - |text|), lenRecv, temp, contLen, Received(c), more);
  }

  /** When the chunk that makes up Content-Length leaves more to hand over than the array holds, the read leaves it. */
  lemma TooMuchBreaks(pData: bytes, lenRecv: nat, temp: int, contLen: int, c: Chunk, more: seq<Recv>)
    requires |pData| == DATA_LEN && |CString(pData)| + |CString(c)| < DATA_LEN
    requires temp + |c| == contLen && lenRecv + contLen > DATA_LEN
    ensures Collect(pData, lenRecv, temp, contLen, [Received(c)] + more) == Broken(Undefined)
  {
    BufferText(c);
    hide CString, Collect, StrCat;
    StrCatFits(pData, Received(c).Buffer());
    CollectTurn(pData, lenRecv, temp, contLen, Received(c), more);
  }

  // ----- messages read in pieces -----

  /** A request head in the grammar that announces Expect and the length of the body. */
  ghost predicate IsExpecting(head: bytes, r: Requests.Request, body: bytes) {
    Requests.IsHead(head, r) && r.data == [] && Free(head, Stops(NUL, NUL)) && Contains(head, EXPECT) &&
    |head| + |body| < DATA_LEN &&
    Atoi(Wire.HeaderValue(r.headers, Wire.CONTENT_LENGTH)) == Some(|body|)
  }

  lemma HeadIsInText(head: bytes, first: bytes)
    requires Free(head, Stops(NUL, NUL))
    ensures head <= CString(head + first)
  {
    assert forall j :: 0 <= j < |head| ==> (head + first)[j] == head[j];
  }

  lemma ContainedBehind(head: bytes, text: bytes, needle: bytes)
    requires head <= text && Contains(head, needle)
    ensures Contains(text, needle)
  {
    var i :| 0 <= i <= |head| && At(head, i, needle);
    assert text[i..i + |needle|] == head[i..i + |needle|];
    assert At(text, i, needle);
  }

  /** The first `recv` leads into the loop with the announced length, whatever came behind the head. */
  lemma HeadIsRead(head: bytes, r: Requests.Request, first: bytes, rest: bytes, more: seq<Recv>, uninit: byte)
    requires IsExpecting(head, r, first + rest)
    ensures ReadRequest(Received(head + first), more, uninit) ==
            Collect(Received(head + first).Buffer(), |head + first|, 0, |first + rest|, more)
    ensures |CString(Received(head + first).Buffer())| <= |head + first|
  {
    hide Requests.IsHead, Requests.ParseRequest, Atoi, Collect, Contains, CString, Free, Zeros;
    AtoiEmpty();
    Requests.WholeHeadParses(head, first, r, uninit);
    var s := head + first;
    CStringOfBuffer(s, DATA_LEN - |s|);
    HeadIsInText(head, first);
    ContainedBehind(head, CString(s), EXPECT);
    assert s != [] by {
      ContainsNothing(EXPECT);
    }
  }

  lemma ContainsNothing(needle: bytes)
    requires needle != []
    ensures !Contains([], needle)
  {
  }

  /** A message cut anywhere behind its head is read if and only if the first `recv` ends with the head
      and a body follows; the server waits for ever when the first `recv` brings bytes of the body, or
      when the announced body is empty. */
  lemma ExpectedBodyIsRead(head: bytes, r: Requests.Request, first: bytes, parts: seq<bytes>, uninit: byte)
    requires IsExpecting(head, r, first + Concat(parts)) && IsFragmented(parts)
    ensures ReadRequest(Received(head + first), Arrivals(parts), uninit) ==
            if first == [] && parts != [] then Complete(Gathered(head, parts, |head| + |Concat(parts)|)) else Waiting
  {
    hide IsExpecting, ReadRequest, Collect, Gathered, CString, AddsUp, IsFragmented;
    assert Free(head, Stops(NUL, NUL)) && |head| + |first| + |Concat(parts)| < DATA_LEN by {
      HeadIsText(head, r, first + Concat(parts));
    }
    HeadIsRead(head, r, first, Concat(parts), Arrivals(parts), uninit);
    var n := |first| + |Concat(parts)|;
    if first == [] && parts != [] {
      assert head + first == head && parts[..|parts|] == parts;
      CollectsUpTo(head, |head|, 0, n, parts, |parts|);
    } else {
      AddsUpAtMost(parts, n);
      CollectsForever(Received(head + first).Buffer(), |head + first|, 0, n, parts);
    }
  }

  lemma HeadIsText(head: bytes, r: Requests.Request, body: bytes)
    requires IsExpecting(head, r, body)
    ensures Free(head, Stops(NUL, NUL)) && |head| + |body| < DATA_LEN
  {
  }

  /** The bytes read are those of the unfragmented message if and only if the first `recv` ends with the
      head, a body follows, and only NULs follow the first NUL of the body. How the body is cut does not matter. */
  lemma FragmentationExactly(head: bytes, r: Requests.Request, first: bytes, parts: seq<bytes>, uninit: byte)
    requires IsExpecting(head, r, first + Concat(parts)) && IsFragmented(parts)
    ensures ReadRequest(Received(head + first), Arrivals(parts), uninit) == Complete(head + (first + Concat(parts))) <==>
            first == [] && parts != [] && NulsLast(first + Concat(parts))
  {
    hide IsExpecting, ReadRequest, Collect, Gathered, CString, IsFragmented, NulsLast;
    ExpectedBodyIsRead(head, r, first, parts, uninit);
    if first == [] {
      assert first + Concat(parts) == Concat(parts);
      HeadIsText(head, r, Concat(parts));
      GatheredExactly(head, parts);
    }
  }

  /** A POST or PUT read as the unfragmented message parses to exactly the head's fields and the whole body. */
  lemma ReassembledParses(head: bytes, r: Requests.Request, body: bytes, uninit: byte)
    requires IsExpecting(head, r, body) && (r.methodId == Requests.POST || r.methodId == Requests.PUT)
    ensures Requests.ParseRequest(head + body, 0, Requests.FRESH, uninit) == Accepted(r.(data := body))
  {
    hide Requests.IsHead, Requests.ParseRequest, Atoi;
    AtoiEmpty();
    Requests.WholeHeadParses(head, body, r, uninit);
    assert (head + body)[|head|..] == body;
  }
}
