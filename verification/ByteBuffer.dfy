/** The growable byte vector with independent read and write cursors. */
module ByteBuffers {
  import opened Bytes
  import opened Numbers

  // ----- what a write does to the contents -----

  function Zeros(n: nat): (r: bytes)
    ensures |r| == n && forall i :: 0 <= i < n ==> r[i] == 0
  {
    seq(n, _ => 0)
  }

  /** `resize(n)` when that makes the vector longer. */
  function ZeroTo(s: bytes, n: nat): bytes {
    if |s| < n then s + Zeros(n - |s|) else s
  }

  /** The old contents zero-filled up to w, with d written from w on, and any old tail behind it. */
  function Overwrite(s: bytes, w: nat, d: bytes): bytes {
    if d == [] then s
    else
      var t := ZeroTo(s, w + |d|);
      t[..w] + d + t[w + |d|..]
  }

  /** Overwriting, position by position: d from w on, the old bytes elsewhere, zeros in a gap. */
  lemma OverwriteByIndex(s: bytes, w: nat, d: bytes, i: nat)
    requires d != []
    ensures |Overwrite(s, w, d)| == if |s| < w + |d| then w + |d| else |s|
    ensures i < |Overwrite(s, w, d)| ==>
              Overwrite(s, w, d)[i] == if w <= i < w + |d| then d[i - w] else if i < |s| then s[i] else 0
  {
  }

  lemma OverwriteTwiceAt(s: bytes, w: nat, a: bytes, b: bytes, ab: bytes, i: nat)
    requires a != [] && b != [] && ab == a + b
    ensures |Overwrite(Overwrite(s, w, a), w + |a|, b)| == |Overwrite(s, w, ab)|
    ensures i < |Overwrite(s, w, ab)| ==>
              Overwrite(Overwrite(s, w, a), w + |a|, b)[i] == Overwrite(s, w, ab)[i]
  {
    hide Overwrite;
    OverwriteByIndex(s, w, a, i);
    OverwriteByIndex(Overwrite(s, w, a), w + |a|, b, i);
    OverwriteByIndex(s, w, ab, i);
  }

  /** Writing a and then b at the advanced cursor is writing a + b: a loop of one-byte writes writes the text. */
  lemma OverwriteTwice(s: bytes, w: nat, a: bytes, b: bytes)
    ensures Overwrite(Overwrite(s, w, a), w + |a|, b) == Overwrite(s, w, a + b)
  {
    if a == [] || b == [] {
      assert [] + b == b && a + [] == a;
    } else {
      OverwriteTwiceNonEmpty(s, w, a, b);
    }
  }

  lemma OverwriteTwiceNonEmpty(s: bytes, w: nat, a: bytes, b: bytes)
    requires a != [] && b != []
    ensures Overwrite(Overwrite(s, w, a), w + |a|, b) == Overwrite(s, w, a + b)
  {
    hide Overwrite;
    var ab := a + b;
    var twice, once := Overwrite(Overwrite(s, w, a), w + |a|, b), Overwrite(s, w, ab);
    OverwriteTwiceAt(s, w, a, b, ab, 0);
    forall i | 0 <= i < |once|
      ensures twice[i] == once[i]
    {
      OverwriteTwiceAt(s, w, a, b, ab, i);
    }
  }

  /** One turn of a loop that writes d byte by byte. */
  lemma OverwriteStep(s: bytes, w: nat, d: bytes, i: nat)
    requires i < |d|
    ensures Overwrite(Overwrite(s, w, d[..i]), w + i, [d[i]]) == Overwrite(s, w, d[..i + 1])
  {
    hide Overwrite;
    OverwriteTwice(s, w, d[..i], [d[i]]);
    assert d[..i] + [d[i]] == d[..i + 1] && |d[..i]| == i;
  }

  lemma NothingWritten(s: bytes, w: nat, d: bytes)
    ensures Overwrite(s, w, d[..0]) == s
  {
  }

  /** With the write cursor at the end, a write appends. */
  lemma OverwriteAtEnd(s: bytes, d: bytes)
    ensures Overwrite(s, |s|, d) == s + d
  {
  }

  /** A buffer written into itself at w: the loop reads back bytes it may just have written. */
  function SelfPut(s: bytes, w: nat, n: nat): bytes {
    if n == 0 then s
    else
      var t := SelfPut(s, w, n - 1);
      Overwrite(t, w + n - 1, [ByteAt(t, n - 1)])
  }

  lemma OverwriteByItself(s: bytes, i: nat)
    requires i < |s|
    ensures Overwrite(s, i, [s[i]]) == s
  {
  }

  /** At the start of the buffer the put changes nothing. */
  lemma {:induction false} SelfPutAtStart(s: bytes, n: nat)
    requires n <= |s|
    ensures SelfPut(s, 0, n) == s
  {
    if n > 0 {
      SelfPutAtStart(s, n - 1);
      OverwriteByItself(s, n - 1);
    }
  }

  /** One turn of the loop. */
  lemma SelfPutTurn(s: bytes, w: nat, n: nat)
    ensures SelfPut(s, w, 0) == s
    ensures SelfPut(s, w, n + 1) ==
            Overwrite(SelfPut(s, w, n), w + n, [ByteAt(SelfPut(s, w, n), n)])
  {
  }

  /** At j, t repeats what it holds w bytes before; in front of w, and behind the bytes written, it holds
      s, with zeros in a gap. */
  ghost predicate RepeatsAt(s: bytes, t: bytes, w: nat, n: nat, j: nat) {
    j < |t| ==> t[j] == if w <= j < w + n then t[j - w] else ByteAt(s, j)
  }

  ghost predicate Repeats(s: bytes, t: bytes, w: nat, n: nat) {
    |t| == (if |s| < w + n then w + n else |s|) && forall j :: 0 <= j < |t| ==> RepeatsAt(s, t, w, n, j)
  }

  /** Anywhere but at the start, a put of n bytes into the buffer itself repeats it with period w. */
  lemma {:induction false} SelfPutAt(s: bytes, w: nat, n: nat, j: nat)
    requires 0 < w && 0 < n <= |s|
    ensures var t := SelfPut(s, w, n);
            |t| == (if |s| < w + n then w + n else |s|) && RepeatsAt(s, t, w, n, j)
    decreases n
  {
    hide Overwrite, SelfPut;
    var m := n - 1;
    SelfPutTurn(s, w, m);
    var was := SelfPut(s, w, m);
    if m > 0 {
      SelfPutAt(s, w, m, j);
    }
    var d := [ByteAt(was, m)];
    OverwriteByIndex(was, w + m, d, j);
    if w <= j {
      OverwriteByIndex(was, w + m, d, j - w);
    }
  }

  lemma SelfPutRepeats(s: bytes, w: nat, n: nat)
    requires 0 < w && 0 < n <= |s|
    ensures Repeats(s, SelfPut(s, w, n), w, n)
  {
    hide RepeatsAt, SelfPut;
    SelfPutAt(s, w, n, 0);
    forall j | 0 <= j < |SelfPut(s, w, n)|
      ensures RepeatsAt(s, SelfPut(s, w, n), w, n, j)
    {
      SelfPutAt(s, w, n, j);
    }
  }

  lemma SelfPutAtEndAt(s: bytes, j: nat)
    requires s != []
    ensures |SelfPut(s, |s|, |s|)| == 2 * |s|
    ensures j < |s| ==> SelfPut(s, |s|, |s|)[j] == s[j] && SelfPut(s, |s|, |s|)[|s| + j] == s[j]
  {
    hide SelfPut;
    SelfPutAt(s, |s|, |s|, j);
    SelfPutAt(s, |s|, |s|, |s| + j);
  }

  /** At the end of the buffer the put appends the old contents, although they keep growing under it. */
  lemma SelfPutAtEnd(s: bytes)
    ensures SelfPut(s, |s|, |s|) == s + s
  {
    hide SelfPut;
    SelfPutTurn(s, 0, 0);
    if s != [] {
      var t := SelfPut(s, |s|, |s|);
      SelfPutAtEndAt(s, 0);
      forall j | 0 <= j < |s|
        ensures t[j] == s[j] && t[|s| + j] == s[j]
      {
        SelfPutAtEndAt(s, j);
      }
      assert t[..|s|] == s && t[|s|..] == s;
      Cut(t, |s|);
    }
  }

  // ----- reading -----

  /** `read<byte>(index)`: zero outside the vector. */
  function ByteAt(s: bytes, i: nat): byte {
    if i < |s| then s[i] else 0
  }

  /** `read<T>(index)`. */
  function ScalarAt(s: bytes, i: nat, k: Kind): (v: Scalar)
    ensures v.Kind() == k
  {
    if i + SizeOf(k) <= |s| then Decode(k, s[i..i + SizeOf(k)]) else Zero(k)
  }

  /** A value written at w, inside the vector or beyond its end, is read back from w; what was readable
      outside the written bytes reads as before. */
  lemma WrittenIsRead(s: bytes, w: nat, v: Scalar, i: nat, k: Kind)
    ensures ScalarAt(Overwrite(s, w, Encode(v)), w, v.Kind()) == v
    ensures i + SizeOf(k) <= |s| && (i + SizeOf(k) <= w || w + SizeOf(v.Kind()) <= i) ==>
              ScalarAt(Overwrite(s, w, Encode(v)), i, k) == ScalarAt(s, i, k)
  {
    hide Encode, Decode, Overwrite;
    var d := Encode(v);
    var t := Overwrite(s, w, d);
    OverwriteSlices(s, w, d, i, SizeOf(k));
    DecodeEncode(v);
  }

  /** A read inside the vector returns the value whose image stands there, and 0 when it would leave it. */
  lemma ReadExactly(s: bytes, i: nat, k: Kind)
    ensures if i + SizeOf(k) <= |s| then Encode(ScalarAt(s, i, k)) == s[i..i + SizeOf(k)]
            else ValueOf(ScalarAt(s, i, k)) == 0
    ensures ScalarAt(s, i, ByteKind) == Byte(if i < |s| then s[i] else 0) == Byte(ByteAt(s, i))
  {
    if i + SizeOf(k) <= |s| {
      EncodeDecode(k, s[i..i + SizeOf(k)]);
    }
  }

  lemma OverwriteSlices(s: bytes, w: nat, d: bytes, i: nat, n: nat)
    requires d != []
    ensures var t := Overwrite(s, w, d);
            |t| == (if |s| < w + |d| then w + |d| else |s|) && t[w..w + |d|] == d &&
            (i + n <= |s| && (i + n <= w || w + |d| <= i) ==> t[i..i + n] == s[i..i + n])
  {
  }

  // ----- searching and replacing -----

  /** `find`: the first key from start on, unless a NUL comes before it. */
  function Find(s: bytes, key: byte, start: nat): (r: int)
    ensures r == -1 || start <= r < |s|
  {
    if start > |s| then -1
    else
      var e := FirstIn(s, start, Stops(key, NUL));
      if e < |s| && s[e] == key then e else -1
  }

  /** A position is found exactly if the key is there, at or behind start, and neither a key nor a NUL is before it. */
  lemma FindExactly(s: bytes, key: byte, start: nat, i: nat)
    ensures Find(s, key, start) == i <==>
            start <= i < |s| && s[i] == key && forall j :: start <= j < i ==> s[j] != key && s[j] != NUL
  {
  }

  /** Where `replace` stops looking: at the first NUL, or at the end when NUL itself is the key. */
  function ReplaceEnd(s: bytes, key: byte, start: nat): nat {
    if start > |s| || key == NUL then |s| else FirstIn(s, start, Stops(NUL, NUL))
  }

  ghost predicate Replaced(s: bytes, t: bytes, key: byte, rep: byte, start: nat, end: nat) {
    |t| == |s| &&
    forall i :: 0 <= i < |s| ==> t[i] == if start <= i < end && s[i] == key then rep else s[i]
  }

  /** A byte is rewritten exactly if it is a key at or behind start and no NUL stands between, unless NUL is the key. */
  lemma ReplacedExactly(s: bytes, t: bytes, key: byte, rep: byte, start: nat, i: nat)
    requires Replaced(s, t, key, rep, start, ReplaceEnd(s, key, start)) && i < |s|
    ensures t[i] ==
            if s[i] == key && start <= i && (key == NUL || forall j :: start <= j < i ==> s[j] != NUL) then rep else s[i]
  {
  }

  /** After every key has been replaced by another byte, `find` no longer finds it. */
  lemma ReplacedIsNotFound(s: bytes, t: bytes, key: byte, rep: byte, start: nat)
    requires key != NUL && rep != key
    requires Replaced(s, t, key, rep, start, ReplaceEnd(s, key, start))
    ensures Find(t, key, start) == -1
  {
  }

  // ----- the buffer as a typed stream -----

  /** The fields of a buffer, as a value. */
  datatype BufferState = BufferState(buf: bytes, rpos: nat, wpos: nat)

  /** `append<T>(data)`. */
  function Appended(st: BufferState, v: Scalar): BufferState {
    st.(buf := Overwrite(st.buf, st.wpos, Encode(v)), wpos := st.wpos + SizeOf(v.Kind()))
  }

  /** `read<T>()`. */
  function Fetched(st: BufferState, k: Kind): (Scalar, BufferState) {
    (ScalarAt(st.buf, st.rpos, k), st.(rpos := st.rpos + SizeOf(k)))
  }

  /** A value appended at the write cursor, wherever that is, is read back from there; the write cursor moves
      behind it, the read cursor stays, and nothing else that could be read changes. */
  lemma AppendedIsRead(st: BufferState, v: Scalar, i: nat, k: Kind)
    ensures var st' := Appended(st, v);
            ScalarAt(st'.buf, st.wpos, v.Kind()) == v &&
            |st'.buf| == (if |st.buf| < st.wpos + |Encode(v)| then st.wpos + |Encode(v)| else |st.buf|) &&
            st'.wpos == st.wpos + |Encode(v)| && st'.rpos == st.rpos &&
            (i + SizeOf(k) <= |st.buf| && (i + SizeOf(k) <= st.wpos || st.wpos + |Encode(v)| <= i) ==>
               ScalarAt(st'.buf, i, k) == ScalarAt(st.buf, i, k))
  {
    hide Encode, Decode, Overwrite, ScalarAt;
    WrittenIsRead(st.buf, st.wpos, v, i, k);
    OverwriteByIndex(st.buf, st.wpos, Encode(v), 0);
  }

  /** A read at the read cursor returns what stands there and moves it by the size read, beyond the end too. */
  lemma FetchedIsRead(st: BufferState, k: Kind)
    ensures var (v, st') := Fetched(st, k);
            (if st.rpos + SizeOf(k) <= |st.buf| then Encode(v) == st.buf[st.rpos..st.rpos + SizeOf(k)] else ValueOf(v) == 0) &&
            st'.rpos == st.rpos + SizeOf(k) && st'.buf == st.buf && st'.wpos == st.wpos
  {
    ReadExactly(st.buf, st.rpos, k);
  }

  datatype StreamOp = Write(v: Scalar) | Fetch(k: Kind)

  /** What the reads of a run return, and the state it leaves. */
  function StreamRun(st: BufferState, ops: seq<StreamOp>): (seq<Scalar>, BufferState)
    decreases |ops|
  {
    if ops == [] then ([], st)
    else
      match ops[0]
      case Write(v) => StreamRun(Appended(st, v), ops[1..])
      case Fetch(k) =>
        var (v, st') := Fetched(st, k);
        var (vs, end) := StreamRun(st', ops[1..]);
        ([v] + vs, end)
  }

  /** The same run on a queue of values; None when a read does not ask for the type at the front. */
  function QueueRun(queue: seq<Scalar>, ops: seq<StreamOp>): Option<(seq<Scalar>, seq<Scalar>)>
    decreases |ops|
  {
    if ops == [] then Some(([], queue))
    else
      match ops[0]
      case Write(v) => QueueRun(queue + [v], ops[1..])
      case Fetch(k) =>
        if queue == [] || queue[0].Kind() != k then None
        else
          match QueueRun(queue[1..], ops[1..])
          case None => None
          case Some((vs, end)) => Some(([queue[0]] + vs, end))
  }

  function EncodeAll(vs: seq<Scalar>): bytes {
    if vs == [] then [] else Encode(vs[0]) + EncodeAll(vs[1..])
  }

  /** The unread bytes are the images of the queued values, and the write cursor is at the end. */
  ghost predicate Holds(st: BufferState, queue: seq<Scalar>) {
    st.rpos <= |st.buf| == st.wpos && st.buf[st.rpos..] == EncodeAll(queue)
  }

  lemma {:induction false} EncodeAllAppend(vs: seq<Scalar>, v: Scalar)
    ensures EncodeAll(vs + [v]) == EncodeAll(vs) + Encode(v)
  {
    if vs == [] {
      assert vs + [v] == [v] && [v][1..] == [];
    } else {
      assert (vs + [v])[1..] == vs[1..] + [v];
      EncodeAllAppend(vs[1..], v);
    }
  }

  lemma WriteHolds(st: BufferState, queue: seq<Scalar>, v: Scalar)
    requires Holds(st, queue)
    ensures Holds(Appended(st, v), queue + [v])
  {
    hide Overwrite, Encode, EncodeAll;
    var d := Encode(v);
    OverwriteAtEnd(st.buf, d);
    EncodeAllAppend(queue, v);
    assert (st.buf + d)[st.rpos..] == st.buf[st.rpos..] + d;
  }

  lemma FetchHolds(st: BufferState, queue: seq<Scalar>)
    requires Holds(st, queue) && queue != []
    ensures Fetched(st, queue[0].Kind()).0 == queue[0]
    ensures Holds(Fetched(st, queue[0].Kind()).1, queue[1..])
  {
    var n := SizeOf(queue[0].Kind());
    hide Encode, Decode;
    var unread := st.buf[st.rpos..];
    assert unread[..n] == Encode(queue[0]) && unread[n..] == EncodeAll(queue[1..]);
    assert st.buf[st.rpos..st.rpos + n] == unread[..n];
    assert st.buf[st.rpos + n..] == unread[n..];
    DecodeEncode(queue[0]);
  }

  /** Any interleaving of typed writes with reads of the types written is a first-in first-out queue of values. */
  lemma {:induction false} StreamIsQueue(st: BufferState, queue: seq<Scalar>, ops: seq<StreamOp>)
    requires Holds(st, queue) && QueueRun(queue, ops).Some?
    ensures StreamRun(st, ops).0 == QueueRun(queue, ops).value.0
    ensures Holds(StreamRun(st, ops).1, QueueRun(queue, ops).value.1)
    decreases |ops|
  {
    if ops != [] {
      match ops[0]
      case Write(v) =>
        WriteHolds(st, queue, v);
        StreamIsQueue(Appended(st, v), queue + [v], ops[1..]);
      case Fetch(k) =>
        FetchHolds(st, queue);
        StreamIsQueue(Fetched(st, k).1, queue[1..], ops[1..]);
    }
  }

  /** A run that reads back everything written to a cleared buffer ends with both cursors at the end. */
  lemma StreamRoundTrip(ops: seq<StreamOp>)
    requires QueueRun([], ops).Some? && QueueRun([], ops).value.1 == []
    ensures StreamRun(BufferState([], 0, 0), ops).0 == QueueRun([], ops).value.0
    ensures var end := StreamRun(BufferState([], 0, 0), ops).1; end.rpos == end.wpos == |end.buf|
  {
    StreamIsQueue(BufferState([], 0, 0), [], ops);
  }

  // ----- the class -----

  class ByteBuffer {
    var rpos: nat
    var wpos: nat
    var buf: bytes

    ghost function State(): BufferState
      reads this
    {
      BufferState(buf, rpos, wpos)
    }

    constructor ()
      ensures State() == BufferState([], 0, 0)
    {
      rpos, wpos, buf := 0, 0, [];
    }

    /** Consumes the first `size` bytes of an array; a null array leaves the buffer empty. */
    constructor Consume(arr: array?<byte>, size: nat)
      requires arr != null ==> size <= arr.Length
      ensures State() == if arr == null then BufferState([], 0, 0) else BufferState(arr[..size], 0, size)
    {
      rpos, wpos, buf := 0, 0, [];
      new;
      if arr != null {
        PutBytes(arr[..size]);
        OverwriteAtEnd([], arr[..size]);
      }
    }

    /** `size() - rpos` in unsigned arithmetic. */
    method BytesRemaining() returns (n: nat)
      ensures n == (|buf| - rpos) % UINT_RANGE
      ensures |buf| < UINT_RANGE && rpos <= |buf| ==> n == |buf| - rpos
    {
      n := (|buf| - rpos) % UINT_RANGE;
    }

    method Clear()
      modifies this
      ensures State() == BufferState([], 0, 0)
    {
      rpos, wpos, buf := 0, 0, [];
    }

    method Resize(newSize: nat)
      modifies this
      ensures State() == BufferState((old(buf) + Zeros(newSize))[..newSize], 0, 0)
    {
      buf := if newSize <= |buf| then buf[..newSize] else buf + Zeros(newSize - |buf|);
      rpos, wpos := 0, 0;
      assert buf == (old(buf) + Zeros(newSize))[..newSize];
    }

    /** The documentation promises a copy. The arguments of `put` are swapped, so every
        write falls outside the empty vector and is dropped. */
    method Clone() returns (c: ByteBuffer)
      ensures fresh(c) && c.State() == BufferState([], 0, 0)
      ensures c.buf == buf <==> buf == []
    {
      c := new ByteBuffer();
      for i := 0 to |buf|
        invariant c.State() == BufferState([], 0, 0)
      {
        c.Insert(Byte((i % 256) as byte), ByteAt(buf, i) as nat);
      }
      c.rpos, c.wpos := 0, 0;
    }

    method Equals(other: ByteBuffer) returns (r: bool)
      ensures r <==> buf == other.buf
    {
      if |buf| != |other.buf| {
        return false;
      }
      for i := 0 to |buf|
        invariant forall j :: 0 <= j < i ==> buf[j] == other.buf[j]
      {
        if ByteAt(buf, i) != ByteAt(other.buf, i) {
          return false;
        }
      }
      return true;
    }

    method FindByte(key: byte, start: nat) returns (r: int)
      ensures r == Find(buf, key, start)
    {
      r := -1;
      var i := start;
      while i < |buf|
        invariant start <= i && (i <= |buf| || i == start)
        invariant i <= |buf| ==> forall j :: start <= j < i ==> !Stops(key, NUL).Has(buf[j])
      {
        var data := ByteAt(buf, i);
        if key != 0 && data == 0 {
          return;
        }
        if data == key {
          return i;
        }
        i := i + 1;
      }
    }

    /** Rewrites keys from `start` up to the first NUL; sizes and cursors stay. */
    method Replace(key: byte, rep: byte, start: nat, firstOnly: bool)
      modifies this`buf
      ensures !firstOnly ==> Replaced(old(buf), buf, key, rep, start, ReplaceEnd(old(buf), key, start))
      ensures firstOnly ==>
                var hit := Find(old(buf), key, start);
                buf == if hit == -1 then old(buf) else old(buf)[hit := rep]
    {
      var len := |buf|;
      var i := start;
      while i < len
        invariant start <= i && |buf| == len && (i <= len || i == start)
        invariant i <= ReplaceEnd(old(buf), key, start) || i == start
        invariant Replaced(old(buf), buf, key, rep, start, i)
        invariant firstOnly ==>
                    buf == old(buf) && (i <= len ==> forall j :: start <= j < i ==> !Stops(key, NUL).Has(buf[j]))
      {
        var data := ByteAt(buf, i);
        if key != 0 && data == 0 {
          return;
        }
        if data == key {
          buf := buf[i := rep];
          if firstOnly {
            return;
          }
        }
        i := i + 1;
      }
    }

    // ----- reading -----

    method Peek() returns (b: byte)
      ensures b == ByteAt(buf, rpos)
    {
      b := ByteAt(buf, rpos);
    }

    method Get() returns (b: byte)
      modifies this`rpos
      ensures b == ByteAt(buf, old(rpos)) && rpos == old(rpos) + 1
    {
      b := ByteAt(buf, rpos);
      rpos := rpos + 1;
    }

    method Read(k: Kind) returns (v: Scalar)
      modifies this`rpos
      ensures (v, State()) == Fetched(old(State()), k)
    {
      v := ScalarAt(buf, rpos, k);
      rpos := rpos + SizeOf(k);
    }

    /** Fills `dst` from the read cursor on. */
    method GetBytes(dst: array<byte>, len: nat)
      requires len <= dst.Length
      modifies this`rpos, dst
      ensures rpos == old(rpos) + len
      ensures forall i :: 0 <= i < len ==> dst[i] == ByteAt(buf, old(rpos) + i)
      ensures forall i :: len <= i < dst.Length ==> dst[i] == old(dst[i])
    {
      for i := 0 to len
        invariant rpos == old(rpos) + i
        invariant forall j :: 0 <= j < i ==> dst[j] == ByteAt(buf, old(rpos) + j)
        invariant forall j :: i <= j < dst.Length ==> dst[j] == old(dst[j])
      {
        dst[i] := Get();
      }
    }

    // ----- writing -----

    /** The `memcpy` of `append<T>` after its `resize`. */
    method AppendImage(image: bytes)
      requires image != []
      modifies this`buf, this`wpos
      ensures buf == Overwrite(old(buf), old(wpos), image) && wpos == old(wpos) + |image|
    {
      var n := |image|;
      if |buf| < wpos + n {
        buf := buf + Zeros(wpos + n - |buf|);
      }
      buf := buf[..wpos] + image + buf[wpos + n..];
      wpos := wpos + n;
    }

    method Append(v: Scalar)
      modifies this`buf, this`wpos
      ensures State() == Appended(old(State()), v)
    {
      AppendImage(Encode(v));
    }

    method Insert(v: Scalar, index: nat)
      modifies this`buf, this`wpos
      ensures if index + SizeOf(v.Kind()) > |old(buf)| then unchanged(this)
              else buf == Overwrite(old(buf), index, Encode(v)) && wpos == index + SizeOf(v.Kind())
    {
      var n := SizeOf(v.Kind());
      if index + n > |buf| {
        return;
      }
      buf := buf[..index] + Encode(v) + buf[index + n..];
      wpos := index + n;
    }

    /** `append<byte>`. */
    method PutByte(b: byte)
      modifies this`buf, this`wpos
      ensures buf == Overwrite(old(buf), old(wpos), [b]) && wpos == old(wpos) + 1
    {
      AppendImage([b]);
    }

    method PutBytes(b: bytes)
      modifies this`buf, this`wpos
      ensures buf == Overwrite(old(buf), old(wpos), b) && wpos == old(wpos) + |b|
    {
      hide Overwrite;
      NothingWritten(buf, wpos, b);
      for i := 0 to |b|
        invariant buf == Overwrite(old(buf), old(wpos), b[..i]) && wpos == old(wpos) + i
      {
        OverwriteStep(old(buf), old(wpos), b, i);
        PutByte(b[i]);
      }
      assert b[..|b|] == b;
    }

    method PutBytesAt(b: bytes, index: nat)
      modifies this`buf, this`wpos
      ensures buf == Overwrite(old(buf), index, b) && wpos == index + |b|
    {
      wpos := index;
      PutBytes(b);
    }

    /** Writes all of another buffer, or of this one, at the write cursor. */
    method PutBuffer(src: ByteBuffer)
      modifies this`buf, this`wpos
      ensures wpos == old(wpos) + |old(src.buf)|
      ensures src != this ==> buf == Overwrite(old(buf), old(wpos), src.buf)
      ensures src == this && old(wpos) == 0 ==> buf == old(buf)
      ensures src == this && old(wpos) > 0 && old(buf) != [] ==>
                Repeats(old(buf), buf, old(wpos), |old(buf)|)
      ensures src == this && old(buf) == [] ==> buf == []
      ensures src == this && old(wpos) == |old(buf)| ==> buf == old(buf) + old(buf)
    {
      hide Overwrite, SelfPut, Repeats;
      var len := |src.buf|;
      ghost var was, w := buf, wpos;
      NothingWritten(was, w, src.buf);
      SelfPutTurn(was, w, 0);
      for i := 0 to len
        invariant wpos == w + i
        invariant src != this ==> src.buf == old(src.buf) && buf == Overwrite(was, w, src.buf[..i])
        invariant src == this ==> buf == SelfPut(was, w, i)
      {
        if src != this {
          OverwriteStep(was, w, src.buf, i);
        } else {
          SelfPutTurn(was, w, i);
        }
        PutByte(ByteAt(src.buf, i));
      }
      assert src != this ==> src.buf[..len] == src.buf;
      SelfPutAtStart(was, |was|);
      SelfPutAtEnd(was);
      if w > 0 && was != [] {
        SelfPutRepeats(was, w, |was|);
      }
    }
  }
}
