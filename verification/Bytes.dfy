/** Bytes, byte strings, and the searches the rest of the model is stated with.
    A `std::string`, a `byte*` with its length and a `std::vector<byte>` are all
    values of type `bytes` here. */
module Bytes {

  newtype byte = x: int | 0 <= x < 256

  type bytes = seq<byte>

  datatype Option<+T> = None | Some(value: T)

  /** What ends a call abnormally: `std::out_of_range`, or behaviour the C++ standard leaves undefined. */
  datatype Fault = OutOfRange | Undefined

  datatype Result<+T> = Ok(value: T) | Err(fault: Fault)

  /** The one or two bytes a search stops at. */
  datatype Stops = Stops(a: byte, b: byte) {
    predicate Has(x: byte) {
      x == a || x == b
    }
  }

  const NUL: byte := 0
  const LF: byte := 10
  const CR: byte := 13
  const SPACE: byte := 32
  const COMMA: byte := 44
  const COLON: byte := 58
  const CRLF: bytes := [CR, LF]
  const EOL := Stops(CR, LF)

  const INT_MAX := 0x7FFF_FFFF
  const INT_MIN := -0x8000_0000
  const UINT_RANGE := 0x1_0000_0000

  /** The bytes of an ASCII literal. */
  function Ascii(text: string): (r: bytes)
    requires forall i :: 0 <= i < |text| ==> text[i] as int < 128
    ensures |r| == |text|
    ensures forall i :: 0 <= i < |text| ==> r[i] as int == text[i] as int
  {
    seq(|text|, i requires 0 <= i < |text| => text[i] as int as byte)
  }

  /** The first position from `p` on that holds a byte of `stop`; `|s|` if there is none. */
  function FirstIn(s: bytes, p: nat, stop: Stops): (r: nat)
    requires p <= |s|
    ensures p <= r <= |s|
    ensures forall i :: p <= i < r ==> !stop.Has(s[i])
    ensures r < |s| ==> stop.Has(s[r])
    decreases |s| - p
  {
    if p == |s| || stop.Has(s[p]) then p else FirstIn(s, p + 1, stop)
  }

  /** The first position that does not hold `b`; `|s|` if every byte is `b`. */
  function FirstOther(s: bytes, b: byte): (r: nat)
    ensures r <= |s|
    ensures forall i :: 0 <= i < r ==> s[i] == b
    ensures r < |s| ==> s[r] != b
  {
    if s == [] || s[0] != b then 0 else 1 + FirstOther(s[1..], b)
  }

  predicate Free(s: bytes, stop: Stops) {
    forall i :: 0 <= i < |s| ==> !stop.Has(s[i])
  }

  /** Nothing but NULs follows the first NUL. */
  predicate NulsLast(s: bytes) {
    forall i, j :: 0 <= i < j < |s| && s[i] == NUL ==> s[j] == NUL
  }

  /** The text `w` stands in `s` at position `p`. */
  predicate At(s: bytes, p: nat, w: bytes) {
    p + |w| <= |s| && s[p..p + |w|] == w
  }

  /** `std::string::find(needle) != npos`, and `strstr` on the bytes before the NUL. */
  predicate Contains(s: bytes, needle: bytes) {
    exists i :: 0 <= i <= |s| && At(s, i, needle)
  }

  /** The text a `char*` denotes: the bytes before the first NUL. */
  function CString(s: bytes): (r: bytes)
    ensures r <= s && Free(r, Stops(NUL, NUL))
    ensures |r| < |s| ==> s[|r|] == NUL
  {
    s[..FirstIn(s, 0, Stops(NUL, NUL))]
  }

  /** The single bytes and CRLF, as the characters they stand for. */
  lemma Characters()
    ensures [NUL, LF, CR, SPACE, COMMA, COLON] == Ascii("\0\n\r ,:")
    ensures CRLF == Ascii("\r\n") && (forall b :: EOL.Has(b) <==> [b] == Ascii("\r") || [b] == Ascii("\n"))
  {
    assert Ascii("\r")[0] == 13 && Ascii("\n")[0] == 10;
  }

  lemma AtSplit(s: bytes, p: nat, a: bytes, b: bytes)
    requires At(s, p, a + b)
    ensures At(s, p, a) && At(s, p + |a|, b)
  {
    assert s[p..p + |a|] == s[p..p + |a + b|][..|a|];
    assert s[p + |a|..p + |a| + |b|] == s[p..p + |a + b|][|a|..];
  }

  lemma Associative(a: bytes, b: bytes, c: bytes)
    ensures a + b + c == a + (b + c)
  {
  }

  lemma Cut(s: bytes, n: nat)
    requires n <= |s|
    ensures s == s[..n] + s[n..]
  {
  }

  lemma Pieces(s: bytes, i: nat, b: byte)
    requires i < |s| && s[i] == b
    ensures s == s[..i] + [b] + s[i + 1..]
  {
  }

  lemma FreeAppend(a: bytes, b: bytes, stop: Stops)
    requires Free(a, stop) && Free(b, stop)
    ensures Free(a + b, stop)
  {
  }

  /** Where the three parts of a text stand. */
  lemma Layout(a: bytes, b: bytes, c: bytes)
    ensures var s := a + (b + c);
            At(s, 0, a) && At(s, |a|, b) && |a| + |b| <= |s| && s[|a| + |b|..] == c
  {
  }

  /** A search that stops right behind a text free of stop bytes found that text. */
  lemma FirstInAt(s: bytes, p: nat, w: bytes, stop: Stops)
    requires At(s, p, w) && Free(w, stop) && p + |w| < |s| && stop.Has(s[p + |w|])
    ensures FirstIn(s, p, stop) == p + |w|
  {
    assert forall i :: p <= i < p + |w| ==> s[i] == s[p..p + |w|][i - p];
  }
}
