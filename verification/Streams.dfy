/** The part of std::ifstream and of operator<< that src/storage.cpp uses. */
module Streams {
  import opened Octets

  /** An input stream: contents, read position, eofbit, failbit. */
  datatype Input = Input(data: Bytes, pos: nat, eof: bool, fail: bool) {
    predicate Good() { !eof && !fail }
  }

  type Stream = s: Input | s.pos <= |s.data| witness Input([], 0, false, false)

  function Open(data: Bytes): Stream { Input(data, 0, false, false) }

  predicate IsSpace(b: byte) { 9 <= b <= 13 || b == 32 }
  predicate IsDigit(b: byte) { 48 <= b <= 57 }

  function SkipSpace(data: Bytes, pos: nat): (p: nat)
    requires pos <= |data|
    ensures pos <= p <= |data|
    ensures p < |data| ==> !IsSpace(data[p])
    decreases |data| - pos
  {
    if pos < |data| && IsSpace(data[pos]) then SkipSpace(data, pos + 1) else pos
  }

  function DigitsEnd(data: Bytes, pos: nat): (p: nat)
    requires pos <= |data|
    ensures pos <= p <= |data|
    ensures forall i | pos <= i < p :: IsDigit(data[i])
    decreases |data| - pos
  {
    if pos < |data| && IsDigit(data[pos]) then DigitsEnd(data, pos + 1) else pos
  }

  /** The number a string of digits stands for. */
  function Value(digits: Bytes): nat
    requires forall i | 0 <= i < |digits| :: IsDigit(digits[i])
  {
    if digits == [] then 0
    else
      assert IsDigit(digits[|digits| - 1]);
      10 * Value(digits[..|digits| - 1]) + (digits[|digits| - 1] as int - 48)
  }

  const MINUS: byte := 45
  const PLUS: byte := 43

  // Where a number may start, behind white space and a sign.
  function AfterSign(data: Bytes, p: nat): (q: nat)
    requires p < |data|
    ensures p <= q <= p + 1
  {
    if data[p] == MINUS || data[p] == PLUS then p + 1 else p
  }

  /** `in >> x` for an integer: position behind the number, the flags, and the signed value if there is one. */
  function ExtractNumber(s: Stream): (Stream, int, bool)
  {
    if !s.Good() then (s.(fail := true), 0, false)
    else
      var p := SkipSpace(s.data, s.pos);
      if p == |s.data| then (Input(s.data, p, true, true), 0, false)
      else
        var q := AfterSign(s.data, p);
        var e := DigitsEnd(s.data, q);
        var v: int := Value(s.data[q..e]);
        (Input(s.data, e, e == |s.data|, e == q), if s.data[p] == MINUS then -v else v, e != q)
  }

  /** Unsigned 64 bits: a minus sign wraps around, too large a number fails. */
  function ExtractU64(s: Stream): (Stream, u64)
  {
    var (t, v, ok) := ExtractNumber(s);
    if !ok then (t, 0)
    else if -TWO64 < v < TWO64 then (t, v % TWO64)
    else (t.(fail := true), INVALID)
  }

  /** A 32-bit int. */
  function ExtractInt(s: Stream): (Stream, int)
  {
    var (t, v, ok) := ExtractNumber(s);
    if !ok then (t, 0)
    else if -0x8000_0000 <= v < 0x8000_0000 then (t, v)
    else (t.(fail := true), if v < 0 then -0x8000_0000 else 0x7FFF_FFFF)
  }

  // With nothing left to read, `in >> x` does not touch the variable.
  predicate NothingLeft(s: Stream) { !s.Good() || SkipSpace(s.data, s.pos) == |s.data| }

  /** `in >> x` into a variable that holds `before`. */
  function ExtractU64Into(s: Stream, before: u64): (Stream, u64) {
    var (t, v) := ExtractU64(s);
    (t, if NothingLeft(s) then before else v)
  }

  function ExtractIntInto(s: Stream, before: int): (Stream, int) {
    var (t, v) := ExtractInt(s);
    (t, if NothingLeft(s) then before else v)
  }

  /** `in >> c` for a character. */
  function ExtractChar(s: Stream): (Stream, byte)
  {
    if !s.Good() then (s.(fail := true), 0)
    else
      var p := SkipSpace(s.data, s.pos);
      if p == |s.data| then (Input(s.data, p, true, true), 0) else (s.(pos := p + 1), s.data[p])
  }

  function NulBytes(n: nat): Bytes { seq<byte>(n, _ => 0) }

  /** `in.read` into a zeroed buffer of `n` bytes. */
  function ReadBytes(s: Stream, n: nat): (Stream, Bytes)
  {
    if !s.Good() then (s.(fail := true), NulBytes(n))
    else if n <= |s.data| - s.pos then (s.(pos := s.pos + n), s.data[s.pos..s.pos + n])
    else (Input(s.data, |s.data|, true, true), s.data[s.pos..] + NulBytes(n - (|s.data| - s.pos)))
  }

  // ---------------------------------------------------------------- printing numbers

  /** `out << n` */
  function Dec(n: nat): (digits: Bytes)
    ensures digits != [] && forall i | 0 <= i < |digits| :: IsDigit(digits[i])
  {
    if n < 10 then [48 + n] else Dec(n / 10) + [48 + n % 10]
  }

  lemma {:induction false} ValueDec(n: nat)
    ensures Value(Dec(n)) == n
  {
    if n >= 10 {
      ValueDec(n / 10);
      assert Dec(n)[..|Dec(n)| - 1] == Dec(n / 10);
    }
  }

  function DecInt(v: int): Bytes {
    if v < 0 then [MINUS] + Dec(-v) else Dec(v)
  }

  lemma {:induction false} SkipsSpaces(data: Bytes, pos: nat, q: nat)
    requires pos <= q <= |data|
    requires forall i | pos <= i < q :: IsSpace(data[i])
    requires q < |data| ==> !IsSpace(data[q])
    ensures SkipSpace(data, pos) == q
    decreases q - pos
  {
    if pos < q {
      SkipsSpaces(data, pos + 1, q);
    }
  }

  lemma {:induction false} DigitsStop(data: Bytes, pos: nat, e: nat)
    requires pos <= e <= |data|
    requires forall i | pos <= i < e :: IsDigit(data[i])
    requires e < |data| ==> !IsDigit(data[e])
    ensures DigitsEnd(data, pos) == e
    decreases e - pos
  {
    if pos < e {
      DigitsStop(data, pos + 1, e);
    }
  }

  /** A printed number, behind white space, is read back; reading it sets eofbit only at the very end. */
  lemma ExtractDec(s: Stream, q: nat, n: nat)
    requires s.Good() && s.pos <= q && q + |Dec(n)| <= |s.data|
    requires forall i | s.pos <= i < q :: IsSpace(s.data[i])
    requires s.data[q..q + |Dec(n)|] == Dec(n)
    requires q + |Dec(n)| < |s.data| ==> !IsDigit(s.data[q + |Dec(n)|])
    ensures var e := q + |Dec(n)|;
            ExtractNumber(s) == (Input(s.data, e, e == |s.data|, false), n, true)
  {
    var e := q + |Dec(n)|;
    assert forall i | q <= i < e :: s.data[i] == Dec(n)[i - q];
    assert IsDigit(s.data[q]);
    SkipsSpaces(s.data, s.pos, q);
    DigitsStop(s.data, q, e);
    ValueDec(n);
  }

  lemma ExtractDecU64(s: Stream, q: nat, n: u64)
    requires s.Good() && s.pos <= q && q + |Dec(n)| <= |s.data|
    requires forall i | s.pos <= i < q :: IsSpace(s.data[i])
    requires s.data[q..q + |Dec(n)|] == Dec(n)
    requires q + |Dec(n)| < |s.data| ==> !IsDigit(s.data[q + |Dec(n)|])
    ensures var e := q + |Dec(n)|; ExtractU64(s) == (Input(s.data, e, e == |s.data|, false), n)
  {
    hide ExtractNumber, Dec;
    ExtractDec(s, q, n);
  }

  lemma ExtractPrintedInt(v: int)
    requires -0x8000_0000 <= v < 0x8000_0000
    ensures ExtractInt(Open(DecInt(v))) == (Input(DecInt(v), |DecInt(v)|, true, false), v)
    ensures !NothingLeft(Open(DecInt(v)))
  {
    var data := DecInt(v);
    if v >= 0 {
      assert data[0..0 + |Dec(v)|] == Dec(v);
      ExtractDec(Open(data), 0, v);
    } else {
      SkipsSpaces(data, 0, 0);
      assert forall i | 1 <= i < |data| :: data[i] == Dec(-v)[i - 1];
      DigitsStop(data, 1, |data|);
      assert data[1..|data|] == Dec(-v);
      ValueDec(-v);
    }
  }
}
