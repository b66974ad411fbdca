/**
 * The text formats as a grammar of their own: decimal numerals by the weight of their digits, netstrings,
 * and exactly what readString accepts.
 */
module Grammar {
  import opened Octets
  import opened Streams
  import opened Formats

  // ---------------------------------------------------------------- numerals

  function Pow10(k: nat): (n: nat)
    ensures n >= 1
  {
    if k == 0 then 1 else 10 * Pow10(k - 1)
  }

  predicate Numeral(d: Bytes) { forall i | 0 <= i < |d| :: 48 <= d[i] <= 57 }

  /** The last `k` digits, each with its weight: the digit at distance `j` from the right counts 10^j times. */
  function Weighed(d: Bytes, k: nat): nat
    requires Numeral(d) && k <= |d|
  {
    if k == 0 then 0 else Weighed(d, k - 1) + (d[|d| - k] as int - 48) * Pow10(k - 1)
  }

  lemma WeighedStep(d: Bytes, k: nat)
    requires Numeral(d) && 1 <= k <= |d|
    ensures 48 <= d[|d| - k]
    ensures Weighed(d, k) == Weighed(d, k - 1) + (d[|d| - k] as int - 48) * Pow10(k - 1)
    ensures Weighed(d, 0) == 0 && Pow10(0) == 1 && (k > 1 ==> Pow10(k - 1) == 10 * Pow10(k - 2))
  {
  }

  lemma {:induction false} WeighedInit(d: Bytes, k: nat)
    requires Numeral(d) && 1 <= k <= |d|
    ensures Weighed(d, k) == 10 * Weighed(d[..|d| - 1], k - 1) + (d[|d| - 1] as int - 48)
  {
    hide Weighed, Pow10;
    var init := d[..|d| - 1];
    WeighedStep(d, k);
    if k == 1 {
      WeighedEmpty(init);
    } else {
      WeighedInit(d, k - 1);
      WeighedStep(init, k - 1);
      assert init[|init| - (k - 1)] == d[|d| - k];
      TenTimes(d[|d| - k] as int - 48, Pow10(k - 2));
    }
  }

  lemma WeighedEmpty(d: Bytes)
    requires Numeral(d)
    ensures Weighed(d, 0) == 0
  {
  }

  lemma TenTimes(x: nat, y: nat)
    ensures x * (10 * y) == 10 * (x * y)
  {
  }

  /** The value that is read is the sum of the weighed digits. */
  lemma {:induction false} ValueIsSum(d: Bytes)
    requires Numeral(d)
    ensures Value(d) == Weighed(d, |d|)
  {
    if d != [] {
      ValueIsSum(d[..|d| - 1]);
      WeighedInit(d, |d|);
    }
  }

  /** How a number is written: the digits weigh as much as the number, and none leads that is zero. */
  predicate Writes(d: Bytes, n: nat) {
    Numeral(d) && d != [] && (d[0] == 48 ==> |d| == 1) && Weighed(d, |d|) == n
  }

  lemma {:induction false} FirstDigit(n: nat)
    ensures Dec(n)[0] == 48 <==> n == 0
    ensures n == 0 ==> Dec(n) == [48]
  {
    if n >= 10 {
      FirstDigit(n / 10);
      assert Dec(n)[0] == Dec(n / 10)[0];
    }
  }

  lemma DecWrites(n: nat)
    ensures Writes(Dec(n), n)
  {
    ValueDec(n);
    ValueIsSum(Dec(n));
    FirstDigit(n);
  }

  lemma {:induction false} OneNumeral(d: Bytes)
    requires Numeral(d) && d != [] && (d[0] == 48 ==> |d| == 1)
    ensures Dec(Value(d)) == d
  {
    var init, last := d[..|d| - 1], d[|d| - 1];
    assert d == init + [last];
    if init == [] {
      assert Value(init) == 0;
    } else {
      OneNumeral(init);
      FirstDigit(Value(init));
      DivTen(Value(init), last as int - 48);
    }
  }

  lemma DivTen(x: nat, y: nat)
    requires y < 10
    ensures (10 * x + y) / 10 == x && (10 * x + y) % 10 == y
  {
  }

  /** A number is printed as its one decimal numeral. */
  lemma DecIff(d: Bytes, n: nat)
    ensures d == Dec(n) <==> Writes(d, n)
  {
    hide Dec, Value, Weighed;
    DecWrites(n);
    if Writes(d, n) {
      ValueIsSum(d);
      OneNumeral(d);
    }
  }

  /** And a signed one with a minus sign in front if it is negative. */
  lemma DecIntIff(d: Bytes, v: int)
    ensures d == DecInt(v) <==> if v < 0 then d != [] && d[0] == 45 && Writes(d[1..], -v) else Writes(d, v)
  {
    hide Dec, Writes;
    if v < 0 {
      DecIff(if d == [] then [] else d[1..], -v);
      assert d != [] ==> d == [d[0]] + d[1..];
    } else {
      DecIff(d, v);
    }
  }

  // ---------------------------------------------------------------- netstrings

  /** Length in decimal, colon, payload, comma. */
  predicate IsNetstring(file: Bytes, n: nat, payload: Bytes) {
    && |file| == n + |payload| + 2
    && Writes(file[..n], |payload|)
    && file[n] == 58 && file[n + 1..n + 1 + |payload|] == payload && file[n + 1 + |payload|] == 44
  }

  /** writeString prints exactly the netstring of D. J. Bernstein. */
  lemma NetstringIff(file: Bytes, payload: Bytes)
    ensures file == Netstring(payload) <==> exists n: nat :: IsNetstring(file, n, payload)
  {
    hide Dec, Writes;
    if file == Netstring(payload) {
      var n := |Dec(|payload|)|;
      DecIff(Dec(|payload|), |payload|);
      assert file[0..|file|] == file;
      NetstringFields(file, 0, payload);
      assert file[..n] == file[0..n];
      assert IsNetstring(file, n, payload);
    }
    if n: nat :| IsNetstring(file, n, payload) {
      DecIff(file[..n], |payload|);
      assert file == file[..n] + [file[n]] + file[n + 1..n + 1 + |payload|] + [file[n + 1 + |payload|]];
    }
  }

  // ---------------------------------------------------------------- what readString accepts

  predicate White(b: byte) { b in [9, 10, 11, 12, 13, 32] }

  predicate Blanks(data: Bytes, from: nat, to: nat) {
    from <= to <= |data| && forall i | from <= i < to :: White(data[i])
  }

  predicate Digits(data: Bytes, from: nat, to: nat) {
    from <= to <= |data| && Numeral(data[from..to])
  }

  /** Blanks, an optional sign, digits; `p` is where they start and `q` where the digits do. */
  predicate SignedDigits(data: Bytes, pos: nat, p: nat, q: nat, e: nat) {
    && Blanks(data, pos, p)
    && (q == p || (q == p + 1 && p < |data| && (data[p] == 43 || data[p] == 45)))
    && Digits(data, q, e)
  }

  /** The length that digits behind a sign stand for: with a minus sign, the number modulo 2^64. */
  function Length(data: Bytes, p: nat, q: nat, e: nat): (r: int)
    requires p <= q && Digits(data, q, e)
    ensures Weighed(data[q..e], e - q) < 0x1_0000_0000_0000_0000 ==> r >= 0
  {
    var n := Weighed(data[q..e], e - q);
    if p < q && data[p] == 45 && n > 0 then 0x1_0000_0000_0000_0000 - n else n
  }

  // Where the stream operations stop.
  lemma BlanksSkipped(data: Bytes, pos: nat, p: nat)
    requires Blanks(data, pos, p) && (p < |data| ==> !White(data[p]))
    ensures SkipSpace(data, pos) == p
  {
    SkipsSpaces(data, pos, p);
  }

  lemma {:induction false} SkippedBlanks(data: Bytes, pos: nat)
    requires pos <= |data|
    ensures Blanks(data, pos, SkipSpace(data, pos))
    decreases |data| - pos
  {
    if pos < |data| && IsSpace(data[pos]) {
      SkippedBlanks(data, pos + 1);
    }
  }

  lemma DigitsTaken(data: Bytes, q: nat, e: nat)
    requires Digits(data, q, e) && (e < |data| ==> !IsDigit(data[e]))
    ensures DigitsEnd(data, q) == e
  {
    forall i | q <= i < e
      ensures IsDigit(data[i])
    {
      assert data[i] == data[q..e][i - q];
    }
    DigitsStop(data, q, e);
  }

  lemma {:induction false} DigitsEndStops(data: Bytes, pos: nat)
    requires pos <= |data|
    ensures var e := DigitsEnd(data, pos); e < |data| ==> !IsDigit(data[e])
    decreases |data| - pos
  {
    if pos < |data| && IsDigit(data[pos]) {
      DigitsEndStops(data, pos + 1);
    }
  }

  /** `in >> size` where there is a number, followed by something that is not a digit. */
  lemma NumberRead(s: Stream, p: nat, q: nat, e: nat)
    requires s.Good() && SignedDigits(s.data, s.pos, p, q, e) && q < e && (e < |s.data| ==> !IsDigit(s.data[e]))
    ensures var n := Weighed(s.data[q..e], e - q);
            && ExtractU64(s).0 == Input(s.data, e, e == |s.data|, n >= TWO64)
            && (n < TWO64 ==> ExtractU64(s).1 == Length(s.data, p, q, e))
  {
    hide Weighed;
    assert s.data[q] == s.data[q..e][0];
    BlanksSkipped(s.data, s.pos, p);
    DigitsTaken(s.data, q, e);
    ValueIsSum(s.data[q..e]);
    if Weighed(s.data[q..e], e - q) < TWO64 {
      WrapLength(Weighed(s.data[q..e], e - q));
    }
  }

  lemma WrapLength(n: nat)
    requires n < TWO64
    ensures n % TWO64 == n && (0 - n as int) % TWO64 == if n > 0 then TWO64 - n else 0
  {
  }

  /**
   * `in >> x` in all cases: a variable keeps its value if nothing but blanks is left, becomes zero without
   * a digit, and the nearest value of its type if the number is too large.
   */
  lemma NumberInto(s: Stream, p: nat, q: nat, e: nat, before: u64, beforeInt: int)
    requires s.Good() && SignedDigits(s.data, s.pos, p, q, e) && (e < |s.data| ==> !IsDigit(s.data[e]))
    requires p < |s.data| ==> !White(s.data[p]) && q == AfterSign(s.data, p)
    ensures var n := Weighed(s.data[q..e], e - q);
            ExtractU64Into(s, before)
            == (Input(s.data, e, e == |s.data|, q == e || n >= 0x1_0000_0000_0000_0000),
                if p == |s.data| then before
                else if q == e then 0
                else if n >= 0x1_0000_0000_0000_0000 then 0xFFFF_FFFF_FFFF_FFFF
                else Length(s.data, p, q, e))
    ensures var n := Weighed(s.data[q..e], e - q);
            var v: int := if p < q && s.data[p] == 45 then 0 - n else n;
            ExtractIntInto(s, beforeInt)
            == (Input(s.data, e, e == |s.data|, q == e || v < -0x8000_0000 || v > 0x7FFF_FFFF),
                if p == |s.data| then beforeInt
                else if q == e then 0
                else if v < -0x8000_0000 then -0x8000_0000
                else if v > 0x7FFF_FFFF then 0x7FFF_FFFF
                else v)
  {
    hide Weighed;
    BlanksSkipped(s.data, s.pos, p);
    DigitsTaken(s.data, q, e);
    ValueIsSum(s.data[q..e]);
    if Weighed(s.data[q..e], e - q) < TWO64 {
      WrapLength(Weighed(s.data[q..e], e - q));
    }
  }

  // There is always such a stretch, though it may hold no digit.
  lemma NumberPlace(s: Stream) returns (p: nat, q: nat, e: nat)
    requires s.Good()
    ensures SignedDigits(s.data, s.pos, p, q, e) && (e < |s.data| ==> !IsDigit(s.data[e]))
    ensures p < |s.data| ==> !White(s.data[p]) && q == AfterSign(s.data, p)
    ensures q == e ==> ExtractU64(s).0.fail && ExtractU64(s).0.eof == (e == |s.data|)
  {
    p := SkipSpace(s.data, s.pos);
    SkippedBlanks(s.data, s.pos);
    q := if p < |s.data| then AfterSign(s.data, p) else p;
    e := DigitsEnd(s.data, q);
    DigitsEndStops(s.data, q);
    forall i | 0 <= i < e - q
      ensures 48 <= s.data[q..e][i] <= 57
    {
      assert IsDigit(s.data[q + i]);
    }
  }

  /** A length, a colon at `c`, the payload `v`, a comma at `m`, with blanks before the length, colon and comma. */
  predicate ReadsString(data: Bytes, pos: nat, p: nat, q: nat, e: nat, c: nat, m: nat, v: Bytes) {
    && SignedDigits(data, pos, p, q, e) && q < e && Weighed(data[q..e], e - q) < 0x1_0000_0000_0000_0000
    && Blanks(data, e, c) && c < |data| && data[c] == 58
    && var n := Length(data, p, q, e);
       && Blanks(data, c + 1 + n, m) && m < |data| && data[m] == 44 && v == data[c + 1..c + 1 + n]
  }

  lemma CharRead(s: Stream) returns (c: nat)
    requires s.Good()
    ensures Blanks(s.data, s.pos, c) && (c < |s.data| ==> !White(s.data[c]))
    ensures if c < |s.data| then ExtractChar(s) == (s.(pos := c + 1), s.data[c]) else ExtractChar(s).0.fail
  {
    c := SkipSpace(s.data, s.pos);
    SkippedBlanks(s.data, s.pos);
  }

  lemma PayloadRead(s: Stream, n: nat)
    requires s.Good()
    ensures if n <= |s.data| - s.pos then ReadBytes(s, n) == (s.(pos := s.pos + n), s.data[s.pos..s.pos + n])
            else ReadBytes(s, n).0.fail && ExtractChar(ReadBytes(s, n).0).0.fail
  {
  }

  // The one place where blanks end.
  lemma OnePlace(data: Bytes, pos: nat, c: nat, c': nat)
    requires Blanks(data, pos, c) && (c < |data| ==> !White(data[c]))
    requires Blanks(data, pos, c') && (c' < |data| ==> !White(data[c']))
    ensures c == c'
  {
    BlanksSkipped(data, pos, c);
    BlanksSkipped(data, pos, c');
  }

  lemma StringTaken(s: Stream, p: nat, q: nat, e: nat, c: nat, m: nat, v: Bytes)
    requires s.Good() && ReadsString(s.data, s.pos, p, q, e, c, m, v)
    ensures ReadString(s) == (true, v, s.(pos := m + 1))
  {
    hide ExtractU64, ExtractChar, ReadBytes, Weighed, Length, SignedDigits;
    SignedFits(s.data, s.pos, p, q, e);
    NumberRead(s, p, q, e);
    var n: nat := Length(s.data, p, q, e);
    var c' := CharRead(s.(pos := e));
    OnePlace(s.data, e, c, c');
    PayloadRead(s.(pos := c + 1), n);
    var m' := CharRead(s.(pos := c + 1 + n));
    OnePlace(s.data, c + 1 + n, m, m');
  }

  lemma SignedFits(data: Bytes, pos: nat, p: nat, q: nat, e: nat)
    requires SignedDigits(data, pos, p, q, e)
    ensures pos <= p <= q <= e <= |data| && Digits(data, q, e)
  {
  }

  lemma TakenString(s: Stream) returns (p: nat, q: nat, e: nat, c: nat, m: nat)
    requires s.Good() && ReadString(s).0 && !ReadString(s).2.eof
    ensures ReadsString(s.data, s.pos, p, q, e, c, m, ReadString(s).1) && ReadString(s).2 == s.(pos := m + 1)
  {
    hide ExtractU64, ExtractChar, ReadBytes, Weighed, Length, SignedDigits;
    p, q, e := NumberPlace(s);
    SignedFits(s.data, s.pos, p, q, e);
    assert q < e;
    NumberRead(s, p, q, e);
    var n: nat := Length(s.data, p, q, e);
    c := CharRead(s.(pos := e));
    PayloadRead(s.(pos := c + 1), n);
    m := CharRead(s.(pos := c + 1 + n));
  }

  lemma EndTaken(s: Stream, p: nat, q: nat)
    requires s.Good() && SignedDigits(s.data, s.pos, p, q, |s.data|)
    ensures ReadString(s).0 && ReadString(s).2.eof
  {
    hide Weighed, Value;
    if p < |s.data| {
      assert q == p ==> s.data[p] == s.data[q..|s.data|][0];
      BlanksSkipped(s.data, s.pos, p);
      DigitsTaken(s.data, q, |s.data|);
    } else {
      BlanksSkipped(s.data, s.pos, p);
    }
  }

  lemma TakenEnd(s: Stream) returns (p: nat, q: nat)
    requires s.Good() && ReadString(s).0 && ReadString(s).2.eof
    ensures SignedDigits(s.data, s.pos, p, q, |s.data|)
  {
    hide ExtractU64, Weighed, Length, SignedDigits;
    var e;
    p, q, e := NumberPlace(s);
    SignedFits(s.data, s.pos, p, q, e);
    if q < e {
      NumberRead(s, p, q, e);
    }
    assert e == |s.data|;
  }

  /**
   * readString succeeds on such a string and leaves the stream behind the comma; it also reports success,
   * at the end of the file, if nothing but blanks, a sign and digits is left; and on nothing else.
   */
  lemma ReadStringIff(s: Stream, v: Bytes, end: nat)
    requires s.Good() && end <= |s.data|
    ensures ReadString(s) == (true, v, s.(pos := end))
            <==> exists p: nat, q: nat, e: nat, c: nat, m: nat ::
                   ReadsString(s.data, s.pos, p, q, e, c, m, v) && end == m + 1
    ensures ReadString(s).0 && ReadString(s).2.eof
            <==> exists p: nat, q: nat :: SignedDigits(s.data, s.pos, p, q, |s.data|)
  {
    hide ReadString, ReadsString, SignedDigits;
    if ReadString(s).0 && !ReadString(s).2.eof {
      var p, q, e, c, m := TakenString(s);
    }
    if p: nat, q: nat, e: nat, c: nat, m: nat :| ReadsString(s.data, s.pos, p, q, e, c, m, v) && end == m + 1 {
      StringTaken(s, p, q, e, c, m, v);
    }
    if ReadString(s).0 && ReadString(s).2.eof {
      var p, q := TakenEnd(s);
    }
    if p: nat, q: nat :| SignedDigits(s.data, s.pos, p, q, |s.data|) {
      EndTaken(s, p, q);
    }
  }
}
