// The textual seek command "AESDCHAR_IOCSEEKTO:X,Y": decimal text, strtol, and the recogniser.
module SeekText {
  import opened Bytes

  const COMMA: byte := 44
  const PLUS: byte := 43
  const MINUS: byte := 45
  const ZERO: byte := 48
  const NINE: byte := 57

  /** "AESDCHAR_IOCSEEKTO:" */
  const PREFIX: seq<byte> := [65, 69, 83, 68, 67, 72, 65, 82, 95, 73, 79, 67, 83, 69, 69, 75, 84, 79, 58]

  const LONG_MAX := 0x7FFF_FFFF_FFFF_FFFF
  const LONG_MIN := -0x8000_0000_0000_0000
  const UINT32_MODULUS := 0x1_0000_0000

  predicate IsSpace(c: byte) {
    c == 32 || 9 <= c <= 13
  }

  predicate IsDigit(c: byte) {
    ZERO <= c <= NINE
  }

  // ---- strtol, base 10, section 7.22.1.4 of ISO C11 ----

  function SpaceCount(s: seq<byte>): (n: nat)
    ensures n <= |s|
    ensures forall i :: 0 <= i < n ==> IsSpace(s[i])
    ensures n < |s| ==> !IsSpace(s[n])
  {
    if s == [] || !IsSpace(s[0]) then 0 else 1 + SpaceCount(s[1..])
  }

  function DigitCount(s: seq<byte>): (n: nat)
    ensures n <= |s|
    ensures forall i :: 0 <= i < n ==> IsDigit(s[i])
    ensures n < |s| ==> !IsDigit(s[n])
  {
    if s == [] || !IsDigit(s[0]) then 0 else 1 + DigitCount(s[1..])
  }

  function DigitsValue(ds: seq<byte>): nat
    requires forall i :: 0 <= i < |ds| ==> IsDigit(ds[i])
  {
    if ds == [] then 0
    else
      var last := ds[|ds| - 1];
      assert IsDigit(last);
      10 * DigitsValue(ds[..|ds| - 1]) + (last - ZERO) as nat
  }

  function Clamp(v: int): int {
    if v > LONG_MAX then LONG_MAX else if v < LONG_MIN then LONG_MIN else v
  }

  /** The value read and how far endptr moves; length 0 means that nothing was converted. */
  datatype Number = Number(value: int, length: nat)

  function Strtol(s: seq<byte>): (n: Number)
    ensures n.length <= |s|
  {
    var spaces := SpaceCount(s);
    var signed := spaces < |s| && (s[spaces] == PLUS || s[spaces] == MINUS);
    var start := if signed then spaces + 1 else spaces;
    var count := DigitCount(s[start..]);
    if count == 0 then Number(0, 0)
    else
      var magnitude: int := DigitsValue(s[start..][..count]);
      Number(Clamp(if signed && s[spaces] == MINUS then -magnitude else magnitude), start + count)
  }

  /** A long stored in an int and passed as uint32_t. */
  function ToUint32(v: int): nat {
    v % UINT32_MODULUS
  }

  // ---- the recogniser ----

  /** The seek request in a chunk, or None when the chunk is ordinary data. */
  function SeekCommand(chunk: seq<byte>): Option<(nat, nat)> {
    if PREFIX <= chunk && |chunk| > |PREFIX| && COMMA in chunk[|PREFIX| + 1..] then
      var text := chunk[|PREFIX|..];
      var x := Strtol(text);
      if x.length > 0 && x.length < |text| && text[x.length] == COMMA then
        var y := Strtol(text[x.length + 1..]);
        if y.length > 0 then Some((ToUint32(x.value), ToUint32(y.value))) else None
      else None
    else None
  }

  // ---- what the recogniser accepts ----

  /** A number as strtol takes it: any spaces, a sign or none, at least one digit. */
  datatype NumberText = NumberText(spaces: seq<byte>, sign: seq<byte>, digits: seq<byte>)
  {
    ghost predicate Valid() {
      && (forall i :: 0 <= i < |spaces| ==> IsSpace(spaces[i]))
      && (sign == [] || sign == [PLUS] || sign == [MINUS])
      && digits != [] && forall i :: 0 <= i < |digits| ==> IsDigit(digits[i])
    }

    ghost function Text(): seq<byte> {
      spaces + (sign + digits)
    }

    ghost function Value(): int
      requires Valid()
    {
      var magnitude: int := DigitsValue(digits);
      if sign == [MINUS] then -magnitude else magnitude
    }
  }

  predicate EndsNumber(rest: seq<byte>) {
    rest == [] || !IsDigit(rest[0])
  }

  lemma {:induction false} SpaceCountOf(spaces: seq<byte>, rest: seq<byte>)
    requires forall i :: 0 <= i < |spaces| ==> IsSpace(spaces[i])
    requires rest == [] || !IsSpace(rest[0])
    ensures SpaceCount(spaces + rest) == |spaces|
  {
    if spaces == [] {
      assert spaces + rest == rest;
    } else {
      assert (spaces + rest)[1..] == spaces[1..] + rest;
      SpaceCountOf(spaces[1..], rest);
    }
  }

  lemma {:induction false} DigitCountOf(ds: seq<byte>, rest: seq<byte>)
    requires forall i :: 0 <= i < |ds| ==> IsDigit(ds[i])
    requires EndsNumber(rest)
    ensures DigitCount(ds + rest) == |ds|
  {
    if ds == [] {
      assert ds + rest == rest;
    } else {
      assert (ds + rest)[1..] == ds[1..] + rest;
      DigitCountOf(ds[1..], rest);
    }
  }

  /** The parts strtol finds. */
  lemma StrtolParts(s: seq<byte>, k: nat, start: nat, ds: seq<byte>)
    requires k <= start <= |s| && SpaceCount(s) == k
    requires start == if k < |s| && (s[k] == PLUS || s[k] == MINUS) then k + 1 else k
    requires s[start..][..DigitCount(s[start..])] == ds
    requires forall i :: 0 <= i < |ds| ==> IsDigit(ds[i])
    ensures var magnitude: int := DigitsValue(ds);
            Strtol(s) ==
            if ds == [] then Number(0, 0)
            else Number(Clamp(if s[k] == MINUS then -magnitude else magnitude), start + |ds|)
  {
    hide DigitsValue, SpaceCount, DigitCount, Clamp;
  }

  lemma Grouped(a: seq<byte>, b: seq<byte>, c: seq<byte>, d: seq<byte>)
    ensures var s := (a + (b + c)) + d;
            && s == a + (b + (c + d))
            && s[|a|..] == b + (c + d)
            && s[|a| + |b|..] == c + d
            && s[|a| + |b| + |c|..] == d
  {
  }

  /** strtol reads every such number to its end, saturating. */
  lemma StrtolReads(n: NumberText, rest: seq<byte>)
    requires n.Valid() && EndsNumber(rest)
    ensures Strtol(n.Text() + rest) == Number(Clamp(n.Value()), |n.Text()|)
  {
    hide Strtol, DigitsValue, SpaceCount, DigitCount, Clamp;
    var s, k := n.Text() + rest, |n.spaces|;
    Grouped(n.spaces, n.sign, n.digits, rest);
    assert s[k] == s[k..][0] && IsDigit(n.digits[0]);
    SpaceCountOf(n.spaces, s[k..]);
    DigitCountOf(n.digits, rest);
    StrtolParts(s, k, k + |n.sign|, n.digits);
  }

  lemma CutInFour(s: seq<byte>, a: nat, b: nat, c: nat)
    requires a <= b <= c <= |s|
    ensures s == (s[..a] + (s[a..b] + s[b..c])) + s[c..]
    ensures s[b..][..c - b] == s[b..c]
  {
  }

  /** And whatever strtol converts is such a number, up to a byte that is no digit. */
  lemma StrtolFinds(s: seq<byte>) returns (n: NumberText)
    requires Strtol(s).length > 0
    ensures n.Valid() && EndsNumber(s[Strtol(s).length..])
    ensures |n.Text()| == Strtol(s).length && s == n.Text() + s[Strtol(s).length..]
    ensures Strtol(s).value == Clamp(n.Value())
  {
    hide Strtol, DigitsValue, SpaceCount, DigitCount, Clamp;
    var k := SpaceCount(s);
    var start := if k < |s| && (s[k] == PLUS || s[k] == MINUS) then k + 1 else k;
    var tail := s[start..];
    var ds := tail[..DigitCount(tail)];
    StrtolParts(s, k, start, ds);
    n := NumberText(s[..k], s[k..start], ds);
    CutInFour(s, k, start, start + |ds|);
  }

  /** The recogniser on a chunk that starts with the prefix. */
  lemma AfterPrefix(text: seq<byte>)
    requires text != [] && COMMA in text[1..]
    ensures SeekCommand(PREFIX + text) ==
            var x := Strtol(text);
            if x.length > 0 && x.length < |text| && text[x.length] == COMMA then
              var y := Strtol(text[x.length + 1..]);
              if y.length > 0 then Some((ToUint32(x.value), ToUint32(y.value))) else None
            else None
  {
    var chunk := PREFIX + text;
    assert chunk[|PREFIX|..] == text;
    assert chunk[|PREFIX| + 1..] == text[1..];
  }

  /** The chunk is the prefix, a number, a comma, a second number, and anything that does not
      continue it. */
  ghost predicate IsRequest(chunk: seq<byte>, x: NumberText, y: NumberText, rest: seq<byte>) {
    && x.Valid() && y.Valid() && EndsNumber(rest)
    && chunk == PREFIX + (x.Text() + ([COMMA] + (y.Text() + rest)))
  }

  lemma RequestIsRecognised(chunk: seq<byte>, x: NumberText, y: NumberText, rest: seq<byte>)
    requires IsRequest(chunk, x, y, rest)
    ensures x.Valid() && y.Valid() && SeekCommand(chunk) == Some(Requested(x, y))
  {
    hide Strtol, PREFIX, NumberText.Valid, NumberText.Text, NumberText.Value;
    var tail := y.Text() + rest;
    var text := x.Text() + ([COMMA] + tail);
    StrtolReads(x, [COMMA] + tail);
    StrtolReads(y, rest);
    NumberIsNotEmpty(x);
    NumberIsNotEmpty(y);
    assert text[1..][|x.Text()| - 1] == COMMA;
    assert text[|x.Text()| + 1..] == tail;
    AfterPrefix(text);
  }

  lemma NumberIsNotEmpty(n: NumberText)
    requires n.Valid()
    ensures |n.Text()| > 0
  {
  }

  /** The two numbers of a recognised chunk, each as strtol reads it. */
  lemma RecognisedParts(chunk: seq<byte>) returns (x: Number, y: Number, tail: seq<byte>)
    requires SeekCommand(chunk).Some?
    ensures var text := chunk[|PREFIX|..];
            && PREFIX <= chunk
            && x == Strtol(text) && 0 < x.length < |text|
            && text[x.length..] == [COMMA] + tail
            && y == Strtol(tail) && y.length > 0
  {
    hide Strtol;
    var text := chunk[|PREFIX|..];
    x := Strtol(text);
    tail := text[x.length + 1..];
    y := Strtol(tail);
  }

  lemma RecognisedIsRequest(chunk: seq<byte>) returns (x: NumberText, y: NumberText, rest: seq<byte>)
    requires SeekCommand(chunk).Some?
    ensures IsRequest(chunk, x, y, rest)
  {
    hide Strtol, SeekCommand, NumberText.Valid, NumberText.Text;
    var first, second, tail := RecognisedParts(chunk);
    x := StrtolFinds(chunk[|PREFIX|..]);
    y := StrtolFinds(tail);
    rest := tail[second.length..];
    assert chunk == PREFIX + chunk[|PREFIX|..];
  }

  /** The pair that a request asks for, as the server's integers hold it. */
  ghost function Requested(x: NumberText, y: NumberText): (nat, nat)
    requires x.Valid() && y.Valid()
  {
    (ToUint32(Clamp(x.Value())), ToUint32(Clamp(y.Value())))
  }

  /** The recogniser accepts exactly these chunks, and gives their two numbers. */
  lemma SeekCommandIff(chunk: seq<byte>)
    ensures SeekCommand(chunk).Some? <==> exists x, y, rest :: IsRequest(chunk, x, y, rest)
    ensures forall x, y, rest :: IsRequest(chunk, x, y, rest) ==>
              && x.Valid() && y.Valid() && SeekCommand(chunk) == Some(Requested(x, y))
  {
    hide SeekCommand, IsRequest;
    if SeekCommand(chunk).Some? {
      var x, y, rest := RecognisedIsRequest(chunk);
    }
    forall x, y, rest | IsRequest(chunk, x, y, rest)
      ensures x.Valid() && y.Valid() && SeekCommand(chunk) == Some(Requested(x, y))
    {
      RequestIsRecognised(chunk, x, y, rest);
    }
  }

  /** Text without the prefix is data. */
  lemma WithoutPrefix(chunk: seq<byte>)
    requires !(PREFIX <= chunk)
    ensures SeekCommand(chunk) == None
  {
    if SeekCommand(chunk).Some? {
      var x, y, rest := RecognisedIsRequest(chunk);
    }
  }

  /** " -1,+007x" after the prefix asks for command 4294967295 and offset 7. */
  lemma SignsAndZeros()
    ensures SeekCommand(PREFIX + [32, MINUS, 49, COMMA, PLUS, ZERO, ZERO, 55, 120]) == Some((0xFFFF_FFFF, 7))
  {
    hide SeekCommand;
    var x, y := NumberText([32], [MINUS], [49]), NumberText([], [PLUS], [ZERO, ZERO, 55]);
    assert [ZERO, ZERO, 55][..2] == [ZERO, ZERO] && [ZERO, ZERO][..1] == [ZERO] && [49][..0] == [];
    assert DigitsValue([ZERO]) == 0 && DigitsValue([ZERO, ZERO]) == 0;
    assert y.Value() == 7 && x.Value() == -1;
    assert x.Text() + ([COMMA] + (y.Text() + [120])) == [32, MINUS, 49, COMMA, PLUS, ZERO, ZERO, 55, 120];
    RequestIsRecognised(PREFIX + [32, MINUS, 49, COMMA, PLUS, ZERO, ZERO, 55, 120], x, y, [120]);
    assert Clamp(-1) == -1 && Clamp(7) == 7;
  }

  // ---- printing a request ----

  function Decimal(n: nat): (ds: seq<byte>)
    ensures |ds| > 0
  {
    var digit := (n % 10) as byte + ZERO;
    if n < 10 then [digit] else Decimal(n / 10) + [digit]
  }

  function SeekLine(x: nat, y: nat): seq<byte> {
    PREFIX + Decimal(x) + [COMMA] + Decimal(y) + [NEWLINE]
  }

  lemma {:induction false} DecimalIsDigits(n: nat)
    ensures forall i :: 0 <= i < |Decimal(n)| ==> IsDigit(Decimal(n)[i])
    ensures DigitsValue(Decimal(n)) == n
  {
    if n >= 10 {
      DecimalIsDigits(n / 10);
      assert Decimal(n)[..|Decimal(n)| - 1] == Decimal(n / 10);
    }
  }

  /** strtol reads back what was printed, saturating at LONG_MAX, and stops right after it. */
  lemma StrtolReadsDecimal(n: nat, rest: seq<byte>)
    requires rest == [] || !IsDigit(rest[0])
    ensures Strtol(Decimal(n) + rest) == Number(Clamp(n), |Decimal(n)|)
  {
    DecimalIsDigits(n);
    var number := NumberText([], [], Decimal(n));
    StrtolReads(number, rest);
    assert number.Text() == Decimal(n);
  }

  /** Leading zeros do not count, so that every digit string has the value whose decimal form it
      shows, in whatever base-ten form. */
  lemma {:induction false} DigitsAreDecimal(ds: seq<byte>) returns (zeros: seq<byte>)
    requires ds != [] && forall i :: 0 <= i < |ds| ==> IsDigit(ds[i])
    ensures forall i :: 0 <= i < |zeros| ==> zeros[i] == ZERO
    ensures ds == zeros + Decimal(DigitsValue(ds))
  {
    var init, last := ds[..|ds| - 1], ds[|ds| - 1];
    assert IsDigit(last);
    if DigitsValue(init) == 0 {
      zeros := init;
      if init != [] {
        var more := DigitsAreDecimal(init);
      }
    } else {
      zeros := DigitsAreDecimal(init);
      assert DigitsValue(ds) / 10 == DigitsValue(init);
    }
  }

  lemma Regroup(a: seq<byte>, b: seq<byte>, c: seq<byte>, d: seq<byte>, e: seq<byte>)
    ensures a + b + c + d + e == a + (b + (c + (d + e)))
  {
  }

  /** Every printed request is recognised, with both numbers as the server's integers hold them. */
  lemma SeekLineIsRecognised(x: nat, y: nat)
    ensures SeekCommand(SeekLine(x, y)) == Some((ToUint32(Clamp(x)), ToUint32(Clamp(y))))
  {
    hide SeekCommand, Clamp, PREFIX, DigitsValue, Decimal;
    var first, second := NumberText([], [], Decimal(x)), NumberText([], [], Decimal(y));
    DecimalIsDigits(x);
    DecimalIsDigits(y);
    Regroup(PREFIX, Decimal(x), [COMMA], Decimal(y), [NEWLINE]);
    assert first.Text() == Decimal(x) && second.Text() == Decimal(y);
    RequestIsRecognised(SeekLine(x, y), first, second, [NEWLINE]);
  }

  lemma FitsUint32(n: nat)
    ensures ToUint32(Clamp(n)) == n <==> n < UINT32_MODULUS
  {
  }

  /** The round trip is exact for uint32_t pairs and for no others. */
  lemma SeekRoundTrip(x: nat, y: nat)
    ensures SeekCommand(SeekLine(x, y)) == Some((x, y)) <==> x < UINT32_MODULUS && y < UINT32_MODULUS
  {
    SeekLineIsRecognised(x, y);
    FitsUint32(x);
    FitsUint32(y);
  }

  function Power10(d: nat): nat {
    if d == 0 then 1 else 10 * Power10(d - 1)
  }

  lemma {:induction false} DecimalLength(n: nat, d: nat)
    requires d > 0 && n < Power10(d)
    ensures |Decimal(n)| <= d
  {
    if n >= 10 {
      assert d > 1;
      DecimalLength(n / 10, d - 1);
    }
  }

  /** A request for uint32_t values is at most 41 bytes long and has its only newline at the end. */
  lemma SeekLineIsShortLine(x: nat, y: nat)
    requires x < UINT32_MODULUS && y < UINT32_MODULUS
    ensures |SeekLine(x, y)| <= 41
    ensures forall i :: 0 <= i < |SeekLine(x, y)| ==>
              SeekLine(x, y)[i] != NUL && (SeekLine(x, y)[i] == NEWLINE <==> i == |SeekLine(x, y)| - 1)
  {
    assert Power10(5) == 100000;
    assert Power10(10) == 10000000000;
    DecimalLength(x, 10);
    DecimalLength(y, 10);
    DecimalIsDigits(x);
    DecimalIsDigits(y);
  }
}
