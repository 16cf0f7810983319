/**
  The "%dx%d" texts of camera/1_0/CameraParameters.cpp: printing a pair of 32-bit ints,
  `strtol`, `parse_pair` and `parseSizesList`.
 */
module SizeText {
  import opened Basics
  import opened ParamMap

  type Int32 = x: int | -0x8000_0000 <= x < 0x8000_0000

  datatype Size = Size(width: Int32, height: Int32)

  // ---------------------------------------------------------------- printing

  function Digit(n: nat): char
    requires n < 10
  {
    '0' + n as char
  }

  predicate IsDigit(c: char) { '0' <= c <= '9' }

  function DigitValue(c: char): nat
    requires IsDigit(c)
  {
    c as int - '0' as int
  }

  function Decimal(n: nat): (s: string)
    ensures s != [] && forall i :: 0 <= i < |s| ==> IsDigit(s[i])
  {
    if n < 10 then [Digit(n)] else Decimal(n / 10) + [Digit(n % 10)]
  }

  function Abs(v: int): nat { if v < 0 then -v else v }

  /** `"%d"` */
  function PrintInt(v: int): string {
    if v < 0 then "-" + Decimal(-v) else Decimal(v)
  }

  /** `"%dx%d"` */
  function PrintSize(z: Size): string {
    PrintInt(z.width) + "x" + PrintInt(z.height)
  }

  // ---------------------------------------------------------------- strtol

  const LONG_MAX: int := 0x7fff_ffff_ffff_ffff
  const LONG_MIN: int := -0x8000_0000_0000_0000

  /** `isspace` */
  predicate IsSpace(c: char) {
    c == ' ' || '\t' <= c <= '\r'
  }

  function SkipSpaces(s: string): (n: nat)
    ensures n <= |s|
  {
    if s == [] || !IsSpace(s[0]) then 0 else 1 + SkipSpaces(s[1..])
  }

  function DigitRun(s: string): (n: nat)
    ensures n <= |s| && forall i :: 0 <= i < n ==> IsDigit(s[i])
  {
    if s == [] || !IsDigit(s[0]) then 0 else 1 + DigitRun(s[1..])
  }

  function DigitsValue(s: string): nat
    requires forall i :: 0 <= i < |s| ==> IsDigit(s[i])
  {
    if s == [] then 0 else 10 * DigitsValue(s[..|s| - 1]) + DigitValue(s[|s| - 1])
  }

  function Clamp(v: int): int {
    if v > LONG_MAX then LONG_MAX else if v < LONG_MIN then LONG_MIN else v
  }

  /** The run of digits at the start of `s`: its value, negated or not, and its length. */
  function Number(s: string, neg: bool): (r: (int, nat))
    ensures r.1 <= |s|
  {
    var n := DigitRun(s);
    var v: int := DigitsValue(s[..n]);
    (Clamp(if neg then -v else v), n)
  }

  function After(skipped: nat, r: (int, nat)): (int, nat) {
    if r.1 == 0 then (0, 0) else (r.0, skipped + r.1)
  }

  /** `strtol` in base 10: the value, and how many characters were used (0 without a digit). */
  function Strtol(s: string): (r: (int, nat))
    ensures r.1 <= |s|
  {
    var i := SkipSpaces(s);
    if i < |s| && (s[i] == '-' || s[i] == '+') then After(i + 1, Number(s[i + 1..], s[i] == '-'))
    else After(i, Number(s[i..], false))
  }

  /** The conversion of a `long` to an `int`. */
  function ToInt(v: int): Int32 {
    if -0x8000_0000 <= v < 0x8000_0000 then v
    else
      var m := v % 0x1_0000_0000;
      if m < 0x8000_0000 then m else m - 0x1_0000_0000
  }

  /** `parse_pair`: the two numbers and the number of characters used, or nothing. */
  function ParsePair(s: string, delim: char): (r: Option<(Size, nat)>)
    ensures r.Some? ==> 0 < r.value.1 <= |s|
  {
    var (w, e) := Strtol(s);
    if e == |s| || s[e] != delim then None
    else
      var (h, f) := Strtol(s[e + 1..]);
      Some((Size(ToInt(w), ToInt(h)), e + 1 + f))
  }

  // ---------------------------------------------------------------- number round trip

  ghost predicate StopsDigits(tail: string) { tail == [] || !IsDigit(tail[0]) }

  lemma {:induction false} DigitRunStops(d: string, tail: string)
    requires StopsDigits(tail) && forall i :: 0 <= i < |d| ==> IsDigit(d[i])
    ensures DigitRun(d + tail) == |d|
  {
    if d == [] {
      assert d + tail == tail;
    } else {
      assert (d + tail)[1..] == d[1..] + tail;
      DigitRunStops(d[1..], tail);
    }
  }

  lemma {:induction false} DecimalValue(n: nat)
    ensures DigitsValue(Decimal(n)) == n
  {
    var s := Decimal(n);
    if n >= 10 {
      assert s[..|s| - 1] == Decimal(n / 10);
      DecimalValue(n / 10);
    } else {
      assert s[..|s| - 1] == [];
    }
  }

  lemma NumberDigits(d: string, tail: string, neg: bool)
    requires StopsDigits(tail) && forall i :: 0 <= i < |d| ==> IsDigit(d[i])
    ensures Number(d + tail, neg) == (Clamp(if neg then 0 - DigitsValue(d) else DigitsValue(d)), |d|)
  {
    hide DigitsValue, DigitRun, Clamp;
    DigitRunStops(d, tail);
    assert (d + tail)[..|d|] == d;
  }

  /** Text that starts with a digit, and text that starts with a minus sign. */
  lemma StrtolStart(s: string)
    requires s != []
    ensures IsDigit(s[0]) ==> Strtol(s) == After(0, Number(s, false))
    ensures s[0] == '-' ==> Strtol(s) == After(1, Number(s[1..], true))
  {
    hide Number, After;
    assert s[0..] == s;
  }

  lemma StrtolUnsigned(d: string, tail: string)
    requires StopsDigits(tail) && d != [] && forall i :: 0 <= i < |d| ==> IsDigit(d[i])
    ensures Strtol(d + tail) == (Clamp(DigitsValue(d)), |d|)
  {
    hide Strtol, Number, DigitsValue, DigitRun, Clamp;
    assert (d + tail)[0] == d[0];
    StrtolStart(d + tail);
    NumberDigits(d, tail, false);
  }

  lemma StrtolNegative(d: string, tail: string)
    requires StopsDigits(tail) && d != [] && forall i :: 0 <= i < |d| ==> IsDigit(d[i])
    ensures Strtol(['-'] + (d + tail)) == (Clamp(0 - DigitsValue(d)), 1 + |d|)
  {
    hide Strtol, Number, DigitsValue, DigitRun, Clamp;
    var s := ['-'] + (d + tail);
    assert s[0] == '-' && s[1..] == d + tail;
    StrtolStart(s);
    NumberDigits(d, tail, true);
  }

  lemma StrtolMinus(n: nat, tail: string)
    requires StopsDigits(tail) && n <= 0x8000_0000
    ensures Strtol(("-" + Decimal(n)) + tail) == (0 - n, 1 + |Decimal(n)|)
  {
    hide Strtol, Decimal, DigitsValue;
    StrtolNegative(Decimal(n), tail);
    DecimalValue(n);
    assert ("-" + Decimal(n)) + tail == ['-'] + (Decimal(n) + tail);
  }

  lemma StrtolPlus(n: nat, tail: string)
    requires StopsDigits(tail) && n <= 0x8000_0000
    ensures Strtol(Decimal(n) + tail) == (n, |Decimal(n)|)
  {
    hide Strtol, Decimal, DigitsValue;
    StrtolUnsigned(Decimal(n), tail);
    DecimalValue(n);
  }

  /** `strtol` reads back what `%d` printed, and stops right after it. */
  lemma StrtolPrint(v: Int32, tail: string)
    requires StopsDigits(tail)
    ensures Strtol(PrintInt(v) + tail) == (v, |PrintInt(v)|)
  {
    if v < 0 {
      StrtolMinus(-(v as int), tail);
    } else {
      StrtolPlus(v, tail);
    }
  }

  lemma Split3(a: string, b: string, tail: string)
    ensures (a + "x" + b) + tail == a + ("x" + b + tail)
    ensures ((a + "x" + b) + tail)[|a|] == 'x' && ((a + "x" + b) + tail)[|a| + 1..] == b + tail
  {
  }

  lemma PairAt(s: string, delim: char, w: Int32, e: nat, h: Int32, f: nat)
    requires Strtol(s) == (w, e) && e < |s| && s[e] == delim && Strtol(s[e + 1..]) == (h, f)
    ensures ParsePair(s, delim) == Some((Size(w, h), e + 1 + f))
  {
    hide Strtol;
  }

  lemma PairText(a: string, b: string, tail: string, w: Int32, h: Int32)
    requires Strtol(a + ("x" + b + tail)) == (w, |a|) && Strtol(b + tail) == (h, |b|)
    ensures ParsePair((a + "x" + b) + tail, 'x') == Some((Size(w, h), |a| + 1 + |b|))
  {
    hide Strtol, ParsePair;
    Split3(a, b, tail);
    PairAt((a + "x" + b) + tail, 'x', w, |a|, h, |b|);
  }

  lemma ParseParts(a: string, b: string, w: Int32, h: Int32, tail: string)
    requires StopsDigits(tail) && a == PrintInt(w) && b == PrintInt(h)
    ensures ParsePair((a + "x" + b) + tail, 'x') == Some((Size(w, h), |a| + 1 + |b|))
  {
    hide Strtol, ParsePair, PrintInt;
    var rest := "x" + b + tail;
    assert rest[0] == 'x';
    StrtolPrint(w, rest);
    StrtolPrint(h, tail);
    PairText(a, b, tail, w, h);
  }

  /** `parse_pair` reads back what `%dx%d` printed. */
  lemma ParsePrinted(z: Size, tail: string)
    requires StopsDigits(tail)
    ensures ParsePair(PrintSize(z) + tail, 'x') == Some((z, |PrintSize(z)|))
  {
    hide Strtol, ParsePair, PrintInt;
    ParseParts(PrintInt(z.width), PrintInt(z.height), z.width, z.height, tail);
  }

  // ---------------------------------------------------------------- lists of sizes

  /** What `parseSizesList` appends: it stops at the first malformed pair and keeps what it has. */
  function SizesFrom(s: string): seq<Size>
    decreases |s|
  {
    match ParsePair(s, 'x')
    case None => []
    case Some((z, e)) =>
      if e == |s| then [z]
      else if s[e] != ',' then []
      else [z] + SizesFrom(s[e + 1..])
  }

  function JoinSizes(zs: seq<Size>): string {
    if zs == [] then ""
    else if |zs| == 1 then PrintSize(zs[0])
    else PrintSize(zs[0]) + "," + JoinSizes(zs[1..])
  }

  lemma SizesStep(s: string, z: Size, e: nat)
    requires ParsePair(s, 'x') == Some((z, e))
    ensures e == |s| ==> SizesFrom(s) == [z]
    ensures e < |s| && s[e] == ',' ==> SizesFrom(s) == [z] + SizesFrom(s[e + 1..])
  {
    hide Strtol, ParsePair;
  }

  lemma Split2(t: string, more: string)
    ensures t + "," + more == t + ("," + more)
    ensures (t + "," + more)[|t|] == ',' && (t + "," + more)[|t| + 1..] == more
  {
  }

  lemma SizesText(t: string, z: Size, more: string)
    requires ParsePair(t + ("," + more), 'x') == Some((z, |t|))
    ensures SizesFrom(t + "," + more) == [z] + SizesFrom(more)
  {
    hide Strtol, ParsePair, SizesFrom;
    Split2(t, more);
    SizesStep(t + "," + more, z, |t|);
  }

  /** Every non-empty list of sizes is recovered from its text. */
  lemma {:induction false} SizesRoundTrip(zs: seq<Size>)
    requires zs != []
    ensures SizesFrom(JoinSizes(zs)) == zs
  {
    hide Strtol, ParsePair, SizesFrom, PrintSize;
    var t := PrintSize(zs[0]);
    if |zs| == 1 {
      ParsePrinted(zs[0], "");
      assert t + "" == t && zs == [zs[0]];
      SizesStep(t, zs[0], |t|);
    } else {
      var more := JoinSizes(zs[1..]);
      ParsePrinted(zs[0], "," + more);
      SizesText(t, zs[0], more);
      SizesRoundTrip(zs[1..]);
      assert [zs[0]] + zs[1..] == zs;
    }
  }

  /** `parseSizesList` */
  method ParseSizesList(text: string, sizes: seq<Size>) returns (r: seq<Size>)
    ensures r == sizes + SizesFrom(text)
  {
    hide Strtol, ParsePair;
    r := sizes;
    var at := text;
    while true
      invariant r + SizesFrom(at) == sizes + SizesFrom(text)
      decreases |at|
    {
      var p := ParsePair(at, 'x');
      if p.None? || (p.value.1 < |at| && at[p.value.1] != ',') {
        return;
      }
      var (z, e) := p.value;
      r := r + [z];
      if e == |at| {
        return;
      }
      at := at[e + 1..];
    }
  }
}
