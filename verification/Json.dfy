/** JSON texts as section 2 of RFC 8259 defines them: a reader, and the way back from decimal
    integers and escaped strings. */
module Json {
  import opened Bits

  datatype Json =
    | Null
    | Bool(b: bool)
    | Number(n: int)                    // an integer literal, as the double JavaScript makes of it
    | OtherNumber(literal: string)      // a literal with a fraction or an exponent
    | Str(text: string)
    | Arr(items: seq<Json>)
    | Obj(members: map<string, Json>)

  datatype Step<+T> = Bad | Ok(value: T, rest: string)

  predicate Starts(s: string, c: char) { s != "" && s[0] == c }

  // ---- strings (section 7) ----------------------------------------------------------------------

  function HexValue(c: char): int {
    if '0' <= c <= '9' then c as int - '0' as int
    else if 'a' <= c <= 'f' then c as int - 'a' as int + 10
    else if 'A' <= c <= 'F' then c as int - 'A' as int + 10
    else -1
  }

  /** The value of four hexadecimal digits, or -1. */
  function Hex4Value(s: string): int {
    if |s| < 4 || (exists i | 0 <= i < 4 :: HexValue(s[i]) < 0) then -1
    else 4096 * HexValue(s[0]) + 256 * HexValue(s[1]) + 16 * HexValue(s[2]) + HexValue(s[3])
  }

  function Cons(c: char, step: Step<string>): Step<string> {
    if step.Bad? then Bad else Ok([c] + step.value, step.rest)
  }

  /** What a one-letter escape stands for. */
  function Unescape(c: char): Step<char> {
    if c in "\"\\/" then Ok(c, "")
    else if c == 'b' then Ok('\U{0008}', "")
    else if c == 'f' then Ok('\U{000C}', "")
    else if c == 'n' then Ok('\n', "")
    else if c == 'r' then Ok('\r', "")
    else if c == 't' then Ok('\t', "")
    else Bad
  }

  predicate HighSurrogate(code: int) { 0xD800 <= code < 0xDC00 }

  predicate LowSurrogate(code: int) { 0xDC00 <= code < 0xE000 }

  /** The character of a `\u` escape whose first digit comes next; two surrogates make one. */
  function ReadUnicode(s: string): (step: Step<char>)
    ensures step.Ok? ==> |step.rest| < |s|
  {
    var code := Hex4Value(s);
    if code < 0 || LowSurrogate(code) then Bad
    else if !HighSurrogate(code) then Ok(code as char, s[4..])
    else
      var low := if |s| >= 10 && s[4..6] == "\\u" then Hex4Value(s[6..]) else -1;
      if !LowSurrogate(low) then Bad
      else Ok((0x10000 + (code - 0xD800) * 0x400 + (low - 0xDC00)) as char, s[10..])
  }

  /** The characters of a string whose opening quote has been read, up to the closing one. */
  function ReadChars(s: string): (step: Step<string>)
    ensures step.Ok? ==> |step.rest| < |s|
  {
    if s == "" || s[0] as int < 0x20 then Bad
    else if s[0] == '"' then Ok("", s[1..])
    else if s[0] != '\\' then Cons(s[0], ReadChars(s[1..]))
    else if |s| == 1 then Bad
    else if s[1] != 'u' then
      if Unescape(s[1]).Bad? then Bad else Cons(Unescape(s[1]).value, ReadChars(s[2..]))
    else
      var c := ReadUnicode(s[2..]);
      if c.Bad? then Bad else Cons(c.value, ReadChars(c.rest))
  }

  // ---- numbers (section 6) ----------------------------------------------------------------------

  predicate Digit(c: char) { '0' <= c <= '9' }

  function DigitRun(s: string): (k: nat)
    ensures k <= |s| && (forall i | 0 <= i < k :: Digit(s[i])) && (k < |s| ==> !Digit(s[k]))
  {
    if s == "" || !Digit(s[0]) then 0 else 1 + DigitRun(s[1..])
  }

  function DigitValue(c: char): nat
    requires Digit(c)
  {
    c as int - '0' as int
  }

  function DecimalValue(s: string): nat
    requires forall i | 0 <= i < |s| :: Digit(s[i])
  {
    if s == "" then 0 else 10 * DecimalValue(s[..|s| - 1]) + DigitValue(s[|s| - 1])
  }

  /** How much of `s` a fraction takes: nothing, or a point and digits; -1 when malformed. */
  function FractionLength(s: string): (k: int)
    ensures k <= |s|
  {
    if s == "" || s[0] != '.' then 0 else if DigitRun(s[1..]) == 0 then -1 else 1 + DigitRun(s[1..])
  }

  function ExponentLength(s: string): (k: int)
    ensures k <= |s|
  {
    if s == "" || s[0] !in "eE" then 0
    else
      var sign := if |s| > 1 && s[1] in "+-" then 2 else 1;
      if DigitRun(s[sign..]) == 0 then -1 else sign + DigitRun(s[sign..])
  }

  /** The integer part: a lone zero, or a run of digits. */
  function IntegerLength(s: string): (k: nat)
    ensures k <= |s| && forall i | 0 <= i < k :: Digit(s[i])
  {
    if s != "" && s[0] == '0' then 1 else DigitRun(s)
  }

  /** Fraction and exponent together; -1 when either is malformed. */
  function SuffixLength(s: string): (k: int)
    ensures k <= |s|
  {
    var f := FractionLength(s);
    if f < 0 then -1
    else
      var e := ExponentLength(s[f..]);
      if e < 0 then -1 else f + e
  }

  function ReadUnsigned(s: string, sign: string): (step: Step<Json>)
    ensures step.Ok? ==> |step.rest| < |s|
  {
    var k := IntegerLength(s);
    var x := SuffixLength(s[k..]);
    if k == 0 || x < 0 then Bad
    else if x > 0 then Ok(OtherNumber(sign + s[..k + x]), s[k + x..])
    else
      var size: int := RoundToDouble(DecimalValue(s[..k]));
      Ok(Number(if sign == "" then size else -size), s[k..])
  }

  function ReadNumber(s: string): (step: Step<Json>)
    ensures step.Ok? ==> |step.rest| < |s|
  {
    if Starts(s, '-') then ReadUnsigned(s[1..], "-") else ReadUnsigned(s, "")
  }

  // ---- values (sections 2 to 5) -----------------------------------------------------------------

  function SkipSpace(s: string): (t: string)
    ensures |t| <= |s|
  {
    if s != "" && s[0] in " \t\n\r" then SkipSpace(s[1..]) else s
  }

  function ReadWord(s: string, word: string, v: Json): (step: Step<Json>)
    ensures step.Ok? && word != "" ==> |step.rest| < |s|
  {
    if word <= s then Ok(v, s[|word|..]) else Bad
  }

  function ReadValue(s: string): (step: Step<Json>)
    ensures step.Ok? ==> |step.rest| < |s|
    decreases |s|, 1
  {
    var t := SkipSpace(s);
    if t == "" then Bad
    else if t[0] == '"' then
      var text := ReadChars(t[1..]);
      if text.Bad? then Bad else Ok(Str(text.value), text.rest)
    else if t[0] == '{' then
      var inner := SkipSpace(t[1..]);
      if Starts(inner, '}') then Ok(Obj(map[]), inner[1..]) else ReadMembers(inner, map[])
    else if t[0] == '[' then
      var inner := SkipSpace(t[1..]);
      if Starts(inner, ']') then Ok(Arr([]), inner[1..]) else ReadItems(inner, [])
    else if t[0] == 'n' then ReadWord(t, "null", Null)
    else if t[0] == 't' then ReadWord(t, "true", Bool(true))
    else if t[0] == 'f' then ReadWord(t, "false", Bool(false))
    else ReadNumber(t)
  }

  /** Members of an object up to its brace; a repeated name keeps the last value. */
  function ReadMembers(s: string, sofar: map<string, Json>): (step: Step<Json>)
    ensures step.Ok? ==> |step.rest| < |s|
    decreases |s|, 2
  {
    var t := SkipSpace(s);
    if !Starts(t, '"') then Bad
    else
      var name := ReadChars(t[1..]);
      if name.Bad? then Bad
      else
        var colon := SkipSpace(name.rest);
        if !Starts(colon, ':') then Bad
        else
          var value := ReadValue(colon[1..]);
          if value.Bad? then Bad
          else
            var next, members := SkipSpace(value.rest), sofar[name.value := value.value];
            if Starts(next, ',') then ReadMembers(next[1..], members)
            else if Starts(next, '}') then Ok(Obj(members), next[1..])
            else Bad
  }

  function ReadItems(s: string, sofar: seq<Json>): (step: Step<Json>)
    ensures step.Ok? ==> |step.rest| < |s|
    decreases |s|, 2
  {
    var value := ReadValue(s);
    if value.Bad? then Bad
    else
      var next, items := SkipSpace(value.rest), sofar + [value.value];
      if Starts(next, ',') then ReadItems(next[1..], items)
      else if Starts(next, ']') then Ok(Arr(items), next[1..])
      else Bad
  }

  /** `JSON.parse`: one value with nothing but white space after it. */
  function Parse(s: string): (step: Step<Json>) {
    var value := ReadValue(s);
    if value.Ok? && SkipSpace(value.rest) == "" then value else Bad
  }

  // ---- decimal integers -------------------------------------------------------------------------

  function Decimal(n: nat): (s: string)
    ensures s != "" && forall i | 0 <= i < |s| :: Digit(s[i])
  {
    (if n < 10 then "" else Decimal(n / 10)) + [('0' as int + n % 10) as char]
  }

  lemma {:induction false} DecimalMeans(n: nat)
    ensures DecimalValue(Decimal(n)) == n
    ensures Decimal(n)[0] == '0' ==> n == 0
  {
    var s := Decimal(n);
    if n >= 10 {
      DecimalMeans(n / 10);
      assert s[..|s| - 1] == Decimal(n / 10);
    } else {
      assert s[..|s| - 1] == "";
    }
  }

  lemma DecimalInjective(m: nat, n: nat)
    requires Decimal(m) == Decimal(n)
    ensures m == n
  {
    DecimalMeans(m);
    DecimalMeans(n);
  }

  lemma {:induction false} RunOf(s: string, tail: string)
    requires forall i | 0 <= i < |s| :: Digit(s[i])
    requires tail == "" || !Digit(tail[0])
    ensures DigitRun(s + tail) == |s|
  {
    if s != "" {
      assert (s + tail)[1..] == s[1..] + tail;
      RunOf(s[1..], tail);
    } else {
      assert s + tail == tail;
    }
  }

  /** A text that follows a member's value: the comma or the brace. */
  predicate Ends(tail: string) { tail != "" && tail[0] in ",}" }

  /** A text that may follow any value. */
  predicate Stops(tail: string) { tail == "" || tail[0] in ",}] \t\n\r" }

  lemma IntegerPart(d: string, tail: string)
    requires d != "" && (forall i | 0 <= i < |d| :: Digit(d[i])) && (d[0] == '0' ==> |d| == 1)
    requires tail == "" || !Digit(tail[0])
    ensures IntegerLength(d + tail) == |d|
  {
    hide DigitRun;
    RunOf(d, tail);
    assert (d + tail)[0] == d[0];
  }

  lemma NoSuffix(tail: string)
    requires Stops(tail)
    ensures SuffixLength(tail) == 0
  {
    hide DigitRun;
    assert tail[0..] == tail;
  }

  /** A number without fraction and exponent. */
  lemma ReadPlainNumber(d: string, tail: string, sign: string)
    requires Stops(tail)
    requires d != "" && forall i | 0 <= i < |d| :: Digit(d[i])
    requires d[0] == '0' ==> |d| == 1
    ensures var size: int := RoundToDouble(DecimalValue(d));
            ReadUnsigned(d + tail, sign) == Ok(Number(if sign == "" then size else -size), tail)
  {
    hide DecimalValue, RoundToDouble, IntegerLength, SuffixLength;
    var s := d + tail;
    IntegerPart(d, tail);
    NoSuffix(tail);
    assert s[|d|..] == tail;
    assert s[..|d|] == d;
    assert IntegerLength(s) == |d| && SuffixLength(s[|d|..]) == 0;
  }

  lemma ReadDecimal(n: nat, tail: string)
    requires Stops(tail)
    ensures ReadValue(Decimal(n) + tail) == Ok(Number(RoundToDouble(n)), tail)
  {
    hide DecimalValue, RoundToDouble, DigitRun, ReadUnsigned;
    var d := Decimal(n);
    var s := d + tail;
    DecimalMeans(n);
    assert s[0] == d[0] && Digit(s[0]);
    assert SkipSpace(s) == s;
    ReadPlainNumber(d, tail, "");
  }

  lemma ReadNegative(n: nat, tail: string)
    requires Stops(tail)
    ensures ReadValue("-" + (Decimal(n) + tail)) == Ok(Number(-(RoundToDouble(n) as int)), tail)
  {
    hide DecimalValue, RoundToDouble, DigitRun, ReadUnsigned;
    var d := Decimal(n);
    var s := "-" + (d + tail);
    DecimalMeans(n);
    assert s[0] == '-' && s[1..] == d + tail;
    assert SkipSpace(s) == s;
    ReadPlainNumber(d, tail, "-");
  }
}
