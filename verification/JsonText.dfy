/** JSON documents printed with any white space between their parts: the reader gives back exactly
    the document. */
module JsonText {
  import opened Bits
  import opened Doubles
  import opened Json
  import opened ErrorPayload

  /** A document with its members in order. */
  datatype Doc =
    | Nothing
    | Truth(b: bool)
    | Integer(n: int)
    | Text(text: string)
    | List(items: seq<Doc>)
    | Record(fields: seq<Entry>)

  datatype Entry = Entry(name: string, doc: Doc)

  /** What JavaScript makes of it: integers are doubles, and the last of two equal names counts. */
  function Value(d: Doc): Json
    decreases d, 0
  {
    match d
    case Nothing => Null
    case Truth(b) => Bool(b)
    case Integer(n) => Number(if n < 0 then -(RoundToDouble(-n) as int) else RoundToDouble(n))
    case Text(text) => Str(text)
    case List(items) => Arr(Values(items))
    case Record(fields) => Obj(Named(fields, map[]))
  }

  function Values(items: seq<Doc>): seq<Json>
    decreases items, 1
  {
    if items == [] then [] else [Value(items[0])] + Values(items[1..])
  }

  function Named(fields: seq<Entry>, sofar: map<string, Json>): map<string, Json>
    decreases fields, 1
  {
    if fields == [] then sofar else Named(fields[1..], sofar[fields[0].name := Value(fields[0].doc)])
  }

  // ---- printing ---------------------------------------------------------------------------------------

  predicate Blank(gap: string) { forall c | c in gap :: c in " \t\n\r" }

  function ShowText(text: string, tail: string): string { "\"" + (Escape(text) + ("\"" + tail)) }

  /** The document, white space between all its parts, and then the rest of the text. */
  function Show(d: Doc, gap: string, tail: string): string
    decreases d, 0
  {
    match d
    case Nothing => "null" + tail
    case Truth(b) => (if b then "true" else "false") + tail
    case Integer(n) => if n < 0 then "-" + (Decimal(-n) + tail) else Decimal(n) + tail
    case Text(text) => ShowText(text, tail)
    case List(items) => "[" + (gap + if items == [] then "]" + tail else ShowItems(items, gap, tail))
    case Record(fields) => "{" + (gap + if fields == [] then "}" + tail else ShowFields(fields, gap, tail))
  }

  function ShowItems(items: seq<Doc>, gap: string, tail: string): string
    requires items != []
    decreases items, 1
  {
    Show(items[0], gap, gap + if |items| == 1 then "]" + tail else "," + (gap + ShowItems(items[1..], gap, tail)))
  }

  function ShowFields(fields: seq<Entry>, gap: string, tail: string): string
    requires fields != []
    decreases fields, 1
  {
    ShowText(fields[0].name, gap + (":" + (gap + Show(fields[0].doc, gap, AfterField(fields, gap, tail)))))
  }

  function AfterField(fields: seq<Entry>, gap: string, tail: string): string
    requires fields != []
    decreases fields, 0
  {
    gap + if |fields| == 1 then "}" + tail else "," + (gap + ShowFields(fields[1..], gap, tail))
  }

  // ---- white space ------------------------------------------------------------------------------------

  predicate Solid(s: string) { s != "" && s[0] !in " \t\n\r" }

  lemma {:induction false} SkipGap(gap: string, s: string)
    requires Blank(gap)
    ensures SkipSpace(gap + s) == SkipSpace(s)
  {
    if gap == "" {
      assert gap + s == s;
    } else {
      assert gap[0] in gap && Blank(gap[1..]);
      assert (gap + s)[1..] == gap[1..] + s;
      SkipGap(gap[1..], s);
    }
  }

  lemma SkipToSolid(gap: string, s: string)
    requires Blank(gap) && Solid(s)
    ensures SkipSpace(gap + s) == s
  {
    SkipGap(gap, s);
  }

  lemma ValueSkipsGap(gap: string, s: string)
    requires Blank(gap)
    ensures ReadValue(gap + s) == ReadValue(s)
  {
    hide SkipSpace, ReadMembers, ReadItems, ReadNumber, ReadChars;
    SkipGap(gap, s);
  }

  lemma ItemsSkipGap(gap: string, s: string, sofar: seq<Json>)
    requires Blank(gap)
    ensures ReadItems(gap + s, sofar) == ReadItems(s, sofar)
  {
    hide ReadValue;
    ValueSkipsGap(gap, s);
  }

  lemma MembersSkipGap(gap: string, s: string, sofar: map<string, Json>)
    requires Blank(gap)
    ensures ReadMembers(gap + s, sofar) == ReadMembers(s, sofar)
  {
    hide ReadValue, SkipSpace, ReadChars;
    SkipGap(gap, s);
  }

  lemma GapStops(gap: string, c: char, rest: string)
    requires Blank(gap) && c in ",}]"
    ensures Stops(gap + ([c] + rest))
  {
    if gap != "" { assert gap[0] in gap && (gap + ([c] + rest))[0] == gap[0]; }
  }

  // ---- reading back -----------------------------------------------------------------------------------

  lemma TextReads(text: string, tail: string)
    ensures ReadValue(ShowText(text, tail)) == Ok(Str(text), tail)
    ensures Solid(ShowText(text, tail)) && ReadChars(ShowText(text, tail)[1..]) == Ok(text, tail)
  {
    hide ReadChars, Escape;
    var s := ShowText(text, tail);
    assert s[0] == '"' && s[1..] == Escape(text) + ("\"" + tail);
    ReadEscaped(text, tail);
    NoSpace(s, '"');
  }

  lemma WordReads(word: string, v: Json, tail: string)
    requires (word == "null" && v == Null) || (word == "true" && v == Bool(true)) || (word == "false" && v == Bool(false))
    ensures ReadValue(word + tail) == Ok(v, tail) && Solid(word + tail)
  {
    var s := word + tail;
    assert s[0] == word[0] && s[|word|..] == tail && word <= s;
    NoSpace(s, s[0]);
  }

  lemma IntegerReads(n: int, tail: string)
    requires Stops(tail)
    ensures ReadValue(Show(Integer(n), "", tail)) == Ok(Value(Integer(n)), tail) && Solid(Show(Integer(n), "", tail))
  {
    hide ReadValue, RoundToDouble;
    if n < 0 { ReadNegative(-n, tail); } else {
      ReadDecimal(n, tail);
      assert (Decimal(n) + tail)[0] == Decimal(n)[0] && Digit(Decimal(n)[0]);
    }
  }

  lemma ListLayer(gap: string, s: string)
    requires Blank(gap) && Solid(s)
    ensures ReadValue("[" + (gap + s)) == if s[0] == ']' then Ok(Arr([]), s[1..]) else ReadItems(s, [])
  {
    hide ReadMembers, ReadItems, ReadNumber, ReadChars, SkipSpace, ReadWord;
    var t := "[" + (gap + s);
    assert t[0] == '[' && t[1..] == gap + s;
    NoSpace(t, '[');
    SkipToSolid(gap, s);
  }

  lemma RecordLayer(gap: string, s: string)
    requires Blank(gap) && Solid(s)
    ensures ReadValue("{" + (gap + s)) == if s[0] == '}' then Ok(Obj(map[]), s[1..]) else ReadMembers(s, map[])
  {
    hide ReadMembers, ReadItems, ReadNumber, ReadChars, SkipSpace, ReadWord;
    var t := "{" + (gap + s);
    assert t[0] == '{' && t[1..] == gap + s;
    NoSpace(t, '{');
    SkipToSolid(gap, s);
  }

  lemma LeafReads(d: Doc, gap: string, tail: string)
    requires Stops(tail) && !d.List? && !d.Record?
    ensures ReadValue(Show(d, gap, tail)) == Ok(Value(d), tail) && Solid(Show(d, gap, tail))
    ensures Show(d, gap, tail)[0] !in ",:]}"
  {
    hide ReadValue, RoundToDouble, ShowText;
    match d
    case Nothing => WordReads("null", Null, tail);
    case Truth(b) => WordReads(if b then "true" else "false", Bool(b), tail);
    case Integer(n) =>
      IntegerReads(n, tail);
      IntegerOpens(n, tail);
      assert Show(d, gap, tail) == Show(d, "", tail);
    case Text(text) =>
      TextReads(text, tail);
      TextOpens(text, tail);
  }

  /** Every document reads back as its value, and the reader stops where the document does. */
  lemma {:induction false} ShowReads(d: Doc, gap: string, tail: string)
    requires Blank(gap) && Stops(tail)
    ensures ReadValue(Show(d, gap, tail)) == Ok(Value(d), tail) && Solid(Show(d, gap, tail))
    ensures Show(d, gap, tail)[0] !in ",:]}"
    decreases d, 0
  {
    hide ReadValue, ReadItems, ReadMembers, ShowItems, ShowFields, Blank, RoundToDouble, Decimal;
    match d
    case List(items) =>
      if items == [] {
        ListLayer(gap, "]" + tail);
        assert ("]" + tail)[1..] == tail;
      } else {
        ItemsRead(items, gap, tail, []);
        ListLayer(gap, ShowItems(items, gap, tail));
        assert [] + Values(items) == Values(items);
      }
    case Record(fields) =>
      if fields == [] {
        RecordLayer(gap, "}" + tail);
        assert ("}" + tail)[1..] == tail;
      } else {
        FieldsRead(fields, gap, tail, map[]);
        RecordLayer(gap, ShowFields(fields, gap, tail));
      }
    case _ => LeafReads(d, gap, tail);
  }

  lemma IntegerOpens(n: int, tail: string)
    ensures Show(Integer(n), "", tail) != "" && Show(Integer(n), "", tail)[0] !in ",:]}"
  {
    if n >= 0 { assert (Decimal(n) + tail)[0] == Decimal(n)[0] && Digit(Decimal(n)[0]); }
  }

  lemma TextOpens(text: string, tail: string)
    ensures ShowText(text, tail) != "" && ShowText(text, tail)[0] == '"'
  {
  }

  lemma {:induction false} ItemsRead(items: seq<Doc>, gap: string, tail: string, sofar: seq<Json>)
    requires Blank(gap) && Stops(tail) && items != []
    ensures ReadItems(ShowItems(items, gap, tail), sofar) == Ok(Arr(sofar + Values(items)), tail)
    ensures Solid(ShowItems(items, gap, tail)) && ShowItems(items, gap, tail)[0] !in ",:]}"
    decreases items, 1
  {
    hide ReadValue, SkipSpace, Blank, Show, Value;
    if |items| == 1 {
      var after := "]" + tail;
      GapStops(gap, ']', tail);
      ShowReads(items[0], gap, gap + after);
      SkipToSolid(gap, after);
      assert after[1..] == tail && Values(items[1..]) == [];
      assert sofar + [Value(items[0])] == sofar + Values(items);
    } else {
      var rest := ShowItems(items[1..], gap, tail);
      var after := "," + (gap + rest);
      GapStops(gap, ',', gap + rest);
      ShowReads(items[0], gap, gap + after);
      SkipToSolid(gap, after);
      assert after[1..] == gap + rest;
      var next := sofar + [Value(items[0])];
      ItemsSkipGap(gap, rest, next);
      ItemsRead(items[1..], gap, tail, next);
      assert next + Values(items[1..]) == sofar + Values(items);
    }
  }

  /** One member, up to the comma or the brace. */
  lemma MemberReads(name: string, s: string, v: Json, after: string, gap: string, sofar: map<string, Json>)
    requires Blank(gap) && ReadValue(s) == Ok(v, gap + after) && (Starts(after, ',') || Starts(after, '}'))
    ensures ReadMembers(ShowText(name, gap + (":" + (gap + s))), sofar) ==
              var members := sofar[name := v];
              if after[0] == ',' then ReadMembers(after[1..], members) else Ok(Obj(members), after[1..])
  {
    hide ReadValue, ReadChars, SkipSpace, ShowText, Blank;
    var colon := ":" + (gap + s);
    var text := ShowText(name, gap + colon);
    TextReads(name, gap + colon);
    TextOpens(name, gap + colon);
    NoSpace(text, '"');
    SkipToSolid(gap, colon);
    assert colon[0] == ':' && colon[1..] == gap + s;
    ValueSkipsGap(gap, s);
    SkipToSolid(gap, after);
  }

  lemma {:induction false} FieldsRead(fields: seq<Entry>, gap: string, tail: string, sofar: map<string, Json>)
    requires Blank(gap) && Stops(tail) && fields != []
    ensures ReadMembers(ShowFields(fields, gap, tail), sofar) == Ok(Obj(Named(fields, sofar)), tail)
    ensures Solid(ShowFields(fields, gap, tail)) && ShowFields(fields, gap, tail)[0] !in ",:]}"
    decreases fields, 1
  {
    hide ReadValue, ReadMembers, SkipSpace, Blank, Show, Value, ShowText;
    var name, d := fields[0].name, fields[0].doc;
    var members := sofar[name := Value(d)];
    if |fields| == 1 {
      var after := "}" + tail;
      GapStops(gap, '}', tail);
      ShowReads(d, gap, gap + after);
      MemberReads(name, Show(d, gap, gap + after), Value(d), after, gap, sofar);
      assert after[1..] == tail && Named(fields[1..], members) == members;
    } else {
      var rest := ShowFields(fields[1..], gap, tail);
      var after := "," + (gap + rest);
      GapStops(gap, ',', gap + rest);
      ShowReads(d, gap, gap + after);
      MemberReads(name, Show(d, gap, gap + after), Value(d), after, gap, sofar);
      assert after[1..] == gap + rest;
      MembersSkipGap(gap, rest, members);
      FieldsRead(fields[1..], gap, tail, members);
    }
    TextOpens(name, gap + (":" + (gap + Show(d, gap, AfterField(fields, gap, tail)))));
  }

  /** `JSON.parse` of a printed document, with white space around and inside it. */
  lemma ParseShown(d: Doc, gap: string)
    requires Blank(gap)
    ensures Parse(gap + Show(d, gap, gap)).Ok? && Parse(gap + Show(d, gap, gap)).value == Value(d)
  {
    hide ReadValue, Blank, SkipSpace;
    assert Stops(gap) by { BlankStops(gap); }
    ShowReads(d, gap, gap);
    ValueSkipsGap(gap, Show(d, gap, gap));
    SkipGap(gap, "");
    assert gap + "" == gap;
    NothingToSkip();
  }

  lemma BlankStops(gap: string)
    requires Blank(gap)
    ensures Stops(gap)
  {
    if gap != "" { assert gap[0] in gap; }
  }

  lemma NothingToSkip()
    ensures SkipSpace("") == ""
  {
  }

  // ---- fractions, exponents and escapes -------------------------------------------------------------

  predicate Digits(s: string) { s != "" && forall i | 0 <= i < |s| :: Digit(s[i]) }

  predicate Whole(s: string) { Digits(s) && (s[0] == '0' ==> |s| == 1) }

  lemma FractionPart(f: string, tail: string)
    requires Digits(f) && Stops(tail)
    ensures FractionLength("." + (f + tail)) == 1 + |f| && SuffixLength("." + (f + tail)) == 1 + |f|
  {
    hide DigitRun;
    var s := "." + (f + tail);
    assert s[1..] == f + tail && s[1 + |f|..] == tail;
    RunOf(f, tail);
  }

  /** A fraction, or an exponent with or without a sign, belongs to the literal. */
  lemma FractionReads(i: string, f: string, tail: string)
    requires Whole(i) && Digits(f) && Stops(tail)
    ensures ReadUnsigned(i + ("." + (f + tail)), "") == Ok(OtherNumber(i + "." + f), tail)
  {
    hide IntegerLength, SuffixLength, DecimalValue;
    var rest := "." + (f + tail);
    var s := i + rest;
    IntegerPart(i, rest);
    FractionPart(f, tail);
    assert s[|i|..] == rest;
    var k := |i| + 1 + |f|;
    assert s[k..] == tail && s[..k] == i + "." + f && "" + s[..k] == s[..k];
  }

  lemma ExponentPart(mark: string, x: string, tail: string)
    requires mark in ["e", "E", "e+", "e-", "E+", "E-"] && Digits(x) && Stops(tail)
    ensures SuffixLength(mark + (x + tail)) == |mark| + |x|
  {
    hide DigitRun;
    var s := mark + (x + tail);
    assert s[|mark|..] == x + tail && s[0] == mark[0];
    assert |mark| == 1 ==> s[1] == x[0];
    assert s[0..] == s;
    RunOf(x, tail);
  }

  lemma ExponentReads(i: string, mark: string, x: string, tail: string)
    requires Whole(i) && mark in ["e", "E", "e+", "e-", "E+", "E-"] && Digits(x) && Stops(tail)
    ensures ReadUnsigned(i + (mark + (x + tail)), "") == Ok(OtherNumber(i + mark + x), tail)
  {
    hide IntegerLength, SuffixLength, DecimalValue;
    var rest := mark + (x + tail);
    var s := i + rest;
    assert rest[0] == mark[0] && !Digit(mark[0]);
    IntegerPart(i, rest);
    ExponentPart(mark, x, tail);
    assert s[|i|..] == rest;
    var k := |i| + |mark| + |x|;
    assert s[k..] == tail && s[..k] == i + mark + x && "" + s[..k] == s[..k];
  }

  /** Hexadecimal digits of either case. */
  lemma HexDigits(n: nat)
    requires n < 16
    ensures HexValue("0123456789abcdef"[n]) == n && HexValue("0123456789ABCDEF"[n]) == n
  {
  }

  function Hex4(n: nat): string
    requires n < 0x1_0000
  {
    [HexDigit(n / 4096), HexDigit(n / 256 % 16), HexDigit(n / 16 % 16), HexDigit(n % 16)]
  }

  lemma Hex4Sum(n: nat)
    ensures 4096 * (n / 4096) + 256 * (n / 256 % 16) + 16 * (n / 16 % 16) + n % 16 == n
  {
    assert n / 16 / 16 == n / 256 && n / 256 / 16 == n / 4096;
  }

  lemma Hex4Of(s: string, a: nat, b: nat, c: nat, d: nat)
    requires |s| >= 4 && HexValue(s[0]) == a && HexValue(s[1]) == b && HexValue(s[2]) == c && HexValue(s[3]) == d
    ensures Hex4Value(s) == 4096 * a + 256 * b + 16 * c + d
  {
    hide HexValue;
    assert forall i | 0 <= i < 4 :: HexValue(s[i]) >= 0;
  }

  lemma Hex4Reads(n: nat, tail: string)
    requires n < 0x1_0000
    ensures Hex4Value(Hex4(n) + tail) == n && (Hex4(n) + tail)[4..] == tail
  {
    hide HexDigit, HexValue, Hex4Value;
    var s := Hex4(n) + tail;
    var a, b, c, d := n / 4096, n / 256 % 16, n / 16 % 16, n % 16;
    HexRead(a);
    HexRead(b);
    HexRead(c);
    HexRead(d);
    Hex4Of(s, a, b, c, d);
    Hex4Sum(n);
  }

  /** A `\u` escape is its character; above the first plane it takes a pair of surrogates. */
  lemma UnicodeReads(c: char, tail: string)
    ensures var n := c as int;
            if n < 0x1_0000 then ReadUnicode(Hex4(n) + tail) == Ok(c, tail)
            else
              var high, low := 0xD800 + (n - 0x1_0000) / 0x400, 0xDC00 + (n - 0x1_0000) % 0x400;
              ReadUnicode(Hex4(high) + ("\\u" + (Hex4(low) + tail))) == Ok(c, tail)
  {
    hide Hex4Value, Hex4;
    var n := c as int;
    if n < 0x1_0000 {
      Hex4Reads(n, tail);
    } else {
      var high, low := 0xD800 + (n - 0x1_0000) / 0x400, 0xDC00 + (n - 0x1_0000) % 0x400;
      PairReads(high, low, tail);
      assert 0x1_0000 + (high - 0xD800) * 0x400 + (low - 0xDC00) == n;
    }
  }

  lemma PairReads(high: nat, low: nat, tail: string)
    requires HighSurrogate(high) && LowSurrogate(low)
    ensures ReadUnicode(Hex4(high) + ("\\u" + (Hex4(low) + tail))) ==
              Ok((0x1_0000 + (high - 0xD800) * 0x400 + (low - 0xDC00)) as char, tail)
  {
    hide Hex4Value;
    var second := "\\u" + (Hex4(low) + tail);
    var s := Hex4(high) + second;
    Hex4Reads(high, second);
    Hex4Reads(low, tail);
    assert s[4..] == second && s[6..] == Hex4(low) + tail && s[10..] == tail;
    assert s[4..6] == "\\u" by { assert s[4] == second[0] && s[5] == second[1]; }
  }

  // ---- what is rejected -------------------------------------------------------------------------------

  /** A document followed by anything but white space is no JSON text. */
  lemma TrailingText(d: Doc, gap: string, tail: string)
    requires Blank(gap) && Stops(tail)
    ensures Parse(Show(d, gap, tail)).Ok? <==> SkipSpace(tail) == ""
  {
    hide ReadValue, Show, Value, SkipSpace;
    ShowReads(d, gap, tail);
  }

  /** A control character ends no string and belongs to none. */
  lemma {:induction false} ControlInString(text: string, c: char, tail: string)
    requires c as int < 0x20
    ensures ReadChars(Escape(text) + ([c] + tail)).Bad?
  {
    hide EscapeChar;
    var end := [c] + tail;
    if text == "" {
      assert Escape(text) + end == end;
    } else {
      assert Escape(text) + end == EscapeChar(text[0]) + (Escape(text[1..]) + end);
      ReadEscapedChar(text[0], Escape(text[1..]) + end);
      ControlInString(text[1..], c, tail);
    }
  }

  /** The text ends before its quote. */
  lemma {:induction false} UnclosedString(text: string)
    ensures ReadChars(Escape(text)).Bad?
  {
    hide EscapeChar;
    if text != "" {
      ReadEscapedChar(text[0], Escape(text[1..]));
      UnclosedString(text[1..]);
    }
  }

  /** The one-letter escapes, and no others. */
  lemma Escapes(c: char)
    ensures Unescape('"') == Ok('"', "") && Unescape('\\') == Ok('\\', "") && Unescape('/') == Ok('/', "")
    ensures Unescape('b') == Ok('\U{0008}', "") && Unescape('f') == Ok('\U{000C}', "")
    ensures Unescape('n') == Ok('\n', "") && Unescape('r') == Ok('\r', "") && Unescape('t') == Ok('\t', "")
    ensures Unescape(c).Ok? ==> c in "\"\\/bfnrt"
  {
  }

  /** Nothing follows a leading zero. */
  lemma LeadingZero(d: string, tail: string)
    requires Digits(d)
    ensures Parse("0" + (d + tail)).Bad?
  {
    hide DigitRun, DecimalValue, RoundToDouble;
    var s := "0" + (d + tail);
    assert s[0] == '0' && s[1..] == d + tail && (d + tail)[0] == d[0] && Digit(d[0]);
    NoSpace(s, '0');
    assert s[1..][0..] == s[1..];
    assert SuffixLength(s[1..]) == 0;
    assert ReadValue(s) == ReadUnsigned(s, "");
    assert ReadValue(s).rest == d + tail;
    NoSpace(d + tail, d[0]);
  }

  /** A point or an exponent mark wants digits. */
  lemma PointWantsDigits(i: string, tail: string)
    requires Whole(i) && (tail == "" || !Digit(tail[0]))
    ensures ReadUnsigned(i + ("." + tail), "").Bad?
  {
    hide IntegerLength, DecimalValue, RoundToDouble, DigitRun;
    var rest := "." + tail;
    IntegerPart(i, rest);
    assert (i + rest)[|i|..] == rest && rest[1..] == tail;
    NoDigits(tail);
  }

  lemma ExponentWantsDigits(i: string, mark: string, tail: string)
    requires Whole(i) && mark in ["e+", "e-", "E+", "E-"] && (tail == "" || !Digit(tail[0]))
    ensures ReadUnsigned(i + (mark + tail), "").Bad?
  {
    hide IntegerLength, DecimalValue, RoundToDouble, DigitRun;
    var rest := mark + tail;
    assert rest[0] == mark[0] && rest[1] == mark[1];
    IntegerPart(i, rest);
    assert (i + rest)[|i|..] == rest && rest[2..] == tail && rest[0..] == rest;
    NoDigits(tail);
  }

  lemma NoDigits(tail: string)
    requires tail == "" || !Digit(tail[0])
    ensures DigitRun(tail) == 0
  {
  }

  /** A record goes on with a comma or ends with its brace; a list with a comma or its bracket. */
  lemma BrokenRecord(name: string, d: Doc, tail: string)
    requires tail == "" || Starts(tail, ']')
    ensures Parse("{" + ShowText(name, ":" + Show(d, "", tail))).Bad?
  {
    hide ReadValue, ReadChars, SkipSpace, ShowText, Show, Value;
    var text := ShowText(name, ":" + Show(d, "", tail));
    TextOpens(name, ":" + Show(d, "", tail));
    ObjectLayer(text);
    BrokenMembers(name, d, tail);
  }

  lemma BrokenMembers(name: string, d: Doc, tail: string)
    requires tail == "" || Starts(tail, ']')
    ensures ReadMembers(ShowText(name, ":" + Show(d, "", tail)), map[]).Bad?
  {
    hide ReadValue, ReadChars, SkipSpace, ShowText, Show, Value;
    var colon := ":" + Show(d, "", tail);
    var text := ShowText(name, colon);
    TextReads(name, colon);
    TextOpens(name, colon);
    NoSpace(text, '"');
    NoSpace(colon, ':');
    assert colon[1..] == Show(d, "", tail);
    ShowReads(d, "", tail);
    if tail == "" { NothingToSkip(); } else { NoSpace(tail, ']'); }
  }

  lemma BrokenList(d: Doc, tail: string)
    requires tail == "" || Starts(tail, '}')
    ensures Parse("[" + Show(d, "", tail)).Bad?
  {
    hide ReadValue, SkipSpace, Show, Value;
    var text := Show(d, "", tail);
    ShowReads(d, "", tail);
    ListLayer("", text);
    assert "" + text == text;
    if tail == "" { NothingToSkip(); } else { NoSpace(tail, '}'); }
    assert ReadItems(text, []).Bad?;
  }
}
