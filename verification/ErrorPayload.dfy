/** Errors on their way from the native binding to JavaScript: packed into a JSON text on one
    side, unpacked and re-typed on the other. */
module ErrorPayload {
  import opened Bits
  import opened Doubles
  import opened Json

  type u64 = n: nat | n < TWO_64

  datatype Option<+T> = None | Some(value: T)

  datatype ErrorKind = Transient | Client | Internal | Corrupt

  datatype ActrError =
    | Unavailable(msg: string)
    | ConnectionNotReady(retryAfterMs: Option<u64>)
    | TimedOut
    | NotFound(msg: string)
    | PermissionDenied(msg: string)
    | InvalidArgument(msg: string)
    | UnknownRoute(msg: string)
    | DependencyNotFound(serviceName: string, msg: string)
    | DecodeFailure(msg: string)
    | NotImplemented(msg: string)
    | InternalError(msg: string)

  // ---- classification -----------------------------------------------------------------------------

  function Kind(e: ActrError): ErrorKind {
    match e
    case Unavailable(_) => Transient
    case ConnectionNotReady(_) => Transient
    case TimedOut => Transient
    case DecodeFailure(_) => Corrupt
    case NotImplemented(_) => Internal
    case InternalError(_) => Internal
    case _ => Client
  }

  function KindText(kind: ErrorKind): string {
    match kind
    case Transient => "Transient"
    case Client => "Client"
    case Internal => "Internal"
    case Corrupt => "Corrupt"
  }

  function Code(e: ActrError): string {
    match e
    case Unavailable(_) => "Unavailable"
    case ConnectionNotReady(_) => "ConnectionNotReady"
    case TimedOut => "TimedOut"
    case NotFound(_) => "NotFound"
    case PermissionDenied(_) => "PermissionDenied"
    case InvalidArgument(_) => "InvalidArgument"
    case UnknownRoute(_) => "UnknownRoute"
    case DependencyNotFound(_, _) => "DependencyNotFound"
    case DecodeFailure(_) => "DecodeFailure"
    case NotImplemented(_) => "NotImplemented"
    case InternalError(_) => "Internal"
  }

  /** `retry_after_ms=` followed by Rust's debug form of the option. */
  function RetryText(retry: Option<u64>): string {
    "retry_after_ms=" + (if retry.None? then "None" else "Some(" + Decimal(retry.value) + ")")
  }

  function Message(e: ActrError): string {
    match e
    case ConnectionNotReady(retry) => RetryText(retry)
    case TimedOut => "operation timed out"
    case _ => e.msg
  }

  function ServiceName(e: ActrError): Option<string> {
    if e.DependencyNotFound? then Some(e.serviceName) else None
  }

  /** Present for one variant only; the hint inside may still be missing. */
  function Info(e: ActrError): Option<Option<u64>> {
    if e.ConnectionNotReady? then Some(e.retryAfterMs) else None
  }

  /** `ConnectionNotReadyInfo::new`: the time left, none once it is over. */
  function TimeLeft(elapsed: u64, timeout: u64): (retry: Option<u64>)
    ensures retry.Some? <==> elapsed <= timeout
    ensures retry.Some? ==> elapsed + retry.value == timeout
  {
    if elapsed <= timeout then Some(timeout - elapsed) else None
  }

  // ---- member names ----------------------------------------------------------------------------

  const KIND := "kind"
  const CODE := "code"
  const MESSAGE := "message"
  const SERVICE_NAME := "service_name"
  const RETRY_AFTER_MS := "retry_after_ms"

  lemma NamesDiffer()
    ensures KIND != CODE && KIND != MESSAGE && CODE != MESSAGE
    ensures SERVICE_NAME !in {KIND, CODE, MESSAGE} && RETRY_AFTER_MS !in {KIND, CODE, MESSAGE, SERVICE_NAME}
  {
    assert KIND[0] != CODE[0];
  }

  // ---- writing ------------------------------------------------------------------------------------

  function HexDigit(n: nat): char
    requires n < 16
  {
    if n < 10 then ('0' as int + n) as char else ('a' as int + n - 10) as char
  }

  /** The code of a control character in four hexadecimal digits. */
  function ControlDigits(c: char): string
    requires c as int < 0x20
  {
    "00" + [HexDigit(c as int / 16), HexDigit(c as int % 16)]
  }

  function EscapeChar(c: char): string {
    if c == '"' then "\\\""
    else if c == '\\' then "\\\\"
    else if c == '\n' then "\\n"
    else if c == '\r' then "\\r"
    else if c == '\t' then "\\t"
    else if c == '\U{0008}' then "\\b"
    else if c == '\U{000C}' then "\\f"
    else if c as int < 0x20 then "\\u" + ControlDigits(c)
    else [c]
  }

  function Escape(s: string): string {
    if s == "" then "" else EscapeChar(s[0]) + Escape(s[1..])
  }

  lemma {:induction false} EscapeAppend(s: string, c: char)
    ensures Escape(s + [c]) == Escape(s) + EscapeChar(c)
  {
    if s == "" {
      assert s + [c] == [c];
    } else {
      assert (s + [c])[1..] == s[1..] + [c];
      EscapeAppend(s[1..], c);
    }
  }

  method JsonEscape(s: string) returns (out: string)
    ensures out == Escape(s)
  {
    out := "";
    for i := 0 to |s|
      invariant out == Escape(s[..i])
    {
      EscapeAppend(s[..i], s[i]);
      assert s[..i] + [s[i]] == s[..i + 1];
      var c, piece := s[i], "";
      if c == '"' { piece := "\\\""; }
      else if c == '\\' { piece := "\\\\"; }
      else if c == '\n' { piece := "\\n"; }
      else if c == '\r' { piece := "\\r"; }
      else if c == '\t' { piece := "\\t"; }
      else if c == '\U{0008}' { piece := "\\b"; }
      else if c == '\U{000C}' { piece := "\\f"; }
      else if c as int < 0x20 { piece := "\\u" + ControlDigits(c); }
      else { piece := [c]; }
      assert piece == EscapeChar(c);
      out := out + piece;
    }
    assert s[..|s|] == s;
  }

  /** One member as it is printed, and what a reader must make of its value. */
  datatype Field = Field(name: string, text: string, value: Json)

  function Quoted(text: string): string { "\"" + text + "\"" }

  function Print(f: Field): string { Quoted(f.name) + ":" + f.text }

  function Joined(fields: seq<Field>): string {
    if fields == [] then "" else if |fields| == 1 then Print(fields[0])
    else Print(fields[0]) + "," + Joined(fields[1..])
  }

  function TextField(name: string, text: string): Field { Field(name, Quoted(Escape(text)), Str(text)) }

  /** The code is copied as it stands. */
  function CodeField(code: string): Field { Field(CODE, Quoted(code), Str(code)) }

  function RetryField(retry: Option<u64>): Field {
    if retry.None? then Field(RETRY_AFTER_MS, "null", Null)
    else Field(RETRY_AFTER_MS, Decimal(retry.value), Number(RoundToDouble(retry.value)))
  }

  function Fields(kind: ErrorKind, code: string, message: string, service: Option<string>, info: Option<Option<u64>>): seq<Field> {
    [Field(KIND, Quoted(KindText(kind)), Str(KindText(kind))), CodeField(code), TextField(MESSAGE, message)]
    + (if service.Some? then [TextField(SERVICE_NAME, service.value)] else [])
    + (if info.Some? then [RetryField(info.value)] else [])
  }

  function Payload(kind: ErrorKind, code: string, message: string, service: Option<string>, info: Option<Option<u64>>): string {
    "{" + Joined(Fields(kind, code, message, service, info)) + "}"
  }

  function PayloadOf(e: ActrError): string { Payload(Kind(e), Code(e), Message(e), ServiceName(e), Info(e)) }

  function JoinComma(texts: seq<string>): string {
    if texts == [] then "" else if |texts| == 1 then texts[0] else texts[0] + "," + JoinComma(texts[1..])
  }

  lemma {:induction false} JoinedTexts(texts: seq<string>, fields: seq<Field>)
    requires |texts| == |fields| && forall i | 0 <= i < |fields| :: texts[i] == Print(fields[i])
    ensures JoinComma(texts) == Joined(fields)
    decreases |texts|
  {
    hide Print;
    if |texts| > 1 { JoinedTexts(texts[1..], fields[1..]); }
  }

  /** A member with a quoted value, as one format string prints it. */
  function QuotedMember(name: string, text: string): string { "\"" + name + "\":\"" + text + "\"" }

  function BareMember(name: string, text: string): string { "\"" + name + "\":" + text }

  lemma MemberPrinted(name: string, text: string, v: Json)
    ensures QuotedMember(name, text) == Print(Field(name, Quoted(text), v))
    ensures BareMember(name, text) == Print(Field(name, text, v))
  {
    assert QuotedMember(name, text) == ("\"" + name + "\"") + ":" + ("\"" + text + "\"");
    assert BareMember(name, text) == ("\"" + name + "\"") + ":" + text;
  }

  method BuildPayload(kind: ErrorKind, code: string, message: string, service: Option<string>, info: Option<Option<u64>>)
    returns (payload: string)
    ensures payload == Payload(kind, code, message, service, info)
  {
    hide Escape, Decimal, JoinComma, Joined, Print, Quoted, QuotedMember, BareMember, KindText, RoundToDouble,
         KIND, CODE, MESSAGE, SERVICE_NAME, RETRY_AFTER_MS;
    var escaped := JsonEscape(message);
    var fields := [QuotedMember(KIND, KindText(kind)), QuotedMember(CODE, code), QuotedMember(MESSAGE, escaped)];
    MemberPrinted(KIND, KindText(kind), Str(KindText(kind)));
    MemberPrinted(CODE, code, Str(code));
    MemberPrinted(MESSAGE, escaped, Str(message));
    if service.Some? {
      var name := JsonEscape(service.value);
      fields := fields + [QuotedMember(SERVICE_NAME, name)];
      MemberPrinted(SERVICE_NAME, name, Str(service.value));
    }
    if info.Some? {
      var hint := if info.value.Some? then Decimal(info.value.value) else "null";
      fields := fields + [BareMember(RETRY_AFTER_MS, hint)];
      MemberPrinted(RETRY_AFTER_MS, hint, RetryField(info.value).value);
    }
    JoinedTexts(fields, Fields(kind, code, message, service, info));
    payload := "{" + JoinComma(fields) + "}";
  }

  // ---- reading back ---------------------------------------------------------------------------------

  /** What `mapNativeError` hands on: the error it was given, or a typed one. Only the three
      strings are checked, the other two are taken as they come. */
  datatype Mapped =
    | Unchanged
    | Typed(kind: string, code: string, message: string, service: Option<Json>, retry: Option<Json>)

  function Member(members: map<string, Json>, name: string): Option<Json> {
    if name in members then Some(members[name]) else None
  }

  predicate StringMember(members: map<string, Json>, name: string) { name in members && members[name].Str? }

  function MapNativeError(raw: string): Mapped {
    if raw == "" || raw[0] != '{' then Unchanged
    else
      var parsed := Parse(raw);
      if parsed.Bad? || !parsed.value.Obj? then Unchanged
      else
        var m := parsed.value.members;
        if StringMember(m, KIND) && StringMember(m, CODE) && StringMember(m, MESSAGE) then
          Typed(m[KIND].text, m[CODE].text, m[MESSAGE].text, Member(m, SERVICE_NAME), Member(m, RETRY_AFTER_MS))
        else Unchanged
  }

  predicate IsRetryable(m: Mapped) { m.Typed? && m.kind == "Transient" }

  predicate RequiresDlq(m: Mapped) { m.Typed? && m.kind == "Corrupt" }

  // ---- strings survive ------------------------------------------------------------------------------

  lemma HexRead(n: nat)
    requires n < 16
    ensures HexValue(HexDigit(n)) == n
  {
  }

  lemma ReadControl(c: char, tail: string)
    requires c as int < 0x20
    ensures ReadUnicode(ControlDigits(c) + tail) == Ok(c, tail)
  {
    var s := ControlDigits(c) + tail;
    HexRead(c as int / 16);
    HexRead(c as int % 16);
    assert s[0] == '0' && s[1] == '0' && s[2] == HexDigit(c as int / 16) && s[3] == HexDigit(c as int % 16);
    assert HexValue('0') == 0;
    assert Hex4Value(s) == c as int;
    assert s[4..] == tail;
  }

  predicate PlainChar(c: char) { c as int >= 0x20 && c != '"' && c != '\\' }

  lemma ReadPlainChar(c: char, tail: string)
    requires PlainChar(c)
    ensures ReadChars([c] + tail) == Cons(c, ReadChars(tail))
  {
    assert ([c] + tail)[1..] == tail;
  }

  lemma ReadShort(e: char, c: char, tail: string)
    requires Unescape(e) == Ok(c, "") && e != 'u'
    ensures ReadChars(['\\', e] + tail) == Cons(c, ReadChars(tail))
  {
    hide Unescape;
    assert (['\\', e] + tail)[2..] == tail;
  }

  lemma ReadLong(c: char, tail: string)
    requires c as int < 0x20
    ensures ReadChars(['\\', 'u'] + (ControlDigits(c) + tail)) == Cons(c, ReadChars(tail))
  {
    hide ReadUnicode, ControlDigits, Unescape;
    ReadControl(c, tail);
    assert (['\\', 'u'] + (ControlDigits(c) + tail))[2..] == ControlDigits(c) + tail;
  }

  /** What `EscapeChar` writes, by its three shapes. */
  datatype Shape = Bare | Short(letter: char) | Long

  function ShapeOf(c: char): Shape {
    if c == '"' || c == '\\' then Short(c)
    else if c == '\n' then Short('n')
    else if c == '\r' then Short('r')
    else if c == '\t' then Short('t')
    else if c == '\U{0008}' then Short('b')
    else if c == '\U{000C}' then Short('f')
    else if c as int < 0x20 then Long
    else Bare
  }

  lemma EscapeShapes(c: char)
    ensures match ShapeOf(c)
            case Bare => PlainChar(c) && EscapeChar(c) == [c]
            case Short(e) => EscapeChar(c) == ['\\', e] && Unescape(e) == Ok(c, "") && e != 'u' && e as int >= 0x20
            case Long => c as int < 0x20 && EscapeChar(c) == ['\\', 'u'] + ControlDigits(c)
  {
    hide ControlDigits;
  }

  lemma ReadEscapedChar(c: char, tail: string)
    ensures ReadChars(EscapeChar(c) + tail) == Cons(c, ReadChars(tail))
  {
    hide ReadChars, EscapeChar, ControlDigits, Unescape, PlainChar;
    EscapeShapes(c);
    match ShapeOf(c)
    case Bare => ReadPlainChar(c, tail);
    case Short(e) => ReadShort(e, c, tail);
    case Long =>
      ReadLong(c, tail);
      assert ['\\', 'u'] + ControlDigits(c) + tail == ['\\', 'u'] + (ControlDigits(c) + tail);
  }

  lemma {:induction false} ReadEscaped(s: string, tail: string)
    ensures ReadChars(Escape(s) + ("\"" + tail)) == Ok(s, tail)
  {
    hide EscapeChar;
    var end := "\"" + tail;
    if s == "" {
      assert Escape(s) + end == end && end[1..] == tail;
    } else {
      assert Escape(s) + end == EscapeChar(s[0]) + (Escape(s[1..]) + end);
      ReadEscapedChar(s[0], Escape(s[1..]) + end);
      ReadEscaped(s[1..], tail);
      assert [s[0]] + s[1..] == s;
    }
  }

  /** No control character, and no quote but behind a backslash that is not itself escaped. */
  predicate Sealed(t: string) {
    t == ""
    || (t[0] as int >= 0x20 && t[0] != '"' &&
        if t[0] == '\\' then |t| >= 2 && t[1] as int >= 0x20 && Sealed(t[2..]) else Sealed(t[1..]))
  }

  lemma SealedPlain(c: char, tail: string)
    requires PlainChar(c) && Sealed(tail)
    ensures Sealed([c] + tail)
  {
    assert ([c] + tail)[1..] == tail;
  }

  lemma SealedEscape(e: char, tail: string)
    requires e as int >= 0x20 && Sealed(tail)
    ensures Sealed(['\\', e] + tail)
  {
    assert (['\\', e] + tail)[2..] == tail;
  }

  lemma DigitPlain(n: nat)
    requires n < 16
    ensures PlainChar(HexDigit(n))
  {
  }

  lemma SealedDigits(c: char, tail: string)
    requires c as int < 0x20 && Sealed(tail)
    ensures Sealed(ControlDigits(c) + tail)
  {
    hide HexDigit, Sealed;
    var d2, d3 := HexDigit(c as int / 16), HexDigit(c as int % 16);
    DigitPlain(c as int / 16);
    DigitPlain(c as int % 16);
    SealedPlain(d3, tail);
    SealedPlain(d2, [d3] + tail);
    SealedPlain('0', [d2] + ([d3] + tail));
    SealedPlain('0', ['0'] + ([d2] + ([d3] + tail)));
    assert ControlDigits(c) + tail == ['0'] + (['0'] + ([d2] + ([d3] + tail)));
  }

  lemma SealedChar(c: char, tail: string)
    requires Sealed(tail)
    ensures Sealed(EscapeChar(c) + tail)
  {
    hide Sealed, EscapeChar, ControlDigits, Unescape, PlainChar;
    EscapeShapes(c);
    match ShapeOf(c)
    case Bare => SealedPlain(c, tail);
    case Short(e) => SealedEscape(e, tail);
    case Long =>
      SealedDigits(c, tail);
      SealedEscape('u', ControlDigits(c) + tail);
      assert ['\\', 'u'] + ControlDigits(c) + tail == ['\\', 'u'] + (ControlDigits(c) + tail);
  }

  lemma {:induction false} EscapeSeals(s: string)
    ensures Sealed(Escape(s))
  {
    if s != "" {
      EscapeSeals(s[1..]);
      SealedChar(s[0], Escape(s[1..]));
    }
  }

  /** Text that escaping leaves alone. */
  predicate Plain(s: string) { forall c | c in s :: PlainChar(c) }

  lemma EscapePlainChar(c: char)
    requires PlainChar(c)
    ensures EscapeChar(c) == [c]
  {
  }

  lemma {:induction false} EscapePlain(s: string)
    requires Plain(s)
    ensures Escape(s) == s
  {
    hide EscapeChar, PlainChar;
    if s != "" {
      assert PlainChar(s[0]);
      EscapePlainChar(s[0]);
      EscapePlain(s[1..]);
      assert [s[0]] + s[1..] == s;
    }
  }

  // ---- objects survive --------------------------------------------------------------------------

  /** The text reads as the value, whatever follows the member. */
  ghost predicate Reads(f: Field) {
    Plain(f.name) && forall tail: string | Ends(tail) :: ReadValue(f.text + tail) == Ok(f.value, tail)
  }

  function Collected(fields: seq<Field>, sofar: map<string, Json>): map<string, Json> {
    if fields == [] then sofar else Collected(fields[1..], sofar[fields[0].name := fields[0].value])
  }

  lemma ReadQuoted(text: string, tail: string)
    ensures ReadValue(Quoted(Escape(text)) + tail) == Ok(Str(text), tail)
  {
    hide ReadChars, Escape;
    var s := Quoted(Escape(text)) + tail;
    assert s[1..] == Escape(text) + ("\"" + tail);
    assert SkipSpace(s) == s;
    ReadEscaped(text, tail);
  }

  lemma NoSpace(s: string, c: char)
    requires Starts(s, c) && c !in " \t\n\r"
    ensures SkipSpace(s) == s
  {
  }

  lemma ReadName(f: Field, tail: string)
    requires Plain(f.name)
    ensures var s := Print(f) + tail;
            Starts(s, '"') && ReadChars(s[1..]) == Ok(f.name, ":" + (f.text + tail))
  {
    hide ReadChars;
    var s := Print(f) + tail;
    assert s[1..] == f.name + ("\"" + (":" + (f.text + tail)));
    EscapePlain(f.name);
    ReadEscaped(f.name, ":" + (f.text + tail));
  }

  /** One member, then the rest of the object. */
  lemma ReadMember(f: Field, tail: string, sofar: map<string, Json>)
    requires Reads(f) && Ends(tail)
    ensures ReadMembers(Print(f) + tail, sofar) ==
              var members := sofar[f.name := f.value];
              if tail[0] == ',' then ReadMembers(tail[1..], members) else Ok(Obj(members), tail[1..])
  {
    hide ReadChars, ReadValue, SkipSpace, Print, Plain;
    var s := Print(f) + tail;
    var after := ":" + (f.text + tail);
    ReadName(f, tail);
    NoSpace(s, '"');
    NoSpace(after, ':');
    assert after[1..] == f.text + tail;
    NoSpace(tail, tail[0]);
  }

  lemma {:induction false} ReadFields(fields: seq<Field>, sofar: map<string, Json>)
    requires fields != [] && forall i | 0 <= i < |fields| :: Reads(fields[i])
    ensures ReadMembers(Joined(fields) + "}", sofar) == Ok(Obj(Collected(fields, sofar)), "")
    decreases |fields|
  {
    hide ReadMembers, Print, Reads;
    var f, members := fields[0], sofar[fields[0].name := fields[0].value];
    if |fields| == 1 {
      ReadMember(f, "}", sofar);
      assert "}"[1..] == "";
      assert Collected(fields[1..], members) == members;
    } else {
      var tail := "," + (Joined(fields[1..]) + "}");
      assert Joined(fields) + "}" == Print(f) + tail;
      ReadMember(f, tail, sofar);
      assert tail[1..] == Joined(fields[1..]) + "}";
      ReadFields(fields[1..], members);
    }
  }

  lemma ReadsText(name: string, text: string)
    requires Plain(name)
    ensures Reads(TextField(name, text))
  {
    forall tail: string | Ends(tail)
      ensures ReadValue(Quoted(Escape(text)) + tail) == Ok(Str(text), tail)
    {
      ReadQuoted(text, tail);
    }
  }

  lemma ReadsPlain(name: string, text: string)
    requires Plain(name) && Plain(text)
    ensures Reads(Field(name, Quoted(text), Str(text)))
  {
    EscapePlain(text);
    ReadsText(name, text);
  }

  lemma ReadNull(tail: string)
    ensures ReadValue("null" + tail) == Ok(Null, tail)
  {
    var s := "null" + tail;
    assert SkipSpace(s) == s && s[4..] == tail && "null" <= s;
  }

  lemma ReadsRetry(retry: Option<u64>)
    ensures Reads(RetryField(retry))
  {
    hide ReadValue, RoundToDouble;
    var f := RetryField(retry);
    forall tail: string | Ends(tail)
      ensures ReadValue(f.text + tail) == Ok(f.value, tail)
    {
      if retry.None? { ReadNull(tail); } else { ReadDecimal(retry.value, tail); }
    }
  }

  lemma NamesPlain()
    ensures Plain(KIND) && Plain(CODE) && Plain(MESSAGE) && Plain(SERVICE_NAME) && Plain(RETRY_AFTER_MS)
  {
  }

  lemma KindTextPlain(kind: ErrorKind)
    ensures Plain(KindText(kind))
  {
  }

  lemma ReadsAll(kind: ErrorKind, code: string, message: string, service: Option<string>, info: Option<Option<u64>>)
    requires Plain(code)
    ensures forall f | f in Fields(kind, code, message, service, info) :: Reads(f)
  {
    hide Reads, Quoted, Escape, RoundToDouble, Plain, KindText, KIND, CODE, MESSAGE, SERVICE_NAME, RETRY_AFTER_MS;
    NamesPlain();
    KindTextPlain(kind);
    ReadsPlain(KIND, KindText(kind));
    ReadsPlain(CODE, code);
    ReadsText(MESSAGE, message);
    if service.Some? { ReadsText(SERVICE_NAME, service.value); }
    if info.Some? { ReadsRetry(info.value); }
  }

  // ---- errors survive ---------------------------------------------------------------------------

  function AsJson(service: Option<string>): Option<Json> { if service.None? then None else Some(Str(service.value)) }

  function HintJson(info: Option<Option<u64>>): Option<Json> {
    if info.None? then None else if info.value.None? then Some(Null) else Some(Number(RoundToDouble(info.value.value)))
  }

  lemma CollectedFields(kind: ErrorKind, code: string, message: string, service: Option<string>, info: Option<Option<u64>>)
    ensures var m := Collected(Fields(kind, code, message, service, info), map[]);
            Member(m, KIND) == Some(Str(KindText(kind))) && Member(m, CODE) == Some(Str(code)) &&
            Member(m, MESSAGE) == Some(Str(message)) && Member(m, SERVICE_NAME) == AsJson(service) &&
            Member(m, RETRY_AFTER_MS) == HintJson(info)
  {
    hide Quoted, Escape, RoundToDouble, KindText, KIND, CODE, MESSAGE, SERVICE_NAME, RETRY_AFTER_MS;
    NamesDiffer();
    var svc := if service.Some? then [TextField(SERVICE_NAME, service.value)] else [];
    var retry := if info.Some? then [RetryField(info.value)] else [];
    var m: map<string, Json> := map[KIND := Str(KindText(kind))][CODE := Str(code)][MESSAGE := Str(message)];
    CollectedThree(Field(KIND, Quoted(KindText(kind)), Str(KindText(kind))), CodeField(code), TextField(MESSAGE, message), svc + retry);
    CollectedPair(svc, retry, m);
    assert Fields(kind, code, message, service, info) ==
      [Field(KIND, Quoted(KindText(kind)), Str(KindText(kind))), CodeField(code), TextField(MESSAGE, message)] + (svc + retry);
  }

  lemma CollectedThree(a: Field, b: Field, c: Field, rest: seq<Field>)
    ensures Collected([a, b, c] + rest, map[]) ==
              Collected(rest, map[a.name := a.value][b.name := b.value][c.name := c.value])
  {
    var fields := [a, b, c] + rest;
    assert fields[1..][1..] == fields[2..] && fields[2..][1..] == rest;
    var m1 := map[a.name := a.value];
    assert Collected(fields, map[]) == Collected(fields[1..], m1);
    assert Collected(fields[1..], m1) == Collected(fields[2..], m1[b.name := b.value]);
  }

  lemma CollectedPair(a: seq<Field>, b: seq<Field>, sofar: map<string, Json>)
    requires |a| <= 1 && |b| <= 1
    ensures Collected(a + b, sofar) ==
              var m := if a == [] then sofar else sofar[a[0].name := a[0].value];
              if b == [] then m else m[b[0].name := b[0].value]
  {
    var m := if a == [] then sofar else sofar[a[0].name := a[0].value];
    assert Collected(a + b, sofar) == Collected(b, m) by {
      if a == [] { assert a + b == b; } else { assert (a + b)[1..] == b; }
    }
    if b != [] { assert Collected(b, m) == Collected(b[1..], m[b[0].name := b[0].value]); }
  }

  lemma ObjectLayer(s: string)
    requires Starts(s, '"')
    ensures ReadValue("{" + s) == ReadMembers(s, map[])
  {
    hide ReadMembers, ReadItems, ReadNumber, ReadChars, ReadWord, SkipSpace;
    var t := "{" + s;
    assert t[0] == '{' && t[1..] == s;
    NoSpace(t, '{');
    NoSpace(s, '"');
  }

  lemma ObjectRead(fields: seq<Field>)
    requires fields != [] && (forall i | 0 <= i < |fields| :: Reads(fields[i])) && Starts(Joined(fields), '"')
    ensures Parse("{" + Joined(fields) + "}") == Ok(Obj(Collected(fields, map[])), "")
  {
    hide ReadMembers, ReadValue, Joined, Collected, Reads;
    var inner := Joined(fields) + "}";
    assert "{" + Joined(fields) + "}" == "{" + inner;
    ObjectLayer(inner);
    ReadFields(fields, map[]);
  }

  /** Every payload is read back as the typed error it was built from. */
  lemma PayloadReadBack(kind: ErrorKind, code: string, message: string, service: Option<string>, info: Option<Option<u64>>)
    requires Plain(code)
    ensures MapNativeError(Payload(kind, code, message, service, info)) ==
              Typed(KindText(kind), code, message, AsJson(service), HintJson(info))
  {
    hide Parse, Joined, Collected, Fields, KindText, Plain, RoundToDouble, KIND, CODE, MESSAGE, SERVICE_NAME, RETRY_AFTER_MS;
    var fields := Fields(kind, code, message, service, info);
    ReadsAll(kind, code, message, service, info);
    CollectedFields(kind, code, message, service, info);
    OpensWithQuote(kind, code, message, service, info);
    ObjectRead(fields);
  }

  lemma OpensWithQuote(kind: ErrorKind, code: string, message: string, service: Option<string>, info: Option<Option<u64>>)
    ensures |Fields(kind, code, message, service, info)| >= 3
    ensures Starts(Joined(Fields(kind, code, message, service, info)), '"')
  {
  }

  /** Every error reaches JavaScript with its kind, code, message, service name and hint, and
      the two questions asked there have the answers they have here. */
  lemma ErrorReadBack(e: ActrError)
    ensures MapNativeError(PayloadOf(e)) ==
              Typed(KindText(Kind(e)), Code(e), Message(e), AsJson(ServiceName(e)), HintJson(Info(e)))
    ensures IsRetryable(MapNativeError(PayloadOf(e))) <==> Kind(e) == Transient
    ensures RequiresDlq(MapNativeError(PayloadOf(e))) <==> Kind(e) == Corrupt
  {
    hide Payload, MapNativeError, Message, HintJson, Code, KindText, Plain;
    CodePlain(e);
    PayloadReadBack(Kind(e), Code(e), Message(e), ServiceName(e), Info(e));
    KindsDiffer(Kind(e));
  }

  lemma ClientCodePlain(e: ActrError)
    requires Kind(e) == Client
    ensures Plain(Code(e))
  {
  }

  lemma CodePlain(e: ActrError)
    ensures Plain(Code(e))
  {
    if Kind(e) == Client { ClientCodePlain(e); }
  }

  lemma KindsDiffer(kind: ErrorKind)
    ensures KindText(kind) == "Transient" <==> kind == Transient
    ensures KindText(kind) == "Corrupt" <==> kind == Corrupt
  {
    assert "Transient"[0] == 'T' && "Client"[1] == 'l' && "Internal"[0] == 'I' && "Corrupt"[1] == 'o';
  }

  /** The hint arrives unchanged exactly when it has no more significant bits than a double. */
  lemma RetryExactly(n: u64)
    ensures MapNativeError(PayloadOf(ConnectionNotReady(Some(n)))).Typed?
    ensures MapNativeError(PayloadOf(ConnectionNotReady(Some(n)))).retry == Some(Number(n)) <==>
              n < TWO_53 || n % Pow2(Excess(n)) == 0
  {
    hide RoundToDouble, MapNativeError, PayloadOf;
    ErrorReadBack(ConnectionNotReady(Some(n)));
    RoundingExact(n);
  }

  /** 2^53 + 1 is the first hint that arrives changed: as 2^53, like its neighbour. */
  lemma RetryRounded()
    ensures var x, y := ConnectionNotReady(Some(TWO_53 + 1)), ConnectionNotReady(Some(TWO_53));
            && MapNativeError(PayloadOf(x)).Typed? && MapNativeError(PayloadOf(y)).Typed?
            && MapNativeError(PayloadOf(x)).retry == Some(Number(TWO_53)) == MapNativeError(PayloadOf(y)).retry
  {
    hide RoundToDouble, MapNativeError, PayloadOf;
    ErrorReadBack(ConnectionNotReady(Some(TWO_53 + 1)));
    ErrorReadBack(ConnectionNotReady(Some(TWO_53)));
    FirstLost();
  }

  /** The hint made from elapsed time and timeout arrives as the time that is left, to the nearest
      double, and as null once the timeout has passed; below 2^53 milliseconds it is exact. */
  lemma HintArrives(elapsed: u64, timeout: u64)
    ensures var m := MapNativeError(PayloadOf(ConnectionNotReady(TimeLeft(elapsed, timeout))));
            && m.Typed?
            && (m.retry == Some(Null) <==> timeout < elapsed)
            && (elapsed <= timeout ==> m.retry == Some(Number(RoundToDouble(timeout - elapsed))))
            && (elapsed <= timeout < TWO_53 ==> m.retry == Some(Number(timeout - elapsed)))
  {
    hide MapNativeError, PayloadOf;
    ErrorReadBack(ConnectionNotReady(TimeLeft(elapsed, timeout)));
  }

  lemma RetryTextInjective(x: Option<u64>, y: Option<u64>)
    requires RetryText(x) == RetryText(y)
    ensures x == y
  {
    hide Decimal;
    assert RetryText(x)[15..16] == if x.None? then "N" else "S";
    assert RetryText(y)[15..16] == if y.None? then "N" else "S";
    assert x.Some? <==> y.Some? by { assert "N"[0] != "S"[0]; }
    if x.Some? && y.Some? {
      var t := RetryText(x);
      assert t[20..|t| - 1] == Decimal(x.value);
      assert t[20..|t| - 1] == Decimal(y.value);
      DecimalInjective(x.value, y.value);
    }
  }

  lemma CodeInjective(x: ActrError, y: ActrError)
    requires Code(x) == Code(y)
    ensures (x.Unavailable? <==> y.Unavailable?) && (x.ConnectionNotReady? <==> y.ConnectionNotReady?)
    ensures (x.TimedOut? <==> y.TimedOut?) && (x.NotFound? <==> y.NotFound?)
    ensures (x.PermissionDenied? <==> y.PermissionDenied?) && (x.InvalidArgument? <==> y.InvalidArgument?)
    ensures (x.UnknownRoute? <==> y.UnknownRoute?) && (x.DependencyNotFound? <==> y.DependencyNotFound?)
    ensures (x.DecodeFailure? <==> y.DecodeFailure?) && (x.NotImplemented? <==> y.NotImplemented?)
  {
    CodeNumber(x);
    CodeNumber(y);
  }

  /** Length and third letter tell the codes apart. */
  lemma CodeNumber(e: ActrError)
    ensures var c := Code(e);
            |c| >= 8 && (|c|, c[2]) == match e
                                       case Unavailable(_) => (11, 'a')
                                       case ConnectionNotReady(_) => (18, 'n')
                                       case TimedOut => (8, 'm')
                                       case NotFound(_) => (8, 't')
                                       case PermissionDenied(_) => (16, 'r')
                                       case InvalidArgument(_) => (15, 'v')
                                       case UnknownRoute(_) => (12, 'k')
                                       case DependencyNotFound(_, _) => (18, 'p')
                                       case DecodeFailure(_) => (13, 'c')
                                       case NotImplemented(_) => (14, 't')
                                       case InternalError(_) => (8, 't')
  {
  }

  /** No two errors arrive as the same typed error, even when rounding makes their hints equal. */
  lemma ErrorsStayDistinct(x: ActrError, y: ActrError)
    ensures MapNativeError(PayloadOf(x)) == MapNativeError(PayloadOf(y)) <==> x == y
  {
    hide MapNativeError, PayloadOf, Code, RetryText, HintJson;
    ErrorReadBack(x);
    ErrorReadBack(y);
    if MapNativeError(PayloadOf(x)) == MapNativeError(PayloadOf(y)) {
      CodeInjective(x, y);
      if x.ConnectionNotReady? { RetryTextInjective(x.retryAfterMs, y.retryAfterMs); }
    }
  }

  // ---- the eleven errors in full ----------------------------------------------------------------------

  /** What JavaScript gets to see of each error, text by text. */
  lemma WhatArrives(e: ActrError)
    ensures var m := MapNativeError(PayloadOf(e));
            match e
            case Unavailable(msg) => m == Typed("Transient", "Unavailable", msg, None, None)
            case ConnectionNotReady(None) =>
              m == Typed("Transient", "ConnectionNotReady", "retry_after_ms=None", None, Some(Null))
            case ConnectionNotReady(Some(n)) =>
              m == Typed("Transient", "ConnectionNotReady", "retry_after_ms=Some(" + Decimal(n) + ")", None, Some(Number(RoundToDouble(n))))
            case TimedOut => m == Typed("Transient", "TimedOut", "operation timed out", None, None)
            case NotFound(msg) => m == Typed("Client", "NotFound", msg, None, None)
            case PermissionDenied(msg) => m == Typed("Client", "PermissionDenied", msg, None, None)
            case InvalidArgument(msg) => m == Typed("Client", "InvalidArgument", msg, None, None)
            case UnknownRoute(msg) => m == Typed("Client", "UnknownRoute", msg, None, None)
            case DependencyNotFound(name, msg) => m == Typed("Client", "DependencyNotFound", msg, Some(Str(name)), None)
            case DecodeFailure(msg) => m == Typed("Corrupt", "DecodeFailure", msg, None, None)
            case NotImplemented(msg) => m == Typed("Internal", "NotImplemented", msg, None, None)
            case InternalError(msg) => m == Typed("Internal", "Internal", msg, None, None)
    ensures IsRetryable(MapNativeError(PayloadOf(e))) <==> e.Unavailable? || e.ConnectionNotReady? || e.TimedOut?
    ensures RequiresDlq(MapNativeError(PayloadOf(e))) <==> e.DecodeFailure?
  {
    hide MapNativeError, PayloadOf, RoundToDouble, Decimal;
    ErrorReadBack(e);
    if e.ConnectionNotReady? && e.retryAfterMs.Some? { RetryTextMeans(e.retryAfterMs.value); }
  }

  lemma RetryTextMeans(n: u64)
    ensures RetryText(Some(n)) == "retry_after_ms=Some(" + Decimal(n) + ")"
  {
    hide Decimal;
    assert "retry_after_ms=" + ("Some(" + Decimal(n) + ")") == "retry_after_ms=Some(" + Decimal(n) + ")";
  }

  // ---- what is left alone -----------------------------------------------------------------------------

  /** An object printed from any readable fields is taken for an error exactly when its kind, code and
      message are strings. */
  lemma TakenExactly(fields: seq<Field>)
    requires fields != [] && (forall i | 0 <= i < |fields| :: Reads(fields[i])) && Starts(Joined(fields), '"')
    ensures var m := Collected(fields, map[]);
            MapNativeError("{" + Joined(fields) + "}").Typed? <==>
            && KIND in m && m[KIND].Str? && CODE in m && m[CODE].Str? && MESSAGE in m && m[MESSAGE].Str?
  {
    hide Parse, Joined, Collected, Reads, KIND, CODE, MESSAGE, SERVICE_NAME, RETRY_AFTER_MS;
    ObjectRead(fields);
    var raw := "{" + Joined(fields) + "}";
    assert raw[0] == '{';
  }

  /** A message that does not start with a brace is passed on unchanged, even if it is a payload behind
      white space. */
  lemma LeftAlone(raw: string)
    requires !Starts(raw, '{')
    ensures MapNativeError(raw) == Unchanged
  {
  }
}
