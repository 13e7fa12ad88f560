/** basic.c: the JSON reader and printer used for the configuration. */
module JsonCodec {
  import opened Views
  import opened Decimals

  datatype Entry = Entry(key: string, value: Json)
  datatype Json =
    | Null
    | Bool(b: bool)
    | Number(n: int)
    | Str(s: string)
    | Arr(items: seq<Json>)
    | Obj(entries: seq<Entry>)

  /** Beyond is no error of the program: strtod reads a number there that this model does not hold. */
  datatype JsonError = Eof | UnexpectedToken | Beyond
  datatype Parsed<+T> = Ok(value: T, rest: string) | Err(error: JsonError)

  // ---- sv_escape ----

  function HexDigit(d: nat): char
    requires d < 16
  {
    if d < 10 then ('0' as int + d) as char else ('a' as int + d - 10) as char
  }

  function EscapeChar(c: char): string {
    if c == '\r' then "\\r"
    else if c == '\n' then "\\n"
    else if c == '\t' then "\\t"
    else if c == '\"' then "\\\""
    else if c == '\\' then "\\\\"
    else if c as int <= 0x1F then "\\u00" + [HexDigit(c as int / 16), HexDigit(c as int % 16)]
    else [c]
  }

  function Escape(s: string): string {
    if s == "" then "" else EscapeChar(s[0]) + Escape(s[1..])
  }

  method SvEscape(s: string) returns (r: string)
    ensures r == Escape(s)
  {
    hide EscapeChar;
    r := "";
    var i := 0;
    assert s[0..] == s && "" + Escape(s) == Escape(s);
    while i < |s|
      invariant 0 <= i <= |s|
      invariant Escape(s) == r + Escape(s[i..])
    {
      assert s[i..][1..] == s[i + 1..];
      Assoc(r, EscapeChar(s[i]), Escape(s[i + 1..]));
      r := r + EscapeChar(s[i]);
      i := i + 1;
    }
    assert r + "" == r;
  }

  predicate PlainChar(c: char) {
    c != '\"' && c != '\\' && c as int > 0x1F
  }

  predicate Plain(s: string) {
    forall i :: 0 <= i < |s| ==> PlainChar(s[i])
  }

  /** Escaping changes a string exactly when it holds a quote, a backslash or a control character. */
  lemma {:induction false} EscapeLength(s: string)
    ensures |Escape(s)| >= |s|
    ensures if Plain(s) then Escape(s) == s else |Escape(s)| > |s|
  {
    if s != "" {
      EscapeLength(s[1..]);
      assert s == [s[0]] + s[1..];
      assert Plain(s) <==> PlainChar(s[0]) && Plain(s[1..]);
    }
  }

  /** What a letter after a backslash stands for, and a hexadecimal digit (section 7 of RFC 8259). */
  function Meant(c: char): char {
    match c
    case 'r' => '\r'
    case 'n' => '\n'
    case 't' => '\t'
    case _ => c
  }

  function HexValue(c: char): nat {
    if '0' <= c <= '9' then c as int - '0' as int
    else if 'a' <= c <= 'f' then c as int - 'a' as int + 10
    else 0
  }

  /** A JSON string read as the standard says, for characters below 256. */
  function Unescape(s: string): string {
    if s == "" then ""
    else if s[0] == '\\' && |s| >= 6 && s[1] == 'u' then
      [(HexValue(s[4]) * 16 + HexValue(s[5])) as char] + Unescape(s[6..])
    else if s[0] == '\\' && |s| >= 2 then [Meant(s[1])] + Unescape(s[2..])
    else [s[0]] + Unescape(s[1..])
  }

  /** The escaped text means the string, and holds no control character and no quote without its backslash. */
  lemma {:induction false} EscapeMeansSame(s: string)
    ensures Unescape(Escape(s)) == s
    ensures forall c :: c in Escape(s) ==> c as int > 0x1F
    ensures forall i :: 0 <= i < |Escape(s)| && Escape(s)[i] == '\"' ==> i > 0 && Escape(s)[i - 1] == '\\'
  {
    if s != "" {
      EscapeMeansSame(s[1..]);
      EscapedCharMeans(s[0], Escape(s[1..]));
      EscapedCharIsSafe(s[0]);
      hide EscapeChar, Unescape;
      assert s == [s[0]] + s[1..];
      var e, more := EscapeChar(s[0]), Escape(s[1..]);
      forall i | 0 <= i < |e + more| && (e + more)[i] == '\"' ensures i > 0 && (e + more)[i - 1] == '\\' {
        if i >= |e| {
          assert more[i - |e|] == '\"';
          assert (e + more)[i - 1] == more[i - |e| - 1];
        }
      }
    }
  }

  lemma EscapedCharMeans(c: char, rest: string)
    ensures Unescape(EscapeChar(c) + rest) == [c] + Unescape(rest)
  {
    var e := EscapeChar(c);
    var t := e + rest;
    assert t[|e|..] == rest;
    if PlainChar(c) {
      assert t[0] == c;
    } else if |e| == 2 {
      assert t[0] == '\\' && t[1] == e[1] && Meant(e[1]) == c && e[1] != 'u';
    } else {
      assert t[0] == '\\' && t[1] == 'u' && t[4] == e[4] && t[5] == e[5];
      HexReads(c as int / 16);
      HexReads(c as int % 16);
    }
  }

  lemma HexReads(d: nat)
    requires d < 16
    ensures HexValue(HexDigit(d)) == d && HexDigit(d) as int > 0x1F && HexDigit(d) != '\"'
  {
  }

  lemma EscapedCharIsSafe(c: char)
    ensures var e := EscapeChar(c);
            && (forall x :: x in e ==> x as int > 0x1F)
            && forall i :: 0 <= i < |e| && e[i] == '\"' ==> i > 0 && e[i - 1] == '\\'
  {
    if c as int <= 0x1F {
      HexReads(c as int / 16);
      HexReads(c as int % 16);
    }
  }

  // ---- printing ----

  function Spaces(n: int): string
    decreases n
  {
    if n <= 0 then "" else " " + Spaces(n - 1)
  }

  function Quoted(s: string): string {
    "\"" + s + "\""
  }

  /** json_encode_ with pretty-print width pp at an indentation. */
  function Encode(v: Json, pp: int, indent: int): string
    decreases v
  {
    match v
    case Null => "null"
    case Bool(b) => if b then "true" else "false"
    case Number(n) => LongText(n)
    case Str(s) => Quoted(s)
    case Arr(items) =>
      "[" + (if items == [] then "" else Newline(pp) + ItemsText(items, pp, indent)) + "]"
    case Obj(entries) =>
      "{" + (if entries == [] then "" else Newline(pp) + EntriesText(entries, pp, indent)) + "}"
  }

  function Newline(pp: int): string {
    if pp > 0 then "\n" else ""
  }

  function Indent(pp: int, n: int): string {
    if pp > 0 then Spaces(n) else ""
  }

  /** The items still to print and what stands before the closing bracket. */
  function ItemsText(items: seq<Json>, pp: int, indent: int): string
    decreases items
  {
    if items == [] then Indent(pp, indent - pp)
    else
      Indent(pp, indent) + Encode(items[0], pp, indent + pp)
      + ((if |items| > 1 then "," else "") + (Newline(pp) + ItemsText(items[1..], pp, indent)))
  }

  function EntriesText(entries: seq<Entry>, pp: int, indent: int): string
    decreases entries
  {
    if entries == [] then Indent(pp, indent - pp)
    else
      Indent(pp, indent) + (Quoted(entries[0].key) + ":" + Encode(entries[0].value, pp, indent + pp))
      + ((if |entries| > 1 then "," else "") + (Newline(pp) + EntriesText(entries[1..], pp, indent)))
  }

  // ---- reading ----

  /** The byte the cursor points at; a NUL stands behind the text. */
  function Peek(s: string): char {
    if s == "" then '\0' else s[0]
  }

  function DigitRun(s: string): (r: string)
    ensures |r| <= |s|
  {
    if s == "" || !IsDigit(s[0]) then "" else [s[0]] + DigitRun(s[1..])
  }

  function UpToQuote(s: string): (r: string)
    ensures |r| <= |s| && (|r| < |s| ==> s[|r|] == '\"')
  {
    if s == "" || s[0] == '\"' then "" else [s[0]] + UpToQuote(s[1..])
  }

  function DecodeLiteral(s: string, lit: string, v: Json): Parsed<Json> {
    if |s| >= |lit| && s[..|lit|] == lit then Ok(v, s[|lit|..]) else Err(UnexpectedToken)
  }

  /** A 53-bit number times a power of two. */
  predicate IsDouble(m: nat) {
    m < 0x20_0000_0000_0000 || (m % 2 == 0 && IsDouble(m / 2))
  }

  /** The whole numbers that are exact as a double and as a long with either sign. */
  predicate Held(n: int) {
    -LONG_MAX <= n <= LONG_MAX && IsDouble(if n < 0 then -n else n)
  }

  /** A fraction, an exponent or a hexadecimal prefix may start here. */
  predicate GoesOn(s: string) {
    s != "" && s[0] in {'.', 'e', 'E', 'x', 'X'}
  }

  /** strtod on a literal of a held number; "-.5", "-inf" and "-nan" start beyond the model. */
  function DecodeNumber(s: string): Parsed<Json> {
    var neg := Peek(s) == '-';
    var t := if neg then s[1..] else s;
    var d := DigitRun(t);
    if d == "" then Err(if Peek(t) in {'.', 'i', 'I', 'n', 'N'} then Beyond else UnexpectedToken)
    else
      var n := Signed(LeadingValue(d, 0), neg);
      if GoesOn(t[|d|..]) || !Held(n) then Err(Beyond) else Ok(Number(n), t[|d|..])
  }

  /** The raw text between quotes. */
  function DecodeQuoted(s: string): Parsed<string> {
    if Peek(s) != '\"' then Err(UnexpectedToken)
    else
      var str := UpToQuote(s[1..]);
      var t := s[1..][|str|..];
      if Peek(t) != '\"' then Err(UnexpectedToken) else Ok(str, t[1..])
  }

  function DecodeValue(s: string): (r: Parsed<Json>)
    ensures r.Ok? ==> |r.rest| < |s|
    decreases |s|, 0
  {
    var t := TrimLeft(s);
    if t == "" then Err(Eof)
    else if t[0] == 'n' then DecodeLiteral(t, "null", Null)
    else if t[0] == 't' then DecodeLiteral(t, "true", Bool(true))
    else if t[0] == 'f' then DecodeLiteral(t, "false", Bool(false))
    else if t[0] == '\"' then
      match DecodeQuoted(t)
      case Err(e) => Err(e)
      case Ok(str, rest) => Ok(Str(Escape(str)), rest)
    else if t[0] == '[' then
      match DecodeItems(t[1..])
      case Err(e) => Err(e)
      case Ok(items, rest) => Ok(Arr(items), rest)
    else if t[0] == '{' then
      match DecodeEntries(t[1..])
      case Err(e) => Err(e)
      case Ok(entries, rest) => Ok(Obj(entries), rest)
    else if IsDigit(t[0]) || t[0] == '-' then DecodeNumber(t)
    else Err(UnexpectedToken)
  }

  /** A comma after a value is consumed if it is there. */
  function SkipComma(s: string): (r: string)
    ensures |r| <= |s|
  {
    var t := TrimLeft(s);
    if Peek(t) == ',' then t[1..] else t
  }

  /** The loop of json_decode_array; running out of text ends it without an error. */
  function DecodeItems(s: string): (r: Parsed<seq<Json>>)
    ensures r.Ok? ==> |r.rest| <= |s|
    decreases |s|, 1
  {
    if s == "" then Ok([], "")
    else
      var t := TrimLeft(s);
      if Peek(t) == ']' then Ok([], t[1..])
      else
        match DecodeValue(t)
        case Err(e) => Err(e)
        case Ok(v, rest) =>
          match DecodeItems(SkipComma(rest))
          case Err(e) => Err(e)
          case Ok(vs, end) => Ok([v] + vs, end)
  }

  function DecodeEntries(s: string): (r: Parsed<seq<Entry>>)
    ensures r.Ok? ==> |r.rest| <= |s|
    decreases |s|, 1
  {
    if s == "" then Ok([], "")
    else
      var t := TrimLeft(s);
      if Peek(t) == '}' then Ok([], t[1..])
      else
        match DecodeQuoted(t)
        case Err(e) => Err(e)
        case Ok(key, afterKey) =>
          var u := TrimLeft(afterKey);
          if Peek(u) != ':' then Err(UnexpectedToken)
          else
            match DecodeValue(u[1..])
            case Err(e) => Err(e)
            case Ok(v, rest) =>
              match DecodeEntries(SkipComma(rest))
              case Err(e) => Err(e)
              case Ok(es, end) => Ok([Entry(key, v)] + es, end)
  }

  function Decode(s: string): Parsed<Json> {
    match DecodeValue(Trim(s))
    case Err(e) => Err(e)
    case Ok(v, rest) => if rest == "" then Ok(v, "") else Err(UnexpectedToken)
  }

  // ---- lemmas about blanks ----

  lemma {:induction false} TrimLeftBlanks(ws: string, s: string)
    requires Blanks(ws)
    ensures TrimLeft(ws + s) == TrimLeft(s)
  {
    if ws == "" {
      assert ws + s == s;
    } else {
      assert (ws + s)[1..] == ws[1..] + s;
      TrimLeftBlanks(ws[1..], s);
    }
  }

  lemma {:induction false} SpacesBlank(n: int)
    ensures Blanks(Spaces(n))
    decreases n
  {
    if n > 0 {
      SpacesBlank(n - 1);
    }
  }

  lemma LayoutBlank(pp: int, n: int)
    ensures Blanks(Newline(pp)) && Blanks(Indent(pp, n))
  {
    SpacesBlank(n);
  }

  // ---- the round trip ----

  /** Strings without quotes, backslashes or control characters; keys without quotes; held numbers. */
  predicate Clean(v: Json)
    decreases v
  {
    match v
    case Number(n) => Held(n)
    case Str(s) => Plain(s)
    case Arr(items) => forall x :: x in items ==> Clean(x)
    case Obj(entries) => forall e :: e in entries ==> '\"' !in e.key && Clean(e.value)
    case _ => true
  }

  /** Neither strings nor keys hold a quote, and numbers are held: what the reader can follow. */
  predicate Readable(v: Json)
    decreases v
  {
    match v
    case Number(n) => Held(n)
    case Str(s) => '\"' !in s
    case Arr(items) => ReadableItems(items)
    case Obj(entries) => ReadableEntries(entries)
    case _ => true
  }

  predicate ReadableItems(items: seq<Json>)
    decreases items
  {
    forall x :: x in items ==> Readable(x)
  }

  predicate ReadableEntries(entries: seq<Entry>)
    decreases entries
  {
    forall e :: e in entries ==> '\"' !in e.key && Readable(e.value)
  }

  /** What the reader makes of a readable value: it escapes the strings, and not the keys. */
  function Escaped(v: Json): Json
    decreases v
  {
    match v
    case Str(s) => Str(Escape(s))
    case Arr(items) => Arr(EscapedItems(items))
    case Obj(entries) => Obj(EscapedEntries(entries))
    case _ => v
  }

  function EscapedItems(items: seq<Json>): seq<Json>
    decreases items
  {
    if items == [] then [] else [Escaped(items[0])] + EscapedItems(items[1..])
  }

  function EscapedEntries(entries: seq<Entry>): seq<Entry>
    decreases entries
  {
    if entries == [] then []
    else [Entry(entries[0].key, Escaped(entries[0].value))] + EscapedEntries(entries[1..])
  }

  /** What may follow a printed value: nothing strtod would take as part of a number. */
  predicate Stops(rest: string) {
    rest == "" || (!IsDigit(rest[0]) && !GoesOn(rest))
  }

  lemma {:induction false} DigitRunStops(d: string, rest: string)
    requires (forall i :: 0 <= i < |d| ==> IsDigit(d[i])) && Stops(rest)
    ensures DigitRun(d + rest) == d
  {
    if d == "" {
      assert d + rest == rest;
    } else {
      assert (d + rest)[1..] == d[1..] + rest;
      DigitRunStops(d[1..], rest);
      assert [d[0]] + d[1..] == d;
    }
  }

  lemma NumberDecodes(n: int, rest: string)
    requires Stops(rest)
    ensures DecodeNumber(LongText(n) + rest) == if Held(n) then Ok(Number(n), rest) else Err(Beyond)
  {
    var m: nat := if n < 0 then -n else n;
    var d := Decimal(m);
    DigitRunStops(d, rest);
    ReadBack(m);
    hide Decimal, LeadingValue, DigitRun, Held;
    assert (d + rest)[|d|..] == rest;
    if n < 0 {
      assert ("-" + d + rest)[1..] == d + rest;
    } else {
      assert IsDigit(d[0]) && (d + rest)[0] == d[0];
    }
  }

  lemma ReadBack(m: nat)
    ensures LeadingValue(Decimal(m), 0) == m
  {
    LeadingValueOfDecimal(m, "");
    assert Decimal(m) + "" == Decimal(m);
  }

  lemma {:induction false} UpToQuoteStops(s: string, rest: string)
    requires '\"' !in s
    ensures UpToQuote(s + "\"" + rest) == s
  {
    var t := s + "\"" + rest;
    if s != "" {
      assert t[1..] == s[1..] + "\"" + rest;
      UpToQuoteStops(s[1..], rest);
      assert [s[0]] + s[1..] == s;
    }
  }

  lemma QuotedDecodes(s: string, rest: string)
    requires '\"' !in s
    ensures DecodeQuoted(Quoted(s) + rest) == Ok(s, rest)
  {
    var t := Quoted(s) + rest;
    assert t[1..] == s + "\"" + rest;
    UpToQuoteStops(s, rest);
    assert (s + "\"" + rest)[|s|..] == "\"" + rest;
  }

  predicate Starts(c: char) {
    !IsSpace(c) && c != ']' && c != '}' && c != ',' && c != ':'
  }

  lemma EncodeStarts(v: Json, pp: int, indent: int)
    ensures Encode(v, pp, indent) != "" && Starts(Encode(v, pp, indent)[0])
  {
    if v.Number? {
      assert IsDigit(Decimal(if v.n < 0 then -v.n else v.n)[0]);
    }
  }

  // ---- texts with blanks ----

  /** A JSON text with the blanks in it; a comma may stand behind every value. */
  datatype Doc = Atom(v: Json) | List(items: seq<Item>, close: string) | Record(pairs: seq<Pair>, close: string)
  datatype Item = Item(before: string, doc: Doc, after: string, comma: bool)
  /** The key, the blanks around it and the value behind the colon. */
  datatype Pair = Pair(before: string, key: string, colon: string, item: Item)

  function DocText(d: Doc): string
    decreases d
  {
    match d
    case Atom(v) => Encode(v, 0, 0)
    case List(items, close) => "[" + (ItemsOf(items) + (close + "]"))
    case Record(pairs, close) => "{" + (PairsOf(pairs) + (close + "}"))
  }

  function Comma(x: Item): string {
    if x.comma then "," else ""
  }

  function ItemText(x: Item): string
    decreases x
  {
    x.before + (DocText(x.doc) + (x.after + Comma(x)))
  }

  function ItemsOf(items: seq<Item>): string
    decreases items
  {
    if items == [] then "" else ItemText(items[0]) + ItemsOf(items[1..])
  }

  function PairsOf(pairs: seq<Pair>): string
    decreases pairs
  {
    if pairs == [] then ""
    else
      pairs[0].before + (Quoted(pairs[0].key) + (pairs[0].colon + (":" + ItemText(pairs[0].item))))
      + PairsOf(pairs[1..])
  }

  /** The value it spells. */
  function ValueOf(d: Doc): Json
    decreases d
  {
    match d
    case Atom(v) => v
    case List(items, _) => Arr(ValuesOf(items))
    case Record(pairs, _) => Obj(EntriesOf(pairs))
  }

  function ValuesOf(items: seq<Item>): seq<Json>
    decreases items
  {
    if items == [] then [] else [ValueOf(items[0].doc)] + ValuesOf(items[1..])
  }

  function EntriesOf(pairs: seq<Pair>): seq<Entry>
    decreases pairs
  {
    if pairs == [] then [] else [Entry(pairs[0].key, ValueOf(pairs[0].item.doc))] + EntriesOf(pairs[1..])
  }

  /** Blanks where blanks may stand, no quotes in strings and keys, held numbers, and values kept apart. */
  predicate Spelled(d: Doc)
    decreases d
  {
    match d
    case Atom(v) => !v.Arr? && !v.Obj? && Readable(v)
    case List(items, close) => Blanks(close) && ItemsSpelled(items)
    case Record(pairs, close) => Blanks(close) && PairsSpelled(pairs)
  }

  predicate ItemSpelled(x: Item)
    decreases x
  {
    Blanks(x.before) && Blanks(x.after) && Spelled(x.doc)
  }

  /** The value ends where it should: a comma or a blank follows, or the closing bracket. */
  predicate SetOff(x: Item, last: bool) {
    last || x.comma || x.after != ""
  }

  predicate ItemsSpelled(items: seq<Item>)
    decreases items
  {
    items != [] ==> ItemSpelled(items[0]) && SetOff(items[0], |items| == 1) && ItemsSpelled(items[1..])
  }

  predicate PairsSpelled(pairs: seq<Pair>)
    decreases pairs
  {
    pairs != [] ==>
      && Blanks(pairs[0].before) && '\"' !in pairs[0].key && Blanks(pairs[0].colon)
      && ItemSpelled(pairs[0].item) && SetOff(pairs[0].item, |pairs| == 1) && PairsSpelled(pairs[1..])
  }

  lemma DocStarts(d: Doc)
    requires Spelled(d)
    ensures DocText(d) != "" && Starts(DocText(d)[0])
  {
    if d.Atom? {
      EncodeStarts(d.v, 0, 0);
    }
  }

  /**
   Decoding any such text, after blanks and before anything that cannot continue a number: blanks change
   nothing wherever they stand, and a comma behind a value may be missing or one too many.
   */
  lemma {:induction false} ValueDecodes(d: Doc, ws: string, rest: string)
    requires Spelled(d) && Blanks(ws) && Stops(rest)
    ensures DecodeValue(ws + (DocText(d) + rest)) == Ok(Escaped(ValueOf(d)), rest)
    decreases d, 1
  {
    var t := DocText(d) + rest;
    DocStarts(d);
    TrimLeftBlanks(ws, t);
    assert TrimLeft(t) == t;
    hide DecodeValue, DecodeItems, DecodeEntries, DecodeNumber, DecodeQuoted, TrimLeft, Held, Escape, LongText, Starts;
    hide ItemsOf, PairsOf, ValuesOf, EntriesOf, EscapedItems, EscapedEntries, ItemsSpelled, PairsSpelled, Stops;
    match d
    case Atom(v) => ReadsAtom(v, ws + t, t, rest);
    case List(items, close) =>
      ItemsDecode(items, close, rest);
      Opened("[", ItemsOf(items), close, "]", rest);
      ReadsArray(ws + t, t, EscapedItems(ValuesOf(items)), rest);
    case Record(pairs, close) =>
      PairsDecode(pairs, close, rest);
      Opened("{", PairsOf(pairs), close, "}", rest);
      ReadsObject(ws + t, t, EscapedEntries(EntriesOf(pairs)), rest);
  }

  lemma Opened(open: string, inner: string, close: string, bracket: string, rest: string)
    requires |open| == 1
    ensures var t := open + (inner + (close + bracket)) + rest;
            t[0] == open[0] && t[1..] == inner + (close + (bracket + rest))
  {
  }

  lemma ReadsAtom(v: Json, s: string, t: string, rest: string)
    requires !v.Arr? && !v.Obj? && Readable(v) && Stops(rest)
    requires TrimLeft(s) == t && t == Encode(v, 0, 0) + rest
    ensures DecodeValue(s) == Ok(Escaped(v), rest)
  {
    hide DecodeValue, DecodeNumber, DecodeQuoted, TrimLeft, Held, Escape, LongText, Stops;
    match v
    case Null => ReadsLiteral(s, t, "null", Null, rest);
    case Bool(b) => ReadsLiteral(s, t, if b then "true" else "false", v, rest);
    case Number(n) =>
      NumberCase(n, rest);
      ReadsNumber(s, t, n, rest);
    case Str(str) =>
      QuotedDecodes(str, rest);
      ReadsString(s, t, str, rest);
    case _ =>
  }

  lemma ReadsLiteral(s: string, t: string, lit: string, v: Json, rest: string)
    requires TrimLeft(s) == t && t == lit + rest
    requires (lit, v) in {("null", Null), ("true", Bool(true)), ("false", Bool(false))}
    ensures DecodeValue(s) == Ok(v, rest)
  {
    assert t[..|lit|] == lit && t[|lit|..] == rest;
  }

  lemma ReadsNumber(s: string, t: string, n: int, rest: string)
    requires TrimLeft(s) == t && t != "" && (t[0] == '-' || IsDigit(t[0])) && DecodeNumber(t) == Ok(Number(n), rest)
    ensures DecodeValue(s) == Ok(Number(n), rest)
  {
    hide DecodeNumber, TrimLeft;
  }

  lemma ReadsString(s: string, t: string, str: string, rest: string)
    requires TrimLeft(s) == t && t != "" && t[0] == '\"' && DecodeQuoted(t) == Ok(str, rest)
    ensures DecodeValue(s) == Ok(Str(Escape(str)), rest)
  {
    hide DecodeQuoted, TrimLeft, Escape;
  }

  lemma ReadsArray(s: string, t: string, items: seq<Json>, rest: string)
    requires TrimLeft(s) == t && t != "" && t[0] == '[' && DecodeItems(t[1..]) == Ok(items, rest)
    ensures DecodeValue(s) == Ok(Arr(items), rest)
  {
    hide DecodeItems, TrimLeft;
  }

  lemma ReadsObject(s: string, t: string, entries: seq<Entry>, rest: string)
    requires TrimLeft(s) == t && t != "" && t[0] == '{' && DecodeEntries(t[1..]) == Ok(entries, rest)
    ensures DecodeValue(s) == Ok(Obj(entries), rest)
  {
    hide DecodeEntries, TrimLeft;
  }

  lemma NumberCase(n: int, rest: string)
    requires Stops(rest)
    ensures var t := LongText(n) + rest; t != "" && (t[0] == '-' || IsDigit(t[0]))
    ensures DecodeNumber(LongText(n) + rest) == if Held(n) then Ok(Number(n), rest) else Err(Beyond)
  {
    NumberDecodes(n, rest);
    assert IsDigit(Decimal(if n < 0 then -n else n)[0]);
  }

  lemma AfterBlanks(pre: string, s: string)
    requires Blanks(pre) && s != "" && !IsSpace(s[0])
    ensures TrimLeft(pre + s) == s && pre + s != ""
  {
    TrimLeftBlanks(pre, s);
  }

  lemma {:induction false} TrimLeftTwice(s: string)
    ensures TrimLeft(TrimLeft(s)) == TrimLeft(s)
  {
    if s != "" && IsSpace(s[0]) {
      TrimLeftTwice(s[1..]);
    }
  }

  /** Blanks before the next value do not matter to the loops. */
  lemma BlanksSkipped(s: string)
    requires TrimLeft(s) != ""
    ensures DecodeItems(TrimLeft(s)) == DecodeItems(s) && DecodeEntries(TrimLeft(s)) == DecodeEntries(s)
  {
    TrimLeftTwice(s);
    hide DecodeValue, DecodeQuoted;
  }

  /** A value or a bracket comes next, after blanks. */
  predicate Follows(more: string) {
    TrimLeft(more) != "" && TrimLeft(more)[0] != ','
  }

  /** What the loops find after a value. */
  lemma AfterValue(x: Item, last: bool, more: string)
    requires Blanks(x.after) && SetOff(x, last) && Follows(more) && (last ==> Stops(more))
    ensures var tail := x.after + (Comma(x) + more);
            Stops(tail) && SkipComma(tail) == if x.comma then more else TrimLeft(more)
  {
    var tail := x.after + (Comma(x) + more);
    assert x.after != "" ==> tail[0] == x.after[0] && IsSpace(tail[0]);
    assert forall c :: IsSpace(c) ==> !IsDigit(c);
    TrimLeftBlanks(x.after, Comma(x) + more);
    if x.comma {
      assert (Comma(x) + more)[0] == ',' && (Comma(x) + more)[1..] == more;
      assert TrimLeft(Comma(x) + more) == Comma(x) + more;
    } else {
      assert Comma(x) + more == more;
      assert x.after == "" ==> tail == more;
    }
  }

  lemma BracketFollows(close: string, bracket: string, rest: string)
    requires Blanks(close) && bracket in {"]", "}"}
    ensures var s := close + (bracket + rest); Follows(s) && Stops(s) && TrimLeft(s) == bracket + rest && s != ""
    ensures (bracket + rest)[0] == bracket[0] && (bracket + rest)[1..] == rest
  {
    AfterBlanks(close, bracket + rest);
    assert close != "" ==> IsSpace(close[0]);
    assert close == "" ==> close + (bracket + rest) == bracket + rest;
    assert forall c :: IsSpace(c) ==> !IsDigit(c);
  }

  lemma ItemsUnfold(s: string, t: string, v: Json, rest: string, vs: seq<Json>, end: string)
    requires s != "" && TrimLeft(s) == t && t != "" && t[0] != ']'
    requires DecodeValue(t) == Ok(v, rest) && DecodeItems(SkipComma(rest)) == Ok(vs, end)
    ensures DecodeItems(s) == Ok([v] + vs, end)
  {
  }

  lemma EntriesUnfold(s: string, t: string, key: string, colon: string, u: string, v: Json, rest: string,
                      es: seq<Entry>, end: string)
    requires s != "" && TrimLeft(s) == t && t != "" && t[0] != '}' && Blanks(colon)
    requires DecodeQuoted(t) == Ok(key, colon + (":" + u)) && DecodeValue(u) == Ok(v, rest)
    requires DecodeEntries(SkipComma(rest)) == Ok(es, end)
    ensures DecodeEntries(s) == Ok([Entry(key, v)] + es, end)
  {
    AfterBlanks(colon, ":" + u);
    assert (":" + u)[1..] == u;
  }

  lemma CommaIs(x: Item)
    ensures Comma(x) == if x.comma then "," else ""
  {
  }

  /** The text from a value on. */
  lemma ItemParts(x: Item, more: string)
    ensures ItemText(x) + more == x.before + (DocText(x.doc) + (x.after + (Comma(x) + more)))
  {
    hide DocText;
  }

  /** What is left of a list after some of its values. */
  function ListTail(items: seq<Item>, close: string, rest: string): string {
    ItemsOf(items) + (close + ("]" + rest))
  }

  lemma ListTailUnfold(items: seq<Item>, close: string, rest: string)
    ensures items == [] ==> ListTail(items, close, rest) == close + ("]" + rest)
    ensures items != [] ==>
              var x, tail := items[0], items[0].after + (Comma(items[0]) + ListTail(items[1..], close, rest));
              ListTail(items, close, rest) == x.before + (DocText(x.doc) + tail)
  {
    if items != [] {
      ItemParts(items[0], ListTail(items[1..], close, rest));
      hide DocText, ItemText;
      Assoc(ItemText(items[0]), ItemsOf(items[1..]), close + ("]" + rest));
    }
  }

  lemma ListFollows(items: seq<Item>, close: string, rest: string)
    requires ItemsSpelled(items) && Blanks(close)
    ensures var more := ListTail(items, close, rest); Follows(more) && (items == [] ==> Stops(more))
  {
    ListTailUnfold(items, close, rest);
    BracketFollows(close, "]", rest);
    hide ItemsOf, DocText, Stops;
    if items != [] {
      var x := items[0];
      DocStarts(x.doc);
      AfterBlanks(x.before, DocText(x.doc) + (x.after + (Comma(x) + ListTail(items[1..], close, rest))));
    }
  }

  lemma {:induction false} ItemsDecode(items: seq<Item>, close: string, rest: string)
    requires ItemsSpelled(items) && Blanks(close)
    ensures DecodeItems(ListTail(items, close, rest)) == Ok(EscapedItems(ValuesOf(items)), rest)
    decreases items
  {
    ListTailUnfold(items, close, rest);
    if items == [] {
      BracketFollows(close, "]", rest);
    } else {
      hide DecodeItems, DecodeValue, SkipComma, TrimLeft, DocText, Stops, Starts, Follows, ListTail, Escaped, ValueOf;
      var x, more := items[0], ListTail(items[1..], close, rest);
      var tail := x.after + (Comma(x) + more);
      ListFollows(items[1..], close, rest);
      AfterValue(x, |items| == 1, more);
      FirstValue(x.before, x.doc, tail);
      ValueDecodes(x.doc, "", tail);
      assert "" + (DocText(x.doc) + tail) == DocText(x.doc) + tail;
      ItemsDecode(items[1..], close, rest);
      AtNext(more);
      ItemsUnfold(ListTail(items, close, rest), DocText(x.doc) + tail, Escaped(ValueOf(x.doc)), tail,
                  EscapedItems(ValuesOf(items[1..])), rest);
      FirstEscaped(ValueOf(x.doc), ValuesOf(items[1..]));
    }
  }

  lemma FirstValue(before: string, d: Doc, tail: string)
    requires Blanks(before) && Spelled(d)
    ensures var s, t := before + (DocText(d) + tail), DocText(d) + tail;
            s != "" && TrimLeft(s) == t && t != "" && t[0] != ']' && t[0] != '}'
  {
    DocStarts(d);
    AfterBlanks(before, DocText(d) + tail);
  }

  lemma AtNext(more: string)
    requires Follows(more)
    ensures DecodeItems(TrimLeft(more)) == DecodeItems(more) && DecodeEntries(TrimLeft(more)) == DecodeEntries(more)
  {
    BlanksSkipped(more);
  }

  lemma FirstEscaped(v: Json, vs: seq<Json>)
    ensures EscapedItems([v] + vs) == [Escaped(v)] + EscapedItems(vs)
  {
    assert ([v] + vs)[1..] == vs;
  }

  function RecordTail(pairs: seq<Pair>, close: string, rest: string): string {
    PairsOf(pairs) + (close + ("}" + rest))
  }

  lemma RecordTailUnfold(pairs: seq<Pair>, close: string, rest: string)
    ensures pairs == [] ==> RecordTail(pairs, close, rest) == close + ("}" + rest)
    ensures pairs != [] ==>
              var p, x := pairs[0], pairs[0].item;
              var tail := x.after + (Comma(x) + RecordTail(pairs[1..], close, rest));
              RecordTail(pairs, close, rest) ==
              p.before + (Quoted(p.key) + (p.colon + (":" + (x.before + (DocText(x.doc) + tail)))))
  {
    if pairs != [] {
      var p, x := pairs[0], pairs[0].item;
      ItemParts(x, RecordTail(pairs[1..], close, rest));
      hide DocText, ItemText, Quoted;
      PairParts(p.before, Quoted(p.key), p.colon, ItemText(x), PairsOf(pairs[1..]), close + ("}" + rest));
    }
  }

  lemma PairParts(before: string, key: string, colon: string, value: string, more: string, end: string)
    ensures before + (key + (colon + (":" + value))) + more + end ==
            before + (key + (colon + (":" + (value + (more + end)))))
  {
  }

  lemma RecordFollows(pairs: seq<Pair>, close: string, rest: string)
    requires PairsSpelled(pairs) && Blanks(close)
    ensures var more := RecordTail(pairs, close, rest); Follows(more) && (pairs == [] ==> Stops(more))
  {
    RecordTailUnfold(pairs, close, rest);
    BracketFollows(close, "}", rest);
    hide PairsOf, DocText, Stops;
    if pairs != [] {
      var p, x := pairs[0], pairs[0].item;
      var tail := x.after + (Comma(x) + RecordTail(pairs[1..], close, rest));
      AfterBlanks(p.before, Quoted(p.key) + (p.colon + (":" + (x.before + (DocText(x.doc) + tail)))));
    }
  }

  lemma {:induction false} PairsDecode(pairs: seq<Pair>, close: string, rest: string)
    requires PairsSpelled(pairs) && Blanks(close)
    ensures DecodeEntries(RecordTail(pairs, close, rest)) == Ok(EscapedEntries(EntriesOf(pairs)), rest)
    decreases pairs
  {
    RecordTailUnfold(pairs, close, rest);
    if pairs == [] {
      BracketFollows(close, "}", rest);
    } else {
      hide DecodeEntries, DecodeValue, SkipComma, TrimLeft, DocText, Stops, Starts, Follows, RecordTail, Escaped;
      hide ValueOf, DecodeQuoted, Quoted;
      var p, x, more := pairs[0], pairs[0].item, RecordTail(pairs[1..], close, rest);
      var tail := x.after + (Comma(x) + more);
      var u := x.before + (DocText(x.doc) + tail);
      RecordFollows(pairs[1..], close, rest);
      AfterValue(x, |pairs| == 1, more);
      FirstKey(p.before, p.key, p.colon + (":" + u));
      ValueDecodes(x.doc, x.before, tail);
      PairsDecode(pairs[1..], close, rest);
      AtNext(more);
      EntriesUnfold(RecordTail(pairs, close, rest), Quoted(p.key) + (p.colon + (":" + u)), p.key, p.colon, u,
                    Escaped(ValueOf(x.doc)), tail, EscapedEntries(EntriesOf(pairs[1..])), rest);
      FirstEntryEscaped(p.key, ValueOf(x.doc), EntriesOf(pairs[1..]));
    }
  }

  lemma FirstKey(before: string, key: string, after: string)
    requires Blanks(before) && '\"' !in key
    ensures var s, t := before + (Quoted(key) + after), Quoted(key) + after;
            s != "" && TrimLeft(s) == t && t != "" && t[0] != '}' && DecodeQuoted(t) == Ok(key, after)
  {
    QuotedDecodes(key, after);
    AfterBlanks(before, Quoted(key) + after);
  }

  lemma FirstEntryEscaped(key: string, v: Json, es: seq<Entry>)
    ensures EscapedEntries([Entry(key, v)] + es) == [Entry(key, Escaped(v))] + EscapedEntries(es)
  {
    assert ([Entry(key, v)] + es)[1..] == es;
  }

  /** A whole text: blanks around it change nothing, and anything else behind it is an error. */
  lemma TextDecodes(d: Doc, ws: string, junk: string)
    requires Spelled(d) && Blanks(ws) && Stops(junk)
    ensures Decode(ws + (DocText(d) + junk)) ==
            if Blanks(junk) then Ok(Escaped(ValueOf(d)), "") else Err(UnexpectedToken)
  {
    var text, kept := DocText(d), TrimRight(junk);
    DocStarts(d);
    DocEnds(d);
    TrimRightKeeps(text, junk);
    StopsTrimmed(junk);
    hide Spelled, DocText, Stops;
    TrimRightKeeps(ws + text, junk);
    assert ws + (text + junk) == ws + text + junk;
    assert ws + text + kept == ws + (text + kept);
    AfterBlanks(ws, text + kept);
    ValueDecodes(d, "", kept);
    assert "" + (text + kept) == text + kept;
  }

  lemma DocEnds(d: Doc)
    requires Spelled(d)
    ensures !IsSpace(DocText(d)[|DocText(d)| - 1])
  {
    if d.Atom? {
      EncodeEnds(d.v, 0, 0);
    }
  }

  /** Trimming the right end stops at the latest where the text ends. */
  lemma {:induction false} TrimRightKeeps(text: string, junk: string)
    requires text != "" && !IsSpace(text[|text| - 1])
    ensures TrimRight(text + junk) == text + TrimRight(junk) && (TrimRight(junk) == "" <==> Blanks(junk))
  {
    if junk == "" {
      assert text + junk == text;
    } else {
      var n := |junk| - 1;
      assert (text + junk)[..|text + junk| - 1] == text + junk[..n];
      if IsSpace(junk[n]) {
        TrimRightKeeps(text, junk[..n]);
      }
    }
  }

  lemma StopsTrimmed(junk: string)
    requires Stops(junk)
    ensures Stops(TrimRight(junk))
  {
    TrimRightSpec(junk);
  }

  // ---- the printer's layout ----

  /** The text the printer writes, with its blanks. */
  function Layout(v: Json, pp: int, indent: int): Doc
    decreases v
  {
    match v
    case Arr(items) => List(LayoutItems(items, pp, indent), Closing(items == [], pp, indent))
    case Obj(entries) => Record(LayoutPairs(entries, pp, indent), Closing(entries == [], pp, indent))
    case _ => Atom(v)
  }

  function Closing(empty: bool, pp: int, indent: int): string {
    if empty then "" else Newline(pp) + Indent(pp, indent - pp)
  }

  function LayoutItems(items: seq<Json>, pp: int, indent: int): seq<Item>
    decreases items
  {
    if items == [] then []
    else
      [Item(Newline(pp) + Indent(pp, indent), Layout(items[0], pp, indent + pp), "", |items| > 1)]
      + LayoutItems(items[1..], pp, indent)
  }

  function LayoutPairs(entries: seq<Entry>, pp: int, indent: int): seq<Pair>
    decreases entries
  {
    if entries == [] then []
    else
      [Pair(Newline(pp) + Indent(pp, indent), entries[0].key, "",
            Item("", Layout(entries[0].value, pp, indent + pp), "", |entries| > 1))]
      + LayoutPairs(entries[1..], pp, indent)
  }

  lemma {:induction false} LayoutText(v: Json, pp: int, indent: int)
    ensures DocText(Layout(v, pp, indent)) == Encode(v, pp, indent) && ValueOf(Layout(v, pp, indent)) == v
    ensures Readable(v) ==> Spelled(Layout(v, pp, indent))
    decreases v
  {
    hide ItemsOf, PairsOf, ItemsText, EntriesText, ValuesOf, EntriesOf, LayoutItems, LayoutPairs, LongText;
    hide ItemsSpelled, PairsSpelled, ReadableItems, ReadableEntries, Newline, Indent, Blanks;
    LayoutBlank(pp, indent - pp);
    match v
    case Arr(items) =>
      LayoutItemsText(items, pp, indent);
      Closed("[", ItemsOf(LayoutItems(items, pp, indent)), Newline(pp), Indent(pp, indent - pp),
             ItemsText(items, pp, indent), "]");
    case Obj(entries) =>
      LayoutPairsText(entries, pp, indent);
      Closed("{", PairsOf(LayoutPairs(entries, pp, indent)), Newline(pp), Indent(pp, indent - pp),
             EntriesText(entries, pp, indent), "}");
    case _ =>
  }

  lemma Closed(open: string, items: string, nl: string, pad: string, printed: string, bracket: string)
    ensures items + (nl + pad) == nl + printed ==>
              open + (items + ((nl + pad) + bracket)) == open + (nl + printed) + bracket
    ensures items == "" ==> open + (items + ("" + bracket)) == open + "" + bracket
  {
    assert open + (items + ((nl + pad) + bracket)) == open + (items + (nl + pad)) + bracket;
  }

  lemma {:induction false} LayoutItemsText(items: seq<Json>, pp: int, indent: int)
    ensures ValuesOf(LayoutItems(items, pp, indent)) == items && |LayoutItems(items, pp, indent)| == |items|
    ensures items == [] ==> ItemsOf(LayoutItems(items, pp, indent)) == ""
    ensures ItemsOf(LayoutItems(items, pp, indent)) + (Newline(pp) + Indent(pp, indent - pp)) ==
            Newline(pp) + ItemsText(items, pp, indent)
    ensures Blanks(Closing(items == [], pp, indent))
    ensures ReadableItems(items) ==> ItemsSpelled(LayoutItems(items, pp, indent))
    decreases items
  {
    hide Encode, DocText, Layout, Readable, Spelled, ValueOf, Newline, Indent;
    LayoutBlank(pp, indent - pp);
    if items != [] {
      LayoutText(items[0], pp, indent + pp);
      LayoutItemsText(items[1..], pp, indent);
      LayoutBlank(pp, indent);
      var x := Item(Newline(pp) + Indent(pp, indent), Layout(items[0], pp, indent + pp), "", |items| > 1);
      var more := LayoutItems(items[1..], pp, indent);
      FirstItem(x, more);
      assert items == [items[0]] + items[1..];
      NextPrinted(Newline(pp), Indent(pp, indent), DocText(x.doc), Comma(x), ItemsOf(more), Indent(pp, indent - pp),
                  ItemsText(items[1..], pp, indent));
    }
  }

  lemma FirstItem(x: Item, more: seq<Item>)
    ensures ItemsOf([x] + more) == ItemText(x) + ItemsOf(more)
    ensures ValuesOf([x] + more) == [ValueOf(x.doc)] + ValuesOf(more)
    ensures ItemsSpelled([x] + more) <==> ItemSpelled(x) && SetOff(x, more == []) && ItemsSpelled(more)
  {
    hide ItemText, ValueOf, ItemSpelled, SetOff;
    assert ([x] + more)[1..] == more;
  }

  lemma NextPrinted(nl: string, pad: string, e: string, comma: string, items: string, end: string, printed: string)
    requires items + (nl + end) == nl + printed
    ensures (nl + pad) + (e + ("" + comma)) + items + (nl + end) == nl + (pad + e + (comma + (nl + printed)))
  {
    assert (nl + pad) + (e + ("" + comma)) + items + (nl + end) == nl + (pad + e + (comma + (items + (nl + end))));
  }

  lemma {:induction false} LayoutPairsText(entries: seq<Entry>, pp: int, indent: int)
    ensures EntriesOf(LayoutPairs(entries, pp, indent)) == entries && |LayoutPairs(entries, pp, indent)| == |entries|
    ensures entries == [] ==> PairsOf(LayoutPairs(entries, pp, indent)) == ""
    ensures PairsOf(LayoutPairs(entries, pp, indent)) + (Newline(pp) + Indent(pp, indent - pp)) ==
            Newline(pp) + EntriesText(entries, pp, indent)
    ensures Blanks(Closing(entries == [], pp, indent))
    ensures ReadableEntries(entries) ==> PairsSpelled(LayoutPairs(entries, pp, indent))
    decreases entries
  {
    hide LayoutPairs, PairsOf, EntriesOf, PairsSpelled, Encode, DocText, Layout, Readable, Spelled, ValueOf;
    hide Newline, Indent, EntriesText, Blanks, ReadableEntries, Closing;
    ClosingBlank(entries == [], pp, indent);
    if entries == [] {
      NoLayoutPairs(pp, indent);
    } else {
      LayoutText(entries[0].value, pp, indent + pp);
      LayoutPairsText(entries[1..], pp, indent);
      FirstLayoutPair(entries, pp, indent);
      FirstPairText(entries, pp, indent);
      EntriesSplit(entries);
    }
  }

  lemma ClosingBlank(empty: bool, pp: int, indent: int)
    ensures Blanks(Closing(empty, pp, indent))
  {
    LayoutBlank(pp, indent - pp);
  }

  lemma NoLayoutPairs(pp: int, indent: int)
    ensures LayoutPairs([], pp, indent) == [] && EntriesOf([]) == [] && PairsOf([]) == "" && PairsSpelled([])
    ensures EntriesText([], pp, indent) == Indent(pp, indent - pp)
  {
  }

  lemma EntriesSplit(entries: seq<Entry>)
    requires entries != []
    ensures [Entry(entries[0].key, entries[0].value)] + entries[1..] == entries
    ensures ReadableEntries(entries) ==>
              '\"' !in entries[0].key && Readable(entries[0].value) && ReadableEntries(entries[1..])
  {
    hide Readable;
  }

  /** The pair the printer writes for its first entry. */
  function LayoutPair(entries: seq<Entry>, pp: int, indent: int): Pair
    requires entries != []
  {
    Pair(Newline(pp) + Indent(pp, indent), entries[0].key, "",
         Item("", Layout(entries[0].value, pp, indent + pp), "", |entries| > 1))
  }

  lemma FirstLayoutPair(entries: seq<Entry>, pp: int, indent: int)
    requires entries != []
    ensures var d, more := Layout(entries[0].value, pp, indent + pp), LayoutPairs(entries[1..], pp, indent);
            && |LayoutPairs(entries, pp, indent)| == 1 + |more|
            && EntriesOf(LayoutPairs(entries, pp, indent)) == [Entry(entries[0].key, ValueOf(d))] + EntriesOf(more)
            && (|more| == |entries| - 1 && Spelled(d) && PairsSpelled(more) && '\"' !in entries[0].key ==>
                  PairsSpelled(LayoutPairs(entries, pp, indent)))
  {
    hide Encode, DocText, Layout, ValueOf, Newline, Indent, Quoted, Spelled;
    LayoutBlank(pp, indent);
    var p, more := LayoutPair(entries, pp, indent), LayoutPairs(entries[1..], pp, indent);
    assert LayoutPairs(entries, pp, indent) == [p] + more;
    FirstPair(p, more);
  }

  lemma FirstPairText(entries: seq<Entry>, pp: int, indent: int)
    requires entries != []
    requires DocText(Layout(entries[0].value, pp, indent + pp)) == Encode(entries[0].value, pp, indent + pp)
    requires PairsOf(LayoutPairs(entries[1..], pp, indent)) + (Newline(pp) + Indent(pp, indent - pp)) ==
             Newline(pp) + EntriesText(entries[1..], pp, indent)
    ensures PairsOf(LayoutPairs(entries, pp, indent)) + (Newline(pp) + Indent(pp, indent - pp)) ==
            Newline(pp) + EntriesText(entries, pp, indent)
  {
    hide Encode, DocText, Layout, Newline, Indent, Quoted;
    var p, more := LayoutPair(entries, pp, indent), LayoutPairs(entries[1..], pp, indent);
    var x := p.item;
    assert LayoutPairs(entries, pp, indent) == [p] + more;
    FirstPair(p, more);
    EntriesTextStep(entries, pp, indent);
    hide LayoutPairs, EntriesText, PairsOf;
    NextPair(Newline(pp), Indent(pp, indent), Quoted(p.key), DocText(x.doc), Comma(x), PairsOf(more),
             Indent(pp, indent - pp), EntriesText(entries[1..], pp, indent));
  }

  lemma EntriesTextStep(entries: seq<Entry>, pp: int, indent: int)
    requires entries != []
    ensures EntriesText(entries, pp, indent) ==
            Indent(pp, indent) + (Quoted(entries[0].key) + ":" + Encode(entries[0].value, pp, indent + pp))
            + ((if |entries| > 1 then "," else "") + (Newline(pp) + EntriesText(entries[1..], pp, indent)))
    ensures |entries| == 1 ==> EntriesText(entries[1..], pp, indent) == Indent(pp, indent - pp)
  {
  }

  lemma FirstPair(p: Pair, more: seq<Pair>)
    ensures PairsOf([p] + more) == p.before + (Quoted(p.key) + (p.colon + (":" + ItemText(p.item)))) + PairsOf(more)
    ensures ItemText(p.item) == p.item.before + (DocText(p.item.doc) + (p.item.after + Comma(p.item)))
    ensures EntriesOf([p] + more) == [Entry(p.key, ValueOf(p.item.doc))] + EntriesOf(more)
    ensures PairsSpelled([p] + more) <==>
              && Blanks(p.before) && '\"' !in p.key && Blanks(p.colon)
              && ItemSpelled(p.item) && SetOff(p.item, more == []) && PairsSpelled(more)
  {
    hide DocText, ValueOf, ItemSpelled, SetOff, Quoted;
    assert ([p] + more)[1..] == more;
  }

  lemma NextPair(nl: string, pad: string, key: string, e: string, comma: string, pairs: string, end: string,
                 printed: string)
    requires pairs + (nl + end) == nl + printed
    ensures (nl + pad) + (key + ("" + (":" + ("" + (e + ("" + comma)))))) + pairs + (nl + end) ==
            nl + (pad + (key + ":" + e) + (comma + (nl + printed)))
  {
    assert (nl + pad) + (key + ("" + (":" + ("" + (e + ("" + comma)))))) + pairs + (nl + end) ==
           nl + (pad + (key + ":" + e) + (comma + (pairs + (nl + end))));
  }

  /** What the reader makes of any readable value the printer wrote, at every pretty-print width. */
  lemma PrintedDecodes(v: Json, pp: int)
    requires Readable(v)
    ensures Decode(Encode(v, pp, pp)) == Ok(Escaped(v), "")
  {
    LayoutText(v, pp, pp);
    var d := Layout(v, pp, pp);
    TextDecodes(d, "", "");
    assert "" + (DocText(d) + "") == DocText(d);
  }

  lemma EncodeEnds(v: Json, pp: int, indent: int)
    ensures var s := Encode(v, pp, indent); s != "" && !IsSpace(s[|s| - 1])
  {
    if v.Number? {
      var d := Decimal(if v.n < 0 then -v.n else v.n);
      assert IsDigit(d[|d| - 1]);
    }
  }

  // ---- what is read is readable ----

  lemma {:induction false} EscapeHasNoQuote(s: string)
    requires '\"' !in s
    ensures '\"' !in Escape(s)
  {
    if s != "" {
      assert '\"' !in s[1..];
      EscapeHasNoQuote(s[1..]);
    }
  }

  lemma {:induction false} UpToQuoteHasNoQuote(s: string)
    ensures '\"' !in UpToQuote(s)
  {
    if s != "" && s[0] != '\"' {
      UpToQuoteHasNoQuote(s[1..]);
    }
  }

  lemma {:induction false} DecodedIsReadable(s: string)
    ensures var r := DecodeValue(s); r.Ok? ==> Readable(r.value)
    decreases |s|, 0
  {
    var t := TrimLeft(s);
    if t != "" {
      if t[0] == '\"' {
        UpToQuoteHasNoQuote(t[1..]);
        EscapeHasNoQuote(UpToQuote(t[1..]));
      } else if t[0] == '[' {
        DecodedItemsAreReadable(t[1..]);
      } else if t[0] == '{' {
        DecodedEntriesAreReadable(t[1..]);
      }
    }
  }

  lemma {:induction false} DecodedItemsAreReadable(s: string)
    ensures var r := DecodeItems(s); r.Ok? ==> ReadableItems(r.value)
    decreases |s|, 1
  {
    var t := TrimLeft(s);
    if s != "" && Peek(t) != ']' {
      DecodedIsReadable(t);
      var first := DecodeValue(t);
      if first.Ok? {
        DecodedItemsAreReadable(SkipComma(first.rest));
      }
    }
  }

  lemma {:induction false} DecodedEntriesAreReadable(s: string)
    ensures var r := DecodeEntries(s); r.Ok? ==> ReadableEntries(r.value)
    decreases |s|, 1
  {
    var t := TrimLeft(s);
    if s != "" && Peek(t) != '}' && DecodeQuoted(t).Ok? {
      UpToQuoteHasNoQuote(t[1..]);
      var u := TrimLeft(DecodeQuoted(t).rest);
      if Peek(u) == ':' {
        DecodedIsReadable(u[1..]);
        var value := DecodeValue(u[1..]);
        if value.Ok? {
          DecodedEntriesAreReadable(SkipComma(value.rest));
        }
      }
    }
  }

  // ---- what comes back unchanged ----

  lemma {:induction false} EscapedIsSame(v: Json)
    requires Readable(v)
    ensures Escaped(v) == v <==> Clean(v)
    decreases v
  {
    match v
    case Str(s) => EscapeLength(s);
    case Arr(items) => EscapedItemsAreSame(items);
    case Obj(entries) => EscapedEntriesAreSame(entries);
    case _ =>
  }

  lemma {:induction false} EscapedItemsAreSame(items: seq<Json>)
    requires ReadableItems(items)
    ensures EscapedItems(items) == items <==> forall x :: x in items ==> Clean(x)
    decreases items
  {
    if items != [] {
      var x, more := items[0], items[1..];
      assert items == [x] + more && x in items;
      EscapedIsSame(x);
      EscapedItemsAreSame(more);
      assert EscapedItems(items) == [Escaped(x)] + EscapedItems(more);
      assert EscapedItems(items)[1..] == EscapedItems(more);
    }
  }

  lemma {:induction false} EscapedEntriesAreSame(entries: seq<Entry>)
    requires ReadableEntries(entries)
    ensures EscapedEntries(entries) == entries <==> forall e :: e in entries ==> '\"' !in e.key && Clean(e.value)
    decreases entries
  {
    if entries != [] {
      var e, more := entries[0], entries[1..];
      assert entries == [e] + more && e in entries;
      EscapedIsSame(e.value);
      EscapedEntriesAreSame(more);
      var first := Entry(e.key, Escaped(e.value));
      assert EscapedEntries(entries) == [first] + EscapedEntries(more);
      assert EscapedEntries(entries)[1..] == EscapedEntries(more);
      assert first == e <==> Escaped(e.value) == e.value;
    }
  }

  lemma {:induction false} CleanIsReadable(v: Json)
    requires Clean(v)
    ensures Readable(v)
    decreases v
  {
    match v
    case Arr(items) => forall x | x in items ensures Readable(x) { CleanIsReadable(x); }
    case Obj(entries) => forall e | e in entries ensures Readable(e.value) { CleanIsReadable(e.value); }
    case _ =>
  }

  /** Decoding what json_encode printed gives the value back if and only if nothing in it needs an escape. */
  lemma RoundTripExactly(v: Json, pp: int)
    ensures Decode(Encode(v, pp, pp)) == Ok(v, "") <==> Clean(v)
  {
    if Readable(v) {
      PrintedDecodes(v, pp);
      EscapedIsSame(v);
    } else {
      DecodedIsReadable(Trim(Encode(v, pp, pp)));
      if Clean(v) {
        CleanIsReadable(v);
      }
    }
  }

  /** In particular for a lone string. */
  lemma StringRoundTripsExactly(s: string, pp: int)
    ensures Decode(Encode(Str(s), pp, pp)) == Ok(Str(s), "") <==> Plain(s)
  {
    RoundTripExactly(Str(s), pp);
  }

  /** A lone backslash comes back as two. */
  lemma BackslashDoubles(pp: int)
    ensures Decode(Encode(Str("\\"), pp, pp)) == Ok(Str("\\\\"), "")
  {
    PrintedDecodes(Str("\\"), pp);
    assert Escape("\\") == EscapeChar('\\') + Escape("") == "\\\\";
  }

  // ---- the printer, into a builder ----

  method PushSpaces(sb: StringBuilder, n: int)
    modifies sb
    ensures sb.contents == old(sb.contents) + Spaces(n)
  {
    ghost var start := sb.contents;
    var i := n;
    assert start + Spaces(n) == sb.contents + Spaces(i);
    while i > 0
      invariant start + Spaces(n) == sb.contents + Spaces(i)
      decreases i
    {
      Assoc(sb.contents, " ", Spaces(i - 1));
      sb.PushSv(" ");
      i := i - 1;
    }
    assert sb.contents + "" == sb.contents;
  }

  method PushLayout(sb: StringBuilder, pp: int, n: int)
    modifies sb
    ensures sb.contents == old(sb.contents) + Indent(pp, n)
  {
    if pp > 0 {
      PushSpaces(sb, n);
    } else {
      assert sb.contents + "" == sb.contents;
    }
  }

  /** Bytes of the grown buffer that were not written yet. */
  method AnyPlaces(k: nat) returns (places: string)
    ensures |places| == k
  {
    places := seq(k, _ => '\0');
  }

  /** json_encode_, with a log10 that announces the right number of places. */
  method Print(v: Json, sb: StringBuilder, pp: int, indent: int)
    modifies sb
    ensures sb.contents == old(sb.contents) + Encode(v, pp, indent)
    decreases v, 1
  {
    match v
    case Null => sb.PushSv("null");
    case Bool(b) => sb.PushSv(if b then "true" else "false");
    case Number(n) =>
      var places := AnyPlaces(|LongText(n)|);
      ghost var o := sb.contents;
      PushLong(sb, n, places);
      if n != 0 {
        PushedExactly(o, n, places);
      }
    case Str(s) => sb.PushSv(Quoted(s));
    case Arr(items) => PrintArray(v, sb, pp, indent);
    case Obj(entries) => PrintObject(v, sb, pp, indent);
  }

  /** A value with the comma and the line end after it. */
  method PrintItem(v: Json, sb: StringBuilder, pp: int, indent: int, last: bool)
    modifies sb
    ensures sb.contents == old(sb.contents) + (Encode(v, pp, indent) + ((if last then "" else ",") + Newline(pp)))
    decreases v, 2
  {
    hide Encode;
    ghost var start := sb.contents;
    Print(v, sb, pp, indent);
    if !last {
      sb.PushSv(",");
    }
    if pp > 0 {
      sb.PushSv("\n");
    }
    Tail(start, Encode(v, pp, indent), if last then "" else ",", Newline(pp));
  }

  lemma Tail(start: string, e: string, comma: string, nl: string)
    ensures start + (e + (comma + nl)) == start + e + comma + nl
    ensures start + e + "" == start + e && start + e + comma + "" == start + e + comma
  {
  }

  method PrintArray(v: Json, sb: StringBuilder, pp: int, indent: int)
    requires v.Arr?
    modifies sb
    ensures sb.contents == old(sb.contents) + Encode(v, pp, indent)
    decreases v, 0
  {
    sb.PushSv("[");
    if |v.items| > 0 {
      if pp > 0 {
        sb.PushSv("\n");
      }
      PrintItems(v.items, sb, pp, indent);
    }
    sb.PushSv("]");
    Enclosed(old(sb.contents), "[", Newline(pp), ItemsText(v.items, pp, indent), "]");
  }

  /** The loop over the items and the blanks before the closing bracket. */
  method PrintItems(items: seq<Json>, sb: StringBuilder, pp: int, indent: int)
    requires items != []
    modifies sb
    ensures sb.contents == old(sb.contents) + ItemsText(items, pp, indent)
    decreases items
  {
    hide ItemsText, Encode;
    ghost var start := sb.contents;
    var i := 0;
    assert items[0..] == items;
    while i < |items|
      invariant 0 <= i <= |items|
      invariant start + ItemsText(items, pp, indent) == sb.contents + ItemsText(items[i..], pp, indent)
    {
      ghost var was := sb.contents;
      ghost var more := ItemsText(items[i + 1..], pp, indent);
      assert items[i..][1..] == items[i + 1..] && items[i..][0] == items[i];
      ItemsTextStep(items[i..], pp, indent);
      PushLayout(sb, pp, indent);
      PrintItem(items[i], sb, pp, indent + pp, i == |items| - 1);
      ItemPrinted(was, Indent(pp, indent), Encode(items[i], pp, indent + pp),
                  if i == |items| - 1 then "" else ",", Newline(pp), more);
      i := i + 1;
    }
    assert items[i..] == [];
    LastText(pp, indent);
    PushLayout(sb, pp, indent - pp);
  }

  lemma LastText(pp: int, indent: int)
    ensures ItemsText([], pp, indent) == Indent(pp, indent - pp) == EntriesText([], pp, indent)
  {
  }

  lemma ItemsTextStep(items: seq<Json>, pp: int, indent: int)
    requires items != []
    ensures ItemsText(items, pp, indent) ==
            Indent(pp, indent) + Encode(items[0], pp, indent + pp)
            + ((if |items| > 1 then "," else "") + (Newline(pp) + ItemsText(items[1..], pp, indent)))
  {
  }

  lemma ItemPrinted(was: string, pre: string, e: string, comma: string, nl: string, more: string)
    ensures was + (pre + e + (comma + (nl + more))) == was + pre + (e + (comma + nl)) + more
  {
  }

  lemma Enclosed(start: string, open: string, nl: string, text: string, close: string)
    ensures start + open + nl + text + close == start + (open + (nl + text) + close)
    ensures start + open + close == start + (open + "" + close) && start + open + "" == start + open
  {
  }

  method PrintObject(v: Json, sb: StringBuilder, pp: int, indent: int)
    requires v.Obj?
    modifies sb
    ensures sb.contents == old(sb.contents) + Encode(v, pp, indent)
    decreases v, 0
  {
    sb.PushSv("{");
    if |v.entries| > 0 {
      if pp > 0 {
        sb.PushSv("\n");
      }
      PrintEntries(v.entries, sb, pp, indent);
    }
    sb.PushSv("}");
    Enclosed(old(sb.contents), "{", Newline(pp), EntriesText(v.entries, pp, indent), "}");
  }

  method PrintEntries(entries: seq<Entry>, sb: StringBuilder, pp: int, indent: int)
    requires entries != []
    modifies sb
    ensures sb.contents == old(sb.contents) + EntriesText(entries, pp, indent)
    decreases entries
  {
    hide EntriesText, Encode;
    ghost var start := sb.contents;
    var i := 0;
    assert entries[0..] == entries;
    while i < |entries|
      invariant 0 <= i <= |entries|
      invariant start + EntriesText(entries, pp, indent) == sb.contents + EntriesText(entries[i..], pp, indent)
    {
      ghost var was := sb.contents;
      ghost var more := EntriesText(entries[i + 1..], pp, indent);
      assert entries[i..][1..] == entries[i + 1..] && entries[i..][0] == entries[i];
      EntriesTextStep(entries[i..], pp, indent);
      PushLayout(sb, pp, indent);
      sb.PushSv(Quoted(entries[i].key) + ":");
      PrintItem(entries[i].value, sb, pp, indent + pp, i == |entries| - 1);
      EntryPrinted(was, Indent(pp, indent), Quoted(entries[i].key) + ":", Encode(entries[i].value, pp, indent + pp),
                   if i == |entries| - 1 then "" else ",", Newline(pp), more);
      i := i + 1;
    }
    assert entries[i..] == [];
    LastText(pp, indent);
    PushLayout(sb, pp, indent - pp);
  }

  lemma EntryPrinted(was: string, pre: string, key: string, e: string, comma: string, nl: string, more: string)
    ensures was + (pre + (key + e) + (comma + (nl + more))) == was + pre + key + (e + (comma + nl)) + more
  {
  }

  // ---- the reader, over a cursor ----

  /** The String the decoder advances in place. */
  class Cursor {
    var text: string

    constructor (text: string)
      ensures this.text == text
    {
      this.text := text;
    }

    method TrimFront()
      modifies this
      ensures text == TrimLeft(old(text))
    {
      while text != "" && IsSpace(text[0])
        invariant TrimLeft(text) == TrimLeft(old(text))
        decreases |text|
      {
        text := text[1..];
      }
    }

    /** json_consume_char. */
    method Advance() returns (ok: bool)
      modifies this
      ensures ok <==> old(text) != ""
      ensures text == if ok then old(text)[1..] else old(text)
    {
      if text == "" {
        return false;
      }
      text := text[1..];
      ok := true;
    }

    /** json_consume_literal; on a mismatch the matching part stays consumed. */
    method Literal(lit: string) returns (ok: bool)
      modifies this
      ensures ok <==> |old(text)| >= |lit| && old(text)[..|lit|] == lit
      ensures ok ==> text == old(text)[|lit|..]
    {
      if |text| < |lit| {
        return false;
      }
      ghost var s := text;
      var i := 0;
      while i < |lit|
        invariant 0 <= i <= |lit| && text == s[i..] && s[..i] == lit[..i]
      {
        assert s[..i + 1] == s[..i] + [s[i]] && lit[..i + 1] == lit[..i] + [lit[i]];
        if text[0] != lit[i] {
          assert s[..|lit|][i] != lit[i];
          return false;
        }
        text := text[1..];
        i := i + 1;
      }
      ok := true;
    }
  }

  datatype Read<+T> = Got(value: T) | Failed(error: JsonError)

  /** A reader did what its specification says: the same value and the same rest, or the same error. */
  predicate Agrees<T(==)>(r: Read<T>, rest: string, spec: Parsed<T>) {
    match spec
    case Ok(v, left) => r == Got(v) && rest == left
    case Err(e) => r == Failed(e)
  }

  method ReadLiteral(c: Cursor, lit: string, v: Json) returns (r: Read<Json>)
    modifies c
    ensures Agrees(r, c.text, DecodeLiteral(old(c.text), lit, v))
  {
    var ok := c.Literal(lit);
    r := if ok then Got(v) else Failed(UnexpectedToken);
  }

  method ReadNumber(c: Cursor) returns (r: Read<Json>)
    modifies c
    ensures Agrees(r, c.text, DecodeNumber(old(c.text)))
  {
    var neg := Peek(c.text) == '-';
    var t := if neg then c.text[1..] else c.text;
    var d := DigitRun(t);
    if d == "" {
      return Failed(if Peek(t) in {'.', 'i', 'I', 'n', 'N'} then Beyond else UnexpectedToken);
    }
    c.text := t[|d|..];
    var n := Signed(LeadingValue(d, 0), neg);
    r := if GoesOn(c.text) || !Held(n) then Failed(Beyond) else Got(Number(n));
  }

  /** The quoted part of json_decode_string and of an object key. */
  method ReadQuoted(c: Cursor) returns (r: Read<string>)
    modifies c
    ensures Agrees(r, c.text, DecodeQuoted(old(c.text)))
  {
    if Peek(c.text) != '\"' {
      return Failed(UnexpectedToken);
    }
    c.text := c.text[1..];
    ghost var s := c.text;
    var str := "";
    assert s[0..] == s && str + UpToQuote(s) == UpToQuote(s);
    while c.text != "" && c.text[0] != '\"'
      invariant |str| <= |s| && c.text == s[|str|..] && UpToQuote(s) == str + UpToQuote(c.text)
      decreases |c.text|
    {
      Assoc(str, [c.text[0]], UpToQuote(c.text[1..]));
      str := str + [c.text[0]];
      c.text := c.text[1..];
    }
    assert UpToQuote(s) == str;
    if Peek(c.text) != '\"' {
      return Failed(UnexpectedToken);
    }
    c.text := c.text[1..];
    r := Got(str);
  }

  /** json_decode_value. */
  method ReadValue(c: Cursor) returns (r: Read<Json>)
    modifies c
    ensures Agrees(r, c.text, DecodeValue(old(c.text)))
    decreases |c.text|, 0
  {
    c.TrimFront();
    if c.text == "" {
      return Failed(Eof);
    }
    var ch := c.text[0];
    if ch == 'n' {
      r := ReadLiteral(c, "null", Null);
    } else if ch == 't' {
      r := ReadLiteral(c, "true", Bool(true));
    } else if ch == 'f' {
      r := ReadLiteral(c, "false", Bool(false));
    } else if ch == '\"' {
      var q := ReadQuoted(c);
      if q.Failed? {
        return Failed(q.error);
      }
      var escaped := SvEscape(q.value);
      r := Got(Str(escaped));
    } else if ch == '[' {
      c.text := c.text[1..];
      var items := ReadItems(c);
      r := if items.Got? then Got(Arr(items.value)) else Failed(items.error);
    } else if ch == '{' {
      c.text := c.text[1..];
      var entries := ReadEntries(c);
      r := if entries.Got? then Got(Obj(entries.value)) else Failed(entries.error);
    } else if IsDigit(ch) || ch == '-' {
      r := ReadNumber(c);
    } else {
      r := Failed(UnexpectedToken);
    }
  }

  method ReadComma(c: Cursor)
    modifies c
    ensures c.text == SkipComma(old(c.text))
  {
    c.TrimFront();
    if Peek(c.text) == ',' {
      c.text := c.text[1..];
    }
  }

  function PrependItems(acc: seq<Json>, p: Parsed<seq<Json>>): Parsed<seq<Json>> {
    match p
    case Ok(vs, rest) => Ok(acc + vs, rest)
    case Err(e) => Err(e)
  }

  /** The loop of json_decode_array. */
  method ReadItems(c: Cursor) returns (r: Read<seq<Json>>)
    modifies c
    ensures Agrees(r, c.text, DecodeItems(old(c.text)))
    decreases |c.text|, 1
  {
    ghost var spec := DecodeItems(c.text);
    var values: seq<Json> := [];
    assert spec.Ok? ==> [] + spec.value == spec.value;
    while c.text != ""
      invariant |c.text| <= |old(c.text)| && spec == PrependItems(values, DecodeItems(c.text))
      decreases |c.text|
    {
      ghost var here := DecodeItems(c.text);
      c.TrimFront();
      if Peek(c.text) == ']' {
        c.text := c.text[1..];
        assert values + [] == values;
        return Got(values);
      }
      ghost var before := values;
      var v := ReadValue(c);
      if v.Failed? {
        return Failed(v.error);
      }
      ReadComma(c);
      values := values + [v.value];
      AppendItem(before, v.value, DecodeItems(c.text));
    }
    assert values + [] == values;
    r := Got(values);
  }

  lemma AppendItem(acc: seq<Json>, v: Json, p: Parsed<seq<Json>>)
    ensures PrependItems(acc, PrependItems([v], p)) == PrependItems(acc + [v], p)
  {
    if p.Ok? {
      assert acc + ([v] + p.value) == (acc + [v]) + p.value;
    }
  }

  function PrependEntries(acc: seq<Entry>, p: Parsed<seq<Entry>>): Parsed<seq<Entry>> {
    match p
    case Ok(es, rest) => Ok(acc + es, rest)
    case Err(e) => Err(e)
  }

  /** The loop of json_decode_object. */
  method ReadEntries(c: Cursor) returns (r: Read<seq<Entry>>)
    modifies c
    ensures Agrees(r, c.text, DecodeEntries(old(c.text)))
    decreases |c.text|, 1
  {
    ghost var spec := DecodeEntries(c.text);
    var entries: seq<Entry> := [];
    assert spec.Ok? ==> [] + spec.value == spec.value;
    while c.text != ""
      invariant |c.text| <= |old(c.text)| && spec == PrependEntries(entries, DecodeEntries(c.text))
      decreases |c.text|
    {
      ghost var here := DecodeEntries(c.text);
      c.TrimFront();
      if Peek(c.text) == '}' {
        c.text := c.text[1..];
        assert entries + [] == entries;
        return Got(entries);
      }
      ghost var before := entries;
      var key := ReadQuoted(c);
      if key.Failed? {
        return Failed(key.error);
      }
      c.TrimFront();
      if Peek(c.text) != ':' {
        return Failed(UnexpectedToken);
      }
      c.text := c.text[1..];
      var v := ReadValue(c);
      if v.Failed? {
        return Failed(v.error);
      }
      ReadComma(c);
      entries := entries + [Entry(key.value, v.value)];
      AppendEntry(before, Entry(key.value, v.value), DecodeEntries(c.text));
    }
    assert entries + [] == entries;
    r := Got(entries);
  }

  lemma AppendEntry(acc: seq<Entry>, e: Entry, p: Parsed<seq<Entry>>)
    ensures PrependEntries(acc, PrependEntries([e], p)) == PrependEntries(acc + [e], p)
  {
    if p.Ok? {
      assert acc + ([e] + p.value) == (acc + [e]) + p.value;
    }
  }

  /** json_decode. */
  method ReadJson(s: string) returns (r: Read<Json>)
    ensures Agrees(r, "", Decode(s))
  {
    var t := SvTrim(s);
    var c := new Cursor(t);
    r := ReadValue(c);
    if r.Got? && c.text != "" {
      r := Failed(UnexpectedToken);
    }
  }
}
