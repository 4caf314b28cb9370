/** JSON trees and their text (cJSON/cJSON.c; RFC 8259, sections 4, 5 and 7). */
module JsonText {
  import opened Bytes

  type Text = seq<Byte>

  /** What a cJSON tree without raw items denotes. Strings are C strings, so they hold no NUL. */
  datatype Json =
    | Null
    | False
    | True
    | Number(value: real)
    | String(text: Text)
    | Array(items: seq<Json>)
    | Object(members: seq<Member>)

  datatype Member = Member(key: Text, value: Json)

  const NULL: Text := [110, 117, 108, 108]
  const FALSE: Text := [102, 97, 108, 115, 101]
  const TRUE: Text := [116, 114, 117, 101]

  const NUL: Byte := 0
  const BACKSPACE: Byte := 8
  const TAB: Byte := 9
  const NEWLINE: Byte := 10
  const FORMFEED: Byte := 12
  const RETURN: Byte := 13
  const SPACE: Byte := 32
  const QUOTE: Byte := 34
  const COMMA: Byte := 44
  const MINUS: Byte := 45
  const SLASH: Byte := 47
  const COLON: Byte := 58
  const OPEN_BRACKET: Byte := 91
  const BACKSLASH: Byte := 92
  const CLOSE_BRACKET: Byte := 93
  const LETTER_B: Byte := 98
  const LETTER_F: Byte := 102
  const LETTER_N: Byte := 110
  const LETTER_R: Byte := 114
  const LETTER_T: Byte := 116
  const LETTER_U: Byte := 117
  const OPEN_BRACE: Byte := 123
  const CLOSE_BRACE: Byte := 125

  // CJSON_NESTING_LIMIT
  const NESTING_LIMIT: nat := 1000

  predicate NulFree(t: Text) { NUL !in t }

  // ---------------------------------------------------------------------------------------------
  // Decimal numbers: what strtod makes of the characters that parse_number lets through

  predicate Digit(b: Byte) { 48 <= b <= 57 }

  predicate NumberChar(b: Byte) {
    Digit(b) || b == 43 || b == MINUS || b == 46 || b == 101 || b == 69
  }

  /** How many digits start at `i`. */
  function Digits(t: Text, i: nat): (n: nat)
    requires i <= |t|
    ensures i + n <= |t|
    decreases |t| - i
  {
    if i < |t| && Digit(t[i]) then 1 + Digits(t, i + 1) else 0
  }

  function DigitsValue(t: Text): nat {
    if |t| == 0 || !Digit(t[|t| - 1]) then 0 else 10 * DigitsValue(t[..|t| - 1]) + (t[|t| - 1] - 48)
  }

  function Power10(n: nat): real {
    if n == 0 then 1.0 else 10.0 * Power10(n - 1)
  }

  lemma Power10Positive(n: nat)
    ensures Power10(n) > 0.0
  {
  }

  function Scaled(m: nat, e: int): real {
    if e >= 0 then (m as real) * Power10(e) else Power10Positive(-e); (m as real) / Power10(-e)
  }

  datatype Numeral = NoNumeral | Numeral(value: real, length: nat)

  /** The longest decimal floating point number at the start of `t`, and its value. */
  function Decimal(t: Text): (r: Numeral)
    ensures r.Numeral? ==> 0 < r.length <= |t|
  {
    var start := if 0 < |t| && (t[0] == 43 || t[0] == MINUS) then 1 else 0;
    var whole := Digits(t, start);
    var point := start + whole;
    var fraction := if point < |t| && t[point] == 46 then Digits(t, point + 1) else 0;
    if whole + fraction == 0 then NoNumeral
    else
      var mantissaEnd := if point < |t| && t[point] == 46 then point + 1 + fraction else point;
      var m := DigitsValue(t[start..point] +
                           if fraction > 0 then t[point + 1..point + 1 + fraction] else []);
      var (e, end) := Exponent(t, mantissaEnd);
      var size := Scaled(m, e - fraction);
      Numeral(if 0 < start && t[0] == MINUS then -size else size, end)
  }

  // An exponent counts only when it has at least one digit.
  function Exponent(t: Text, i: nat): (r: (int, nat))
    requires i <= |t|
    ensures i <= r.1 <= |t|
  {
    if i < |t| && (t[i] == 101 || t[i] == 69) then
      var sign := if i + 1 < |t| && (t[i + 1] == 43 || t[i + 1] == MINUS) then i + 2 else i + 1;
      var n := Digits(t, sign);
      if n == 0 then (0, i)
      else
        var e: int := DigitsValue(t[sign..sign + n]);
        (if sign == i + 2 && t[i + 1] == MINUS then -e else e, sign + n)
    else (0, i)
  }

  /** What print_number's sprintf must write for a value: at most 25 number characters that start
      like a number and that strtod reads back, all of them, as that value. */
  predicate Shows(text: Text, value: real) {
    && 0 < |text| <= 25 && (text[0] == MINUS || Digit(text[0]))
    && (forall b <- text :: NumberChar(b))
    && Decimal(text) == Numeral(value, |text|)
  }

  /** What sprintf writes for a finite double: number characters only, and even %1.17g needs no more
      than 24 of them, so that print_number's temporary buffer always suffices. */
  type NumberText = t: Text | 0 < |t| <= 25 && forall b <- t :: NumberChar(b) witness [48]

  type Show = real -> NumberText

  // ---------------------------------------------------------------------------------------------
  // Rendering

  function HexDigit(n: nat): Byte
    requires n < 16
  {
    if n < 10 then 48 + n else 87 + n
  }

  function Escape(b: Byte): Text {
    if b == QUOTE then [BACKSLASH, QUOTE]
    else if b == BACKSLASH then [BACKSLASH, BACKSLASH]
    else if b == BACKSPACE then [BACKSLASH, LETTER_B]
    else if b == FORMFEED then [BACKSLASH, LETTER_F]
    else if b == NEWLINE then [BACKSLASH, LETTER_N]
    else if b == RETURN then [BACKSLASH, LETTER_R]
    else if b == TAB then [BACKSLASH, LETTER_T]
    else if b < 32 then [BACKSLASH, LETTER_U, 48, 48, HexDigit(b / 16), HexDigit(b % 16)]
    else [b]
  }

  function EscapeAll(t: Text): Text {
    if |t| == 0 then [] else Escape(t[0]) + EscapeAll(t[1..])
  }

  function RenderString(t: Text): Text { [QUOTE] + EscapeAll(t) + [QUOTE] }

  function Tabs(n: nat): Text { seq(n, _ => TAB) }

  function Separator(format: bool, more: bool): Text {
    if !more then [] else if format then [COMMA, SPACE] else [COMMA]
  }

  /** The text of a tree; `depth` is how many arrays and objects are open around it. */
  function Render(v: Json, show: Show, format: bool, depth: nat): Text
    decreases v
  {
    match v
    case Null => NULL
    case False => FALSE
    case True => TRUE
    case Number(value) => show(value)
    case String(text) => RenderString(text)
    case Array(items) => [OPEN_BRACKET] + RenderItems(items, show, format, depth + 1) + [CLOSE_BRACKET]
    case Object(members) =>
      OpenObject(format) + RenderMembers(members, show, format, depth + 1) + CloseObject(format, depth)
  }

  function Line(format: bool): Text { if format then [NEWLINE] else [] }

  function Colon(format: bool): Text { if format then [COLON, TAB] else [COLON] }

  function Indent(format: bool, depth: nat): Text { if format then Tabs(depth) else [] }

  function OpenObject(format: bool): Text { [OPEN_BRACE] + Line(format) }

  function CloseObject(format: bool, depth: nat): Text {
    Indent(format, depth) + [CLOSE_BRACE]
  }

  function RenderItems(items: seq<Json>, show: Show, format: bool, depth: nat): Text
    decreases items
  {
    if |items| == 0 then []
    else Render(items[0], show, format, depth) + Separator(format, |items| > 1) +
         RenderItems(items[1..], show, format, depth)
  }

  function MemberStart(key: Text, format: bool, depth: nat): Text {
    Indent(format, depth) + RenderString(key) + Colon(format)
  }

  function MemberEnd(format: bool, last: bool): Text {
    (if last then [] else [COMMA]) + Line(format)
  }

  function RenderMembers(members: seq<Member>, show: Show, format: bool, depth: nat): Text
    decreases members
  {
    if |members| == 0 then []
    else MemberStart(members[0].key, format, depth) + Render(members[0].value, show, format, depth) +
         MemberEnd(format, |members| == 1) + RenderMembers(members[1..], show, format, depth)
  }

  // ---------------------------------------------------------------------------------------------
  // The trees the round trip is about

  /** How many arrays and objects are open at the deepest point. */
  function Height(v: Json): nat
    decreases v
  {
    match v
    case Array(items) => 1 + ItemsHeight(items)
    case Object(members) => 1 + MembersHeight(members)
    case _ => 0
  }

  function Max(a: nat, b: nat): nat { if a < b then b else a }

  function ItemsHeight(items: seq<Json>): nat
    decreases items
  {
    if |items| == 0 then 0 else Max(Height(items[0]), ItemsHeight(items[1..]))
  }

  function MembersHeight(members: seq<Member>): nat
    decreases members
  {
    if |members| == 0 then 0 else Max(Height(members[0].value), MembersHeight(members[1..]))
  }

  /** Every string is a C string, and `show` prints every number so that it can be read back. */
  predicate Printable(v: Json, show: Show)
    decreases v
  {
    match v
    case Number(value) => Shows(show(value), value)
    case String(text) => NulFree(text)
    case Array(items) => PrintableItems(items, show)
    case Object(members) => PrintableMembers(members, show)
    case _ => true
  }

  predicate PrintableItems(items: seq<Json>, show: Show)
    decreases items
  {
    |items| == 0 || (Printable(items[0], show) && PrintableItems(items[1..], show))
  }

  predicate PrintableMembers(members: seq<Member>, show: Show)
    decreases members
  {
    |members| == 0 ||
    (NulFree(members[0].key) && Printable(members[0].value, show) && PrintableMembers(members[1..], show))
  }

  /** Every string and every name is a C string. */
  predicate CStrings(v: Json)
    decreases v
  {
    match v
    case String(text) => NulFree(text)
    case Array(items) => ItemsCStrings(items)
    case Object(members) => MembersCStrings(members)
    case _ => true
  }

  predicate ItemsCStrings(items: seq<Json>)
    decreases items
  {
    |items| == 0 || (CStrings(items[0]) && ItemsCStrings(items[1..]))
  }

  predicate MembersCStrings(members: seq<Member>)
    decreases members
  {
    |members| == 0 || (NulFree(members[0].key) && CStrings(members[0].value) && MembersCStrings(members[1..]))
  }
}
