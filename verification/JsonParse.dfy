/** Reading JSON text (cJSON/cJSON.c:286-344, 544-828, 967-1081, 1216-1268, 1345-1607). */
module JsonParse {
  import opened Bytes
  import opened JsonText
  import opened Wrappers

  datatype Parsed<+T> = Parsed(value: T, end: nat)

  /** The characters of a C string, its NUL included. */
  predicate CString(s: Text) {
    |s| > 0 && s[|s| - 1] == NUL && forall i :: 0 <= i < |s| - 1 ==> s[i] != NUL
  }

  // ---------------------------------------------------------------------------------------------
  // Escapes

  function HexValue(b: Byte): Option<nat> {
    if 48 <= b <= 57 then Some(b - 48)
    else if 65 <= b <= 70 then Some(b - 55)
    else if 97 <= b <= 102 then Some(b - 87)
    else None
  }

  /** parse_hex4: four digits, or 0 when one of them is not a hexadecimal digit. */
  function Hex4(s: Text, at: nat): (n: nat)
    requires at + 4 <= |s|
    ensures n < 0x10000
  {
    var a, b, c, d := HexValue(s[at]), HexValue(s[at + 1]), HexValue(s[at + 2]), HexValue(s[at + 3]);
    if a.None? || b.None? || c.None? || d.None? then 0
    else ((a.value * 16 + b.value) * 16 + c.value) * 16 + d.value
  }

  /** A Unicode scalar value: a code point that is not half of a surrogate pair. */
  predicate Scalar(c: nat) { c < 0xD800 || 0xE000 <= c < 0x110000 }

  /** UTF-8 (section 3 of RFC 3629). */
  function Utf8(c: nat): (t: Text)
    requires c < 0x110000
    ensures 1 <= |t| <= 4
  {
    if c < 0x80 then [c]
    else if c < 0x800 then [0xC0 + c / 64, 0x80 + c % 64]
    else if c < 0x10000 then [0xE0 + c / 4096, 0x80 + c / 64 % 64, 0x80 + c % 64]
    else [0xF0 + c / 262144, 0x80 + c / 4096 % 64, 0x80 + c / 64 % 64, 0x80 + c % 64]
  }

  predicate Tail(b: Byte) { 0x80 <= b <= 0xBF }

  function Payload(b: Byte, mark: nat): nat
    requires mark <= b
  {
    b - mark
  }

  /** A strict UTF-8 decoder: one scalar value, shortest form, no surrogates. */
  function DecodeUtf8(t: Text): Option<nat> {
    var c: nat :=
      if |t| == 1 && t[0] < 0x80 then t[0]
      else if |t| == 2 && 0xC2 <= t[0] <= 0xDF && Tail(t[1]) then Payload(t[0], 0xC0) * 64 + Payload(t[1], 0x80)
      else if |t| == 3 && 0xE0 <= t[0] <= 0xEF && Tail(t[1]) && Tail(t[2]) then
        (Payload(t[0], 0xE0) * 64 + Payload(t[1], 0x80)) * 64 + Payload(t[2], 0x80)
      else if |t| == 4 && 0xF0 <= t[0] <= 0xF4 && Tail(t[1]) && Tail(t[2]) && Tail(t[3]) then
        ((Payload(t[0], 0xF0) * 64 + Payload(t[1], 0x80)) * 64 + Payload(t[2], 0x80)) * 64 + Payload(t[3], 0x80)
      else 0x110000;
    if !Scalar(c) || (|t| == 3 && c < 0x800) || (|t| == 4 && c < 0x10000) then None else Some(c)
  }

  lemma Utf8RoundTrip(c: nat)
    requires Scalar(c)
    ensures DecodeUtf8(Utf8(c)) == Some(c)
  {
    assert c / 64 / 64 == c / 4096 && c / 4096 / 64 == c / 262144;
  }

  datatype Literal = Literal(code: nat, length: nat)

  /** utf16_literal_to_utf8, up to the encoding: one \uXXXX, or two that form a surrogate pair. */
  function Utf16(s: Text, at: nat, end: nat): (r: Option<Literal>)
    requires at <= end <= |s|
    ensures r.Some? ==> Scalar(r.value.code) && r.value.length in {6, 12} && at + r.value.length <= end
    ensures r.Some? ==> |Utf8(r.value.code)| + r.value.length / 2 <= r.value.length
  {
    if end - at < 6 then None
    else
      var first := Hex4(s, at + 2);
      if 0xDC00 <= first <= 0xDFFF then None
      else if 0xD800 <= first <= 0xDBFF then
        if end - (at + 6) < 6 || s[at + 6] != BACKSLASH || s[at + 7] != LETTER_U then None
        else
          var second := Hex4(s, at + 8);
          if second < 0xDC00 || second > 0xDFFF then None
          else Some(Literal(0x10000 + (first - 0xD800) * 0x400 + (second - 0xDC00), 12))
      else Some(Literal(first, 6))
  }

  function Unescape(b: Byte): Option<Byte> {
    if b == LETTER_B then Some(BACKSPACE)
    else if b == LETTER_F then Some(FORMFEED)
    else if b == LETTER_N then Some(NEWLINE)
    else if b == LETTER_R then Some(RETURN)
    else if b == LETTER_T then Some(TAB)
    else if b == QUOTE || b == BACKSLASH || b == SLASH then Some(b)
    else None
  }

  // ---------------------------------------------------------------------------------------------
  // Strings

  datatype Extent = Extent(end: nat, skipped: nat)

  /** The first pass of parse_string: the closing quote, and how many backslashes were seen. */
  function Measure(s: Text, i: nat): (r: Option<Extent>)
    ensures r.Some? ==> i <= r.value.end < |s| && s[r.value.end] == QUOTE && i + 2 * r.value.skipped <= r.value.end
    decreases |s| - i
  {
    if i >= |s| then None
    else if s[i] == QUOTE then Some(Extent(i, 0))
    else if s[i] == BACKSLASH then
      if i + 1 >= |s| then None
      else
        match Measure(s, i + 2)
        case None => None
        case Some(e) => Some(Extent(e.end, e.skipped + 1))
    else Measure(s, i + 1)
  }

  /** The second pass: what is written for the characters from `i` to the closing quote. */
  function Decode(s: Text, i: nat, end: nat): Option<Text>
    requires end < |s|
    decreases |s| - i
  {
    if i >= end then Some([])
    else if s[i] != BACKSLASH then
      match Decode(s, i + 1, end)
      case None => None
      case Some(rest) => Some([s[i]] + rest)
    else if s[i + 1] == LETTER_U then
      match Utf16(s, i, end)
      case None => None
      case Some(u) =>
        match Decode(s, i + u.length, end)
        case None => None
        case Some(rest) => Some(Utf8(u.code) + rest)
    else
      match Unescape(s[i + 1])
      case None => None
      case Some(b) =>
        match Decode(s, i + 2, end)
        case None => None
        case Some(rest) => Some([b] + rest)
  }

  /** The C string in a buffer. */
  function UpToNul(t: Text): (r: Text)
    ensures NulFree(r)
  {
    if |t| == 0 || t[0] == NUL then [] else [t[0]] + UpToNul(t[1..])
  }

  function ParseString(s: Text, at: nat): (r: Option<Parsed<Text>>)
    requires CString(s) && at < |s|
    ensures r.Some? ==> at < r.value.end < |s|
  {
    if s[at] != QUOTE then None
    else
      match Measure(s, at + 1)
      case None => None
      case Some(e) =>
        match Decode(s, at + 1, e.end)
        case None => None
        case Some(t) => Some(Parsed(UpToNul(t), e.end + 1))
  }

  // ---------------------------------------------------------------------------------------------
  // Values

  /** buffer_skip_whitespace: it runs over the NUL as well, and then steps back onto it. */
  function SkipSpace(s: Text, at: nat): (r: nat)
    requires 0 < |s| && at <= |s|
    ensures r < |s| && (at < |s| ==> at <= r) && (s[r] > SPACE || r == |s| - 1)
    decreases |s| - at
  {
    if at == |s| then |s| - 1 else if s[at] > SPACE then at else SkipSpace(s, at + 1)
  }

  function NumberRun(s: Text, at: nat): (n: nat)
    requires at <= |s|
    ensures at + n <= |s|
    ensures forall i :: at <= i < at + n ==> NumberChar(s[i])
    ensures at + n < |s| ==> !NumberChar(s[at + n])
    decreases |s| - at
  {
    if at < |s| && NumberChar(s[at]) then 1 + NumberRun(s, at + 1) else 0
  }

  /** parse_number looks at no more than 63 characters. */
  function ParseNumber(s: Text, at: nat): (r: Option<Parsed<Json>>)
    requires CString(s) && at < |s|
    ensures r.Some? ==> at < r.value.end < |s| && r.value.value.Number?
  {
    var n := NumberRun(s, at);
    var run := if n <= 63 then s[at..at + n] else s[at..at + 63];
    match Decimal(run)
    case NoNumeral => None
    case Numeral(value, length) => Some(Parsed(Number(value), at + length))
  }

  predicate At(s: Text, at: nat, t: Text) {
    at + |t| <= |s| && s[at..at + |t|] == t
  }

  /** parse_value: the first characters decide. */
  function ParseValue(s: Text, at: nat, depth: nat): (r: Option<Parsed<Json>>)
    requires CString(s) && at < |s|
    ensures r.Some? ==> at < r.value.end < |s|
    decreases |s| - at, 1
  {
    if At(s, at, JsonText.NULL) then Some(Parsed(Null, at + 4))
    else if At(s, at, FALSE) then Some(Parsed(False, at + 5))
    else if At(s, at, TRUE) then Some(Parsed(True, at + 4))
    else if s[at] == QUOTE then
      match ParseString(s, at)
      case None => None
      case Some(p) => Some(Parsed(String(p.value), p.end))
    else if s[at] == MINUS || Digit(s[at]) then ParseNumber(s, at)
    else if s[at] == OPEN_BRACKET then ParseArray(s, at, depth)
    else if s[at] == OPEN_BRACE then ParseObject(s, at, depth)
    else None
  }

  function ParseArray(s: Text, at: nat, depth: nat): (r: Option<Parsed<Json>>)
    requires CString(s) && at < |s|
    ensures r.Some? ==> at < r.value.end < |s| && r.value.value.Array?
    decreases |s| - at, 0
  {
    if depth >= NESTING_LIMIT || s[at] != OPEN_BRACKET then None
    else
      var i := SkipSpace(s, at + 1);
      if s[i] == CLOSE_BRACKET then Some(Parsed(Array([]), i + 1))
      else
        match ParseItems(s, i, depth + 1)
        case None => None
        case Some(p) => Some(Parsed(Array(p.value), p.end))
  }

  function ParseObject(s: Text, at: nat, depth: nat): (r: Option<Parsed<Json>>)
    requires CString(s) && at < |s|
    ensures r.Some? ==> at < r.value.end < |s| && r.value.value.Object?
    decreases |s| - at, 0
  {
    if depth >= NESTING_LIMIT || s[at] != OPEN_BRACE then None
    else
      var i := SkipSpace(s, at + 1);
      if s[i] == CLOSE_BRACE then Some(Parsed(Object([]), i + 1))
      else
        match ParseMembers(s, i, depth + 1)
        case None => None
        case Some(p) => Some(Parsed(Object(p.value), p.end))
  }

  // The items of an array, from the first character of one of them to behind the bracket.
  function ParseItems(s: Text, at: nat, depth: nat): (r: Option<Parsed<seq<Json>>>)
    requires CString(s) && at < |s|
    ensures r.Some? ==> at < r.value.end < |s|
    decreases |s| - at, 2
  {
    match ParseValue(s, at, depth)
    case None => None
    case Some(p) =>
      var i := SkipSpace(s, p.end);
      if s[i] == COMMA then
        match ParseItems(s, SkipSpace(s, i + 1), depth)
        case None => None
        case Some(rest) => Some(Parsed([p.value] + rest.value, rest.end))
      else if s[i] == CLOSE_BRACKET then Some(Parsed([p.value], i + 1))
      else None
  }

  // The members of an object, from the first character of a key to behind the brace.
  function ParseMembers(s: Text, at: nat, depth: nat): (r: Option<Parsed<seq<Member>>>)
    requires CString(s) && at < |s|
    ensures r.Some? ==> at < r.value.end < |s|
    decreases |s| - at, 2
  {
    match ParseString(s, at)
    case None => None
    case Some(key) =>
      var colon := SkipSpace(s, key.end);
      if s[colon] != COLON then None
      else
        match ParseValue(s, SkipSpace(s, colon + 1), depth)
        case None => None
        case Some(p) =>
          var i := SkipSpace(s, p.end);
          var member := Member(key.value, p.value);
          if s[i] == COMMA then
            match ParseMembers(s, SkipSpace(s, i + 1), depth)
            case None => None
            case Some(rest) => Some(Parsed([member] + rest.value, rest.end))
          else if s[i] == CLOSE_BRACE then Some(Parsed([member], i + 1))
          else None
  }

  // skip_utf8_bom: the mark counts only in front of at least two more characters.
  function SkipBom(s: Text): (at: nat)
    ensures at == 0 || at + 1 < |s|
  {
    if 4 < |s| && s[..3] == [0xEF, 0xBB, 0xBF] then 3 else 0
  }

  /** cJSON_ParseWithOpts on a C string: the tree, and where reading stopped. */
  function ParseText(text: Text, whole: bool): Option<Parsed<Json>>
    requires NulFree(text)
  {
    var s := text + [NUL];
    match ParseValue(s, SkipSpace(s, SkipBom(s)), 0)
    case None => None
    case Some(p) =>
      if !whole then Some(p)
      else
        var i := SkipSpace(s, p.end);
        if s[i] == NUL then Some(Parsed(p.value, i)) else None
  }

  // ---------------------------------------------------------------------------------------------
  // The two passes of parse_string: what the second writes fits what the first allocates

  // Where the first pass next stands at or behind `i`; it stands on every other character only
  // behind a backslash.
  lemma {:induction false} NextStand(s: Text, j: nat, i: nat) returns (k: nat)
    requires Measure(s, j).Some? && j <= i <= Measure(s, j).value.end
    ensures i <= k <= i + 1 && Measure(s, k).Some? && Measure(s, k).value.end == Measure(s, j).value.end
    ensures Measure(s, j).value.skipped - Measure(s, k).value.skipped <= (k - j) / 2
    decreases i - j
  {
    if i == j {
      k := j;
    } else if s[j] == BACKSLASH {
      if i == j + 1 { k := j + 2; } else { k := NextStand(s, j + 2, i); }
    } else {
      k := NextStand(s, j + 1, i);
    }
  }

  /** The second pass at `i`, while the first one stood at `j`, which is `i` or just behind it: the
      passes may disagree about where escapes start, and still there is room for everything. */
  lemma {:induction false} DecodeFits(s: Text, i: nat, j: nat)
    requires Measure(s, j).Some? && i <= j <= i + 1
    ensures var e := Measure(s, j).value; var t := Decode(s, i, e.end);
            t.Some? ==> |t.value| + e.skipped <= e.end - i
    decreases |s| - i
  {
    var e := Measure(s, j).value;
    if i < e.end && Decode(s, i, e.end).Some? {
      if s[i] != BACKSLASH {
        DecodeFits(s, i + 1, if j == i then i + 1 else j);
      } else {
        var length := if s[i + 1] == LETTER_U then Utf16(s, i, e.end).value.length else 2;
        if i + length <= e.end {
          var k := NextStand(s, if j == i then i + 2 else j, i + length);
          DecodeFits(s, i + length, k);
        }
      }
    }
  }
}
