/** Parsing the rendering of a tree gives the tree back. */
module JsonRoundTrip {
  import opened Bytes
  import opened JsonParse
  import opened JsonText
  import opened Wrappers

  lemma AtSplit(s: Text, at: nat, a: Text, b: Text)
    requires At(s, at, a + b)
    ensures At(s, at, a) && At(s, at + |a|, b) && at + |a| + |b| <= |s|
  {
    SliceOf(s, at, a + b, 0, |a|);
    SliceOf(s, at, a + b, |a|, |a| + |b|);
    assert (a + b)[0..|a|] == a && (a + b)[|a|..|a| + |b|] == b;
  }

  lemma AtChar(s: Text, at: nat, t: Text, i: nat)
    requires At(s, at, t) && i < |t|
    ensures at + |t| <= |s| && s[at + i] == t[i]
  {
    assert t[i] == s[at..at + |t|][i];
  }

  // ---------------------------------------------------------------------------------------------
  // Strings

  lemma HexDigitValue(n: nat)
    requires n < 16
    ensures HexValue(HexDigit(n)) == Some(n)
  {
  }

  lemma EscapedOnce(b: Byte)
    requires b != NUL
    ensures |Escape(b)| in {1, 2, 6} && (|Escape(b)| == 1 ==> Escape(b) == [b] && b != BACKSLASH && b != QUOTE)
    ensures |Escape(b)| > 1 ==> Escape(b)[0] == BACKSLASH
    ensures |Escape(b)| == 2 ==> Escape(b)[1] != LETTER_U && Unescape(Escape(b)[1]) == Some(b)
    ensures |Escape(b)| == 6 ==>
              && b < 32 && Escape(b)[1] == LETTER_U && Hex4(Escape(b), 2) == b
              && forall i :: 2 <= i < 6 ==> Plain(Escape(b)[i])
  {
    if |Escape(b)| == 6 {
      HexDigitValue(b / 16);
      HexDigitValue(b % 16);
      assert Hex4(Escape(b), 2) == (b / 16) * 16 + b % 16;
    }
  }

  lemma Assoc(a: Text, b: Text, c: Text)
    ensures (a + b) + c == a + (b + c)
  {
  }

  /** Both passes of parse_string undo print_string_ptr. */
  lemma {:induction false} EscapesUndone(t: Text, s: Text, at: nat)
    requires NulFree(t) && At(s, at, EscapeAll(t) + [QUOTE])
    ensures var end := at + |EscapeAll(t)|;
            && Measure(s, at).Some? && Measure(s, at).value.end == end && Decode(s, at, end) == Some(t)
    decreases |t|
  {
    hide At, Escape, Measure, Decode, NulFree, EscapeAll;
    EscapeAllStep(t);
    if |t| == 0 {
      AtChar(s, at, [QUOTE], 0);
      NothingLeft(s, at);
    } else {
      var e := Escape(t[0]);
      FirstAndRest(t);
      AtSplit(s, at, e, EscapeAll(t[1..]) + [QUOTE]);
      EscapesUndone(t[1..], s, at + |e|);
      EscapeUndone(t[0], s, at, at + |EscapeAll(t)|, t[1..]);
    }
  }

  lemma NothingLeft(s: Text, at: nat)
    requires at < |s| && s[at] == QUOTE
    ensures Measure(s, at) == Some(Extent(at, 0)) && Decode(s, at, at) == Some([])
  {
  }

  lemma EscapeAllStep(t: Text)
    ensures |t| == 0 ==> EscapeAll(t) == [] && EscapeAll(t) + [QUOTE] == [QUOTE]
    ensures |t| > 0 ==> EscapeAll(t) + [QUOTE] == Escape(t[0]) + (EscapeAll(t[1..]) + [QUOTE])
    ensures |t| > 0 ==> |EscapeAll(t)| == |Escape(t[0])| + |EscapeAll(t[1..])|
  {
    hide Escape;
    if |t| > 0 {
      Assoc(Escape(t[0]), EscapeAll(t[1..]), [QUOTE]);
    }
  }

  lemma FirstAndRest(t: Text)
    requires NulFree(t) && |t| > 0
    ensures t == [t[0]] + t[1..] && t[0] != NUL && NulFree(t[1..])
  {
    assert t[0] in t;
  }

  lemma EscapeUndone(b: Byte, s: Text, at: nat, end: nat, rest: Text)
    requires b != NUL && At(s, at, Escape(b)) && at + |Escape(b)| <= end < |s|
    requires Decode(s, at + |Escape(b)|, end) == Some(rest)
    requires Measure(s, at + |Escape(b)|).Some? && Measure(s, at + |Escape(b)|).value.end == end
    ensures Decode(s, at, end) == Some([b] + rest)
    ensures Measure(s, at).Some? && Measure(s, at).value.end == end
  {
    var e := Escape(b);
    EscapedOnce(b);
    hide Escape;
    AtChar(s, at, e, 0);
    if |e| > 1 { AtChar(s, at, e, 1); }
    if |e| == 6 {
      AtChar(s, at, e, 2);
      AtChar(s, at, e, 3);
      AtChar(s, at, e, 4);
      AtChar(s, at, e, 5);
      assert Hex4(s, at + 2) == Hex4(e, 2) == b;
      assert Utf16(s, at, end) == Some(Literal(b, 6)) && Utf8(b) == [b];
      FourPlain(s, at + 2);
    }
  }

  lemma FourPlain(s: Text, at: nat)
    requires at + 4 <= |s| && Plain(s[at]) && Plain(s[at + 1]) && Plain(s[at + 2]) && Plain(s[at + 3])
    ensures Measure(s, at) == Measure(s, at + 4)
  {
    assert Measure(s, at + 1) == Measure(s, at + 2);
    assert Measure(s, at + 2) == Measure(s, at + 3);
    assert Measure(s, at + 3) == Measure(s, at + 4);
  }

  predicate Plain(b: Byte) { b != BACKSLASH && b != QUOTE }

  lemma {:induction false} UpToNulWhole(t: Text)
    requires NulFree(t)
    ensures UpToNul(t) == t
  {
    if |t| > 0 {
      assert t[0] in t;
      UpToNulWhole(t[1..]);
    }
  }

  lemma StringUndone(t: Text, s: Text, at: nat)
    requires CString(s) && NulFree(t) && At(s, at, RenderString(t))
    ensures at < |s| && s[at] == QUOTE && ParseString(s, at) == Some(Parsed(t, at + |RenderString(t)|))
  {
    hide At, EscapeAll, Measure, Decode, UpToNul, NulFree;
    Assoc([QUOTE], EscapeAll(t), [QUOTE]);
    AtSplit(s, at, [QUOTE], EscapeAll(t) + [QUOTE]);
    AtChar(s, at, [QUOTE], 0);
    EscapesUndone(t, s, at + 1);
    UpToNulWhole(t);
  }

  // ---------------------------------------------------------------------------------------------
  // Space and numbers

  lemma {:induction false} SkipBlank(s: Text, at: nat, n: nat)
    requires at + n < |s| && s[at + n] > SPACE
    requires forall i :: at <= i < at + n ==> s[i] <= SPACE
    ensures SkipSpace(s, at) == at + n
    decreases n
  {
    if n > 0 { SkipBlank(s, at + 1, n - 1); }
  }

  // A run of newline and tabs in front of a character that is not white space.
  lemma SkipLine(s: Text, at: nat, blank: Text, c: Byte)
    requires At(s, at, blank + [c]) && c > SPACE
    requires forall b <- blank :: b == TAB || b == NEWLINE || b == SPACE
    ensures SkipSpace(s, at) == at + |blank| < |s| && s[at + |blank|] == c
  {
    AtChar(s, at, blank + [c], |blank|);
    forall i | at <= i < at + |blank| ensures s[i] <= SPACE {
      AtChar(s, at, blank + [c], i - at);
      assert blank[i - at] in blank;
    }
    SkipBlank(s, at, |blank|);
  }

  lemma {:induction false} RunIs(s: Text, at: nat, n: nat)
    requires at + n < |s| && !NumberChar(s[at + n])
    requires forall i :: at <= i < at + n ==> NumberChar(s[i])
    ensures NumberRun(s, at) == n
    decreases n
  {
    if n > 0 { RunIs(s, at + 1, n - 1); }
  }

  lemma NumberUndone(value: real, text: Text, s: Text, at: nat)
    requires CString(s) && Shows(text, value) && At(s, at, text)
    requires at + |text| < |s| && !NumberChar(s[at + |text|])
    ensures ParseNumber(s, at) == Some(Parsed(Number(value), at + |text|))
    ensures s[at] == MINUS || Digit(s[at])
  {
    hide Decimal;
    forall i | at <= i < at + |text| ensures NumberChar(s[i]) {
      AtChar(s, at, text, i - at);
      assert text[i - at] in text;
    }
    RunIs(s, at, |text|);
    AtChar(s, at, text, 0);
  }

  // ---------------------------------------------------------------------------------------------
  // Trees

  predicate StartsValue(b: Byte) {
    b in {LETTER_N, LETTER_F, LETTER_T, QUOTE, MINUS, OPEN_BRACKET, OPEN_BRACE} || Digit(b)
  }

  lemma RenderStarts(v: Json, show: Show, format: bool, depth: nat)
    requires Printable(v, show)
    ensures var t := Render(v, show, format, depth); |t| > 0 && StartsValue(t[0])
  {
    hide Decimal;
  }

  lemma NotLiteral(s: Text, at: nat)
    requires at < |s| && s[at] !in {LETTER_N, LETTER_F, LETTER_T}
    ensures !At(s, at, JsonText.NULL) && !At(s, at, FALSE) && !At(s, at, TRUE)
  {
    if At(s, at, JsonText.NULL) { AtChar(s, at, JsonText.NULL, 0); }
    if At(s, at, FALSE) { AtChar(s, at, FALSE, 0); }
    if At(s, at, TRUE) { AtChar(s, at, TRUE, 0); }
  }

  // A character decides which function reads the value.
  lemma Dispatch(s: Text, at: nat, depth: nat)
    requires CString(s) && at < |s| && s[at] !in {LETTER_N, LETTER_F, LETTER_T}
    ensures s[at] == OPEN_BRACKET ==> ParseValue(s, at, depth) == ParseArray(s, at, depth)
    ensures s[at] == OPEN_BRACE ==> ParseValue(s, at, depth) == ParseObject(s, at, depth)
    ensures s[at] == MINUS || Digit(s[at]) ==> ParseValue(s, at, depth) == ParseNumber(s, at)
    ensures s[at] == QUOTE && ParseString(s, at).Some? ==>
              var p := ParseString(s, at).value; ParseValue(s, at, depth) == Some(Parsed(String(p.value), p.end))
  {
    hide At, ParseArray, ParseObject, ParseNumber, ParseString;
    NotLiteral(s, at);
  }

  lemma SkipNothing(s: Text, at: nat)
    requires at < |s| && s[at] > SPACE
    ensures SkipSpace(s, at) == at
  {
  }

  lemma LiteralUndone(v: Json, s: Text, at: nat, depth: nat, text: Text)
    requires CString(s) && At(s, at, text) && at < |s|
    requires (v == Null && text == JsonText.NULL) || (v == False && text == FALSE) || (v == True && text == TRUE)
    ensures ParseValue(s, at, depth) == Some(Parsed(v, at + |text|))
  {
    AtChar(s, at, text, 0);
    if At(s, at, JsonText.NULL) { AtChar(s, at, JsonText.NULL, 0); }
    if At(s, at, FALSE) { AtChar(s, at, FALSE, 0); }
    hide At;
  }

  /** Whatever follows the text of a value, as long as it does not go on like a number, the value
      is read back and reading stops right behind its text. */
  lemma {:induction false} ValueUndone(v: Json, show: Show, format: bool, open: nat, s: Text, at: nat, depth: nat)
    requires CString(s) && Printable(v, show) && depth + Height(v) <= NESTING_LIMIT
    requires At(s, at, Render(v, show, format, open))
    requires at + |Render(v, show, format, open)| < |s| && !NumberChar(s[at + |Render(v, show, format, open)|])
    ensures ParseValue(s, at, depth) == Some(Parsed(v, at + |Render(v, show, format, open)|))
    decreases v
  {
    hide At, ParseValue, ParseString, ParseNumber, ParseArray, ParseObject, Shows, RenderItems, RenderMembers,
         RenderString, CString, ItemsHeight, MembersHeight, PrintableItems, PrintableMembers, NumberChar;
    match v
    case Null => LiteralUndone(v, s, at, depth, JsonText.NULL);
    case False => LiteralUndone(v, s, at, depth, FALSE);
    case True => LiteralUndone(v, s, at, depth, TRUE);
    case Number(value) =>
      NumberUndone(value, show(value), s, at);
      Dispatch(s, at, depth);
    case String(text) =>
      StringUndone(text, s, at);
      Dispatch(s, at, depth);
    case Array(items) =>
      ArrayUndone(items, show, format, open, s, at, depth);
      Dispatch(s, at, depth);
    case Object(members) =>
      ObjectUndone(members, show, format, open, s, at, depth);
      Dispatch(s, at, depth);
  }

  lemma {:induction false} ArrayUndone(items: seq<Json>, show: Show, format: bool, open: nat, s: Text, at: nat,
      depth: nat)
    requires CString(s) && PrintableItems(items, show) && depth + 1 + ItemsHeight(items) <= NESTING_LIMIT
    requires At(s, at, Render(Array(items), show, format, open))
    ensures at < |s| && s[at] == OPEN_BRACKET
    ensures ParseArray(s, at, depth) == Some(Parsed(Array(items), at + |Render(Array(items), show, format, open)|))
    decreases items, 2
  {
    hide At, CString, ParseItems, SkipSpace, ItemsHeight, PrintableItems;
    var inner := RenderItems(items, show, format, open + 1) + [CLOSE_BRACKET];
    Assoc([OPEN_BRACKET], RenderItems(items, show, format, open + 1), [CLOSE_BRACKET]);
    AtSplit(s, at, [OPEN_BRACKET], inner);
    AtChar(s, at, [OPEN_BRACKET], 0);
    AtChar(s, at + 1, inner, 0);
    ItemsStart(items, show, format, open + 1);
    SkipNothing(s, at + 1);
    if |items| > 0 {
      hide RenderItems;
      ItemsUndone(items, show, format, open + 1, s, at + 1, depth + 1);
    }
  }

  lemma ItemsStart(items: seq<Json>, show: Show, format: bool, open: nat)
    requires PrintableItems(items, show)
    ensures var t := RenderItems(items, show, format, open);
            if |items| == 0 then t == [] else |t| > 0 && StartsValue(t[0])
  {
    if |items| > 0 {
      RenderStarts(items[0], show, format, open);
      hide Render, Printable;
    }
  }

  lemma ItemsStep(items: seq<Json>, show: Show, format: bool, open: nat)
    requires |items| > 0 && PrintableItems(items, show)
    ensures RenderItems(items, show, format, open) + [CLOSE_BRACKET] ==
            Render(items[0], show, format, open) +
            (Separator(format, |items| > 1) +
             (RenderItems(items[1..], show, format, open) + [CLOSE_BRACKET]))
    ensures Printable(items[0], show) && PrintableItems(items[1..], show)
    ensures Height(items[0]) <= ItemsHeight(items) && ItemsHeight(items[1..]) <= ItemsHeight(items)
  {
    hide Render, Printable, Height;
    var a, b, c := Render(items[0], show, format, open), Separator(format, |items| > 1),
                   RenderItems(items[1..], show, format, open);
    assert (a + b + c) + [CLOSE_BRACKET] == a + (b + (c + [CLOSE_BRACKET]));
  }

  lemma {:induction false} ItemsUndone(items: seq<Json>, show: Show, format: bool, open: nat, s: Text, at: nat,
      depth: nat)
    requires CString(s) && PrintableItems(items, show) && depth + ItemsHeight(items) <= NESTING_LIMIT && |items| > 0
    requires At(s, at, RenderItems(items, show, format, open) + [CLOSE_BRACKET])
    ensures at < |s| && ParseItems(s, at, depth) ==
                        Some(Parsed(items, at + |RenderItems(items, show, format, open)| + 1))
    decreases items, 1
  {
    hide At, CString, ParseItems, ParseValue, SkipSpace, Render, RenderItems, ItemsHeight, PrintableItems, Printable,
         Height, Separator, NumberChar;
    var first := Render(items[0], show, format, open);
    var rest := RenderItems(items[1..], show, format, open) + [CLOSE_BRACKET];
    var separator := Separator(format, |items| > 1);
    ItemsStep(items, show, format, open);
    AtSplit(s, at, first, separator + rest);
    var i := at + |first|;
    AtSplit(s, i, separator, rest);
    ItemsStart(items[1..], show, format, open);
    ItemDelimited(s, i, format, |items| > 1, rest);
    RenderStarts(items[0], show, format, open);
    ValueUndone(items[0], show, format, open, s, at, depth);
    SkipNothing(s, i);
    if |items| > 1 {
      AtChar(s, i + |separator|, rest, 0);
      SkipSeparator(s, i, format, rest[0]);
      ItemsUndone(items[1..], show, format, open, s, i + |separator|, depth);
      assert items == [items[0]] + items[1..];
      ItemsMore(s, at, depth, Parsed(items[0], i), i, i + |separator|);
    } else {
      assert items == [items[0]];
      ItemsLast(s, at, depth, Parsed(items[0], i), i);
    }
  }

  lemma SkipSeparator(s: Text, i: nat, format: bool, c: Byte)
    requires var t := Separator(format, true); At(s, i, t) && i + |t| < |s| && s[i + |t|] == c && c > SPACE
    ensures SkipSpace(s, i + 1) == i + |Separator(format, true)|
  {
    var t := Separator(format, true);
    if format { AtChar(s, i, t, 1); }
    SkipNothing(s, i + |t|);
  }

  // What follows an item does not go on like a number.
  lemma ItemDelimited(s: Text, i: nat, format: bool, more: bool, rest: Text)
    requires At(s, i, Separator(format, more) + rest) && |rest| > 0 && (!more ==> rest[0] == CLOSE_BRACKET)
    ensures i < |s| && !NumberChar(s[i]) && s[i] == if more then COMMA else CLOSE_BRACKET
    ensures !more ==> Separator(format, more) == []
  {
    AtChar(s, i, Separator(format, more) + rest, 0);
    hide At;
  }

  lemma ItemsMore(s: Text, at: nat, depth: nat, p: Parsed<Json>, i: nat, next: nat)
    requires CString(s) && at < |s| && ParseValue(s, at, depth) == Some(p)
    requires SkipSpace(s, p.end) == i && s[i] == COMMA && i + 1 <= |s| && SkipSpace(s, i + 1) == next
    requires next < |s| && ParseItems(s, next, depth).Some?
    ensures var rest := ParseItems(s, next, depth).value;
            ParseItems(s, at, depth) == Some(Parsed([p.value] + rest.value, rest.end))
  {
    hide ParseValue, SkipSpace;
  }

  lemma ItemsLast(s: Text, at: nat, depth: nat, p: Parsed<Json>, i: nat)
    requires CString(s) && at < |s| && ParseValue(s, at, depth) == Some(p)
    requires SkipSpace(s, p.end) == i && s[i] == CLOSE_BRACKET
    ensures ParseItems(s, at, depth) == Some(Parsed([p.value], i + 1))
  {
    hide ParseValue, SkipSpace;
  }

  lemma {:induction false} ObjectUndone(members: seq<Member>, show: Show, format: bool, open: nat, s: Text, at: nat,
      depth: nat)
    requires CString(s) && PrintableMembers(members, show) && depth + 1 + MembersHeight(members) <= NESTING_LIMIT
    requires At(s, at, Render(Object(members), show, format, open))
    ensures at < |s| && s[at] == OPEN_BRACE
    ensures ParseObject(s, at, depth) ==
              Some(Parsed(Object(members), at + |Render(Object(members), show, format, open)|))
    decreases members, 3
  {
    hide At, CString, ParseMembers, SkipSpace, MembersHeight, PrintableMembers, RenderMembers, CloseObject, Line,
         Indent, RenderString, Render, OpenObject, ParseObject;
    var inner := RenderMembers(members, show, format, open + 1) + CloseObject(format, open);
    ObjectText(members, show, format, open);
    AtSplit(s, at, [OPEN_BRACE], Line(format) + inner);
    AtChar(s, at, [OPEN_BRACE], 0);
    AtSplit(s, at + 1, Line(format), inner);
    if |members| == 0 {
      NoMembers(members, show, format, open + 1);
      assert inner == CloseObject(format, open);
      SkipToBrace(s, at + 1, format, open);
      ObjectEmpty(s, at, depth);
    } else {
      MembersStart(members, show, format, open + 1);
      SkipToKey(s, at + 1, inner, format, open + 1);
      MembersUndone(members, show, format, open + 1, s, at + 1 + |Line(format)|, depth + 1);
      ObjectFull(s, at, depth);
    }
  }

  lemma ObjectEmpty(s: Text, at: nat, depth: nat)
    requires CString(s) && at + 1 < |s| && s[at] == OPEN_BRACE && depth < NESTING_LIMIT
    requires s[SkipSpace(s, at + 1)] == CLOSE_BRACE
    ensures ParseObject(s, at, depth) == Some(Parsed(Object([]), SkipSpace(s, at + 1) + 1))
  {
    hide SkipSpace;
  }

  lemma ObjectFull(s: Text, at: nat, depth: nat)
    requires CString(s) && at + 1 < |s| && s[at] == OPEN_BRACE && depth < NESTING_LIMIT
    requires s[SkipSpace(s, at + 1)] == QUOTE && ParseMembers(s, SkipSpace(s, at + 1), depth + 1).Some?
    ensures var p := ParseMembers(s, SkipSpace(s, at + 1), depth + 1).value;
            ParseObject(s, at, depth) == Some(Parsed(Object(p.value), p.end))
  {
    hide SkipSpace, ParseMembers;
  }

  lemma ObjectText(members: seq<Member>, show: Show, format: bool, open: nat)
    ensures Render(Object(members), show, format, open) ==
            [OPEN_BRACE] + (Line(format) + (RenderMembers(members, show, format, open + 1) + CloseObject(format, open)))
  {
    hide RenderMembers, CloseObject, Line;
    Regroup([OPEN_BRACE], Line(format), RenderMembers(members, show, format, open + 1), CloseObject(format, open));
  }

  lemma NoMembers(members: seq<Member>, show: Show, format: bool, open: nat)
    ensures |members| == 0 ==> RenderMembers(members, show, format, open) == []
  {
  }

  lemma Regroup(a: Text, b: Text, c: Text, d: Text)
    ensures (a + b) + c + d == a + (b + (c + d))
  {
  }

  // The text of the members starts with the tabs and the quote of the first key.
  lemma MembersStart(members: seq<Member>, show: Show, format: bool, open: nat)
    requires |members| > 0 && open > 0
    ensures var t := RenderMembers(members, show, format, open) + CloseObject(format, open - 1);
            var tabs := Indent(format, open);
            |tabs| < |t| && t[..|tabs|] == tabs && t[|tabs|] == QUOTE
  {
    hide CloseObject, Indent, EscapeAll;
  }

  lemma SkipToKey(s: Text, at: nat, inner: Text, format: bool, open: nat)
    requires At(s, at, Line(format) + inner)
    requires var tabs := Indent(format, open); |tabs| < |inner| && inner[..|tabs|] == tabs && inner[|tabs|] == QUOTE
    ensures var key := at + |Line(format)| + |Indent(format, open)|; SkipSpace(s, at) == key < |s| && s[key] == QUOTE
  {
    var blank := Line(format) + Indent(format, open);
    var tail := inner[|Indent(format, open)| + 1..];
    assert Line(format) + inner == (blank + [QUOTE]) + tail;
    Blank(format, open);
    hide At, SkipSpace, Line, Indent;
    AtSplit(s, at, blank + [QUOTE], tail);
    SkipLine(s, at, blank, QUOTE);
  }

  lemma Blank(format: bool, open: nat)
    ensures forall b <- Line(format) + Indent(format, open) :: b == TAB || b == NEWLINE || b == SPACE
  {
  }

  lemma SkipToBrace(s: Text, at: nat, format: bool, open: nat)
    requires At(s, at, Line(format) + CloseObject(format, open))
    ensures var i := at + |Line(format)| + |CloseObject(format, open)| - 1;
            SkipSpace(s, at) == i < |s| && s[i] == CLOSE_BRACE
  {
    var blank := Line(format) + Indent(format, open);
    assert Line(format) + CloseObject(format, open) == blank + [CLOSE_BRACE];
    Blank(format, open);
    hide At, SkipSpace, Line, Indent;
    SkipLine(s, at, blank, CLOSE_BRACE);
  }

  // The pieces of the first member's text, and of all that follows it in the object.
  lemma MembersStep(members: seq<Member>, show: Show, format: bool, open: nat)
    requires |members| > 0 && open > 0
    ensures var whole := RenderMembers(members, show, format, open) + CloseObject(format, open - 1);
            var tabs, name, value := Indent(format, open), RenderString(members[0].key),
                                     Render(members[0].value, show, format, open);
            var end, rest := MemberEnd(format, |members| == 1),
                             RenderMembers(members[1..], show, format, open) + CloseObject(format, open - 1);
            && whole == tabs + (name + (Colon(format) + (value + (end + rest))))
            && |whole| == |tabs| + |name| + |Colon(format)| + |value| + |end| + |rest|
  {
    hide Render, Indent, Colon, MemberEnd, RenderString, CloseObject;
    Regroup6(Indent(format, open), RenderString(members[0].key), Colon(format),
             Render(members[0].value, show, format, open), MemberEnd(format, |members| == 1),
             RenderMembers(members[1..], show, format, open), CloseObject(format, open - 1));
  }

  lemma Regroup6(a: Text, b: Text, c: Text, d: Text, e: Text, f: Text, g: Text)
    ensures ((a + b + c) + d + e + f) + g == a + (b + (c + (d + (e + (f + g)))))
  {
    Assoc(a + b + c + d + e, f, g);
    Assoc(a + b + c + d, e, f + g);
    Assoc(a + b + c, d, e + (f + g));
    Assoc(a + b, c, d + (e + (f + g)));
    Assoc(a, b, c + (d + (e + (f + g))));
  }

  lemma MembersFacts(members: seq<Member>, show: Show)
    requires |members| > 0 && PrintableMembers(members, show)
    ensures NulFree(members[0].key) && Printable(members[0].value, show) && PrintableMembers(members[1..], show)
    ensures Height(members[0].value) <= MembersHeight(members) && MembersHeight(members[1..]) <= MembersHeight(members)
  {
    hide Printable, Height, NulFree;
  }

  lemma SkipColon(s: Text, b: nat, format: bool, c: Byte)
    requires At(s, b, Colon(format)) && b + |Colon(format)| < |s| && s[b + |Colon(format)|] == c && c > SPACE
    ensures s[b] == COLON && SkipSpace(s, b) == b && SkipSpace(s, b + 1) == b + |Colon(format)|
  {
    AtChar(s, b, Colon(format), 0);
    if format { AtChar(s, b, Colon(format), 1); }
    SkipNothing(s, b + |Colon(format)|);
  }

  // What follows a member's value does not go on like a number.
  lemma EndDelimits(s: Text, d: nat, format: bool, last: bool, rest: Text, open: nat)
    requires At(s, d, MemberEnd(format, last) + rest) && (last ==> rest == CloseObject(format, open))
    ensures d < |s| && !NumberChar(s[d])
    ensures last || s[d] == COMMA
  {
    if last && !format { assert MemberEnd(format, last) + rest == [CLOSE_BRACE]; }
    assert |MemberEnd(format, last) + rest| > 0;
    AtChar(s, d, MemberEnd(format, last) + rest, 0);
    hide At;
  }

  lemma RestIsClose(members: seq<Member>, show: Show, format: bool, open: nat)
    requires |members| == 1 && open > 0
    ensures RenderMembers(members[1..], show, format, open) + CloseObject(format, open - 1) ==
              CloseObject(format, open - 1)
    ensures MemberEnd(format, true) == Line(format)
  {
    NoMembers(members[1..], show, format, open);
    hide CloseObject, RenderMembers, Line;
  }

  lemma SkipComma(s: Text, d: nat, rest: Text, format: bool, open: nat)
    requires At(s, d, MemberEnd(format, false) + rest) && d < |s| && s[d] == COMMA
    requires var tabs := Indent(format, open); |tabs| < |rest| && rest[..|tabs|] == tabs && rest[|tabs|] == QUOTE
    ensures SkipSpace(s, d) == d
    ensures SkipSpace(s, d + 1) == d + |MemberEnd(format, false)| + |Indent(format, open)| < |s|
  {
    assert MemberEnd(format, false) + rest == [COMMA] + (Line(format) + rest);
    hide At, Line, Indent;
    AtSplit(s, d, [COMMA], Line(format) + rest);
    SkipNothing(s, d);
    SkipToKey(s, d + 1, rest, format, open);
  }

  // A key, a colon and a value, as they stand in the text of an object.
  ghost predicate ReadsMember(s: Text, at: nat, depth: nat, member: Member, end: nat)
    requires CString(s)
  {
    && at < |s| && end < |s| && ParseString(s, at).Some?
    && var key := ParseString(s, at).value;
    && key.value == member.key && s[SkipSpace(s, key.end)] == COLON
    && ParseValue(s, SkipSpace(s, SkipSpace(s, key.end) + 1), depth) == Some(Parsed(member.value, end))
  }

  lemma MembersLast(s: Text, at: nat, depth: nat, member: Member, end: nat, i: nat)
    requires CString(s) && ReadsMember(s, at, depth, member, end)
    requires SkipSpace(s, end) == i && s[i] == CLOSE_BRACE
    ensures ParseMembers(s, at, depth) == Some(Parsed([member], i + 1))
  {
    hide ParseValue, ParseString, SkipSpace;
  }

  lemma MembersMore(s: Text, at: nat, depth: nat, member: Member, end: nat, i: nat, next: nat)
    requires CString(s) && ReadsMember(s, at, depth, member, end)
    requires SkipSpace(s, end) == i && s[i] == COMMA
    requires i + 1 <= |s| && SkipSpace(s, i + 1) == next && ParseMembers(s, next, depth).Some?
    ensures var rest := ParseMembers(s, next, depth).value;
            ParseMembers(s, at, depth) == Some(Parsed([member] + rest.value, rest.end))
  {
    hide ParseValue, ParseString, SkipSpace;
  }

  lemma MemberUndone(member: Member, value: Text, format: bool, s: Text, at: nat, depth: nat, rest: Text)
    requires CString(s) && NulFree(member.key) && |value| > 0 && StartsValue(value[0])
    requires At(s, at, RenderString(member.key) + (Colon(format) + (value + rest)))
    ensures var c := at + |RenderString(member.key)| + |Colon(format)|;
            && At(s, c, value) && At(s, c + |value|, rest)
            && (c + |value| < |s| && ParseValue(s, c, depth) == Some(Parsed(member.value, c + |value|)) ==>
                  ReadsMember(s, at, depth, member, c + |value|))
  {
    hide At, CString, ParseString, ParseValue, SkipSpace, RenderString, NulFree, Colon;
    var name := RenderString(member.key);
    AtSplit(s, at, name, Colon(format) + (value + rest));
    StringUndone(member.key, s, at);
    AtSplit(s, at + |name|, Colon(format), value + rest);
    var c := at + |name| + |Colon(format)|;
    AtSplit(s, c, value, rest);
    AtChar(s, c, value, 0);
    SkipColon(s, at + |name|, format, value[0]);
  }

  // The first member is read, and what follows it stands behind it.
  lemma {:induction false} FirstUndone(members: seq<Member>, show: Show, format: bool, open: nat, s: Text, at: nat,
      depth: nat)
    requires CString(s) && PrintableMembers(members, show) && depth + MembersHeight(members) <= NESTING_LIMIT
    requires |members| > 0 && open > 0
    requires At(s, at, RenderMembers(members, show, format, open) + CloseObject(format, open - 1))
    ensures var a := at + |Indent(format, open)|;
            var d := a + |RenderString(members[0].key)| + |Colon(format)| +
                     |Render(members[0].value, show, format, open)|;
            var rest := RenderMembers(members[1..], show, format, open) + CloseObject(format, open - 1);
            && ReadsMember(s, a, depth, members[0], d) && At(s, d, MemberEnd(format, |members| == 1) + rest)
    decreases members, 1
  {
    hide At, CString, ParseString, ParseValue, SkipSpace, Render, RenderString, RenderMembers, MembersHeight,
         NumberChar, PrintableMembers, Printable, Height, NulFree, CloseObject, MemberEnd, ReadsMember, Indent,
         Colon, Line;
    var tabs, name := Indent(format, open), RenderString(members[0].key);
    var value := Render(members[0].value, show, format, open);
    var end := MemberEnd(format, |members| == 1);
    var rest := RenderMembers(members[1..], show, format, open) + CloseObject(format, open - 1);
    MembersStep(members, show, format, open);
    MembersFacts(members, show);
    AtSplit(s, at, tabs, name + (Colon(format) + (value + (end + rest))));
    var a := at + |tabs|;
    RenderStarts(members[0].value, show, format, open);
    MemberUndone(members[0], value, format, s, a, depth, end + rest);
    var c := a + |name| + |Colon(format)|;
    if |members| == 1 { RestIsClose(members, show, format, open); }
    EndDelimits(s, c + |value|, format, |members| == 1, rest, open - 1);
    ValueUndone(members[0].value, show, format, open, s, c, depth);
  }

  lemma {:induction false} MembersUndone(members: seq<Member>, show: Show, format: bool, open: nat, s: Text, at: nat,
      depth: nat)
    requires CString(s) && PrintableMembers(members, show) && depth + MembersHeight(members) <= NESTING_LIMIT
    requires |members| > 0 && open > 0
    requires At(s, at, RenderMembers(members, show, format, open) + CloseObject(format, open - 1))
    ensures var key := at + |Indent(format, open)|;
            var end := at + |RenderMembers(members, show, format, open) + CloseObject(format, open - 1)|;
            key < |s| && ParseMembers(s, key, depth) == Some(Parsed(members, end))
    decreases members, 2
  {
    hide At, CString, ParseMembers, SkipSpace, Render, RenderString, RenderMembers, MembersHeight, NumberChar,
         ParseString, PrintableMembers, Printable, Height, NulFree, CloseObject, MemberEnd, ReadsMember, Indent,
         Colon, Line, ParseValue;
    FirstUndone(members, show, format, open, s, at, depth);
    MembersStep(members, show, format, open);
    MembersFacts(members, show);
    MembersFirst(members);
    var tabs, last := Indent(format, open), |members| == 1;
    var a := at + |tabs|;
    var d := a + |RenderString(members[0].key)| + |Colon(format)| + |Render(members[0].value, show, format, open)|;
    var end := MemberEnd(format, last);
    var rest := RenderMembers(members[1..], show, format, open) + CloseObject(format, open - 1);
    AtSplit(s, d, end, rest);
    if last {
      RestIsClose(members, show, format, open);
      SkipToBrace(s, d, format, open - 1);
      MembersLast(s, a, depth, members[0], d, d + |end| + |rest| - 1);
    } else {
      EndDelimits(s, d, format, last, rest, open - 1);
      MembersStart(members[1..], show, format, open);
      SkipComma(s, d, rest, format, open);
      MembersUndone(members[1..], show, format, open, s, d + |end|, depth);
      MembersMore(s, a, depth, members[0], d, d, d + |end| + |tabs|);
    }
  }

  lemma MembersFirst(members: seq<Member>)
    requires |members| > 0
    ensures members == [members[0]] + members[1..] && (|members| == 1 ==> members == [members[0]])
  {
  }

  // ---------------------------------------------------------------------------------------------
  // Whole texts

  lemma {:induction false} EscapedNulFree(t: Text)
    requires NulFree(t)
    ensures NulFree(EscapeAll(t))
  {
    if |t| > 0 {
      assert t[0] in t;
      EscapedNulFree(t[1..]);
    }
  }

  lemma NulFreeBoth(a: Text, b: Text)
    requires NulFree(a) && NulFree(b)
    ensures NulFree(a + b)
  {
  }

  // The pieces around values and keys.
  lemma PiecesNulFree(format: bool, depth: nat, last: bool)
    ensures NulFree([OPEN_BRACKET]) && NulFree([CLOSE_BRACKET]) && NulFree([QUOTE]) && NulFree([])
    ensures NulFree(Separator(format, !last)) && NulFree(OpenObject(format)) && NulFree(CloseObject(format, depth))
    ensures NulFree(Indent(format, depth)) && NulFree(Colon(format)) && NulFree(MemberEnd(format, last))
  {
  }

  lemma StringNulFree(t: Text)
    requires NulFree(t)
    ensures NulFree(RenderString(t))
  {
    EscapedNulFree(t);
    hide EscapeAll;
  }

  lemma {:induction false} RenderNulFree(v: Json, show: Show, format: bool, depth: nat)
    requires CStrings(v)
    ensures NulFree(Render(v, show, format, depth))
    decreases v
  {
    PiecesNulFree(format, depth, true);
    match v
    case String(text) => StringNulFree(text);
    case Array(items) =>
      hide NulFree, RenderItems, ItemsCStrings;
      ItemsNulFree(items, show, format, depth + 1);
      NulFreeBoth([OPEN_BRACKET], RenderItems(items, show, format, depth + 1));
      NulFreeBoth([OPEN_BRACKET] + RenderItems(items, show, format, depth + 1), [CLOSE_BRACKET]);
    case Object(members) =>
      hide NulFree, RenderMembers, MembersCStrings, OpenObject, CloseObject;
      MembersNulFree(members, show, format, depth + 1);
      NulFreeBoth(OpenObject(format), RenderMembers(members, show, format, depth + 1));
      NulFreeBoth(OpenObject(format) + RenderMembers(members, show, format, depth + 1), CloseObject(format, depth));
    case _ =>
  }

  lemma {:induction false} ItemsNulFree(items: seq<Json>, show: Show, format: bool, depth: nat)
    requires ItemsCStrings(items)
    ensures NulFree(RenderItems(items, show, format, depth))
    decreases items
  {
    PiecesNulFree(format, depth, |items| <= 1);
    hide NulFree, Render, CStrings, Separator;
    if |items| > 0 {
      var first, separator := Render(items[0], show, format, depth), Separator(format, |items| > 1);
      RenderNulFree(items[0], show, format, depth);
      ItemsNulFree(items[1..], show, format, depth);
      NulFreeBoth(first, separator);
      NulFreeBoth(first + separator, RenderItems(items[1..], show, format, depth));
    }
  }

  lemma {:induction false} MembersNulFree(members: seq<Member>, show: Show, format: bool, depth: nat)
    requires MembersCStrings(members)
    ensures NulFree(RenderMembers(members, show, format, depth))
    decreases members
  {
    PiecesNulFree(format, depth, |members| == 1);
    hide NulFree, Render, RenderString, CStrings, Indent, Colon, MemberEnd;
    if |members| > 0 {
      var tabs, name := Indent(format, depth), RenderString(members[0].key);
      var value, end := Render(members[0].value, show, format, depth), MemberEnd(format, |members| == 1);
      StringNulFree(members[0].key);
      RenderNulFree(members[0].value, show, format, depth);
      MembersNulFree(members[1..], show, format, depth);
      NulFreeBoth(tabs, name);
      NulFreeBoth(tabs + name, Colon(format));
      NulFreeBoth(tabs + name + Colon(format), value);
      NulFreeBoth(tabs + name + Colon(format) + value, end);
      NulFreeBoth(tabs + name + Colon(format) + value + end, RenderMembers(members[1..], show, format, depth));
    }
  }

  lemma {:induction false} PrintableStrings(v: Json, show: Show)
    requires Printable(v, show)
    ensures CStrings(v)
    decreases v
  {
    match v
    case Array(items) => PrintableItemsStrings(items, show);
    case Object(members) => PrintableMembersStrings(members, show);
    case _ =>
  }

  lemma {:induction false} PrintableItemsStrings(items: seq<Json>, show: Show)
    requires PrintableItems(items, show)
    ensures ItemsCStrings(items)
    decreases items
  {
    hide Printable, CStrings;
    if |items| > 0 {
      PrintableStrings(items[0], show);
      PrintableItemsStrings(items[1..], show);
    }
  }

  lemma {:induction false} PrintableMembersStrings(members: seq<Member>, show: Show)
    requires PrintableMembers(members, show)
    ensures MembersCStrings(members)
    decreases members
  {
    hide Printable, CStrings;
    if |members| > 0 {
      PrintableStrings(members[0].value, show);
      PrintableMembersStrings(members[1..], show);
    }
  }

  lemma NoBom(s: Text)
    requires |s| > 0 && s[0] < 0xEF
    ensures SkipBom(s) == 0
  {
    if 4 < |s| { assert s[0] == s[..3][0]; }
  }

  /** Parsing the rendering of a tree, formatted or not, gives the same tree, and nothing is left; whatever
      else follows it, as long as it does not go on like a number, makes no difference to a parser that is
      not told to read everything. */
  lemma RoundTrip(v: Json, show: Show, format: bool, rest: Text)
    requires Printable(v, show) && Height(v) <= 1000
    requires NulFree(rest) && (rest == [] || !NumberChar(rest[0]))
    ensures var t := Render(v, show, format, 0);
            && NulFree(t) && NulFree(t + rest)
            && ParseText(t, true) == ParseText(t, false) == ParseText(t + rest, false) == Some(Parsed(v, |t|))
  {
    RenderedFirst(v, show, format, rest);
    RenderedFirst(v, show, format, []);
    var t := Render(v, show, format, 0);
    assert t + [] == t;
    hide ParseText;
    WholeExactly(t);
  }

  lemma RenderedFirst(v: Json, show: Show, format: bool, rest: Text)
    requires Printable(v, show) && Height(v) <= 1000
    requires NulFree(rest) && (rest == [] || !NumberChar(rest[0]))
    ensures var t := Render(v, show, format, 0);
            && NulFree(t) && NulFree(t + rest) && ParseText(t + rest, false) == Some(Parsed(v, |t|))
  {
    var t := Render(v, show, format, 0);
    PrintableStrings(v, show);
    RenderNulFree(v, show, format, 0);
    RenderStarts(v, show, format, 0);
    NulFreeBoth(t, rest);
    hide At, Render, Printable, Height, ParseValue, CString, NulFree, SkipSpace, SkipBom, NumberChar;
    FirstText(t, rest);
    ValueUndone(v, show, format, 0, t + rest + [NUL], 0, 0);
  }

  lemma FirstText(t: Text, rest: Text)
    requires NulFree(t + rest) && |t| > 0 && StartsValue(t[0]) && (rest == [] || !NumberChar(rest[0]))
    ensures var s := t + rest + [NUL];
            && CString(s) && At(s, 0, t) && |t| < |s| && !NumberChar(s[|t|])
            && SkipBom(s) == 0 && SkipSpace(s, 0) == 0
  {
    var s := t + rest + [NUL];
    assert s[0] == t[0] && s[0..|t|] == t;
    assert s[|t|] == (rest + [NUL])[0];
    NoBom(s);
    SkipNothing(s, 0);
  }

  /** Told to read everything, the parser accepts just those texts in which nothing but characters up to a
      space follows what it reads otherwise, and the value is the same. */
  lemma WholeExactly(text: Text)
    requires NulFree(text)
    ensures ParseText(text, true).Some? <==>
              ParseText(text, false).Some? &&
              forall i | ParseText(text, false).value.end <= i < |text| :: text[i] <= 32
    ensures ParseText(text, true).Some? ==>
              ParseText(text, true) == Some(Parsed(ParseText(text, false).value.value, |text|))
  {
    hide SkipBom, ParseValue, SkipSpace;
    var s := text + [NUL];
    var r := ParseValue(s, SkipSpace(s, SkipBom(s)), 0);
    if r.Some? {
      var i := SkipSpace(s, r.value.end);
      SkippedBlank(s, r.value.end);
      assert forall k | 0 <= k < |text| :: s[k] == text[k] && text[k] in text;
    }
  }

  lemma {:induction false} SkippedBlank(s: Text, at: nat)
    requires 0 < |s| && at <= |s|
    ensures forall k | at <= k < SkipSpace(s, at) :: s[k] <= SPACE
    ensures at < |s| && (forall k | at <= k < |s| :: s[k] <= SPACE) ==> SkipSpace(s, at) == |s| - 1
    decreases |s| - at
  {
    if at < |s| && s[at] <= SPACE { SkippedBlank(s, at + 1); }
  }

  // ---------------------------------------------------------------------------------------------
  // Trees that come from text

  function Numbers(v: Json): set<real>
    decreases v
  {
    match v
    case Number(value) => {value}
    case Array(items) => ItemsNumbers(items)
    case Object(members) => MembersNumbers(members)
    case _ => {}
  }

  function ItemsNumbers(items: seq<Json>): set<real>
    decreases items
  {
    if |items| == 0 then {} else Numbers(items[0]) + ItemsNumbers(items[1..])
  }

  function MembersNumbers(members: seq<Member>): set<real>
    decreases members
  {
    if |members| == 0 then {} else Numbers(members[0].value) + MembersNumbers(members[1..])
  }

  ghost predicate Faithful(show: Show, numbers: set<real>) {
    forall n <- numbers :: Shows(show(n), n)
  }

  lemma {:induction false} ParsedValue(s: Text, at: nat, depth: nat, show: Show)
    requires CString(s) && at < |s| && depth <= NESTING_LIMIT
    requires ParseValue(s, at, depth).Some? && Faithful(show, Numbers(ParseValue(s, at, depth).value.value))
    ensures var v := ParseValue(s, at, depth).value.value; Printable(v, show) && depth + Height(v) <= NESTING_LIMIT
    decreases |s| - at, 1
  {
    hide ParseString, ParseNumber, Shows, CString, At;
    var v := ParseValue(s, at, depth).value.value;
    match v
    case String(text) => ParsedString(s, at);
    case Number(n) =>
    case Array(items) =>
      if |items| > 0 { ParsedItems(s, SkipSpace(s, at + 1), depth + 1, show); }
    case Object(members) =>
      if |members| > 0 { ParsedMembers(s, SkipSpace(s, at + 1), depth + 1, show); }
    case _ =>
  }

  lemma NotLast(s: Text, i: nat)
    requires CString(s) && i < |s|
    ensures s[i] != NUL ==> i + 1 < |s|
  {
  }

  lemma ParsedString(s: Text, at: nat)
    requires CString(s) && at < |s| && ParseString(s, at).Some?
    ensures NulFree(ParseString(s, at).value.value)
  {
    hide Measure, Decode;
  }

  lemma {:induction false} ParsedItems(s: Text, at: nat, depth: nat, show: Show)
    requires CString(s) && at < |s| && depth <= NESTING_LIMIT
    requires ParseItems(s, at, depth).Some? && Faithful(show, ItemsNumbers(ParseItems(s, at, depth).value.value))
    ensures var items := ParseItems(s, at, depth).value.value;
            PrintableItems(items, show) && depth + ItemsHeight(items) <= NESTING_LIMIT
    decreases |s| - at, 2
  {
    hide ParseValue, Shows, CString, SkipSpace, Printable, Height, Numbers;
    var items := ParseItems(s, at, depth).value.value;
    ParsedValue(s, at, depth, show);
    var i := SkipSpace(s, ParseValue(s, at, depth).value.end);
    NotLast(s, i);
    if s[i] == COMMA {
      ParsedItems(s, SkipSpace(s, i + 1), depth, show);
      assert items[1..] == ParseItems(s, SkipSpace(s, i + 1), depth).value.value;
    }
  }

  lemma {:induction false} ParsedMembers(s: Text, at: nat, depth: nat, show: Show)
    requires CString(s) && at < |s| && depth <= NESTING_LIMIT
    requires ParseMembers(s, at, depth).Some? && Faithful(show, MembersNumbers(ParseMembers(s, at, depth).value.value))
    ensures var members := ParseMembers(s, at, depth).value.value;
            PrintableMembers(members, show) && depth + MembersHeight(members) <= NESTING_LIMIT
    decreases |s| - at, 2
  {
    hide ParseValue, ParseString, Shows, CString, SkipSpace, Printable, Height, NulFree, Numbers;
    var members := ParseMembers(s, at, depth).value.value;
    ParsedString(s, at);
    var colon := SkipSpace(s, ParseString(s, at).value.end);
    NotLast(s, colon);
    var value := SkipSpace(s, colon + 1);
    ParsedValue(s, value, depth, show);
    var i := SkipSpace(s, ParseValue(s, value, depth).value.end);
    NotLast(s, i);
    if s[i] == COMMA {
      ParsedMembers(s, SkipSpace(s, i + 1), depth, show);
      assert members[1..] == ParseMembers(s, SkipSpace(s, i + 1), depth).value.value;
    }
  }

  /** Whatever text a tree came from, printing and parsing it once more does not change it. */
  lemma ReprintIsStable(text: Text, whole: bool, show: Show, format: bool)
    requires NulFree(text) && ParseText(text, whole).Some?
    requires Faithful(show, Numbers(ParseText(text, whole).value.value))
    ensures var v := ParseText(text, whole).value.value;
            var t := Render(v, show, format, 0);
            NulFree(t) && ParseText(t, true) == ParseText(t, false) == Some(Parsed(v, |t|))
  {
    var s := text + [NUL];
    ParsedValue(s, SkipSpace(s, SkipBom(s)), 0, show);
    hide ParseValue, Printable, Height, Render;
    RoundTrip(ParseText(text, whole).value.value, show, format, []);
  }
}
