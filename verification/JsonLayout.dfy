/** How printed text is laid out (cJSON/cJSON.c:889-947, 1439-1498, 1610-1721), said of the text alone: what
    stands between its tokens, whatever tree it comes from. */
module JsonLayout {
  import opened Bytes
  import opened JsonParse
  import opened JsonRoundTrip
  import opened JsonText
  import opened Wrappers

  // ---------------------------------------------------------------------------------------------
  // Reading the layout off a text

  // The next character above a space.
  function Next(t: Text, i: nat): (r: nat)
    requires i <= |t|
    ensures i <= r <= |t|
    decreases |t| - i
  {
    if i < |t| && t[i] <= 32 then Next(t, i + 1) else i
  }

  // The end of the token at `i`: a string literal as a whole, or else a single character.
  function TokenEnd(t: Text, i: nat): (r: nat)
    requires i < |t|
    ensures i < r <= |t|
  {
    if t[i] == 34 && Measure(t, i + 1).Some? then Measure(t, i + 1).value.end + 1 else i + 1
  }

  // The brackets and braces that are open behind a token.
  function OpenBehind(open: Text, token: Byte): Text {
    if token == 91 || token == 123 then open + [token]
    else if (token == 93 || token == 125) && open != [] then open[..|open| - 1]
    else open
  }

  predicate Closes(open: Text, token: Byte) {
    && (token == 93 ==> open != [] && open[|open| - 1] == 91)
    && (token == 125 ==> open != [] && open[|open| - 1] == 123)
  }

  /** What formatted text has between two tokens when these brackets and braces are open between them: a line
      break behind `{`, behind a comma between members and in front of `}`, each with as many tabs as
      containers are open around what comes next; a space behind a comma between items; a tab behind a colon. */
  function Gap(token: Byte, next: Byte, open: Text): Text {
    if next == 125 && open != [] then [10] + seq(|open| - 1, _ => 9)
    else if token == 123 || (token == 44 && open != [] && open[|open| - 1] == 123) then [10] + seq(|open|, _ => 9)
    else if token == 44 then [32]
    else if token == 58 then [9]
    else []
  }

  /** From the token at `i` on, text is laid out like that, or has no white space between tokens at all; and
      every bracket and brace is closed by its own kind. */
  predicate LaidOut(t: Text, i: nat, open: Text, format: bool)
    requires i <= |t|
    decreases |t| - i, 0
  {
    if i == |t| then open == []
    else t[i] > 32 && Closes(open, t[i]) && Follows(t, TokenEnd(t, i), t[i], OpenBehind(open, t[i]), format)
  }

  // The same from right behind a token on.
  predicate Follows(t: Text, e: nat, token: Byte, open: Text, format: bool)
    requires e <= |t|
    decreases |t| - e, 1
  {
    var w := Next(t, e);
    t[e..w] == (if format && w < |t| then Gap(token, t[w], open) else []) && LaidOut(t, w, open, format)
  }

  // ---------------------------------------------------------------------------------------------
  // Printed text

  lemma {:induction false} NextIs(t: Text, i: nat, n: nat)
    requires i + n < |t| && t[i + n] > 32 && forall k | i <= k < i + n :: t[k] <= 32
    ensures Next(t, i) == i + n
    decreases n
  {
    if n > 0 { NextIs(t, i + 1, n - 1); }
  }

  // A gap with a token behind it.
  lemma GapThen(t: Text, e: nat, gap: Text, token: Byte, open: Text, format: bool)
    requires At(t, e, gap) && e + |gap| < |t| && t[e + |gap|] > 32 && forall b <- gap :: b <= 32
    requires gap == if format then Gap(token, t[e + |gap|], open) else []
    requires LaidOut(t, e + |gap|, open, format)
    ensures Follows(t, e, token, open, format)
  {
    BlankNext(t, e, gap);
    hide Gap, LaidOut, Next, TokenEnd, Closes;
  }

  lemma BlankNext(t: Text, e: nat, gap: Text)
    requires At(t, e, gap) && e + |gap| < |t| && t[e + |gap|] > 32 && forall b <- gap :: b <= 32
    ensures Next(t, e) == e + |gap| && t[e..e + |gap|] == gap
  {
    forall k | e <= k < e + |gap| ensures t[k] <= 32 {
      AtChar(t, e, gap, k - e);
      assert gap[k - e] in gap;
    }
    NextIs(t, e, |gap|);
  }

  predicate Ordinary(b: Byte) { b > 32 && b !in {34, 44, 58, 91, 93, 123, 125} }

  // The words and the numbers.
  lemma {:induction false} WordLaid(x: Text, t: Text, i: nat, open: Text, format: bool)
    requires |x| > 0 && At(t, i, x) && forall b <- x :: Ordinary(b)
    requires Follows(t, i + |x|, 0, open, format)
    ensures LaidOut(t, i, open, format)
    decreases |x|
  {
    hide At, LaidOut, Follows;
    AtChar(t, i, x, 0);
    assert x[0] in x;
    if |x| > 1 {
      assert x == [x[0]] + x[1..];
      AtSplit(t, i, [x[0]], x[1..]);
      WordLaid(x[1..], t, i + 1, open, format);
      AtChar(t, i, x, 1);
      assert x[1] in x;
      NothingThen(t, i + 1, open, format);
    }
    OrdinaryLaid(t, i, open, format);
  }

  lemma OrdinaryLaid(t: Text, i: nat, open: Text, format: bool)
    requires i < |t| && Ordinary(t[i]) && Follows(t, i + 1, 0, open, format)
    ensures LaidOut(t, i, open, format)
  {
    SameGaps(t, i + 1, t[i], 0, open, format);
    hide Follows;
  }

  // Behind most tokens the gap does not depend on the token.
  lemma SameGaps(t: Text, e: nat, a: Byte, b: Byte, open: Text, format: bool)
    requires e <= |t| && a !in {44, 58, 123} && b !in {44, 58, 123} && Follows(t, e, b, open, format)
    ensures Follows(t, e, a, open, format)
  {
    hide LaidOut;
  }

  lemma StringLaid(x: Text, t: Text, i: nat, open: Text, format: bool)
    requires NulFree(x) && At(t, i, RenderString(x)) && Follows(t, i + |RenderString(x)|, 0, open, format)
    ensures LaidOut(t, i, open, format)
  {
    StringEnd(x, t, i);
    SameGaps(t, i + |RenderString(x)|, 34, 0, open, format);
    hide TokenEnd, RenderString, Follows;
  }

  lemma StringEnd(x: Text, t: Text, i: nat)
    requires NulFree(x) && At(t, i, RenderString(x))
    ensures i < |t| && t[i] == 34 && TokenEnd(t, i) == i + |RenderString(x)|
  {
    hide At, Measure, EscapeAll, NulFree;
    Assoc([QUOTE], EscapeAll(x), [QUOTE]);
    AtSplit(t, i, [QUOTE], EscapeAll(x) + [QUOTE]);
    AtChar(t, i, [QUOTE], 0);
    EscapesUndone(x, t, i + 1);
  }

  lemma CloseLaid(t: Text, i: nat, open: Text, b: Byte, format: bool)
    requires i < |t| && Follows(t, i + 1, 0, open, format) && ((t[i] == 93 && b == 91) || (t[i] == 125 && b == 123))
    ensures LaidOut(t, i, open + [b], format)
  {
    assert (open + [b])[..|open|] == open;
    SameGaps(t, i + 1, t[i], 0, open, format);
  }

  // What a value begins with.
  lemma FirstOf(v: Json, show: Show, format: bool, depth: nat)
    ensures var t := Render(v, show, format, depth); |t| > 0 && t[0] > 32 && t[0] != 125
  {
    if v.Number? { assert show(v.value)[0] in show(v.value); }
  }

  /** The text of a value, at any place of a text and at any depth, is laid out as long as what follows it is. */
  lemma {:induction false} ValueLaid(v: Json, show: Show, format: bool, t: Text, i: nat, open: Text)
    requires CStrings(v) && At(t, i, Render(v, show, format, |open|))
    requires Follows(t, i + |Render(v, show, format, |open|)|, 0, open, format)
    ensures LaidOut(t, i, open, format)
    decreases v
  {
    hide At, LaidOut, Follows, RenderItems, RenderMembers, RenderString, NulFree, ItemsCStrings, MembersCStrings;
    match v
    case Null => WordLaid(NULL, t, i, open, format);
    case False => WordLaid(FALSE, t, i, open, format);
    case True => WordLaid(TRUE, t, i, open, format);
    case Number(value) => WordLaid(show(value), t, i, open, format);
    case String(text) => StringLaid(text, t, i, open, format);
    case Array(items) =>
      var inner := RenderItems(items, show, format, |open| + 1) + [CLOSE_BRACKET];
      assert Render(v, show, format, |open|) == [OPEN_BRACKET] + inner;
      AtSplit(t, i, [OPEN_BRACKET], inner);
      AtChar(t, i, [OPEN_BRACKET], 0);
      ItemsLaid(items, show, format, t, i + 1, open);
      ItemsFirst(items, show, format, |open| + 1);
      AtChar(t, i + 1, inner, 0);
      OpenLaid(t, i, open, [], format);
    case Object(members) =>
      var inner := Inner(members, show, format, |open| + 1);
      ObjectIs(members, show, format, |open|);
      AtSplit(t, i, [OPEN_BRACE], inner);
      AtChar(t, i, [OPEN_BRACE], 0);
      MembersLaid(members, show, format, t, i + 1, 123, open);
      OpenedObject(t, i, open, format);
  }

  lemma OpenedObject(t: Text, i: nat, open: Text, format: bool)
    requires i < |t| && t[i] == 123 && Follows(t, i + 1, 123, open + [123], format)
    ensures LaidOut(t, i, open, format)
  {
  }

  lemma OpenLaid(t: Text, i: nat, open: Text, gap: Text, format: bool)
    requires i + 1 < |t| && t[i] == 91 && t[i + 1] > 32 && t[i + 1] != 125 && LaidOut(t, i + 1, open + [91], format)
    ensures LaidOut(t, i, open, format)
  {
    GapThen(t, i + 1, [], 91, open + [91], format);
  }

  lemma ItemsFirst(items: seq<Json>, show: Show, format: bool, depth: nat)
    ensures var t := RenderItems(items, show, format, depth) + [CLOSE_BRACKET]; t[0] > 32 && t[0] != 125
  {
    if |items| > 0 { FirstOf(items[0], show, format, depth); }
  }

  lemma {:induction false} ItemsLaid(items: seq<Json>, show: Show, format: bool, t: Text, i: nat, open: Text)
    requires ItemsCStrings(items) && At(t, i, RenderItems(items, show, format, |open| + 1) + [CLOSE_BRACKET])
    requires Follows(t, i + |RenderItems(items, show, format, |open| + 1)| + 1, 0, open, format)
    ensures LaidOut(t, i, open + [91], format)
    decreases items
  {
    hide At, LaidOut, Follows, Render, CStrings;
    var depth, close := |open| + 1, [CLOSE_BRACKET];
    if |items| == 0 {
      assert [] + close == close;
      AtChar(t, i, close, 0);
      CloseLaid(t, i, open, 91, format);
    } else {
      var first, separator := Render(items[0], show, format, depth), Separator(format, |items| > 1);
      var rest := RenderItems(items[1..], show, format, depth) + close;
      Assoc4(first, separator, RenderItems(items[1..], show, format, depth), close);
      hide RenderItems;
      AtSplit(t, i, first, separator + rest);
      AtSplit(t, i + |first|, separator, rest);
      ItemsLaid(items[1..], show, format, t, i + |first| + |separator|, open);
      ItemsFirst(items[1..], show, format, depth);
      AtChar(t, i + |first| + |separator|, rest, 0);
      SeparatorLaid(t, i + |first|, open, |items| > 1, format);
      ValueLaid(items[0], show, format, t, i, open + [91]);
    }
  }

  lemma SeparatorLaid(t: Text, e: nat, open: Text, more: bool, format: bool)
    requires var separator := Separator(format, more);
             && At(t, e, separator) && e + |separator| < |t| && t[e + |separator|] > 32 && t[e + |separator|] != 125
             && LaidOut(t, e + |separator|, open + [91], format)
    ensures Follows(t, e, 0, open + [91], format)
  {
    hide At, LaidOut, Follows;
    var separator := Separator(format, more);
    if more {
      AtChar(t, e, separator, 0);
      assert separator == [44] + separator[1..];
      CommaLaid(t, e, open, separator[1..], format);
    }
    NothingThen(t, e, open + [91], format);
  }

  lemma CommaLaid(t: Text, i: nat, open: Text, gap: Text, format: bool)
    requires At(t, i, [44] + gap) && gap == (if format then [32] else [])
    requires i + 1 + |gap| < |t| && t[i + 1 + |gap|] > 32 && t[i + 1 + |gap|] != 125
    requires LaidOut(t, i + 1 + |gap|, open + [91], format)
    ensures LaidOut(t, i, open + [91], format)
  {
    AtSplit(t, i, [44], gap);
    AtChar(t, i, [44], 0);
    GapThen(t, i + 1, gap, 44, open + [91], format);
  }

  // Nothing stands between a value and the token behind it.
  lemma NothingThen(t: Text, e: nat, open: Text, format: bool)
    requires e < |t| && t[e] > 32 && t[e] != 125 && LaidOut(t, e, open, format)
    ensures Follows(t, e, 0, open, format)
  {
    GapThen(t, e, [], 0, open, format);
  }

  // What stands behind a brace, or behind a comma between members, up to the closing brace.
  function Inner(members: seq<Member>, show: Show, format: bool, depth: nat): Text
    requires depth > 0
    decreases members, 1
  {
    Line(format) +
    if |members| == 0 then Indent(format, depth - 1) + [CLOSE_BRACE]
    else Indent(format, depth) + (RenderString(members[0].key) + (Colon(format) +
         (Render(members[0].value, show, format, depth) + Later(members, show, format, depth))))
  }

  function Later(members: seq<Member>, show: Show, format: bool, depth: nat): Text
    requires depth > 0 && |members| > 0
    decreases members, 0
  {
    (if |members| == 1 then [] else [COMMA]) + Inner(members[1..], show, format, depth)
  }

  lemma {:induction false} InnerIs(members: seq<Member>, show: Show, format: bool, depth: nat)
    requires depth > 0
    ensures Inner(members, show, format, depth) ==
            Line(format) + (RenderMembers(members, show, format, depth) + CloseObject(format, depth - 1))
    decreases members
  {
    hide Render, RenderString, Line, Colon, Indent;
    if |members| > 0 {
      InnerIs(members[1..], show, format, depth);
      Joined(Indent(format, depth), RenderString(members[0].key), Colon(format),
             Render(members[0].value, show, format, depth), if |members| == 1 then [] else [COMMA], Line(format),
             RenderMembers(members[1..], show, format, depth), CloseObject(format, depth - 1));
    }
  }

  lemma Joined(a: Text, b: Text, c: Text, d: Text, e: Text, f: Text, g: Text, h: Text)
    ensures ((a + b + c) + d + (e + f) + g) + h == a + (b + (c + (d + (e + (f + (g + h))))))
  {
    Assoc4(a, b, c, d + (e + f) + g + h);
    assert ((a + b + c) + d + (e + f) + g) + h == a + b + c + (d + (e + f) + g + h);
    assert d + (e + f) + g + h == d + (e + (f + (g + h)));
  }

  lemma Assoc4(a: Text, b: Text, c: Text, d: Text)
    ensures a + b + c + d == a + (b + (c + d))
  {
  }

  lemma ObjectIs(members: seq<Member>, show: Show, format: bool, depth: nat)
    ensures Render(Object(members), show, format, depth) == [OPEN_BRACE] + Inner(members, show, format, depth + 1)
  {
    InnerIs(members, show, format, depth + 1);
    hide RenderMembers, Inner, CloseObject, Line;
    Assoc4([OPEN_BRACE], Line(format), RenderMembers(members, show, format, depth + 1), CloseObject(format, depth));
  }

  /** The members of an object, from right behind a brace or a comma, or behind the last value. */
  lemma {:induction false} MembersLaid(members: seq<Member>, show: Show, format: bool, t: Text, i: nat, token: Byte,
      open: Text)
    requires MembersCStrings(members) && At(t, i, Inner(members, show, format, |open| + 1))
    requires token == 123 || token == if members == [] then 0 else 44
    requires Follows(t, i + |Inner(members, show, format, |open| + 1)|, 0, open, format)
    ensures Follows(t, i, token, open + [123], format)
    decreases members
  {
    hide At, LaidOut, Follows, Render, RenderString, CStrings, NulFree, Gap, Line, Indent, Later;
    var depth, inside := |open| + 1, open + [123];
    BreakIs(open, token, format);
    if |members| == 0 {
      var gap := Line(format) + Indent(format, |open|);
      Assoc(Line(format), Indent(format, |open|), [CLOSE_BRACE]);
      AtSplit(t, i, gap, [CLOSE_BRACE]);
      AtChar(t, i + |gap|, [CLOSE_BRACE], 0);
      CloseLaid(t, i + |gap|, open, 123, format);
      GapThen(t, i, gap, token, inside, format);
    } else {
      var m, gap := members[0], Line(format) + Indent(format, depth);
      var value, later := Render(m.value, show, format, depth), Later(members, show, format, depth);
      InnerAt(members, show, format, t, i, depth);
      var e := i + |gap| + |RenderString(m.key)| + |Colon(format)| + |value|;
      LaterAt(m, show, format, depth, t, i + |gap|, later);
      hide Inner;
      LaterLaid(members, show, format, t, e, open);
      MemberLaid(m, show, format, t, i + |gap|, inside, later);
      GapThen(t, i, gap, token, inside, format);
    }
  }

  // The line break in front of a member, and the member.
  lemma InnerAt(members: seq<Member>, show: Show, format: bool, t: Text, i: nat, depth: nat)
    requires depth > 0 && |members| > 0 && At(t, i, Inner(members, show, format, depth))
    ensures var m, gap := members[0], Line(format) + Indent(format, depth);
            var value, later := Render(m.value, show, format, depth), Later(members, show, format, depth);
            && At(t, i, gap) && At(t, i + |gap|, RenderString(m.key) + (Colon(format) + (value + later)))
            && |Inner(members, show, format, depth)| ==
               |gap| + |RenderString(m.key)| + |Colon(format)| + |value| + |later|
  {
    hide At, Render, RenderString, Line, Indent, Colon, Later;
    var m := members[0];
    var field := RenderString(m.key) +
                 (Colon(format) + (Render(m.value, show, format, depth) + Later(members, show, format, depth)));
    Assoc(Line(format), Indent(format, depth), field);
    AtSplit(t, i, Line(format) + Indent(format, depth), field);
  }

  // A line break and the tabs behind it.
  lemma BreakIs(open: Text, token: Byte, format: bool)
    ensures var gap := Line(format) + Indent(format, |open|);
            gap == (if format then Gap(token, 125, open + [123]) else []) && forall b <- gap :: b <= 32
    ensures var gap := Line(format) + Indent(format, |open| + 1);
            && (token in {44, 123} ==> gap == if format then Gap(token, 34, open + [123]) else [])
            && (forall b <- gap :: b <= 32)
  {
  }

  lemma LaterAt(m: Member, show: Show, format: bool, depth: nat, t: Text, a: nat, later: Text)
    requires var value := Render(m.value, show, format, depth);
             At(t, a, RenderString(m.key) + (Colon(format) + (value + later)))
    ensures var value := Render(m.value, show, format, depth);
            && a + |RenderString(m.key)| + |Colon(format)| + |value| <= |t|
            && At(t, a + |RenderString(m.key)| + |Colon(format)| + |value|, later)
  {
    hide At, Render, RenderString, Colon;
    var value := Render(m.value, show, format, depth);
    AtSplit(t, a, RenderString(m.key), Colon(format) + (value + later));
    AtSplit(t, a + |RenderString(m.key)|, Colon(format), value + later);
    AtSplit(t, a + |RenderString(m.key)| + |Colon(format)|, value, later);
  }

  lemma {:induction false} MemberLaid(m: Member, show: Show, format: bool, t: Text, a: nat, open: Text, later: Text)
    requires NulFree(m.key) && CStrings(m.value)
    requires var value := Render(m.value, show, format, |open|);
             && At(t, a, RenderString(m.key) + (Colon(format) + (value + later)))
             && a + |RenderString(m.key)| + |Colon(format)| + |value| <= |t|
             && Follows(t, a + |RenderString(m.key)| + |Colon(format)| + |value|, 0, open, format)
    ensures LaidOut(t, a, open, format) && a < |t| && t[a] == 34
    decreases m
  {
    hide At, LaidOut, Follows, Render, RenderString, CStrings, NulFree;
    var name, colon, value := RenderString(m.key), Colon(format), Render(m.value, show, format, |open|);
    AtSplit(t, a, name, colon + (value + later));
    AtSplit(t, a + |name|, colon, value + later);
    AtSplit(t, a + |name| + |colon|, value, later);
    ValueLaid(m.value, show, format, t, a + |name| + |colon|, open);
    FirstOf(m.value, show, format, |open|);
    AtChar(t, a + |name| + |colon|, value, 0);
    ColonLaid(t, a + |name|, open, colon[1..], format);
    StringLaid(m.key, t, a, open, format);
    NameStarts(m.key, t, a);
  }

  lemma NameStarts(key: Text, t: Text, a: nat)
    requires At(t, a, RenderString(key))
    ensures a < |t| && t[a] == 34
  {
    AtChar(t, a, RenderString(key), 0);
  }

  lemma ColonLaid(t: Text, i: nat, open: Text, gap: Text, format: bool)
    requires At(t, i, [58] + gap) && gap == (if format then [9] else [])
    requires i + 1 + |gap| < |t| && t[i + 1 + |gap|] > 32 && t[i + 1 + |gap|] != 125
    requires LaidOut(t, i + 1 + |gap|, open, format)
    ensures Follows(t, i, 0, open, format)
  {
    AtSplit(t, i, [58], gap);
    AtChar(t, i, [58], 0);
    GapThen(t, i + 1, gap, 58, open, format);
    NothingThen(t, i, open, format);
  }

  // Behind a member's value: the closing brace, or a comma and the next member.
  lemma {:induction false} LaterLaid(members: seq<Member>, show: Show, format: bool, t: Text, i: nat, open: Text)
    requires |members| > 0 && MembersCStrings(members) && At(t, i, Later(members, show, format, |open| + 1))
    requires Follows(t, i + |Later(members, show, format, |open| + 1)|, 0, open, format)
    ensures Follows(t, i, 0, open + [123], format)
    decreases members, 0
  {
    hide At, LaidOut, Follows, Inner, CStrings;
    var inner := Inner(members[1..], show, format, |open| + 1);
    if |members| == 1 {
      assert [] + inner == inner;
      MembersLaid(members[1..], show, format, t, i, 0, open);
    } else {
      AtSplit(t, i, [COMMA], inner);
      AtChar(t, i, [COMMA], 0);
      MembersLaid(members[1..], show, format, t, i + 1, 44, open);
      CommaBetween(t, i, open, format);
    }
  }

  lemma CommaBetween(t: Text, i: nat, open: Text, format: bool)
    requires i < |t| && t[i] == 44 && Follows(t, i + 1, 44, open + [123], format)
    ensures Follows(t, i, 0, open + [123], format)
  {
    NothingThen(t, i, open + [123], format);
  }

  /** The text of every tree, formatted or not, is laid out that way from its first character to its last. */
  lemma Layout(v: Json, show: Show, format: bool)
    requires CStrings(v)
    ensures LaidOut(Render(v, show, format, 0), 0, [], format)
  {
    var t := Render(v, show, format, 0);
    assert t[0..|t|] == t;
    assert Follows(t, |t|, 0, [], format);
    ValueLaid(v, show, format, t, 0, []);
  }

  /** What print_string_ptr writes for a character, in numbers: the two-character escapes of RFC 8259, section 7,
      four hexadecimal digits for the other control characters, and any other character as it is. */
  lemma EscapeIs(b: Byte)
    ensures Escape(b) ==
            if b == 34 || b == 92 then [92, b]
            else if b == 8 then [92, 98] else if b == 9 then [92, 116] else if b == 10 then [92, 110]
            else if b == 12 then [92, 102] else if b == 13 then [92, 114]
            else if b < 32 then [92, 117, 48, 48, 48 + b / 16, if b % 16 < 10 then 48 + b % 16 else 87 + b % 16]
            else [b]
  {
  }

  /** And the words and brackets, in numbers. */
  lemma WordsAre(show: Show, format: bool, depth: nat, text: Text)
    ensures Render(Null, show, format, depth) == [110, 117, 108, 108]
    ensures Render(False, show, format, depth) == [102, 97, 108, 115, 101]
    ensures Render(True, show, format, depth) == [116, 114, 117, 101]
    ensures Render(String(text), show, format, depth) == [34] + EscapeAll(text) + [34]
    ensures Render(Array([]), show, format, depth) == [91, 93]
    ensures Render(Object([]), show, false, depth) == [123, 125]
  {
    hide EscapeAll;
    assert [123] + [] + [] + [125] == [123, 125];
  }
}
