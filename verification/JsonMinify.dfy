/** cJSON_Minify (cJSON/cJSON.c:2637-2705): white space and comments are squeezed out in place. */
module JsonMinify {
  import opened Bytes
  import opened JsonParse
  import opened JsonRoundTrip
  import opened JsonText
  import opened Wrappers

  predicate White(b: Byte) { b == SPACE || b == TAB || b == RETURN || b == NEWLINE }

  const STAR: Byte := 42

  /** Where a line comment ends: at the end of the line, or of the text. */
  function LineEnd(s: Text, i: nat): (r: nat)
    requires i <= |s|
    ensures i <= r <= |s|
    ensures r < |s| && i < |s| && s[i] == SLASH ==> i < r
    decreases |s| - i
  {
    if i >= |s| || s[i] == NUL || s[i] == NEWLINE then i else LineEnd(s, i + 1)
  }

  /** Where the star stands that closes a comment, or the NUL when none does. */
  function CommentEnd(s: Text, i: nat): (r: nat)
    requires i <= |s|
    ensures i <= r <= |s|
    decreases |s| - i
  {
    if i >= |s| || s[i] == NUL || (s[i] == STAR && i + 1 < |s| && s[i + 1] == SLASH) then i else CommentEnd(s, i + 1)
  }

  /** Where a string literal ends: at its quote or, when it is not closed, at the NUL or behind it. */
  function LiteralEnd(s: Text, i: nat): (r: nat)
    ensures i <= r
    decreases |s| - i
  {
    if i >= |s| || s[i] == NUL || s[i] == QUOTE then i
    else if s[i] == BACKSLASH then LiteralEnd(s, i + 2)
    else LiteralEnd(s, i + 1)
  }

  function Then(t: Text, r: Option<Text>): Option<Text> {
    if r.None? then None else Some(t + r.value)
  }

  /** What is left of the text from `i` on; None when the read cursor would run past the NUL, because
      a comment or a string is not closed. */
  function Minified(s: Text, i: nat): Option<Text>
    decreases |s| - i
  {
    if i >= |s| then None
    else if s[i] == NUL then Some([])
    else if White(s[i]) then Minified(s, i + 1)
    else if s[i] == SLASH && i + 1 < |s| && s[i + 1] == SLASH then Minified(s, LineEnd(s, i + 1))
    else if s[i] == SLASH && i + 1 < |s| && s[i + 1] == STAR then Minified(s, CommentEnd(s, i + 1) + 2)
    else if s[i] == QUOTE then
      var e := LiteralEnd(s, i + 1);
      if e >= |s| then None else Then(s[i..e + 1], Minified(s, e + 1))
    else Then([s[i]], Minified(s, i + 1))
  }

  // ---------------------------------------------------------------------------------------------
  // In place

  // Nothing at or behind the write cursor has been overwritten, and it is not ahead of the read cursor.
  ghost predicate Squeezed(s: Text, a: seq<Byte>, into: nat, json: nat) {
    && |a| == |s| && into <= json < |s| && a[into..] == s[into..]
    && Minified(s, 0) == Then(a[..into], Minified(s, json))
  }

  lemma StillThere(s: Text, a: seq<Byte>, into: nat, json: nat)
    requires Squeezed(s, a, into, json)
    ensures forall i :: json <= i < |s| ==> a[i] == s[i]
  {
    forall i | json <= i < |s| ensures a[i] == s[i] {
      assert a[i] == a[into..][i - into] && s[i] == s[into..][i - into];
    }
  }

  // What one round of the main loop finds, and how far it goes; the text is closed, so it never
  // reaches behind the NUL.
  lemma MinifiedStep(s: Text, i: nat)
    requires CString(s) && i < |s| && Minified(s, i).Some?
    ensures s[i] == NUL ==> Minified(s, i) == Some([]) && i == |s| - 1
    ensures s[i] != NUL ==> i + 1 < |s|
    ensures White(s[i]) ==> Minified(s, i) == Minified(s, i + 1)
    ensures s[i] == SLASH && s[i + 1] == SLASH ==>
              LineEnd(s, i + 1) < |s| && Minified(s, i) == Minified(s, LineEnd(s, i + 1))
    ensures s[i] == SLASH && s[i + 1] == STAR ==>
              CommentEnd(s, i + 1) + 2 < |s| && Minified(s, i) == Minified(s, CommentEnd(s, i + 1) + 2)
    ensures s[i] == QUOTE ==>
              var e := LiteralEnd(s, i + 1);
              e + 1 < |s| && s[e] == QUOTE && Minified(s, i) == Then(s[i..e + 1], Minified(s, e + 1))
    ensures s[i] != NUL && !White(s[i]) && !(s[i] == SLASH && s[i + 1] in {SLASH, STAR}) && s[i] != QUOTE ==>
              Minified(s, i) == Then(s[i..i + 1], Minified(s, i + 1))
  {
    hide LineEnd, CommentEnd;
    assert s[i..i + 1] == [s[i]];
    if s[i] == QUOTE { LiteralStops(s, i + 1); }
  }

  lemma {:induction false} LiteralStops(s: Text, i: nat)
    requires CString(s)
    ensures LiteralEnd(s, i) < |s| ==> s[LiteralEnd(s, i)] == QUOTE || LiteralEnd(s, i) == |s| - 1
    decreases |s| - i
  {
    if i < |s| && s[i] != NUL && s[i] != QUOTE {
      LiteralStops(s, if s[i] == BACKSLASH then i + 2 else i + 1);
    }
  }

  lemma Passed(s: Text, a: seq<Byte>, into: nat, json: nat, to: nat)
    requires Squeezed(s, a, into, json) && json <= to < |s| && Minified(s, json) == Minified(s, to)
    ensures Squeezed(s, a, into, to)
  {
  }

  // Bytes copied down, none of them over one that is still to be read.
  lemma Copied(s: Text, a: seq<Byte>, b: seq<Byte>, into: nat, json: nat, n: nat)
    requires Squeezed(s, a, into, json) && |b| == |a| && json + n < |s|
    requires Minified(s, json) == Then(s[json..json + n], Minified(s, json + n))
    requires b[..into + n] == a[..into] + s[json..json + n] && b[into + n..] == a[into + n..]
    ensures Squeezed(s, b, into + n, json + n)
  {
    hide Minified;
    assert a[into + n..] == a[into..][n..] && s[into + n..] == s[into..][n..];
    if Minified(s, json + n).Some? {
      Assoc(a[..into], s[json..json + n], Minified(s, json + n).value);
    }
  }

  /** On a C string whose comments and strings are closed, the result of squeezing it; the write
      cursor never overtakes the read cursor, and nothing behind the result is touched. */
  method Minify(a: array<Byte>)
    requires CString(a[..]) && Minified(a[..], 0).Some?
    modifies a
    ensures var t := Minified(old(a[..]), 0).value;
            |t| < a.Length && a[..|t| + 1] == t + [NUL] && a[|t| + 1..] == old(a[|t| + 1..])
  {
    hide Minified, Squeezed;
    ghost var s := a[..];
    var into: nat, json: nat := 0, 0;
    AtStart(s);
    while json < a.Length && a[json] != NUL
      invariant json < a.Length == |s| && Squeezed(s, a[..], into, json)
      decreases a.Length - json
    {
      into, json := Step(a, s, into, json);
    }
    Finished(s, a[..], into, json);
    ghost var was := a[..];
    a[into] := NUL;
    assert a[..into] == was[..into] && a[into + 1..] == was[into..][1..];
    assert s[into + 1..] == s[into..][1..];
  }

  lemma AtStart(s: Text)
    requires |s| > 0
    ensures Squeezed(s, s, 0, 0)
  {
    if Minified(s, 0).Some? { assert s[..0] + Minified(s, 0).value == Minified(s, 0).value; }
  }

  lemma Finished(s: Text, a: seq<Byte>, into: nat, json: nat)
    requires CString(s) && Squeezed(s, a, into, json) && a[json] == NUL
    ensures into < |a| && Minified(s, 0) == Some(a[..into]) && a[into..] == s[into..]
  {
    StillThere(s, a, into, json);
    assert a[..into] + [] == a[..into];
  }

  // One round of the main loop.
  method Step(a: array<Byte>, ghost s: Text, into: nat, json: nat) returns (i: nat, j: nat)
    requires CString(s) && a.Length == |s| && json < |s| && Squeezed(s, a[..], into, json)
    requires Minified(s, 0).Some? && a[json] != NUL
    modifies a
    ensures json < j < |s| && Squeezed(s, a[..], i, j)
  {
    StillOpen(s, a[..], into, json);
    StillThere(s, a[..], into, json);
    MinifiedStep(s, json);
    hide Minified, Squeezed, LineEnd, CommentEnd, LiteralEnd;
    i, j := into, json;
    if White(a[json]) {
      j := json + 1;
      Passed(s, a[..], into, json, j);
    } else if a[json] == SLASH && a[json + 1] == SLASH {
      j := PastLine(a, s, json);
      Passed(s, a[..], into, json, j);
    } else if a[json] == SLASH && a[json + 1] == STAR {
      j := PastComment(a, s, json);
      Passed(s, a[..], into, json, j);
    } else if a[json] == QUOTE {
      i, j := CopyLiteral(a, s, into, json);
    } else {
      ghost var was := a[..];
      a[into] := a[json];
      i, j := into + 1, json + 1;
      Copied(s, was, a[..], into, json, 1);
    }
  }

  lemma StillOpen(s: Text, a: seq<Byte>, into: nat, json: nat)
    requires Squeezed(s, a, into, json) && Minified(s, 0).Some?
    ensures into <= json && Minified(s, json).Some?
  {
  }

  // To the end of the line; the two slashes are neither NUL nor newline.
  method PastLine(a: array<Byte>, ghost s: Text, json: nat) returns (j: nat)
    requires a.Length == |s| && json + 1 < |s| && (forall i :: json <= i < |s| ==> a[i] == s[i])
    requires s[json] == SLASH && LineEnd(s, json + 1) < |s| && s[json + 1] == SLASH
    ensures j == LineEnd(s, json + 1) && json < j
  {
    j := json;
    while a[j] != NUL && a[j] != NEWLINE
      invariant json <= j < |s| && LineEnd(s, json + 1) == LineEnd(s, if j == json then json + 1 else j)
      decreases |s| - j
    {
      j := j + 1;
    }
  }

  // Behind the star and slash that close the comment.
  method PastComment(a: array<Byte>, ghost s: Text, json: nat) returns (j: nat)
    requires a.Length == |s| && json + 1 < |s| && (forall i :: json <= i < |s| ==> a[i] == s[i])
    requires s[json] == SLASH && CommentEnd(s, json + 1) + 2 < |s|
    ensures j == CommentEnd(s, json + 1) + 2
  {
    j := json;
    while a[j] != NUL && !(a[j] == STAR && a[j + 1] == SLASH)
      invariant json <= j <= CommentEnd(s, json + 1)
      invariant CommentEnd(s, json + 1) == CommentEnd(s, if j == json then json + 1 else j)
      decreases |s| - j
    {
      j := j + 1;
    }
    j := j + 2;
  }

  // A string literal, quotes included; what a backslash escapes is copied unseen.
  method CopyLiteral(a: array<Byte>, ghost s: Text, into: nat, json: nat) returns (i: nat, j: nat)
    requires a.Length == |s| && into <= json < |s| && Squeezed(s, a[..], into, json)
    requires s[json] == QUOTE && LiteralEnd(s, json + 1) + 1 < |s| && s[LiteralEnd(s, json + 1)] == QUOTE
    requires Minified(s, json) == Then(s[json..LiteralEnd(s, json + 1) + 1], Minified(s, LiteralEnd(s, json + 1) + 1))
    modifies a
    ensures json < j < |s| && Squeezed(s, a[..], i, j)
  {
    hide Minified, Moving, LiteralEnd, Squeezed, Then;
    ghost var was := a[..];
    StartMoving(s, was, into, json);
    i, j := CopyByte(a, s, was, into, json, into, json);
    i, j := CopyInside(a, s, was, into, json, i, j);
    i, j := CopyByte(a, s, was, into, json, i, j);
    EndMoving(s, was, a[..], into, json, i, j);
  }

  // From behind the opening quote to the closing one.
  method CopyInside(a: array<Byte>, ghost s: Text, ghost was: seq<Byte>, ghost into: nat, ghost json: nat, i0: nat,
      j0: nat)
    returns (i: nat, j: nat)
    requires a.Length == |s| && Moving(s, was, a[..], into, json, i0, j0)
    requires j0 <= LiteralEnd(s, j0) < |s| && s[LiteralEnd(s, j0)] == QUOTE
    modifies a
    ensures j == LiteralEnd(s, j0) && Moving(s, was, a[..], into, json, i, j)
  {
    hide Moving, LiteralEnd;
    i, j := i0, j0;
    NextMoving(s, was, a[..], into, json, i, j);
    while a[j] != NUL && a[j] != QUOTE
      invariant j <= LiteralEnd(s, j) == LiteralEnd(s, j0) && a[j] == s[j]
      invariant Moving(s, was, a[..], into, json, i, j)
      decreases |s| - j
    {
      LiteralStep(s, j);
      if a[j] == BACKSLASH {
        i, j := CopyByte(a, s, was, into, json, i, j);
      }
      i, j := CopyByte(a, s, was, into, json, i, j);
      NextMoving(s, was, a[..], into, json, i, j);
    }
    LiteralStep(s, j);
  }

  lemma LiteralStep(s: Text, j: nat)
    requires j < |s|
    ensures s[j] == NUL || s[j] == QUOTE ==> LiteralEnd(s, j) == j
    ensures s[j] != NUL && s[j] != QUOTE ==>
              LiteralEnd(s, j) == LiteralEnd(s, if s[j] == BACKSLASH then j + 2 else j + 1)
  {
  }

  // A literal of which the bytes up to `j` have been copied down.
  ghost predicate Moving(s: Text, was: seq<Byte>, a: seq<Byte>, into: nat, json: nat, i: nat, j: nat) {
    && |a| == |s| == |was| && into <= json <= j <= |s| && j - json == i - into
    && (forall k :: json <= k < |s| ==> was[k] == s[k])
    && a[..i] == was[..into] + s[json..j] && (forall k :: i <= k < |s| ==> a[k] == was[k])
  }

  lemma StartMoving(s: Text, was: seq<Byte>, into: nat, json: nat)
    requires Squeezed(s, was, into, json)
    ensures Moving(s, was, was, into, json, into, json)
  {
    StillThere(s, was, into, json);
    forall k | into <= k < |s| ensures was[k] == s[k] {
      assert was[k] == was[into..][k - into] && s[k] == s[into..][k - into];
    }
    assert was[..into] + s[json..json] == was[..into];
  }

  lemma NextMoving(s: Text, was: seq<Byte>, a: seq<Byte>, into: nat, json: nat, i: nat, j: nat)
    requires Moving(s, was, a, into, json, i, j) && j < |s|
    ensures a[j] == s[j] && i <= j
  {
  }

  lemma EndMoving(s: Text, was: seq<Byte>, a: seq<Byte>, into: nat, json: nat, i: nat, j: nat)
    requires Moving(s, was, a, into, json, i, j) && Squeezed(s, was, into, json) && j < |s|
    requires Minified(s, json) == Then(s[json..j], Minified(s, j))
    ensures Squeezed(s, a, i, j)
  {
    assert a[i..] == was[i..];
    Copied(s, was, a, into, json, j - json);
  }

  method CopyByte(a: array<Byte>, ghost s: Text, ghost was: seq<Byte>, ghost into: nat, ghost json: nat, i: nat, j: nat)
    returns (i': nat, j': nat)
    requires a.Length == |s| && j < |s| && Moving(s, was, a[..], into, json, i, j)
    modifies a
    ensures i' == i + 1 && j' == j + 1 && Moving(s, was, a[..], into, json, i', j')
  {
    ghost var before := a[..];
    a[i] := a[j];
    i', j' := i + 1, j + 1;
    assert a[..i + 1] == before[..i] + [s[j]];
    assert was[..into] + s[json..j + 1] == was[..into] + s[json..j] + [s[j]];
  }

  // ---------------------------------------------------------------------------------------------
  // Formatted text is squeezed to the unformatted text of the same tree

  // Where `from` stands, minifying gives `to` and then goes on behind it.
  ghost predicate Becomes(s: Text, at: nat, from: Text, to: Text) {
    At(s, at, from) && Minified(s, at) == Then(to, Minified(s, at + |from|))
  }

  lemma ThenTwice(a: Text, b: Text, r: Option<Text>)
    ensures Then(a, Then(b, r)) == Then(a + b, r) && Then([], r) == r
  {
    if r.Some? {
      assert a + (b + r.value) == a + b + r.value;
      assert [] + r.value == r.value;
    }
  }

  lemma BothBecome(s: Text, at: nat, a: Text, a': Text, b: Text, b': Text)
    requires At(s, at, a + b)
    requires Becomes(s, at, a, a') && Becomes(s, at + |a|, b, b')
    ensures Becomes(s, at, a + b, a' + b')
  {
    hide At, Minified;
    ThenTwice(a', b', Minified(s, at + |a| + |b|));
  }

  predicate Plain(b: Byte) { b != NUL && !White(b) && b != SLASH && b != QUOTE }

  lemma {:induction false} PlainStays(s: Text, at: nat, t: Text)
    requires At(s, at, t) && forall b <- t :: Plain(b)
    ensures Becomes(s, at, t, t)
    decreases |t|
  {
    if |t| == 0 {
      ThenTwice([], [], Minified(s, at));
    } else {
      AtChar(s, at, t, 0);
      assert t == [t[0]] + t[1..] && Plain(t[0]);
      AtSplit(s, at, [t[0]], t[1..]);
      PlainStays(s, at + 1, t[1..]);
      BothBecome(s, at, [t[0]], [t[0]], t[1..], t[1..]);
    }
  }

  lemma {:induction false} WhiteGoes(s: Text, at: nat, t: Text)
    requires At(s, at, t) && forall b <- t :: White(b)
    ensures Becomes(s, at, t, [])
    decreases |t|
  {
    if |t| == 0 {
      ThenTwice([], [], Minified(s, at));
    } else {
      AtChar(s, at, t, 0);
      assert t == [t[0]] + t[1..] && White(t[0]);
      AtSplit(s, at, [t[0]], t[1..]);
      WhiteGoes(s, at + 1, t[1..]);
    }
  }

  lemma {:induction false} EscapedLiteralEnd(t: Text, s: Text, at: nat)
    requires At(s, at, EscapeAll(t) + [QUOTE]) && NulFree(t)
    ensures LiteralEnd(s, at) == at + |EscapeAll(t)|
    decreases |t|
  {
    hide At, Escape, EscapeAll, NulFree;
    EscapeAllStep(t);
    if |t| == 0 {
      AtChar(s, at, [QUOTE], 0);
    } else {
      FirstAndRest(t);
      AtSplit(s, at, Escape(t[0]), EscapeAll(t[1..]) + [QUOTE]);
      EscapedLiteralEnd(t[1..], s, at + |Escape(t[0])|);
      PastEscape(t[0], s, at);
    }
  }

  lemma PastEscape(b: Byte, s: Text, at: nat)
    requires b != NUL && At(s, at, Escape(b))
    ensures LiteralEnd(s, at) == LiteralEnd(s, at + |Escape(b)|)
  {
    EscapedOnce(b);
    var e := Escape(b);
    AtChar(s, at, e, 0);
    if |e| == 6 {
      AtChar(s, at, e, 2);
      AtChar(s, at, e, 3);
      AtChar(s, at, e, 4);
      AtChar(s, at, e, 5);
      assert LiteralEnd(s, at) == LiteralEnd(s, at + 2) == LiteralEnd(s, at + 3);
      assert LiteralEnd(s, at + 3) == LiteralEnd(s, at + 4) == LiteralEnd(s, at + 5);
    }
  }

  lemma LiteralStays(t: Text, s: Text, at: nat)
    requires NulFree(t) && At(s, at, RenderString(t))
    ensures Becomes(s, at, RenderString(t), RenderString(t))
  {
    hide EscapeAll, NulFree;
    Assoc([QUOTE], EscapeAll(t), [QUOTE]);
    AtSplit(s, at, [QUOTE], EscapeAll(t) + [QUOTE]);
    AtChar(s, at, [QUOTE], 0);
    EscapedLiteralEnd(t, s, at + 1);
  }

  /** Minifying a formatted value leaves its unformatted text, and goes on behind it. */
  lemma {:induction false} ValueBecomes(v: Json, show: Show, open: nat, flat: nat, s: Text, at: nat)
    requires CStrings(v) && At(s, at, Render(v, show, true, open))
    ensures Becomes(s, at, Render(v, show, true, open), Render(v, show, false, flat))
    decreases v
  {
    hide At, Minified, Becomes, RenderString, RenderItems, RenderMembers, NulFree, ItemsCStrings, MembersCStrings;
    match v
    case Null => PlainStays(s, at, JsonText.NULL);
    case False => PlainStays(s, at, FALSE);
    case True => PlainStays(s, at, TRUE);
    case Number(value) => PlainStays(s, at, show(value));
    case String(text) => LiteralStays(text, s, at);
    case Array(items) =>
      var inner, inner' := RenderItems(items, show, true, open + 1), RenderItems(items, show, false, flat + 1);
      AtSplit(s, at, [OPEN_BRACKET] + inner, [CLOSE_BRACKET]);
      AtSplit(s, at, [OPEN_BRACKET], inner);
      PlainStays(s, at, [OPEN_BRACKET]);
      ItemsBecome(items, show, open + 1, flat + 1, s, at + 1);
      BothBecome(s, at, [OPEN_BRACKET], [OPEN_BRACKET], inner, inner');
      PlainStays(s, at + 1 + |inner|, [CLOSE_BRACKET]);
      BothBecome(s, at, [OPEN_BRACKET] + inner, [OPEN_BRACKET] + inner', [CLOSE_BRACKET], [CLOSE_BRACKET]);
    case Object(members) =>
      var inner, inner' := RenderMembers(members, show, true, open + 1), RenderMembers(members, show, false, flat + 1);
      var a, a', b, b' := OpenObject(true), OpenObject(false), CloseObject(true, open), CloseObject(false, flat);
      AtSplit(s, at, a + inner, b);
      AtSplit(s, at, a, inner);
      OpenBecomes(s, at);
      MembersBecome(members, show, open + 1, flat + 1, s, at + |a|);
      BothBecome(s, at, a, a', inner, inner');
      CloseBecomes(s, at + |a + inner|, open, flat);
      BothBecome(s, at, a + inner, a' + inner', b, b');
  }

  lemma OpenBecomes(s: Text, at: nat)
    requires At(s, at, OpenObject(true))
    ensures Becomes(s, at, OpenObject(true), OpenObject(false))
  {
    hide At, Minified, Becomes;
    AtSplit(s, at, [OPEN_BRACE], [NEWLINE]);
    PlainStays(s, at, [OPEN_BRACE]);
    WhiteGoes(s, at + 1, [NEWLINE]);
    BothBecome(s, at, [OPEN_BRACE], [OPEN_BRACE], [NEWLINE], []);
  }

  lemma CloseBecomes(s: Text, at: nat, open: nat, flat: nat)
    requires At(s, at, CloseObject(true, open))
    ensures Becomes(s, at, CloseObject(true, open), CloseObject(false, flat))
  {
    hide At, Minified, Becomes;
    AtSplit(s, at, Tabs(open), [CLOSE_BRACE]);
    WhiteGoes(s, at, Tabs(open));
    PlainStays(s, at + |Tabs(open)|, [CLOSE_BRACE]);
    BothBecome(s, at, Tabs(open), [], [CLOSE_BRACE], [CLOSE_BRACE]);
    assert CloseObject(false, flat) == [] + [CLOSE_BRACE];
  }

  lemma SeparatorBecomes(s: Text, at: nat, more: bool)
    requires At(s, at, Separator(true, more))
    ensures Becomes(s, at, Separator(true, more), Separator(false, more))
  {
    hide At, Minified, Becomes;
    if more {
      assert Separator(true, more) == [COMMA] + [SPACE] && Separator(false, more) == [COMMA] + [];
      AtSplit(s, at, [COMMA], [SPACE]);
      PlainStays(s, at, [COMMA]);
      WhiteGoes(s, at + 1, [SPACE]);
      BothBecome(s, at, [COMMA], [COMMA], [SPACE], []);
    } else {
      PlainStays(s, at, []);
    }
  }

  lemma {:induction false} ItemsBecome(items: seq<Json>, show: Show, open: nat, flat: nat, s: Text, at: nat)
    requires ItemsCStrings(items) && At(s, at, RenderItems(items, show, true, open))
    ensures Becomes(s, at, RenderItems(items, show, true, open), RenderItems(items, show, false, flat))
    decreases items
  {
    hide At, Minified, Becomes, Render, CStrings, Separator;
    if |items| == 0 {
      PlainStays(s, at, []);
    } else {
      var a, a' := Render(items[0], show, true, open), Render(items[0], show, false, flat);
      var b, b' := Separator(true, |items| > 1), Separator(false, |items| > 1);
      var c, c' := RenderItems(items[1..], show, true, open), RenderItems(items[1..], show, false, flat);
      AtSplit(s, at, a + b, c);
      AtSplit(s, at, a, b);
      ValueBecomes(items[0], show, open, flat, s, at);
      SeparatorBecomes(s, at + |a|, |items| > 1);
      ItemsBecome(items[1..], show, open, flat, s, at + |a + b|);
      BothBecome(s, at, a, a', b, b');
      BothBecome(s, at, a + b, a' + b', c, c');
    }
  }

  lemma StartBecomes(key: Text, open: nat, flat: nat, s: Text, at: nat)
    requires NulFree(key) && At(s, at, MemberStart(key, true, open))
    ensures Becomes(s, at, MemberStart(key, true, open), MemberStart(key, false, flat))
  {
    hide At, Minified, Becomes, RenderString, NulFree;
    var tabs, name := Tabs(open), RenderString(key);
    AtSplit(s, at, tabs + name, [COLON, TAB]);
    AtSplit(s, at, tabs, name);
    WhiteGoes(s, at, tabs);
    LiteralStays(key, s, at + |tabs|);
    BothBecome(s, at, tabs, [], name, name);
    assert [COLON, TAB] == [COLON] + [TAB] && [COLON] == [COLON] + [];
    AtSplit(s, at + |tabs + name|, [COLON], [TAB]);
    PlainStays(s, at + |tabs + name|, [COLON]);
    WhiteGoes(s, at + |tabs + name| + 1, [TAB]);
    BothBecome(s, at + |tabs + name|, [COLON], [COLON], [TAB], []);
    BothBecome(s, at, tabs + name, [] + name, [COLON, TAB], [COLON]);
    assert MemberStart(key, false, flat) == [] + name + [COLON];
  }

  lemma EndBecomes(last: bool, s: Text, at: nat)
    requires At(s, at, MemberEnd(true, last))
    ensures Becomes(s, at, MemberEnd(true, last), MemberEnd(false, last))
  {
    hide At, Minified, Becomes;
    var a: Text := if last then [] else [COMMA];
    AtSplit(s, at, a, [NEWLINE]);
    PlainStays(s, at, a);
    WhiteGoes(s, at + |a|, [NEWLINE]);
    BothBecome(s, at, a, a, [NEWLINE], []);
  }

  lemma {:induction false} MembersBecome(members: seq<Member>, show: Show, open: nat, flat: nat, s: Text, at: nat)
    requires MembersCStrings(members) && At(s, at, RenderMembers(members, show, true, open))
    ensures Becomes(s, at, RenderMembers(members, show, true, open), RenderMembers(members, show, false, flat))
    decreases members
  {
    hide At, Minified, Becomes, Render, CStrings, MemberStart, MemberEnd, NulFree;
    if |members| == 0 {
      PlainStays(s, at, []);
    } else {
      var key, v, last := members[0].key, members[0].value, |members| == 1;
      var a, a' := MemberStart(key, true, open), MemberStart(key, false, flat);
      var b, b' := Render(v, show, true, open), Render(v, show, false, flat);
      var c, c' := MemberEnd(true, last), MemberEnd(false, last);
      var d, d' := RenderMembers(members[1..], show, true, open), RenderMembers(members[1..], show, false, flat);
      AtSplit(s, at, a + b + c, d);
      AtSplit(s, at, a + b, c);
      AtSplit(s, at, a, b);
      StartBecomes(key, open, flat, s, at);
      ValueBecomes(v, show, open, flat, s, at + |a|);
      EndBecomes(last, s, at + |a + b|);
      MembersBecome(members[1..], show, open, flat, s, at + |a + b + c|);
      BothBecome(s, at, a, a', b, b');
      BothBecome(s, at, a + b, a' + b', c, c');
      BothBecome(s, at, a + b + c, a' + b' + c', d, d');
    }
  }

  /** Minifying the formatted text of a tree gives exactly its unformatted text. */
  lemma MinifyUnformats(v: Json, show: Show)
    requires CStrings(v)
    ensures CString(Render(v, show, true, 0) + [NUL])
    ensures Minified(Render(v, show, true, 0) + [NUL], 0) == Some(Render(v, show, false, 0))
  {
    var t := Render(v, show, true, 0);
    var s := t + [NUL];
    RenderNulFree(v, show, true, 0);
    assert s[0..|t|] == t && s[|t|] == NUL;
    ValueBecomes(v, show, 0, 0, s, 0);
    assert Minified(s, |t|) == Some([]);
    assert Render(v, show, false, 0) + [] == Render(v, show, false, 0);
  }
}
