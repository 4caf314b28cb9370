/** Minifying any text that the parser accepts, however it is laid out, gives a text with the same value
    (cJSON/cJSON.c:702-828, 1004-1081, 1216-1268, 1345-1436, 1501-1607, 2637-2705). */
module JsonMinified {
  import opened Bytes
  import opened JsonMinify
  import opened JsonParse
  import opened JsonText
  import opened Wrappers

  /** From `j` on, `t` is what is left of `s` from `i` on. */
  ghost predicate Left(s: Text, i: nat, t: Text, j: nat) {
    i < |s| && j < |t| && Minified(s, i).Some? && t[j..] == Minified(s, i).value + [NUL]
  }

  // A character that minifying keeps and that starts neither a comment nor a string.
  predicate Kept(b: Byte) { b != NUL && !White(b) && b != SLASH && b != QUOTE }

  lemma StepLeft(s: Text, i: nat, t: Text, j: nat)
    requires CString(s) && Left(s, i, t, j) && Kept(s[i])
    ensures t[j] == s[i] && Left(s, i + 1, t, j + 1)
  {
    var m := Minified(s, i + 1).value;
    assert Minified(s, i).value == [s[i]] + m;
    assert t[j..] == [s[i]] + (m + [NUL]);
    assert t[j..][0] == t[j] && t[j..][1..] == t[j + 1..];
    assert |t[j + 1..]| == |m| + 1;
  }

  lemma EndLeft(s: Text, i: nat, t: Text, j: nat)
    requires CString(s) && Left(s, i, t, j) && s[i] == NUL
    ensures i == |s| - 1 && j == |t| - 1 && t[j] == NUL
  {
    assert t[j..] == [NUL];
  }

  // Space is skipped in both texts, unless a comment follows.
  lemma {:induction false} SkipLeft(s: Text, i: nat, t: Text, j: nat)
    requires CString(s) && Left(s, i, t, j) && s[SkipSpace(s, i)] != SLASH
    ensures Left(s, SkipSpace(s, i), t, SkipSpace(t, j))
    ensures t[SkipSpace(t, j)] == s[SkipSpace(s, i)]
    ensures t[j] <= SPACE || t[j] == s[SkipSpace(s, i)]
    decreases |s| - i
  {
    if s[i] == NUL {
      EndLeft(s, i, t, j);
    } else if White(s[i]) {
      SkipLeft(s, i + 1, t, j);
    } else if s[i] <= SPACE {
      StepLeft(s, i, t, j);
      SkipLeft(s, i + 1, t, j + 1);
    } else if s[i] == QUOTE {
      QuoteLeft(s, i, t, j);
    } else {
      StepLeft(s, i, t, j);
    }
  }

  // The literal that starts here is there whole.
  lemma QuoteLeft(s: Text, i: nat, t: Text, j: nat)
    requires CString(s) && Left(s, i, t, j) && s[i] == QUOTE
    ensures var e := LiteralEnd(s, i + 1);
            && e + 1 < |s| && j + (e + 1 - i) < |t| && t[j] == QUOTE
            && t[j..j + (e + 1 - i)] == s[i..e + 1] && Left(s, e + 1, t, j + (e + 1 - i))
  {
    MinifiedStep(s, i);
    var e := LiteralEnd(s, i + 1);
    var n, m := e + 1 - i, Minified(s, e + 1).value;
    assert Minified(s, i).value == s[i..e + 1] + m;
    assert t[j..] == s[i..e + 1] + (m + [NUL]);
    assert t[j..][..n] == t[j..j + n] && t[j..][n..] == t[j + n..];
    assert t[j..j + n][0] == s[i..e + 1][0];
  }

  // ---------------------------------------------------------------------------------------------
  // Strings

  // The same characters stand at `i` and at `j`.
  ghost predicate Same(s: Text, i: nat, t: Text, j: nat, n: nat) {
    i + n <= |s| && j + n <= |t| && forall k | i <= k < i + n :: s[k] == t[j + (k - i)]
  }

  lemma SameAt(s: Text, i: nat, t: Text, j: nat, n: nat, k: nat)
    requires Same(s, i, t, j, n) && k < n
    ensures s[i + k] == t[j + k]
  {
    var x := i + k;
    assert s[x] == t[j + (x - i)];
  }

  lemma SameBehind(s: Text, i: nat, t: Text, j: nat, n: nat, k: nat)
    requires Same(s, i, t, j, n) && k <= n
    ensures Same(s, i + k, t, j + k, n - k)
  {
  }

  lemma {:induction false} MeasureSame(s: Text, i: nat, t: Text, j: nat, n: nat)
    requires Same(s, i, t, j, n) && Measure(s, i).Some? && Measure(s, i).value.end < i + n
    ensures var e := Measure(s, i).value; Measure(t, j) == Some(Extent(e.end - i + j, e.skipped))
    decreases n
  {
    SameAt(s, i, t, j, n, 0);
    if s[i] != QUOTE {
      var step := if s[i] == BACKSLASH then 2 else 1;
      SameBehind(s, i, t, j, n, step);
      MeasureSame(s, i + step, t, j + step, n - step);
    }
  }

  lemma Utf16Same(s: Text, i: nat, t: Text, j: nat, n: nat)
    requires Same(s, i, t, j, n)
    ensures Utf16(s, i, i + n) == Utf16(t, j, j + n)
  {
    hide Hex4, Same;
    if n >= 6 { HexSame(s, i, t, j, n, 2); }
    if n >= 12 {
      HexSame(s, i, t, j, n, 8);
      SameAt(s, i, t, j, n, 6);
      SameAt(s, i, t, j, n, 7);
    }
  }

  lemma HexSame(s: Text, i: nat, t: Text, j: nat, n: nat, k: nat)
    requires Same(s, i, t, j, n) && k + 4 <= n
    ensures i + n <= |s| && j + n <= |t| && Hex4(s, i + k) == Hex4(t, j + k)
  {
    SameAt(s, i, t, j, n, k);
    SameAt(s, i, t, j, n, k + 1);
    SameAt(s, i, t, j, n, k + 2);
    SameAt(s, i, t, j, n, k + 3);
  }

  lemma {:induction false} DecodeSame(s: Text, i: nat, t: Text, j: nat, n: nat)
    requires Same(s, i, t, j, n + 1)
    ensures Decode(s, i, i + n) == Decode(t, j, j + n)
    decreases n
  {
    hide Utf16, Utf8, Unescape;
    if n > 0 {
      SameAt(s, i, t, j, n + 1, 0);
      SameAt(s, i, t, j, n + 1, 1);
      if s[i] != BACKSLASH {
        SameBehind(s, i, t, j, n + 1, 1);
        DecodeSame(s, i + 1, t, j + 1, n - 1);
      } else if s[i + 1] == LETTER_U {
        Utf16Same(s, i, t, j, n);
        if Utf16(s, i, i + n).Some? {
          var u := Utf16(s, i, i + n).value;
          SameBehind(s, i, t, j, n + 1, u.length);
          DecodeSame(s, i + u.length, t, j + u.length, n - u.length);
        }
      } else if n > 1 {
        SameBehind(s, i, t, j, n + 1, 2);
        DecodeSame(s, i + 2, t, j + 2, n - 2);
      } else {
        assert Decode(s, i + 2, i + n) == Some([]) == Decode(t, j + 2, j + n);
      }
    }
  }

  // Both passes of the parser, and the minifier, find the same closing quote.
  lemma {:induction false} SameEnd(s: Text, i: nat)
    requires CString(s) && Measure(s, i).Some?
    ensures LiteralEnd(s, i) == Measure(s, i).value.end < |s| - 1
    decreases |s| - i
  {
    if s[i] != QUOTE { SameEnd(s, if s[i] == BACKSLASH then i + 2 else i + 1); }
  }

  lemma StringSame(s: Text, i: nat, t: Text, j: nat, n: nat)
    requires CString(s) && CString(t) && Same(s, i, t, j, n) && j + n < |t|
    requires i < |s| && ParseString(s, i).Some? && ParseString(s, i).value.end == i + n
    ensures ParseString(t, j) == Some(Parsed(ParseString(s, i).value.value, j + n))
  {
    hide Measure, Decode, Same;
    SameAt(s, i, t, j, n, 0);
    SameBehind(s, i, t, j, n, 1);
    MeasureSame(s, i + 1, t, j + 1, n - 1);
    DecodeSame(s, i + 1, t, j + 1, n - 2);
  }

  lemma SameSlices(s: Text, i: nat, t: Text, j: nat, n: nat)
    requires i + n <= |s| && j + n <= |t| && t[j..j + n] == s[i..i + n]
    ensures Same(s, i, t, j, n)
  {
    assert forall k | i <= k < i + n :: s[k] == s[i..i + n][k - i] && t[j + (k - i)] == t[j..j + n][k - i];
  }

  lemma StringLeft(s: Text, i: nat, t: Text, j: nat) returns (j': nat)
    requires CString(s) && CString(t) && Left(s, i, t, j) && ParseString(s, i).Some?
    ensures var p := ParseString(s, i).value;
            ParseString(t, j) == Some(Parsed(p.value, j')) && j < j' && Left(s, p.end, t, j')
  {
    QuoteLeft(s, i, t, j);
    SameEnd(s, i + 1);
    var n := LiteralEnd(s, i + 1) + 1 - i;
    hide Left, Measure, Decode, LiteralEnd, Same;
    SameSlices(s, i, t, j, n);
    StringSame(s, i, t, j, n);
    j' := j + n;
  }

  // ---------------------------------------------------------------------------------------------
  // Values

  // What the parser finds behind a value that it accepts as part of a text.
  predicate Follows(s: Text, i: nat)
    requires 0 < |s| && i <= |s|
  {
    s[SkipSpace(s, i)] in {COMMA, CLOSE_BRACKET, CLOSE_BRACE, NUL}
  }

  lemma {:induction false} RunLeft(s: Text, i: nat, t: Text, j: nat, n: nat)
    requires CString(s) && Left(s, i, t, j) && i + n < |s| && forall k | i <= k < i + n :: Kept(s[k])
    ensures Left(s, i + n, t, j + n) && s[i..i + n] == t[j..j + n]
    decreases n
  {
    if n > 0 {
      StepLeft(s, i, t, j);
      RunLeft(s, i + 1, t, j + 1, n - 1);
      assert s[i..i + n] == [s[i]] + s[i + 1..i + 1 + (n - 1)] && t[j..j + n] == [t[j]] + t[j + 1..j + 1 + (n - 1)];
    }
  }

  lemma NumberLeft(s: Text, i: nat, t: Text, j: nat) returns (j': nat)
    requires CString(s) && CString(t) && Left(s, i, t, j)
    requires ParseNumber(s, i).Some? && Follows(s, ParseNumber(s, i).value.end)
    ensures var p := ParseNumber(s, i).value;
            ParseNumber(t, j) == Some(Parsed(p.value, j')) && j < j' && Left(s, p.end, t, j')
  {
    hide Decimal, Left, SkipSpace, CString;
    Inside(s, i, t, j);
    var n, e := NumberRun(s, i), ParseNumber(s, i).value.end;
    NothingLeftOver(s, i);
    RunLeft(s, i, t, j, n);
    j' := j + n;
    Inside(s, e, t, j');
    SkipLeft(s, e, t, j');
    forall k | j <= k < j + n ensures NumberChar(t[k]) {
      assert t[k] == t[j..j + n][k - j] == s[i..i + n][k - j] == s[i + (k - j)];
    }
    RunIs(t, j, n);
  }

  // A number that something proper follows takes up all the characters that could belong to it.
  lemma NothingLeftOver(s: Text, i: nat)
    requires CString(s) && i < |s| && ParseNumber(s, i).Some? && Follows(s, ParseNumber(s, i).value.end)
    ensures ParseNumber(s, i).value.end == i + NumberRun(s, i) && NumberRun(s, i) <= 63
  {
    hide Decimal;
  }

  lemma {:induction false} RunIs(s: Text, at: nat, n: nat)
    requires at + n < |s| && !NumberChar(s[at + n]) && forall i | at <= i < at + n :: NumberChar(s[i])
    ensures NumberRun(s, at) == n
    decreases n
  {
    if n > 0 { RunIs(s, at + 1, n - 1); }
  }

  lemma LiteralLeft(s: Text, i: nat, t: Text, j: nat, word: Text)
    requires CString(s) && Left(s, i, t, j) && At(s, i, word) && i + |word| < |s| && forall b <- word :: Kept(b)
    ensures At(t, j, word) && Left(s, i + |word|, t, j + |word|)
  {
    forall k | i <= k < i + |word| ensures Kept(s[k]) {
      assert s[k] == s[i..i + |word|][k - i] == word[k - i];
      assert word[k - i] in word;
    }
    RunLeft(s, i, t, j, |word|);
  }

  // The values that are words.
  predicate IsWord(s: Text, i: nat) { At(s, i, JsonText.NULL) || At(s, i, FALSE) || At(s, i, TRUE) }

  lemma WordLeft(s: Text, i: nat, t: Text, j: nat, depth: nat) returns (j': nat)
    requires CString(s) && CString(t) && Left(s, i, t, j) && IsWord(s, i)
    ensures var p := ParseValue(s, i, depth);
            p.Some? && ParseValue(t, j, depth) == Some(Parsed(p.value.value, j')) && j < j' &&
                Left(s, p.value.end, t, j')
  {
    var word := if At(s, i, JsonText.NULL) then JsonText.NULL else if At(s, i, FALSE) then FALSE else TRUE;
    assert s[i..i + |word|][0] == s[i];
    assert s[i + |word| - 1] == s[i..i + |word|][|word| - 1];
    LiteralLeft(s, i, t, j, word);
    assert t[j] == t[j..j + |word|][0];
    j' := j + |word|;
    NoOtherWord(s, i);
    NoOtherWord(t, j);
  }

  lemma NoOtherWord(s: Text, i: nat)
    requires i < |s|
    ensures At(s, i, JsonText.NULL) ==> s[i] == LETTER_N
    ensures At(s, i, FALSE) ==> s[i] == LETTER_F
    ensures At(s, i, TRUE) ==> s[i] == LETTER_T
  {
    assert At(s, i, JsonText.NULL) ==> s[i..i + 4][0] == s[i];
    assert At(s, i, FALSE) ==> s[i..i + 5][0] == s[i];
    assert At(s, i, TRUE) ==> s[i..i + 4][0] == s[i];
  }

  // The first character of both is the same, and the parser does the same with it.
  lemma FirstLeft(s: Text, i: nat, t: Text, j: nat, depth: nat)
    requires CString(s) && CString(t) && Left(s, i, t, j) && ParseValue(s, i, depth).Some?
    ensures t[j] == s[i] && s[i] > SPACE && s[i] != SLASH && !(s[i] in {COMMA, CLOSE_BRACKET, CLOSE_BRACE, NUL})
    ensures !IsWord(s, i) ==> !IsWord(t, j)
  {
    NoOtherWord(s, i);
    NoOtherWord(t, j);
    if s[i] == QUOTE { QuoteLeft(s, i, t, j); } else { StepLeft(s, i, t, j); }
    if !IsWord(s, i) {
      assert s[i] in {QUOTE, MINUS, OPEN_BRACKET, OPEN_BRACE} || Digit(s[i]);
    }
  }

  lemma {:induction false} ValueLeft(s: Text, i: nat, t: Text, j: nat, depth: nat) returns (j': nat)
    requires CString(s) && CString(t) && Left(s, i, t, j)
    requires ParseValue(s, i, depth).Some? && Follows(s, ParseValue(s, i, depth).value.end)
    ensures var p := ParseValue(s, i, depth).value;
            ParseValue(t, j, depth) == Some(Parsed(p.value, j')) && j < j' && Left(s, p.end, t, j')
    decreases |s| - i, 1
  {
    hide At, ParseString, ParseNumber, ParseArray, ParseObject, Left, SkipSpace;
    FirstLeft(s, i, t, j, depth);
    if IsWord(s, i) {
      j' := WordLeft(s, i, t, j, depth);
    } else if s[i] == QUOTE {
      j' := StringLeft(s, i, t, j);
    } else if s[i] == MINUS || Digit(s[i]) {
      j' := NumberLeft(s, i, t, j);
    } else if s[i] == OPEN_BRACKET {
      j' := ArrayLeft(s, i, t, j, depth);
    } else {
      j' := ObjectLeft(s, i, t, j, depth);
    }
  }

  lemma {:induction false} ArrayLeft(s: Text, i: nat, t: Text, j: nat, depth: nat) returns (j': nat)
    requires CString(s) && CString(t) && Left(s, i, t, j) && ParseArray(s, i, depth).Some?
    ensures var p := ParseArray(s, i, depth).value;
            ParseArray(t, j, depth) == Some(Parsed(p.value, j')) && j < j' && Left(s, p.end, t, j')
    decreases |s| - i, 0
  {
    hide ParseItems, Left, SkipSpace;
    StepLeft(s, i, t, j);
    Inside(s, i + 1, t, j + 1);
    var a, b := SkipSpace(s, i + 1), SkipSpace(t, j + 1);
    if s[a] != CLOSE_BRACKET { ItemStarts(s, a, depth + 1); }
    SkipLeft(s, i + 1, t, j + 1);
    if s[a] == CLOSE_BRACKET {
      StepLeft(s, a, t, b);
      j' := b + 1;
    } else {
      j' := ItemsLeft(s, a, t, b, depth + 1);
    }
  }

  lemma Inside(s: Text, i: nat, t: Text, j: nat)
    requires Left(s, i, t, j)
    ensures i < |s| && j < |t|
  {
  }

  lemma ItemStarts(s: Text, i: nat, depth: nat)
    requires CString(s) && i < |s| && ParseItems(s, i, depth).Some?
    ensures s[i] != SLASH
  {
    hide ParseString, ParseNumber, ParseArray, ParseObject;
    NoOtherWord(s, i);
  }

  lemma {:induction false} ItemsLeft(s: Text, i: nat, t: Text, j: nat, depth: nat) returns (j': nat)
    requires CString(s) && CString(t) && Left(s, i, t, j) && ParseItems(s, i, depth).Some?
    ensures var p := ParseItems(s, i, depth).value;
            ParseItems(t, j, depth) == Some(Parsed(p.value, j')) && j < j' && Left(s, p.end, t, j')
    decreases |s| - i, 2
  {
    hide ParseValue, Left, SkipSpace;
    var p := ParseValue(s, i, depth).value;
    var a := SkipSpace(s, p.end);
    var b := ValueLeft(s, i, t, j, depth);
    Inside(s, p.end, t, b);
    SkipLeft(s, p.end, t, b);
    b := SkipSpace(t, b);
    StepLeft(s, a, t, b);
    j' := b + 1;
    if s[a] == COMMA {
      var c, d := SkipSpace(s, a + 1), SkipSpace(t, b + 1);
      ItemStarts(s, c, depth);
      Inside(s, a + 1, t, b + 1);
      SkipLeft(s, a + 1, t, b + 1);
      j' := ItemsLeft(s, c, t, d, depth);
    }
  }

  lemma {:induction false} ObjectLeft(s: Text, i: nat, t: Text, j: nat, depth: nat) returns (j': nat)
    requires CString(s) && CString(t) && Left(s, i, t, j) && ParseObject(s, i, depth).Some?
    ensures var p := ParseObject(s, i, depth).value;
            ParseObject(t, j, depth) == Some(Parsed(p.value, j')) && j < j' && Left(s, p.end, t, j')
    decreases |s| - i, 0
  {
    hide ParseMembers, Left, SkipSpace;
    StepLeft(s, i, t, j);
    Inside(s, i + 1, t, j + 1);
    var a, b := SkipSpace(s, i + 1), SkipSpace(t, j + 1);
    if s[a] != CLOSE_BRACE { MemberStarts(s, a, depth + 1); }
    SkipLeft(s, i + 1, t, j + 1);
    if s[a] == CLOSE_BRACE {
      StepLeft(s, a, t, b);
      j' := b + 1;
    } else {
      j' := MembersLeft(s, a, t, b, depth + 1);
    }
  }

  lemma MemberStarts(s: Text, i: nat, depth: nat)
    requires CString(s) && i < |s| && ParseMembers(s, i, depth).Some?
    ensures s[i] == QUOTE
  {
    hide ParseValue;
  }

  lemma {:induction false} MembersLeft(s: Text, i: nat, t: Text, j: nat, depth: nat) returns (j': nat)
    requires CString(s) && CString(t) && Left(s, i, t, j) && ParseMembers(s, i, depth).Some?
    ensures var p := ParseMembers(s, i, depth).value;
            ParseMembers(t, j, depth) == Some(Parsed(p.value, j')) && j < j' && Left(s, p.end, t, j')
    decreases |s| - i, 2
  {
    hide ParseValue, ParseString, Left, SkipSpace;
    var key := ParseString(s, i).value;
    var b := StringLeft(s, i, t, j);
    var colon := SkipSpace(s, key.end);
    Inside(s, key.end, t, b);
    SkipLeft(s, key.end, t, b);
    b := SkipSpace(t, b);
    StepLeft(s, colon, t, b);
    Inside(s, colon + 1, t, b + 1);
    var v := SkipSpace(s, colon + 1);
    ValueStarts(s, v, depth);
    SkipLeft(s, colon + 1, t, b + 1);
    b := SkipSpace(t, b + 1);
    var p := ParseValue(s, v, depth).value;
    b := ValueLeft(s, v, t, b, depth);
    var a := SkipSpace(s, p.end);
    Inside(s, p.end, t, b);
    SkipLeft(s, p.end, t, b);
    b := SkipSpace(t, b);
    StepLeft(s, a, t, b);
    j' := b + 1;
    if s[a] == COMMA {
      var c, d := SkipSpace(s, a + 1), SkipSpace(t, b + 1);
      MemberStarts(s, c, depth);
      Inside(s, a + 1, t, b + 1);
      SkipLeft(s, a + 1, t, b + 1);
      j' := MembersLeft(s, c, t, d, depth);
    }
  }

  lemma ValueStarts(s: Text, i: nat, depth: nat)
    requires CString(s) && i < |s| && ParseValue(s, i, depth).Some?
    ensures s[i] != SLASH && s[i] < 128
  {
    hide ParseString, ParseNumber, ParseArray, ParseObject;
    NoOtherWord(s, i);
  }

  // ---------------------------------------------------------------------------------------------
  // All comments and strings of such a text are closed

  predicate Closed(s: Text, i: nat) { i < |s| && Minified(s, i).Some? }

  lemma StepClosed(s: Text, i: nat)
    requires i + 1 < |s| && Closed(s, i + 1) && (Kept(s[i]) || White(s[i]))
    ensures Closed(s, i)
  {
  }

  lemma {:induction false} SkipClosed(s: Text, i: nat)
    requires CString(s) && i < |s| && Closed(s, SkipSpace(s, i))
    ensures Closed(s, i)
    decreases |s| - i
  {
    if s[i] <= SPACE && i < |s| - 1 {
      SkipClosed(s, i + 1);
      StepClosed(s, i);
    }
  }

  lemma StringClosed(s: Text, i: nat)
    requires CString(s) && i < |s| && ParseString(s, i).Some? && Closed(s, ParseString(s, i).value.end)
    ensures Closed(s, i)
  {
    SameEnd(s, i + 1);
  }

  lemma {:induction false} RunClosed(s: Text, i: nat, n: nat)
    requires i + n < |s| && Closed(s, i + n) && forall k | i <= k < i + n :: Kept(s[k])
    ensures Closed(s, i)
    decreases n
  {
    if n > 0 {
      RunClosed(s, i + 1, n - 1);
      StepClosed(s, i);
    }
  }

  lemma {:induction false} ValueClosed(s: Text, i: nat, depth: nat)
    requires CString(s) && i < |s| && ParseValue(s, i, depth).Some? && Closed(s, ParseValue(s, i, depth).value.end)
    ensures Closed(s, i)
    decreases |s| - i, 1
  {
    hide Closed, ParseString, ParseArray, ParseObject, Decimal;
    if IsWord(s, i) {
      WordClosed(s, i, depth);
    } else if s[i] == QUOTE {
      StringClosed(s, i);
    } else if s[i] == MINUS || Digit(s[i]) {
      RunClosed(s, i, ParseNumber(s, i).value.end - i);
    } else if s[i] == OPEN_BRACKET {
      ArrayClosed(s, i, depth);
    } else {
      ObjectClosed(s, i, depth);
    }
  }

  lemma WordClosed(s: Text, i: nat, depth: nat)
    requires CString(s) && i < |s| && IsWord(s, i) && Closed(s, ParseValue(s, i, depth).value.end)
    ensures Closed(s, i)
  {
    hide Closed;
    var word := if At(s, i, JsonText.NULL) then JsonText.NULL else if At(s, i, FALSE) then FALSE else TRUE;
    NoOtherWord(s, i);
    forall k | i <= k < i + |word| ensures Kept(s[k]) {
      assert s[k] == s[i..i + |word|][k - i] == word[k - i];
    }
    RunClosed(s, i, |word|);
  }

  lemma {:induction false} ArrayClosed(s: Text, i: nat, depth: nat)
    requires CString(s) && i < |s| && ParseArray(s, i, depth).Some? && Closed(s, ParseArray(s, i, depth).value.end)
    ensures Closed(s, i)
    decreases |s| - i, 0
  {
    hide Closed, ParseItems, SkipSpace;
    var a := SkipSpace(s, i + 1);
    if s[a] == CLOSE_BRACKET { StepClosed(s, a); } else { ItemsClosed(s, a, depth + 1); }
    SkipClosed(s, i + 1);
    StepClosed(s, i);
  }

  lemma {:induction false} ItemsClosed(s: Text, i: nat, depth: nat)
    requires CString(s) && i < |s| && ParseItems(s, i, depth).Some? && Closed(s, ParseItems(s, i, depth).value.end)
    ensures Closed(s, i)
    decreases |s| - i, 2
  {
    hide Closed, ParseValue, SkipSpace;
    var end := ParseValue(s, i, depth).value.end;
    var a := SkipSpace(s, end);
    if s[a] == COMMA {
      ItemsClosed(s, SkipSpace(s, a + 1), depth);
      SkipClosed(s, a + 1);
    }
    StepClosed(s, a);
    SkipClosed(s, end);
    ValueClosed(s, i, depth);
  }

  lemma {:induction false} ObjectClosed(s: Text, i: nat, depth: nat)
    requires CString(s) && i < |s| && ParseObject(s, i, depth).Some? && Closed(s, ParseObject(s, i, depth).value.end)
    ensures Closed(s, i)
    decreases |s| - i, 0
  {
    hide Closed, ParseMembers, SkipSpace;
    var a := SkipSpace(s, i + 1);
    if s[a] == CLOSE_BRACE { StepClosed(s, a); } else { MembersClosed(s, a, depth + 1); }
    SkipClosed(s, i + 1);
    StepClosed(s, i);
  }

  lemma {:induction false} MembersClosed(s: Text, i: nat, depth: nat)
    requires CString(s) && i < |s| && ParseMembers(s, i, depth).Some? && Closed(s, ParseMembers(s, i, depth).value.end)
    ensures Closed(s, i)
    decreases |s| - i, 2
  {
    hide Closed, ParseValue, ParseString, SkipSpace;
    var key := ParseString(s, i).value;
    var colon := SkipSpace(s, key.end);
    var v := SkipSpace(s, colon + 1);
    var end := ParseValue(s, v, depth).value.end;
    var a := SkipSpace(s, end);
    if s[a] == COMMA {
      MembersClosed(s, SkipSpace(s, a + 1), depth);
      SkipClosed(s, a + 1);
    }
    StepClosed(s, a);
    SkipClosed(s, end);
    ValueClosed(s, v, depth);
    SkipClosed(s, colon + 1);
    StepClosed(s, colon);
    SkipClosed(s, key.end);
    StringClosed(s, i);
  }

  // ---------------------------------------------------------------------------------------------
  // Whole texts

  lemma {:induction false} MinifiedNulFree(s: Text, i: nat)
    requires CString(s) && i < |s| && Minified(s, i).Some?
    ensures NulFree(Minified(s, i).value)
    decreases |s| - i
  {
    MinifiedStep(s, i);
    if s[i] == NUL {
    } else if White(s[i]) {
      MinifiedNulFree(s, i + 1);
    } else if s[i] == SLASH && s[i + 1] == SLASH {
      MinifiedNulFree(s, LineEnd(s, i + 1));
    } else if s[i] == SLASH && s[i + 1] == STAR {
      MinifiedNulFree(s, CommentEnd(s, i + 1) + 2);
    } else if s[i] == QUOTE {
      MinifiedNulFree(s, LiteralEnd(s, i + 1) + 1);
    } else {
      MinifiedNulFree(s, i + 1);
    }
  }

  // The byte order mark, if there is one, is kept.
  lemma BomLeft(s: Text, t: Text)
    requires CString(s) && Left(s, 0, t, 0)
    ensures Left(s, SkipBom(s), t, SkipBom(s))
    ensures SkipBom(s) in {0, 3} && (SkipBom(s) == 3 && 4 < |t| ==> SkipBom(t) == 3)
  {
    if SkipBom(s) == 3 {
      assert s[0] == s[..3][0] && s[1] == s[..3][1] && s[2] == s[..3][2];
      RunLeft(s, 0, t, 0, 3);
    }
  }

  lemma BomClosed(s: Text)
    requires CString(s) && Closed(s, SkipBom(s))
    ensures Closed(s, 0)
  {
    if SkipBom(s) == 3 {
      assert s[0] == s[..3][0] && s[1] == s[..3][1] && s[2] == s[..3][2];
      RunClosed(s, 0, 3);
    }
  }

  lemma NoBom(t: Text)
    requires 0 < |t| && t[0] != 0xEF
    ensures SkipBom(t) == 0
  {
    if 4 < |t| { assert t[..3][0] == t[0]; }
  }

  lemma WholeClosed(text: Text)
    requires NulFree(text) && ParseText(text, true).Some?
    ensures Closed(text + [NUL], 0)
  {
    hide ParseValue, SkipSpace, SkipBom, Closed;
    var s := text + [NUL];
    var i := SkipSpace(s, SkipBom(s));
    var end := ParseValue(s, i, 0).value.end;
    assert Closed(s, SkipSpace(s, end)) by { AtEnd(s, SkipSpace(s, end)); }
    SkipClosed(s, end);
    ValueClosed(s, i, 0);
    SkipClosed(s, SkipBom(s));
    BomClosed(s);
  }

  lemma AtEnd(s: Text, i: nat)
    requires i < |s| && s[i] == NUL
    ensures Closed(s, i)
  {
  }

  /** A text that is parsed whole can be minified, and the result is parsed whole to the same value. */
  lemma MinifiedParses(text: Text)
    requires NulFree(text) && ParseText(text, true).Some?
    ensures var s := text + [NUL];
            Minified(s, 0).Some? &&
            var t := Minified(s, 0).value;
            NulFree(t) && ParseText(t, true) == Some(Parsed(ParseText(text, true).value.value, |t|))
  {
    hide ParseValue, SkipSpace, SkipBom, Minified;
    WholeClosed(text);
    var s := text + [NUL];
    MinifiedNulFree(s, 0);
    var t := Minified(s, 0).value + [NUL];
    assert t[0..] == t;
    BomLeft(s, t);
    var bom, i := SkipBom(s), SkipSpace(s, SkipBom(s));
    ValueStarts(s, i, 0);
    SkipLeft(s, bom, t, bom);
    var end := ParseValue(s, i, 0).value.end;
    var j := ValueLeft(s, i, t, SkipSpace(t, bom), 0);
    if bom == 0 { NoBom(t); }
    SkipLeft(s, end, t, j);
    EndLeft(s, SkipSpace(s, end), t, SkipSpace(t, j));
  }
}
