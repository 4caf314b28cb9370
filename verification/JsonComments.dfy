/** Exactly what cJSON_Minify keeps of a text and what it drops (cJSON/cJSON.c:2637-2705), in numbers: comments
    and white space go, string literals and all other characters stay, in their order. */
module JsonComments {
  import opened Bytes
  import opened JsonMinify
  import opened JsonParse
  import opened JsonRoundTrip
  import opened JsonText
  import opened Wrappers

  datatype Scrap =
    | Gap(b: Byte)            // a space, tab, carriage return or line feed
    | Remark(text: Text)      // two slashes and the rest of the line
    | Comment(text: Text)     // a slash, this, and a star and a slash
    | Quote(body: Text)       // a string literal, with this between its quotes
    | Other(b: Byte)
  {
    function Spelling(): Text {
      match this
      case Gap(b) => [b]
      case Remark(text) => [47, 47] + text
      case Comment(text) => [47] + (text + [42, 47])
      case Quote(body) => [34] + (body + [34])
      case Other(b) => [b]
    }

    function Kept(): Text {
      match this
      case Quote(body) => [34] + (body + [34])
      case Other(b) => [b]
      case _ => []
    }

    /** As it can stand in front of `rest`. A comment ends with the first star and slash behind its first slash,
        even if that is its own first star. */
    predicate Fits(rest: Text) {
      match this
      case Gap(b) => b in {9, 10, 13, 32}
      case Remark(text) => 10 !in text && (rest == [] || rest[0] == 10)
      case Comment(text) =>
        && (text == [] || text[0] == 42)
        && forall i | 0 <= i < |text| :: text[i] != 42 || (text + [42, 47])[i + 1] != 47
      case Quote(body) => Escaped(body)
      case Other(b) => b !in {9, 10, 13, 32, 34} && !(b == 47 && rest != [] && rest[0] in {42, 47})
    }
  }

  /** No quote stands in here but behind a backslash, which takes the next character with it. */
  predicate Escaped(body: Text) {
    body == [] ||
    if body[0] == 92 then |body| > 1 && Escaped(body[2..]) else body[0] != 34 && Escaped(body[1..])
  }

  function Spelling(scraps: seq<Scrap>): Text {
    if |scraps| == 0 then [] else scraps[0].Spelling() + Spelling(scraps[1..])
  }

  function Kept(scraps: seq<Scrap>): Text {
    if |scraps| == 0 then [] else scraps[0].Kept() + Kept(scraps[1..])
  }

  predicate Fit(scraps: seq<Scrap>) {
    |scraps| == 0 || (scraps[0].Fits(Spelling(scraps[1..])) && Fit(scraps[1..]))
  }

  // ---------------------------------------------------------------------------------------------
  // One scrap

  lemma {:induction false} LineEndIs(s: Text, i: nat, n: nat)
    requires i + n < |s| && (s[i + n] == 10 || s[i + n] == 0) && forall k | i <= k < i + n :: s[k] != 10 && s[k] != 0
    ensures LineEnd(s, i) == i + n
    decreases n
  {
    if n > 0 { LineEndIs(s, i + 1, n - 1); }
  }

  lemma {:induction false} CommentEndIs(s: Text, i: nat, n: nat)
    requires i + n + 1 < |s| && s[i + n] == 42 && s[i + n + 1] == 47
    requires forall k | i <= k < i + n :: s[k] != 0 && (s[k] != 42 || s[k + 1] != 47)
    ensures CommentEnd(s, i) == i + n
    decreases n
  {
    if n > 0 { CommentEndIs(s, i + 1, n - 1); }
  }

  lemma {:induction false} LiteralEndIs(s: Text, i: nat, body: Text)
    requires At(s, i, body + [34]) && NulFree(body) && Escaped(body)
    ensures LiteralEnd(s, i) == i + |body|
    decreases |body|
  {
    AtChar(s, i, body + [34], 0);
    if body != [] {
      assert body[0] in body;
      var n := if body[0] == 92 then 2 else 1;
      assert body + [34] == body[..n] + (body[n..] + [34]);
      AtSplit(s, i, body[..n], body[n..] + [34]);
      LiteralEndIs(s, i + n, body[n..]);
    }
  }

  // What stands at `i`, and right behind a scrap.
  ghost predicate Stands(scrap: Scrap, rest: Text, s: Text, i: nat) {
    At(s, i, scrap.Spelling()) && i + |scrap.Spelling()| < |s| && s[i + |scrap.Spelling()|] == (rest + [0])[0] &&
    NulFree(scrap.Spelling())
  }

  lemma ScrapRead(scrap: Scrap, rest: Text, s: Text, i: nat)
    requires scrap.Fits(rest) && Stands(scrap, rest, s, i)
    ensures i < |s| && Minified(s, i) == Then(scrap.Kept(), Minified(s, i + |scrap.Spelling()|))
  {
    AtChar(s, i, scrap.Spelling(), 0);
    assert scrap.Spelling()[0] in scrap.Spelling();
    match scrap
    case Gap(b) => ThenNothing(Minified(s, i + 1));
    case Remark(text) => RemarkRead(text, rest, s, i);
    case Comment(text) => CommentRead(text, rest, s, i);
    case Quote(body) => QuoteRead(body, rest, s, i);
    case Other(b) => assert s[i..i + 1] == [b];
  }

  lemma ThenNothing(r: Option<Text>)
    ensures Then([], r) == r
  {
    if r.Some? { assert [] + r.value == r.value; }
  }

  lemma RemarkRead(text: Text, rest: Text, s: Text, i: nat)
    requires Remark(text).Fits(rest) && Stands(Remark(text), rest, s, i)
    ensures Minified(s, i) == Then([], Minified(s, i + 2 + |text|))
  {
    var t := [47, 47] + text;
    AtChar(s, i, t, 0);
    AtChar(s, i, t, 1);
    NoNulIn(t);
    forall k | i + 1 <= k < i + 2 + |text| ensures s[k] != 10 && s[k] != 0 {
      AtChar(s, i, t, k - i);
      assert t[k - i] in t && (k >= i + 2 ==> text[k - i - 2] in text);
    }
    hide Minified, At, NulFree;
    LineEndIs(s, i + 1, 1 + |text|);
    RemarkStep(s, i, i + 2 + |text|);
  }

  lemma RemarkStep(s: Text, i: nat, e: nat)
    requires i + 1 < |s| && s[i] == 47 && s[i + 1] == 47 && LineEnd(s, i + 1) == e
    ensures Minified(s, i) == Then([], Minified(s, e))
  {
    hide LiteralEnd, LineEnd, CommentEnd;
    ThenNothing(Minified(s, e));
  }

  lemma CommentStep(s: Text, i: nat, e: nat)
    requires i + 1 < |s| && s[i] == 47 && s[i + 1] == 42 && CommentEnd(s, i + 1) == e
    ensures Minified(s, i) == Then([], Minified(s, e + 2))
  {
    hide LiteralEnd, LineEnd, CommentEnd;
    ThenNothing(Minified(s, e + 2));
  }

  lemma CommentRead(text: Text, rest: Text, s: Text, i: nat)
    requires Comment(text).Fits(rest) && Stands(Comment(text), rest, s, i)
    ensures Minified(s, i) == Then([], Minified(s, i + 3 + |text|))
  {
    hide Minified, At, NulFree;
    var t := [47] + (text + [42, 47]);
    CommentChars(text, s, i);
    NoNulIn(t);
    forall k | i + 1 <= k < i + 1 + |text| ensures s[k] != 0 && (s[k] != 42 || s[k + 1] != 47) {
      assert t[k - i] in t && t[k - i] == text[k - i - 1] && t[k + 1 - i] == (text + [42, 47])[k - i];
    }
    CommentEndIs(s, i + 1, |text|);
    CommentStep(s, i, i + 1 + |text|);
  }

  lemma NoNulIn(t: Text)
    requires NulFree(t)
    ensures forall b <- t :: b != 0
  {
  }

  lemma CommentChars(text: Text, s: Text, i: nat)
    requires At(s, i, [47] + (text + [42, 47])) && (text == [] || text[0] == 42)
    ensures var t := [47] + (text + [42, 47]);
            && i + |t| <= |s| && (forall k | i <= k < i + |t| :: s[k] == t[k - i])
            && s[i] == 47 && s[i + 1] == 42 && s[i + 1 + |text|] == 42 && s[i + 2 + |text|] == 47
  {
    var t := [47] + (text + [42, 47]);
    forall k | i <= k < i + |t| ensures s[k] == t[k - i] { AtChar(s, i, t, k - i); }
  }

  lemma QuoteRead(body: Text, rest: Text, s: Text, i: nat)
    requires Quote(body).Fits(rest) && Stands(Quote(body), rest, s, i)
    ensures Minified(s, i) == Then([34] + (body + [34]), Minified(s, i + 2 + |body|))
  {
    hide Minified, LiteralEnd, At, NulFree, Escaped;
    var t := [34] + (body + [34]);
    AtChar(s, i, t, 0);
    AtSplit(s, i, [34], body + [34]);
    NulFreeParts([34], body + [34]);
    NulFreeParts(body, [34]);
    LiteralEndIs(s, i + 1, body);
    TextAt(s, i, t);
    QuoteStep(s, i, i + 1 + |body|, t);
  }

  lemma QuoteStep(s: Text, i: nat, e: nat, t: Text)
    requires i < e < |s| && s[i] == 34 && LiteralEnd(s, i + 1) == e && s[i..e + 1] == t
    ensures Minified(s, i) == Then(t, Minified(s, e + 1))
  {
    hide LiteralEnd, LineEnd, CommentEnd;
  }

  lemma TextAt(s: Text, i: nat, t: Text)
    requires At(s, i, t)
    ensures i + |t| <= |s| && s[i..i + |t|] == t
  {
  }

  // ---------------------------------------------------------------------------------------------
  // Whole texts

  /** Of a text in such scraps just what is to be kept is left. */
  lemma {:induction false} ScrapsRead(scraps: seq<Scrap>, s: Text, i: nat)
    requires Fit(scraps) && NulFree(Spelling(scraps)) && At(s, i, Spelling(scraps) + [0])
    ensures Minified(s, i) == Some(Kept(scraps))
    decreases |scraps|
  {
    hide Minified, At, Scrap.Fits, Scrap.Spelling, Scrap.Kept, NulFree;
    if |scraps| == 0 {
      assert [] + [0] == [0];
      AtChar(s, i, [0], 0);
      MinifiedNothing(s, i);
    } else {
      var x, rest := scraps[0], scraps[1..];
      Assoc(x.Spelling(), Spelling(rest), [0]);
      AtSplit(s, i, x.Spelling(), Spelling(rest) + [0]);
      AtChar(s, i + |x.Spelling()|, Spelling(rest) + [0], 0);
      NulFreeParts(x.Spelling(), Spelling(rest));
      ScrapRead(x, Spelling(rest), s, i);
      ScrapsRead(rest, s, i + |x.Spelling()|);
    }
  }

  lemma NulFreeParts(a: Text, b: Text)
    requires NulFree(a + b)
    ensures NulFree(a) && NulFree(b)
  {
    assert (forall x <- a :: x in a + b) && forall x <- b :: x in a + b;
  }

  lemma MinifiedNothing(s: Text, i: nat)
    requires i < |s| && s[i] == 0
    ensures Minified(s, i) == Some([])
  {
  }

  /** And every text that can be minified is a sequence of such scraps. */
  lemma {:induction false} ScrapsOf(s: Text, i: nat) returns (scraps: seq<Scrap>)
    requires |s| > 0 && s[|s| - 1] == 0 && NulFree(s[..|s| - 1]) && i < |s| && Minified(s, i).Some?
    ensures Fit(scraps) && s[i..|s| - 1] == Spelling(scraps)
    decreases |s| - i
  {
    hide Minified, Scrap.Fits, Scrap.Spelling, NulFree;
    if i == |s| - 1 {
      scraps := [];
    } else {
      var x, j := FirstScrap(s, i);
      var rest := ScrapsOf(s, j);
      scraps := [x] + rest;
      assert scraps[1..] == rest;
      Slices(s, i, j, |s| - 1);
    }
  }

  lemma FirstScrap(s: Text, i: nat) returns (x: Scrap, j: nat)
    requires |s| > 0 && s[|s| - 1] == 0 && NulFree(s[..|s| - 1]) && i < |s| - 1 && Minified(s, i).Some?
    ensures i < j < |s| && x.Fits(s[j..|s| - 1]) && s[i..j] == x.Spelling() && Minified(s, j).Some?
  {
    NoNulBefore(s);
    if White(s[i]) {
      x, j := Gap(s[i]), i + 1;
    } else if s[i] == 47 && s[i + 1] == 47 {
      j := LineEnd(s, i + 1);
      x := FirstRemark(s, i);
    } else if s[i] == 47 && s[i + 1] == 42 {
      j := CommentEnd(s, i + 1) + 2;
      x := FirstComment(s, i);
    } else if s[i] == 34 {
      j := LiteralEnd(s, i + 1) + 1;
      x := FirstQuote(s, i);
    } else {
      x, j := Other(s[i]), i + 1;
    }
    hide LineEnd, CommentEnd, LiteralEnd, NulFree, Escaped;
  }

  lemma FirstRemark(s: Text, i: nat) returns (x: Scrap)
    requires |s| > 0 && s[|s| - 1] == 0 && (forall k | 0 <= k < |s| - 1 :: s[k] != 0)
    requires i < |s| - 1 && s[i] == 47 && s[i + 1] == 47
    ensures var j := LineEnd(s, i + 1);
            i < j < |s| && x.Fits(s[j..|s| - 1]) && s[i..j] == x.Spelling()
  {
    LineEndStops(s, i + 1);
    var j := LineEnd(s, i + 1);
    hide LineEnd;
    assert j != i + 1;
    x := Remark(s[i + 2..j]);
    assert s[i..j] == [47, 47] + s[i + 2..j];
  }

  lemma FirstComment(s: Text, i: nat) returns (x: Scrap)
    requires |s| > 0 && s[|s| - 1] == 0 && (forall k | 0 <= k < |s| - 1 :: s[k] != 0)
    requires i < |s| - 1 && s[i] == 47 && s[i + 1] == 42 && CommentEnd(s, i + 1) + 2 < |s|
    ensures var j := CommentEnd(s, i + 1) + 2;
            i < j < |s| && x.Fits(s[j..|s| - 1]) && s[i..j] == x.Spelling()
  {
    CommentEndStops(s, i + 1);
    var e := CommentEnd(s, i + 1);
    hide CommentEnd;
    x := Comment(s[i + 1..e]);
    assert s[e] == 42 && s[e + 1] == 47;
    assert s[i + 1..e] + [42, 47] == s[i + 1..e + 2];
    assert s[i..e + 2] == [47] + s[i + 1..e + 2];
    assert forall k | i + 1 <= k < e + 2 :: s[k] == s[i + 1..e + 2][k - i - 1];
  }

  lemma FirstQuote(s: Text, i: nat) returns (x: Scrap)
    requires |s| > 0 && s[|s| - 1] == 0 && (forall k | 0 <= k < |s| - 1 :: s[k] != 0)
    requires i < |s| - 1 && s[i] == 34 && LiteralEnd(s, i + 1) + 1 < |s|
    ensures var j := LiteralEnd(s, i + 1) + 1;
            i < j < |s| && x.Fits(s[j..|s| - 1]) && s[i..j] == x.Spelling()
  {
    LiteralEndStops(s, i + 1);
    var e := LiteralEnd(s, i + 1);
    hide LiteralEnd, Escaped;
    x := Quote(s[i + 1..e]);
    assert s[i..e + 1] == [34] + (s[i + 1..e] + [34]);
  }

  lemma NoNulBefore(s: Text)
    requires |s| > 0 && NulFree(s[..|s| - 1])
    ensures forall k | 0 <= k < |s| - 1 :: s[k] != 0
  {
    assert forall k | 0 <= k < |s| - 1 :: s[k] in s[..|s| - 1];
  }

  lemma {:induction false} LineEndStops(s: Text, i: nat)
    requires i < |s| && s[|s| - 1] == 0
    ensures var e := LineEnd(s, i); e < |s| && (s[e] == 10 || s[e] == 0) && forall k | i <= k < e :: s[k] != 10
    decreases |s| - i
  {
    if s[i] != 0 && s[i] != 10 { LineEndStops(s, i + 1); }
  }

  lemma {:induction false} CommentEndStops(s: Text, i: nat)
    requires i < |s| && s[|s| - 1] == 0
    ensures var e := CommentEnd(s, i);
            && e < |s| && (s[e] == 0 || (e + 1 < |s| && s[e] == 42 && s[e + 1] == 47))
            && forall k | i <= k < e :: s[k] != 0 && (s[k] != 42 || s[k + 1] != 47)
    decreases |s| - i
  {
    if s[i] != 0 && !(s[i] == 42 && i + 1 < |s| && s[i + 1] == 47) { CommentEndStops(s, i + 1); }
  }

  lemma {:induction false} LiteralEndStops(s: Text, i: nat)
    requires i < |s| && s[|s| - 1] == 0 && LiteralEnd(s, i) < |s| - 1
    requires forall k | 0 <= k < |s| - 1 :: s[k] != 0
    ensures var e := LiteralEnd(s, i); s[e] == 34 && Escaped(s[i..e])
    decreases |s| - i
  {
    var e := LiteralEnd(s, i);
    if s[i] != 34 {
      var n := if s[i] == 92 then 2 else 1;
      LiteralEndStops(s, i + n);
      assert s[i..e][n..] == s[i + n..e];
    }
  }

  /** A text can be minified exactly if it is such a sequence of scraps, so if its comments and string literals are
      closed; and then what is to be kept is left. */
  lemma MinifiedExactly(text: Text, t: Text)
    requires NulFree(text)
    ensures Minified(text + [0], 0) == Some(t) <==>
              exists scraps: seq<Scrap> :: Fit(scraps) && Spelling(scraps) == text && Kept(scraps) == t
  {
    hide Minified, Fit, Spelling, Kept, NulFree;
    var s := text + [0];
    assert s[..|s| - 1] == text == s[0..|s| - 1] && s[0..|s|] == s;
    if Minified(s, 0).Some? {
      var scraps := ScrapsOf(s, 0);
      ScrapsRead(scraps, s, 0);
    }
    forall scraps: seq<Scrap> | Fit(scraps) && Spelling(scraps) == text ensures Minified(s, 0) == Some(Kept(scraps)) {
      ScrapsRead(scraps, s, 0);
    }
  }
}
