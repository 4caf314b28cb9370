/** What the string literals mean that are accepted, and which those are (RFC 8259, section 7;
    cJSON/cJSON.c:544-828). */
module JsonStrings {
  import opened Bytes
  import opened JsonParse
  import opened JsonRoundTrip
  import opened JsonText
  import opened Wrappers

  /** A hexadecimal digit for a number, in either case. */
  predicate IsHex(b: Byte, n: nat) {
    n < 16 && if n < 10 then b == 48 + n else b == 55 + n || b == 87 + n
  }

  predicate IsHex4(t: Text, n: nat) {
    && |t| == 4 && n < 0x10000
    && IsHex(t[0], n / 4096) && IsHex(t[1], n / 256 % 16) && IsHex(t[2], n / 16 % 16) && IsHex(t[3], n % 16)
  }

  predicate HexByte(b: Byte) { 48 <= b <= 57 || 65 <= b <= 70 || 97 <= b <= 102 }

  /** One character of a string literal, as it can be written. `Wrong` are four characters behind \u that are not
      four digits: the code takes them for a NUL. It may then find the last backslash on its own, and takes that
      and the closing quote for an escaped quote. */
  datatype Piece =
    | Itself(b: Byte)
    | Short(letter: Byte)
    | Unit(code: nat, digits: Text)
    | Pair(code: nat, high: Text, low: Text)
    | Wrong(digits: Text)
    | Dangling
  {
    predicate Valid() {
      match this
      case Itself(b) => b != 0 && b != 92
      case Short(letter) => letter in {34, 47, 92, 98, 102, 110, 114, 116}
      case Unit(code, digits) => (code < 0xD800 || 0xE000 <= code) && IsHex4(digits, code)
      case Pair(code, high, low) =>
        && 0x10000 <= code < 0x110000
        && IsHex4(high, 0xD800 + (code - 0x10000) / 1024) && IsHex4(low, 0xDC00 + code % 1024)
      case Wrong(t) => |t| == 4 && !(HexByte(t[0]) && HexByte(t[1]) && HexByte(t[2]) && HexByte(t[3]))
      case Dangling => true
    }

    function Written(): Text {
      match this
      case Itself(b) => [b]
      case Short(letter) => [92, letter]
      case Unit(_, digits) => [92, 117] + digits
      case Pair(_, high, low) => [92, 117] + high + ([92, 117] + low)
      case Wrong(digits) => [92, 117] + digits
      case Dangling => [92]
    }

    function Meant(): Text
      requires Valid()
    {
      match this
      case Itself(b) => [b]
      case Short(letter) =>
        [if letter == 98 then 8 else if letter == 102 then 12 else if letter == 110 then 10
         else if letter == 114 then 13 else if letter == 116 then 9 else letter]
      case Unit(code, _) => Utf8(code)
      case Pair(code, _, _) => Utf8(code)
      case Wrong(_) => [0]
      case Dangling => [34]
    }
  }

  function Written(pieces: seq<Piece>): Text {
    if |pieces| == 0 then [] else pieces[0].Written() + Written(pieces[1..])
  }

  function Meant(pieces: seq<Piece>): Text
    requires forall p <- pieces :: p.Valid()
  {
    if |pieces| == 0 then [] else pieces[0].Meant() + Meant(pieces[1..])
  }

  /** No quote but behind a backslash, and no backslash but with something behind it. */
  predicate Closed(t: Text)
    decreases |t|
  {
    |t| == 0 || (t[0] != 34 && if t[0] == 92 then 2 <= |t| && Closed(t[2..]) else Closed(t[1..]))
  }

  // A backslash on its own can only be the last piece.
  predicate InOrder(pieces: seq<Piece>) {
    && (forall p <- pieces :: p.Valid())
    && (forall i | 0 <= i < |pieces| - 1 :: !pieces[i].Dangling?)
  }

  /** What can stand between the two quotes of a literal. */
  predicate Good(pieces: seq<Piece>) { InOrder(pieces) && Closed(Written(pieces)) }

  // ---------------------------------------------------------------------------------------------

  // The first pass finds the quote behind what is closed, and only there.
  lemma {:induction false} ClosedMeasured(t: Text, s: Text, at: nat)
    requires Closed(t) && At(s, at, t + [34])
    ensures Measure(s, at).Some? && Measure(s, at).value.end == at + |t|
    decreases |t|
  {
    AtChar(s, at, t + [34], 0);
    if |t| > 0 {
      var n := if t[0] == 92 then 2 else 1;
      assert t + [34] == t[..n] + (t[n..] + [34]);
      AtSplit(s, at, t[..n], t[n..] + [34]);
      hide At;
      ClosedMeasured(t[n..], s, at + n);
    }
  }

  lemma {:induction false} MeasuredClosed(s: Text, at: nat)
    requires Measure(s, at).Some?
    ensures Closed(s[at..Measure(s, at).value.end])
    decreases |s| - at
  {
    var end := Measure(s, at).value.end;
    if at < end {
      var n := if s[at] == 92 then 2 else 1;
      MeasuredClosed(s, at + n);
      assert s[at..end][n..] == s[at + n..end];
    }
  }

  lemma Hex4Is(t: Text, n: nat, s: Text, at: nat)
    requires IsHex4(t, n) && At(s, at, t)
    ensures at + 4 <= |s| && Hex4(s, at) == n
  {
    AtChar(s, at, t, 0);
    AtChar(s, at, t, 1);
    AtChar(s, at, t, 2);
    AtChar(s, at, t, 3);
    Digits4(n);
  }

  lemma Digits4(n: nat)
    ensures ((n / 4096 * 16 + n / 256 % 16) * 16 + n / 16 % 16) * 16 + n % 16 == n
  {
    var a, b, c := n / 16, n / 256, n / 4096;
    assert n == 16 * a + n % 16 && a == 16 * b + a % 16 && b == 16 * c + b % 16;
  }

  // The second pass turns a piece into what it means.
  lemma PieceRead(p: Piece, s: Text, at: nat, end: nat, rest: Text)
    requires p.Valid() && !p.Dangling? && At(s, at, p.Written()) && at + |p.Written()| <= end < |s|
    requires Decode(s, at + |p.Written()|, end) == Some(rest)
    ensures Decode(s, at, end) == Some(p.Meant() + rest)
  {
    hide At, Hex4;
    AtChar(s, at, p.Written(), 0);
    match p
    case Itself(b) =>
    case Short(letter) => AtChar(s, at, p.Written(), 1);
    case Unit(code, digits) => UnitRead(code, digits, s, at, end, rest);
    case Pair(code, high, low) => PairRead(code, high, low, s, at, end, rest);
    case Wrong(digits) => WrongRead(digits, s, at, end, rest);
  }

  lemma UnitRead(code: nat, digits: Text, s: Text, at: nat, end: nat, rest: Text)
    requires Unit(code, digits).Valid() && At(s, at, [92, 117] + digits) && at + 6 <= end < |s|
    requires Decode(s, at + 6, end) == Some(rest)
    ensures Decode(s, at, end) == Some(Utf8(code) + rest)
  {
    hide At, Hex4, IsHex4;
    AtSplit(s, at, [92, 117], digits);
    AtChar(s, at, [92, 117], 0);
    AtChar(s, at, [92, 117], 1);
    Hex4Is(digits, code, s, at + 2);
  }

  lemma WrongRead(digits: Text, s: Text, at: nat, end: nat, rest: Text)
    requires Wrong(digits).Valid() && At(s, at, [92, 117] + digits) && at + 6 <= end < |s|
    requires Decode(s, at + 6, end) == Some(rest)
    ensures Decode(s, at, end) == Some([0] + rest)
  {
    hide At;
    var t := [92, 117] + digits;
    AtChar(s, at, t, 0);
    AtChar(s, at, t, 1);
    AtChar(s, at, t, 2);
    AtChar(s, at, t, 3);
    AtChar(s, at, t, 4);
    AtChar(s, at, t, 5);
    assert Hex4(s, at + 2) == 0;
    assert Utf16(s, at, end) == Some(Literal(0, 6));
    DecodeLiteral(s, at, end);
    OnlyNul();
  }

  lemma OnlyNul()
    ensures Utf8(0) == [0]
  {
  }

  lemma PairRead(code: nat, high: Text, low: Text, s: Text, at: nat, end: nat, rest: Text)
    requires Pair(code, high, low).Valid() && At(s, at, [92, 117] + high + ([92, 117] + low)) && at + 12 <= end < |s|
    requires Decode(s, at + 12, end) == Some(rest)
    ensures Decode(s, at, end) == Some(Utf8(code) + rest)
  {
    hide At, Hex4, Decode;
    AtSplit(s, at, [92, 117] + high, [92, 117] + low);
    AtSplit(s, at, [92, 117], high);
    AtSplit(s, at + 6, [92, 117], low);
    AtChar(s, at, [92, 117], 0);
    AtChar(s, at, [92, 117], 1);
    AtChar(s, at + 6, [92, 117], 0);
    AtChar(s, at + 6, [92, 117], 1);
    Hex4Is(high, 0xD800 + (code - 0x10000) / 1024, s, at + 2);
    Hex4Is(low, 0xDC00 + code % 1024, s, at + 8);
    assert Utf16(s, at, end) == Some(Literal(code, 12));
    DecodeLiteral(s, at, end);
  }

  lemma DecodeLiteral(s: Text, at: nat, end: nat)
    requires at + 1 < end < |s| && s[at] == 92 && s[at + 1] == 117 && Utf16(s, at, end).Some?
    ensures var u := Utf16(s, at, end).value;
            Decode(s, at + u.length, end).Some? ==>
              Decode(s, at, end) == Some(Utf8(u.code) + Decode(s, at + u.length, end).value)
  {
    hide Utf16, Utf8;
  }

  lemma {:induction false} PiecesRead(pieces: seq<Piece>, s: Text, at: nat, end: nat)
    requires InOrder(pieces) && At(s, at, Written(pieces)) && at + |Written(pieces)| == end < |s| && s[end] == 34
    ensures Decode(s, at, end) == Some(Meant(pieces))
    decreases |pieces|
  {
    hide At, Decode, Piece.Written, Piece.Meant, Piece.Valid;
    if |pieces| == 0 {
      NothingLeft(s, at);
    } else {
      var p, rest := pieces[0], pieces[1..];
      AtSplit(s, at, p.Written(), Written(rest));
      if p.Dangling? {
        assert pieces == [p] && rest == [];
        OnlyDangling();
        DanglingRead(s, at);
      } else {
        PiecesRead(rest, s, at + |p.Written()|, end);
        PieceRead(p, s, at, end, Meant(rest));
      }
    }
  }

  lemma OnlyDangling()
    ensures Dangling.Written() == Written([Dangling]) == [92] && Written([]) == []
  {
  }

  lemma DanglingRead(s: Text, at: nat)
    requires At(s, at, Dangling.Written()) && at + 1 < |s| && s[at + 1] == 34
    ensures Dangling.Written() == [92] && Decode(s, at, at + 1) == Some(Dangling.Meant() + [])
  {
    AtChar(s, at, [92], 0);
  }

  /** A string literal, however its characters are written, is read as the characters it means, up to the first
      NUL among them, because the code keeps it as a C string; and reading ends right behind its quote. */
  lemma LiteralMeaning(pieces: seq<Piece>, s: Text, at: nat)
    requires CString(s) && Good(pieces) && At(s, at, [34] + (Written(pieces) + [34]))
    ensures at < |s| && ParseString(s, at) == Some(Parsed(UpToNul(Meant(pieces)), at + |Written(pieces)| + 2))
    ensures (forall p <- pieces :: !p.Wrong? && (p.Unit? ==> p.code != 0)) ==> UpToNul(Meant(pieces)) == Meant(pieces)
  {
    hide At, Measure, Decode, Meant, Written, UpToNul, Piece.Valid, Closed;
    AtSplit(s, at, [34], Written(pieces) + [34]);
    AtChar(s, at, [34], 0);
    ClosedMeasured(Written(pieces), s, at + 1);
    AtSplit(s, at + 1, Written(pieces), [34]);
    AtChar(s, at + 1 + |Written(pieces)|, [34], 0);
    PiecesRead(pieces, s, at + 1, at + 1 + |Written(pieces)|);
    if forall p <- pieces :: !p.Wrong? && (p.Unit? ==> p.code != 0) {
      MeantNulFree(pieces);
      UpToNulWhole(Meant(pieces));
    }
  }

  lemma {:induction false} MeantNulFree(pieces: seq<Piece>)
    requires forall p <- pieces :: p.Valid() && !p.Wrong? && (p.Unit? ==> p.code != 0)
    ensures NulFree(Meant(pieces))
  {
    if |pieces| > 0 {
      MeantNulFree(pieces[1..]);
      PieceNulFree(pieces[0]);
      hide Piece.Meant, Piece.Valid;
      NulFreeBoth(pieces[0].Meant(), Meant(pieces[1..]));
    }
  }

  lemma PieceNulFree(p: Piece)
    requires p.Valid() && !p.Wrong? && (p.Unit? ==> p.code != 0)
    ensures NulFree(p.Meant())
  {
    hide IsHex4;
  }

  // ---------------------------------------------------------------------------------------------
  // And the other way round

  lemma DigitsAre(s: Text, i: nat)
    requires i + 4 <= |s| && HexByte(s[i]) && HexByte(s[i + 1]) && HexByte(s[i + 2]) && HexByte(s[i + 3])
    ensures IsHex4(s[i..i + 4], Hex4(s, i))
  {
    var a, b, c, d := DigitIs(s[i]), DigitIs(s[i + 1]), DigitIs(s[i + 2]), DigitIs(s[i + 3]);
    Joined(a, b, c, d);
    hide HexValue;
  }

  lemma NoDigits(s: Text, i: nat)
    requires i + 4 <= |s| && !(HexByte(s[i]) && HexByte(s[i + 1]) && HexByte(s[i + 2]) && HexByte(s[i + 3]))
    ensures Wrong(s[i..i + 4]).Valid() && Hex4(s, i) == 0
  {
  }

  lemma Joined(a: nat, b: nat, c: nat, d: nat)
    requires a < 16 && b < 16 && c < 16 && d < 16
    ensures var n := ((a * 16 + b) * 16 + c) * 16 + d;
            n / 4096 == a && n / 256 % 16 == b && n / 16 % 16 == c && n % 16 == d
  {
    var n := ((a * 16 + b) * 16 + c) * 16 + d;
    assert n / 16 == (a * 16 + b) * 16 + c;
    assert n / 256 == a * 16 + b;
  }

  function DigitIs(b: Byte): (n: nat)
    requires HexByte(b)
    ensures IsHex(b, n) && HexValue(b) == Some(n)
  {
    if b <= 57 then b - 48 else if b <= 70 then b - 55 else b - 87
  }

  // One piece off the front of what is left of a literal.
  lemma FirstPiece(s: Text, i: nat, end: nat) returns (p: Piece)
    requires CString(s) && i < end < |s| - 1 && s[end] == 34 && Decode(s, i, end).Some?
    ensures p.Valid() && Step(p, s, i, end)
  {
    hide *;
    if s[i] != 92 {
      p := Itself(s[i]);
      PlainStep(s, i, end);
    } else if i + 1 == end {
      p := Dangling;
      DanglingStep(s, i);
    } else if s[i + 1] != 117 {
      p := Short(s[i + 1]);
      ShortStep(s, i, end);
    } else {
      p := FirstCode(s, i, end);
    }
  }

  // What follows a piece, and what it adds to the literal.
  ghost predicate Step(p: Piece, s: Text, i: nat, end: nat)
    requires p.Valid() && end < |s|
  {
    var j := i + |p.Written()|;
    && At(s, i, p.Written()) && i < j <= end && (p.Dangling? ==> j == end)
    && Decode(s, j, end).Some? && Decode(s, i, end) == Some(p.Meant() + Decode(s, j, end).value)
  }

  lemma PlainStep(s: Text, i: nat, end: nat)
    requires CString(s) && i < end < |s| - 1 && s[i] != 92 && Decode(s, i, end).Some?
    ensures Itself(s[i]).Valid() && Step(Itself(s[i]), s, i, end)
  {
    hide Utf16, Utf8, IsHex4;
    assert s[i..i + 1] == [s[i]];
  }

  lemma DanglingStep(s: Text, i: nat)
    requires i + 1 < |s| && s[i] == 92 && s[i + 1] == 34
    ensures Dangling.Valid() && Step(Dangling, s, i, i + 1)
  {
    assert s[i..i + 1] == [92];
    DanglingRead(s, i);
  }

  lemma ShortStep(s: Text, i: nat, end: nat)
    requires i + 1 < end < |s| && s[i] == 92 && s[i + 1] != 117 && Decode(s, i, end).Some?
    ensures Short(s[i + 1]).Valid() && Step(Short(s[i + 1]), s, i, end)
  {
    hide Utf16, Utf8, IsHex4;
    assert s[i..i + 2] == [92, s[i + 1]];
  }

  lemma FirstCode(s: Text, i: nat, end: nat) returns (p: Piece)
    requires i + 1 < end < |s| && s[i] == 92 && s[i + 1] == 117 && Decode(s, i, end).Some?
    ensures p.Valid() && Step(p, s, i, end)
  {
    hide *;
    CodeRead(s, i, end);
    Utf16Parts(s, i, end);
    if Utf16(s, i, end).value.length == 6 { p := FirstUnit(s, i, end); } else { p := FirstPair(s, i, end); }
  }

  lemma FirstUnit(s: Text, i: nat, end: nat) returns (p: Piece)
    requires i + 1 < end < |s| && s[i] == 92 && s[i + 1] == 117 && Decode(s, i, end).Some?
    requires Utf16(s, i, end).Some? && Utf16(s, i, end).value.length == 6
    ensures p.Valid() && Step(p, s, i, end)
  {
    hide Decode, Utf16, Utf8, Hex4, IsHex4, At;
    CodeRead(s, i, end);
    Utf16Parts(s, i, end);
    DecodeLiteral(s, i, end);
    CodeText(s, i);
    if HexByte(s[i + 2]) && HexByte(s[i + 3]) && HexByte(s[i + 4]) && HexByte(s[i + 5]) {
      DigitsAre(s, i + 2);
      p := Unit(Utf16(s, i, end).value.code, s[i + 2..i + 6]);
    } else {
      NoDigits(s, i + 2);
      OnlyNul();
      p := Wrong(s[i + 2..i + 6]);
    }
  }

  lemma FirstPair(s: Text, i: nat, end: nat) returns (p: Piece)
    requires i + 1 < end < |s| && s[i] == 92 && s[i + 1] == 117 && Decode(s, i, end).Some?
    requires Utf16(s, i, end).Some? && Utf16(s, i, end).value.length == 12
    ensures p.Valid() && Step(p, s, i, end)
  {
    hide Decode, Utf16, Utf8, Hex4, IsHex4, At;
    CodeRead(s, i, end);
    Utf16Parts(s, i, end);
    DecodeLiteral(s, i, end);
    NotZero(s, i + 2);
    NotZero(s, i + 8);
    CodeText(s, i);
    CodeText(s, i + 6);
    var code := Utf16(s, i, end).value.code;
    HalvesOf(Hex4(s, i + 2), Hex4(s, i + 8), code);
    AtJoined(s, i, [92, 117] + s[i + 2..i + 6], [92, 117] + s[i + 8..i + 12]);
    p := Pair(code, s[i + 2..i + 6], s[i + 8..i + 12]);
  }

  lemma NotZero(s: Text, i: nat)
    requires i + 4 <= |s| && Hex4(s, i) != 0
    ensures IsHex4(s[i..i + 4], Hex4(s, i))
  {
    hide Hex4, IsHex4, Piece.Valid;
    if HexByte(s[i]) && HexByte(s[i + 1]) && HexByte(s[i + 2]) && HexByte(s[i + 3]) {
      DigitsAre(s, i);
    } else {
      NoDigits(s, i);
    }
  }

  lemma CodeText(s: Text, i: nat)
    requires i + 6 <= |s| && s[i] == 92 && s[i + 1] == 117
    ensures At(s, i, [92, 117] + s[i + 2..i + 6])
  {
    assert s[i..i + 6] == [92, 117] + s[i + 2..i + 6];
  }

  lemma CodeRead(s: Text, i: nat, end: nat)
    requires i + 1 < end < |s| && s[i] == 92 && s[i + 1] == 117 && Decode(s, i, end).Some?
    ensures Utf16(s, i, end).Some? && Decode(s, i + Utf16(s, i, end).value.length, end).Some?
  {
    hide Utf16, Utf8;
  }

  lemma Utf16Parts(s: Text, i: nat, end: nat)
    requires i <= end <= |s| && Utf16(s, i, end).Some?
    ensures var u := Utf16(s, i, end).value;
            && i + u.length <= end
            && (u.length == 6 ==> u.code == Hex4(s, i + 2) && (u.code < 0xD800 || 0xE000 <= u.code))
            && (u.length != 6 ==>
                  && u.length == 12 && s[i + 6] == 92 && s[i + 7] == 117
                  && 0xD800 <= Hex4(s, i + 2) <= 0xDBFF && 0xDC00 <= Hex4(s, i + 8) <= 0xDFFF
                  && u.code == 0x10000 + (Hex4(s, i + 2) - 0xD800) * 0x400 + (Hex4(s, i + 8) - 0xDC00))
  {
    hide Hex4;
  }

  lemma HalvesOf(high: nat, low: nat, code: nat)
    requires 0xD800 <= high <= 0xDBFF && 0xDC00 <= low <= 0xDFFF
    requires code == 0x10000 + (high - 0xD800) * 0x400 + (low - 0xDC00)
    ensures 0x10000 <= code < 0x110000
    ensures high == 0xD800 + (code - 0x10000) / 1024 && low == 0xDC00 + code % 1024
  {
  }

  lemma {:induction false} PiecesOf(s: Text, i: nat, end: nat) returns (pieces: seq<Piece>)
    requires CString(s) && i <= end < |s| - 1 && s[end] == 34 && Decode(s, i, end).Some?
    ensures InOrder(pieces) && At(s, i, Written(pieces)) && |Written(pieces)| == end - i
    ensures Decode(s, i, end) == Some(Meant(pieces))
    decreases end - i
  {
    hide *;
    if i == end {
      pieces := [];
      NoPieces(s, i);
    } else {
      var p := FirstPiece(s, i, end);
      StepOn(p, s, i, end);
      var rest := PiecesOf(s, i + |p.Written()|, end);
      pieces := [p] + rest;
      Joins(p, rest, s, i, end);
    }
  }

  lemma NoPieces(s: Text, i: nat)
    requires i < |s| && s[i] == 34
    ensures InOrder([]) && Written([]) == [] && At(s, i, []) && Decode(s, i, i) == Some(Meant([]))
  {
  }

  lemma StepOn(p: Piece, s: Text, i: nat, end: nat)
    requires p.Valid() && end < |s| && Step(p, s, i, end)
    ensures i < i + |p.Written()| <= end && Decode(s, i + |p.Written()|, end).Some?
  {
    hide Decode, Piece.Valid, Piece.Written, Piece.Meant;
  }

  lemma Joins(p: Piece, rest: seq<Piece>, s: Text, i: nat, end: nat)
    requires p.Valid() && end < |s| && Step(p, s, i, end) && InOrder(rest)
    requires var j := i + |p.Written()|;
             && j <= end && At(s, j, Written(rest)) && |Written(rest)| == end - j
             && Decode(s, j, end) == Some(Meant(rest))
    ensures var pieces := [p] + rest;
            && InOrder(pieces) && At(s, i, Written(pieces)) && |Written(pieces)| == end - i
            && Decode(s, i, end) == Some(Meant(pieces))
  {
    hide At, Decode, Piece.Valid, Piece.Written, Piece.Meant;
    var pieces := [p] + rest;
    assert pieces[1..] == rest;
    if p.Dangling? { NothingWritten(rest); }
    AtJoined(s, i, p.Written(), Written(rest));
  }

  lemma NothingWritten(pieces: seq<Piece>)
    ensures Written(pieces) == [] ==> pieces == []
  {
  }

  lemma AtJoined(s: Text, at: nat, a: Text, b: Text)
    requires At(s, at, a) && At(s, at + |a|, b)
    ensures At(s, at, a + b)
  {
    Slices(s, at, at + |a|, at + |a| + |b|);
  }

  /** Every literal that is accepted is written that way. */
  lemma LiteralOf(s: Text, at: nat) returns (pieces: seq<Piece>)
    requires CString(s) && at < |s| && ParseString(s, at).Some?
    ensures Good(pieces) && At(s, at, [34] + (Written(pieces) + [34]))
    ensures ParseString(s, at) == Some(Parsed(UpToNul(Meant(pieces)), at + |Written(pieces)| + 2))
  {
    hide Measure, Decode, Written, Meant, Piece.Valid, UpToNul, Closed;
    var end := Measure(s, at + 1).value.end;
    NotTheLast(s, end);
    MeasuredClosed(s, at + 1);
    pieces := PiecesOf(s, at + 1, end);
    assert s[end..end + 1] == [34] && s[at..at + 1] == [34];
    AtJoined(s, at + 1, Written(pieces), [34]);
    AtJoined(s, at, [34], Written(pieces) + [34]);
  }

  lemma NotTheLast(s: Text, i: nat)
    requires CString(s) && i < |s| && s[i] == 34
    ensures i < |s| - 1
  {
  }

  /** So nothing is seen of a literal from a \u on that is not followed by four digits. */
  lemma BadDigits(front: seq<Piece>, digits: Text, back: seq<Piece>, s: Text, at: nat)
    requires CString(s) && Good(front + [Wrong(digits)] + back)
    requires At(s, at, [34] + (Written(front + [Wrong(digits)] + back) + [34]))
    ensures InOrder(front) && ParseString(s, at).Some? && ParseString(s, at).value.value == UpToNul(Meant(front))
  {
    hide At, ParseString, CString, Closed, Written, Piece.Valid, UpToNul, Meant;
    var pieces := front + [Wrong(digits)] + back;
    LiteralMeaning(pieces, s, at);
    forall p | p in front ensures p.Valid() { assert p in pieces; }
    forall p | p in back ensures p.Valid() { assert p in pieces; }
    assert forall i | 0 <= i < |front| :: front[i] == pieces[i];
    MeantUpTo(front, digits, back);
  }

  lemma {:induction false} MeantUpTo(front: seq<Piece>, digits: Text, back: seq<Piece>)
    requires (forall p <- front :: p.Valid()) && Wrong(digits).Valid() && forall p <- back :: p.Valid()
    ensures forall p <- front + [Wrong(digits)] + back :: p.Valid()
    ensures UpToNul(Meant(front + [Wrong(digits)] + back)) == UpToNul(Meant(front))
    decreases |front|
  {
    hide UpToNul, Piece.Valid, Piece.Meant;
    var pieces := front + [Wrong(digits)] + back;
    if |front| == 0 {
      assert pieces[0] == Wrong(digits) && pieces[1..] == back;
      OnlyTheNul(digits, Meant(back));
    } else {
      assert pieces[0] == front[0] && pieces[1..] == front[1..] + [Wrong(digits)] + back;
      MeantUpTo(front[1..], digits, back);
      UpToNulBehind(front[0].Meant(), Meant(pieces[1..]), Meant(front[1..]));
    }
  }

  lemma OnlyTheNul(digits: Text, rest: Text)
    requires Wrong(digits).Valid()
    ensures UpToNul(Wrong(digits).Meant() + rest) == UpToNul([]) == []
  {
  }

  lemma {:induction false} UpToNulBehind(t: Text, a: Text, b: Text)
    requires UpToNul(a) == UpToNul(b)
    ensures UpToNul(t + a) == UpToNul(t + b)
  {
    if |t| == 0 {
      assert t + a == a && t + b == b;
    } else {
      UpToNulBehind(t[1..], a, b);
      assert (t + a)[1..] == t[1..] + a && (t + b)[1..] == t[1..] + b;
    }
  }
}
