/** Exactly which texts cJSON_ParseWithOpts accepts, and as what (cJSON/cJSON.c:983-1081, 1216-1268, 1345-1436,
    1501-1607): a grammar in the manner of RFC 8259, more lenient in its white space, numbers and wrong \u, and nothing
    besides. The bytes are given in numbers. */
module JsonGrammar {
  import opened Bytes
  import opened JsonParse
  import opened JsonRoundTrip
  import opened JsonStrings
  import opened JsonText
  import opened Wrappers

  // ---------------------------------------------------------------------------------------------
  // The grammar

  /** A value as it is written. */
  datatype Tree =
    | Word(value: Json)
    | Figure(text: Text)
    | Quoted(pieces: seq<Piece>)
    | List(gap: Text, slots: seq<Slot>)
    | Dict(gap: Text, fields: seq<Field>)

  // Gaps are white space: behind a value, and behind the comma that follows it if it is not the last.
  datatype Slot = Slot(tree: Tree, behind: Text, next: Text)

  // A field also has gaps in front of its colon and behind it.
  datatype Field = Field(name: seq<Piece>, front: Text, back: Text, tree: Tree, behind: Text, next: Text)

  function Literal(pieces: seq<Piece>): Text { [34] + (Written(pieces) + [34]) }

  function Spelling(tree: Tree): Text
    decreases tree
  {
    match tree
    case Word(value) =>
      if value == Null then [110, 117, 108, 108]
      else if value == False then [102, 97, 108, 115, 101]
      else [116, 114, 117, 101]
    case Figure(text) => text
    case Quoted(pieces) => Literal(pieces)
    case List(gap, slots) => [91] + (gap + (SlotsSpelling(slots) + [93]))
    case Dict(gap, fields) => [123] + (gap + (FieldsSpelling(fields) + [125]))
  }

  function SlotsSpelling(slots: seq<Slot>): Text
    decreases slots
  {
    if |slots| == 0 then []
    else Spelling(slots[0].tree) + (slots[0].behind + (Comma(slots[0].next, |slots| > 1) + SlotsSpelling(slots[1..])))
  }

  function Comma(next: Text, more: bool): Text { if more then [44] + next else [] }

  function FieldsSpelling(fields: seq<Field>): Text
    decreases fields
  {
    if |fields| == 0 then []
    else
      var f := fields[0];
      Literal(f.name) + (f.front + ([58] + (f.back + (Spelling(f.tree) +
        (f.behind + (Comma(f.next, |fields| > 1) + FieldsSpelling(fields[1..])))))))
  }

  predicate IsGap(t: Text) { forall b <- t :: b <= 32 }

  /** Numbers have at most 63 characters and are what strtod takes them for, as a whole. */
  predicate Proper(tree: Tree)
    decreases tree
  {
    match tree
    case Word(value) => value.Null? || value.False? || value.True?
    case Figure(text) =>
      && 0 < |text| <= 63 && (text[0] == 45 || 48 <= text[0] <= 57)
      && (forall b <- text :: 48 <= b <= 57 || b in {43, 45, 46, 69, 101})
      && Decimal(text).Numeral? && Decimal(text).length == |text|
    case Quoted(pieces) => Good(pieces)
    case List(gap, slots) => IsGap(gap) && SlotsProper(slots)
    case Dict(gap, fields) => IsGap(gap) && FieldsProper(fields)
  }

  predicate SlotsProper(slots: seq<Slot>)
    decreases slots
  {
    |slots| == 0 ||
    (Proper(slots[0].tree) && IsGap(slots[0].behind) && IsGap(slots[0].next) && SlotsProper(slots[1..]))
  }

  predicate FieldsProper(fields: seq<Field>)
    decreases fields
  {
    |fields| == 0 ||
    (Proper(fields[0].tree) && Good(fields[0].name) && IsGap(fields[0].front) &&
     IsGap(fields[0].back) && IsGap(fields[0].behind) && IsGap(fields[0].next) && FieldsProper(fields[1..]))
  }

  function Value(tree: Tree): Json
    requires Proper(tree)
    decreases tree
  {
    match tree
    case Word(value) => value
    case Figure(text) => Number(Decimal(text).value)
    case Quoted(pieces) => String(UpToNul(Meant(pieces)))
    case List(_, slots) => Array(SlotValues(slots))
    case Dict(_, fields) => Object(FieldValues(fields))
  }

  function SlotValues(slots: seq<Slot>): seq<Json>
    requires SlotsProper(slots)
    decreases slots
  {
    if |slots| == 0 then [] else [Value(slots[0].tree)] + SlotValues(slots[1..])
  }

  function FieldValues(fields: seq<Field>): seq<Member>
    requires FieldsProper(fields)
    decreases fields
  {
    if |fields| == 0 then []
    else [Member(UpToNul(Meant(fields[0].name)), Value(fields[0].tree))] + FieldValues(fields[1..])
  }

  // ---------------------------------------------------------------------------------------------
  // What is written like that is read as that

  lemma SpellingStarts(tree: Tree)
    requires Proper(tree)
    ensures Spelling(tree) != [] && 32 < Spelling(tree)[0] < 125 && Spelling(tree)[0] !in {44, 93}
  {
    hide Decimal;
  }

  lemma SkipGap(s: Text, at: nat, gap: Text)
    requires At(s, at, gap) && at + |gap| < |s| && s[at + |gap|] > 32 && IsGap(gap)
    ensures SkipSpace(s, at) == at + |gap|
  {
    forall i | at <= i < at + |gap| ensures s[i] <= 32 {
      AtChar(s, at, gap, i - at);
      assert gap[i - at] in gap;
    }
    SkipBlank(s, at, |gap|);
  }

  // Behind a gap stands what stands behind it, and in the gap nothing that goes on like a number.
  lemma NoFigureGoesOn(s: Text, at: nat, gap: Text)
    requires At(s, at, gap) && at + |gap| < |s| && !NumberChar(s[at + |gap|]) && IsGap(gap)
    ensures !NumberChar(s[at])
  {
    if gap != [] {
      AtChar(s, at, gap, 0);
      assert gap[0] in gap;
    }
  }

  lemma {:induction false} TreeRead(tree: Tree, s: Text, at: nat, depth: nat)
    requires CString(s) && Proper(tree) && depth + Height(Value(tree)) <= 1000 && At(s, at, Spelling(tree))
    requires at + |Spelling(tree)| < |s| && !NumberChar(s[at + |Spelling(tree)|])
    ensures ParseValue(s, at, depth) == Some(Parsed(Value(tree), at + |Spelling(tree)|))
    decreases tree, 0
  {
    hide At, ParseValue, ParseString, ParseNumber, ParseArray, ParseObject, CString, SlotsSpelling, FieldsSpelling,
         SlotsProper, FieldsProper, SlotValues, FieldValues, ItemsHeight, MembersHeight, NumberChar, Decimal, Written,
         Meant, UpToNul;
    match tree
    case Word(value) => LiteralUndone(value, s, at, depth, Spelling(tree));
    case Figure(text) =>
      FigureRead(text, s, at);
      Dispatch(s, at, depth);
    case Quoted(pieces) =>
      LiteralMeaning(pieces, s, at);
      QuoteAt(pieces, s, at);
      Dispatch(s, at, depth);
    case List(gap, slots) =>
      ListRead(gap, slots, s, at, depth);
      Dispatch(s, at, depth);
    case Dict(gap, fields) =>
      DictRead(gap, fields, s, at, depth);
      Dispatch(s, at, depth);
  }

  lemma QuoteAt(pieces: seq<Piece>, s: Text, at: nat)
    requires At(s, at, Literal(pieces))
    ensures at < |s| && s[at] == 34
  {
    AtChar(s, at, Literal(pieces), 0);
  }

  lemma FigureRead(text: Text, s: Text, at: nat)
    requires CString(s) && Proper(Figure(text)) && At(s, at, text)
    requires at + |text| < |s| && !NumberChar(s[at + |text|])
    ensures ParseNumber(s, at) == Some(Parsed(Number(Decimal(text).value), at + |text|))
    ensures s[at] == MINUS || Digit(s[at])
  {
    hide Decimal;
    forall i | at <= i < at + |text| ensures NumberChar(s[i]) {
      AtChar(s, at, text, i - at);
      assert text[i - at] in text;
    }
    RunIs(s, at, |text|);
    AtChar(s, at, text, 0);
  }

  lemma {:induction false} ListRead(gap: Text, slots: seq<Slot>, s: Text, at: nat, depth: nat)
    requires CString(s) && IsGap(gap) && SlotsProper(slots) && depth + 1 + ItemsHeight(SlotValues(slots)) <= 1000
    requires At(s, at, [91] + (gap + (SlotsSpelling(slots) + [93])))
    ensures ParseArray(s, at, depth) == Some(Parsed(Array(SlotValues(slots)), at + 2 + |gap| + |SlotsSpelling(slots)|))
    ensures at < |s| && s[at] == 91
    decreases slots, 1
  {
    hide At, CString, ParseItems, SkipSpace, SlotsSpelling, SlotsProper, SlotValues, ItemsHeight;
    var rest := SlotsSpelling(slots) + [93];
    AtSplit(s, at, [91], gap + rest);
    AtChar(s, at, [91], 0);
    AtSplit(s, at + 1, gap, rest);
    SlotsStart(slots);
    AtChar(s, at + 1 + |gap|, rest, 0);
    SkipGap(s, at + 1, gap);
    if |slots| > 0 { SlotsRead(slots, s, at + 1 + |gap|, depth + 1); }
  }

  lemma SlotsStart(slots: seq<Slot>)
    requires SlotsProper(slots)
    ensures var t := SlotsSpelling(slots) + [93]; t[0] > 32 && (t[0] == 93 <==> slots == [])
    ensures slots == [] ==> SlotsSpelling(slots) == [] && SlotValues(slots) == []
  {
    if |slots| > 0 { SpellingStarts(slots[0].tree); }
  }

  lemma {:induction false} SlotsRead(slots: seq<Slot>, s: Text, at: nat, depth: nat)
    requires CString(s) && |slots| > 0 && SlotsProper(slots) && depth + ItemsHeight(SlotValues(slots)) <= 1000
    requires At(s, at, SlotsSpelling(slots) + [93])
    ensures ParseItems(s, at, depth) == Some(Parsed(SlotValues(slots), at + |SlotsSpelling(slots)| + 1))
    decreases slots, 0
  {
    hide *;
    SlotFacts(slots, depth);
    SlotsStart(slots[1..]);
    SlotSplit(slots, s, at);
    var x, more := slots[0], |slots| > 1;
    var end := SlotRead(x, more, SlotsSpelling(slots[1..]) + [93], s, at, depth);
    NoComma(x.next, more);
    if more { SlotsRead(slots[1..], s, end + |Comma(x.next, more)|, depth); } else { assert slots[1..] == []; }
  }

  lemma {:induction false} SlotFacts(slots: seq<Slot>, depth: nat)
    requires |slots| > 0 && SlotsProper(slots) && depth + ItemsHeight(SlotValues(slots)) <= 1000
    ensures var x := slots[0];
            && Proper(x.tree) && IsGap(x.behind) && IsGap(x.next) && SlotsProper(slots[1..])
            && depth + Height(Value(x.tree)) <= 1000 && depth + ItemsHeight(SlotValues(slots[1..])) <= 1000
            && SlotValues(slots) == [Value(x.tree)] + SlotValues(slots[1..])
            && (|slots| == 1 ==> SlotValues(slots) == [Value(x.tree)])
  {
    hide Height, IsGap;
    assert SlotValues(slots)[1..] == SlotValues(slots[1..]);
  }

  // A value, the gap behind it, and what follows stand here.
  ghost predicate SlotText(x: Slot, more: bool, rest: Text, s: Text, at: nat) {
    At(s, at, Spelling(x.tree) + (x.behind + (Comma(x.next, more) + rest)))
  }

  lemma SlotSplit(slots: seq<Slot>, s: Text, at: nat)
    requires |slots| > 0 && At(s, at, SlotsSpelling(slots) + [93])
    ensures var x, more := slots[0], |slots| > 1;
            && SlotText(x, more, SlotsSpelling(slots[1..]) + [93], s, at)
            && |SlotsSpelling(slots)| ==
               |Spelling(x.tree)| + |x.behind| + |Comma(x.next, more)| + |SlotsSpelling(slots[1..])|
  {
    hide At, Spelling;
    var x := slots[0];
    Assoc4(Spelling(x.tree), x.behind, Comma(x.next, |slots| > 1), SlotsSpelling(slots[1..]), [93]);
  }

  lemma {:induction false} SlotRead(x: Slot, more: bool, rest: Text, s: Text, at: nat, depth: nat) returns (end: nat)
    requires CString(s) && Proper(x.tree) && IsGap(x.behind) && IsGap(x.next) && depth + Height(Value(x.tree)) <= 1000
    requires rest != [] && rest[0] > 32 && (!more ==> rest[0] == 93) && SlotText(x, more, rest, s, at)
    ensures end == at + |Spelling(x.tree)| + |x.behind| && at < |s|
    ensures At(s, end + |Comma(x.next, more)|, rest) && end + |Comma(x.next, more)| < |s|
    ensures var v, next := Value(x.tree), end + |Comma(x.next, more)|;
            if !more then ParseItems(s, at, depth) == Some(Parsed([v], end + 1))
            else ParseItems(s, next, depth).Some? ==>
                   var others := ParseItems(s, next, depth).value;
                   ParseItems(s, at, depth) == Some(Parsed([v] + others.value, others.end))
    decreases x.tree, 2
  {
    hide At, CString, ParseItems, ParseValue, SkipSpace, Spelling, Proper, Value, Height, IsGap, Comma;
    CommaStarts(x.next, more, rest);
    end := ValueRead(x.tree, x.behind, Comma(x.next, more) + rest, s, at, depth);
    CommaAt(x.next, more, rest, s, end);
    AtChar(s, end + |Comma(x.next, more)|, rest, 0);
    ItemsStepped(s, at, depth);
    NoComma(x.next, more);
  }

  lemma CommaStarts(next: Text, more: bool, rest: Text)
    requires rest != []
    ensures Comma(next, more) + rest != []
    ensures (Comma(next, more) + rest)[0] == if more then 44 else rest[0]
  {
  }

  lemma NoComma(next: Text, more: bool)
    ensures |Comma(next, more)| == if more then 1 + |next| else 0
  {
  }

  // A value and the gap behind it.
  lemma {:induction false} ValueRead(tree: Tree, gap: Text, rest: Text, s: Text, at: nat, depth: nat) returns (end: nat)
    requires CString(s) && Proper(tree) && IsGap(gap) && depth + Height(Value(tree)) <= 1000
    requires rest != [] && rest[0] in {44, 93, 125} && At(s, at, Spelling(tree) + (gap + rest))
    ensures end == at + |Spelling(tree)| + |gap| < |s| && At(s, end, rest) && s[at] > 32
    ensures var p := ParseValue(s, at, depth);
            p.Some? && p.value.value == Value(tree) && SkipSpace(s, p.value.end) == end
    decreases tree, 1
  {
    hide At, CString, ParseValue, SkipSpace, Spelling, Proper, Value, Height, IsGap;
    AtSplit(s, at, Spelling(tree), gap + rest);
    SpellingStarts(tree);
    AtChar(s, at, Spelling(tree), 0);
    var behind := at + |Spelling(tree)|;
    AtSplit(s, behind, gap, rest);
    end := behind + |gap|;
    AtChar(s, end, rest, 0);
    NoFigureGoesOn(s, behind, gap);
    TreeRead(tree, s, at, depth);
    SkipGap(s, behind, gap);
  }

  // A comma, if there is one, and the gap behind it.
  lemma CommaAt(next: Text, more: bool, rest: Text, s: Text, at: nat)
    requires At(s, at, Comma(next, more) + rest) && IsGap(next) && rest != [] && rest[0] > 32
    ensures At(s, at + |Comma(next, more)|, rest) && at < |s|
    ensures if more then s[at] == 44 && SkipSpace(s, at + 1) == at + 1 + |next| else s[at] == rest[0]
  {
    hide At, SkipSpace, IsGap;
    var comma := Comma(next, more);
    AtSplit(s, at, comma, rest);
    AtChar(s, at + |comma|, rest, 0);
    if more {
      AtSplit(s, at, [44], next);
      AtChar(s, at, [44], 0);
      SkipGap(s, at + 1, next);
    }
  }

  lemma Assoc4(a: Text, b: Text, c: Text, d: Text, e: Text)
    ensures (a + (b + (c + d))) + e == a + (b + (c + (d + e)))
  {
    assert (b + (c + d)) + e == b + (c + (d + e));
  }

  // One round of the loop over the items.
  lemma ItemsStepped(s: Text, at: nat, depth: nat)
    requires CString(s) && at < |s| && ParseValue(s, at, depth).Some?
    ensures var p := ParseValue(s, at, depth).value;
            var i := SkipSpace(s, p.end);
            && (s[i] == 93 ==> ParseItems(s, at, depth) == Some(Parsed([p.value], i + 1)))
            && (s[i] == 44 && ParseItems(s, SkipSpace(s, i + 1), depth).Some? ==>
                  var rest := ParseItems(s, SkipSpace(s, i + 1), depth).value;
                  ParseItems(s, at, depth) == Some(Parsed([p.value] + rest.value, rest.end)))
  {
    hide ParseValue, SkipSpace;
  }

  lemma {:induction false} DictRead(gap: Text, fields: seq<Field>, s: Text, at: nat, depth: nat)
    requires CString(s) && IsGap(gap) && FieldsProper(fields) && depth + 1 + MembersHeight(FieldValues(fields)) <= 1000
    requires At(s, at, [123] + (gap + (FieldsSpelling(fields) + [125])))
    ensures ParseObject(s, at, depth) ==
            Some(Parsed(Object(FieldValues(fields)), at + 2 + |gap| + |FieldsSpelling(fields)|))
    ensures at < |s| && s[at] == 123
    decreases fields, 1
  {
    hide At, CString, ParseMembers, SkipSpace, FieldsSpelling, FieldsProper, FieldValues, MembersHeight;
    var rest := FieldsSpelling(fields) + [125];
    AtSplit(s, at, [123], gap + rest);
    AtChar(s, at, [123], 0);
    AtSplit(s, at + 1, gap, rest);
    FieldsStart(fields);
    AtChar(s, at + 1 + |gap|, rest, 0);
    SkipGap(s, at + 1, gap);
    if |fields| > 0 { FieldsRead(fields, s, at + 1 + |gap|, depth + 1); }
  }

  lemma FieldsStart(fields: seq<Field>)
    ensures var t := FieldsSpelling(fields) + [125]; t[0] > 32 && (t[0] == 125 <==> fields == [])
    ensures fields == [] ==> FieldsSpelling(fields) == [] && FieldsProper(fields) && FieldValues(fields) == []
  {
  }

  lemma {:induction false} FieldsRead(fields: seq<Field>, s: Text, at: nat, depth: nat)
    requires CString(s) && |fields| > 0 && FieldsProper(fields) && depth + MembersHeight(FieldValues(fields)) <= 1000
    requires At(s, at, FieldsSpelling(fields) + [125])
    ensures ParseMembers(s, at, depth) == Some(Parsed(FieldValues(fields), at + |FieldsSpelling(fields)| + 1))
    decreases fields, 0
  {
    hide *;
    FieldFacts(fields, depth);
    FieldsStart(fields[1..]);
    FieldSplit(fields, s, at);
    var x, more := fields[0], |fields| > 1;
    var end := FieldRead(x, more, FieldsSpelling(fields[1..]) + [125], s, at, depth);
    NoComma(x.next, more);
    if more { FieldsRead(fields[1..], s, end + |Comma(x.next, more)|, depth); } else { assert fields[1..] == []; }
  }

  function FieldLength(x: Field): nat {
    |Literal(x.name)| + |x.front| + 1 + |x.back| + |Spelling(x.tree)| + |x.behind|
  }

  // A field and what follows it stand here.
  ghost predicate FieldText(x: Field, more: bool, rest: Text, s: Text, at: nat) {
    At(s, at, Literal(x.name) +
              (x.front + ([58] + (x.back + (Spelling(x.tree) + (x.behind + (Comma(x.next, more) + rest)))))))
  }

  lemma FieldSplit(fields: seq<Field>, s: Text, at: nat)
    requires |fields| > 0 && At(s, at, FieldsSpelling(fields) + [125])
    ensures var x, more := fields[0], |fields| > 1;
            && FieldText(x, more, FieldsSpelling(fields[1..]) + [125], s, at)
            && |FieldsSpelling(fields)| == FieldLength(x) + |Comma(x.next, more)| + |FieldsSpelling(fields[1..])|
  {
    hide At, Spelling, Literal;
    var x := fields[0];
    Assoc8(Literal(x.name), x.front, [58], x.back, Spelling(x.tree), x.behind, Comma(x.next, |fields| > 1),
           FieldsSpelling(fields[1..]), [125]);
  }

  lemma {:induction false} FieldRead(x: Field, more: bool, rest: Text, s: Text, at: nat, depth: nat) returns (end: nat)
    requires CString(s) && Proper(x.tree) && Good(x.name) && IsGap(x.front) && IsGap(x.back)
    requires IsGap(x.behind) && IsGap(x.next) && depth + Height(Value(x.tree)) <= 1000
    requires rest != [] && rest[0] > 32 && (!more ==> rest[0] == 125) && FieldText(x, more, rest, s, at)
    ensures end == at + FieldLength(x) && at < |s|
    ensures At(s, end + |Comma(x.next, more)|, rest) && end + |Comma(x.next, more)| < |s|
    ensures var m, next := Member(UpToNul(Meant(x.name)), Value(x.tree)), end + |Comma(x.next, more)|;
            if !more then ParseMembers(s, at, depth) == Some(Parsed([m], end + 1))
            else ParseMembers(s, next, depth).Some? ==>
                   var others := ParseMembers(s, next, depth).value;
                   ParseMembers(s, at, depth) == Some(Parsed([m] + others.value, others.end))
    decreases x.tree, 2
  {
    hide At, CString, ParseMembers, ParseValue, ParseString, SkipSpace, Spelling, Proper, Value, Height, IsGap, Written,
         Meant, UpToNul, Literal, Piece.Valid, Comma;
    CommaStarts(x.next, more, rest);
    SpellingStarts(x.tree);
    var value := NameRead(x, Spelling(x.tree) + (x.behind + (Comma(x.next, more) + rest)), s, at);
    end := ValueRead(x.tree, x.behind, Comma(x.next, more) + rest, s, value, depth);
    CommaAt(x.next, more, rest, s, end);
    AtChar(s, end + |Comma(x.next, more)|, rest, 0);
    MembersStepped(s, at, depth);
    NoComma(x.next, more);
  }

  lemma {:induction false} FieldFacts(fields: seq<Field>, depth: nat)
    requires |fields| > 0 && FieldsProper(fields) && depth + MembersHeight(FieldValues(fields)) <= 1000
    ensures var x := fields[0];
            && Proper(x.tree) && Good(x.name) && IsGap(x.front) && IsGap(x.back)
            && IsGap(x.behind) && IsGap(x.next) && FieldsProper(fields[1..])
            && depth + Height(Value(x.tree)) <= 1000 && depth + MembersHeight(FieldValues(fields[1..])) <= 1000
            && FieldValues(fields) == [Member(UpToNul(Meant(x.name)), Value(x.tree))] + FieldValues(fields[1..])
    ensures |fields| == 1 ==> FieldValues(fields) == [Member(UpToNul(Meant(fields[0].name)), Value(fields[0].tree))]
  {
    hide UpToNul, Height, IsGap;
    var values := FieldValues(fields);
    assert values[1..] == FieldValues(fields[1..]);
  }

  // A name, its colon, and the gaps around that.
  lemma NameRead(x: Field, rest: Text, s: Text, at: nat) returns (value: nat)
    requires CString(s) && Good(x.name) && IsGap(x.front) && IsGap(x.back)
    requires rest != [] && rest[0] > 32 && At(s, at, Literal(x.name) + (x.front + ([58] + (x.back + rest))))
    ensures value == at + |Literal(x.name)| + |x.front| + 1 + |x.back| && At(s, value, rest)
    ensures at < |s| && ParseString(s, at).Some?
    ensures var key := ParseString(s, at).value; var colon := SkipSpace(s, key.end);
            && key.value == UpToNul(Meant(x.name)) && s[colon] == 58 && colon + 1 < |s|
            && SkipSpace(s, colon + 1) == value
  {
    hide *;
    AtSplit(s, at, Literal(x.name), x.front + ([58] + (x.back + rest)));
    LiteralRead(x.name, s, at);
    var colon := GapRead(x.front, [58] + (x.back + rest), s, at + |Literal(x.name)|);
    AtSplit(s, colon, [58], x.back + rest);
    AtChar(s, colon, [58], 0);
    value := GapRead(x.back, rest, s, colon + 1);
  }

  lemma GapRead(gap: Text, rest: Text, s: Text, at: nat) returns (i: nat)
    requires At(s, at, gap + rest) && IsGap(gap) && rest != [] && rest[0] > 32
    ensures i == at + |gap| < |s| && SkipSpace(s, at) == i && At(s, i, rest)
  {
    hide *;
    AtSplit(s, at, gap, rest);
    i := at + |gap|;
    AtChar(s, i, rest, 0);
    SkipGap(s, at, gap);
  }

  lemma LiteralRead(pieces: seq<Piece>, s: Text, at: nat)
    requires CString(s) && Good(pieces) && At(s, at, Literal(pieces))
    ensures at < |s| && ParseString(s, at) == Some(Parsed(UpToNul(Meant(pieces)), at + |Literal(pieces)|))
  {
    hide At, ParseString, CString, Good, Written, Meant, UpToNul;
    LiteralMeaning(pieces, s, at);
  }

  lemma Assoc8(a: Text, b: Text, c: Text, d: Text, e: Text, f: Text, g: Text, h: Text, i: Text)
    ensures (a + (b + (c + (d + (e + (f + (g + h))))))) + i == a + (b + (c + (d + (e + (f + (g + (h + i)))))))
  {
    Assoc4(e, f, g, h, i);
    Assoc4(b, c, d, e + (f + (g + h)), i);
    Assoc(a, b + (c + (d + (e + (f + (g + h))))), i);
  }

  // One round of the loop over the members.
  lemma MembersStepped(s: Text, at: nat, depth: nat)
    requires CString(s) && at < |s| && ParseString(s, at).Some?
    requires var colon := SkipSpace(s, ParseString(s, at).value.end);
             s[colon] == 58 && colon + 1 < |s| && ParseValue(s, SkipSpace(s, colon + 1), depth).Some?
    ensures var key := ParseString(s, at).value;
            var p := ParseValue(s, SkipSpace(s, SkipSpace(s, key.end) + 1), depth).value;
            var i, m := SkipSpace(s, p.end), Member(key.value, p.value);
            && (s[i] == 125 ==> ParseMembers(s, at, depth) == Some(Parsed([m], i + 1)))
            && (s[i] == 44 && ParseMembers(s, SkipSpace(s, i + 1), depth).Some? ==>
                  var rest := ParseMembers(s, SkipSpace(s, i + 1), depth).value;
                  ParseMembers(s, at, depth) == Some(Parsed([m] + rest.value, rest.end)))
  {
    hide ParseValue, ParseString, SkipSpace;
  }

  // ---------------------------------------------------------------------------------------------
  // And nothing else is read

  // What is skipped is a gap, with something else behind it.
  lemma GapOf(s: Text, at: nat) returns (gap: Text)
    requires CString(s) && at < |s|
    ensures IsGap(gap) && At(s, at, gap) && at + |gap| == SkipSpace(s, at) < |s|
    ensures !NumberChar(s[SkipSpace(s, at)]) ==> !NumberChar(s[at])
  {
    hide CString;
    var i := SkipSpace(s, at);
    SkippedBlank(s, at);
    gap := s[at..i];
    assert forall k | at <= k < i :: s[k] <= 32;
    NoFigureGoesOnIn(s, at);
  }

  lemma NoFigureGoesOnIn(s: Text, at: nat)
    requires at < |s|
    ensures !NumberChar(s[SkipSpace(s, at)]) ==> !NumberChar(s[at])
  {
  }

  lemma {:induction false} TreeOf(s: Text, at: nat, depth: nat) returns (tree: Tree)
    requires CString(s) && at < |s| && depth <= 1000 && ParseValue(s, at, depth).Some?
    requires !NumberChar(s[ParseValue(s, at, depth).value.end])
    ensures var p := ParseValue(s, at, depth).value;
            && Proper(tree) && Value(tree) == p.value && depth + Height(p.value) <= 1000
            && At(s, at, Spelling(tree)) && at + |Spelling(tree)| == p.end
    decreases |s| - at, 1, 0
  {
    hide At, ParseString, ParseNumber, ParseArray, ParseObject, CString, NumberChar, Decimal, Literal, UpToNul,
         Meant, Proper, Value, Spelling;
    WordsSpelled();
    if At(s, at, JsonText.NULL) {
      tree := WordOf(s, at, Null);
    } else if At(s, at, FALSE) {
      tree := WordOf(s, at, False);
    } else if At(s, at, TRUE) {
      tree := WordOf(s, at, True);
    } else if s[at] == QUOTE {
      tree := QuotedOf(s, at);
    } else if s[at] == MINUS || Digit(s[at]) {
      tree := FigureOf(s, at);
    } else if s[at] == OPEN_BRACKET {
      tree := ListOf(s, at, depth);
    } else {
      tree := DictOf(s, at, depth);
    }
  }

  lemma WordsSpelled()
    ensures Spelling(Word(Null)) == JsonText.NULL && Spelling(Word(False)) == FALSE && Spelling(Word(True)) == TRUE
  {
  }

  lemma WordOf(s: Text, at: nat, value: Json) returns (tree: Tree)
    requires value == Null || value == False || value == True
    requires At(s, at, Spelling(Word(value)))
    ensures tree == Word(value) && Proper(tree) && Value(tree) == value && Height(value) == 0
    ensures At(s, at, Spelling(tree))
  {
    tree := Word(value);
    var t := Spelling(tree);
    forall k | at <= k < at + |t| ensures s[k] != 34 { AtChar(s, at, t, k - at); }
    hide At;
  }

  lemma QuotedOf(s: Text, at: nat) returns (tree: Tree)
    requires CString(s) && at < |s| && ParseString(s, at).Some?
    ensures var p := ParseString(s, at).value;
            && Proper(tree) && Value(tree) == String(p.value) && Height(Value(tree)) == 0
            && At(s, at, Spelling(tree)) && at + |Spelling(tree)| == p.end
  {
    hide At, ParseString, CString, Meant, UpToNul, Written, Piece.Valid;
    var pieces := LiteralOf(s, at);
    tree := Quoted(pieces);
  }

  lemma FigureOf(s: Text, at: nat) returns (tree: Tree)
    requires CString(s) && at < |s| && ParseNumber(s, at).Some?
    requires s[at] == MINUS || Digit(s[at])
    requires !NumberChar(s[ParseNumber(s, at).value.end])
    ensures var p := ParseNumber(s, at).value;
            && Proper(tree) && Value(tree) == p.value && Height(p.value) == 0
            && At(s, at, Spelling(tree)) && at + |Spelling(tree)| == p.end
  {
    hide Decimal;
    var p := ParseNumber(s, at).value;
    var n := NumberRun(s, at);
    assert p.end == at + n <= at + 63;
    tree := Figure(s[at..at + n]);
  }

  lemma {:induction false} ListOf(s: Text, at: nat, depth: nat) returns (tree: Tree)
    requires CString(s) && at < |s| && ParseArray(s, at, depth).Some?
    ensures var p := ParseArray(s, at, depth).value;
            && Proper(tree) && Value(tree) == p.value && depth + Height(p.value) <= 1000
            && At(s, at, Spelling(tree)) && at + |Spelling(tree)| == p.end
    decreases |s| - at, 0
  {
    hide At, ParseItems, CString, SkipSpace, IsGap, SlotsSpelling, SlotsProper, SlotValues, ItemsHeight;
    NotLast(s, at);
    var gap := GapOf(s, at + 1);
    var i := SkipSpace(s, at + 1);
    var slots: seq<Slot> := [];
    SlotsNone();
    if s[i] == CLOSE_BRACKET {
      OneAt(s, i);
    } else {
      slots := SlotsOf(s, i, depth + 1);
    }
    tree := List(gap, slots);
    OneAt(s, at);
    AtJoined(s, at + 1, gap, SlotsSpelling(slots) + [93]);
    AtJoined(s, at, [91], gap + (SlotsSpelling(slots) + [93]));
  }

  lemma SlotsNone()
    ensures SlotsSpelling([]) == [] && SlotsProper([]) && SlotValues([]) == [] && ItemsHeight([]) == 0
    ensures SlotsSpelling([]) + [93] == [93] && IsGap([])
    ensures FieldsSpelling([]) == [] && FieldsProper([]) && FieldValues([]) == [] && MembersHeight([]) == 0
    ensures FieldsSpelling([]) + [125] == [125]
  {
  }

  lemma OneAt(s: Text, i: nat)
    requires i < |s|
    ensures At(s, i, [s[i]])
  {
  }

  lemma {:induction false} SlotsOf(s: Text, at: nat, depth: nat) returns (slots: seq<Slot>)
    requires CString(s) && at < |s| && depth <= 1000 && ParseItems(s, at, depth).Some?
    ensures var p := ParseItems(s, at, depth).value;
            && slots != [] && SlotsProper(slots) && SlotValues(slots) == p.value
            && depth + ItemsHeight(p.value) <= 1000 && At(s, at, SlotsSpelling(slots) + [93])
            && at + |SlotsSpelling(slots)| + 1 == p.end
    decreases |s| - at, 2
  {
    hide At, ParseItems, CString, IsGap, Proper, Value, Spelling, Height, SlotsSpelling, SlotsProper,
         SlotValues, ItemsHeight, Comma;
    var x, more := FirstSlot(s, at, depth);
    var comma := Comma(x.next, more);
    var j := at + |Spelling(x.tree)| + |x.behind| + |comma|;
    var rest: seq<Slot> := [];
    SlotsNone();
    if more { rest := SlotsOf(s, j, depth); }
    slots := [x] + rest;
    assert slots[1..] == rest;
    SlotsCons(slots, depth);
    AtJoined(s, j - |comma|, comma, SlotsSpelling(rest) + [93]);
    SlotJoined(x, comma + (SlotsSpelling(rest) + [93]), s, at);
  }

  // The first item, and whether a comma and others follow it.
  lemma {:induction false} FirstSlot(s: Text, at: nat, depth: nat) returns (x: Slot, more: bool)
    requires CString(s) && at < |s| && depth <= 1000 && ParseItems(s, at, depth).Some?
    ensures Proper(x.tree) && IsGap(x.behind) && IsGap(x.next) && depth + Height(Value(x.tree)) <= 1000
    ensures var behind := at + |Spelling(x.tree)|; var end := behind + |x.behind|; var j := end + |Comma(x.next, more)|;
            var p := ParseItems(s, at, depth).value;
            && At(s, at, Spelling(x.tree)) && At(s, behind, x.behind) && At(s, end, Comma(x.next, more))
            && at <= j < |s|
            && (!more ==> p == Parsed([Value(x.tree)], j + 1) && At(s, j, [93]))
            && (more ==>
                  && at < j && ParseItems(s, j, depth).Some?
                  && var others := ParseItems(s, j, depth).value;
                     p == Parsed([Value(x.tree)] + others.value, others.end))
    decreases |s| - at, 1, 2
  {
    hide At, ParseValue, CString, SkipSpace, IsGap, Proper, Value, Spelling, NumberChar, Height;
    var i := SkipSpace(s, ParseValue(s, at, depth).value.end);
    Delimiter(s[i]);
    var tree, behind := ValueOf(s, at, depth);
    NotLast(s, i);
    OneAt(s, i);
    more := s[i] == COMMA;
    SlotsNone();
    x := Slot(tree, behind, []);
    if more {
      var next := GapOf(s, i + 1);
      x := x.(next := next);
      AtJoined(s, i, [44], next);
    } else {
      NothingAt(s, i);
    }
  }

  lemma NothingAt(s: Text, i: nat)
    requires i <= |s|
    ensures At(s, i, [])
  {
  }

  lemma SlotJoined(x: Slot, rest: Text, s: Text, at: nat)
    requires At(s, at, Spelling(x.tree)) && At(s, at + |Spelling(x.tree)|, x.behind)
    requires At(s, at + |Spelling(x.tree)| + |x.behind|, rest)
    ensures At(s, at, Spelling(x.tree) + (x.behind + rest))
  {
    hide At, Spelling;
    AtJoined(s, at + |Spelling(x.tree)|, x.behind, rest);
    AtJoined(s, at, Spelling(x.tree), x.behind + rest);
  }

  lemma Delimiter(b: Byte)
    ensures b in {44, 58, 93, 125, 0} ==> !NumberChar(b)
  {
  }

  // A value with the gap behind it.
  lemma {:induction false} ValueOf(s: Text, at: nat, depth: nat) returns (tree: Tree, gap: Text)
    requires CString(s) && at < |s| && depth <= 1000 && ParseValue(s, at, depth).Some?
    requires !NumberChar(s[SkipSpace(s, ParseValue(s, at, depth).value.end)])
    ensures var p := ParseValue(s, at, depth).value; var i := SkipSpace(s, p.end);
            && Proper(tree) && Value(tree) == p.value && depth + Height(p.value) <= 1000
            && At(s, at, Spelling(tree)) && at + |Spelling(tree)| == p.end
            && IsGap(gap) && At(s, p.end, gap) && p.end + |gap| == i
    decreases |s| - at, 1, 1
  {
    hide At, ParseValue, CString, SkipSpace, IsGap, Proper, Value, Spelling, NumberChar, Height;
    var end := ParseValue(s, at, depth).value.end;
    NoFigureGoesOnIn(s, end);
    tree := TreeOf(s, at, depth);
    gap := GapOf(s, end);
  }

  lemma {:induction false} SlotsCons(slots: seq<Slot>, depth: nat)
    requires |slots| > 0 && Proper(slots[0].tree) && IsGap(slots[0].behind) && IsGap(slots[0].next)
    requires SlotsProper(slots[1..]) && depth + Height(Value(slots[0].tree)) <= 1000
    requires depth + ItemsHeight(SlotValues(slots[1..])) <= 1000
    ensures SlotsProper(slots) && SlotValues(slots) == [Value(slots[0].tree)] + SlotValues(slots[1..])
    ensures depth + ItemsHeight(SlotValues(slots)) <= 1000
    ensures var x := slots[0]; var comma, rest := Comma(x.next, |slots| > 1), SlotsSpelling(slots[1..]);
            && SlotsSpelling(slots) + [93] == Spelling(x.tree) + (x.behind + (comma + (rest + [93])))
            && |SlotsSpelling(slots)| == |Spelling(x.tree)| + |x.behind| + |comma| + |rest|
  {
    hide Proper, Value, Spelling, IsGap, Height;
    var x := slots[0];
    Assoc4(Spelling(x.tree), x.behind, Comma(x.next, |slots| > 1), SlotsSpelling(slots[1..]), [93]);
    assert SlotValues(slots)[1..] == SlotValues(slots[1..]);
  }

  lemma {:induction false} DictOf(s: Text, at: nat, depth: nat) returns (tree: Tree)
    requires CString(s) && at < |s| && ParseObject(s, at, depth).Some?
    ensures var p := ParseObject(s, at, depth).value;
            && Proper(tree) && Value(tree) == p.value && depth + Height(p.value) <= 1000
            && At(s, at, Spelling(tree)) && at + |Spelling(tree)| == p.end
    decreases |s| - at, 0
  {
    hide At, ParseMembers, CString, SkipSpace, IsGap, FieldsSpelling, FieldsProper, FieldValues, MembersHeight;
    NotLast(s, at);
    var gap := GapOf(s, at + 1);
    var i := SkipSpace(s, at + 1);
    var fields: seq<Field> := [];
    SlotsNone();
    if s[i] == CLOSE_BRACE {
      OneAt(s, i);
    } else {
      fields := FieldsOf(s, i, depth + 1);
    }
    tree := Dict(gap, fields);
    OneAt(s, at);
    AtJoined(s, at + 1, gap, FieldsSpelling(fields) + [125]);
    AtJoined(s, at, [123], gap + (FieldsSpelling(fields) + [125]));
  }

  // A name, its colon, and the gaps around that; then the place of the value.
  lemma NameOf(s: Text, at: nat) returns (name: seq<Piece>, front: Text, back: Text)
    requires CString(s) && at < |s| && ParseString(s, at).Some?
    requires var colon := SkipSpace(s, ParseString(s, at).value.end); s[colon] == 58
    ensures var key := ParseString(s, at).value; var colon := SkipSpace(s, key.end);
            && Good(name) && key.value == UpToNul(Meant(name)) && IsGap(front) && IsGap(back)
            && at + |Literal(name)| == key.end && key.end + |front| == colon && colon + 1 < |s|
            && colon + 1 + |back| == SkipSpace(s, colon + 1)
            && At(s, at, Literal(name)) && At(s, key.end, front) && At(s, colon, [58]) && At(s, colon + 1, back)
  {
    hide At, CString, ParseString, SkipSpace, IsGap, Written, Meant, UpToNul, Piece.Valid;
    name := LiteralOf(s, at);
    front := GapOf(s, ParseString(s, at).value.end);
    var colon := SkipSpace(s, ParseString(s, at).value.end);
    NotLast(s, colon);
    OneAt(s, colon);
    back := GapOf(s, colon + 1);
  }

  lemma {:induction false} FieldsOf(s: Text, at: nat, depth: nat) returns (fields: seq<Field>)
    requires CString(s) && at < |s| && depth <= 1000 && ParseMembers(s, at, depth).Some?
    ensures var p := ParseMembers(s, at, depth).value;
            && fields != [] && FieldsProper(fields) && FieldValues(fields) == p.value
            && depth + MembersHeight(p.value) <= 1000 && At(s, at, FieldsSpelling(fields) + [125])
            && at + |FieldsSpelling(fields)| + 1 == p.end
    decreases |s| - at, 2
  {
    hide At, ParseMembers, CString, IsGap, Proper, Value, Spelling, Height, FieldsSpelling, FieldsProper,
         FieldValues, MembersHeight, Literal, Meant, UpToNul, Piece.Valid, Comma;
    var x, more := FirstField(s, at, depth);
    var comma := Comma(x.next, more);
    var j := at + FieldLength(x) + |comma|;
    var rest: seq<Field> := [];
    SlotsNone();
    if more { rest := FieldsOf(s, j, depth); }
    fields := [x] + rest;
    assert fields[1..] == rest;
    FieldsCons(fields, depth);
    AtJoined(s, j - |comma|, comma, FieldsSpelling(rest) + [125]);
    FieldJoined(x, comma + (FieldsSpelling(rest) + [125]), s, at);
  }

  predicate FieldAt(x: Field, s: Text, at: nat) {
    var front := at + |Literal(x.name)|;
    var value := front + |x.front| + 1 + |x.back|;
    && At(s, at, Literal(x.name)) && At(s, front, x.front) && At(s, front + |x.front|, [58])
    && At(s, front + |x.front| + 1, x.back) && At(s, value, Spelling(x.tree))
    && At(s, value + |Spelling(x.tree)|, x.behind)
  }

  // The first member, and whether a comma and others follow it.
  lemma {:induction false} FirstField(s: Text, at: nat, depth: nat) returns (x: Field, more: bool)
    requires CString(s) && at < |s| && depth <= 1000 && ParseMembers(s, at, depth).Some?
    ensures Proper(x.tree) && Good(x.name) && IsGap(x.front) && IsGap(x.back)
    ensures IsGap(x.behind) && IsGap(x.next) && depth + Height(Value(x.tree)) <= 1000
    ensures var end := at + FieldLength(x); var j := end + |Comma(x.next, more)|;
            var p, m := ParseMembers(s, at, depth).value, Member(UpToNul(Meant(x.name)), Value(x.tree));
            && FieldAt(x, s, at) && At(s, end, Comma(x.next, more)) && at <= j < |s|
            && (!more ==> p == Parsed([m], j + 1) && At(s, j, [125]))
            && (more ==>
                  && at < j && ParseMembers(s, j, depth).Some?
                  && var others := ParseMembers(s, j, depth).value; p == Parsed([m] + others.value, others.end))
    decreases |s| - at, 1, 2
  {
    hide At, ParseValue, ParseString, CString, SkipSpace, IsGap, Proper, Value, Spelling, NumberChar, Height,
         Literal, Meant, UpToNul, Piece.Valid;
    var name, front, back := NameOf(s, at);
    var v := SkipSpace(s, SkipSpace(s, ParseString(s, at).value.end) + 1);
    var i := SkipSpace(s, ParseValue(s, v, depth).value.end);
    Delimiter(s[i]);
    var tree, behind := ValueOf(s, v, depth);
    NotLast(s, i);
    OneAt(s, i);
    more := s[i] == COMMA;
    SlotsNone();
    x := Field(name, front, back, tree, behind, []);
    if more {
      var next := GapOf(s, i + 1);
      x := x.(next := next);
      AtJoined(s, i, [44], next);
    } else {
      NothingAt(s, i);
    }
  }

  lemma FieldJoined(x: Field, rest: Text, s: Text, at: nat)
    requires FieldAt(x, s, at) && At(s, at + FieldLength(x), rest)
    ensures At(s, at, Literal(x.name) + (x.front + ([58] + (x.back + (Spelling(x.tree) + (x.behind + rest))))))
  {
    hide At, Literal, Spelling;
    var front := at + |Literal(x.name)|;
    var value := front + |x.front| + 1 + |x.back|;
    AtJoined(s, value + |Spelling(x.tree)|, x.behind, rest);
    AtJoined(s, value, Spelling(x.tree), x.behind + rest);
    AtJoined(s, front + |x.front| + 1, x.back, Spelling(x.tree) + (x.behind + rest));
    AtJoined(s, front + |x.front|, [58], x.back + (Spelling(x.tree) + (x.behind + rest)));
    AtJoined(s, front, x.front, [58] + (x.back + (Spelling(x.tree) + (x.behind + rest))));
    AtJoined(s, at, Literal(x.name), x.front + ([58] + (x.back + (Spelling(x.tree) + (x.behind + rest)))));
  }

  lemma {:induction false} FieldsCons(fields: seq<Field>, depth: nat)
    requires |fields| > 0 && FieldsProper(fields[1..]) && depth + MembersHeight(FieldValues(fields[1..])) <= 1000
    requires var x := fields[0];
             && Proper(x.tree) && Good(x.name) && IsGap(x.front) && IsGap(x.back)
             && IsGap(x.behind) && IsGap(x.next) && depth + Height(Value(x.tree)) <= 1000
    ensures FieldsProper(fields) && depth + MembersHeight(FieldValues(fields)) <= 1000
    ensures var x := fields[0];
            FieldValues(fields) == [Member(UpToNul(Meant(x.name)), Value(x.tree))] + FieldValues(fields[1..])
    ensures var x := fields[0]; var comma, rest := Comma(x.next, |fields| > 1), FieldsSpelling(fields[1..]) + [125];
            && FieldsSpelling(fields) + [125] ==
               Literal(x.name) + (x.front + ([58] + (x.back + (Spelling(x.tree) + (x.behind + (comma + rest))))))
            && |FieldsSpelling(fields)| + 1 ==
               |Literal(x.name)| + |x.front| + 1 + |x.back| + |Spelling(x.tree)| + |x.behind| + |comma| + |rest|
  {
    var x := fields[0];
    hide UpToNul, Height, IsGap, Spelling, Literal;
    Assoc8(Literal(x.name), x.front, [58], x.back, Spelling(x.tree), x.behind, Comma(x.next, |fields| > 1),
           FieldsSpelling(fields[1..]), [125]);
    assert FieldsProper(fields);
    assert FieldValues(fields)[1..] == FieldValues(fields[1..]);
  }

  // ---------------------------------------------------------------------------------------------
  // Whole texts

  datatype Document = Document(bom: bool, front: Text, tree: Tree, back: Text) {
    function Mark(): Text { if bom then [0xEF, 0xBB, 0xBF] else [] }

    function Text(): Text {
      Mark() + (front + (Spelling(tree) + back))
    }

    predicate Valid() { IsGap(front) && IsGap(back) && Proper(tree) && Height(Value(tree)) <= 1000 }
  }

  /** The text can be written that way, with this value. */
  ghost predicate Derives(text: Text, v: Json) {
    exists d: Document :: d.Valid() && d.Text() == text && Value(d.tree) == v
  }

  lemma DocumentRead(d: Document)
    requires d.Valid() && NulFree(d.Text())
    ensures ParseText(d.Text(), true) == Some(Parsed(Value(d.tree), |d.Text()|))
  {
    hide Document.Text, Document.Mark, Spelling, Proper, Value, Height, ParseValue, SkipSpace, SkipBom, IsGap, At,
         CString;
    var s := d.Text() + [NUL];
    TextIsCString(d.Text());
    TextAt(d.Text());
    TextParts(d);
    SpellingStarts(d.tree);
    BomIs(d, s);
    BodyRead(d, s);
  }

  lemma BodyRead(d: Document, s: Text)
    requires CString(s) && At(s, 0, d.Mark() + (d.front + (Spelling(d.tree) + d.back))) && d.Valid()
    requires |s| == |d.Mark()| + |d.front| + |Spelling(d.tree)| + |d.back| + 1
    requires Spelling(d.tree) != [] && Spelling(d.tree)[0] > 32 && s[|s| - 1] == 0
    ensures var at := |d.Mark()| + |d.front|; var end := at + |Spelling(d.tree)|;
            && SkipSpace(s, |d.Mark()|) == at && ParseValue(s, at, 0) == Some(Parsed(Value(d.tree), end))
            && SkipSpace(s, end) == |s| - 1
  {
    hide At, CString, IsGap, Proper, Value, Spelling, Height, SkipSpace, ParseValue, NumberChar, Document.Mark,
         Document.Text;
    BodyAt(d.Mark(), d.front, Spelling(d.tree) + d.back, s);
    var at := |d.Mark()| + |d.front|;
    BackAt(s, at, Spelling(d.tree), d.back);
    TreeRead(d.tree, s, at, 0);
    SkipLast(s, at + |Spelling(d.tree)|, d.back);
  }

  lemma TextParts(d: Document)
    ensures d.Text() == d.Mark() + (d.front + (Spelling(d.tree) + d.back))
    ensures |d.Text()| == |d.Mark()| + |d.front| + |Spelling(d.tree)| + |d.back|
    ensures d.Valid() ==> IsGap(d.front) && IsGap(d.back) && Proper(d.tree)
    ensures Spelling(d.tree) != [] ==> (Spelling(d.tree) + d.back)[0] == Spelling(d.tree)[0]
  {
  }

  lemma BodyAt(bom: Text, front: Text, body: Text, s: Text)
    requires At(s, 0, bom + (front + body)) && IsGap(front) && body != [] && body[0] > 32
    ensures SkipSpace(s, |bom|) == |bom| + |front| < |s| && At(s, |bom| + |front|, body)
  {
    hide *;
    AtSplit(s, 0, bom, front + body);
    var i := GapRead(front, body, s, |bom|);
  }

  lemma BackAt(s: Text, at: nat, body: Text, back: Text)
    requires At(s, at, body + back) && IsGap(back) && at + |body| + |back| == |s| - 1 && s[|s| - 1] == 0
    ensures At(s, at, body) && At(s, at + |body|, back) && !NumberChar(s[at + |body|])
  {
    hide At, IsGap;
    AtSplit(s, at, body, back);
    Delimiter(0);
    NoFigureGoesOn(s, at + |body|, back);
  }

  lemma TextAt(text: Text)
    ensures At(text + [NUL], 0, text) && (text + [NUL])[|text|] == 0
  {
    assert (text + [NUL])[..|text|] == text;
  }

  lemma BomIs(d: Document, s: Text)
    requires d.Valid() && At(s, 0, d.Text()) && |d.Text()| < |s|
    requires 0 < |Spelling(d.tree)| && Spelling(d.tree)[0] < 0xEF
    ensures SkipBom(s) == |d.Mark()|
  {
    hide Spelling, Proper, Value, Height;
    if d.bom {
      AtSplit(s, 0, d.Mark(), d.front + (Spelling(d.tree) + d.back));
      assert s[..3] == [0xEF, 0xBB, 0xBF];
    } else {
      AtChar(s, 0, d.Text(), 0);
      assert d.Text()[0] == (d.front + Spelling(d.tree))[0];
      if d.front != [] { assert d.front[0] in d.front; }
      NoBom(s);
    }
  }

  // White space up to the end.
  lemma SkipLast(s: Text, at: nat, gap: Text)
    requires CString(s) && At(s, at, gap) && at + |gap| == |s| - 1 && IsGap(gap)
    ensures SkipSpace(s, at) == |s| - 1
  {
    forall k | at <= k < |s| ensures s[k] <= SPACE {
      if k < at + |gap| {
        AtChar(s, at, gap, k - at);
        assert gap[k - at] in gap;
      }
    }
    SkippedBlank(s, at);
  }

  lemma DocumentOf(text: Text) returns (d: Document)
    requires NulFree(text) && ParseText(text, true).Some?
    ensures d.Valid() && d.Text() == text && ParseText(text, true) == Some(Parsed(Value(d.tree), |text|))
  {
    hide IsGap, Proper, Value, Spelling, Height, SkipSpace, ParseValue, NumberChar, At;
    var s := text + [NUL];
    TextIsCString(text);
    var bom := SkipBom(s);
    BomLength(s);
    var front := GapOf(s, bom);
    var at := SkipSpace(s, bom);
    var end := ParseValue(s, at, 0).value.end;
    Delimiter(0);
    var tree, back := ValueOf(s, at, 0);
    d := Document(bom == 3, front, tree, back);
    AtJoined(s, at, Spelling(tree), back);
    AtJoined(s, bom, front, Spelling(tree) + back);
    StartIs(text, bom, front + (Spelling(tree) + back), |text|);
    assert text[..|text|] == text;
  }

  lemma TextIsCString(text: Text)
    requires NulFree(text)
    ensures CString(text + [NUL])
    ensures forall i | 0 <= i < |text| :: (text + [NUL])[i] == text[i] != NUL
  {
    assert forall i | 0 <= i < |text| :: text[i] in text;
  }

  lemma BomLength(s: Text)
    requires |s| > 0
    ensures SkipBom(s) < |s| && SkipBom(s) in {0, 3}
  {
    if SkipBom(s) == 3 { assert s[0] == s[..3][0] == 0xEF; }
  }

  /** A text is accepted whole, as a value, if and only if it can be written down as that value by the grammar. */
  lemma AcceptedExactly(text: Text, v: Json)
    requires NulFree(text)
    ensures ParseText(text, true) == Some(Parsed(v, |text|)) <==> Derives(text, v)
    ensures ParseText(text, true).Some? ==> ParseText(text, true).value.end == |text|
  {
    hide ParseText, Document.Text, IsGap, Height;
    if ParseText(text, true).Some? {
      var d := DocumentOf(text);
      assert Value(d.tree) == v ==> Derives(text, v);
    }
    if Derives(text, v) {
      var d: Document :| d.Valid() && d.Text() == text && Value(d.tree) == v;
      DocumentRead(d);
    }
  }

  /** The text can be written that way, with nothing behind the value. */
  ghost predicate DerivesJust(text: Text, v: Json) {
    exists d: Document :: d.Valid() && d.back == [] && d.Text() == text && Value(d.tree) == v
  }

  /** And what the first characters of a text are read as, if a number does not go on behind them. */
  lemma FrontExactly(text: Text, v: Json, end: nat)
    requires NulFree(text) && end <= |text| && !NumberChar((text + [0])[end])
    ensures ParseText(text, false) == Some(Parsed(v, end)) <==> DerivesJust(text[..end], v)
  {
    hide ParseText, Document.Text, IsGap, Height, NumberChar;
    if ParseText(text, false) == Some(Parsed(v, end)) { var d := FrontOf(text); }
    if DerivesJust(text[..end], v) {
      var d: Document :| d.Valid() && d.back == [] && d.Text() == text[..end] && Value(d.tree) == v;
      FrontRead(d, text, end);
    }
  }

  lemma FrontRead(d: Document, text: Text, end: nat)
    requires NulFree(text) && end <= |text| && !NumberChar((text + [0])[end])
    requires d.Valid() && d.back == [] && d.Text() == text[..end]
    ensures ParseText(text, false) == Some(Parsed(Value(d.tree), end))
  {
    hide Document.Text, Document.Mark, Spelling, Proper, Value, Height, ParseValue, SkipSpace, SkipBom, IsGap, At,
         CString, NumberChar;
    var s := text + [NUL];
    TextIsCString(text);
    StartAt(text, end);
    TextParts(d);
    SpellingStarts(d.tree);
    BomIs(d, s);
    assert Spelling(d.tree) + d.back == Spelling(d.tree);
    BodyAt(d.Mark(), d.front, Spelling(d.tree), s);
    TreeRead(d.tree, s, |d.Mark()| + |d.front|, 0);
  }

  lemma StartAt(text: Text, end: nat)
    requires end <= |text|
    ensures At(text + [NUL], 0, text[..end])
  {
    assert (text + [NUL])[..end] == text[..end];
  }

  lemma FrontOf(text: Text) returns (d: Document)
    requires NulFree(text) && ParseText(text, false).Some?
    requires ParseText(text, false).value.end <= |text|
    requires !NumberChar((text + [0])[ParseText(text, false).value.end])
    ensures var p := ParseText(text, false).value;
            d.Valid() && d.back == [] && d.Text() == text[..p.end] && Value(d.tree) == p.value
  {
    hide IsGap, Proper, Value, Spelling, Height, SkipSpace, ParseValue, NumberChar, At;
    var s := text + [NUL];
    TextIsCString(text);
    var bom := SkipBom(s);
    BomLength(s);
    var front := GapOf(s, bom);
    var at := SkipSpace(s, bom);
    var end := ParseValue(s, at, 0).value.end;
    var tree := TreeOf(s, at, 0);
    SlotsNone();
    d := Document(bom == 3, front, tree, []);
    assert Spelling(tree) + [] == Spelling(tree);
    AtJoined(s, bom, front, Spelling(tree));
    StartIs(text, bom, front + Spelling(tree), end);
  }

  lemma StartIs(text: Text, bom: nat, rest: Text, end: nat)
    requires bom == SkipBom(text + [NUL]) && At(text + [NUL], bom, rest) && bom + |rest| == end <= |text|
    ensures text[..end] == (if bom == 3 then [0xEF, 0xBB, 0xBF] else []) + rest
  {
    var s := text + [NUL];
    assert s[bom..end] == text[bom..end] && text[..end] == text[..bom] + text[bom..end];
    if bom == 3 { assert s[..3] == text[..3]; } else { assert text[..0] == []; }
  }
}
