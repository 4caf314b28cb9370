/** The parser as it runs: a read position that moves through the text, nodes and strings that may
    fail to be allocated (cJSON/cJSON.c:286-344, 544-828, 967-1081, 1216-1268, 1345-1607). */
module JsonParser {
  import opened Bytes
  import opened JsonItems
  import opened JsonParse
  import opened JsonText
  import opened Wrappers

  // What of `output` counts once `n` characters have been written behind what stood there.
  ghost predicate Added(before: Text, output: Text, at: nat, t: Text) {
    |output| == |before| && at + |t| <= |output| && output[..at + |t|] == before[..at] + t
  }

  // The first pass stands at `j`, which is `i` or just behind it.
  ghost predicate Stand(s: Text, i: nat, j: nat, end: nat) {
    i <= j <= i + 1 && Measure(s, j).Some? && Measure(s, j).value.end == end
  }

  // While the second pass goes on by `step` characters, the first has skipped no more than half.
  lemma StandStep(s: Text, i: nat, j: nat, end: nat, step: nat) returns (k: nat)
    requires Stand(s, i, j, end) && i < end && step >= 1
    requires if step == 1 then s[i] != BACKSLASH else s[i] == BACKSLASH && step % 2 == 0
    ensures i + step <= end ==>
              Stand(s, i + step, k, end) &&
              Measure(s, j).value.skipped - Measure(s, k).value.skipped <= step / 2
  {
    if i + step <= end {
      if step == 1 {
        k := i + 1;
      } else if j == i {
        k := NextStand(s, i + 2, i + step);
      } else {
        k := NextStand(s, j, i + step);
      }
    } else {
      k := 0;
    }
  }

  // How far a write index may have come when the second pass is at `i`.
  ghost predicate Room(s: Text, start: nat, i: nat, j: nat, end: nat, length: nat)
    requires Measure(s, start).Some?
  {
    if i <= end then
      Stand(s, i, j, end) &&
      length + Measure(s, start).value.skipped <= i - start + Measure(s, j).value.skipped
    else
      length + Measure(s, start).value.skipped <= end - start
  }

  lemma RoomStep(s: Text, start: nat, i: nat, j: nat, end: nat, length: nat, step: nat, written: nat) returns (k: nat)
    requires Measure(s, start).Some? && Measure(s, start).value.end == end && start <= i < end
    requires Room(s, start, i, j, end, length)
    requires if step == 1 then s[i] != BACKSLASH else s[i] == BACKSLASH && step % 2 == 0
    requires step >= 1 && written + step / 2 <= step && (i + step <= end || written == 1)
    ensures Room(s, start, i + step, k, end, length + written)
    ensures length + written + Measure(s, start).value.skipped <= end - start
  {
    k := StandStep(s, i, j, end, step);
  }

  /** What is left to decode at `i` follows from what was left before: the write index and what is
      still to come never exceed the allocation. */
  ghost predicate Progress(s: Text, start: nat, i: nat, end: nat, done: Text)
    requires end < |s|
  {
    match Decode(s, i, end)
    case None => Decode(s, start, end).None?
    case Some(rest) => Decode(s, start, end) == Some(done + rest)
  }

  lemma RoomAtStart(s: Text, start: nat) returns (j: nat)
    requires Measure(s, start).Some?
    ensures Room(s, start, start, j, Measure(s, start).value.end, 0)
  {
    j := start;
  }

  lemma ProgressCopy(s: Text, start: nat, i: nat, end: nat, done: Text)
    requires end < |s| && i < end && s[i] != BACKSLASH && Progress(s, start, i, end, done)
    ensures Progress(s, start, i + 1, end, done + [s[i]])
  {
    if Decode(s, i + 1, end).Some? {
      assert done + ([s[i]] + Decode(s, i + 1, end).value) == done + [s[i]] + Decode(s, i + 1, end).value;
    }
  }

  lemma ProgressLiteral(s: Text, start: nat, i: nat, end: nat, done: Text)
    requires end < |s| && i < end && s[i] == BACKSLASH && s[i + 1] == LETTER_U && Progress(s, start, i, end, done)
    ensures Utf16(s, i, end).None? ==> Decode(s, start, end).None?
    ensures Utf16(s, i, end).Some? ==>
              var u := Utf16(s, i, end).value; Progress(s, start, i + u.length, end, done + Utf8(u.code))
  {
    hide Utf8, Utf16;
    if Utf16(s, i, end).Some? {
      var u := Utf16(s, i, end).value;
      if Decode(s, i + u.length, end).Some? {
        var rest := Decode(s, i + u.length, end).value;
        assert done + (Utf8(u.code) + rest) == done + Utf8(u.code) + rest;
      }
    }
  }

  lemma ProgressEscape(s: Text, start: nat, i: nat, end: nat, done: Text)
    requires end < |s| && i < end && s[i] == BACKSLASH && s[i + 1] != LETTER_U && Progress(s, start, i, end, done)
    ensures Unescape(s[i + 1]).None? ==> Decode(s, start, end).None?
    ensures Unescape(s[i + 1]).Some? ==> Progress(s, start, i + 2, end, done + [Unescape(s[i + 1]).value])
  {
    hide Unescape;
    if Unescape(s[i + 1]).Some? && Decode(s, i + 2, end).Some? {
      var b, rest := Unescape(s[i + 1]).value, Decode(s, i + 2, end).value;
      assert done + ([b] + rest) == done + [b] + rest;
    }
  }

  lemma ProgressEnds(s: Text, start: nat, i: nat, end: nat, done: Text)
    requires end < |s|
    ensures i >= end && Progress(s, start, i, end, done) ==> Decode(s, start, end) == Some(done)
    ensures i == start && done == [] ==> Progress(s, start, i, end, done)
  {
    assert done + [] == done;
    if i == start && done == [] && Decode(s, start, end).Some? {
      assert done + Decode(s, start, end).value == Decode(s, start, end).value;
    }
  }

  class ParseBuffer {
    const content: Text
    const memory: Memory
    var offset: nat
    var depth: nat

    ghost predicate Valid()
      reads this, memory
    {
      CString(content) && offset < |content| && memory.Valid()
    }

    constructor (content: Text, memory: Memory)
      requires CString(content)
      ensures this.content == content && this.memory == memory && offset == 0 && depth == 0
    {
      this.content, this.memory, offset, depth := content, memory, 0, 0;
    }

    /** buffer_skip_whitespace */
    method SkipWhitespace()
      requires CString(content) && offset <= |content|
      modifies `offset
      ensures offset == SkipSpace(content, old(offset))
    {
      while offset < |content| && content[offset] <= SPACE
        invariant offset <= |content| && SkipSpace(content, offset) == SkipSpace(content, old(offset))
      {
        offset := offset + 1;
      }
      if offset == |content| { offset := offset - 1; }
    }

    /** skip_utf8_bom, at the start of the text */
    method SkipUtf8Bom()
      requires offset == 0
      modifies `offset
      ensures offset == SkipBom(content)
    {
      if 4 < |content| && content[..3] == [0xEF, 0xBB, 0xBF] { offset := offset + 3; }
    }

    /** parse_hex4 */
    method ParseHex4(at: nat) returns (h: nat)
      requires at + 4 <= |content|
      ensures h == Hex4(content, at)
    {
      h := 0;
      for i := 0 to 4
        invariant i > 0 ==> HexValue(content[at]).Some?
        invariant i > 1 ==> HexValue(content[at + 1]).Some?
        invariant i > 2 ==> HexValue(content[at + 2]).Some?
        invariant i > 3 ==> HexValue(content[at + 3]).Some?
        invariant i == 0 ==> h == 0
        invariant i == 1 ==> h == 16 * HexValue(content[at]).value
        invariant i == 2 ==> h == 16 * (16 * HexValue(content[at]).value + HexValue(content[at + 1]).value)
        invariant i == 3 ==> h == 16 * (16 * (16 * HexValue(content[at]).value + HexValue(content[at + 1]).value) +
                                        HexValue(content[at + 2]).value)
        invariant i == 4 ==> h == Hex4(content, at)
      {
        var digit := HexValue(content[at + i]);
        if digit.None? { return 0; }
        h := h + digit.value;
        if i < 3 { h := 16 * h; }
      }
    }

    // The loop that writes a code point backwards, six bits at a time.
    method EncodeUtf8(code: nat, output: array<Byte>, at: nat) returns (length: nat)
      requires Scalar(code) && at + |Utf8(code)| <= output.Length
      modifies output
      ensures length == |Utf8(code)| && Added(old(output[..]), output[..], at, Utf8(code))
    {
      hide Utf8, Shifted;
      Utf8Length(code);
      var mark: Byte;
      if code < 0x80 { length, mark := 1, 0; }
      else if code < 0x800 { length, mark := 2, 0xC0; }
      else if code < 0x10000 { length, mark := 3, 0xE0; }
      else { length, mark := 4, 0xF0; }
      var c, i := code, length - 1;
      ShiftOnce(code, 0);
      while i > 0
        invariant 0 <= i < length && at + length <= output.Length
        invariant c == Shifted(code, length - 1 - i)
        invariant output[..at] == old(output[..at])
        invariant forall k :: i < k < length ==> output[at + k] == Utf8(code)[k]
      {
        ContinuationByte(code, length, i);
        ShiftOnce(code, length - 1 - i);
        output[at + i] := 0x80 + c % 64;
        c := c / 64;
        i := i - 1;
      }
      LeadByte(code, length);
      output[at] := if length > 1 then mark + c else c;
      assert output[at..at + length] == Utf8(code);
      assert output[..at + length] == output[..at] + output[at..at + length];
    }

    /** utf16_literal_to_utf8; `length` is 0 when the literal is not valid. */
    method Utf16ToUtf8(at: nat, end: nat, output: array<Byte>, position: nat) returns (length: nat, written: nat)
      requires at <= end <= |content|
      requires Utf16(content, at, end).Some? ==> position + |Utf8(Utf16(content, at, end).value.code)| <= output.Length
      modifies output
      ensures match Utf16(content, at, end)
              case None => length == 0
              case Some(u) => length == u.length && written == |Utf8(u.code)| &&
                              Added(old(output[..]), output[..], position, Utf8(u.code))
    {
      hide Utf8, Hex4, Added;
      length, written := 0, 0;
      if end - at < 6 { return; }
      var first := ParseHex4(at + 2);
      if 0xDC00 <= first <= 0xDFFF { return; }
      var code := first;
      if 0xD800 <= first <= 0xDBFF {
        if end - (at + 6) < 6 { return; }
        if content[at + 6] != BACKSLASH || content[at + 7] != LETTER_U { return; }
        var second := ParseHex4(at + 8);
        if second < 0xDC00 || second > 0xDFFF { return; }
        code := 0x10000 + (first - 0xD800) * 0x400 + (second - 0xDC00);
        length := 12;
      } else {
        length := 6;
      }
      written := EncodeUtf8(code, output, position);
    }

    // The first pass of parse_string, from behind the opening quote.
    method MeasureString(start: nat) returns (found: bool, end: nat, skipped: nat)
      requires start <= |content|
      ensures found <==> Measure(content, start).Some?
      ensures found ==> Measure(content, start) == Some(Extent(end, skipped))
    {
      end, skipped := start, 0;
      while end < |content| && content[end] != QUOTE
        invariant start <= end
        invariant Measure(content, start).Some? <==> Measure(content, end).Some?
        invariant Measure(content, start).Some? ==>
                    Measure(content, start).value.end == Measure(content, end).value.end &&
                    Measure(content, start).value.skipped == skipped + Measure(content, end).value.skipped
      {
        if content[end] == BACKSLASH {
          if end + 1 >= |content| { return false, end, skipped; }
          skipped := skipped + 1;
          end := end + 1;
        }
        end := end + 1;
      }
      found := end < |content|;
    }

    /** The second pass, into a buffer of the size that the first one has computed. */
    method DecodeString(start: nat, end: nat, output: array<Byte>) returns (ok: bool, length: nat)
      requires start <= end < |content| && Measure(content, start).Some? && Measure(content, start).value.end == end
      requires output.Length == end + 2 - start - Measure(content, start).value.skipped
      modifies output
      ensures ok <==> Decode(content, start, end).Some?
      ensures ok ==> length < output.Length && output[..length] == Decode(content, start, end).value &&
                     output[length] == NUL
    {
      hide Decode, Measure, Progress, Room, Stand, Utf16, Utf8, Unescape;
      length := 0;
      var i := start;
      ghost var j := RoomAtStart(content, start);
      ProgressEnds(content, start, i, end, []);
      while i < end
        invariant start <= i && length < output.Length
        invariant Room(content, start, i, j, end, length) && Progress(content, start, i, end, output[..length])
        decreases |content| + 12 - i
      {
        ghost var done := output[..length];
        if content[i] != BACKSLASH {
          j := RoomStep(content, start, i, j, end, length, 1, 1);
          ProgressCopy(content, start, i, end, done);
          output[length] := content[i];
          length := length + 1;
          i := i + 1;
          assert output[..length] == done + [content[i - 1]];
        } else if content[i + 1] == LETTER_U {
          ProgressLiteral(content, start, i, end, done);
          if Utf16(content, i, end).Some? {
            ghost var u := Utf16(content, i, end).value;
            j := RoomStep(content, start, i, j, end, length, u.length, |Utf8(u.code)|);
          }
          var step, written := Utf16ToUtf8(i, end, output, length);
          if step == 0 { return false, length; }
          length := length + written;
          i := i + step;
        } else {
          ProgressEscape(content, start, i, end, done);
          var b := Unescape(content[i + 1]);
          if b.None? { return false, length; }
          j := RoomStep(content, start, i, j, end, length, 2, 1);
          output[length] := b.value;
          length := length + 1;
          i := i + 2;
          assert output[..length] == done + [b.value];
        }
      }
      ProgressEnds(content, start, i, end, output[..length]);
      ghost var whole := output[..length];
      output[length] := NUL;
      assert output[..length] == whole;
      ok := true;
    }

    /** parse_string: the text is decoded into a block of its own, or nothing stays allocated. */
    method ParseString() returns (r: Option<Str>)
      requires Valid()
      modifies `offset, memory
      ensures memory.Valid() && memory.live == old(memory.live) + StrBlocks(r)
      ensures r.Some? ==> memory.refusals == old(memory.refusals) && offset < |content|
      ensures r.Some? ==>
                JsonParse.ParseString(content, old(offset)) == Some(Parsed(r.value.text, offset))
      ensures r.None? && JsonParse.ParseString(content, old(offset)).Some? ==> memory.refusals > old(memory.refusals)
    {
      hide Decode, Measure, UpToNul, CString;
      if content[offset] != QUOTE { return None; }
      var start := offset + 1;
      var found, end, skipped := MeasureString(start);
      if !found { return None; }
      MeasureBounds(start);
      r := AllocateString(start, end, skipped);
      if r.Some? { offset := end + 1; }
    }

    // The block, its contents, and the way out when the literal turns out to be invalid.
    method AllocateString(start: nat, end: nat, skipped: nat) returns (r: Option<Str>)
      requires memory.Valid() && start <= end < |content| && start + 2 * skipped <= end
      requires Measure(content, start) == Some(Extent(end, skipped))
      modifies memory
      ensures memory.Valid() && memory.live == old(memory.live) + StrBlocks(r)
      ensures r.Some? ==> memory.refusals == old(memory.refusals)
      ensures r.Some? ==>
                Decode(content, start, end).Some? && r.value.text == UpToNul(Decode(content, start, end).value)
      ensures r.None? && Decode(content, start, end).Some? ==> memory.refusals > old(memory.refusals)
    {
      hide Decode, Measure, UpToNul;
      ghost var before := memory.live;
      var size := end + 2 - start - skipped;
      var block := memory.Allocate(size);
      if block.None? { return None; }
      var output := new Byte[size];
      var ok, length := DecodeString(start, end, output);
      if !ok {
        memory.Free(block.value, before);
        return None;
      }
      var text := ReadCString(output, length);
      return Some(Str(block.value, text));
    }

    lemma MeasureBounds(start: nat)
      ensures Measure(content, start).Some? ==>
                var e := Measure(content, start).value;
                start <= e.end < |content| && start + 2 * e.skipped <= e.end && content[e.end] == QUOTE
      ensures Measure(content, start).Some? && CString(content) ==> Measure(content, start).value.end + 1 < |content|
    {
    }

    // What a reader of the block as a C string sees.
    method ReadCString(output: array<Byte>, length: nat) returns (text: Text)
      requires length < output.Length && output[length] == NUL
      ensures text == UpToNul(output[..length])
    {
      var n := 0;
      while output[n] != NUL
        invariant n <= length && forall i :: 0 <= i < n ==> output[i] != NUL
        decreases length - n
      {
        n := n + 1;
      }
      UpToNulIs(output[..length], n);
      return output[..n];
    }

    /** parse_number, with strtod as the longest decimal prefix and its value. */
    method ParseNumber() returns (r: Option<Content>)
      requires Valid()
      modifies `offset
      ensures r.Some? ==> r.value.IsNumber? && offset < |content|
      ensures match JsonParse.ParseNumber(content, old(offset))
              case None => r.None?
              case Some(p) => r.Some? && DenoteContent(r.value) == p.value && offset == p.end
    {
      hide Decimal, CString, NumberRun;
      var i := NumberLength();
      var numeral := Decimal(content[offset..offset + i]);
      if numeral.NoNumeral? { return None; }
      assert JsonParse.ParseNumber(content, offset).Some?;
      offset := offset + numeral.length;
      return Some(IsNumber(numeral.value));
    }

    // The loop that copies number characters, 63 at the most.
    method NumberLength() returns (i: nat)
      requires offset < |content|
      ensures i == if NumberRun(content, offset) <= 63 then NumberRun(content, offset) else 63
    {
      i := 0;
      while i < 63 && offset + i < |content| && NumberChar(content[offset + i])
        invariant i <= 63 && offset + i <= |content|
        invariant NumberRun(content, offset) == i + NumberRun(content, offset + i)
      {
        i := i + 1;
      }
    }

    method Starts(t: Text) returns (b: bool)
      requires Valid()
      ensures b <==> At(content, offset, t)
    {
      b := offset + |t| <= |content| && content[offset..offset + |t|] == t;
    }

    /** parse_value: what the text says, in blocks of its own; or nothing, because the text is no
        value or because memory has been refused. */
    method ParseValue() returns (r: Option<Content>)
      requires Valid()
      modifies this, memory
      ensures memory.Valid()
      ensures r.Some? ==> Valid() && depth == old(depth) && offset > old(offset)
      ensures r.Some? ==> memory.live == old(memory.live) + ContentBlocks(r.value)
      ensures r.Some? ==> memory.refusals == old(memory.refusals)
      ensures r.Some? ==>
                JsonParse.ParseValue(content, old(offset), old(depth)) == Some(Parsed(DenoteContent(r.value), offset))
      ensures r.None? ==> memory.live == old(memory.live)
      ensures r.None? && JsonParse.ParseValue(content, old(offset), old(depth)).Some? ==>
                memory.refusals > old(memory.refusals)
      decreases |content| - offset, 3
    {
      hide At, JsonParse.ParseString, JsonParse.ParseNumber, JsonParse.ParseArray, JsonParse.ParseObject, CString;
      var literal := ParseLiteral();
      if literal.Some? { return literal; }
      if content[offset] == QUOTE {
        var text := ParseString();
        return if text.Some? then Some(IsString(text.value)) else None;
      }
      if content[offset] == MINUS || Digit(content[offset]) {
        r := ParseNumber();
        return;
      }
      if content[offset] == OPEN_BRACKET {
        r := ParseArray();
        return;
      }
      if content[offset] == OPEN_BRACE {
        r := ParseObject();
        return;
      }
      return None;
    }

    method ParseLiteral() returns (r: Option<Content>)
      requires Valid()
      modifies `offset
      ensures r.Some? ==> Valid() && offset > old(offset) && ContentBlocks(r.value) == multiset{}
      ensures r.Some? ==>
                JsonParse.ParseValue(content, old(offset), depth) == Some(Parsed(DenoteContent(r.value), offset))
      ensures r.None? ==>
                && offset == old(offset)
                && !At(content, offset, JsonText.NULL) && !At(content, offset, FALSE) && !At(content, offset, TRUE)
    {
      hide At, CString;
      var b := Starts(JsonText.NULL);
      if b {
        assert JsonParse.ParseValue(content, offset, depth).Some?;
        offset := offset + 4;
        return Some(IsNull);
      }
      b := Starts(FALSE);
      if b {
        assert JsonParse.ParseValue(content, offset, depth).Some?;
        offset := offset + 5;
        return Some(IsFalse);
      }
      b := Starts(TRUE);
      if b {
        assert JsonParse.ParseValue(content, offset, depth).Some?;
        offset := offset + 4;
        return Some(IsTrue);
      }
      return None;
    }

    /** parse_array: on failure the nodes that have been attached so far are deleted. */
    method ParseArray() returns (r: Option<Content>)
      requires Valid()
      modifies this, memory
      ensures memory.Valid()
      ensures r.Some? ==> Valid() && depth == old(depth) && offset > old(offset)
      ensures r.Some? ==> memory.live == old(memory.live) + ContentBlocks(r.value)
      ensures r.Some? ==> memory.refusals == old(memory.refusals)
      ensures r.Some? ==>
                JsonParse.ParseArray(content, old(offset), old(depth)) == Some(Parsed(DenoteContent(r.value), offset))
      ensures r.None? ==> memory.live == old(memory.live)
      ensures r.None? && JsonParse.ParseArray(content, old(offset), old(depth)).Some? ==>
                memory.refusals > old(memory.refusals)
      decreases |content| - offset, 2
    {
      hide CString, AllBlocks, DenoteItems, SkipSpace, JsonParse.ParseItems, Blocks, StrBlocks;
      if depth >= NESTING_LIMIT { return None; }
      depth := depth + 1;
      if content[offset] != OPEN_BRACKET { return None; }
      NotAtEnd(content, offset);
      offset := offset + 1;
      SkipWhitespace();
      NothingYet();
      var children := [];
      if content[offset] != CLOSE_BRACKET {
        var elements := ParseElements();
        if elements.None? { return None; }
        children := elements.value;
      }
      NotAtEnd(content, offset);
      depth := depth - 1;
      offset := offset + 1;
      return Some(IsArray(children));
    }

    // The loop through the comma separated elements, up to the closing bracket.
    method ParseElements() returns (r: Option<seq<Item>>)
      requires Valid() && offset > 0 && (content[offset] > SPACE || offset == |content| - 1)
      modifies this, memory
      ensures memory.Valid()
      ensures r.Some? ==> Valid() && depth == old(depth) && offset > old(offset) && content[offset] == CLOSE_BRACKET
      ensures r.Some? ==> memory.live == old(memory.live) + AllBlocks(r.value)
      ensures r.Some? ==> memory.refusals == old(memory.refusals)
      ensures r.Some? ==> ParseItems(content, old(offset), depth) == Some(Parsed(DenoteItems(r.value), offset + 1))
      ensures r.None? ==> memory.live == old(memory.live)
      ensures r.None? && ParseItems(content, old(offset), old(depth)).Some? ==> memory.refusals > old(memory.refusals)
      decreases |content| - offset, 5
    {
      hide CString, AllBlocks, DenoteItems, ItemsState, JsonParse.ParseItems;
      var more, ok, children := true, true, [];
      ghost var first, before := offset, memory.live;
      NothingYet();
      offset := offset - 1;
      SkipAgain(content, first);
      ItemsBegin(content, first, depth, offset);
      while more
        invariant Valid() && (if more then first <= offset + 1 else first < offset) && depth == old(depth)
        invariant memory.live == before + AllBlocks(children) && memory.refusals == old(memory.refusals)
        invariant more ==> offset + 1 < |content|
        invariant ItemsState(content, first, depth, offset, more, DenoteItems(children))
        decreases |content| - offset, more
      {
        ok, children := ParseElement(children, before, first);
        if !ok { return None; }
        more := content[offset] == COMMA;
        NotAtEnd(content, offset);
      }
      ItemsDone(content, first, depth, offset, DenoteItems(children));
      if content[offset] != CLOSE_BRACKET {
        Delete(children, memory, before);
        return None;
      }
      return Some(children);
    }

    // One round of the loop: a node is attached, and then filled.
    method ParseElement(children: seq<Item>, ghost before: multiset<nat>, ghost first: nat)
      returns (ok: bool, grown: seq<Item>)
      requires Valid() && offset + 1 < |content| && memory.live == before + AllBlocks(children)
      requires first < |content| && ItemsState(content, first, depth, offset, true, DenoteItems(children))
      modifies this, memory
      ensures memory.Valid()
      ensures ok ==> Valid() && depth == old(depth) && offset > old(offset) + 1
      ensures ok ==> memory.live == before + AllBlocks(grown) && memory.refusals == old(memory.refusals)
      ensures ok ==> ItemsState(content, first, depth, offset, content[offset] == COMMA, DenoteItems(grown))
      ensures !ok ==> memory.live == before
      ensures !ok && ParseItems(content, first, old(depth)).Some? ==> memory.refusals > old(memory.refusals)
      decreases |content| - (offset + 1), 4
    {
      hide CString, AllBlocks, DenoteItems, ItemsState, JsonParse.ParseItems, JsonParse.ParseValue;
      var node := memory.Allocate(NODE_SIZE);
      if node.None? {
        Delete(children, memory, before);
        return false, children;
      }
      ghost var from, open := offset, depth;
      offset := offset + 1;
      SkipWhitespace();
      ghost var at := offset;
      var value := ParseValue();
      var item := Item(node.value, None, if value.Some? then value.value else Blank);
      grown := children + [item];
      AllBlocksSnoc(children, item);
      assert memory.live == before + AllBlocks(grown);
      if value.None? {
        ItemsFail(content, first, open, from, DenoteItems(children), at);
        Delete(grown, memory, before);
        return false, grown;
      }
      SkipWhitespace();
      DenoteSnoc(children, item);
      ItemsGrow(content, first, depth, from, DenoteItems(children), at, offset);
      return true, grown;
    }

    /** parse_object: names are strings of their own, handed to the node they name. */
    method ParseObject() returns (r: Option<Content>)
      requires Valid()
      modifies this, memory
      ensures memory.Valid()
      ensures r.Some? ==> Valid() && depth == old(depth) && offset > old(offset)
      ensures r.Some? ==> memory.live == old(memory.live) + ContentBlocks(r.value)
      ensures r.Some? ==> memory.refusals == old(memory.refusals)
      ensures r.Some? ==>
                JsonParse.ParseObject(content, old(offset), old(depth)) == Some(Parsed(DenoteContent(r.value), offset))
      ensures r.None? ==> memory.live == old(memory.live)
      ensures r.None? && JsonParse.ParseObject(content, old(offset), old(depth)).Some? ==>
                memory.refusals > old(memory.refusals)
      decreases |content| - offset, 2
    {
      hide CString, AllBlocks, DenoteMembers, SkipSpace, JsonParse.ParseMembers, Blocks, StrBlocks;
      if depth >= NESTING_LIMIT { return None; }
      depth := depth + 1;
      if content[offset] != OPEN_BRACE { return None; }
      NotAtEnd(content, offset);
      offset := offset + 1;
      SkipWhitespace();
      NothingYet();
      var children := [];
      if content[offset] != CLOSE_BRACE {
        var members := ParseMembers();
        if members.None? { return None; }
        children := members.value;
      }
      NotAtEnd(content, offset);
      depth := depth - 1;
      offset := offset + 1;
      return Some(IsObject(children));
    }

    // The loop through the comma separated members, up to the closing brace.
    method ParseMembers() returns (r: Option<seq<Item>>)
      requires Valid() && offset > 0 && (content[offset] > SPACE || offset == |content| - 1)
      modifies this, memory
      ensures memory.Valid()
      ensures r.Some? ==> Valid() && depth == old(depth) && offset > old(offset) && content[offset] == CLOSE_BRACE
      ensures r.Some? ==> memory.live == old(memory.live) + AllBlocks(r.value)
      ensures r.Some? ==> memory.refusals == old(memory.refusals)
      ensures r.Some? ==>
                JsonParse.ParseMembers(content, old(offset), depth) == Some(Parsed(DenoteMembers(r.value), offset + 1))
      ensures r.None? ==> memory.live == old(memory.live)
      ensures r.None? && JsonParse.ParseMembers(content, old(offset), old(depth)).Some? ==>
                memory.refusals > old(memory.refusals)
      decreases |content| - offset, 5
    {
      hide CString, AllBlocks, DenoteMembers, MembersState, JsonParse.ParseMembers;
      var more, ok, children := true, true, [];
      ghost var first, before := offset, memory.live;
      NothingYet();
      offset := offset - 1;
      SkipAgain(content, first);
      MembersBegin(content, first, depth, offset);
      while more
        invariant Valid() && (if more then first <= offset + 1 else first < offset) && depth == old(depth)
        invariant memory.live == before + AllBlocks(children) && memory.refusals == old(memory.refusals)
        invariant more ==> offset + 1 < |content|
        invariant MembersState(content, first, depth, offset, more, DenoteMembers(children))
        decreases |content| - offset, more
      {
        ok, children := ParseMember(children, before, first);
        if !ok { return None; }
        more := content[offset] == COMMA;
        NotAtEnd(content, offset);
      }
      MembersDone(content, first, depth, offset, DenoteMembers(children));
      if content[offset] != CLOSE_BRACE {
        Delete(children, memory, before);
        return None;
      }
      return Some(children);
    }

    // One round of the loop: a node, its name, a colon, and its value.
    method ParseMember(children: seq<Item>, ghost before: multiset<nat>, ghost first: nat)
      returns (ok: bool, grown: seq<Item>)
      requires Valid() && offset + 1 < |content| && memory.live == before + AllBlocks(children)
      requires first < |content| && MembersState(content, first, depth, offset, true, DenoteMembers(children))
      modifies this, memory
      ensures memory.Valid()
      ensures ok ==> Valid() && depth == old(depth) && offset > old(offset) + 1
      ensures ok ==> memory.live == before + AllBlocks(grown) && memory.refusals == old(memory.refusals)
      ensures ok ==> MembersState(content, first, depth, offset, content[offset] == COMMA, DenoteMembers(grown))
      ensures !ok ==> memory.live == before
      ensures !ok && JsonParse.ParseMembers(content, first, old(depth)).Some? ==> memory.refusals > old(memory.refusals)
      decreases |content| - (offset + 1), 4
    {
      hide CString, AllBlocks, DenoteMembers, MembersState, JsonParse.ParseMembers, JsonParse.ParseValue,
           JsonParse.ParseString, SkipSpace, MemberAt;
      var node := memory.Allocate(NODE_SIZE);
      if node.None? {
        Delete(children, memory, before);
        return false, children;
      }
      ghost var from, open, done := offset, depth, DenoteMembers(children);
      offset := offset + 1;
      SkipWhitespace();
      ghost var at := offset;
      var item := ParseNamed(node.value, before + AllBlocks(children));
      if item.None? {
        MembersFail(content, first, open, from, done, at);
        Delete(children, memory, before);
        return false, children;
      }
      grown := children + [item.value];
      AllBlocksSnoc(children, item.value);
      DenoteSnoc(children, item.value);
      ghost var end := offset;
      SkipWhitespace();
      MembersGrow(content, first, depth, from, done, at, Member(NameOf(item.value), Denote(item.value)), end);
      return true, grown;
    }

    // Name, colon and value of the node that has just been attached; on failure the node goes too.
    method ParseNamed(node: nat, ghost before: multiset<nat>) returns (r: Option<Item>)
      requires Valid() && memory.live == before + multiset{node}
      modifies this, memory
      ensures memory.Valid()
      ensures r.Some? ==> Valid() && depth == old(depth) && offset > old(offset)
      ensures r.Some? ==> memory.live == before + Blocks(r.value) && memory.refusals == old(memory.refusals)
      ensures r.Some? ==>
                MemberAt(content, old(offset), depth) == Some(Parsed(Member(NameOf(r.value), Denote(r.value)), offset))
      ensures r.None? ==> memory.live == before
      ensures r.None? && MemberAt(content, old(offset), old(depth)).Some? ==> memory.refusals > old(memory.refusals)
      decreases |content| - offset, 3
    {
      hide CString, JsonParse.ParseValue, JsonParse.ParseString, SkipSpace, ContentBlocks, DenoteContent;
      var name := ParseString();
      var item := Item(node, name, Blank);
      BlankBlocks(item, before);
      if name.None? {
        DeleteOne(item, memory, before);
        return None;
      }
      SkipWhitespace();
      if content[offset] != COLON {
        DeleteOne(item, memory, before);
        return None;
      }
      NotAtEnd(content, offset);
      offset := offset + 1;
      SkipWhitespace();
      var value := ParseValue();
      if value.None? {
        DeleteOne(item, memory, before);
        return None;
      }
      return Some(item.(content := value.value));
    }
  }

  lemma BlankBlocks(item: Item, before: multiset<nat>)
    requires item.content.Blank?
    ensures Blocks(item) == multiset{item.block} + StrBlocks(item.name)
    ensures before + multiset{item.block} + StrBlocks(item.name) == before + Blocks(item)
  {
  }

  /** A key, a colon and a value. */
  function MemberAt(s: Text, at: nat, depth: nat): (r: Option<Parsed<Member>>)
    requires CString(s) && at < |s|
    ensures r.Some? ==> at < r.value.end < |s|
  {
    match JsonParse.ParseString(s, at)
    case None => None
    case Some(key) =>
      var colon := SkipSpace(s, key.end);
      if s[colon] != COLON then None
      else
        match JsonParse.ParseValue(s, SkipSpace(s, colon + 1), depth)
        case None => None
        case Some(p) => Some(Parsed(Member(key.value, p.value), p.end))
  }

  lemma NothingYet()
    ensures AllBlocks([]) == multiset{} && DenoteItems([]) == [] && DenoteMembers([]) == []
  {
  }

  lemma NotAtEnd(s: Text, at: nat)
    requires CString(s) && at < |s|
    ensures s[at] != NUL ==> at + 1 < |s|
  {
  }

  lemma SkipAgain(s: Text, at: nat)
    requires CString(s) && at < |s| && (s[at] > SPACE || at == |s| - 1)
    ensures SkipSpace(s, at) == at
  {
  }

  function Prepend<T>(done: seq<T>, r: Option<Parsed<seq<T>>>): Option<Parsed<seq<T>>> {
    if r.None? then None else Some(Parsed(done + r.value.value, r.value.end))
  }

  // What has been read of an array's items, and what is still to be read behind `at`.
  ghost predicate ItemsState(s: Text, first: nat, depth: nat, at: nat, more: bool, done: seq<Json>)
    requires CString(s) && first < |s| && at < |s|
  {
    ParseItems(s, first, depth) ==
    if more then Prepend(done, ParseItems(s, SkipSpace(s, at + 1), depth))
    else if s[at] == CLOSE_BRACKET then Some(Parsed(done, at + 1))
    else None
  }

  lemma ItemsBegin(s: Text, first: nat, depth: nat, at: nat)
    requires CString(s) && first < |s| && at + 1 == first && SkipSpace(s, first) == first
    ensures ItemsState(s, first, depth, at, true, [])
  {
    hide ParseItems;
    var r := ParseItems(s, first, depth);
    assert r.Some? ==> [] + r.value.value == r.value.value;
  }

  lemma ItemsDone(s: Text, first: nat, depth: nat, at: nat, done: seq<Json>)
    requires CString(s) && first < |s| && at < |s| && ItemsState(s, first, depth, at, false, done)
    ensures ParseItems(s, first, depth) == if s[at] == CLOSE_BRACKET then Some(Parsed(done, at + 1)) else None
  {
    hide ParseItems;
  }

  lemma ItemsFail(s: Text, first: nat, depth: nat, from: nat, done: seq<Json>, at: nat)
    requires CString(s) && first < |s| && from < |s| && ItemsState(s, first, depth, from, true, done)
    requires at == SkipSpace(s, from + 1)
    ensures JsonParse.ParseValue(s, at, depth).None? ==> ParseItems(s, first, depth).None?
  {
    hide JsonParse.ParseValue;
  }

  lemma ItemsGrow(s: Text, first: nat, depth: nat, from: nat, done: seq<Json>, at: nat, next: nat)
    requires CString(s) && first < |s| && from < |s| && ItemsState(s, first, depth, from, true, done)
    requires at == SkipSpace(s, from + 1) && JsonParse.ParseValue(s, at, depth).Some?
    requires next == SkipSpace(s, JsonParse.ParseValue(s, at, depth).value.end)
    ensures ItemsState(s, first, depth, next, s[next] == COMMA, done + [JsonParse.ParseValue(s, at, depth).value.value])
  {
    var v := JsonParse.ParseValue(s, at, depth).value.value;
    hide JsonParse.ParseValue;
    if s[next] == COMMA {
      var r := ParseItems(s, SkipSpace(s, next + 1), depth);
      if r.Some? { assert done + ([v] + r.value.value) == done + [v] + r.value.value; }
    }
  }

  ghost predicate MembersState(s: Text, first: nat, depth: nat, at: nat, more: bool, done: seq<Member>)
    requires CString(s) && first < |s| && at < |s|
  {
    JsonParse.ParseMembers(s, first, depth) ==
    if more then Prepend(done, JsonParse.ParseMembers(s, SkipSpace(s, at + 1), depth))
    else if s[at] == CLOSE_BRACE then Some(Parsed(done, at + 1))
    else None
  }

  lemma MembersBegin(s: Text, first: nat, depth: nat, at: nat)
    requires CString(s) && first < |s| && at + 1 == first && SkipSpace(s, first) == first
    ensures MembersState(s, first, depth, at, true, [])
  {
    hide JsonParse.ParseMembers;
    var r := JsonParse.ParseMembers(s, first, depth);
    assert r.Some? ==> [] + r.value.value == r.value.value;
  }

  lemma MembersDone(s: Text, first: nat, depth: nat, at: nat, done: seq<Member>)
    requires CString(s) && first < |s| && at < |s| && MembersState(s, first, depth, at, false, done)
    ensures JsonParse.ParseMembers(s, first, depth) ==
            if s[at] == CLOSE_BRACE then Some(Parsed(done, at + 1)) else None
  {
    hide JsonParse.ParseMembers;
  }

  lemma MembersFail(s: Text, first: nat, depth: nat, from: nat, done: seq<Member>, at: nat)
    requires CString(s) && first < |s| && from < |s| && MembersState(s, first, depth, from, true, done)
    requires at == SkipSpace(s, from + 1)
    ensures MemberAt(s, at, depth).None? ==> JsonParse.ParseMembers(s, first, depth).None?
  {
    hide JsonParse.ParseValue, JsonParse.ParseString;
  }

  lemma MembersGrow(s: Text, first: nat, depth: nat, from: nat, done: seq<Member>, at: nat, member: Member, end: nat)
    requires CString(s) && first < |s| && from < |s| && MembersState(s, first, depth, from, true, done)
    requires at == SkipSpace(s, from + 1) && MemberAt(s, at, depth) == Some(Parsed(member, end)) && end < |s|
    ensures var next := SkipSpace(s, end);
            MembersState(s, first, depth, next, s[next] == COMMA, done + [member])
  {
    var next := SkipSpace(s, end);
    MembersFromMember(s, at, depth, member, end);
    hide JsonParse.ParseMembers, MemberAt, SkipSpace, CString;
    var whole := JsonParse.ParseMembers(s, first, depth);
    assert whole == Prepend(done, JsonParse.ParseMembers(s, at, depth));
    PrependOne(done, member, next + 1);
    if s[next] == COMMA {
      PrependTwice(done, [member], JsonParse.ParseMembers(s, SkipSpace(s, next + 1), depth));
    }
    hide Prepend;
    assert whole == if s[next] == COMMA
                    then Prepend(done + [member], JsonParse.ParseMembers(s, SkipSpace(s, next + 1), depth))
                    else if s[next] == CLOSE_BRACE then Some(Parsed(done + [member], next + 1))
                    else None;
  }

  lemma PrependOne<T>(a: seq<T>, b: T, end: nat)
    ensures Prepend(a, Some(Parsed([b], end))) == Some(Parsed(a + [b], end)) && Prepend(a, None) == None
  {
  }

  lemma PrependTwice<T>(a: seq<T>, b: seq<T>, r: Option<Parsed<seq<T>>>)
    ensures Prepend(a, Prepend(b, r)) == Prepend(a + b, r)
  {
    if r.Some? { assert a + (b + r.value.value) == a + b + r.value.value; }
  }

  lemma MembersFromMember(s: Text, at: nat, depth: nat, member: Member, end: nat)
    requires CString(s) && at < |s| && MemberAt(s, at, depth) == Some(Parsed(member, end)) && end < |s|
    ensures var i := SkipSpace(s, end);
            JsonParse.ParseMembers(s, at, depth) ==
            if s[i] == COMMA then Prepend([member], JsonParse.ParseMembers(s, SkipSpace(s, i + 1), depth))
            else if s[i] == CLOSE_BRACE then Some(Parsed([member], i + 1))
            else None
  {
    hide JsonParse.ParseValue, JsonParse.ParseString, SkipSpace;
  }

  lemma {:induction false} UpToNulIs(t: Text, n: nat)
    requires n <= |t| && (forall i :: 0 <= i < n ==> t[i] != NUL) && (n < |t| ==> t[n] == NUL)
    ensures UpToNul(t) == t[..n]
  {
    if n > 0 {
      UpToNulIs(t[1..], n - 1);
      assert t[..n] == [t[0]] + t[1..][..n - 1];
    }
  }

  function Shifted(c: nat, n: nat): nat { if n == 0 then c else Shifted(c, n - 1) / 64 }

  lemma ShiftOnce(c: nat, n: nat)
    ensures Shifted(c, 0) == c && Shifted(c, n + 1) == Shifted(c, n) / 64
  {
  }

  lemma Utf8Length(c: nat)
    requires c < 0x110000
    ensures |Utf8(c)| == if c < 0x80 then 1 else if c < 0x800 then 2 else if c < 0x10000 then 3 else 4
  {
  }

  lemma ContinuationByte(code: nat, length: nat, i: nat)
    requires code < 0x110000 && length == |Utf8(code)| && 0 < i < length
    ensures Utf8(code)[i] == 0x80 + Shifted(code, length - 1 - i) % 64
  {
    ShiftedBy(code);
  }

  lemma ShiftedBy(c: nat)
    ensures Shifted(c, 0) == c && Shifted(c, 1) == c / 64 && Shifted(c, 2) == c / 4096 && Shifted(c, 3) == c / 262144
  {
    assert Shifted(c, 1) == Shifted(c, 0) / 64;
    assert Shifted(c, 2) == Shifted(c, 1) / 64 == c / 4096;
    assert Shifted(c, 3) == Shifted(c, 2) / 64 == c / 262144;
  }

  lemma LeadByte(code: nat, length: nat)
    requires code < 0x110000 && length == |Utf8(code)|
    ensures Utf8(code)[0] == Shifted(code, length - 1) +
                             if length == 1 then 0 else if length == 2 then 0xC0 else if length == 3 then 0xE0 else 0xF0
  {
    ShiftedBy(code);
  }

  lemma Terminated(text: Text)
    requires NulFree(text)
    ensures CString(text + [NUL])
  {
  }

  /** cJSON_ParseWithOpts: a tree that owns every block allocated for it, or nothing allocated; and
      unless memory is refused, success exactly when the text says so. */
  method ParseWithOpts(text: Option<Text>, whole: bool, memory: Memory) returns (r: Option<Item>, end: nat)
    requires memory.Valid() && (text.Some? ==> NulFree(text.value))
    modifies memory
    ensures memory.Valid()
    ensures r.Some? ==> text.Some? && ParseText(text.value, whole) == Some(Parsed(Denote(r.value), end))
    ensures r.Some? ==> memory.live == old(memory.live) + Blocks(r.value) && memory.refusals == old(memory.refusals)
    ensures r.None? ==> memory.live == old(memory.live)
    ensures r.None? && text.Some? && ParseText(text.value, whole).Some? ==> memory.refusals > old(memory.refusals)
  {
    hide JsonParse.ParseValue, SkipSpace, SkipBom, ContentBlocks, DenoteContent, CString, NulFree;
    end := 0;
    if text.None? { return None, end; }
    var content := text.value + [NUL];
    Terminated(text.value);
    var buffer := new ParseBuffer(content, memory);
    ghost var before := memory.live;
    var node := memory.Allocate(NODE_SIZE);
    if node.None? { return None, end; }
    buffer.SkipUtf8Bom();
    buffer.SkipWhitespace();
    var item := Item(node.value, None, Blank);
    BlankBlocks(item, before);
    var value := buffer.ParseValue();
    if value.None? {
      DeleteOne(item, memory, before);
      return None, end;
    }
    item := item.(content := value.value);
    end := buffer.offset;
    if whole {
      buffer.SkipWhitespace();
      end := buffer.offset;
      if content[end] != NUL {
        DeleteOne(item, memory, before);
        return None, end;
      }
    }
    return Some(item), end;
  }
}
