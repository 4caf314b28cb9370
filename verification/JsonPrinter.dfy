/** The printer as it runs: a buffer that is filled in place and, when it is too small, replaced by a
    larger copy (cJSON/cJSON.c:365-541, 830-956, 1091-1213, 1270-1342, 1438-1498, 1609-1721).
    internal_realloc is empty in this build, so `ensure` always copies by hand. */
module JsonPrinter {
  import opened Bytes
  import opened JsonItems
  import opened JsonRoundTrip
  import opened JsonText
  import opened Wrappers

  const INT_MAX: nat := 0x7FFF_FFFF

  function Extra(b: Byte): nat { |Escape(b)| - 1 }

  /** What the first loop of print_string_ptr counts. */
  function EscapeCount(t: Text): nat {
    if |t| == 0 then 0 else Extra(t[0]) + EscapeCount(t[1..])
  }

  /** The count is exactly what escaping adds. */
  lemma {:induction false} EscapeCountIsExact(t: Text)
    ensures |EscapeAll(t)| == |t| + EscapeCount(t)
    ensures EscapeCount(t) == 0 ==> EscapeAll(t) == t
  {
    if |t| > 0 {
      EscapeCountIsExact(t[1..]);
      assert t == [t[0]] + t[1..];
    }
  }

  lemma {:induction false} CountFrom(t: Text, i: nat)
    requires i < |t|
    ensures EscapeCount(t[i..]) == Extra(t[i]) + EscapeCount(t[i + 1..])
    ensures EscapeAll(t[i..]) == Escape(t[i]) + EscapeAll(t[i + 1..])
  {
    assert t[i..][1..] == t[i + 1..];
  }

  // memcpy
  method CopyBytes(to: array<Byte>, from: array<Byte>, n: nat)
    requires n <= to.Length && n <= from.Length && to != from
    modifies to
    ensures to[..n] == from[..n]
  {
    var i := 0;
    while i < n
      invariant i <= n && to[..i] == from[..i]
    {
      to[i] := from[i];
      i := i + 1;
    }
  }

  class PrintBuffer {
    var buffer: array?<Byte>
    var block: nat
    var offset: nat
    var depth: nat
    const noalloc: bool
    const format: bool
    const show: Show
    const memory: Memory
    /** No text that needs more room than this can be printed. */
    ghost const limit: nat
    /** What is allocated apart from the buffer. */
    ghost const others: multiset<nat>

    ghost predicate Valid()
      reads `buffer, `block, `offset, memory
    {
      && memory.Valid() && memory.live == others + (if buffer != null && !noalloc then multiset{block} else multiset{})
      && (buffer != null ==> offset < buffer.Length <= limit <= INT_MAX)
      && (noalloc ==> buffer != null && buffer.Length == limit)
      && (!noalloc ==> limit == INT_MAX)
    }

    ghost predicate Ready()
      reads `buffer, `block, `offset, memory
    {
      Valid() && buffer != null
    }

    constructor (buffer: array<Byte>, block: nat, noalloc: bool, format: bool, show: Show, memory: Memory,
                 ghost others: multiset<nat>)
      requires memory.Valid() && 0 < buffer.Length <= INT_MAX
      requires memory.live == others + if noalloc then multiset{} else multiset{block}
      ensures Valid() && this.buffer == buffer && offset == 0 && depth == 0
      ensures this.noalloc == noalloc && this.format == format && this.show == show && this.memory == memory
      ensures this.others == others && limit == if noalloc then buffer.Length else INT_MAX
    {
      this.buffer, this.block, offset, depth := buffer, block, 0, 0;
      this.noalloc, this.format, this.show, this.memory := noalloc, format, show, memory;
      this.others, limit := others, if noalloc then buffer.Length else INT_MAX;
    }

    /** What has been printed up to the offset. */
    ghost function Done(): Text
      reads `buffer, `offset, buffer
    {
      if buffer == null || offset > buffer.Length then [] else buffer[..offset]
    }

    /** ensure: room for `needed` more bytes, in this buffer or in a larger one that starts with the
        same bytes. When that is not possible a buffer of its own is gone. */
    method Ensure(needed: nat) returns (ok: bool)
      requires Valid() && buffer != null
      modifies this`buffer, this`block, memory
      ensures Valid()
      ensures buffer == old(buffer) || (!noalloc && (buffer == null || fresh(buffer)))
      ensures ok ==> buffer != null && offset + needed + 1 <= buffer.Length && memory.refusals == old(memory.refusals)
      ensures ok ==> Done() == old(Done())
      ensures !ok ==> (memory.refusals > old(memory.refusals) && !noalloc) || offset + needed + 1 > limit
      ensures ok ==> offset + needed + 1 <= limit
    {
      if needed > INT_MAX { return false; }
      var total := needed + offset + 1;
      if total <= buffer.Length { return true; }
      if noalloc { return false; }
      var size := 2 * total;
      if total > INT_MAX / 2 {
        if total <= INT_MAX { size := INT_MAX; } else { return false; }
      }
      ghost var before := memory.live;
      var larger := memory.Allocate(size);
      if larger.None? {
        memory.Free(block, others);
        buffer := null;
        return false;
      }
      var copy := new Byte[size];
      CopyBytes(copy, buffer, offset + 1);
      assert copy[..offset] == copy[..offset + 1][..offset];
      assert buffer[..offset] == buffer[..offset + 1][..offset];
      memory.Free(block, others + multiset{larger.value});
      block := larger.value;
      buffer := copy;
      ok := true;
    }

    /** update_offset: to the NUL behind what has been printed. */
    method UpdateOffset(ghost end: nat)
      requires buffer != null && offset <= end < buffer.Length && buffer[end] == NUL
      requires forall i :: offset <= i < end ==> buffer[i] != NUL
      modifies this`offset
      ensures offset == end
    {
      while buffer[offset] != NUL
        invariant offset <= end
        decreases end - offset
      {
        offset := offset + 1;
      }
    }

    // Bytes written one behind the other through the output pointer.
    method Write(t: Text, at: nat)
      requires buffer != null && at + |t| <= buffer.Length
      modifies buffer
      ensures buffer[..at + |t|] == old(buffer[..at]) + t
      ensures forall k :: at + |t| <= k < buffer.Length ==> buffer[k] == old(buffer[k])
    {
      var i := 0;
      while i < |t|
        invariant i <= |t| && buffer[..at + i] == old(buffer[..at]) + t[..i]
        invariant forall k :: at + i <= k < buffer.Length ==> buffer[k] == old(buffer[k])
      {
        buffer[at + i] := t[i];
        i := i + 1;
      }
    }

    /** `t` stands behind what was printed before, and a NUL behind it; update_offset will get there
        from where the offset is. */
    ghost predicate Printed(at: nat, before: Text, t: Text)
      reads `buffer, `offset, buffer
    {
      && buffer != null && |before| == at && at + |t| < buffer.Length
      && buffer[..at + |t| + 1] == before + (t + [NUL]) && at <= offset <= at + |t|
    }

    /** Printing succeeds exactly when two more bytes than the text needs are within the limit and no
        allocation has been refused. */
    ghost predicate Outcome(ok: bool, at: nat, before: Text, t: Text, refusals: nat)
      reads `buffer, `offset, buffer, memory
    {
      if ok then Printed(at, before, t) && at + |t| + 2 <= limit && memory.refusals == refusals
      else (memory.refusals > refusals && !noalloc) || at + |t| + 2 > limit
    }

    // What is printed behind a text that stands there already is printed together with it.
    lemma PrintedTogether(ok: bool, at: nat, before: Text, a: Text, t: Text, refusals: nat)
      requires Outcome(ok, at + |a|, before + a, t, refusals)
      ensures Outcome(ok, at, before, a + t, refusals)
    {
      assert (before + a) + (t + [NUL]) == before + ((a + t) + [NUL]);
    }

    // The first loop of print_string_ptr.
    method CountEscapes(t: Text) returns (n: nat)
      ensures n == EscapeCount(t)
    {
      n := 0;
      var i := 0;
      assert t[0..] == t;
      while i < |t|
        invariant i <= |t| && n + EscapeCount(t[i..]) == EscapeCount(t)
      {
        CountFrom(t, i);
        n := n + Extra(t[i]);
        i := i + 1;
      }
    }

    // The second loop of print_string_ptr.
    method WriteEscaped(t: Text, at: nat)
      requires buffer != null && at + |EscapeAll(t)| <= buffer.Length
      modifies buffer
      ensures buffer[..at + |EscapeAll(t)|] == old(buffer[..at]) + EscapeAll(t)
    {
      hide EscapeAll, Escape;
      var i, p := 0, at;
      ghost var whole := buffer[..at] + EscapeAll(t);
      assert t[0..] == t;
      while i < |t|
        invariant i <= |t| && at <= p && p + |EscapeAll(t[i..])| == at + |EscapeAll(t)| <= buffer.Length
        invariant buffer[..p] + EscapeAll(t[i..]) == whole
      {
        CountFrom(t, i);
        Assoc(buffer[..p], Escape(t[i]), EscapeAll(t[i + 1..]));
        Write(Escape(t[i]), p);
        p := p + |Escape(t[i])|;
        i := i + 1;
      }
      NothingToEscape(buffer[..p]);
      assert t[i..] == [];
    }

    lemma NothingToEscape(t: Text)
      ensures EscapeAll([]) == [] && t + [] == t
    {
    }

    // Quotes, contents and NUL, once there is room for them.
    method WriteString(t: Text, escapes: nat, at: nat)
      requires buffer != null && escapes == EscapeCount(t) && at + |t| + escapes + 3 <= buffer.Length
      modifies buffer
      ensures |RenderString(t)| == |t| + escapes + 2
      ensures buffer[..at + |RenderString(t)| + 1] == old(buffer[..at]) + (RenderString(t) + [NUL])
    {
      EscapeCountIsExact(t);
      hide EscapeAll, EscapeCount;
      ghost var before := buffer[..at];
      var length := |t| + escapes;
      Write([QUOTE], at);
      if escapes == 0 {
        Write(t, at + 1);
      } else {
        WriteEscaped(t, at + 1);
      }
      Write([QUOTE, NUL], at + 1 + length);
      StringText(before, EscapeAll(t));
    }

    lemma StringText(before: Text, t: Text)
      ensures before + [QUOTE] + t + [QUOTE, NUL] == before + (([QUOTE] + t + [QUOTE]) + [NUL])
    {
    }

    /** print_string_ptr */
    method PrintString(t: Text) returns (ok: bool)
      requires Valid() && buffer != null && NulFree(t)
      modifies this`buffer, this`block, buffer, memory
      ensures Valid() && (buffer == old(buffer) || (!noalloc && (buffer == null || fresh(buffer))))
      ensures Outcome(ok, offset, old(Done()), RenderString(t), old(memory.refusals))
    {
      hide EscapeCount, RenderString;
      var escapes := CountEscapes(t);
      StringLength(t);
      ok := Ensure(|t| + escapes + 3);
      if !ok { return; }
      WriteString(t, escapes, offset);
    }

    lemma StringLength(t: Text)
      ensures |RenderString(t)| == |t| + EscapeCount(t) + 2
    {
      EscapeCountIsExact(t);
    }

    // A text and its NUL, the offset staying in front of them.
    method Put(needed: nat, t: Text) returns (ok: bool)
      requires Valid() && buffer != null && needed == |t| + 1
      modifies this`buffer, this`block, buffer, memory
      ensures Valid() && (buffer == old(buffer) || (!noalloc && (buffer == null || fresh(buffer))))
      ensures Outcome(ok, offset, old(Done()), t, old(memory.refusals))
    {
      ok := Ensure(needed);
      if !ok { return; }
      Write(t + [NUL], offset);
    }

    /** print_value for null, false and true */
    method PrintLiteral(t: Text) returns (ok: bool)
      requires Valid() && buffer != null
      modifies this`buffer, this`block, buffer, memory
      ensures Valid() && (buffer == old(buffer) || (!noalloc && (buffer == null || fresh(buffer))))
      ensures Outcome(ok, offset, old(Done()), t, old(memory.refusals))
    {
      ok := Put(|t| + 1, t);
    }

    /** print_number */
    method PrintNumber(value: real) returns (ok: bool)
      requires Valid() && buffer != null
      modifies this`buffer, this`block, this`offset, buffer, memory
      ensures Valid() && (buffer == old(buffer) || (!noalloc && (buffer == null || fresh(buffer))))
      ensures Outcome(ok, old(offset), old(Done()), show(value), old(memory.refusals))
    {
      ok := PrintLiteral(show(value));
      if ok { offset := offset + |show(value)|; }
    }

    // What update_offset finds behind a text that has been printed.
    method Settle(ghost at: nat, ghost before: Text, ghost t: Text)
      requires Ready() && Printed(at, before, t) && NulFree(t)
      modifies this`offset
      ensures Ready() && offset == at + |t| && Done() == before + t
    {
      ghost var all := buffer[..at + |t| + 1];
      forall i | at <= i <= at + |t| ensures buffer[i] == (t + [NUL])[i - at] {
        assert buffer[i] == all[i];
      }
      assert buffer[at + |t|] == NUL;
      forall i | at <= i < at + |t| ensures buffer[i] != NUL {
        assert t[i - at] in t;
      }
      assert buffer[..at + |t|] == all[..at + |t|];
      assert (before + (t + [NUL]))[..at + |t|] == before + t;
      UpdateOffset(at + |t|);
    }

    /** `t` has been appended and the offset stands behind it; or it does not fit, or an allocation
        has been refused. */
    ghost predicate Went(ok: bool, at: nat, level: nat, before: Text, refusals: nat, t: Text, slack: nat)
      reads `buffer, `block, `offset, `depth, buffer, memory
    {
      if ok then Ready() && depth == level && offset == at + |t| && Done() == before + t && memory.refusals == refusals
      else Valid() && ((memory.refusals > refusals && !noalloc) || at + |t| + slack > limit)
    }

    lemma WentFurther(ok: bool, at: nat, level: nat, before: Text, refusals: nat, a: Text, b: Text, slack: nat)
      requires Went(ok, at + |a|, level, before + a, refusals, b, slack)
      ensures Went(ok, at, level, before, refusals, a + b, slack)
    {
      Assoc(before, a, b);
    }

    lemma WentNoFurther(at: nat, level: nat, before: Text, refusals: nat, a: Text, b: Text, slack: nat, more: nat)
      requires Went(false, at, level, before, refusals, a, slack) && slack <= more + |b|
      ensures Went(false, at, level, before, refusals, a + b, more)
    {
    }

    lemma WentWhere(at: nat, level: nat, before: Text, refusals: nat, t: Text, slack: nat)
      requires Went(true, at, level, before, refusals, t, slack)
      ensures Ready() && depth == level && offset == at + |t| && Done() == before + t && memory.refusals == refusals
    {
    }

    // Bytes written at the offset, which moves behind them. The NUL that some of them are followed by
    // is left out: what is printed next overwrites it.
    method Append(needed: nat, t: Text) returns (ok: bool)
      requires Ready() && |t| <= needed
      modifies this`buffer, this`block, this`offset, buffer, memory
      ensures buffer == old(buffer) || (!noalloc && (buffer == null || fresh(buffer)))
      ensures Went(ok, old(offset), depth, old(Done()), old(memory.refusals), t, needed + 1 - |t|)
    {
      ok := Ensure(needed);
      if !ok { return; }
      Write(t, offset);
      offset := offset + |t|;
    }

    /** print_value */
    method PrintValue(v: Json) returns (ok: bool)
      requires Ready() && CStrings(v)
      modifies this, buffer, memory
      ensures buffer == old(buffer) || (!noalloc && (buffer == null || fresh(buffer)))
      ensures Valid() && (ok ==> depth == old(depth))
      ensures Outcome(ok, old(offset), old(Done()), Render(v, show, format, old(depth)), old(memory.refusals))
      decreases v, 2
    {
      hide PrintBuffer.Outcome, RenderString, RenderItems, RenderMembers, NulFree;
      match v
      case Null => ok := PrintLiteral(JsonText.NULL);
      case False => ok := PrintLiteral(FALSE);
      case True => ok := PrintLiteral(TRUE);
      case Number(value) => ok := PrintNumber(value);
      case String(text) => ok := PrintString(text);
      case Array(items) => ok := PrintArray(items);
      case Object(members) => ok := PrintObject(members);
    }

    // The bracket or brace that ends a value.
    method Close(needed: nat, t: Text) returns (ok: bool)
      requires Ready() && depth > 0 && needed == |t| + 1
      modifies this, buffer, memory
      ensures buffer == old(buffer) || (!noalloc && (buffer == null || fresh(buffer)))
      ensures Valid() && (ok ==> depth == old(depth) - 1)
      ensures Outcome(ok, old(offset), old(Done()), t, old(memory.refusals))
    {
      hide PrintBuffer.Outcome, PrintBuffer.Valid;
      ok := Put(needed, t);
      depth := depth - 1;
    }

    lemma Unfinished(at: nat, level: nat, before: Text, refusals: nat, start: Text, close: Text)
      requires Went(false, at, level, before, refusals, start, 2)
      ensures Valid() && Outcome(false, at, before, start + close, refusals)
    {
    }

    /** print_array */
    method PrintArray(items: seq<Json>) returns (ok: bool)
      requires Ready() && ItemsCStrings(items)
      modifies this, buffer, memory
      ensures buffer == old(buffer) || (!noalloc && (buffer == null || fresh(buffer)))
      ensures Valid() && (ok ==> depth == old(depth))
      ensures Outcome(ok, old(offset), old(Done()), Render(Array(items), show, format, old(depth)),
                old(memory.refusals))
      decreases items, 3
    {
      ContainerText(items, [], show, format, depth);
      hide ItemsCStrings, PrintBuffer.Outcome, PrintBuffer.Went, PrintBuffer.Valid, PrintBuffer.Done, Render,
          RenderItems;
      ghost var at, level, before, refusals := offset, depth, Done(), memory.refusals;
      ghost var start := [OPEN_BRACKET] + RenderItems(items, show, format, level + 1);
      ok := PrintArrayStart(items);
      if ok {
        WentWhere(at, level + 1, before, refusals, start, 2);
        ok := Close(2, [CLOSE_BRACKET]);
        PrintedTogether(ok, at, before, start, [CLOSE_BRACKET], refusals);
      } else {
        Unfinished(at, level + 1, before, refusals, start, [CLOSE_BRACKET]);
      }
    }

    // The opening bracket and the elements.
    method PrintArrayStart(items: seq<Json>) returns (ok: bool)
      requires Ready() && ItemsCStrings(items)
      modifies this, buffer, memory
      ensures buffer == old(buffer) || (!noalloc && (buffer == null || fresh(buffer)))
      ensures Went(ok, old(offset), old(depth) + 1, old(Done()), old(memory.refusals),
                   [OPEN_BRACKET] + RenderItems(items, show, format, old(depth) + 1), 2)
      decreases items, 2
    {
      hide ItemsCStrings, PrintBuffer.Went, PrintBuffer.Valid, PrintBuffer.Done, RenderItems;
      ghost var at, level, before, refusals := offset, depth, Done(), memory.refusals;
      ghost var inner := RenderItems(items, show, format, level + 1);
      ok := Append(1, [OPEN_BRACKET]);
      if ok {
        WentWhere(at, level, before, refusals, [OPEN_BRACKET], 1);
        depth := depth + 1;
        ok := PrintElements(items);
        WentFurther(ok, at, level + 1, before, refusals, [OPEN_BRACKET], inner, 2);
      } else {
        WentElsewhere(at, level, level + 1, before, refusals, [OPEN_BRACKET], 1);
        WentNoFurther(at, level + 1, before, refusals, [OPEN_BRACKET], inner, 1, 2);
      }
    }

    lemma WentElsewhere(at: nat, level: nat, other: nat, before: Text, refusals: nat, t: Text, slack: nat)
      requires Went(false, at, level, before, refusals, t, slack)
      ensures Went(false, at, other, before, refusals, t, slack)
    {
    }

    // The loop over the elements.
    method PrintElements(items: seq<Json>) returns (ok: bool)
      requires Ready() && ItemsCStrings(items)
      modifies this, buffer, memory
      ensures buffer == old(buffer) || (!noalloc && (buffer == null || fresh(buffer)))
      ensures Went(ok, old(offset), old(depth), old(Done()), old(memory.refusals),
                   RenderItems(items, show, format, old(depth)), 2)
      decreases items, 1
    {
      hide ItemsCStrings, PrintBuffer.Went, PrintBuffer.Valid, PrintBuffer.Done, RenderItems, Render,
           Separator;
      ghost var at, level, before, refusals := offset, depth, Done(), memory.refusals;
      ghost var whole, done: Text := RenderItems(items, show, format, level), [];
      var i := 0;
      ok := true;
      GoesNowhere();
      assert items[0..] == items && [] + whole == whole;
      while i < |items|
        invariant i <= |items| && Ready() && (buffer == old(buffer) || (!noalloc && fresh(buffer))) && buffer != null
        invariant Went(true, at, level, before, refusals, done, 2) && ItemsCStrings(items[i..])
        invariant done + RenderItems(items[i..], show, format, level) == whole
      {
        WentWhere(at, level, before, refusals, done, 2);
        ItemsFrom(items, i, show, format, level);
        ghost var piece := Render(items[i], show, format, level) + Separator(format, i + 1 < |items|);
        ghost var rest := RenderItems(items[i + 1..], show, format, level);
        Assoc(done, piece, rest);
        ok := PrintElement(items[i], i + 1 < |items|);
        WentFurther(ok, at, level, before, refusals, done, piece, 2);
        done := done + piece;
        if !ok {
          WentNoFurther(at, level, before, refusals, done, rest, 2, 2);
          return;
        }
        WentWhere(at, level, before, refusals, done, 2);
        i := i + 1;
      }
      assert items[i..] == [];
      NoItemsText(show, format, level);
      assert done + [] == done;
    }

    lemma GoesNowhere()
      requires Ready()
      ensures Went(true, offset, depth, Done(), memory.refusals, [], 2)
    {
      assert Done() + [] == Done();
    }

    // One round of the loop: the element, and a separator when there is another one.
    method PrintElement(v: Json, more: bool) returns (ok: bool)
      requires Ready() && CStrings(v)
      modifies this, buffer, memory
      ensures buffer == old(buffer) || (!noalloc && (buffer == null || fresh(buffer)))
      ensures Went(ok, old(offset), old(depth), old(Done()), old(memory.refusals),
                   Render(v, show, format, old(depth)) + Separator(format, more), 2)
      decreases v, 4
    {
      hide CStrings, PrintBuffer.Went, PrintBuffer.Valid, PrintBuffer.Done, Render, Separator;
      ghost var at, level, before, refusals := offset, depth, Done(), memory.refusals;
      ghost var text := Render(v, show, format, level);
      ok := PrintWhole(v);
      if ok {
        WentWhere(at, level, before, refusals, text, 2);
        ok := PrintSeparator(more);
        WentFurther(ok, at, level, before, refusals, text, Separator(format, more), 2);
      } else {
        WentNoFurther(at, level, before, refusals, text, Separator(format, more), 2, 2);
      }
    }

    method PrintSeparator(more: bool) returns (ok: bool)
      requires Ready()
      modifies this, buffer, memory
      ensures buffer == old(buffer) || (!noalloc && (buffer == null || fresh(buffer)))
      ensures Went(ok, old(offset), old(depth), old(Done()), old(memory.refusals),
                   Separator(format, more), 2)
    {
      hide PrintBuffer.Went, PrintBuffer.Valid, PrintBuffer.Done;
      if more {
        ok := Append(if format then 3 else 2, Separator(format, true));
      } else {
        GoesNowhere();
        ok := true;
      }
    }

    // print_value and update_offset
    method PrintWhole(v: Json) returns (ok: bool)
      requires Ready() && CStrings(v)
      modifies this, buffer, memory
      ensures buffer == old(buffer) || (!noalloc && (buffer == null || fresh(buffer)))
      ensures Went(ok, old(offset), old(depth), old(Done()), old(memory.refusals),
                   Render(v, show, format, old(depth)), 2)
      ensures ok ==> offset + 2 <= limit
      decreases v, 3
    {
      hide CStrings, PrintBuffer.Valid, PrintBuffer.Done, Render, NulFree;
      ghost var at, before := offset, Done();
      ok := PrintValue(v);
      if ok {
        RenderNulFree(v, show, format, depth);
        Settle(at, before, Render(v, show, format, depth));
      }
    }

    /** print_object */
    method PrintObject(members: seq<Member>) returns (ok: bool)
      requires Ready() && MembersCStrings(members)
      modifies this, buffer, memory
      ensures buffer == old(buffer) || (!noalloc && (buffer == null || fresh(buffer)))
      ensures Valid() && (ok ==> depth == old(depth))
      ensures Outcome(ok, old(offset), old(Done()), Render(Object(members), show, format, old(depth)),
                old(memory.refusals))
      decreases members, 3
    {
      ContainerText([], members, show, format, depth);
      PiecesLength(format, depth);
      hide MembersCStrings, PrintBuffer.Outcome, PrintBuffer.Went, PrintBuffer.Valid, PrintBuffer.Done, Render,
           RenderMembers, OpenObject, CloseObject;
      ghost var at, level, before, refusals := offset, depth, Done(), memory.refusals;
      ghost var start := OpenObject(format) + RenderMembers(members, show, format, level + 1);
      ok := PrintObjectStart(members);
      if ok {
        WentWhere(at, level + 1, before, refusals, start, 2);
        ok := Close(if format then depth + 1 else 2, CloseObject(format, depth - 1));
        PrintedTogether(ok, at, before, start, CloseObject(format, level), refusals);
      } else {
        Unfinished(at, level + 1, before, refusals, start, CloseObject(format, level));
      }
    }

    // The opening brace and the members.
    method PrintObjectStart(members: seq<Member>) returns (ok: bool)
      requires Ready() && MembersCStrings(members)
      modifies this, buffer, memory
      ensures buffer == old(buffer) || (!noalloc && (buffer == null || fresh(buffer)))
      ensures Went(ok, old(offset), old(depth) + 1, old(Done()), old(memory.refusals),
                   OpenObject(format) + RenderMembers(members, show, format, old(depth) + 1), 2)
      decreases members, 2
    {
      PiecesLength(format, depth);
      hide MembersCStrings, PrintBuffer.Went, PrintBuffer.Valid, PrintBuffer.Done, RenderMembers, OpenObject;
      ghost var at, level, before, refusals := offset, depth, Done(), memory.refusals;
      ghost var open, inner := OpenObject(format), RenderMembers(members, show, format, level + 1);
      ok := Append(if format then 3 else 2, OpenObject(format));
      if ok {
        WentWhere(at, level, before, refusals, open, 2);
        depth := depth + 1;
        ok := PrintMembers(members);
        WentFurther(ok, at, level + 1, before, refusals, open, inner, 2);
      } else {
        WentElsewhere(at, level, level + 1, before, refusals, open, 2);
        WentNoFurther(at, level + 1, before, refusals, open, inner, 2, 2);
      }
    }

    // The loop over the members.
    method PrintMembers(members: seq<Member>) returns (ok: bool)
      requires Ready() && MembersCStrings(members)
      modifies this, buffer, memory
      ensures buffer == old(buffer) || (!noalloc && (buffer == null || fresh(buffer)))
      ensures Went(ok, old(offset), old(depth), old(Done()), old(memory.refusals),
                   RenderMembers(members, show, format, old(depth)), 2)
      decreases members, 1
    {
      hide MembersCStrings, PrintBuffer.Went, PrintBuffer.Valid, PrintBuffer.Done, RenderMembers,
           MemberText;
      ghost var at, level, before, refusals := offset, depth, Done(), memory.refusals;
      ghost var whole, done: Text := RenderMembers(members, show, format, level), [];
      var i := 0;
      ok := true;
      GoesNowhere();
      assert members[0..] == members && [] + whole == whole;
      while i < |members|
        invariant i <= |members| && Ready() && (buffer == old(buffer) || (!noalloc && fresh(buffer))) && buffer != null
        invariant Went(true, at, level, before, refusals, done, 2) && MembersCStrings(members[i..])
        invariant done + RenderMembers(members[i..], show, format, level) == whole
      {
        WentWhere(at, level, before, refusals, done, 2);
        MembersFrom(members, i, show, format, level);
        ghost var piece := MemberText(members[i], show, format, level, i + 1 == |members|);
        ghost var rest := RenderMembers(members[i + 1..], show, format, level);
        Assoc(done, piece, rest);
        ok := PrintMember(members[i], i + 1 == |members|);
        WentFurther(ok, at, level, before, refusals, done, piece, 2);
        done := done + piece;
        if !ok {
          WentNoFurther(at, level, before, refusals, done, rest, 2, 2);
          return;
        }
        WentWhere(at, level, before, refusals, done, 2);
        i := i + 1;
      }
      assert members[i..] == [];
      NoItemsText(show, format, level);
      assert done + [] == done;
    }

    // One round of the loop: indentation, name, colon, value and the end of the line.
    method PrintMember(member: Member, last: bool) returns (ok: bool)
      requires Ready() && NulFree(member.key) && CStrings(member.value)
      modifies this, buffer, memory
      ensures buffer == old(buffer) || (!noalloc && (buffer == null || fresh(buffer)))
      ensures Went(ok, old(offset), old(depth), old(Done()), old(memory.refusals),
                   MemberText(member, show, format, old(depth), last), 2)
      decreases member, 0
    {
      hide CStrings, NulFree, PrintBuffer.Went, PrintBuffer.Valid, PrintBuffer.Done, Render, MemberStart, MemberEnd;
      ghost var at, level, before, refusals := offset, depth, Done(), memory.refusals;
      ghost var start, value := MemberStart(member.key, format, level), Render(member.value, show, format, level);
      ghost var end := MemberEnd(format, last);
      ok := PrintMemberStart(member.key);
      if ok {
        WentWhere(at, level, before, refusals, start, 1);
        ok := PrintMemberValue(member.value, last);
        WentFurther(ok, at, level, before, refusals, start, value + end, 2);
      } else {
        WentNoFurther(at, level, before, refusals, start, value + end, 1, 2);
      }
    }

    method PrintMemberValue(v: Json, last: bool) returns (ok: bool)
      requires Ready() && CStrings(v)
      modifies this, buffer, memory
      ensures buffer == old(buffer) || (!noalloc && (buffer == null || fresh(buffer)))
      ensures Went(ok, old(offset), old(depth), old(Done()), old(memory.refusals),
                   Render(v, show, format, old(depth)) + MemberEnd(format, last), 2)
      decreases v, 4
    {
      EndLength(format, last);
      hide CStrings, PrintBuffer.Went, PrintBuffer.Valid, PrintBuffer.Done, Render, MemberEnd;
      ghost var at, level, before, refusals := offset, depth, Done(), memory.refusals;
      ghost var value, end := Render(v, show, format, level), MemberEnd(format, last);
      ok := PrintWhole(v);
      if ok {
        WentWhere(at, level, before, refusals, value, 2);
        ok := Append((if format then 1 else 0) + (if last then 0 else 1) + 1, MemberEnd(format, last));
        WentFurther(ok, at, level, before, refusals, value, end, 2);
      } else {
        WentNoFurther(at, level, before, refusals, value, end, 2, 2);
      }
    }

    method PrintMemberStart(key: Text) returns (ok: bool)
      requires Ready() && NulFree(key)
      modifies this, buffer, memory
      ensures buffer == old(buffer) || (!noalloc && (buffer == null || fresh(buffer)))
      ensures Went(ok, old(offset), old(depth), old(Done()), old(memory.refusals),
                   MemberStart(key, format, old(depth)), 1)
    {
      hide NulFree, PrintBuffer.Went, PrintBuffer.Valid, PrintBuffer.Done, RenderString, Indent, Colon;
      ghost var at, level, before, refusals := offset, depth, Done(), memory.refusals;
      ghost var tabs, name, colon := Indent(format, level), RenderString(key), Colon(format);
      Assoc(tabs, name, colon);
      ok := PrintIndent();
      if ok {
        WentWhere(at, level, before, refusals, tabs, 1);
        ok := PrintName(key);
        WentFurther(ok, at, level, before, refusals, tabs, name + colon, 1);
      } else {
        WentNoFurther(at, level, before, refusals, tabs, name + colon, 1, 1);
      }
    }

    method PrintIndent() returns (ok: bool)
      requires Ready()
      modifies this, buffer, memory
      ensures buffer == old(buffer) || (!noalloc && (buffer == null || fresh(buffer)))
      ensures Went(ok, old(offset), old(depth), old(Done()), old(memory.refusals),
                   Indent(format, old(depth)), 1)
    {
      hide PrintBuffer.Went, PrintBuffer.Valid, PrintBuffer.Done;
      if format {
        ok := Append(depth, Indent(format, depth));
      } else {
        GoesNowhere();
        WentWithLess(offset, depth, Done(), memory.refusals, []);
        ok := true;
      }
    }

    lemma WentWithLess(at: nat, level: nat, before: Text, refusals: nat, t: Text)
      requires Went(true, at, level, before, refusals, t, 2)
      ensures Went(true, at, level, before, refusals, t, 1)
    {
    }

    // print_string_ptr for the name, update_offset, and the colon.
    method PrintName(key: Text) returns (ok: bool)
      requires Ready() && NulFree(key)
      modifies this, buffer, memory
      ensures buffer == old(buffer) || (!noalloc && (buffer == null || fresh(buffer)))
      ensures Went(ok, old(offset), old(depth), old(Done()), old(memory.refusals),
                   RenderString(key) + Colon(format), 1)
    {
      ColonLength(format);
      hide NulFree, PrintBuffer.Went, PrintBuffer.Valid, PrintBuffer.Done, RenderString, Colon;
      ghost var at, level, before, refusals := offset, depth, Done(), memory.refusals;
      ghost var name, colon := RenderString(key), Colon(format);
      ok := PrintKey(key);
      if ok {
        WentWhere(at, level, before, refusals, name, 2);
        ok := Append(if format then 2 else 1, Colon(format));
        WentFurther(ok, at, level, before, refusals, name, colon, 1);
      } else {
        WentNoFurther(at, level, before, refusals, name, colon, 2, 1);
      }
    }

    method PrintKey(key: Text) returns (ok: bool)
      requires Ready() && NulFree(key)
      modifies this, buffer, memory
      ensures buffer == old(buffer) || (!noalloc && (buffer == null || fresh(buffer)))
      ensures Went(ok, old(offset), old(depth), old(Done()), old(memory.refusals),
                   RenderString(key), 2)
    {
      hide PrintBuffer.Valid, PrintBuffer.Done, RenderString, NulFree;
      ghost var at, before := offset, Done();
      ok := PrintString(key);
      if ok {
        StringNulFree(key);
        Settle(at, before, RenderString(key));
      }
    }
  }

  // ---------------------------------------------------------------------------------------------
  // The three ways to print

  datatype Output = Output(block: nat, bytes: array<Byte>)

  /** cJSON_Print and cJSON_PrintUnformatted: a block of exactly the right size, or nothing. */
  method Print(v: Json, format: bool, show: Show, memory: Memory) returns (r: Option<Output>)
    requires memory.Valid() && CStrings(v)
    modifies memory
    ensures memory.Valid()
    ensures r.Some? ==> r.value.bytes[..] == Render(v, show, format, 0) + [NUL] && fresh(r.value.bytes)
    ensures r.Some? ==> memory.live == old(memory.live) + multiset{r.value.block}
    ensures r.Some? ==> memory.refusals == old(memory.refusals) && |Render(v, show, format, 0)| + 2 <= 0x7FFF_FFFF
    ensures r.None? ==> memory.live == old(memory.live)
    ensures r.None? ==> memory.refusals > old(memory.refusals) || |Render(v, show, format, 0)| + 2 > 0x7FFF_FFFF
  {
    hide Render, CStrings, NulFree;
    ghost var before := memory.live;
    var printer := StartPrinter(256, format, show, memory);
    if printer.None? { return None; }
    var p := printer.value;
    var ok := p.PrintWhole(v);
    if !ok {
      if p.buffer != null { memory.Free(p.block, before); }
      return None;
    }
    NothingBefore(Render(v, show, format, 0));
    r := CopyOut(p);
  }

  // The text in a block of exactly its size, instead of the buffer.
  method CopyOut(p: PrintBuffer) returns (r: Option<Output>)
    requires p.Valid() && p.buffer != null && !p.noalloc
    modifies p.memory
    ensures p.memory.Valid()
    ensures r.Some? ==> fresh(r.value.bytes) && r.value.bytes[..] == old(p.Done()) + [NUL]
    ensures r.Some? ==> p.memory.live == p.others + multiset{r.value.block}
    ensures r.Some? ==> p.memory.refusals == old(p.memory.refusals)
    ensures r.None? ==> p.memory.live == p.others && p.memory.refusals > old(p.memory.refusals)
  {
    var memory := p.memory;
    var block := memory.Allocate(p.offset + 1);
    if block.None? {
      memory.Free(p.block, p.others);
      return None;
    }
    var printed := new Byte[p.offset + 1];
    CopyBytes(printed, p.buffer, p.offset);
    printed[p.offset] := NUL;
    memory.Free(p.block, p.others + multiset{block.value});
    assert printed[..] == printed[..p.offset] + [NUL];
    return Some(Output(block.value, printed));
  }

  // A buffer of the printer's own.
  method StartPrinter(size: nat, format: bool, show: Show, memory: Memory) returns (r: Option<PrintBuffer>)
    requires memory.Valid() && size <= INT_MAX
    modifies memory
    ensures memory.Valid()
    ensures r.None? ==> memory.live == old(memory.live) && memory.refusals > old(memory.refusals)
    ensures r.Some? ==>
              var p := r.value;
              && fresh(p) && p.Valid() && p.buffer != null && fresh(p.buffer) && p.memory == memory
              && p.offset == 0 && p.depth == 0 && p.format == format && p.show == show && !p.noalloc
              && p.others == old(memory.live) && memory.refusals == old(memory.refusals) && p.limit == INT_MAX
  {
    ghost var before := memory.live;
    var block := memory.Allocate(size);
    if block.None? { return None; }
    var buffer := new Byte[size];
    var p := new PrintBuffer(buffer, block.value, false, format, show, memory, before);
    return Some(p);
  }

  /** cJSON_PrintBuffered: whatever size the caller guesses, the same text. */
  method PrintBuffered(v: Json, prebuffer: int, format: bool, show: Show, memory: Memory) returns (r: Option<Output>)
    requires memory.Valid() && CStrings(v) && prebuffer <= INT_MAX
    modifies memory
    ensures memory.Valid()
    ensures r.Some? ==> var t := Render(v, show, format, 0) + [NUL];
                        |t| <= r.value.bytes.Length && r.value.bytes[..|t|] == t && fresh(r.value.bytes)
    ensures r.Some? ==> memory.live == old(memory.live) + multiset{r.value.block}
    ensures r.Some? ==> memory.refusals == old(memory.refusals) && |Render(v, show, format, 0)| + 2 <= 0x7FFF_FFFF
    ensures r.None? ==> memory.live == old(memory.live)
    ensures r.None? ==>
              prebuffer < 0 || memory.refusals > old(memory.refusals) || |Render(v, show, format, 0)| + 2 > 0x7FFF_FFFF
  {
    hide Render, CStrings;
    if prebuffer < 0 { return None; }
    ghost var before := memory.live;
    var printer := StartPrinter(prebuffer, format, show, memory);
    if printer.None? { return None; }
    var p := printer.value;
    var ok := p.PrintValue(v);
    if !ok {
      if p.buffer != null { memory.Free(p.block, before); }
      return None;
    }
    NothingBefore(Render(v, show, format, 0));
    return Some(Output(p.block, p.buffer));
  }

  lemma NothingBefore(t: Text)
    ensures [] + (t + [NUL]) == t + [NUL] && [] + t == t
  {
  }

  /** cJSON_PrintPreallocated succeeds exactly when the buffer has two bytes more than the text; the
      last of them is never written. */
  method PrintPreallocated(v: Json, buffer: array<Byte>, length: int, format: bool, show: Show) returns (ok: bool)
    requires CStrings(v) && length <= INT_MAX && (length < 0 || length == buffer.Length)
    modifies buffer
    ensures ok <==> |Render(v, show, format, 0)| + 2 <= length
    ensures ok ==> buffer[..|Render(v, show, format, 0)| + 1] == Render(v, show, format, 0) + [NUL]
  {
    hide Render, CStrings;
    if length <= 0 { return false; }
    var memory := new Memory([]);
    var p := new PrintBuffer(buffer, 0, true, format, show, memory, multiset{});
    ok := p.PrintValue(v);
    NothingBefore(Render(v, show, format, 0));
  }

  lemma ContainerText(items: seq<Json>, members: seq<Member>, show: Show, format: bool, depth: nat)
    ensures Render(Array(items), show, format, depth) ==
            [OPEN_BRACKET] + RenderItems(items, show, format, depth + 1) + [CLOSE_BRACKET]
    ensures Render(Object(members), show, format, depth) ==
            OpenObject(format) + RenderMembers(members, show, format, depth + 1) + CloseObject(format, depth)
  {
  }

  function MemberText(member: Member, show: Show, format: bool, depth: nat, last: bool): Text {
    MemberStart(member.key, format, depth) + (Render(member.value, show, format, depth) + MemberEnd(format, last))
  }

  lemma ItemsFrom(items: seq<Json>, i: nat, show: Show, format: bool, depth: nat)
    requires i < |items| && ItemsCStrings(items[i..])
    ensures CStrings(items[i]) && ItemsCStrings(items[i + 1..])
    ensures RenderItems(items[i..], show, format, depth) ==
            (Render(items[i], show, format, depth) + Separator(format, i + 1 < |items|)) +
            RenderItems(items[i + 1..], show, format, depth)
  {
    hide Render, CStrings;
    assert items[i..][1..] == items[i + 1..] && |items[i..]| > 1 <==> i + 1 < |items|;
  }

  lemma MembersFrom(members: seq<Member>, i: nat, show: Show, format: bool, depth: nat)
    requires i < |members| && MembersCStrings(members[i..])
    ensures NulFree(members[i].key) && CStrings(members[i].value) && MembersCStrings(members[i + 1..])
    ensures RenderMembers(members[i..], show, format, depth) ==
            MemberText(members[i], show, format, depth, i + 1 == |members|) +
            RenderMembers(members[i + 1..], show, format, depth)
  {
    hide Render, CStrings, MemberStart, MemberEnd, NulFree;
    assert members[i..][1..] == members[i + 1..];
    Assoc(MemberStart(members[i].key, format, depth), Render(members[i].value, show, format, depth),
          MemberEnd(format, i + 1 == |members|));
  }

  lemma PiecesLength(format: bool, depth: nat)
    ensures |OpenObject(format)| == if format then 2 else 1
    ensures |CloseObject(format, depth)| == if format then depth + 1 else 1
  {
  }

  lemma EndLength(format: bool, last: bool)
    ensures |MemberEnd(format, last)| == (if format then 1 else 0) + (if last then 0 else 1)
  {
  }

  lemma ColonLength(format: bool)
    ensures |Colon(format)| == if format then 2 else 1
  {
  }

  lemma NoItemsText(show: Show, format: bool, depth: nat)
    ensures RenderItems([], show, format, depth) == [] && RenderMembers([], show, format, depth) == []
  {
  }
}
