/** cJSON nodes and the memory they own: allocation that can fail, cJSON_Delete and cJSON_Duplicate
    (cJSON/cJSON.c:156-239, 2558-2635). Items are reference-free, so every block has one owner. */
module JsonItems {
  import opened JsonText
  import opened Wrappers

  /** A C string in a block of its own. */
  datatype Str = Str(block: nat, text: Text)

  /** A node, the name it has in an object, and what its type says. `Blank` is a node that has been
      allocated and not yet filled. */
  datatype Item = Item(block: nat, name: Option<Str>, content: Content)

  datatype Content =
    | Blank
    | IsNull
    | IsFalse
    | IsTrue
    | IsNumber(value: real)
    | IsString(text: Str)
    | IsArray(children: seq<Item>)
    | IsObject(children: seq<Item>)

  // ---------------------------------------------------------------------------------------------
  // What an item owns, and what it denotes

  function StrBlocks(s: Option<Str>): multiset<nat> {
    if s.Some? then multiset{s.value.block} else multiset{}
  }

  /** Every block a node owns, as often as it owns it. */
  function Blocks(item: Item): multiset<nat>
    decreases item
  {
    multiset{item.block} + StrBlocks(item.name) + ContentBlocks(item.content)
  }

  function ContentBlocks(content: Content): multiset<nat>
    decreases content
  {
    match content
    case IsString(text) => multiset{text.block}
    case IsArray(children) => AllBlocks(children)
    case IsObject(children) => AllBlocks(children)
    case _ => multiset{}
  }

  function AllBlocks(items: seq<Item>): multiset<nat>
    decreases items
  {
    if |items| == 0 then multiset{} else Blocks(items[0]) + AllBlocks(items[1..])
  }

  lemma {:induction false} AllBlocksSnoc(items: seq<Item>, item: Item)
    ensures AllBlocks(items + [item]) == AllBlocks(items) + Blocks(item)
  {
    hide Blocks;
    if |items| == 0 {
      assert items + [item] == [item] && [item][1..] == [];
    } else {
      AllBlocksSnoc(items[1..], item);
      assert (items + [item])[1..] == items[1..] + [item];
    }
  }

  function DenoteContent(content: Content): Json
    decreases content
  {
    match content
    case IsFalse => False
    case IsTrue => True
    case IsNumber(value) => Number(value)
    case IsString(text) => String(text.text)
    case IsArray(children) => Array(DenoteItems(children))
    case IsObject(children) => Object(DenoteMembers(children))
    case _ => Null
  }

  /** The value of a node, whatever its name is. */
  function Denote(item: Item): Json
    decreases item
  {
    DenoteContent(item.content)
  }

  function DenoteItems(items: seq<Item>): seq<Json>
    decreases items
  {
    if |items| == 0 then [] else [Denote(items[0])] + DenoteItems(items[1..])
  }

  function NameOf(item: Item): Text { if item.name.Some? then item.name.value.text else [] }

  function DenoteMembers(items: seq<Item>): seq<Member>
    decreases items
  {
    if |items| == 0 then [] else [Member(NameOf(items[0]), Denote(items[0]))] + DenoteMembers(items[1..])
  }

  lemma {:induction false} DenoteSnoc(items: seq<Item>, item: Item)
    ensures DenoteItems(items + [item]) == DenoteItems(items) + [Denote(item)]
    ensures DenoteMembers(items + [item]) == DenoteMembers(items) + [Member(NameOf(item), Denote(item))]
  {
    hide Denote;
    if |items| == 0 {
      assert items + [item] == [item] && [item][1..] == [];
    } else {
      DenoteSnoc(items[1..], item);
      assert (items + [item])[1..] == items[1..] + [item];
    }
  }

  // ---------------------------------------------------------------------------------------------
  // Memory

  /** An allocator that refuses whatever requests `script` says, and every empty one. */
  class Memory {
    var script: seq<bool>
    var next: nat
    ghost var live: multiset<nat>
    ghost var refusals: nat  // how many requests have been refused so far

    ghost predicate Valid()
      reads this
    {
      forall b <- live :: b < next && live[b] == 1
    }

    constructor (script: seq<bool>)
      ensures Valid() && live == multiset{} && refusals == 0 && this.script == script
    {
      this.script, next, live, refusals := script, 0, multiset{}, 0;
    }

    method Allocate(size: nat) returns (block: Option<nat>)
      requires Valid()
      modifies this
      ensures Valid()
      ensures block.Some? ==> live == old(live) + multiset{block.value} && block.value !in old(live)
      ensures block.Some? ==> refusals == old(refusals) && size > 0
      ensures block.None? ==> live == old(live) && refusals > old(refusals)
      ensures block.Some? <==> size > 0 && (old(script) == [] || !old(script)[0])
      ensures script == if old(script) == [] then [] else old(script)[1..]
    {
      var refuse := size == 0 || (script != [] && script[0]);
      if script != [] { script := script[1..]; }
      if refuse {
        refusals := refusals + 1;
        return None;
      }
      live := live + multiset{next};
      next := next + 1;
      return Some(next - 1);
    }

    /** A block is given back once, and by its owner. */
    method Free(block: nat, ghost rest: multiset<nat>)
      requires Valid() && live == rest + multiset{block}
      modifies this
      ensures Valid() && live == rest && refusals == old(refusals) && script == old(script)
    {
      assert forall b <- rest :: 0 < rest[b] <= live[b];
      live := rest;
    }

    method FreeString(s: Option<Str>, ghost rest: multiset<nat>)
      requires Valid() && live == rest + StrBlocks(s)
      modifies this
      ensures Valid() && live == rest && refusals == old(refusals) && script == old(script)
    {
      if s.Some? { Free(s.value.block, rest); }
    }
  }

  // ---------------------------------------------------------------------------------------------
  // Deleting and duplicating

  lemma AllBlocksFrom(items: seq<Item>, i: nat)
    requires i <= |items|
    ensures i < |items| ==> AllBlocks(items[i..]) == Blocks(items[i]) + AllBlocks(items[i + 1..])
    ensures i == |items| ==> AllBlocks(items[i..]) == multiset{}
  {
    hide Blocks;
    if i < |items| { assert items[i..][1..] == items[i + 1..]; }
  }

  /** cJSON_Delete: a node, its siblings and everything below them, each block exactly once. */
  method Delete(items: seq<Item>, memory: Memory, ghost rest: multiset<nat>)
    requires memory.Valid() && memory.live == rest + AllBlocks(items)
    modifies memory
    ensures memory.Valid() && memory.live == rest
    ensures memory.refusals == old(memory.refusals) && memory.script == old(memory.script)
    decreases items
  {
    hide Blocks, AllBlocks;
    var i := 0;
    assert items[0..] == items;
    while i < |items|
      invariant 0 <= i <= |items| && memory.Valid() && memory.live == rest + AllBlocks(items[i..])
      invariant memory.refusals == old(memory.refusals) && memory.script == old(memory.script)
    {
      AllBlocksFrom(items, i);
      assert memory.live == rest + AllBlocks(items[i + 1..]) + Blocks(items[i]);
      DeleteOne(items[i], memory, rest + AllBlocks(items[i + 1..]));
      i := i + 1;
    }
    AllBlocksFrom(items, i);
  }

  // One round of the loop: the children or the value string, the name, and the node itself.
  method DeleteOne(item: Item, memory: Memory, ghost rest: multiset<nat>)
    requires memory.Valid() && memory.live == rest + Blocks(item)
    modifies memory
    ensures memory.Valid() && memory.live == rest
    ensures memory.refusals == old(memory.refusals) && memory.script == old(memory.script)
    decreases item
  {
    hide AllBlocks, ContentBlocks, StrBlocks;
    ghost var node, name, inside := multiset{item.block}, StrBlocks(item.name), ContentBlocks(item.content);
    Reorder(rest, node, name, inside);
    DeleteContent(item.content, memory, rest + node + name);
    memory.FreeString(item.name, rest + node);
    memory.Free(item.block, rest);
  }

  lemma Reorder(rest: multiset<nat>, node: multiset<nat>, name: multiset<nat>, inside: multiset<nat>)
    ensures rest + (node + name + inside) == rest + node + name + inside
  {
  }

  method DeleteContent(content: Content, memory: Memory, ghost rest: multiset<nat>)
    requires memory.Valid() && memory.live == rest + ContentBlocks(content)
    modifies memory
    ensures memory.Valid() && memory.live == rest
    ensures memory.refusals == old(memory.refusals) && memory.script == old(memory.script)
    decreases content
  {
    match content
    case IsArray(children) => Delete(children, memory, rest);
    case IsObject(children) => Delete(children, memory, rest);
    case IsString(text) => memory.Free(text.block, rest);
    case _ =>
  }

  /** An item without regard to where its blocks are. */
  function Erase(item: Item): Item
    decreases item
  {
    Item(0, EraseString(item.name), EraseContent(item.content))
  }

  function EraseString(s: Option<Str>): Option<Str> {
    if s.Some? then Some(Str(0, s.value.text)) else None
  }

  function EraseContent(content: Content): Content
    decreases content
  {
    match content
    case IsString(text) => IsString(Str(0, text.text))
    case IsArray(children) => IsArray(EraseAll(children))
    case IsObject(children) => IsObject(EraseAll(children))
    case _ => content
  }

  function EraseAll(items: seq<Item>): (r: seq<Item>)
    ensures |r| == |items|
    decreases items
  {
    if |items| == 0 then [] else [Erase(items[0])] + EraseAll(items[1..])
  }

  lemma {:induction false} EraseAllSnoc(items: seq<Item>, item: Item)
    ensures EraseAll(items + [item]) == EraseAll(items) + [Erase(item)]
  {
    hide Erase;
    if |items| == 0 {
      assert items + [item] == [item] && [item][1..] == [];
    } else {
      EraseAllSnoc(items[1..], item);
      assert (items + [item])[1..] == items[1..] + [item];
    }
  }

  /** Items that differ only in where their blocks are have the same value. */
  lemma {:induction false} ErasedDenote(a: Item, b: Item)
    requires Erase(a) == Erase(b)
    ensures Denote(a) == Denote(b) && NameOf(a) == NameOf(b)
    decreases a
  {
    match a.content
    case IsArray(children) => ErasedDenoteAll(children, b.content.children);
    case IsObject(children) => ErasedDenoteAll(children, b.content.children);
    case _ =>
  }

  lemma {:induction false} ErasedDenoteAll(a: seq<Item>, b: seq<Item>)
    requires EraseAll(a) == EraseAll(b)
    ensures DenoteItems(a) == DenoteItems(b) && DenoteMembers(a) == DenoteMembers(b)
    decreases a
  {
    hide Erase, Denote, NameOf;
    if |a| > 0 {
      assert EraseAll(a)[0] == Erase(a[0]) && EraseAll(b)[0] == Erase(b[0]);
      assert EraseAll(a)[1..] == EraseAll(a[1..]) && EraseAll(b)[1..] == EraseAll(b[1..]);
      ErasedDenote(a[0], b[0]);
      ErasedDenoteAll(a[1..], b[1..]);
    }
  }

  /** What is copied when the children are not. */
  function Childless(content: Content): Content {
    match content
    case IsArray(_) => IsArray([])
    case IsObject(_) => IsObject([])
    case _ => content
  }

  /** A value with nothing in it, of the same kind. */
  function Emptied(v: Json): Json {
    match v
    case Array(_) => Array([])
    case Object(_) => Object([])
    case _ => v
  }

  lemma ChildlessDenotes(item: Item)
    ensures Denote(item.(content := Childless(item.content))) == Emptied(Denote(item))
  {
  }

  // cJSON_strdup, with no string copied to no string.
  method CopyString(s: Option<Str>, memory: Memory) returns (copy: Option<Str>)
    requires memory.Valid()
    modifies memory
    ensures memory.Valid() && memory.live == old(memory.live) + StrBlocks(copy)
    ensures s.None? ==> copy.None?
    ensures s.Some? && copy.None? ==> memory.refusals > old(memory.refusals)
    ensures s.None? || copy.Some? ==> memory.refusals == old(memory.refusals) && EraseString(copy) == EraseString(s)
  {
    if s.None? { return None; }
    var block := memory.Allocate(|s.value.text| + 1);
    if block.None? { return None; }
    return Some(Str(block.value, s.value.text));
  }

  // sizeof(cJSON)
  const NODE_SIZE: nat := 40

  function ValueString(content: Content): Option<Str> {
    if content.IsString? then Some(content.text) else None
  }

  // A new node with the value string it has been given, and no children yet.
  function Started(content: Content, value: Option<Str>): Content {
    if content.IsString? then (if value.Some? then IsString(value.value) else Blank) else Childless(content)
  }

  lemma StartedBlocks(content: Content, value: Option<Str>)
    requires content.IsString? || value.None?
    ensures ContentBlocks(Started(content, value)) == StrBlocks(value)
    ensures EraseString(value) == EraseString(ValueString(content)) ==>
              EraseContent(Started(content, value)) == EraseContent(Childless(content))
  {
  }

  // The new node, before its children are copied; when a string cannot be copied, nothing is kept.
  method StartCopy(item: Item, memory: Memory) returns (copy: Option<Item>)
    requires memory.Valid()
    modifies memory
    ensures memory.Valid()
    ensures copy.Some? ==> memory.live == old(memory.live) + Blocks(copy.value)
    ensures copy.Some? ==> memory.refusals == old(memory.refusals)
    ensures copy.Some? ==> Erase(copy.value) == Erase(item.(content := Childless(item.content)))
    ensures copy.None? ==> memory.live == old(memory.live) && memory.refusals > old(memory.refusals)
  {
    hide ContentBlocks, EraseContent, Started, Childless;
    ghost var before := memory.live;
    var node := memory.Allocate(NODE_SIZE);
    if node.None? { return None; }
    var text := ValueString(item.content);
    var value := CopyString(text, memory);
    StartedBlocks(item.content, value);
    var started := Item(node.value, None, Started(item.content, value));
    assert memory.live == before + Blocks(started);
    if text.Some? && value.None? {
      DeleteOne(started, memory, before);
      return None;
    }
    var name := CopyString(item.name, memory);
    if item.name.Some? && name.None? {
      DeleteOne(started, memory, before);
      return None;
    }
    return Some(started.(name := name));
  }

  /** cJSON_Duplicate: an equal item in new blocks, or nothing at all. */
  method Duplicate(item: Item, recurse: bool, memory: Memory) returns (copy: Option<Item>)
    requires memory.Valid()
    modifies memory
    ensures memory.Valid()
    ensures copy.Some? ==> memory.live == old(memory.live) + Blocks(copy.value)
    ensures copy.Some? ==> memory.refusals == old(memory.refusals)
    ensures copy.Some? ==>
              Erase(copy.value) == Erase(if recurse then item else item.(content := Childless(item.content)))
    ensures copy.Some? ==> Denote(copy.value) == if recurse then Denote(item) else Emptied(Denote(item))
    ensures copy.Some? ==> NameOf(copy.value) == NameOf(item)
    ensures copy.None? ==> memory.live == old(memory.live) && memory.refusals > old(memory.refusals)
    decreases item, 1
  {
    hide Blocks, Erase, Denote;
    ghost var before := memory.live;
    var started := StartCopy(item, memory);
    if started.None? { return None; }
    if !recurse || !(item.content.IsArray? || item.content.IsObject?) {
      ChildlessDenotes(item);
      ErasedDenote(started.value, if recurse then item else item.(content := Childless(item.content)));
      return started;
    }
    var copies, ok := DuplicateChildren(item.content.children, memory);
    var content := if item.content.IsArray? then IsArray(copies) else IsObject(copies);
    var whole := started.value.(content := content);
    Adopt(item, started.value, copies, before);
    if !ok {
      DeleteOne(whole, memory, before);
      return None;
    }
    ErasedDenote(whole, item);
    return Some(whole);
  }

  lemma Adopt(item: Item, started: Item, copies: seq<Item>, before: multiset<nat>)
    requires item.content.IsArray? || item.content.IsObject?
    requires Erase(started) == Erase(item.(content := Childless(item.content)))
    ensures var content := if item.content.IsArray? then IsArray(copies) else IsObject(copies);
            var whole := started.(content := content);
            && before + Blocks(started) + AllBlocks(copies) == before + Blocks(whole)
            && (EraseAll(copies) == EraseAll(item.content.children) ==> Erase(whole) == Erase(item))
  {
    assert started.content.IsArray? || started.content.IsObject?;
    assert |started.content.children| == |EraseContent(started.content).children| == 0;
  }

  // The loop over the children; the copies made so far are kept until their parent is deleted.
  method DuplicateChildren(items: seq<Item>, memory: Memory) returns (copies: seq<Item>, ok: bool)
    requires memory.Valid()
    modifies memory
    ensures memory.Valid() && memory.live == old(memory.live) + AllBlocks(copies)
    ensures ok ==> EraseAll(copies) == EraseAll(items) && memory.refusals == old(memory.refusals)
    ensures !ok ==> memory.refusals > old(memory.refusals)
    decreases items, 0
  {
    hide Blocks, Erase, AllBlocks, EraseAll;
    copies := [];
    var i := 0;
    NoItems();
    assert items[..0] == [];
    while i < |items|
      invariant 0 <= i <= |items| && memory.Valid() && memory.live == old(memory.live) + AllBlocks(copies)
      invariant EraseAll(copies) == EraseAll(items[..i]) && memory.refusals == old(memory.refusals)
    {
      var copy := Duplicate(items[i], true, memory);
      if copy.None? { return copies, false; }
      AllBlocksSnoc(copies, copy.value);
      EraseAllSnoc(copies, copy.value);
      EraseAllSnoc(items[..i], items[i]);
      assert items[..i] + [items[i]] == items[..i + 1];
      copies := copies + [copy.value];
      i := i + 1;
    }
    assert items[..i] == items;
    return copies, true;
  }

  lemma NoItems()
    ensures AllBlocks([]) == multiset{} && EraseAll([]) == []
  {
  }
}
