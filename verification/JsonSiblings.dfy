/** Sibling lists: children linked in both directions, without a pointer to the last one
    (cJSON/cJSON.c:1747-1774, 1823-1885, 2079-2117, 2148-2221). */
module JsonSiblings {
  class Node {
    var next: Node?
    var prev: Node?

    constructor ()
      ensures next == null && prev == null
    {
      next, prev := null, null;
    }
  }

  function At(s: seq<Node>, i: int): (node: Node?)
    ensures node == null <==> !(0 <= i < |s|)
  {
    if 0 <= i < |s| then s[i] else null
  }

  predicate Distinct(s: seq<Node>) {
    forall i, j :: 0 <= i < j < |s| ==> s[i] != s[j]
  }

  lemma Others(s: seq<Node>, i: nat)
    requires Distinct(s) && i < |s|
    ensures forall k :: 0 <= k < |s| && k != i ==> s[k] != s[i]
    ensures Distinct(s[..i] + s[i + 1..])
  {
  }

  // The neighbours of a node are nobody else either.
  lemma Neighbours(s: seq<Node>, i: nat)
    requires Distinct(s) && i < |s|
    ensures forall k :: 0 <= k < |s| && k != i ==> s[k] != s[i]
    ensures i > 0 ==> forall k :: 0 <= k < |s| && k != i - 1 ==> s[k] != s[i - 1]
    ensures i + 1 < |s| ==> forall k :: 0 <= k < |s| && k != i + 1 ==> s[k] != s[i + 1]
  {
  }

  lemma StaysDistinct(s: seq<Node>, i: nat, x: Node)
    requires Distinct(s) && x !in s && i <= |s|
    ensures Distinct(s[..i] + [x] + s[i..]) && (i < |s| ==> Distinct(s[i := x]))
    ensures forall k :: 0 <= k < |s| ==> s[k] != x
  {
  }

  /** `s` is linked up: every node knows its neighbours in `s`, and the ends know that they are ends. */
  ghost predicate Linked(s: seq<Node>)
    reads s
  {
    && Distinct(s)
    && (forall i {:trigger s[i].next} {:trigger s[i].prev} :: 0 <= i < |s| ==>
          s[i].next == At(s, i + 1) && s[i].prev == At(s, i - 1))
  }

  /** An array or object node, as far as its children go. */
  class Parent {
    var child: Node?
    ghost var children: seq<Node>

    ghost predicate Valid()
      reads this, children
    {
      Linked(children) && child == At(children, 0)
    }

    constructor ()
      ensures Valid() && children == []
    {
      child, children := null, [];
    }

    /** There is one reading of the links: following them from the first child gives the children. */
    lemma {:induction false} OneReading(other: seq<Node>, i: nat)
      requires Valid() && Linked(other) && child == At(other, 0) && i <= |children|
      ensures i <= |other| && children[..i] == other[..i]
      ensures i == |children| ==> children == other
    {
      if i > 0 {
        OneReading(other, i - 1);
        if i > 1 { assert children[i - 2].next == other[i - 2].next; }
        assert At(children, i - 1) == At(other, i - 1);
      }
      if i == |children| > 0 {
        assert children[i - 1].next == other[i - 1].next == null;
      }
    }

    /** get_array_item */
    method GetArrayItem(index: nat) returns (item: Node?)
      requires Valid()
      ensures item == At(children, index)
    {
      item := child;
      var i: nat := index;
      while item != null && i > 0
        invariant i <= index && item == At(children, index - i)
      {
        i := i - 1;
        item := item.next;
      }
    }

    /** add_item_to_array: the loop finds the last child. */
    method AddItem(item: Node?) returns (ok: bool)
      requires Valid() && (item != null ==> item !in children && item.next == null && item.prev == null)
      modifies this, children, item
      ensures ok <==> item != null
      ensures Valid() && children == if item == null then old(children) else old(children) + [item]
    {
      if item == null { return false; }
      StaysDistinct(children, |children|, item);
      assert children[..|children|] + [item] + children[|children|..] == children + [item];
      hide Distinct;
      if child == null {
        child := item;
      } else {
        var last := child;
        ghost var i := 0;
        while last.next != null
          invariant 0 <= i < |children| && last == children[i]
          decreases |children| - i
        {
          last := last.next;
          i := i + 1;
        }
        last.next := item;
        item.prev := last;
      }
      children := children + [item];
      ok := true;
    }

    /** cJSON_DetachItemViaPointer, for one of the children */
    method DetachItem(item: Node, ghost i: nat)
      requires Valid() && i < |children| && children[i] == item
      modifies this, children
      ensures Valid() && children == old(children)[..i] + old(children)[i + 1..]
      ensures item.next == null && item.prev == null
    {
      Others(children, i);
      Neighbours(children, i);
      hide Distinct;
      assert item.next == At(children, i + 1) && item.prev == At(children, i - 1);
      if item.prev != null { item.prev.next := item.next; }
      if item.next != null { item.next.prev := item.prev; }
      if item == child { child := item.next; }
      item.prev := null;
      item.next := null;
      ghost var s := children[..i] + children[i + 1..];
      forall k | 0 <= k < |s| ensures s[k].next == At(s, k + 1) && s[k].prev == At(s, k - 1) {
        if k < i {
          assert s[k] == children[k] && s[k].prev == old(s[k].prev);
          assert k < i - 1 ==> s[k].next == old(s[k].next);
        } else {
          assert s[k] == children[k + 1] && s[k].next == old(s[k].next);
          assert k > i ==> s[k].prev == old(s[k].prev);
        }
      }
      children := s;
    }

    /** cJSON_DetachItemFromArray */
    method DetachItemFromArray(which: int) returns (item: Node?)
      requires Valid()
      modifies this, children
      ensures Valid() && item == At(old(children), which)
      ensures item == null ==> children == old(children)
      ensures item != null ==> children == old(children)[..which] + old(children)[which + 1..]
      ensures item != null ==> item.next == null && item.prev == null
    {
      if which < 0 { return null; }
      item := GetArrayItem(which);
      if item != null { DetachItem(item, which); }
    }

    /** cJSON_InsertItemInArray: in front of the child of that index, or at the end. */
    method InsertItemInArray(which: int, item: Node)
      requires Valid() && item !in children && item.next == null && item.prev == null
      modifies this, children, item
      ensures Valid()
      ensures children == if which < 0 then old(children)
                          else if which >= old(|children|) then old(children) + [item]
                          else old(children)[..which] + [item] + old(children)[which..]
    {
      if which < 0 { return; }
      var after := GetArrayItem(which);
      if after == null {
        var ok := AddItem(item);
        return;
      }
      InsertBefore(after, item, which);
    }

    // The links of the new item and of its two neighbours.
    method InsertBefore(after: Node, item: Node, ghost which: nat)
      requires Valid() && which < |children| && children[which] == after && item !in children
      modifies this, children, item
      ensures Valid() && children == old(children)[..which] + [item] + old(children)[which..]
    {
      StaysDistinct(children, which, item);
      Neighbours(children, which);
      hide Distinct;
      assert after.prev == At(children, which - 1);
      item.next := after;
      item.prev := after.prev;
      after.prev := item;
      if after == child {
        child := item;
      } else {
        item.prev.next := item;
      }
      ghost var s := children[..which] + [item] + children[which..];
      forall k | 0 <= k < |s| ensures s[k].next == At(s, k + 1) && s[k].prev == At(s, k - 1) {
        if k < which {
          assert s[k] == children[k] && s[k].prev == old(s[k].prev);
          assert k < which - 1 ==> s[k].next == old(s[k].next);
        } else if k > which {
          assert s[k] == children[k - 1] && s[k].next == old(s[k].next);
          assert k > which + 1 ==> s[k].prev == old(s[k].prev);
        }
      }
      children := s;
    }

    /** cJSON_ReplaceItemViaPointer, for one of the children; what happens to the old item then is
        cJSON_Delete's business. */
    method ReplaceItem(item: Node, replacement: Node, ghost i: nat)
      requires Valid() && i < |children| && children[i] == item
      requires replacement == item || replacement !in children
      modifies this, children, replacement
      ensures Valid() && children == old(children)[i := replacement]
      ensures replacement != item ==> item.next == null && item.prev == null
    {
      if replacement != item { Relink(item, replacement, i); }
    }

    // The links of the replacement and of its two neighbours.
    method Relink(item: Node, replacement: Node, ghost i: nat)
      requires Valid() && i < |children| && children[i] == item && replacement !in children
      modifies this, children, replacement
      ensures Valid() && children == old(children)[i := replacement]
      ensures item.next == null && item.prev == null
    {
      Neighbours(children, i);
      StaysDistinct(children, i, replacement);
      hide Distinct;
      assert item.next == At(children, i + 1) && item.prev == At(children, i - 1);
      replacement.next := item.next;
      replacement.prev := item.prev;
      if replacement.next != null { replacement.next.prev := replacement; }
      if replacement.prev != null { replacement.prev.next := replacement; }
      if child == item { child := replacement; }
      item.next := null;
      item.prev := null;
      ghost var s := children[i := replacement];
      forall k | 0 <= k < |s| ensures s[k].next == At(s, k + 1) {
        assert k < i - 1 || k > i ==> s[k] == children[k] && s[k].next == old(s[k].next);
      }
      forall k | 0 <= k < |s| ensures s[k].prev == At(s, k - 1) {
        assert k < i || k > i + 1 ==> s[k] == children[k] && s[k].prev == old(s[k].prev);
      }
      children := s;
    }
  }
}
