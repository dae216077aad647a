/** The hwinfo section as a tiling of tags, on values.

    Everything is counted in 32-bit words, each a pair of 16-bit fields.  The first
    word of a tag is its prefix (size, name); an item goes on with (itemsize,
    itemname) and (owner, kids).  A prefix of size zero ends the section. */
module HwTags {
  const U16 := 0x1_0000
  const NULL_OFF := 0xFFFF
  const ITEM_WORDS := 3

  datatype Word = Word(lo: nat, hi: nat)

  /** What was allocated, in order; `wide` asks for eight-byte alignment, `owner` is
      NULL_OFF for an item without one. */
  datatype Tag = Tag(at: nat, size: nat, wide: bool, name: nat, item: bool, itemname: nat, owner: nat)

  // ---------------------------------------------------------------- the tiling

  predicate Adjacent(tags: seq<Tag>, i: nat)
    requires i + 1 < |tags|
  {
    tags[i + 1].at == tags[i].at + tags[i].size
  }

  /** Tags lie end to end from 0 to `offset`, the first is an item, none is empty. */
  predicate Tiled(tags: seq<Tag>, offset: nat) {
    && (tags == [] ==> offset == 0)
    && (tags != [] ==> tags[0].at == 0 && tags[0].item && tags[|tags| - 1].at + tags[|tags| - 1].size == offset)
    && (forall i :: 0 <= i < |tags| ==> 1 <= tags[i].size && (tags[i].item ==> ITEM_WORDS <= tags[i].size))
    && (forall i :: 0 <= i < |tags| && tags[i].wide ==> tags[i].at % 2 == 0)
    && (forall i :: 0 <= i < |tags| - 1 ==> Adjacent(tags, i))
  }

  /** Where the item after tag `i` starts, or the end of the tags. */
  function NextItem(tags: seq<Tag>, i: nat, offset: nat): (a: nat)
    requires i < |tags|
    decreases |tags| - i
  {
    if i + 1 == |tags| then offset
    else if tags[i + 1].item then tags[i + 1].at
    else NextItem(tags, i + 1, offset)
  }

  predicate NoItemAfter(tags: seq<Tag>, i: nat)
    requires i < |tags|
    decreases |tags| - i
  {
    i + 1 == |tags| || (!tags[i + 1].item && NoItemAfter(tags, i + 1))
  }

  /** How many items name the item at `a` as their owner. */
  function Kids(tags: seq<Tag>, a: nat): (n: nat)
    ensures n <= |tags|
  {
    if tags == [] then 0
    else
      var t := tags[|tags| - 1];
      Kids(tags[..|tags| - 1], a) + if t.item && t.owner == a && a != NULL_OFF then 1 else 0
  }

  lemma {:induction false} NextItemAppend(tags: seq<Tag>, t: Tag, i: nat, offset: nat)
    requires i < |tags| && t.at == offset
    ensures NextItem(tags + [t], i, offset + t.size)
         == if NoItemAfter(tags, i) && !t.item then offset + t.size else NextItem(tags, i, offset)
    ensures NoItemAfter(tags, i) ==> NextItem(tags, i, offset) == offset
    ensures NoItemAfter(tags + [t], i) <==> NoItemAfter(tags, i) && !t.item
    decreases |tags| - i
  {
    var r := tags + [t];
    assert forall j :: 0 <= j < |tags| ==> r[j] == tags[j];
    if i + 1 < |tags| {
      NextItemAppend(tags, t, i + 1, offset);
    } else if !t.item {
      assert NextItem(r, i + 1, offset + t.size) == offset + t.size;
    }
  }

  lemma KidsAppend(tags: seq<Tag>, t: Tag, a: nat)
    ensures Kids(tags + [t], a) == Kids(tags, a) + if t.item && t.owner == a && a != NULL_OFF then 1 else 0
  {
    assert (tags + [t])[..|tags|] == tags;
  }

  lemma {:induction false} TiledBelow(tags: seq<Tag>, offset: nat, i: nat)
    requires Tiled(tags, offset) && i < |tags|
    ensures tags[i].at + tags[i].size <= offset
    ensures i + 1 < |tags| ==> tags[i].at + tags[i].size <= tags[|tags| - 1].at
    decreases |tags| - i
  {
    if i + 1 < |tags| {
      TiledBelow(tags, offset, i + 1);
      assert Adjacent(tags, i);
    }
  }

  lemma {:induction false} TiledOrder(tags: seq<Tag>, offset: nat, i: nat, j: nat)
    requires Tiled(tags, offset) && i < j < |tags|
    ensures tags[i].at + tags[i].size <= tags[j].at
    decreases j - i
  {
    assert Adjacent(tags, i);
    if i + 1 < j {
      TiledOrder(tags, offset, i + 1, j);
    }
  }

  lemma {:induction false} TagsFit(tags: seq<Tag>, offset: nat)
    requires Tiled(tags, offset)
    ensures |tags| <= offset
  {
    if tags != [] {
      var n := |tags| - 1;
      TagCount(tags, offset, n);
    }
  }

  lemma {:induction false} TagCount(tags: seq<Tag>, offset: nat, i: nat)
    requires Tiled(tags, offset) && i < |tags|
    ensures i <= tags[i].at
  {
    if i > 0 {
      TagCount(tags, offset, i - 1);
      assert Adjacent(tags, i - 1);
    }
  }

  // ---------------------------------------------------------------- tags in memory

  /** Owners are items allocated earlier. */
  predicate OwnersBelow(tags: seq<Tag>, offset: nat) {
    forall i :: 0 <= i < |tags| && tags[i].item ==> tags[i].owner == NULL_OFF || tags[i].owner < offset
  }

  lemma {:induction false} KidsNone(tags: seq<Tag>, a: nat)
    requires OwnersBelow(tags, a) && a < NULL_OFF
    ensures Kids(tags, a) == 0
  {
    if tags != [] {
      KidsNone(tags[..|tags| - 1], a);
    }
  }

  predicate PrefixHolds(mem: seq<Word>, tags: seq<Tag>, i: nat)
    requires i < |tags|
  {
    tags[i].at < |mem| && mem[tags[i].at] == Word(tags[i].size, tags[i].name)
  }

  predicate ItemHolds(mem: seq<Word>, tags: seq<Tag>, i: nat, offset: nat)
    requires i < |tags|
  {
    && tags[i].at + 2 < |mem|
    && mem[tags[i].at + 1].lo == NextItem(tags, i, offset) - tags[i].at && mem[tags[i].at + 1].hi == tags[i].itemname
    && mem[tags[i].at + 2] == Word(tags[i].owner, Kids(tags, tags[i].at))
  }

  /** The section holds these tags; behind them it is zero, with room for a terminator. */
  ghost predicate Holds(mem: seq<Word>, tags: seq<Tag>, offset: nat) {
    && Tiled(tags, offset) && OwnersBelow(tags, offset) && offset < |mem| && offset < NULL_OFF
    && (forall j :: offset <= j < |mem| ==> mem[j] == Word(0, 0))
    && (forall i {:trigger PrefixHolds(mem, tags, i)} :: 0 <= i < |tags| ==> PrefixHolds(mem, tags, i))
    && (forall i {:trigger ItemHolds(mem, tags, i, offset)} :: 0 <= i < |tags| && tags[i].item ==> ItemHolds(mem, tags, i, offset))
  }

  /** The item that allocations are charged to. */
  predicate LastIs(tags: seq<Tag>, last: nat, k: nat) {
    k < |tags| && tags[k].item && tags[k].at == last && NoItemAfter(tags, k)
  }

  // ---------------------------------------------------------------- walks

  /** The offsets met by stepping from tag to tag until the terminator. */
  function Walk(mem: seq<Word>, w: nat): (o: seq<nat>)
    decreases |mem| - w
  {
    if w >= |mem| || mem[w].lo == 0 then [] else [w] + Walk(mem, w + mem[w].lo)
  }

  /** The offsets met by stepping from item to item. */
  function ItemWalk(mem: seq<Word>, w: nat): (o: seq<nat>)
    decreases |mem| - w
  {
    if w + 1 >= |mem| || mem[w].lo == 0 || mem[w + 1].lo == 0 then [] else [w] + ItemWalk(mem, w + mem[w + 1].lo)
  }

  function Offsets(tags: seq<Tag>, i: nat): (o: seq<nat>)
    requires i <= |tags|
    decreases |tags| - i
  {
    if i == |tags| then [] else [tags[i].at] + Offsets(tags, i + 1)
  }

  function ItemOffsets(tags: seq<Tag>, i: nat): (o: seq<nat>)
    requires i <= |tags|
    decreases |tags| - i
  {
    if i == |tags| then [] else (if tags[i].item then [tags[i].at] else []) + ItemOffsets(tags, i + 1)
  }

  /** Stepping by prefix size meets exactly the allocated tags, in order, and stops. */
  lemma {:induction false} WalkMeetsTags(mem: seq<Word>, tags: seq<Tag>, offset: nat, i: nat)
    requires Holds(mem, tags, offset) && i <= |tags|
    ensures Walk(mem, if i < |tags| then tags[i].at else offset) == Offsets(tags, i)
    decreases |tags| - i
  {
    if i < |tags| {
      WalkMeetsTags(mem, tags, offset, i + 1);
      NextStart(mem, tags, offset, i);
      WalkStep(mem, tags[i].at, tags[i].size);
    }
  }

  lemma WalkStep(mem: seq<Word>, w: nat, n: nat)
    requires w < |mem| && mem[w].lo == n > 0
    ensures Walk(mem, w) == [w] + Walk(mem, w + n)
  {
  }

  /** Behind a tag comes the next one, or the end. */
  lemma NextStart(mem: seq<Word>, tags: seq<Tag>, offset: nat, i: nat)
    requires Holds(mem, tags, offset) && i < |tags|
    ensures tags[i].at < |mem| && mem[tags[i].at].lo == tags[i].size > 0
    ensures tags[i].at + tags[i].size == if i + 1 < |tags| then tags[i + 1].at else offset
  {
    assert PrefixHolds(mem, tags, i);
    if i + 1 < |tags| {
      assert Adjacent(tags, i);
    }
  }

  lemma {:induction false} NextItemAhead(tags: seq<Tag>, offset: nat, i: nat)
    requires Tiled(tags, offset) && i < |tags|
    ensures tags[i].at + tags[i].size <= NextItem(tags, i, offset) <= offset
    decreases |tags| - i
  {
    if i + 1 < |tags| {
      assert Adjacent(tags, i);
      TiledBelow(tags, offset, i + 1);
      if !tags[i + 1].item {
        NextItemAhead(tags, offset, i + 1);
      }
    }
  }

  /** Stepping by item size from the item that tag `i` belongs to meets exactly the
      later items, in order, and stops at the terminator. */
  lemma {:induction false} ItemWalkMeetsItems(mem: seq<Word>, tags: seq<Tag>, offset: nat, i: nat)
    requires Holds(mem, tags, offset) && i < |tags|
    ensures ItemWalk(mem, NextItem(tags, i, offset)) == ItemOffsets(tags, i + 1)
    decreases |tags| - i
  {
    if i + 1 < |tags| {
      ItemWalkMeetsItems(mem, tags, offset, i + 1);
      if tags[i + 1].item {
        assert ItemHolds(mem, tags, i + 1, offset) && PrefixHolds(mem, tags, i + 1);
        NextItemAhead(tags, offset, i + 1);
        TiledBelow(tags, offset, i + 1);
        var w := tags[i + 1].at;
        assert ItemWalk(mem, w) == [w] + ItemWalk(mem, NextItem(tags, i + 1, offset));
      }
    }
  }

  /** From the start of the section. */
  lemma ItemWalkFromStart(mem: seq<Word>, tags: seq<Tag>, offset: nat)
    requires Holds(mem, tags, offset)
    ensures ItemWalk(mem, 0) == ItemOffsets(tags, 0)
  {
    if tags != [] {
      assert ItemHolds(mem, tags, 0, offset) && PrefixHolds(mem, tags, 0);
      NextItemAhead(tags, offset, 0);
      TiledBelow(tags, offset, 0);
      ItemWalkMeetsItems(mem, tags, offset, 0);
    }
  }

  // ---------------------------------------------------------------- allocation

  /** The stores of `hwi_alloc_tag`: charge the current item, write the prefix. */
  function Charged(mem: seq<Word>, last: nat, offset: nat, size: nat, name: nat): (r: seq<Word>)
    requires last + 1 < |mem| && offset < |mem|
  {
    mem[last + 1 := mem[last + 1].(lo := (mem[last + 1].lo + size) % U16)][offset := Word(size % U16, name)]
  }

  lemma TiledAppend(tags: seq<Tag>, offset: nat, t: Tag)
    requires Tiled(tags, offset) && t.at == offset && 1 <= t.size && (t.item ==> ITEM_WORDS <= t.size)
    requires (t.wide ==> offset % 2 == 0) && (tags == [] ==> t.item)
    ensures Tiled(tags + [t], offset + t.size)
  {
    var all := tags + [t];
    forall i | 0 <= i < |all| - 1
      ensures Adjacent(all, i)
    {
      if i + 1 < |tags| {
        assert Adjacent(tags, i);
      }
    }
  }

  /** Two different tags share no word. */
  lemma TagsApart(tags: seq<Tag>, offset: nat, i: nat, j: nat)
    requires Tiled(tags, offset) && i < |tags| && j < |tags| && i != j
    ensures tags[i].at + tags[i].size <= tags[j].at || tags[j].at + tags[j].size <= tags[i].at
  {
    TiledOrder(tags, offset, if i < j then i else j, if i < j then j else i);
  }

  /** Only the last item has no item after it. */
  lemma {:induction false} LastUnique(tags: seq<Tag>, i: nat, k: nat)
    requires i < |tags| && k < |tags| && tags[k].item && tags[i].item && NoItemAfter(tags, i) && NoItemAfter(tags, k)
    ensures i == k
  {
    if i < k {
      NoItemBetween(tags, i, k);
    } else if k < i {
      NoItemBetween(tags, k, i);
    }
  }

  lemma {:induction false} NoItemBetween(tags: seq<Tag>, i: nat, k: nat)
    requires i < k < |tags| && NoItemAfter(tags, i)
    ensures !tags[k].item
    decreases k - i
  {
    if i + 1 < k {
      NoItemBetween(tags, i + 1, k);
    }
  }

  /** What the stores of `hwi_alloc_tag` amount to. */
  predicate TagWritten(mem: seq<Word>, r: seq<Word>, last: nat, offset: nat, size: nat, name: nat) {
    && |r| == |mem| && last + 1 < offset < |mem|
    && r[offset] == Word(size, name) && r[last + 1] == Word(mem[last + 1].lo + size, mem[last + 1].hi)
    && (forall j :: 0 <= j < |mem| && j != last + 1 && j != offset ==> r[j] == mem[j])
  }

  lemma ChargedWritten(mem: seq<Word>, last: nat, offset: nat, size: nat, name: nat)
    requires last + 1 < offset < |mem| && size < U16 && mem[last + 1].lo + size < U16
    ensures TagWritten(mem, Charged(mem, last, offset, size, name), last, offset, size, name)
  {
  }

  /** One item of the section after a plain tag has been added. */
  lemma ItemAfterTag(mem: seq<Word>, r: seq<Word>, tags: seq<Tag>, offset: nat, last: nat, k: nat, t: Tag, i: nat)
    requires Holds(mem, tags, offset) && LastIs(tags, last, k) && i < |tags| && tags[i].item
    requires t.at == offset && !t.item && TagWritten(mem, r, last, offset, t.size, t.name)
    ensures ItemHolds(r, tags + [t], i, offset + t.size)
  {
    assert ItemHolds(mem, tags, i, offset);
    NextItemAppend(tags, t, i, offset);
    KidsAppend(tags, t, tags[i].at);
    TiledBelow(tags, offset, i);
    if i != k {
      TagsApart(tags, offset, i, k);
      if NoItemAfter(tags, i) {
        LastUnique(tags, i, k);
      }
    }
  }

  /** One prefix of the section after a plain tag has been added. */
  lemma PrefixAfterTag(mem: seq<Word>, r: seq<Word>, tags: seq<Tag>, offset: nat, last: nat, k: nat, size: nat, name: nat, i: nat)
    requires Holds(mem, tags, offset) && LastIs(tags, last, k) && i < |tags| && TagWritten(mem, r, last, offset, size, name)
    ensures PrefixHolds(r, tags, i)
  {
    assert PrefixHolds(mem, tags, i);
    TiledBelow(tags, offset, k);
    TiledBelow(tags, offset, i);
    if i != k {
      TagsApart(tags, offset, i, k);
    }
  }

  /** `hwi_alloc_tag` keeps the section well formed. */
  lemma TagHolds(mem: seq<Word>, r: seq<Word>, tags: seq<Tag>, offset: nat, last: nat, k: nat, t: Tag)
    requires Holds(mem, tags, offset) && LastIs(tags, last, k)
    requires t.at == offset && !t.item && 1 <= t.size && (t.wide ==> offset % 2 == 0)
    requires offset + t.size < |mem| && offset + t.size < NULL_OFF && TagWritten(mem, r, last, offset, t.size, t.name)
    ensures Holds(r, tags + [t], offset + t.size) && LastIs(tags + [t], last, k)
  {
    var all := tags + [t];
    TiledAppend(tags, offset, t);
    NextItemAppend(tags, t, k, offset);
    forall i | 0 <= i < |all|
      ensures PrefixHolds(r, all, i)
    {
      if i < |tags| {
        PrefixAfterTag(mem, r, tags, offset, last, k, t.size, t.name, i);
      }
    }
    forall i | 0 <= i < |all| && all[i].item
      ensures ItemHolds(r, all, i, offset + t.size)
    {
      ItemAfterTag(mem, r, tags, offset, last, k, t, i);
    }
  }

  /** An owner is null or the offset of an item. */
  ghost predicate OwnerOk(tags: seq<Tag>, owner: nat) {
    owner == NULL_OFF || exists j :: 0 <= j < |tags| && tags[j].item && tags[j].at == owner
  }

  /** The header stores of `hwi_alloc_item`, before the owner is told. */
  function NewItem(mem: seq<Word>, offset: nat, size: nat, name: nat, itemname: nat, owner: nat): (r: seq<Word>)
    requires offset + 2 < |mem|
  {
    var m := Charged(mem, offset, offset, size, name);
    m[offset + 1 := m[offset + 1].(hi := itemname)][offset + 2 := m[offset + 2].(lo := owner)]
  }

  function Adopted(mem: seq<Word>, owner: nat): (r: seq<Word>)
    requires owner != NULL_OFF ==> owner + 2 < |mem|
  {
    if owner == NULL_OFF then mem else mem[owner + 2 := mem[owner + 2].(hi := (mem[owner + 2].hi + 1) % U16)]
  }

  /** What the stores of `hwi_alloc_item` amount to. */
  predicate ItemWritten(mem: seq<Word>, r: seq<Word>, offset: nat, size: nat, name: nat, itemname: nat, owner: nat) {
    && |r| == |mem| && offset + 2 < |mem| && (owner == NULL_OFF || owner + 2 < offset)
    && r[offset] == Word(size, name) && r[offset + 1] == Word(size, itemname) && r[offset + 2] == Word(owner, 0)
    && (owner != NULL_OFF ==> r[owner + 2] == Word(mem[owner + 2].lo, mem[owner + 2].hi + 1))
    && (forall j :: 0 <= j < |mem| && !(offset <= j <= offset + 2) && (owner == NULL_OFF || j != owner + 2) ==> r[j] == mem[j])
  }

  lemma NewItemWritten(mem: seq<Word>, offset: nat, size: nat, name: nat, itemname: nat, owner: nat)
    requires offset + 2 < |mem| && size < U16 && (owner == NULL_OFF || (owner + 2 < offset && mem[owner + 2].hi + 1 < U16))
    requires mem[offset + 1] == Word(0, 0) && mem[offset + 2] == Word(0, 0)
    ensures ItemWritten(mem, Adopted(NewItem(mem, offset, size, name, itemname, owner), owner), offset, size, name, itemname, owner)
  {
  }

  lemma {:induction false} OwnerItem(tags: seq<Tag>, offset: nat, owner: nat) returns (j: nat)
    requires Tiled(tags, offset) && OwnerOk(tags, owner) && owner != NULL_OFF
    ensures j < |tags| && tags[j].item && tags[j].at == owner && owner + 2 < owner + tags[j].size <= offset
  {
    j :| 0 <= j < |tags| && tags[j].item && tags[j].at == owner;
    TiledBelow(tags, offset, j);
  }

  /** An item header before and after: only the number of kids may have grown. */
  predicate HeaderKept(mem: seq<Word>, r: seq<Word>, a: nat, more: nat) {
    a + 2 < |mem| == |r| && r[a + 1] == mem[a + 1] && r[a + 2] == Word(mem[a + 2].lo, mem[a + 2].hi + more)
  }

  /** The new item's stores leave earlier prefixes and item sizes alone, and count the
      new child at its owner only. */
  lemma EarlierTag(mem: seq<Word>, r: seq<Word>, tags: seq<Tag>, offset: nat, size: nat, name: nat, itemname: nat, owner: nat, i: nat)
    requires Holds(mem, tags, offset) && OwnerOk(tags, owner) && i < |tags|
    requires ItemWritten(mem, r, offset, size, name, itemname, owner)
    ensures tags[i].at < offset && r[tags[i].at] == mem[tags[i].at]
    ensures tags[i].item ==> tags[i].at + 2 < offset && HeaderKept(mem, r, tags[i].at, if owner == tags[i].at then 1 else 0)
  {
    TiledBelow(tags, offset, i);
    if owner != NULL_OFF {
      var j := OwnerItem(tags, offset, owner);
      if i != j {
        TagsApart(tags, offset, i, j);
      }
    }
  }

  lemma EarlierItem(mem: seq<Word>, r: seq<Word>, tags: seq<Tag>, offset: nat, t: Tag, i: nat)
    requires i < |tags| && t.at == offset && t.item && tags[i].at < NULL_OFF
    requires HeaderKept(mem, r, tags[i].at, if t.owner == tags[i].at then 1 else 0) && ItemHolds(mem, tags, i, offset)
    ensures ItemHolds(r, tags + [t], i, offset + t.size)
  {
    NextItemAppend(tags, t, i, offset);
    KidsAppend(tags, t, tags[i].at);
  }

  lemma LatestItem(r: seq<Word>, tags: seq<Tag>, offset: nat, t: Tag)
    requires OwnersBelow(tags, offset) && offset < NULL_OFF && t.at == offset && t.item && t.owner != offset
    requires offset + 2 < |r| && r[offset + 1] == Word(t.size, t.itemname) && r[offset + 2] == Word(t.owner, 0)
    ensures ItemHolds(r, tags + [t], |tags|, offset + t.size)
  {
    KidsNone(tags, offset);
    KidsAppend(tags, t, offset);
  }

  /** `hwi_alloc_item` keeps the section well formed and makes the new item current. */
  lemma NewItemHolds(mem: seq<Word>, r: seq<Word>, tags: seq<Tag>, offset: nat, t: Tag)
    requires Holds(mem, tags, offset) && OwnerOk(tags, t.owner)
    requires t.at == offset && t.item && ITEM_WORDS <= t.size && (t.wide ==> offset % 2 == 0)
    requires offset + t.size < |mem| && offset + t.size < NULL_OFF && ItemWritten(mem, r, offset, t.size, t.name, t.itemname, t.owner)
    ensures Holds(r, tags + [t], offset + t.size) && LastIs(tags + [t], offset, |tags|)
  {
    var all := tags + [t];
    TiledAppend(tags, offset, t);
    forall i | 0 <= i < |all|
      ensures PrefixHolds(r, all, i)
    {
      if i < |tags| {
        assert PrefixHolds(mem, tags, i);
        EarlierTag(mem, r, tags, offset, t.size, t.name, t.itemname, t.owner, i);
      }
    }
    forall i | 0 <= i < |all| && all[i].item
      ensures ItemHolds(r, all, i, offset + t.size)
    {
      if i < |tags| {
        assert ItemHolds(mem, tags, i, offset);
        EarlierTag(mem, r, tags, offset, t.size, t.name, t.itemname, t.owner, i);
        EarlierItem(mem, r, tags, offset, t, i);
      } else {
        LatestItem(r, tags, offset, t);
      }
    }
  }
}
