/** `hwi_alloc.c`: the growing hwinfo section and its two allocation routines. */
module HwAlloc {
  import opened HwTags

  function RoundUp32(n: nat): (r: nat)
    ensures n <= r < n + 32 && r % 32 == 0
  {
    n + 31 - (n + 31) % 32
  }

  lemma GrownHolds(mem: seq<Word>, tags: seq<Tag>, offset: nat, more: nat)
    requires Holds(mem, tags, offset)
    ensures Holds(mem + seq(more, _ => Word(0, 0)), tags, offset)
  {
    var r := mem + seq(more, _ => Word(0, 0));
    forall i | 0 <= i < |tags|
      ensures PrefixHolds(r, tags, i)
    {
      assert PrefixHolds(mem, tags, i);
    }
    forall i | 0 <= i < |tags| && tags[i].item
      ensures ItemHolds(r, tags, i, offset)
    {
      assert ItemHolds(mem, tags, i, offset);
    }
  }

  class Section {
    var mem: seq<Word>
    var offset: nat
    var last: nat
    ghost var tags: seq<Tag>
    ghost var cur: nat

    ghost predicate Valid()
      reads this
    {
      Holds(mem, tags, offset) && (tags == [] || LastIs(tags, last, cur))
    }

    /** `init_syspage_memory` leaves room for one prefix, rounded up to eight bytes. */
    constructor ()
      ensures Valid() && tags == [] && offset == 0
    {
      mem := [Word(0, 0), Word(0, 0)];
      offset, last, cur := 0, 0, 0;
      tags := [];
    }

    /** Room for `size` words and a terminator behind them; growth is zero filled. */
    method Reserve(size: nat)
      requires Valid()
      modifies `mem
      ensures Valid() && offset + size < |mem|
    {
      var need := size + 1;
      var spare := |mem| - offset;
      if need > spare {
        GrownHolds(mem, tags, offset, RoundUp32(need - spare));
        mem := mem + seq(RoundUp32(need - spare), _ => Word(0, 0));
      }
    }

    /** The body of `hwi_alloc_tag` behind its alignment step. */
    method Append(name: nat, size: nat, wide: bool) returns (at: nat)
      requires Valid() && tags != [] && 1 <= size && offset + size < NULL_OFF && (wide ==> offset % 2 == 0)
      modifies this
      ensures Valid() && at == old(offset) && offset == at + size && last == old(last)
      ensures tags == old(tags) + [Tag(at, size, wide, name, false, 0, NULL_OFF)]
    {
      Reserve(size);
      TagAppended(mem, tags, offset, last, cur, size, wide, name);
      at := offset;
      mem := Charged(mem, last, offset, size, name);
      offset, tags := offset + size, tags + [Tag(at, size, wide, name, false, 0, NULL_OFF)];
    }

    /** `align_tag`: one pad tag is enough, because offsets are multiples of four. */
    method AlignTag(wide: bool, padName: nat)
      requires Valid() && (tags == [] || offset + 1 < NULL_OFF)
      modifies this
      ensures Valid() && (wide ==> offset % 2 == 0) && (old(tags) == [] ==> tags == [])
      ensures tags == old(tags) + Pad(old(offset), wide, padName) && offset == old(offset) + |Pad(old(offset), wide, padName)|
      ensures last == old(last)
    {
      if wide && offset % 2 != 0 {
        var _ := Append(padName, 1, false);
      }
    }

    /** `hwi_alloc_tag`. */
    method AllocTag(name: nat, size: nat, wide: bool, padName: nat) returns (at: nat)
      requires Valid() && tags != [] && 1 <= size && offset + 1 + size < NULL_OFF
      modifies this
      ensures Valid() && (wide ==> at % 2 == 0)
      ensures tags == old(tags) + Pad(old(offset), wide, padName) + [Tag(at, size, wide, name, false, 0, NULL_OFF)]
      ensures last == old(last)
    {
      AlignTag(wide, padName);
      at := Append(name, size, wide);
    }

    /** `hwi_alloc_item`: the pad, if any, still belongs to the item before. */
    method AllocItem(name: nat, size: nat, wide: bool, itemname: nat, owner: nat, padName: nat) returns (at: nat)
      requires Valid() && ITEM_WORDS <= size && OwnerOk(tags, owner) && offset + 1 + size < NULL_OFF
      modifies this
      ensures Valid() && (wide ==> at % 2 == 0) && last == at
      ensures tags == old(tags) + Pad(old(offset), wide, padName) + [Tag(at, size, wide, name, true, itemname, owner)]
    {
      AlignTag(wide, padName);
      OwnerStays(old(tags), Pad(old(offset), wide, padName), owner);
      Reserve(size);
      at := PutItem(name, size, wide, itemname, owner);
    }

    /** The stores of `hwi_alloc_item`, in the room reserved for them. */
    method PutItem(name: nat, size: nat, wide: bool, itemname: nat, owner: nat) returns (at: nat)
      requires Valid() && ITEM_WORDS <= size && OwnerOk(tags, owner) && (wide ==> offset % 2 == 0)
      requires offset + size < |mem| && offset + size < NULL_OFF
      modifies this
      ensures Valid() && at == old(offset) && last == at && offset == at + size
      ensures tags == old(tags) + [Tag(at, size, wide, name, true, itemname, owner)]
    {
      OwnerRoom(mem, tags, offset, owner);
      at, last := offset, offset;
      var stored := StoreItem(mem, at, size, name, itemname, owner);
      NewItemHolds(mem, stored, tags, offset, Tag(at, size, wide, name, true, itemname, owner));
      mem, offset := stored, offset + size;
      cur, tags := |tags|, tags + [Tag(at, size, wide, name, true, itemname, owner)];
    }
  }

  lemma TagAppended(mem: seq<Word>, tags: seq<Tag>, offset: nat, last: nat, cur: nat, size: nat, wide: bool, name: nat)
    requires Holds(mem, tags, offset) && LastIs(tags, last, cur)
    requires 1 <= size && offset + size < NULL_OFF && offset + size < |mem| && (wide ==> offset % 2 == 0)
    ensures last + 1 < |mem|
    ensures var all := tags + [Tag(offset, size, wide, name, false, 0, NULL_OFF)];
            Holds(Charged(mem, last, offset, size, name), all, offset + size) && LastIs(all, last, cur)
  {
    CurrentItem(mem, tags, offset, last, cur);
    ChargedWritten(mem, last, offset, size, name);
    TagHolds(mem, Charged(mem, last, offset, size, name), tags, offset, last, cur, Tag(offset, size, wide, name, false, 0, NULL_OFF));
  }

  method StoreItem(mem: seq<Word>, at: nat, size: nat, name: nat, itemname: nat, owner: nat) returns (r: seq<Word>)
    requires at + 2 < |mem| && size < U16 && (owner == NULL_OFF || (owner + 2 < at && mem[owner + 2].hi + 1 < U16))
    requires mem[at + 1] == Word(0, 0) && mem[at + 2] == Word(0, 0)
    ensures ItemWritten(mem, r, at, size, name, itemname, owner)
  {
    NewItemWritten(mem, at, size, name, itemname, owner);
    r := NewItem(mem, at, size, name, itemname, owner);
    if owner != NULL_OFF {
      r := Adopted(r, owner);
    }
  }

  /** The pad tag that alignment puts in front, if any. */
  function Pad(offset: nat, wide: bool, name: nat): (p: seq<Tag>)
    ensures |p| <= 1 && (p == [] <==> wide ==> offset % 2 == 0) && (wide ==> (offset + |p|) % 2 == 0)
  {
    if wide && offset % 2 != 0 then [Tag(offset, 1, false, name, false, 0, NULL_OFF)] else []
  }

  lemma CurrentItem(mem: seq<Word>, tags: seq<Tag>, offset: nat, last: nat, cur: nat)
    requires Holds(mem, tags, offset) && LastIs(tags, last, cur)
    ensures last + 2 < offset && mem[last + 1].lo <= offset
  {
    TiledBelow(tags, offset, cur);
    assert ItemHolds(mem, tags, cur, offset);
    NextItemAhead(tags, offset, cur);
  }

  lemma OwnerStays(tags: seq<Tag>, pad: seq<Tag>, owner: nat)
    requires OwnerOk(tags, owner)
    ensures OwnerOk(tags + pad, owner)
  {
    if owner != NULL_OFF {
      var j :| 0 <= j < |tags| && tags[j].item && tags[j].at == owner;
      assert (tags + pad)[j].item;
    }
  }

  lemma OwnerRoom(mem: seq<Word>, tags: seq<Tag>, offset: nat, owner: nat)
    requires Holds(mem, tags, offset) && OwnerOk(tags, owner)
    ensures owner == NULL_OFF || (owner + 2 < offset && mem[owner + 2].hi + 1 < U16)
  {
    if owner != NULL_OFF {
      var j := OwnerItem(tags, offset, owner);
      assert ItemHolds(mem, tags, j, offset);
      TagsFit(tags, offset);
    }
  }
}
