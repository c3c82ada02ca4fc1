/**
 `pb_field_iter_t` (pb_common.c): a cyclic walk over a table whose offsets are relative
 to the previous field, and why it visits the members of the struct.
 */
module FieldIter {
  import opened Message

  /** `sizeof(void*)` */
  const POINTER_SIZE: nat

  /** The bytes field `f` takes in the struct, as `pb_field_iter_next` computes them. */
  function Extent(f: Field): nat
  {
    if f.atype.Static? && f.htype.Repeated? then f.dataSize * f.arraySize
    else if f.atype.Pointer? then POINTER_SIZE
    else f.dataSize
  }

  /** `pData - dest_struct` at field `k`. */
  function DataOffset(fields: seq<Field>, k: nat): int
    requires k < |fields|
  {
    if k == 0 then fields[0].dataOffset
    else if SharesUnion(fields, k) then DataOffset(fields, k - 1)
    else DataOffset(fields, k - 1) + Extent(fields[k - 1]) + fields[k].dataOffset
  }

  /** `pSize - dest_struct` at field `k`; it is not recomputed inside a union. */
  function SizeOffset(fields: seq<Field>, k: nat): int
    requires k < |fields|
  {
    if SharesUnion(fields, k) then SizeOffset(fields, k - 1)
    else DataOffset(fields, k) + fields[k].sizeOffset
  }

  // ---------- the struct behind the table ----------

  /**
   A struct member: the offset of its data, its size and that of one item if it is an array,
   and the offset of its `has_`, `_count` or `which_` companion (its own if it has none).
   */
  datatype Member = Member(data: nat, size: nat, item: nat, companion: nat)

  /**
   What the macros PB_REQUIRED_STATIC to PB_REPEATED_POINTER write into `data_size` and
   `array_size`: a static member has its own size, an array that of an item and their number,
   and behind a pointer the size is that of the data pointed to, whatever it is.
   */
  predicate Describes(f: Field, member: Member)
  {
    if f.atype.Pointer? then
      member.size == POINTER_SIZE
    else if f.atype.Static? && f.htype.Repeated? then
      member.item > 0 && f.dataSize == member.item && f.arraySize == member.size / member.item && member.size % member.item == 0
    else
      f.dataSize == member.size
  }

  /** The entry of field `k` has the marker of PB_DATAOFFSET_UNION: it lies in the union of the oneof member before it. */
  predicate Joined(fields: seq<Field>, k: nat)
    requires k < |fields|
  {
    k > 0 && fields[k - 1].htype.Oneof? && fields[k].htype.Oneof? && fields[k].dataOffset == PB_SIZE_MAX
  }

  /** `data_offset` and `size_offset` by PB_DATAOFFSET_FIRST, _OTHER and _UNION and `pb_delta`. */
  predicate PlacedAt(fields: seq<Field>, members: seq<Member>, k: nat)
    requires |members| == |fields| && k < |fields|
  {
    && fields[k].sizeOffset == members[k].companion - members[k].data
    && if k == 0 then fields[k].dataOffset == members[k].data
       else if Joined(fields, k) then
         members[k].data == members[k - 1].data && members[k].companion == members[k - 1].companion
       else fields[k].dataOffset == members[k].data - members[k - 1].data - members[k - 1].size
  }

  predicate BuiltFrom(fields: seq<Field>, members: seq<Member>)
  {
    |members| == |fields| && forall k | 0 <= k < |fields| :: PlacedAt(fields, members, k) && Describes(fields[k], members[k])
  }

  /** The size that `pb_field_iter_next` computes for a field is that of the member: arrays and pointers included. */
  lemma ExtentIsSize(f: Field, member: Member)
    requires Describes(f, member)
    ensures Extent(f) == member.size
  {
    if f.atype.Static? && f.htype.Repeated? {
      assert member.size == member.item * (member.size / member.item) + member.size % member.item;
    }
  }

  /** Relative offsets lead to the absolute ones, across unions, arrays and pointers. */
  lemma {:induction false} RelativeLayout(fields: seq<Field>, members: seq<Member>, k: nat)
    requires BuiltFrom(fields, members) && k < |fields|
    ensures DataOffset(fields, k) == members[k].data
    ensures SizeOffset(fields, k) == members[k].companion
  {
    hide Extent, Describes;
    assert PlacedAt(fields, members, k);
    if k > 0 {
      RelativeLayout(fields, members, k - 1);
      ExtentIsSize(fields[k - 1], members[k - 1]);
    }
  }

  /** Entries with the marker have slot, data and size of the entry before; all others have a slot of their own. */
  lemma UnionOfNeighbours(fields: seq<Field>, k: nat)
    requires 0 < k < |fields|
    ensures if Joined(fields, k) then
              SlotOf(fields, k) == SlotOf(fields, k - 1)
              && DataOffset(fields, k) == DataOffset(fields, k - 1) && SizeOffset(fields, k) == SizeOffset(fields, k - 1)
            else
              SlotOf(fields, k) == SlotOf(fields, k - 1) + 1
              && DataOffset(fields, k) == DataOffset(fields, k - 1) + Extent(fields[k - 1]) + fields[k].dataOffset
              && SizeOffset(fields, k) == DataOffset(fields, k) + fields[k].sizeOffset
  {
    hide Extent;
  }

  /** Two fields share a slot, and with it data and size, exactly if all entries from the second to the last of them have the marker. */
  lemma {:induction false} UnionOfFields(fields: seq<Field>, i: nat, j: nat)
    requires i < j < |fields|
    ensures SlotOf(fields, i) <= SlotOf(fields, j)
    ensures SlotOf(fields, i) == SlotOf(fields, j) <==> forall k | i < k <= j :: Joined(fields, k)
    ensures SlotOf(fields, i) == SlotOf(fields, j) ==>
              DataOffset(fields, i) == DataOffset(fields, j) && SizeOffset(fields, i) == SizeOffset(fields, j)
    decreases j
  {
    hide SlotOf, DataOffset, SizeOffset, Extent, Joined;
    UnionOfNeighbours(fields, j);
    if i < j - 1 { UnionOfFields(fields, i, j - 1); }
  }

  // ---------- the iterator ----------

  /** What `pb_field_iter_find` looks for. */
  predicate Matches(f: Field, tag: nat)
  {
    f.tag == tag && !f.ltype.LExtension?
  }

  class Iter {
    const start: seq<Field>
    const destStruct: int
    var pos: nat
    var requiredFieldIndex: nat
    var pData: int
    var pSize: int
    /** The typed slot that `pData` points to. */
    var slot: nat

    /** The iterator describes field `pos`; on an empty table it stays on the terminator. */
    ghost predicate Valid()
      reads this
    {
      && (forall i | 0 <= i < |start| :: start[i].tag != 0)
      && requiredFieldIndex == (if pos < |start| then RequiredIndex(start, pos) else 0)
      && if pos < |start| then
           && pData == destStruct + DataOffset(start, pos)
           && pSize == destStruct + SizeOffset(start, pos)
           && slot == SlotOf(start, pos)
         else
           pos == |start| == 0
    }

    /** `pb_field_iter_begin`; it returns whether `start` is not empty. */
    constructor (fields: seq<Field>, dest: int)
      requires forall i | 0 <= i < |fields| :: fields[i].tag != 0
      ensures Valid() && start == fields && destStruct == dest && pos == 0
      ensures fields != [] ==> slot == SlotOf(fields, 0)
    {
      start := fields;
      destStruct := dest;
      pos := 0;
      requiredFieldIndex := 0;
      slot := 0;
      pData := if fields == [] then dest else dest + fields[0].dataOffset;
      pSize := if fields == [] then dest else dest + fields[0].dataOffset + fields[0].sizeOffset;
    }

    /** `iter->pos->tag`; the terminator has tag 0. */
    function Tag(): nat
      reads this
    {
      if pos < |start| then start[pos].tag else 0
    }

    /** `PB_LTYPE(iter->pos->type) == PB_LTYPE_EXTENSION`; the type of the terminator is 0. */
    predicate IsExtension()
      reads this
    {
      pos < |start| && start[pos].ltype.LExtension?
    }

    /** `pb_field_iter_next`: one field further, or back to the first one and false. */
    method Next() returns (more: bool)
      requires Valid()
      modifies this
      ensures Valid()
      ensures more == (old(pos) + 1 < |start|)
      ensures pos == if more then old(pos) + 1 else 0
      ensures pos < |start| ==> slot == SlotOf(start, pos)
    {
      var prev := pos;
      if Tag() == 0 {
        return false;
      }
      pos := pos + 1;
      if Tag() == 0 {
        pos := 0;
        requiredFieldIndex := 0;
        slot := 0;
        pData := destStruct + start[0].dataOffset;
        pSize := pData + start[0].sizeOffset;
        return false;
      }
      var prevField, field := start[prev], start[pos];
      var prevSize := prevField.dataSize;
      if prevField.htype.Oneof? && field.htype.Oneof? && field.dataOffset == PB_SIZE_MAX {
        return true;
      } else if prevField.atype.Static? && prevField.htype.Repeated? {
        prevSize := prevSize * prevField.arraySize;
      } else if prevField.atype.Pointer? {
        prevSize := POINTER_SIZE;
      }
      if prevField.htype.Required? {
        requiredFieldIndex := requiredFieldIndex + 1;
      }
      slot := slot + 1;
      pData := pData + prevSize + field.dataOffset;
      pSize := pData + field.sizeOffset;
      return true;
    }

    /** Positions already searched, when the search began at `origin` and wraps around. */
    ghost predicate Searched(origin: nat, tag: nat)
      reads this
    {
      if origin < pos then forall i | origin <= i < pos && i < |start| :: !Matches(start[i], tag)
      else forall i | 0 <= i < |start| && (i < pos || origin <= i) :: !Matches(start[i], tag)
    }

    /**
     `pb_field_iter_find`, from wherever the iterator stands: it succeeds exactly when a field
     other than an extension has the tag, within one cycle, and comes back to its place
     otherwise. On an empty table the terminator counts as a field with tag 0.
     */
    method Find(tag: nat) returns (found: bool)
      requires Valid()
      modifies this
      ensures Valid()
      ensures found <==> (exists i | 0 <= i < |start| :: Matches(start[i], tag)) || (start == [] && tag == 0)
      ensures found ==> Tag() == tag && pos <= |start|
      ensures found && pos < |start| ==> Matches(start[pos], tag) && slot == SlotOf(start, pos) && requiredFieldIndex == RequiredIndex(start, pos)
      ensures found && pos == |start| ==> start == [] && tag == 0
      ensures !found ==> pos == old(pos)
    {
      var origin := pos;
      if Tag() == tag && !IsExtension() {
        return true;
      }
      var more := Next();
      while pos != origin
        invariant Valid() && (start == [] ==> pos == origin && tag != 0)
        invariant origin < |start| || origin == 0
        invariant Searched(origin, tag)
        decreases if origin < pos then |start| - pos + origin else origin - pos
      {
        if Tag() == tag && !IsExtension() {
          return true;
        }
        more := Next();
      }
      return false;
    }
  }
}
