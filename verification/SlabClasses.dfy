/** The size classes of src/fast_slabs.c and the lookup of the class that serves a request. */
module SlabClasses {
  import opened FastMath

  /** sizeof(chunk_link_t): three words and a pointer in front of every chunk. */
  const CHUNK_SIZE := 32
  const POWER_FACTOR := 2
  const LINEAR_FACTOR := 1024
  const INVALID_ID := -1

  /** Classes for items of `min` bytes and up; `len` counts them. */
  datatype Classes = Classes(linear: bool, min: nat, len: nat)
  {
    ghost predicate Valid() { min > 0 && len >= 2 }

    /** The item size from which the size of class `i` is computed. */
    function Item(i: nat): nat
    {
      if linear then min + i * LINEAR_FACTOR else min * Pow2(i)
    }

    /** The size of a chunk of class `i`, its header included. */
    function Size(i: nat): nat
    {
      Alignment(Item(i) + CHUNK_SIZE)
    }
  }

  /** The bytes a request needs, header included. */
  function Need(size: nat): nat
  {
    Alignment(size + CHUNK_SIZE)
  }

  lemma AlignmentIsLeast(x: nat, y: nat)
    requires y % ALIGN_SIZE == 0 && x <= y
    ensures Alignment(x) <= y
  {
  }

  lemma AlignmentMonotone(x: nat, y: nat)
    requires x <= y
    ensures Alignment(x) <= Alignment(y)
  {
    AlignmentIsLeast(x, Alignment(y));
  }

  lemma ItemStep(c: Classes, i: nat)
    ensures c.linear ==> c.Item(i + 1) == c.Item(i) + LINEAR_FACTOR
    ensures !c.linear ==> c.Item(i + 1) == 2 * c.Item(i)
  {
    if !c.linear {
      assert Pow2(i + 1) == 2 * Pow2(i);
    }
  }

  lemma {:induction false} ItemMonotone(c: Classes, i: nat, j: nat)
    requires i <= j
    ensures c.min <= c.Item(i) <= c.Item(j)
    decreases j
  {
    if i < j {
      ItemStep(c, j - 1);
      ItemMonotone(c, i, j - 1);
    } else if i > 0 {
      ItemStep(c, i - 1);
      ItemMonotone(c, i - 1, i - 1);
    } else {
      assert Pow2(0) == 1;
    }
  }

  lemma SizesMonotone(c: Classes, i: nat, j: nat)
    requires i <= j
    ensures c.Size(i) <= c.Size(j)
  {
    ItemMonotone(c, i, j);
    AlignmentMonotone(c.Item(i) + CHUNK_SIZE, c.Item(j) + CHUNK_SIZE);
  }

  /** Two classes can have the same size only when both have the size of the first. */
  lemma SizesStrict(c: Classes, i: nat, j: nat)
    requires c.min > 0 && i < j && c.Size(0) < c.Size(j)
    ensures c.Size(i) < c.Size(j)
  {
    ItemStep(c, i);
    ItemMonotone(c, 0, i);
    ItemMonotone(c, i + 1, j);
    SizesMonotone(c, i, j);
    assert c.Item(0) == c.min by { assert Pow2(0) == 1; }
  }

  /** `id` is the first class whose chunks hold `size` bytes. */
  ghost predicate Least(c: Classes, size: nat, id: int)
  {
    && 0 <= id < c.len && Need(size) <= c.Size(id)
    && (forall j: nat :: j < id ==> c.Size(j) < Need(size))
  }

  lemma LeastFrom(c: Classes, size: nat, id: nat)
    requires id < c.len && Need(size) <= c.Size(id) && (id > 0 ==> c.Size(id - 1) < Need(size))
    ensures Least(c, size, id)
  {
    forall j: nat | j < id ensures c.Size(j) < Need(size) {
      SizesMonotone(c, j, id - 1);
    }
  }

  /** The formula for linear classes is sufficient and in range, and never more than one
      class too high. */
  lemma LinearLookup(c: Classes, size: nat, id: nat)
    requires c.Valid() && c.linear && c.Size(0) < Need(size) < c.Size(c.len - 1)
    requires c.Item(id) >= size && (id > 0 ==> c.Item(id - 1) < size)
    ensures 0 < id < c.len && Need(size) <= c.Size(id)
    ensures id >= 2 ==> c.Size(id - 2) < Need(size)
  {
    hide Alignment;
    AlignmentMonotone(size + CHUNK_SIZE, c.Item(id) + CHUNK_SIZE);
    if id >= c.len {
      ItemMonotone(c, c.len - 1, id - 1);
      AlignmentMonotone(c.Item(c.len - 1) + CHUNK_SIZE, size + CHUNK_SIZE);
    }
    if id >= 2 {
      ItemStep(c, id - 2);
    }
  }

  /** It is least when the smallest item is aligned. */
  lemma LinearLeast(c: Classes, size: nat, id: nat)
    requires c.Valid() && c.linear && c.Size(0) < Need(size) < c.Size(c.len - 1)
    requires c.Item(id) >= size && (id > 0 ==> c.Item(id - 1) < size) && c.min % ALIGN_SIZE == 0
    ensures Least(c, size, id)
  {
    LinearLookup(c, size, id);
    AlignedItem(c, id - 1);
    LeastFrom(c, size, id);
  }

  lemma AlignedItem(c: Classes, i: nat)
    requires c.linear && c.min % ALIGN_SIZE == 0
    ensures c.Size(i) == c.Item(i) + CHUNK_SIZE
  {
  }

  /** What fast_slabs_clsid returns. */
  ghost predicate Found(c: Classes, size: nat, up: bool, id: int)
    requires c.Valid()
  {
    if size == 0 || Need(size) > c.Size(c.len - 1) then id == INVALID_ID
    else if Need(size) <= c.Size(0) || Need(size) == c.Size(c.len - 1) then Least(c, size, id)
    else if c.linear then
      c.min + id * LINEAR_FACTOR <= size + (if up then LINEAR_FACTOR - 1 else 0) < c.min + (id + 1) * LINEAR_FACTOR
    else if c.len == 2 then id == INVALID_ID
    else Least(c, size, id)
  }

  /** For linear classes the lookup is least for every size just when the smallest item is
      aligned or there are only two classes. */
  lemma LinearIsLeast(c: Classes)
    requires c.Valid() && c.linear
    ensures (c.min % ALIGN_SIZE == 0 || c.len == 2) <==>
      forall size: nat, id: int :: Found(c, size, true, id) && id != INVALID_ID ==> Least(c, size, id)
  {
    if c.min % ALIGN_SIZE == 0 || c.len == 2 {
      forall size: nat, id: int | Found(c, size, true, id) && id != INVALID_ID ensures Least(c, size, id) {
        if c.Size(0) < Need(size) < c.Size(c.len - 1) {
          LinearFound(c, size, id);
        }
      }
    } else {
      var size := c.min + LINEAR_FACTOR + 1;
      assert c.Size(1) < c.Size(2);
      SizesMonotone(c, 2, c.len - 1);
      assert Need(size) <= c.Size(1);
      assert Found(c, size, true, 2) && !Least(c, size, 2);
    }
  }

  lemma LinearFound(c: Classes, size: nat, id: int)
    requires c.Valid() && c.linear && c.Size(0) < Need(size) < c.Size(c.len - 1)
    requires Found(c, size, true, id) && (c.min % ALIGN_SIZE == 0 || c.len == 2)
    ensures Least(c, size, id)
  {
    if size <= c.min {
      AlignmentMonotone(size + CHUNK_SIZE, c.Item(0) + CHUNK_SIZE);
    }
    if c.min % ALIGN_SIZE == 0 {
      LinearLeast(c, size, id);
    } else {
      LinearLookup(c, size, id);
      LeastFrom(c, size, id);
    }
  }

  lemma Aligned(x: nat)
    requires x % ALIGN_SIZE == 0
    ensures Alignment(x) == x
  {
  }

  lemma NoneBetween(x: nat, y: nat, z: nat)
    requires x % ALIGN_SIZE == 0 && y % ALIGN_SIZE == 0 && x < y <= z <= x + ALIGN_SIZE
    ensures y == z
  {
  }

  /** For doubling classes the lookup answers every size that some class holds, with the least
      class, just when there are more than two classes or the two have one size. */
  lemma DoublingIsLeast(c: Classes)
    requires c.Valid() && !c.linear
    ensures (c.len > 2 || c.Size(1) <= c.Size(0) + ALIGN_SIZE) <==>
      forall size: nat, id: int :: size > 0 && Need(size) <= c.Size(c.len - 1) && Found(c, size, true, id) ==> Least(c, size, id)
  {
    hide Alignment, Classes.Item;
    if c.len == 2 && c.Size(1) > c.Size(0) + ALIGN_SIZE {
      var size := c.Size(0) + ALIGN_SIZE - CHUNK_SIZE;
      Aligned(c.Size(0) + ALIGN_SIZE);
      assert Found(c, size, true, INVALID_ID) && !Least(c, size, INVALID_ID);
    } else {
      forall size: nat, id: int | size > 0 && Need(size) <= c.Size(c.len - 1) && Found(c, size, true, id)
        ensures Least(c, size, id)
      {
        if c.len == 2 && c.Size(0) < Need(size) {
          NoneBetween(c.Size(0), Need(size), c.Size(1));
        }
      }
    }
  }
}
