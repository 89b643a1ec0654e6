/**
 * The growing element array of an rvalue in crow/json.h: `emplace_back` with its doubling, its
 * cap and its 16-bit count of free places, and `copy_l`.
 */
module JsonElements {

  const INT_LIMIT: nat := 0x8000_0000    // what `int new_size` holds
  const WORD: nat := 0x1_0000_0000       // uint32_t lsize_
  const HALF_WORD: nat := 0x1_0000       // uint16_t lremain_
  const MAX_GROWTH: nat := 60000

  /** `int new_size`, from unsigned arithmetic. */
  function AsInt(n: nat): int { if n % WORD < INT_LIMIT then n % WORD else n % WORD - WORD }

  /** The new capacity: doubled, but by at most 60000, and at least 4. */
  function NewSize(lsize: nat): int {
    var doubled := AsInt(lsize + lsize);
    var size := if (doubled - lsize) % WORD > MAX_GROWTH then AsInt(lsize + MAX_GROWTH) else doubled;
    if size < 4 then 4 else size
  }

  /** The cap is what keeps the free places countable in 16 bits. Growing works exactly while the
      new capacity is an int. */
  lemma GrowthFits(lsize: nat)
    requires lsize < INT_LIMIT
    ensures lsize + MAX_GROWTH < INT_LIMIT ==>
              NewSize(lsize) - lsize ==
                  (if lsize < 2 then 4 - lsize else if lsize < MAX_GROWTH then lsize else MAX_GROWTH)
    ensures lsize < NewSize(lsize) <==> lsize + MAX_GROWTH < INT_LIMIT
    ensures lsize < NewSize(lsize) ==> NewSize(lsize) - lsize < HALF_WORD
  {
    assert (AsInt(lsize + lsize) - lsize) % WORD == lsize;
  }

  class Elements<T(0)> {
    var l: array<T>
    var lsize: nat
    var lremain: nat

    ghost predicate Valid()
      reads this
    {
      lsize + lremain == l.Length && lremain < HALF_WORD
    }

    ghost function Contents(): seq<T>
      reads this, l
      requires Valid()
    {
      l[..lsize]
    }

    constructor ()
      ensures Valid() && Contents() == [] && lremain == 0 && fresh(l)
    {
      l, lsize, lremain := new T[0], 0, 0;
    }

    /** `copy_l`: the copy has no free places. */
    constructor Copy(r: Elements<T>)
      requires r.Valid()
      ensures Valid() && Contents() == r.Contents() && lremain == 0 && fresh(l)
    {
      lsize, lremain := r.lsize, 0;
      l := new T[r.lsize](i requires 0 <= i < r.lsize <= r.l.Length reads r, r.l => r.l[i]);
    }

    method Grow()
      requires Valid() && lremain == 0 && lsize + MAX_GROWTH < INT_LIMIT
      modifies this
      ensures Valid() && lremain > 0 && lsize == old(lsize) && Contents() == old(Contents()) && fresh(l)
    {
      GrowthFits(lsize);
      var newSize := NewSize(lsize);
      var p := new T[newSize];
      var i := 0;
      while i < lsize
        invariant i <= lsize && p[..i] == l[..i]
        modifies p
      {
        p[i] := l[i];
        i := i + 1;
      }
      l := p;
      lremain := (newSize - lsize) % HALF_WORD;
    }

    /** `emplace_back`: the array is only replaced when it is full. */
    method EmplaceBack(v: T)
      requires Valid() && (lremain == 0 ==> lsize + MAX_GROWTH < INT_LIMIT)
      modifies this, l
      ensures Valid() && Contents() == old(Contents()) + [v]
      ensures if old(lremain) > 0 then l == old(l) && lremain == old(lremain) - 1 else fresh(l)
    {
      if lremain == 0 {
        Grow();
      }
      l[lsize] := v;
      lsize := lsize + 1;
      lremain := lremain - 1;
    }
  }

  /** The elements of a list or object, in the order they were added. */
  method Collect<T(0)>(vs: seq<T>) returns (e: Elements<T>)
    requires |vs| + MAX_GROWTH < INT_LIMIT
    ensures fresh(e) && fresh(e.l) && e.Valid() && e.Contents() == vs
  {
    e := new Elements();
    for i := 0 to |vs|
      invariant fresh(e) && fresh(e.l) && e.Valid() && e.Contents() == vs[..i]
    {
      e.EmplaceBack(vs[i]);
    }
    assert vs[..|vs|] == vs;
  }
}
