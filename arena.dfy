/** The scratch arena `mem` of runtime.c (lines 86-119): 256 one-byte cells and a bump cursor,
    and the tags of the compact type encoding stored in it. */
module Arena {
  import opened Errors

  const MAX := 256

  // Node tags (enum BType). A tuple has no tag of its own: its first cell is its field count.
  const VOID := 250
  const BOOL := 251
  const INT := 252
  const FLOAT := 253
  const ARRAY := 254     // [ARRAY, elem]: rank 1
  const NDARRAY := 255   // [NDARRAY, rank, elem]

  class Arena {
    const data: array<int>
    var i: nat

    ghost predicate Valid()
      reads this
    {
      data.Length == MAX && i < MAX
    }

    /** The cells allocated so far. */
    function Cells(): (c: seq<int>)
      reads this, data
      requires Valid()
      ensures |c| == i < MAX
    {
      data[..i]
    }

    /** The global is zero-initialised and starts empty. */
    constructor ()
      ensures Valid() && fresh(data) && i == 0 && Cells() == []
    {
      data := new int[MAX](_ => 0);
      i := 0;
    }

    /** `mem.i = 0` at the start of every `show`: cells past the cursor keep their old contents. */
    method Reset()
      requires Valid()
      modifies this
      ensures Valid() && i == 0 && Cells() == []
    {
      i := 0;
    }

    /** getmem: succeeds only when `i + amt < 256`, returns the old cursor and advances it by
        exactly `amt`; otherwise the arena is exhausted. */
    method GetMem(amt: nat) returns (r: Result<nat>)
      requires Valid()
      modifies this
      ensures Valid()
      ensures r.Ok? <==> old(i) + amt < MAX
      ensures r.Ok? ==> r.value == old(i) && i == old(i) + amt
      ensures r.Fail? ==> r.error == TypeTooComplex && i == old(i)
    {
      if i + amt < MAX {
        i := i + amt;
        r := Ok(i - amt);
      } else {
        r := Fail(TypeTooComplex);
      }
    }
  }
}
