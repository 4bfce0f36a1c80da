/** What show_array computes from an array's extents (runtime.c:290-321): the element count
    with its 64-bit overflow check, and how many dimensions end before each element, which
    picks the separator. */
module Extents {
  import opened Errors
  import opened Memory

  /** The product of the extents. */
  function Product(s: seq<nat>): nat {
    if |s| == 0 then 1 else s[0] * Product(s[1..])
  }

  /** The innermost c extents. */
  function Suffix(ext: seq<nat>, c: nat): seq<nat>
    requires c <= |ext|
  {
    ext[|ext| - c..]
  }

  /** The extents data2[0..rank-1] of the array value at `addr`. */
  function ExtentsAt(m: Mem, addr: nat, rank: nat): (ext: seq<nat>)
    ensures |ext| == rank
  {
    seq(rank, i requires 0 <= i < rank => Word(m, addr + 8 * i))
  }

  /** Extent i is the word i places after `addr`. */
  lemma {:induction false} ExtentAt(m: Mem, addr: nat, rank: nat, i: nat)
    requires i < rank
    ensures ExtentsAt(m, addr, rank)[i] == Word(m, addr + 8 * i)
  {
  }

  /** The count loop from extent i on with `size` so far: each multiplication is checked by
      __builtin_mul_overflow on uint64_t. */
  function CountFrom(ext: seq<nat>, i: nat, size: nat): Option<nat>
    requires i <= |ext|
    decreases |ext| - i
  {
    if i == |ext| then Some(size)
    else if size * ext[i] >= TWO64 then None
    else CountFrom(ext, i + 1, size * ext[i])
  }

  /** The element count, or None when show fails with the overflow diagnostic. */
  function ElemCount(ext: seq<nat>): Option<nat> {
    CountFrom(ext, 0, 1)
  }

  /** Every running product of a prefix of the extents fits in 64 bits. */
  predicate PrefixesFit(ext: seq<nat>, n: nat)
    requires n <= |ext|
  {
    forall k :: 0 <= k <= n ==> Product(ext[..k]) < TWO64
  }

  lemma {:induction false} ProductSnoc(s: seq<nat>, a: nat)
    ensures Product(s + [a]) == Product(s) * a
    decreases |s|
  {
    if |s| > 0 {
      assert (s + [a])[1..] == s[1..] + [a];
      ProductSnoc(s[1..], a);
    }
  }

  lemma {:induction false} ProductZero(s: seq<nat>, i: nat)
    requires i < |s| && s[i] == 0
    ensures Product(s) == 0
    decreases i
  {
    if i > 0 {
      ProductZero(s[1..], i - 1);
    }
  }

  /** The count loop succeeds exactly when no running product overflows, and then counts
      every element. */
  lemma {:induction false} ElemCountProduct(ext: seq<nat>)
    ensures ElemCount(ext).Some? <==> PrefixesFit(ext, |ext|)
    ensures ElemCount(ext).Some? ==> ElemCount(ext).value == Product(ext)
  {
    assert ext[..0] == [];
    CountFromProduct(ext, 0);
    assert ext[..|ext|] == ext;
  }

  lemma {:induction false} CountFromProduct(ext: seq<nat>, i: nat)
    requires i <= |ext| && PrefixesFit(ext, i)
    ensures CountFrom(ext, i, Product(ext[..i])).Some? <==> PrefixesFit(ext, |ext|)
    ensures CountFrom(ext, i, Product(ext[..i])).Some? ==>
      CountFrom(ext, i, Product(ext[..i])).value == Product(ext[..|ext|])
    decreases |ext| - i
  {
    if i < |ext| {
      assert ext[..i + 1] == ext[..i] + [ext[i]];
      ProductSnoc(ext[..i], ext[i]);
      if Product(ext[..i + 1]) < TWO64 {
        CountFromProduct(ext, i + 1);
      } else {
        assert !PrefixesFit(ext, |ext|);
      }
    }
  }

  /** A zero extent gives an empty array as long as the extents before it do not overflow. */
  lemma {:induction false} ZeroExtentEmpty(ext: seq<nat>, k: nat)
    requires k < |ext| && ext[k] == 0 && PrefixesFit(ext, k)
    ensures ElemCount(ext) == Some(0)
  {
    forall j | k < j <= |ext|
      ensures Product(ext[..j]) == 0
    {
      ProductZero(ext[..j], k);
    }
    assert PrefixesFit(ext, |ext|);
    ElemCountProduct(ext);
    assert ext[..|ext|] == ext;
    ProductZero(ext, k);
  }

  /** The overflow check sees running products only: extents 2^33, 2^33, 0 hold no element but
      are rejected. */
  lemma {:induction false} OverflowBeforeZero()
    ensures Product([0x2_0000_0000, 0x2_0000_0000, 0]) == 0
    ensures ElemCount([0x2_0000_0000, 0x2_0000_0000, 0]).None?
  {
    var ext: seq<nat> := [0x2_0000_0000, 0x2_0000_0000, 0];
    ProductZero(ext, 2);
    assert CountFrom(ext, 1, 0x2_0000_0000).None?;
  }

  /** The separator loop: while the index is a multiple of the next extent inward, divide it
      out and count one more finished dimension. The loop of the source has no bound check;
      RankStepBound shows that for every element after the first it stops inside the
      extents and never divides by zero, so the two guards here never decide anything. */
  function RankStepFrom(ext: seq<nat>, j: nat, c: nat): nat
    decreases |ext| - c
  {
    if c >= |ext| then c
    else
      var d := ext[|ext| - c - 1];
      if d != 0 && j % d == 0 then RankStepFrom(ext, j / d, c + 1) else c
  }

  /** `rankstep` before element j of show_array. */
  function RankStep(ext: seq<nat>, j: nat): nat {
    RankStepFrom(ext, j, 0)
  }

  /** Before every element after the first the loop stays inside the extents: it reads
      data2[rank - rankstep - 1] only for rankstep < rank, and that extent is not zero. */
  lemma {:induction false} RankStepBound(ext: seq<nat>, j: nat)
    requires 0 < j < Product(ext)
    ensures RankStep(ext, j) < |ext|
  {
    assert Suffix(ext, 0) == [];
    RankStepFromBound(ext, j, 0);
  }

  lemma {:induction false} RankStepFromBound(ext: seq<nat>, j: nat, c: nat)
    requires c <= |ext| && 0 < j && j * Product(Suffix(ext, c)) < Product(ext)
    ensures c <= RankStepFrom(ext, j, c) < |ext|
    decreases |ext| - c
  {
    StepInBounds(ext, j, c);
    var d := ext[|ext| - c - 1];
    if j % d == 0 {
      SuffixStep(ext, c);
      DivStep(j, d, Product(Suffix(ext, c)));
      RankStepFromBound(ext, j / d, c + 1);
    }
  }

  /** One pass of the separator loop: dividing by the next extent keeps the scaled index in
      range and leaves the eventual rankstep unchanged. */
  lemma {:induction false} RankStepAdvance(ext: seq<nat>, j: nat, c: nat)
    requires c < |ext| && 0 < j && j * Product(Suffix(ext, c)) < Product(ext)
    requires ext[|ext| - c - 1] > 0 && j % ext[|ext| - c - 1] == 0
    ensures 0 < j / ext[|ext| - c - 1]
    ensures (j / ext[|ext| - c - 1]) * Product(Suffix(ext, c + 1)) == j * Product(Suffix(ext, c))
    ensures RankStepFrom(ext, j / ext[|ext| - c - 1], c + 1) == RankStepFrom(ext, j, c)
    ensures c + 1 < |ext| && ext[|ext| - c - 2] > 0
  {
    var d := ext[|ext| - c - 1];
    SuffixStep(ext, c);
    DivStep(j, d, Product(Suffix(ext, c)));
    StepInBounds(ext, j / d, c + 1);
  }

  lemma {:induction false} SuffixStep(ext: seq<nat>, c: nat)
    requires c < |ext|
    ensures Product(Suffix(ext, c + 1)) == ext[|ext| - c - 1] * Product(Suffix(ext, c))
  {
    assert Suffix(ext, c + 1)[1..] == Suffix(ext, c);
  }

  lemma {:induction false} StepInBounds(ext: seq<nat>, j: nat, c: nat)
    requires c <= |ext| && 0 < j && j * Product(Suffix(ext, c)) < Product(ext)
    ensures c < |ext| && ext[|ext| - c - 1] > 0
  {
    var p := Product(Suffix(ext, c));
    assert j * p >= p by {
      assert j * p == p + (j - 1) * p;
    }
    if ext[|ext| - c - 1] == 0 {
      ProductZero(ext, |ext| - c - 1);
    }
  }

  lemma {:induction false} DivStep(j: nat, d: nat, p: nat)
    requires d > 0 && j > 0 && j % d == 0
    ensures j / d > 0 && (j / d) * (d * p) == j * p
  {
    var q := j / d;
    assert j == q * d;
    assert q * (d * p) == (q * d) * p;
  }

  /** The meaning of rankstep: element j (0 < j < count) begins a new block in exactly the
      innermost RankStep(ext, j) dimensions. */
  lemma {:induction false} RankStepMeaning(ext: seq<nat>, j: nat)
    requires 0 < j < Product(ext)
    ensures var c := RankStep(ext, j);
      c < |ext| && Product(Suffix(ext, c)) > 0 && Product(Suffix(ext, c + 1)) > 0 &&
      j % Product(Suffix(ext, c)) == 0 && j % Product(Suffix(ext, c + 1)) != 0
  {
    assert Suffix(ext, 0) == [];
    RankStepFromMeaning(ext, j, j, 0);
    RankStepBound(ext, j);
    SuffixPositive(ext, RankStep(ext, j));
    SuffixPositive(ext, RankStep(ext, j) + 1);
  }

  lemma {:induction false} RankStepFromMeaning(ext: seq<nat>, j0: nat, j: nat, c: nat)
    requires c <= |ext| && 0 < j && j * Product(Suffix(ext, c)) < Product(ext)
    requires j0 == j * Product(Suffix(ext, c))
    ensures var r := RankStepFrom(ext, j, c);
      r < |ext| && Product(Suffix(ext, r)) > 0 && Product(Suffix(ext, r + 1)) > 0 &&
      j0 % Product(Suffix(ext, r)) == 0 && j0 % Product(Suffix(ext, r + 1)) != 0
    decreases |ext| - c
  {
    StepInBounds(ext, j, c);
    RankStepFromBound(ext, j, c);
    var d := ext[|ext| - c - 1];
    SuffixStep(ext, c);
    if j % d == 0 {
      DivStep(j, d, Product(Suffix(ext, c)));
      RankStepFromMeaning(ext, j0, j / d, c + 1);
    } else {
      StopsHere(ext, j0, j, c);
    }
  }

  /** Where the separator loop stops: j0 is a multiple of the innermost c extents' product
      and not of the innermost c + 1. */
  lemma {:induction false} StopsHere(ext: seq<nat>, j0: nat, j: nat, c: nat)
    requires c < |ext| && ext[|ext| - c - 1] > 0 && j % ext[|ext| - c - 1] != 0
    requires j0 == j * Product(Suffix(ext, c)) && j0 < Product(ext)
    ensures Product(Suffix(ext, c)) > 0 && Product(Suffix(ext, c + 1)) > 0
    ensures j0 % Product(Suffix(ext, c)) == 0 && j0 % Product(Suffix(ext, c + 1)) != 0
  {
    var d := ext[|ext| - c - 1];
    var p := Product(Suffix(ext, c));
    SuffixStep(ext, c);
    SuffixPositive(ext, c);
    MulAtLeast(d, p);
    ModUnique(j0, p, j, 0);
    ModMul(j, d, p);
    MulAtLeast(p, j % d);
  }

  /** (j * p) % (d * p) == (j % d) * p. */
  lemma {:induction false} ModMul(j: nat, d: nat, p: nat)
    requires d > 0 && p > 0
    ensures (j * p) % (d * p) == (j % d) * p
  {
    var q, r := j / d, j % d;
    assert j == q * d + r;
    assert j * p == q * (d * p) + r * p;
    assert 0 <= r * p < d * p;
    ModUnique(j * p, d * p, q, r * p);
  }

  lemma {:induction false} ModUnique(x: nat, n: nat, q: nat, r: nat)
    requires n > 0 && r < n && x == q * n + r
    ensures x % n == r
  {
    var q', r' := x / n, x % n;
    assert x == q' * n + r';
    var dq: int := q - q';
    assert dq * n == r' - r by {
      assert q * n - q' * n == (q - q') * n;
    }
    if dq >= 1 {
      MulAtLeast(dq, n);
    } else if dq <= -1 {
      MulAtLeast(-dq, n);
    }
  }

  lemma {:induction false} MulAtLeast(a: int, n: nat)
    requires a >= 1
    ensures a * n >= n
  {
    assert a * n == n + (a - 1) * n;
  }

  /** The product splits at any point. */
  lemma {:induction false} ProductSplit(s: seq<nat>, k: nat)
    requires k <= |s|
    ensures Product(s) == Product(s[..k]) * Product(s[k..])
    decreases k
  {
    if k > 0 {
      var a, p1, p2 := s[0], Product(s[1..][..k - 1]), Product(s[k..]);
      assert s[..k][0] == a && s[..k][1..] == s[1..][..k - 1];
      assert Product(s[..k]) == a * p1;
      assert s[k..] == s[1..][k - 1..];
      ProductSplit(s[1..], k - 1);
      assert Product(s) == a * (p1 * p2);
      MulAssoc(a, p1, p2);
    } else {
      assert s[k..] == s;
    }
  }

  lemma {:induction false} MulAssoc(a: nat, b: nat, c: nat)
    ensures a * (b * c) == (a * b) * c
  {
  }

  /** With any elements at all, every innermost block has some. */
  lemma {:induction false} SuffixPositive(ext: seq<nat>, c: nat)
    requires c <= |ext| && Product(ext) > 0
    ensures Product(Suffix(ext, c)) > 0
  {
    ProductSplit(ext, |ext| - c);
  }

  /** ";" repeated n times. */
  function Semicolons(n: nat): string {
    if n == 0 then "" else Semicolons(n - 1) + ";"
  }

  lemma {:induction false} SemicolonsShape(n: nat)
    ensures |Semicolons(n)| == n && forall i :: 0 <= i < n ==> Semicolons(n)[i] == ';'
  {
    if n > 0 {
      SemicolonsShape(n - 1);
    }
  }

  /** What show_array prints between two elements: ", " inside the innermost dimension,
      otherwise one ';' per finished dimension and a blank. */
  function Separator(rankstep: nat): string {
    if rankstep == 0 then ", " else Semicolons(rankstep) + " "
  }

  /** The separator loop never reports fewer finished dimensions than it started from. */
  lemma {:induction false} RankStepFromAtLeast(ext: seq<nat>, j: nat, c: nat)
    ensures RankStepFrom(ext, j, c) >= c
    decreases |ext| - c
  {
    if c < |ext| {
      var d := ext[|ext| - c - 1];
      if d != 0 && j % d == 0 {
        RankStepFromAtLeast(ext, j / d, c + 1);
      }
    }
  }

  /** The separator before element j is ", " exactly when j is not a multiple of the innermost
      extent; otherwise it starts with ';'. */
  lemma {:induction false} CommaInsideRow(ext: seq<nat>, j: nat)
    requires 0 < j < Product(ext)
    ensures |ext| > 0 && ext[|ext| - 1] > 0
    ensures Separator(RankStep(ext, j)) == ", " <==> j % ext[|ext| - 1] != 0
  {
    assert Suffix(ext, 0) == [];
    StepInBounds(ext, j, 0);
    var d := ext[|ext| - 1];
    if j % d == 0 {
      RankStepFromAtLeast(ext, j / d, 1);
      var c := RankStep(ext, j);
      SemicolonsShape(c);
      assert Separator(c)[0] == ';';
    }
  }
}
