/** The in-place matrix transpose that follows the cycles of its permutation. */
module Transpose {
  import opened Modular

  /** The index of row i, column j in a matrix of the given width, stored row by row. */
  function Cell(i: nat, width: nat, j: nat): nat {
    i * width + j
  }

  lemma CellInside(i: nat, rows: nat, width: nat, j: nat)
    requires i < rows && j < width
    ensures Cell(i, width, j) < rows * width
    ensures Cell(i, width, j) == rows * width - 1 <==> i == rows - 1 && j == width - 1
  {
    Scaled(width, i + 1, rows);
    if i < rows - 1 {
      Scaled(width, i + 2, rows);
    }
  }

  /** Where the element at index i of an r x c matrix goes, for 0 <= i < r * c - 1. */
  function Next(i: nat, r: nat, size: nat): nat
    requires size > 0
  {
    (i * r) % size
  }

  /** Multiplication by c undoes multiplication by r modulo r * c - 1. */
  lemma NextInverse(x: nat, r: nat, c: nat, size: nat)
    requires size > 0 && r * c == size + 1 && x < size
    ensures Next(Next(x, c, size), r, size) == x
    ensures 0 < x ==> 0 < Next(x, c, size)
  {
    var y := Next(x, c, size);
    ModIdempotent(x * c, size);
    Mul(y, x * c, r, r, size);
    assert (x * c) * r == x + x * size by {
      assert (x * c) * r == x * (r * c);
      assert x * (size + 1) == x * size + x;
    }
    Intro((x * c) * r, x, x, size);
    ModMultiple(x, 0, size);
    ModMultiple(0, 0, size);
    assert Next(0, r, size) == 0;
  }

  lemma NextStaysInside(x: nat, r: nat, c: nat, size: nat)
    requires size > 0 && r * c == size + 1 && 0 < x < size
    ensures 0 < Next(x, r, size) < size && 0 < Next(x, c, size) < size
    ensures Next(Next(x, r, size), c, size) == x && Next(Next(x, c, size), r, size) == x
  {
    assert c * r == size + 1;
    NextInverse(x, r, c, size);
    NextInverse(x, c, r, size);
  }

  /** b holds the transpose of the r x c matrix that a holds. */
  ghost predicate Transposed<T>(a: seq<T>, b: seq<T>, r: nat, c: nat) {
    |a| == |b| && forall i, j | 0 <= i < r && 0 <= j < c ::
      Cell(j, r, i) < |b| && Cell(i, c, j) < |a| && b[Cell(j, r, i)] == a[Cell(i, c, j)]
  }

  predicate IsInterior(x: nat, size: nat) { 1 <= x < size }

  /** The indices that take part in a cycle: all but the first and the last. */
  ghost function Interior(size: nat): set<nat> {
    set x: nat | x < size && IsInterior(x, size)
  }

  /** A set of indices that whole cycles make up. */
  ghost predicate Closed(d: set<nat>, r: nat, c: nat, size: nat)
    requires size > 0
  {
    forall x | x in d :: Next(x, r, size) in d && Next(x, c, size) in d
  }

  /** Where k steps of the cycle lead. */
  function Steps(start: nat, r: nat, size: nat, k: nat): nat
    requires size > 0
  {
    if k == 0 then start else Next(Steps(start, r, size, k - 1), r, size)
  }

  /** x is on the cycle of start. */
  ghost predicate OnCycle(start: nat, r: nat, size: nat, x: nat)
    requires size > 0
  {
    exists k :: Steps(start, r, size, k) == x
  }

  /** Every element of d has moved, all others are where they were. */
  ghost predicate Moved<T>(a: seq<T>, orig: seq<T>, d: set<nat>, c: nat, size: nat)
    requires size > 0 && |a| == |orig| == size + 1
  {
    && a[0] == orig[0] && a[size] == orig[size]
    && forall y | 0 < y < size ::
         a[y] == if Next(y, c, size) in d then orig[Next(y, c, size)] else orig[y]
  }

  /** i * nrows keeps 64 bits only: no index wraps, or a wrap is a multiple of the size. */
  predicate StepsFit(r: nat, size: int) {
    size <= 0 || (size - 1) * r < W64 || W64 % size == 0
  }

  /** The step of the inner loop is right at every index exactly then. */
  lemma StepsRightExactlyWhen(r: nat, size: nat)
    requires 1 <= r < W64 && size >= 1
    ensures (forall i | 0 < i < size :: StepRight(i, r, size)) <==> StepsFit(r, size)
  {
    if StepsFit(r, size) {
      forall i | 0 < i < size
        ensures StepRight(i, r, size)
      {
        IndexFits(i, r, size);
      }
    } else {
      var i := FirstWrap(r, size);
      WrappedStep(i, r, size);
    }
  }

  predicate StepRight(i: nat, r: nat, size: nat)
    requires size >= 1
  {
    Mul64(i, r) % size == Next(i, r, size)
  }

  /** The least index whose product wraps: it wraps once. */
  lemma FirstWrap(r: nat, size: nat) returns (i: nat)
    requires 1 <= r < W64 && size >= 1 && (size - 1) * r >= W64
    ensures 0 < i < size && W64 <= i * r < 2 * W64
  {
    i := (W64 - 1) / r + 1;
    DivMod(W64 - 1, r);
    DivNonneg(W64 - 1, r);
    assert i * r == (W64 - 1) / r * r + r;
    if i > size - 1 {
      Scaled(r, size - 1, i - 1);
    }
  }

  lemma WrappedStep(i: nat, r: nat, size: nat)
    requires size >= 1 && 0 < i < size && W64 <= i * r < 2 * W64 && W64 % size != 0
    ensures !StepRight(i, r, size)
  {
    hide Cong;
    ModMultiple(i * r - W64, 1, W64);
    if StepRight(i, r, size) {
      var k := i * r / size - (i * r - W64) / size;
      DivMod(i * r, size);
      DivMod(i * r - W64, size);
      assert W64 == k * size;
      ModMultiple(0, k, size);
    }
  }

  /** Transposes, in place, the nrows x ncols matrix stored from index off on. */
  method TransposeInplace<T>(flatten: array<T>, off: nat, nrows: nat, ncols: nat)
    requires nrows >= 1 && ncols >= 1 && off + nrows * ncols <= flatten.Length
    requires nrows < W64 && StepsFit(nrows, nrows * ncols - 1)
    modifies flatten
    ensures Transposed(old(flatten[..])[off..off + nrows * ncols], flatten[off..off + nrows * ncols], nrows, ncols)
    ensures forall x | 0 <= x < flatten.Length && !(off <= x < off + nrows * ncols) :: flatten[x] == old(flatten[x])
  {
    hide Next, Moved, Closed, Transposed, Interior;
    MulAtLeastOne(nrows, ncols);
    var size := nrows * ncols - 1;
    ghost var orig := flatten[off..off + size + 1];
    var b := {0, size};
    ghost var d: set<nat> := {};
    var i := 1;
    NothingMoved(orig, nrows, ncols, size);
    while i < size
      invariant 1 <= i && b == d + {0, size} && d <= Interior(size)
      invariant i < size ==> i !in d
      invariant i >= size ==> d == Interior(size)
      invariant size > 0 ==> Closed(d, nrows, ncols, size) && Moved(flatten[off..off + size + 1], orig, d, ncols, size)
      invariant size == 0 ==> flatten[off..off + size + 1] == orig
      invariant forall x | 0 <= x < flatten.Length && !(off <= x < off + size + 1) :: flatten[x] == old(flatten[x])
      decreases Interior(size) - d
    {
      InteriorIs(size, d);
      b, d := FollowCycle(flatten, off, nrows, ncols, size, i, b, d, orig);
      InteriorIs(size, d);
      i := 1;
      while i < size && i in b
        invariant 1 <= i && (1 < size ==> i <= size)
        invariant forall x | 1 <= x < i :: x in d
      {
        i := i + 1;
      }
    }
    TransposeDone(flatten[off..off + size + 1], orig, nrows, ncols, size);
  }

  lemma NothingMoved<T>(a: seq<T>, r: nat, c: nat, size: nat)
    requires |a| == size + 1
    ensures {} <= Interior(size) && (size <= 1 ==> Interior(size) == {})
    ensures size > 0 ==> Closed({}, r, c, size) && Moved(a, a, {}, c, size)
  {
  }

  lemma InteriorIs(size: nat, d: set<nat>)
    ensures forall x :: x in Interior(size) <==> 1 <= x < size
    ensures (forall x | x in d :: 1 <= x < size) <==> d <= Interior(size)
    ensures (forall x | 1 <= x < size :: x in d) && d <= Interior(size) ==> d == Interior(size)
  {
    forall x | 1 <= x < size
      ensures x in Interior(size)
    {
      assert IsInterior(x, size);
    }
  }

  lemma IndexFits(i: nat, r: nat, size: nat)
    requires i < size && r >= 1 && StepsFit(r, size)
    ensures Mul64(i, r) % size == Next(i, r, size)
  {
    hide Next, Mul64;
    NextIs(i, r, size);
    if (size - 1) * r < W64 {
      Scaled(r, i, size - 1);
      ProductFits(i, r);
    } else {
      WrapIsHarmless(i * r, size);
      ProductIs(i, r);
    }
  }

  lemma ProductIs(i: nat, r: nat)
    ensures Mul64(i, r) == i * r % W64
  {
  }

  lemma WrapIsHarmless(x: nat, size: nat)
    requires size >= 1 && W64 % size == 0
    ensures (x % W64) % size == x % size
  {
    hide Cong;
    var f, k := W64 / size, x / W64;
    DivMod(W64, size);
    DivMod(x, W64);
    assert k * W64 == (k * f) * size by {
      assert W64 == f * size;
    }
    Intro(x, x % W64, k * f, size);
    CongIs(x, x % W64, size);
  }

  /** Elsewhere an element goes astray: here one that should stay where it is. */
  lemma WrapGoesAstray()
    ensures var r, c, i := 0x2_0000_0000, 1, 0x8000_0000;
      !StepsFit(r, r * c - 1) && 0 < i < r * c - 1 && Next(i, r, r * c - 1) == i && Mul64(i, r) % (r * c - 1) == 0
  {
    hide Mul64;
    var size := 0x1_ffff_ffff;
    ModMultiple(0x8000_0000, 0x8000_0000, size);
    WrapsToZero();
    ModMultiple(0, 0, size);
  }

  lemma WrapsToZero()
    ensures Mul64(0x8000_0000, 0x2_0000_0000) == 0
  {
    ModMultiple(0, 1, W64);
  }

  lemma ProductFits(i: nat, r: nat)
    requires i * r < W64
    ensures Mul64(i, r) == i * r
  {
    assert i * r >= 0;
  }

  lemma NextIs(i: nat, r: nat, size: nat)
    requires size > 0
    ensures Next(i, r, size) == (i * r) % size
  {
  }

  /** Moves every element of the cycle through start, and marks the cycle, and nothing else, visited. */
  method FollowCycle<T>(flatten: array<T>, off: nat, nrows: nat, ncols: nat, size: nat, start: nat, b0: set<nat>,
                        ghost d0: set<nat>, ghost orig: seq<T>)
    returns (b: set<nat>, ghost d: set<nat>)
    requires nrows * ncols == size + 1 == |orig| && off + size + 1 <= flatten.Length
    requires 1 <= nrows < W64 && StepsFit(nrows, size)
    requires 1 <= start < size && start !in d0 && (forall x | x in d0 :: 1 <= x < size)
    requires b0 == d0 + {0, size} && Closed(d0, nrows, ncols, size)
    requires Moved(flatten[off..off + size + 1], orig, d0, ncols, size)
    modifies flatten
    ensures d0 < d && (forall x | x in d :: 1 <= x < size) && b == d + {0, size}
    ensures Closed(d, nrows, ncols, size) && Moved(flatten[off..off + size + 1], orig, d, ncols, size)
    ensures forall x :: x in d <==> x in d0 || OnCycle(start, nrows, size, x)
    ensures forall x | 0 <= x < flatten.Length && !(off <= x < off + size + 1) :: flatten[x] == old(flatten[x])
  {
    hide Next, OnCycle, Steps, Moved, Interior;
    InteriorIs(size, d0);
    ghost var n := 0;
    StepsReach(start, nrows, size, 0);
    StartOf(start, nrows, size);
    b, d := b0, d0;
    ghost var all := Interior(size);
    var i := start;
    var t := flatten[off + i];
    NotMovedYet(flatten[off..off + size + 1], orig, d0, start, nrows, ncols, size);
    var first := true;
    while first || i != start
      invariant 1 <= i < size && d0 <= d <= all && b == d + {0, size}
      invariant first ==> d == d0 && i == start
      invariant first || i != start ==> i !in d
      invariant !first ==> start in d && Next(i, ncols, size) in d - d0
      invariant forall x | x in d - d0 ::
        && (Next(x, nrows, size) in d - d0 || Next(x, nrows, size) == i)
        && (x == start || Next(x, ncols, size) in d - d0)
      invariant Moved(flatten[off..off + size + 1], orig, d, ncols, size) && t == orig[i]
      invariant i == Steps(start, nrows, size, n) && forall x | x in d - d0 :: OnCycle(start, nrows, size, x)
      invariant forall x | 0 <= x < flatten.Length && !(off <= x < off + size + 1) :: flatten[x] == old(flatten[x])
      decreases all - d
    {
      NextStaysInside(i, nrows, ncols, size);
      IndexFits(i, nrows, size);
      var next := Mul64(i, nrows) % size;
      ghost var was := flatten[off..off + size + 1];
      MovedStep(was, orig, d, i, next, nrows, ncols, size);
      InteriorIs(size, d);
      flatten[off + next], t := t, flatten[off + next];
      assert flatten[off..off + size + 1] == was[next := orig[i]];
      b := b + {i};
      d := d + {i};
      StepsReach(start, nrows, size, n);
      i, n := next, n + 1;
      first := false;
    }
    CycleInside(d, start, nrows, ncols, size);
  }

  /** One more element goes to its place; the one it displaces had not moved. */
  lemma MovedStep<T>(a: seq<T>, orig: seq<T>, d: set<nat>, i: nat, next: nat, r: nat, c: nat, size: nat)
    requires |a| == |orig| == size + 1 == r * c && 0 < i < size && 0 < next < size
    requires next == Next(i, r, size) && Next(next, c, size) == i && Moved(a, orig, d, c, size) && i !in d
    ensures a[next] == orig[next] && Moved(a[next := orig[i]], orig, d + {i}, c, size)
  {
    hide Next;
    forall y | 0 < y < size
      ensures Next(y, c, size) == i <==> y == next
    {
      NextInverse(y, r, c, size);
    }
  }

  lemma NotMovedYet<T>(a: seq<T>, orig: seq<T>, d: set<nat>, start: nat, r: nat, c: nat, size: nat)
    requires |a| == |orig| == size + 1 == r * c && 0 < start < size && Closed(d, r, c, size) && start !in d
    requires Moved(a, orig, d, c, size)
    ensures a[start] == orig[start]
  {
    hide Next;
    NextInverse(start, r, c, size);
  }

  lemma StepsReach(start: nat, r: nat, size: nat, k: nat)
    requires size > 0
    ensures OnCycle(start, r, size, Steps(start, r, size, k))
    ensures Steps(start, r, size, k + 1) == Next(Steps(start, r, size, k), r, size)
  {
  }

  lemma StartOf(start: nat, r: nat, size: nat)
    requires size > 0
    ensures Steps(start, r, size, 0) == start
  {
  }

  /** A closed set that holds start holds its cycle. */
  lemma CycleInside(d: set<nat>, start: nat, r: nat, c: nat, size: nat)
    requires size > 0 && start in d && Closed(d, r, c, size)
    ensures forall x | OnCycle(start, r, size, x) :: x in d
  {
    forall x | OnCycle(start, r, size, x)
      ensures x in d
    {
      var k :| Steps(start, r, size, k) == x;
      StepsInside(d, start, r, c, size, k);
    }
  }

  lemma {:induction false} StepsInside(d: set<nat>, start: nat, r: nat, c: nat, size: nat, k: nat)
    requires size > 0 && start in d && Closed(d, r, c, size)
    ensures Steps(start, r, size, k) in d
  {
    if k > 0 {
      StepsInside(d, start, r, c, size, k - 1);
    }
  }

  lemma MulAtLeastOne(x: nat, y: nat)
    requires x >= 1 && y >= 1
    ensures x * y >= 1
  {
  }

  /** Next, applied to a position of the transpose, finds the position it came from. */
  lemma NextOfCell(i: nat, j: nat, r: nat, c: nat, size: nat)
    requires size > 0 && r * c == size + 1 && i < r && j < c && Cell(i, c, j) < size
    ensures Next(Cell(j, r, i), c, size) == Cell(i, c, j)
  {
    assert Cell(j, r, i) * c == Cell(i, c, j) + j * size by {
      assert (j * r) * c == j * (r * c);
      assert j * (size + 1) == j * size + j;
    }
    ModMultiple(Cell(i, c, j), j, size);
  }

  lemma TransposeDone<T>(a: seq<T>, orig: seq<T>, r: nat, c: nat, size: nat)
    requires r >= 1 && c >= 1 && r * c == size + 1 == |a| == |orig|
    requires size == 0 ==> a == orig
    requires size > 0 ==> Moved(a, orig, Interior(size), c, size)
    ensures Transposed(orig, a, r, c)
  {
    forall i, j | 0 <= i < r && 0 <= j < c
      ensures Cell(j, r, i) < |a| && Cell(i, c, j) < |a| && a[Cell(j, r, i)] == orig[Cell(i, c, j)]
    {
      CellInside(i, r, c, j);
      assert c * r == r * c;
      CellInside(j, c, r, i);
      CellMoved(a, orig, r, c, size, i, j);
    }
  }

  lemma CellMoved<T>(a: seq<T>, orig: seq<T>, r: nat, c: nat, size: nat, i: nat, j: nat)
    requires r >= 1 && c >= 1 && r * c == size + 1 == |a| == |orig| && i < r && j < c
    requires size == 0 ==> a == orig
    requires size > 0 ==> Moved(a, orig, Interior(size), c, size)
    requires Cell(j, r, i) < |a| && Cell(i, c, j) < |a|
    requires Cell(i, c, j) == size <==> Cell(j, r, i) == size
    ensures a[Cell(j, r, i)] == orig[Cell(i, c, j)]
  {
    if size > 0 && Cell(i, c, j) < size {
      NextOfCell(i, j, r, c, size);
      var y := Cell(j, r, i);
      if y > 0 {
        NextStaysInside(y, r, c, size);
      } else {
        ModMultiple(0, 0, size);
      }
    }
  }
}
