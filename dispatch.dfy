/**
 * The dispatch of the kernel over a grid of 16 x 16 workgroups. The device runs
 * the invocations in parallel; each in-range invocation stores to its own index,
 * so the model runs them one after another, row by row.
 */
module Dispatch {
  import opened Pixel
  import opened Kernel
  import opened Wrappers

  /** `@workgroup_size(16, 16)` in the shader and `workgroupSize` on the host. */
  const WorkgroupSize: nat := 16

  /** `Math.ceil(n / workgroupSize)`: the fewest workgroups whose invocations reach n. */
  function WorkgroupCount(n: nat): (d: nat)
    ensures WorkgroupSize * d >= n
    ensures d > 0 ==> WorkgroupSize * (d - 1) < n
  {
    (n + WorkgroupSize - 1) / WorkgroupSize
  }

  /** The column of the pixel stored at payload word k of a row-major image. */
  function Column(width: nat, k: nat): (x: nat)
    requires width > 0 && k >= 2
  {
    (k - 2) % width
  }

  /** The row of the pixel stored at payload word k of a row-major image. */
  function Row(width: nat, k: nat): (y: nat)
    requires width > 0 && k >= 2
  {
    (k - 2) / width
  }

  /** Every payload word is the pixel at its column and row, inside the image. */
  lemma Coordinates(width: nat, height: nat, k: nat)
    requires width > 0 && 2 <= k < width * height + 2
    ensures Column(width, k) < width && Row(width, k) < height
    ensures k == Row(width, k) * width + Column(width, k) + 2
  {
    var r := Row(width, k);
    if r >= height {
      MulMonotone(height, r, width);
      assert false;
    }
  }

  /** The pixel at column x and row y is stored at the payload word with those coordinates. */
  lemma CoordinatesOf(width: nat, x: nat, y: nat)
    requires x < width
    ensures Column(width, y * width + x + 2) == x && Row(width, y * width + x + 2) == y
  {
    var k := y * width + x + 2;
    assert 0 <= y * width;
    assert k - 2 == Row(width, k) * width + Column(width, k);
    RowMajorUnique(width, Column(width, k), Row(width, k), x, y);
  }

  /**
   * Whether invocation (x, y) of a grid `columns` invocations wide has run once
   * the row-major sweep stands at (cx, cy).
   */
  predicate Before(x: nat, y: nat, columns: nat, cx: nat, cy: nat)
  {
    x < columns && (y < cy || (y == cy && x < cx))
  }

  /** Output word k once the invocations before (cx, cy) have run. */
  function SweptWord(input: seq<Word>, initial: seq<Word>, columns: nat, cx: nat, cy: nat, k: nat): (w: Word)
    requires WellFormed(input) && |initial| == |input| && k < |input|
  {
    var width: nat := input[0];
    if 2 <= k && width > 0 && Before(Column(width, k), Row(width, k), columns, cx, cy)
    then GrayPixel(input[k])
    else initial[k]
  }

  /** Running invocation (x, y) performs its store on top of the words before it. */
  lemma SweepStep(input: seq<Word>, initial: seq<Word>, columns: nat, x: nat, y: nat, k: nat)
    requires WellFormed(input) && |initial| == |input| && k < |input|
    requires x < columns
    ensures SweptWord(input, initial, columns, x + 1, y, k)
            == match Invocation(input, x, y)
               case Some(s) => if s.index == k then s.value else SweptWord(input, initial, columns, x, y, k)
               case None => SweptWord(input, initial, columns, x, y, k)
  {
    var width: nat := input[0];
    if 2 <= k && width > 0 {
      Coordinates(width, input[1], k);
      var c, r := Column(width, k), Row(width, k);
      match Invocation(input, x, y)
      case Some(s) =>
        if s.index == k {
          RowMajorUnique(width, c, r, x, y);
        }
      case None =>
    }
  }

  /**
   * The output buffer after `dispatchWorkgroups(groupsX, groupsY)`: every pixel
   * the grid reaches is grayscaled, every other word keeps its initial value.
   */
  function Dispatched(input: seq<Word>, initial: seq<Word>, groupsX: nat, groupsY: nat): (output: seq<Word>)
    requires WellFormed(input) && |initial| == |input|
    ensures |output| == |initial|
    ensures output[0] == initial[0] && output[1] == initial[1]
  {
    seq(|initial|, k requires 0 <= k < |initial| =>
          SweptWord(input, initial, WorkgroupSize * groupsX, 0, WorkgroupSize * groupsY, k))
  }

  /** The reference result: the initial header, then every input pixel grayscaled. */
  function Grayscaled(input: seq<Word>, initial: seq<Word>): (output: seq<Word>)
    requires |initial| == |input| >= 2
    ensures |output| == |input|
  {
    initial[..2] + seq(|input| - 2, i requires 0 <= i < |input| - 2 => GrayPixel(input[i + 2]))
  }

  /** Under a grid at least as large as the image, payload word k is grayscaled. */
  lemma CoveredWord(input: seq<Word>, initial: seq<Word>, groupsX: nat, groupsY: nat, k: nat)
    requires WellFormed(input) && |initial| == |input| && 2 <= k < |input|
    requires WorkgroupSize * groupsX >= input[0] && WorkgroupSize * groupsY >= input[1]
    ensures SweptWord(input, initial, WorkgroupSize * groupsX, 0, WorkgroupSize * groupsY, k)
            == GrayPixel(input[k])
  {
    var width: nat := input[0];
    if width == 0 {
      assert false;
    }
    Coordinates(width, input[1], k);
  }

  /** A grid at least as large as the image grayscales every pixel. */
  lemma DispatchCoversImage(input: seq<Word>, initial: seq<Word>, groupsX: nat, groupsY: nat)
    requires WellFormed(input) && |initial| == |input|
    requires WorkgroupSize * groupsX >= input[0] && WorkgroupSize * groupsY >= input[1]
    ensures Dispatched(input, initial, groupsX, groupsY) == Grayscaled(input, initial)
  {
    var output := Dispatched(input, initial, groupsX, groupsY);
    var expected := Grayscaled(input, initial);
    forall k | 2 <= k < |input|
      ensures output[k] == expected[k]
    {
      CoveredWord(input, initial, groupsX, groupsY, k);
    }
  }

  /** Each pixel of the image is stored by exactly one invocation of the grid. */
  lemma EachPixelOnce(input: seq<Word>, k: nat)
    requires WellFormed(input) && 2 <= k < |input|
    ensures input[0] > 0
    ensures var x, y := Column(input[0], k), Row(input[0], k);
            x < WorkgroupSize * WorkgroupCount(input[0]) && y < WorkgroupSize * WorkgroupCount(input[1])
            && Invocation(input, x, y) == Some(Store(k, GrayPixel(input[k])))
    ensures forall x: nat, y: nat :: Invocation(input, x, y).Some? && Invocation(input, x, y).value.index == k
              ==> x == Column(input[0], k) && y == Row(input[0], k)
  {
    var width: nat := input[0];
    if width == 0 {
      assert false;
    }
    Coordinates(width, input[1], k);
    forall x: nat, y: nat | Invocation(input, x, y).Some? && Invocation(input, x, y).value.index == k
      ensures x == Column(width, k) && y == Row(width, k)
    {
      CoordinatesOf(width, x, y);
    }
  }

  /**
   * `dispatchWorkgroups(groupsX, groupsY)`: every invocation of the grid runs
   * the kernel once against the input buffer and the output buffer.
   */
  method RunDispatch(input: array<Word>, output: array<Word>, groupsX: nat, groupsY: nat)
    requires WellFormed(input[..]) && output.Length == input.Length && input != output
    modifies output
    ensures output[..] == Dispatched(input[..], old(output[..]), groupsX, groupsY)
  {
    ghost var initial := output[..];
    var columns := WorkgroupSize * groupsX;
    var rows := WorkgroupSize * groupsY;
    var y := 0;
    while y < rows
      invariant y <= rows
      invariant forall k :: 0 <= k < output.Length ==> output[k] == SweptWord(input[..], initial, columns, 0, y, k)
    {
      var x := 0;
      while x < columns
        invariant x <= columns
        invariant forall k :: 0 <= k < output.Length ==> output[k] == SweptWord(input[..], initial, columns, x, y, k)
      {
        var store := Invocation(input[..], x, y);
        if store.Some? {
          output[store.value.index] := store.value.value;
        }
        forall k | 0 <= k < output.Length
          ensures output[k] == SweptWord(input[..], initial, columns, x + 1, y, k)
        {
          SweepStep(input[..], initial, columns, x, y, k);
        }
        x := x + 1;
      }
      y := y + 1;
    }
  }
}
