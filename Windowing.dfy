/**
 * Fixed-size windows taken at a fixed stride over a sequence: the shape shared
 * by both chunking strategies. Windows start at 0, stride, 2*stride, ... while
 * the start is inside the sequence, and each covers up to `size` elements,
 * clipped at the end (Python's `s[i:i+size]` with `i` in `range(0, len(s), stride)`).
 */
module Windowing {
  import opened Words

  function Min(a: int, b: int): int {
    if a <= b then a else b
  }

  /** Ceiling of n / d, the `ceil(n / d)` of the chunk-count laws. */
  function CeilDiv(n: nat, d: nat): nat
    requires d > 0
  {
    (n + d - 1) / d
  }

  /**
   * The reference definition: the first window, then the windows of what is
   * left once the first `stride` elements are dropped.
   */
  function Windows<T>(s: seq<T>, size: nat, stride: nat): seq<seq<T>>
    requires stride > 0
    decreases |s|
  {
    if |s| == 0 then []
    else [s[..Min(size, |s|)]] + Windows(s[Min(stride, |s|)..], size, stride)
  }

  /** Window k exists exactly when its start k * stride is inside the sequence. */
  lemma {:induction false} WindowIndexIff<T>(s: seq<T>, size: nat, stride: nat, k: nat)
    requires stride > 0
    ensures k < |Windows(s, size, stride)| <==> k * stride < |s|
    decreases |s|
  {
    if |s| > 0 && k > 0 {
      var rest := s[Min(stride, |s|)..];
      assert (k - 1) * stride == k * stride - stride;
      if stride < |s| {
        WindowIndexIff(rest, size, stride, k - 1);
      } else {
        assert rest == [];
        assert k * stride >= stride;
      }
    }
  }

  /** Window k is `s[k*stride : k*stride+size]`, clipped at the end. */
  lemma {:induction false} WindowAt<T>(s: seq<T>, size: nat, stride: nat, k: nat)
    requires stride > 0
    requires k < |Windows(s, size, stride)|
    ensures k * stride < |s|
    ensures Windows(s, size, stride)[k] == s[k * stride .. Min(k * stride + size, |s|)]
    decreases |s|
  {
    WindowIndexIff(s, size, stride, k);
    if k > 0 {
      var rest := s[Min(stride, |s|)..];
      assert (k - 1) * stride == k * stride - stride;
      assert stride <= k * stride;
      WindowIndexIff(rest, size, stride, k - 1);
      WindowAt(rest, size, stride, k - 1);
      assert rest == s[stride..];
    }
  }

  /** There are ceil(n / stride) windows, and none of an empty sequence. */
  lemma WindowsCount<T>(s: seq<T>, size: nat, stride: nat)
    requires stride > 0
    ensures |Windows(s, size, stride)| == CeilDiv(|s|, stride)
  {
    var c := |Windows(s, size, stride)|;
    WindowIndexIff(s, size, stride, c);
    if c > 0 {
      WindowIndexIff(s, size, stride, c - 1);
      MulSucc(c - 1, stride);
    }
    MulSucc(c, stride);
    DivBetween(|s| + stride - 1, stride, c);
  }

  lemma DivBetween(x: nat, d: nat, q: nat)
    requires d > 0
    requires q * d <= x < (q + 1) * d
    ensures x / d == q
  {
    var r := x / d;
    assert x == r * d + x % d && 0 <= x % d < d;
    MulSign(r - q, d);
    assert (r - q) * d == r * d - q * d;
  }

  lemma MulSucc(k: nat, d: nat)
    ensures (k + 1) * d == k * d + d
  {
  }

  lemma MulSign(a: int, d: nat)
    requires d > 0
    ensures a >= 1 ==> a * d >= d
    ensures a <= -1 ==> a * d <= -(d as int)
  {
  }

  /** Each window is non-empty and holds at most `size` elements. */
  lemma WindowBounds<T>(s: seq<T>, size: nat, stride: nat, k: nat)
    requires 0 < stride
    requires 0 < size
    requires k < |Windows(s, size, stride)|
    ensures 0 < |Windows(s, size, stride)[k]| <= size
  {
    WindowAt(s, size, stride, k);
  }

  /**
   * With stride == size the windows partition the sequence: every window but
   * the last is full, the last holds between 1 and `size` elements, and the
   * windows concatenated give the sequence back.
   */
  lemma {:induction false} PartitionFlatten<T>(s: seq<T>, size: nat)
    requires size > 0
    ensures Flatten(Windows(s, size, size)) == s
    decreases |s|
  {
    if |s| > 0 {
      var m := Min(size, |s|);
      PartitionFlatten(s[m..], size);
      var ws := Windows(s, size, size);
      assert ws[1..] == Windows(s[m..], size, size);
      assert s == s[..m] + s[m..];
    }
  }

  lemma PartitionSizes<T>(s: seq<T>, size: nat, k: nat)
    requires size > 0
    requires k < |Windows(s, size, size)|
    ensures k + 1 < |Windows(s, size, size)| ==> |Windows(s, size, size)[k]| == size
    ensures 1 <= |Windows(s, size, size)[k]| <= size
  {
    WindowAt(s, size, size, k);
    WindowIndexIff(s, size, size, k + 1);
    assert (k + 1) * size == k * size + size;
  }

  /**
   * A full window is followed by another window, whose first `size - stride`
   * elements are the last `size - stride` elements of the full one.
   */
  lemma WindowOverlap<T>(s: seq<T>, size: nat, stride: nat, k: nat)
    requires 0 < stride < size
    requires k * stride + size <= |s|
    ensures k + 1 < |Windows(s, size, stride)|
    ensures |Windows(s, size, stride)[k]| == size
    ensures |Windows(s, size, stride)[k + 1]| >= size - stride
    ensures Windows(s, size, stride)[k + 1][..size - stride] == Windows(s, size, stride)[k][stride..]
  {
    assert (k + 1) * stride == k * stride + stride;
    WindowIndexIff(s, size, stride, k);
    WindowIndexIff(s, size, stride, k + 1);
    WindowAt(s, size, stride, k);
    WindowAt(s, size, stride, k + 1);
  }

  /**
   * Once a window reaches the end of the sequence, the next window (if any)
   * lies entirely inside it: it is the window's suffix after `stride` elements.
   */
  lemma TrailingWindowInside<T>(s: seq<T>, size: nat, stride: nat, k: nat)
    requires 0 < stride <= size
    requires k + 1 < |Windows(s, size, stride)|
    requires |s| <= k * stride + size
    ensures stride < |Windows(s, size, stride)[k]|
    ensures Windows(s, size, stride)[k + 1] == Windows(s, size, stride)[k][stride..]
  {
    assert (k + 1) * stride == k * stride + stride;
    WindowAt(s, size, stride, k);
    WindowAt(s, size, stride, k + 1);
  }

  /** Window starts k * stride are strictly increasing and all inside the sequence. */
  lemma WindowStarts<T>(s: seq<T>, size: nat, stride: nat, j: nat, k: nat)
    requires stride > 0
    requires j < k < |Windows(s, size, stride)|
    ensures j * stride < k * stride < |s|
  {
    WindowIndexIff(s, size, stride, k);
    assert k * stride == j * stride + (k - j) * stride;
  }
}
