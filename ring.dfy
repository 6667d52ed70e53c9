/**
 * A resizable ring buffer that is always full (src/ring.rs).
 *
 * The buffer is a vector of slots and a cursor on the most recently written
 * slot. `new` fills every slot with the element type's default value, so
 * there is no empty state: the oldest value is always the slot just after
 * the cursor, and `push` overwrites it. `IterChronological` reads the slots
 * from the oldest to the newest; it is the abstract value every operation is
 * specified against.
 */
module RingBuffer {

  /** `n` copies of `x`. */
  function Repeat<T>(x: T, n: nat): (r: seq<T>)
    ensures |r| == n
    ensures forall i :: 0 <= i < n ==> r[i] == x
  {
    seq(n, _ => x)
  }

  function Min(a: nat, b: nat): nat { if a <= b then a else b }

  // ---------------------------------------------------------------------
  // The chronological view under a sequence of pushes.
  // ---------------------------------------------------------------------

  /** The view of a full ring holding `view` after `xs` are pushed in order. */
  function Slide<T>(view: seq<T>, xs: seq<T>): (r: seq<T>)
    requires |view| > 0
    ensures |r| == |view|
    decreases |xs|
  {
    if xs == [] then view
    else Slide(view, xs[..|xs| - 1])[1..] + [xs[|xs| - 1]]
  }

  /** Pushing only ever drops the oldest values: the view is a sliding window. */
  lemma {:induction false} SlideIsWindow<T>(view: seq<T>, xs: seq<T>)
    requires |view| > 0
    ensures Slide(view, xs) == (view + xs)[|xs|..]
    decreases |xs|
  {
    if xs != [] {
      var ys := xs[..|xs| - 1];
      SlideIsWindow(view, ys);
      assert xs == ys + [xs[|xs| - 1]];
      assert view + xs == (view + ys) + [xs[|xs| - 1]];
    }
  }

  /** Once at least `|view|` values were pushed, the view holds exactly the last ones pushed. */
  lemma SlideKeepsLastPushed<T>(view: seq<T>, xs: seq<T>)
    requires |view| > 0 && |xs| >= |view|
    ensures Slide(view, xs) == xs[|xs| - |view|..]
  {
    SlideIsWindow(view, xs);
    assert (view + xs)[|xs|..] == xs[|xs| - |view|..];
  }

  // ---------------------------------------------------------------------
  // What `grow` does to the chronological view.
  // ---------------------------------------------------------------------

  /**
   * The view after growing by `t` slots, as ring.rs:38-65 computes it, when
   * `m` slots lie after the cursor (the older part of the view) and `d` is the
   * default value: the `m` moved-from slots all read as the oldest value, the
   * remaining new slots as `d`, and when the shift distance `t` is smaller
   * than `m` the shifted block overlaps them, so the oldest `m - t` values of
   * `v` are overwritten.
   */
  function GrownViewAsWritten<T>(v: seq<T>, m: nat, t: nat, d: T): (r: seq<T>)
    requires m < |v|
    ensures |r| == |v| + t && r[|r| - 1] == v[|v| - 1]
  {
    seq(|v| + t, k requires 0 <= k < |v| + t => if k < m then v[0] else if k < t then d else v[k - t])
  }

  /**
   * The as-written view starts with `m` copies of the oldest value; the old
   * view survives whole only when `t >= m`, and otherwise only from index `m - t`.
   */
  lemma GrownViewAsWrittenShape<T>(v: seq<T>, m: nat, t: nat, d: T)
    requires m < |v|
    ensures GrownViewAsWritten(v, m, t, d)[..m] == Repeat(v[0], m)
    ensures t >= m ==> GrownViewAsWritten(v, m, t, d)[t..] == v
    ensures t < m ==> GrownViewAsWritten(v, m, t, d)[m..] == v[m - t..]
  {
  }

  /**
   * The view after growing by `t` slots with the fill limited to the slots of
   * `oldest_i..old_size` that the shifted block does not cover: every old
   * value is kept, in order, after `t` padding values. The padding is
   * `min(m, t)` copies of the oldest value, then the defaults `resize` wrote
   * past the old end, which stay as in `grow` as written.
   */
  function GrownView<T>(v: seq<T>, m: nat, t: nat, d: T): (r: seq<T>)
    requires m < |v|
    ensures |r| == |v| + t && r[|r| - 1] == v[|v| - 1]
  {
    seq(|v| + t, k requires 0 <= k < |v| + t => if k < t then (if k < m then v[0] else d) else v[k - t])
  }

  /**
   * The intended view is the old view after `t` padding values: the oldest
   * value in the first `min(m, t)` of them, the default in the rest.
   */
  lemma GrownViewShape<T>(v: seq<T>, m: nat, t: nat, d: T)
    requires m < |v|
    ensures GrownView(v, m, t, d)[t..] == v
    ensures GrownView(v, m, t, d)[..Min(m, t)] == Repeat(v[0], Min(m, t))
    ensures GrownView(v, m, t, d)[Min(m, t)..t] == Repeat(d, t - Min(m, t))
  {
  }

  /** When the cursor is on the last slot both agree: `t` defaults, then the old view. */
  lemma GrowAtEndPrependsDefaults<T>(v: seq<T>, t: nat, d: T)
    requires 0 < |v|
    ensures GrownViewAsWritten(v, 0, t, d) == GrownView(v, 0, t, d) == Repeat(d, t) + v
  {
    assert GrownViewAsWritten(v, 0, t, d) == Repeat(d, t) + v;
  }

  /** The as-written view differs from the intended one exactly when the shift overlaps. */
  lemma {:induction false} GrowAsWrittenOverwritesWhenOverlapping<T>(v: seq<T>, m: nat, t: nat, d: T)
    requires m < |v| && 0 < t
    ensures GrownViewAsWritten(v, m, t, d) == GrownView(v, m, t, d) <==>
      (t >= m || forall i :: 0 <= i < m - t ==> v[i] == v[0])
  {
    var a, b := GrownViewAsWritten(v, m, t, d), GrownView(v, m, t, d);
    if t < m {
      if forall i :: 0 <= i < m - t ==> v[i] == v[0] {
        forall k | 0 <= k < |a| ensures a[k] == b[k] {
          if t <= k < m {
            assert a[k] == v[0] && b[k] == v[k - t];
          }
        }
      }
      if a == b {
        forall i | 0 <= i < m - t ensures v[i] == v[0] {
          assert b[i + t] == v[i];
          assert a[i + t] == v[0];
        }
      }
    }
  }

  /**
   * Concrete input: four slots holding 10, 20, 30, 40 with the cursor on slot 0
   * (view 20, 30, 40, 10), grown to five slots. The as-written code loses 30.
   */
  lemma GrowAsWrittenLosesValue()
    ensures GrownViewAsWritten([20, 30, 40, 10], 3, 1, 0) == [20, 20, 20, 40, 10]
    ensures 30 !in GrownViewAsWritten([20, 30, 40, 10], 3, 1, 0)
    ensures GrownView([20, 30, 40, 10], 3, 1, 0) == [20, 20, 30, 40, 10]
  {
    var a := GrownViewAsWritten([20, 30, 40, 10], 3, 1, 0);
    assert a == [20, 20, 20, 40, 10];
    var b := GrownView([20, 30, 40, 10], 3, 1, 0);
    assert b == [20, 20, 30, 40, 10];
  }

  // ---------------------------------------------------------------------
  // The `Vec` operations the ring uses, on the vector's contents.
  // ---------------------------------------------------------------------

  /** `s` after `copy_within(src..end, dst)`: the block is copied as if through a buffer. */
  function Copied<T>(s: seq<T>, src: nat, end: nat, dst: nat): (r: seq<T>)
    requires src <= end <= |s| && dst + (end - src) <= |s|
    ensures |r| == |s|
  {
    seq(|s|, i requires 0 <= i < |s| => if dst <= i < dst + (end - src) then s[src + (i - dst)] else s[i])
  }

  /** `copy_within` puts the old block at the destination and leaves every other slot alone. */
  lemma CopiedMovesBlock<T>(s: seq<T>, src: nat, end: nat, dst: nat)
    requires src <= end <= |s| && dst + (end - src) <= |s|
    ensures Copied(s, src, end, dst)[dst..dst + (end - src)] == s[src..end]
    ensures Copied(s, src, end, dst)[..dst] == s[..dst]
    ensures Copied(s, src, end, dst)[dst + (end - src)..] == s[dst + (end - src)..]
  {
  }

  /** `s` after `s[from..to].fill(x)`. */
  function Filled<T>(s: seq<T>, from: nat, to: nat, x: T): (r: seq<T>)
    requires from <= to <= |s|
    ensures |r| == |s|
  {
    seq(|s|, i requires 0 <= i < |s| => if from <= i < to then x else s[i])
  }

  /** `s` after `Vec::resize(n, d)` with `n >= |s|`. */
  function Resized<T>(s: seq<T>, n: nat, d: T): (r: seq<T>)
    requires |s| <= n
    ensures |r| == n
  {
    seq(n, i requires 0 <= i < n => if i < |s| then s[i] else d)
  }

  /** `resize` keeps the old slots and appends `d` up to length `n`. */
  lemma ResizedAppendsDefaults<T>(s: seq<T>, n: nat, d: T)
    requires |s| <= n
    ensures Resized(s, n, d) == s + Repeat(d, n - |s|)
  {
    assert Resized(s, n, d) == s + Repeat(d, n - |s|);
  }

  /**
   * `translate_left`: the `nMove` slots starting at `dstStart + translate` are
   * copied down to `dstStart` (`copy_within`).
   */
  function TranslatedLeft<T>(s: seq<T>, nMove: nat, translate: nat, dstStart: nat): (r: seq<T>)
    requires dstStart + translate + nMove <= |s|
    ensures |r| == |s|
    ensures r[dstStart..dstStart + nMove] == s[dstStart + translate..dstStart + translate + nMove]
    ensures r[..dstStart] == s[..dstStart]
    ensures r[dstStart + nMove..] == s[dstStart + nMove..]
  {
    var srcStart := dstStart + translate;
    var srcEnd := srcStart + nMove;
    CopiedMovesBlock(s, srcStart, srcEnd, dstStart);
    Copied(s, srcStart, srcEnd, dstStart)
  }

  /** The slot after `i` in a vector of `size` slots, wrapping to 0. */
  function NextSlot(i: nat, size: nat): (j: nat)
    requires i < size
    ensures j < size
    ensures j == (i + 1) % size
  {
    if i + 1 < size then i + 1 else 0
  }

  // ---------------------------------------------------------------------
  // Slot layouts.
  // ---------------------------------------------------------------------

  /**
   * The slots of a full ring whose chronological view is `v` and whose cursor
   * is `c`: the newest values sit up to the cursor, the oldest after it.
   */
  function RingSlots<T>(v: seq<T>, c: nat): (r: seq<T>)
    requires c < |v|
    ensures |r| == |v|
    ensures r[c] == v[|v| - 1]
  {
    seq(|v|, i requires 0 <= i < |v| => if i <= c then v[|v| - 1 - c + i] else v[i - c - 1])
  }

  /**
   * `shrink` to `n` slots when the cursor `c` is below `n`: the slots after
   * the cursor are translated left over the dropped ones (nothing moves when
   * the cursor is on the new last slot), and the first `n` slots then lay out
   * the newest `n` values with the same cursor.
   */
  lemma ShrinkBelowCursorSlots<T>(v: seq<T>, c: nat, n: nat, nMove: nat, translate: nat, dstStart: nat)
    requires c < n < |v|
    requires nMove == n - 1 - c && translate == |v| - n && dstStart == c + 1
    ensures c + 1 == n ==> RingSlots(v, c)[..n] == RingSlots(v[|v| - n..], c)
    ensures TranslatedLeft(RingSlots(v, c), nMove, translate, dstStart)[..n]
      == RingSlots(v[|v| - n..], c)
  {
    var e := RingSlots(v, c);
    var moved := TranslatedLeft(e, nMove, translate, dstStart);
    var w := RingSlots(v[|v| - n..], c);
    forall i | 0 <= i < n ensures moved[i] == w[i] && (c + 1 == n ==> e[i] == w[i]) {
      if c < i {
        assert moved[i] == e[i + (|v| - n)];
      }
    }
  }

  /**
   * `shrink` to `n` slots when the cursor `c` is at or past `n`: the `n` slots
   * up to the cursor are translated to the front, and with the cursor on the
   * new last slot they lay out the newest `n` values.
   */
  lemma ShrinkPastCursorSlots<T>(v: seq<T>, c: nat, n: nat, nMove: nat, translate: nat, dstStart: nat)
    requires 0 < n <= c < |v|
    requires nMove == n && translate == c - (n - 1) && dstStart == 0
    ensures TranslatedLeft(RingSlots(v, c), nMove, translate, dstStart)[..n]
      == RingSlots(v[|v| - n..], n - 1)
  {
    var e := RingSlots(v, c);
    var moved := TranslatedLeft(e, nMove, translate, dstStart);
    var w := RingSlots(v[|v| - n..], n - 1);
    forall i | 0 <= i < n ensures moved[i] == w[i] {
      assert moved[i] == e[i + c + 1 - n];
    }
  }

  /**
   * `grow` from `oldSize` to `newSize` slots when the cursor `c` is on the last
   * slot: the new default slots come right after the cursor, which is where
   * the oldest values are read from, and nothing has to move.
   */
  lemma GrowAtEndSlots<T>(v: seq<T>, c: nat, oldSize: nat, newSize: nat, d: T)
    requires c + 1 == |v| == oldSize <= newSize
    ensures Resized(RingSlots(v, c), newSize, d)
      == RingSlots(GrownView(v, oldSize - c - 1, newSize - oldSize, d), c)
      == RingSlots(GrownViewAsWritten(v, oldSize - c - 1, newSize - oldSize, d), c)
  {
    var e := Resized(RingSlots(v, c), newSize, d);
    var g := GrownView(v, 0, newSize - oldSize, d);
    GrowAtEndPrependsDefaults(v, newSize - oldSize, d);
    forall i | 0 <= i < newSize ensures e[i] == RingSlots(g, c)[i] {
      if i <= c {
        assert RingSlots(g, c)[i] == g[newSize - oldSize + i];
      }
    }
  }

  /**
   * `grow` from `oldSize` to `newSize` slots when the cursor `c` is not on the
   * last slot: the slots from the oldest one `oldestI` are shifted up by the
   * growth, then the slots from `oldestI` up to where the shifted block begins
   * take the oldest value `x`; the slots then lay out `GrownView`.
   */
  lemma GrowSlots<T>(v: seq<T>, c: nat, oldSize: nat, newSize: nat, d: T, oldestI: nat, x: T, translate: nat, fillEnd: nat)
    requires c + 1 < |v| == oldSize < newSize && oldestI == c + 1 && x == v[0]
    requires translate == newSize - oldSize && fillEnd == Min(oldSize, oldestI + translate)
    ensures
      Filled(Copied(Resized(RingSlots(v, c), newSize, d), oldestI, oldSize, oldestI + translate), oldestI, fillEnd, x)
      == RingSlots(GrownView(v, oldSize - c - 1, newSize - oldSize, d), c)
  {
    var t := translate;
    var e := Resized(RingSlots(v, c), newSize, d);
    var g := GrownView(v, oldSize - c - 1, newSize - oldSize, d);
    var moved := Copied(e, oldestI, oldSize, oldestI + translate);
    var filled := Filled(moved, oldestI, fillEnd, x);
    var rg := RingSlots(g, c);
    forall i | 0 <= i < newSize ensures filled[i] == rg[i] {
      if i <= c {
        assert filled[i] == e[i] == v[|v| - 1 - c + i];
        assert rg[i] == g[newSize - 1 - c + i];
      } else if i < c + 1 + t {
        assert rg[i] == g[i - c - 1];
        if i >= |v| {
          assert moved[i] == e[i];
        }
      } else {
        assert moved[i] == e[i - t] == v[i - t - c - 1];
        assert rg[i] == g[i - c - 1];
      }
    }
  }

  /** `GrowSlots` with the fill running to the old length, as ring.rs:64 writes it: the slots lay out `GrownViewAsWritten`. */
  lemma GrowSlotsAsWritten<T>(v: seq<T>, c: nat, oldSize: nat, newSize: nat, d: T, oldestI: nat, x: T, translate: nat)
    requires c + 1 < |v| == oldSize < newSize && oldestI == c + 1 && x == v[0]
    requires translate == newSize - oldSize
    ensures
      Filled(Copied(Resized(RingSlots(v, c), newSize, d), oldestI, oldSize, oldestI + translate), oldestI, oldSize, x)
      == RingSlots(GrownViewAsWritten(v, oldSize - c - 1, newSize - oldSize, d), c)
  {
    var t := translate;
    var e := Resized(RingSlots(v, c), newSize, d);
    var g := GrownViewAsWritten(v, oldSize - c - 1, newSize - oldSize, d);
    var moved := Copied(e, oldestI, oldSize, oldestI + translate);
    var filled := Filled(moved, oldestI, oldSize, x);
    var rg := RingSlots(g, c);
    forall i | 0 <= i < newSize ensures filled[i] == rg[i] {
      if i <= c {
        assert filled[i] == e[i] == v[|v| - 1 - c + i];
        assert rg[i] == g[newSize - 1 - c + i];
      } else if i < |v| {
        assert rg[i] == g[i - c - 1];
      } else if i < c + 1 + t {
        assert rg[i] == g[i - c - 1];
        assert moved[i] == e[i];
      } else {
        assert moved[i] == e[i - t] == v[i - t - c - 1];
        assert rg[i] == g[i - c - 1];
      }
    }
  }

  /**
   * Growing leaves the slots up to the cursor `c` as they were: they hold the
   * newest `c + 1` values, and the grown view ends with the whole old view.
   */
  lemma GrowKeepsSlotsToCursor<T>(v: seq<T>, c: nat, t: nat, d: T)
    requires c < |v|
    ensures RingSlots(GrownView(v, |v| - c - 1, t, d), c)[..c + 1] == RingSlots(v, c)[..c + 1]
    ensures RingSlots(GrownViewAsWritten(v, |v| - c - 1, t, d), c)[..c + 1] == RingSlots(v, c)[..c + 1]
  {
    var g := GrownView(v, |v| - c - 1, t, d);
    var a := GrownViewAsWritten(v, |v| - c - 1, t, d);
    forall i | 0 <= i <= c
      ensures RingSlots(g, c)[i] == RingSlots(v, c)[i] && RingSlots(a, c)[i] == RingSlots(v, c)[i]
    {
      assert RingSlots(g, c)[i] == g[|g| - 1 - c + i];
      assert RingSlots(a, c)[i] == a[|a| - 1 - c + i];
    }
  }

  /**
   * `push` writes `x` into the slot after the cursor `c` and moves the cursor
   * there: the slots then lay out the view without its oldest value, plus `x`.
   */
  lemma PushSlots<T>(v: seq<T>, c: nat, next: nat, x: T)
    requires c < |v| && next == NextSlot(c, |v|)
    ensures RingSlots(v, c)[next := x] == RingSlots(v[1..] + [x], next)
  {
    var n := |v|;
    var a := RingSlots(v, c)[next := x];
    var b := RingSlots(v[1..] + [x], next);
    forall i | 0 <= i < n ensures a[i] == b[i] {
      if next == 0 {
        assert RingSlots(v, n - 1)[i] == v[i];
      } else if i < next {
        assert RingSlots(v, c)[i] == v[n - next + i];
      } else if i > next {
        assert RingSlots(v, c)[i] == v[i - next];
      }
    }
  }

  // ---------------------------------------------------------------------
  // The ring.
  // ---------------------------------------------------------------------

  class Ring<T> {
    /** The slot vector. */
    var elements: seq<T>
    /** The most recently written slot. */
    var cursor: nat
    /** `T::default()`, the value `new` and `grow` write into fresh slots. */
    const dflt: T

    /** The cursor is on a slot, unless `resize(0)` emptied the ring. */
    ghost predicate Valid()
      reads this
    {
      |elements| == 0 || cursor < |elements|
    }

    /** The number of slots; on a valid, non-empty ring the cursor is one of them. */
    function Size(): (n: nat)
      reads this
      ensures n == |elements|
      ensures Valid() && n > 0 ==> cursor < n
    {
      |elements|
    }

    /** The slot `push` writes next: the one after the cursor, wrapping to 0. */
    function OldestIndex(): (i: nat)
      requires Valid() && Size() > 0
      reads this
      ensures i < Size()
      ensures i == (cursor + 1) % Size()
    {
      NextSlot(cursor, |elements|)
    }

    /** All values from the oldest to the newest. */
    function IterChronological(): (s: seq<T>)
      requires Valid() && Size() > 0
      reads this
      ensures |s| == Size()
      ensures s[|s| - 1] == elements[cursor]
    {
      if OldestIndex() == 0 then elements
      else elements[OldestIndex()..] + elements[..cursor + 1]
    }

    /** The view is `v` exactly when the slots lay `v` out around the cursor. */
    lemma ViewIffSlots(v: seq<T>)
      requires Valid() && Size() > 0 && |v| == Size()
      ensures IterChronological() == v <==> elements == RingSlots(v, cursor)
    {
      var n := Size();
      var view := IterChronological();
      var s := RingSlots(v, cursor);
      if view == v {
        forall i | 0 <= i < n ensures elements[i] == s[i] {
          if i <= cursor {
            assert view[n - 1 - cursor + i] == elements[i];
          } else {
            assert view[i - cursor - 1] == elements[i];
          }
        }
      }
      if elements == s {
        forall k | 0 <= k < n ensures view[k] == v[k] {
          if k < n - cursor - 1 {
            assert view[k] == elements[cursor + 1 + k];
          } else {
            assert view[k] == elements[cursor + 1 + k - n];
          }
        }
      }
    }

    /** The most recently pushed value: the last of the chronological view. */
    function Latest(): (x: T)
      requires Valid() && Size() > 0
      reads this
      ensures x == IterChronological()[Size() - 1]
    {
      elements[cursor]
    }

    /** `Ring::new(size)`: `size` default slots, cursor on the last one. */
    constructor (size: nat, dflt: T)
      requires size >= 1
      ensures Valid() && this.dflt == dflt
      ensures Size() == size && cursor == size - 1 && OldestIndex() == 0
      ensures IterChronological() == Repeat(dflt, size)
    {
      elements := Repeat(dflt, size);
      cursor := size - 1;
      this.dflt := dflt;
    }

    /** Overwrites the oldest value, which becomes the latest. */
    method Push(x: T)
      requires Valid() && Size() > 0
      modifies this
      ensures Valid() && Size() == old(Size())
      ensures cursor == old(OldestIndex())
      ensures elements == old(elements)[cursor := x]
      ensures Latest() == x
      ensures IterChronological() == old(IterChronological())[1..] + [x]
    {
      ghost var before := IterChronological();
      ViewIffSlots(before);
      var next := OldestIndex();
      PushSlots(before, cursor, next, x);
      cursor := next;
      elements := elements[next := x];
      ViewIffSlots(before[1..] + [x]);
    }

    /** Keeps the newest `newSize` values, in order. */
    method Shrink(newSize: nat)
      requires Valid() && 0 < newSize < Size()
      modifies this
      ensures Valid() && Size() == newSize
      ensures cursor == if old(cursor) < newSize then old(cursor) else newSize - 1
      ensures IterChronological() == old(IterChronological())[old(Size()) - newSize..]
    {
      ghost var before := IterChronological();
      ViewIffSlots(before);
      ghost var kept := before[|before| - newSize..];
      var e := elements;
      var c := cursor;
      var oldSize := |e|;
      var newLastI := newSize - 1;
      assert e == RingSlots(before, c);

      if c == newLastI {
        ShrinkBelowCursorSlots(before, c, newSize, 0, oldSize - newSize, c + 1);
        assert e[..newSize] == RingSlots(kept, c);
      } else if c < newSize {
        var nMove := newLastI - c;
        var translate := oldSize - newSize;
        var dstStart := c + 1;
        e := TranslatedLeft(e, nMove, translate, dstStart);
        ShrinkBelowCursorSlots(before, c, newSize, nMove, translate, dstStart);
        assert e[..newSize] == RingSlots(kept, c);
      } else {
        var nMove := newSize;
        var translate := c - newLastI;
        var dstStart := 0;
        e := TranslatedLeft(e, nMove, translate, dstStart);
        ShrinkPastCursorSlots(before, c, newSize, nMove, translate, dstStart);
        c := newLastI;
        assert e[..newSize] == RingSlots(kept, c);
      }
      e := e[..newSize];
      assert e == RingSlots(kept, c);

      elements, cursor := e, c;
      ViewIffSlots(kept);
    }

    /** Grows to `newSize` slots, keeping every old value after `newSize - Size()` padding values. */
    method Grow(newSize: nat)
      requires Valid() && 0 < Size() < newSize
      modifies this
      ensures Valid() && Size() == newSize
      ensures cursor == old(cursor) && Latest() == old(Latest())
      ensures IterChronological() ==
        GrownView(old(IterChronological()), old(Size()) - old(cursor) - 1, newSize - old(Size()), dflt)
    {
      ghost var before := IterChronological();
      ViewIffSlots(before);
      var e := elements;
      var c := cursor;
      var oldSize := |e|;
      ghost var after := GrownView(before, oldSize - c - 1, newSize - oldSize, dflt);
      var oldLastI := oldSize - 1;
      var oldestI := OldestIndex();
      assert e == RingSlots(before, c);
      var oldestValue := e[oldestI];
      assert oldestValue == before[0];

      e := Resized(e, newSize, dflt);
      if c == oldLastI {
        GrowAtEndSlots(before, c, oldSize, newSize, dflt);
      } else {
        var translate := newSize - oldSize;
        e := Copied(e, oldestI, oldSize, oldestI + translate);
        // Only the slots the shifted block did not land on are refilled.
        var fillEnd := Min(oldSize, oldestI + translate);
        e := Filled(e, oldestI, fillEnd, oldestValue);
        GrowSlots(before, c, oldSize, newSize, dflt, oldestI, oldestValue, translate, fillEnd);
      }
      assert e == RingSlots(after, c);
      elements := e;
      assert elements[cursor] == after[|after| - 1];
      ViewIffSlots(after);
    }

    /** `grow` as ring.rs:38-65 writes it: the fill may overwrite shifted values. */
    method GrowAsWritten(newSize: nat)
      requires Valid() && 0 < Size() < newSize
      modifies this
      ensures Valid() && Size() == newSize
      ensures cursor == old(cursor) && Latest() == old(Latest())
      ensures IterChronological() ==
        GrownViewAsWritten(old(IterChronological()), old(Size()) - old(cursor) - 1, newSize - old(Size()), dflt)
    {
      ghost var before := IterChronological();
      ViewIffSlots(before);
      var e := elements;
      var c := cursor;
      var oldSize := |e|;
      ghost var after := GrownViewAsWritten(before, oldSize - c - 1, newSize - oldSize, dflt);
      var oldLastI := oldSize - 1;
      var oldestI := OldestIndex();
      assert e == RingSlots(before, c);
      var oldestValue := e[oldestI];
      assert oldestValue == before[0];

      e := Resized(e, newSize, dflt);
      if c == oldLastI {
        GrowAtEndSlots(before, c, oldSize, newSize, dflt);
      } else {
        var translate := newSize - oldSize;
        e := Copied(e, oldestI, oldSize, oldestI + translate);
        e := Filled(e, oldestI, oldSize, oldestValue);
        GrowSlotsAsWritten(before, c, oldSize, newSize, dflt, oldestI, oldestValue, translate);
      }
      assert e == RingSlots(after, c);
      elements := e;
      assert elements[cursor] == after[|after| - 1];
      ViewIffSlots(after);
    }

    /**
     * `resize`: same size is a no-op, 0 empties the ring, otherwise shrink or
     * grow. Growing goes through `grow` as written, so it may lose values
     * (see `GrowAsWrittenLosesValue`).
     */
    method Resize(newSize: nat)
      requires Valid() && (Size() > 0 || newSize == 0)
      modifies this
      ensures Valid() && Size() == newSize
      ensures newSize == old(Size()) ==> elements == old(elements) && cursor == old(cursor)
      ensures 0 < newSize < old(Size()) ==>
        IterChronological() == old(IterChronological())[old(Size()) - newSize..]
      ensures 0 < old(Size()) < newSize ==> Latest() == old(Latest())
      ensures 0 < old(Size()) < newSize ==>
        IterChronological() ==
        GrownViewAsWritten(old(IterChronological()), old(Size()) - old(cursor) - 1, newSize - old(Size()), dflt)
    {
      var oldSize := |elements|;
      if newSize == oldSize {
        return;
      }
      if newSize == 0 {
        elements := elements[..0];
        return;
      }
      if newSize < oldSize {
        Shrink(newSize);
      } else {
        GrowAsWritten(newSize);
      }
    }
  }
}
