/** `printProgress`: the 40-character bar the progress goroutine redraws after every finished check. */
module Progress {
  import opened GoStrings

  const BarLength: nat := 40

  lemma MulMonotone(x: nat, y: nat, t: nat)
    requires x <= y
    ensures x * t <= y * t
  {
  }

  /**
   * The number of filled cells, `int(float64(barLength) * progress)`, taken
   * in exact arithmetic: the largest count whose share of the bar does not
   * exceed `current / total`. The bar is full exactly when every check is done.
   */
  function Block(current: nat, total: nat): (block: nat)
    requires current <= total && total > 0
    ensures block <= BarLength
    ensures block * total <= BarLength * current < (block + 1) * total
    ensures block == BarLength <==> current == total
  {
    BlockBounds(current, total);
    (BarLength * current) / total
  }

  lemma BlockBounds(current: nat, total: nat)
    requires current <= total && total > 0
    ensures var block := (BarLength * current) / total;
      && block <= BarLength
      && block * total <= BarLength * current < (block + 1) * total
      && (block == BarLength <==> current == total)
  {
    var x := BarLength * current;
    var block := x / total;
    DivBounds(x, total);
    MulMonotone(current, total, BarLength);
    assert x < (BarLength + 1) * total by {
      assert (BarLength + 1) * total == BarLength * total + total;
    }
    MulLess(block, BarLength, total);
    if current < total {
      MulMonotone(current + 1, total, BarLength);
      assert x < BarLength * total by {
        assert BarLength * (current + 1) == x + BarLength;
      }
      MulLess(block, BarLength - 1, total);
    } else {
      MulLess(BarLength, block, total);
    }
  }

  /** Division rounds down: `x / t` is the largest `b` with `b * t <= x`. */
  lemma DivBounds(x: nat, t: nat)
    requires t > 0
    ensures (x / t) * t <= x < (x / t + 1) * t
  {
    var b, r := x / t, x % t;
    assert x == b * t + r && 0 <= r < t;
    assert (b + 1) * t == b * t + t;
  }

  /** With a positive factor, `a * t <= b * t` only when `a <= b`; so from `a > b` follows `a * t > b * t`. */
  lemma MulLess(a: nat, b: nat, t: nat)
    requires t > 0
    ensures a * t < (b + 1) * t ==> a <= b
  {
    if a > b {
      MulMonotone(b + 1, a, t);
    }
  }

  /**
   * The bar: cell `i` is `#` when the first `i + 1` cells' share of the bar
   * is reached by `current / total`, and `-` otherwise.
   */
  function Bar(current: nat, total: nat): (bar: string)
    requires current <= total && total > 0
    ensures |bar| == BarLength
    ensures forall i :: 0 <= i < BarLength ==>
      bar[i] == if (i + 1) * total <= BarLength * current then '#' else '-'
  {
    var block := Block(current, total);
    BarCells(current, total);
    Repeat('#', block) + Repeat('-', BarLength - block)
  }

  /** Cell `i` lies within the first `Block` cells exactly when `(i + 1) / 40` of the bar is reached. */
  lemma FilledCell(current: nat, total: nat, i: nat)
    requires current <= total && total > 0
    ensures i < Block(current, total) <==> (i + 1) * total <= BarLength * current
  {
    var block := Block(current, total);
    if i < block {
      MulMonotone(i + 1, block, total);
    } else {
      MulMonotone(block + 1, i + 1, total);
    }
  }

  lemma BarCells(current: nat, total: nat)
    requires current <= total && total > 0
    ensures var block := Block(current, total);
      var bar := Repeat('#', block) + Repeat('-', BarLength - block);
      forall i :: 0 <= i < BarLength ==> bar[i] == if (i + 1) * total <= BarLength * current then '#' else '-'
  {
    var block := Block(current, total);
    var bar := Repeat('#', block) + Repeat('-', BarLength - block);
    forall i | 0 <= i < BarLength
      ensures bar[i] == if (i + 1) * total <= BarLength * current then '#' else '-'
    {
      FilledCell(current, total, i);
    }
  }

  /** A bar never empties: a cell filled for `c1` finished checks stays filled for any `c2 >= c1`. */
  lemma BarMonotone(c1: nat, c2: nat, total: nat)
    requires c1 <= c2 <= total && total > 0
    ensures forall i :: 0 <= i < BarLength && Bar(c1, total)[i] == '#' ==> Bar(c2, total)[i] == '#'
  {
    MulMonotone(c1, c2, BarLength);
  }

  /** After the last check the bar is all `#`; before the first it is all `-`. */
  lemma BarEnds(total: nat)
    requires total > 0
    ensures Bar(total, total) == Repeat('#', BarLength)
    ensures Bar(0, total) == Repeat('-', BarLength)
  {
    var full := Bar(total, total);
    forall i | 0 <= i < BarLength ensures full[i] == '#' {
      MulMonotone(i + 1, BarLength, total);
    }
  }

  /**
   * The progress goroutine: it takes `total` ticks off the channel one at a
   * time, and after the `k`-th redraws the bar for `k` of `total`.
   */
  method Consume(total: nat) returns (received: nat, bars: seq<string>)
    ensures received == total && |bars| == total
    ensures forall k :: 0 <= k < total ==> bars[k] == Bar(k + 1, total)
  {
    received, bars := 0, [];
    while received < total
      invariant received <= total && |bars| == received
      invariant forall k :: 0 <= k < received ==> bars[k] == Bar(k + 1, total)
    {
      received := received + 1;
      bars := bars + [Bar(received, total)];
    }
  }
}
