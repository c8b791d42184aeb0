/** The carousel: wrapping an index round, placing the images about the centre, and clicking on one of them. */
module Carousels {
  import opened Remainders

  function Wrap(x: int, count: int): (r: int)
    requires count > 0
    decreases if x < 0 then 1 else 0
  {
    if x >= count then Remainder(x, count)
    else if x < 0 then
      RemainderBounds(x, count);
      Wrap(count + Remainder(x, count), count)
    else x
  }

  lemma RemainderBounds(x: int, m: int)
    requires m > 0
    ensures -m < Remainder(x, m) < m
    ensures x >= 0 ==> Remainder(x, m) >= 0
    ensures x < 0 ==> Remainder(x, m) <= 0
  {
  }

  // Division

  lemma MulAtLeast(a: int, m: int)
    requires m > 0
    ensures a > 0 ==> a * m >= m
    ensures a < 0 ==> a * m <= -m
  {
    if a > 0 {
      assert (a - 1) * m >= 0;
    }
    if a < 0 {
      assert (-a - 1) * m >= 0;
    }
  }

  /** The remainder is the only number below the divisor that is a multiple of it away. */
  lemma RemainderIsUnique(x: int, q: int, r: int, m: int)
    requires m > 0 && 0 <= r < m && x == q * m + r
    ensures x % m == r
  {
    var p, s := x / m, x % m;
    assert x == p * m + s;
    assert (q - p) * m == q * m - p * m == s - r;
    MulAtLeast(q - p, m);
  }

  lemma RemainderOfSum(x: int, q: int, m: int)
    requires m > 0
    ensures (x + q * m) % m == x % m
  {
    var p, s := x / m, x % m;
    assert x == p * m + s;
    assert (p + q) * m == p * m + q * m;
    RemainderIsUnique(x + q * m, p + q, s, m);
  }

  /** The signed remainder differs from the number by a multiple, too. */
  lemma RemainderDiffers(x: int, m: int) returns (q: int)
    requires m > 0
    ensures x == Remainder(x, m) + q * m
  {
    if x >= 0 {
      q := x / m;
    } else {
      q := -((-x) / m);
      assert -x == ((-x) / m) * m + (-x) % m;
    }
  }

  /** Wrapping is total and gives the mathematical remainder, for negative numbers too. */
  lemma WrapIsModulo(x: int, count: int)
    requires count > 0
    ensures Wrap(x, count) == x % count && 0 <= Wrap(x, count) < count
  {
    hide Remainder;
    RemainderBounds(x, count);
    var q := RemainderDiffers(x, count);
    var r := Remainder(x, count);
    if x >= count {
      RemainderIsUnique(x, q, r, count);
    } else if x >= 0 {
      assert x == 0 * count + x;
      RemainderIsUnique(x, 0, x, count);
    } else if r == 0 {
      WrapOfCount(count);
      RemainderIsUnique(x, q, 0, count);
    } else {
      assert (q - 1) * count == q * count - count;
      RemainderIsUnique(x, q - 1, count + r, count);
    }
  }

  lemma WrapOfCount(count: int)
    requires count > 0
    ensures Wrap(count, count) == 0
  {
    assert count == 1 * count + 0;
    RemainderIsUnique(count, 1, 0, count);
  }

  // Placing the images

  /** Where an image is put: how many places right of the centre (left when negative), and how far down. */
  datatype Placement = Placement(steps: int, zIndex: int)

  /** The places from the centre to image `k` the shorter way; an image just opposite is put on the left. */
  function Offset(center: int, k: int, count: int): int
    requires count > 0
  {
    var d := (k - center) % count;
    if 2 * d < count then d else d - count
  }

  /** The places between two images the shorter way round. */
  function Distance(a: int, b: int, count: int): int
    requires count > 0
  {
    var d := (b - a) % count;
    if 2 * d <= count then d else count - d
  }

  function Abs(x: int): int {
    if x < 0 then -x else x
  }

  /** The image that lies some places from the centre; each image lies at its offset and nowhere else as near. */
  lemma ImageAt(center: int, steps: int, k: int, count: int)
    requires count > 0 && -count <= 2 * steps <= count && 0 <= k < count
    ensures Wrap(center + steps, count) == k <==>
      Offset(center, k, count) == steps || (2 * steps == count && Offset(center, k, count) == -steps)
  {
    hide Wrap;
    WrapIsModulo(center + steps, count);
    ModuloOfDifference(center, steps, k, count);
    assert steps >= 0 ==> steps == 0 * count + steps;
    assert steps < 0 ==> steps == -1 * count + (steps + count);
    if 0 <= steps < count {
      RemainderIsUnique(steps, 0, steps, count);
    } else if steps < 0 {
      RemainderIsUnique(steps, -1, steps + count, count);
    }
  }

  /** Going `steps` from the centre ends at `k` exactly when `steps` and the way to `k` have the same remainder. */
  lemma ModuloOfDifference(center: int, steps: int, k: int, count: int)
    requires count > 0 && 0 <= k < count
    ensures (center + steps) % count == k <==> (k - center) % count == steps % count
  {
    var p, s := (center + steps) / count, (center + steps) % count;
    assert center + steps == p * count + s;
    if s == k {
      assert k - center == steps + -p * count;
      RemainderOfSum(steps, -p, count);
    }
    var q, r := (k - center) / count, (k - center) % count;
    assert k - center == q * count + r;
    var u, v := steps / count, steps % count;
    assert steps == u * count + v;
    if r == v {
      assert center + steps == k + (u - q) * count by {
        assert (u - q) * count == u * count - q * count;
      }
      RemainderOfSum(k, u - q, count);
      assert k == 0 * count + k;
      RemainderIsUnique(k, 0, k, count);
    }
  }

  lemma OffsetBounds(center: int, k: int, count: int)
    requires count > 0
    ensures -count <= 2 * Offset(center, k, count) < count
    ensures Abs(Offset(center, k, count)) == Distance(center, k, count)
  {
  }

  /** Writing right before left, `i` places from the centre, leaves each image there with its offset. */
  lemma PlacedAt(center: int, i: int, k: int, count: int)
    requires count > 0 && 0 <= k < count && 0 < i && 2 * i <= count
    ensures Wrap(center - i, count) == k <==> Offset(center, k, count) == -i
    ensures Wrap(center - i, count) != k ==> (Wrap(center + i, count) == k <==> Offset(center, k, count) == i)
  {
    hide Wrap, Offset;
    ImageAt(center, i, k, count);
    ImageAt(center, -i, k, count);
  }

  /**
   One pass over the images: every one is placed, by its distance from the centre. `half` places on either side are
   written, right before left, the centre before and after.
   */
  method Scroll(images: array<Placement>, center: int)
    requires images.Length > 0
    modifies images
    ensures forall k :: 0 <= k < images.Length ==>
      images[k] == Placement(Offset(center, k, images.Length), -Distance(center, k, images.Length))
  {
    hide Wrap, Offset, Distance;
    var count := images.Length;
    WrapIsModulo(center, count);
    images[Wrap(center, count)] := Placement(0, 0);
    forall k | 0 <= k < count
      ensures Wrap(center, count) == k <==> Abs(Offset(center, k, count)) < 1
    {
      ImageAt(center, 0, k, count);
    }
    assert forall k :: 0 <= k < count && Abs(Offset(center, k, count)) < 1 ==> images[k] == Placement(0, 0);
    var half := count / 2;
    for i := 1 to half + 1
      invariant forall k :: 0 <= k < count && Abs(Offset(center, k, count)) < i ==>
        images[k] == Placement(Offset(center, k, count), -Abs(Offset(center, k, count)))
    {
      WrapIsModulo(center + i, count);
      WrapIsModulo(center - i, count);
      forall k | 0 <= k < count
        ensures Wrap(center - i, count) == k <==> Offset(center, k, count) == -i
        ensures Wrap(center - i, count) != k ==> (Wrap(center + i, count) == k <==> Offset(center, k, count) == i)
      {
        PlacedAt(center, i, k, count);
      }
      images[Wrap(center + i, count)] := Placement(i, -i);
      images[Wrap(center - i, count)] := Placement(-i, -i);
    }
    images[Wrap(center, count)] := Placement(0, 0);
    forall k | 0 <= k < count
      ensures images[k] == Placement(Offset(center, k, count), -Distance(center, k, count))
    {
      OffsetBounds(center, k, count);
    }
  }

  // The centre, and clicking

  /** The image nearest to an offset, the images lying `dim` apart. */
  function Center(offset: real, dim: real): int
    requires dim > 0.0
  {
    ((offset + dim / 2.0) / dim).Floor
  }

  lemma Quotient(x: real, m: real) returns (y: real)
    requires m > 0.0
    ensures y == x / m && y * m == x
  {
    y := x / m;
  }

  lemma Below(a: real, y: real, m: real, x: real)
    requires m > 0.0 && y * m == x
    ensures a <= y <==> a * m <= x
  {
    if a > y {
      assert (a - y) * m > 0.0;
    }
  }

  lemma Next(a: real, b: real, m: real)
    requires b == a + 1.0
    ensures b * m == a * m + m
  {
  }

  lemma FloorIs(y: real, c: int, next: real)
    requires next == c as real + 1.0
    ensures y.Floor == c <==> c as real <= y && !(next <= y)
  {
  }

  /** The centre is the multiple of `dim` that is nearest; half-way it is the next one. */
  lemma CenterIsNearest(offset: real, dim: real, c: int)
    requires dim > 0.0
    ensures Center(offset, dim) == c <==> c as real * dim - dim / 2.0 <= offset < c as real * dim + dim / 2.0
  {
    var a: real := c as real;
    var b: real :| b == a + 1.0;
    var y := Quotient(offset + dim / 2.0, dim);
    FloorIs(y, c, b);
    Below(a, y, dim, offset + dim / 2.0);
    Below(b, y, dim, offset + dim / 2.0);
    Next(a, b, dim);
  }

  /** Moving the offset by `n` images moves the centre by `n`. */
  lemma CenterMoves(offset: real, dim: real, n: int)
    requires dim > 0.0
    ensures Center(offset + dim * n as real, dim) == Center(offset, dim) + n
  {
    var c := Center(offset, dim);
    CenterIsNearest(offset, dim, c);
    assert (c + n) as real * dim == c as real * dim + dim * n as real;
    CenterIsNearest(offset + dim * n as real, dim, c + n);
  }

  /**
   How many images a click moves back: the difference of the indices, changed by one round if that makes it smaller.
   */
  function ClickDifference(center: int, clicked: int, count: int): int
    requires count > 0
  {
    var diff := Remainder(center, count) - clicked;
    if diff < 0 then if Abs(diff + count) < Abs(diff) then diff + count else diff
    else if diff > 0 then if Abs(diff - count) < diff then diff - count else diff
    else diff
  }

  /** The target a click sets, unless the carousel was dragged or is of full width. */
  function ClickTarget(offset: real, dim: real, clicked: int, count: int): real
    requires dim > 0.0 && count > 0
  {
    var diff := ClickDifference(Center(offset, dim), clicked, count);
    if diff < 0 then offset + dim * Abs(diff) as real
    else if diff > 0 then offset - dim * diff as real
    else offset
  }

  /** A click scrolls so that the clicked image is at the centre. */
  lemma ClickReachesImage(offset: real, dim: real, clicked: int, count: int)
    requires dim > 0.0 && 0 <= clicked < count
    ensures Wrap(Center(ClickTarget(offset, dim, clicked, count), dim), count) == clicked
  {
    hide Wrap, Center, Remainder;
    var center := Center(offset, dim);
    var diff := ClickDifference(center, clicked, count);
    assert ClickTarget(offset, dim, clicked, count) == offset + dim * (-diff) as real;
    CenterMoves(offset, dim, -diff);
    WrapIsModulo(center - diff, count);
    var q := RemainderDiffers(center, count);
    var r := Remainder(center, count);
    var e := if diff == r - clicked then 0 else if diff == r - clicked + count then 1 else -1;
    assert diff == r - clicked + e * count;
    assert (q - e) * count == q * count - e * count;
    RemainderIsUnique(center - diff, q - e, clicked, count);
  }

  /** No way to the image is shorter than its distance. */
  lemma NoWayIsShorter(center: int, clicked: int, moves: int, count: int)
    requires count > 0 && 0 <= clicked < count && Wrap(center + moves, count) == clicked
    ensures Abs(moves) >= Distance(center, clicked, count)
  {
    hide Wrap;
    WrapIsModulo(center + moves, count);
    ModuloOfDifference(center, moves, clicked, count);
    var u, d := moves / count, moves % count;
    assert moves == u * count + d;
    if u > 0 {
      MulAtLeast(u, count);
    } else if u < 0 {
      MulAtLeast(u, count);
    }
  }

  /**
   The click goes a shortest way round exactly when the clicked index is not more than one and a half rounds after the
   signed remainder of the centre: always for a centre that is not negative, not always for a negative one.
   */
  lemma ClickIsShortestExactly(center: int, clicked: int, count: int)
    requires 0 <= clicked < count
    ensures Abs(ClickDifference(center, clicked, count)) == Distance(center, clicked, count)
      <==> 2 * (clicked - Remainder(center, count)) <= 3 * count
    ensures center >= 0 ==> Abs(ClickDifference(center, clicked, count)) == Distance(center, clicked, count)
  {
    hide Remainder;
    RemainderBounds(center, count);
    var r := Remainder(center, count);
    var q := RemainderDiffers(center, count);
    var a := clicked - r;
    var e := if a < 0 then 1 else if a < count then 0 else -1;
    assert clicked - center == a + -q * count;
    RemainderOfSum(a, -q, count);
    RemainderOfSum(a, e, count);
    assert a + e * count == 0 * count + (a + e * count);
    RemainderIsUnique(a + e * count, 0, a + e * count, count);
  }

  /** A click on an image just opposite goes there without passing the end of the images. */
  lemma ClickOnOpposite(center: int, clicked: int, count: int)
    requires 0 <= center < count && 0 <= clicked < count && 2 * Abs(clicked - center) == count
    ensures ClickDifference(center, clicked, count) == center - clicked
  {
    hide Remainder;
    SmallRemainder(center, count);
  }

  lemma SmallRemainder(x: int, m: int)
    requires 0 <= x < m
    ensures Remainder(x, m) == x
  {
    assert x == 0 * m + x;
    RemainderIsUnique(x, 0, x, m);
  }

  /** Six images, the centre at minus five: a click on the last one goes four images on instead of two back. */
  lemma NegativeCenterGoesTheLongWay()
    ensures ClickDifference(-5, 5, 6) == -4 && Distance(-5, 5, 6) == 2
  {
  }
}
