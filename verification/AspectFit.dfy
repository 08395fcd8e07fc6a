/** Fitting a picture into a thumbnail box at its aspect ratio, in exact arithmetic. */
module AspectFit {

  datatype Size = Size(width: int, height: int)

  /** Rounding to the nearest integer, halves up. */
  function Round(x: real): (r: int)
    ensures r as real - 0.5 <= x < r as real + 0.5
  {
    (x + 0.5).Floor
  }

  /** One side scaled: `side` + `side` * difference / `other`. */
  function Scaled(side: int, difference: int, other: int): real
    requires other > 0
  {
    side as real + (side * difference) as real / other as real
  }

  lemma ScaledIs(side: int, target: int, other: int)
    requires other > 0
    ensures Scaled(side, target - other, other) * other as real == (side * target) as real
  {
    var q := (side * (target - other)) as real / other as real;
    assert q * other as real == (side * (target - other)) as real;
    Distribute(side as real, q, other as real);
    assert side * (target - other) == side * target - side * other;
    assert (side * other) as real == side as real * other as real;
  }

  lemma Distribute(a: real, b: real, c: real)
    ensures (a + b) * c == a * c + b * c
  {
  }

  lemma LessByProduct(a: real, b: real, c: real)
    requires c > 0.0 && a * c < b * c
    ensures a < b
  {
  }

  /** When the height that goes with the full width does not fit, the width that goes with the full
      height does. */
  lemma OtherWayFits(src: Size, tgt: Size)
    requires src.width > 0 && src.height > 0 && tgt.width > 0 && tgt.height > 0
    requires Round(Scaled(src.height, tgt.width - src.width, src.width)) > tgt.height
    ensures Round(Scaled(src.width, tgt.height - src.height, src.height)) <= tgt.width
  {
    hide Scaled;
    var x := Scaled(src.height, tgt.width - src.width, src.width);
    var y := Scaled(src.width, tgt.height - src.height, src.height);
    ScaledIs(src.height, tgt.width, src.width);
    ScaledIs(src.width, tgt.height, src.height);
    var a, b := src.width as real, src.height as real;
    assert x > tgt.height as real;
    Times(tgt.height as real, x, a);
    assert y * b == (src.width * tgt.height) as real == tgt.height as real * a;
    assert x * a == (src.height * tgt.width) as real == tgt.width as real * b;
    LessByProduct(y, tgt.width as real, b);
  }

  lemma Times(a: real, b: real, c: real)
    requires a < b && c > 0.0
    ensures a * c < b * c
  {
  }

  /** Fit: the result lies in the box. It takes up the full width when the exact height that goes with
      it rounds to one in the box, and the full height otherwise; the other side is the exact one, rounded
      half up. */
  method Fit(src: Size, tgt: Size) returns (result: Size)
    requires src.width > 0 && src.height > 0 && tgt.width > 0 && tgt.height > 0
    ensures 0 <= result.width <= tgt.width && 0 <= result.height <= tgt.height
    ensures var exactHeight := (src.height * tgt.width) as real / src.width as real;
            var exactWidth := (src.width * tgt.height) as real / src.height as real;
            if exactHeight < tgt.height as real + 0.5 then
              result.width == tgt.width && result.height as real - 0.5 <= exactHeight < result.height as real + 0.5
            else
              result.height == tgt.height && result.width as real - 0.5 <= exactWidth < result.width as real + 0.5
    ensures result.height == 0 <==> 2 * (src.height * tgt.width) < src.width
    ensures result.width == 0 <==> 2 * (src.width * tgt.height) < src.height
  {
    hide Scaled, Round;
    var result1, result2 := tgt, tgt;
    var dA, dB := tgt.width - src.width, tgt.height - src.height;
    result1 := result1.(height := Round(Scaled(src.height, dA, src.width)));
    result2 := result2.(width := Round(Scaled(src.width, dB, src.height)));
    OtherSide(src, tgt);
    OtherSide(Turned(src), Turned(tgt));
    if 2 * (src.width * tgt.height) < src.height {
      ThinPicturesAreFittedByHeight(src, tgt);
    }
    if result1.width <= tgt.width && result1.height <= tgt.height {
      result := result1;
    } else {
      OtherWayFits(src, tgt);
      result := result2;
    }
  }

  /** The height that goes with the full width: within half a pixel of the exact one, and zero exactly
      for pictures that are too flat. */
  lemma OtherSide(src: Size, tgt: Size)
    requires src.width > 0 && src.height > 0 && tgt.width > 0 && tgt.height > 0
    ensures var h := Round(Scaled(src.height, tgt.width - src.width, src.width));
            && 0 <= h && h as real - 0.5 <= (src.height * tgt.width) as real / src.width as real < h as real + 0.5
            && (h == 0 <==> 2 * (src.height * tgt.width) < src.width)
  {
    hide Scaled;
    var x := Scaled(src.height, tgt.width - src.width, src.width);
    ScaledIs(src.height, tgt.width, src.width);
    Product(src.height, tgt.width);
    ExactQuotient(x, src.height * tgt.width, src.width);
    FlatPicturesVanish(src, tgt);
  }

  lemma ExactQuotient(x: real, a: int, b: int)
    requires b > 0 && x * b as real == a as real
    ensures x == a as real / b as real
    ensures a >= 0 ==> x >= 0.0
  {
  }

  lemma Product(a: int, b: int)
    requires a > 0 && b > 0
    ensures a * b > 0
  {
  }

  function Turned(s: Size): Size { Size(s.height, s.width) }

  /** A picture so thin that its width comes out as zero is too high for the full width. */
  lemma ThinPicturesAreFittedByHeight(src: Size, tgt: Size)
    requires src.width > 0 && src.height > 0 && tgt.width > 0 && tgt.height > 0
    requires 2 * (src.width * tgt.height) < src.height
    ensures Round(Scaled(src.height, tgt.width - src.width, src.width)) > tgt.height
  {
    hide Scaled;
    var x := Scaled(src.height, tgt.width - src.width, src.width);
    ScaledIs(src.height, tgt.width, src.width);
    WideEnough(src.height, tgt.width);
    assert (2 * tgt.height) as real * src.width as real == (2 * (src.width * tgt.height)) as real;
    LessByProduct((2 * tgt.height) as real, x, src.width as real);
  }

  lemma WideEnough(a: int, b: int)
    requires a > 0 && b > 0
    ensures a * b >= a
  {
  }

  /** The height that goes with the full width comes out as zero exactly when the source is more than
      2 * box width times as wide as it is high. */
  lemma FlatPicturesVanish(src: Size, tgt: Size)
    requires src.width > 0 && src.height > 0 && tgt.width > 0 && tgt.height > 0
    ensures Round(Scaled(src.height, tgt.width - src.width, src.width)) == 0
            <==> 2 * (src.height * tgt.width) < src.width
  {
    hide Scaled;
    var x := Scaled(src.height, tgt.width - src.width, src.width);
    ScaledIs(src.height, tgt.width, src.width);
    ExactQuotient(x, src.height * tgt.width, src.width);
    Product(src.height, tgt.width);
    BelowHalf(x, src.height * tgt.width, src.width);
  }

  lemma BelowHalf(x: real, n: int, d: int)
    requires d > 0 && x * d as real == n as real
    ensures x < 0.5 <==> 2 * n < d
  {
    assert (2 * n) as real == 2.0 * n as real;
    if x < 0.5 {
      Times(x, 0.5, d as real);
      assert (2 * n) as real < d as real;
    } else if x > 0.5 {
      Times(0.5, x, d as real);
    }
  }
}
