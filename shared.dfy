/** Integer helpers shared by the renderer and the server: machine-width
    integer types, ceiling division, pixel indexing and the packed 24-bit
    colour format used by the display buffer. */
module Shared {

  datatype Option<T> = None | Some(value: T)

  const U32_LIMIT: int := 0x1_0000_0000

  /** Rust's `u32`. */
  type u32 = x: int | 0 <= x < 0x1_0000_0000
  /** Rust's `u16`. */
  type u16 = x: int | 0 <= x < 0x1_0000
  /** Rust's `u8`. */
  type u8 = x: int | 0 <= x < 0x100

  /** A display pixel packed as 0x00RRGGBB in a `u32`. */
  type ColorDisplay = u32

  /** One `image::Rgb<u8>` pixel. */
  datatype Rgb = Rgb(r: u8, g: u8, b: u8)

  function Min(a: int, b: int): int { if a <= b then a else b }
  function Max(a: int, b: int): int { if a <= b then b else a }

  /** A `u32` addition or subtraction as a release build performs it:
      the mathematical result wrapped modulo 2^32. */
  function WrapU32(x: int): u32 { x % U32_LIMIT }

  /** `ceil_div(x, y)`: `(x + y - 1) / y` evaluated in `u32`; the sum wraps
      when `x + y - 1` does not fit, and `y == 0` divides by zero, which the
      source does not guard against. */
  function CeilDiv(x: u32, y: u32): u32
    requires y > 0
  {
    WrapU32(x + y - 1) / y
  }

  /** Without overflow, `ceil_div(x, y)` is the least `q` with `q * y >= x`. */
  lemma CeilDivIsLeastCover(x: u32, y: u32)
    requires y > 0 && x + y - 1 < U32_LIMIT
    ensures CeilDiv(x, y) * y >= x
    ensures forall q: int :: q * y >= x ==> CeilDiv(x, y) <= q
  {
    var q := CeilDiv(x, y);
    var r := (x + y - 1) % y;
    assert WrapU32(x + y - 1) == x + y - 1;
    assert x + y - 1 == q * y + r && 0 <= r < y;
    assert (q - 1) * y == q * y - y;
    forall q': int | q' * y >= x ensures q <= q' {
      if q' < q {
        MulMonotone(q', q - 1, y);
        assert false;
      }
    }
  }

  lemma MulMonotone(a: int, b: int, c: int)
    requires a <= b && c >= 0
    ensures a * c <= b * c
  {
    assert b * c - a * c == (b - a) * c;
  }

  /** Above the no-overflow range the sum wraps and the quotient collapses:
      `ceil_div(u32::MAX, 32)` evaluates to 0, not to 2^27. */
  lemma CeilDivWrapsNearLimit()
    ensures CeilDiv(U32_LIMIT - 1, 32) == 0
  {
    assert WrapU32(U32_LIMIT - 1 + 32 - 1) == 30;
  }

  /** `index_from_xy(w, h, x, y)`: `y * w + x` evaluated in `u32` (the height
      is unused), then widened to `usize`. */
  function IndexFromXy(imageWidth: u32, imageHeight: u32, x: u32, y: u32): nat
  {
    WrapU32(y * imageWidth + x)
  }

  /** Inside an image whose pixel count fits in `u32`, the index is the
      row-major position `y * w + x`, falls inside the buffer, and two
      distinct pixels never share an index. */
  lemma IndexFromXyInImage(w: u32, h: u32, x: u32, y: u32)
    requires w * h <= U32_LIMIT && x < w && y < h
    ensures IndexFromXy(w, h, x, y) == y * w + x
    ensures IndexFromXy(w, h, x, y) < w * h
  {
    RowMajorInRange(w, h, x, y);
  }

  /** A row-major position of a cell inside a `w` by `h` grid is below `w * h`. */
  lemma RowMajorInRange(w: int, h: int, x: int, y: int)
    requires 0 <= x < w && 0 <= y < h
    ensures 0 <= y * w + x < w * h
  {
    MulMonotone(y, h - 1, w);
    MulMonotone(0, y, w);
    assert (h - 1) * w == h * w - w;
  }

  lemma IndexFromXyInjective(w: u32, h: u32, x1: u32, y1: u32, x2: u32, y2: u32)
    requires w * h <= U32_LIMIT
    requires x1 < w && y1 < h && x2 < w && y2 < h
    requires IndexFromXy(w, h, x1, y1) == IndexFromXy(w, h, x2, y2)
    ensures x1 == x2 && y1 == y2
  {
    IndexFromXyInImage(w, h, x1, y1);
    IndexFromXyInImage(w, h, x2, y2);
    RowMajorUnique(w, x1, y1, x2, y2);
  }

  /** A row-major position determines its column and row. */
  lemma RowMajorUnique(w: int, x1: int, y1: int, x2: int, y2: int)
    requires 0 <= x1 < w && 0 <= x2 < w && y1 >= 0 && y2 >= 0
    requires y1 * w + x1 == y2 * w + x2
    ensures x1 == x2 && y1 == y2
  {
    assert (y1 + 1) * w == y1 * w + w;
    assert (y2 + 1) * w == y2 * w + w;
    if y1 < y2 {
      MulMonotone(y1 + 1, y2, w);
      assert false;
    } else if y2 < y1 {
      MulMonotone(y2 + 1, y1, w);
      assert false;
    }
  }

  /** `u8_vec_from_color_display(c)`: `[(c >> 16) as u8, (c >> 8) as u8, c as u8]`;
      each `as u8` keeps the low eight bits. */
  function U8VecFromColorDisplay(c: ColorDisplay): seq<u8>
  {
    [(c / 0x1_0000) % 0x100, (c / 0x100) % 0x100, c % 0x100]
  }

  /** `color_display_from_rgb(rgb)`: `(r << 16) | (g << 8) | b` on `u32`.
      A shift by `n` is a multiplication by 2^n, and the three shifted
      channels occupy disjoint bits, so the `|` is a sum. */
  function ColorDisplayFromRgb(rgb: Rgb): (c: ColorDisplay)
    ensures c < 0x100_0000
  {
    rgb.r * 0x1_0000 + rgb.g * 0x100 + rgb.b
  }

  /** Unpacking a packed colour gives back the three channels. */
  lemma RgbRoundTrip(rgb: Rgb)
    ensures U8VecFromColorDisplay(ColorDisplayFromRgb(rgb)) == [rgb.r, rgb.g, rgb.b]
  {
    var c := ColorDisplayFromRgb(rgb);
    DivAdd(rgb.r, rgb.g * 0x100 + rgb.b, 0x1_0000);
    assert c == (rgb.r * 0x100 + rgb.g) * 0x100 + rgb.b;
    DivAdd(rgb.r * 0x100 + rgb.g, rgb.b, 0x100);
    DivAdd(rgb.r, rgb.g, 0x100);
  }

  /** Euclidean division of `q * d + r` with `0 <= r < d` has quotient `q`
      and remainder `r`. */
  lemma DivAdd(q: int, r: int, d: int)
    requires d > 0 && 0 <= r < d
    ensures (q * d + r) / d == q && (q * d + r) % d == r
  {
    var x := q * d + r;
    var a := x / d - q;
    assert a * d == r - x % d by {
      assert x == (x / d) * d + x % d;
      assert (x / d) * d - q * d == (x / d - q) * d;
    }
    if a > 0 {
      MulMonotone(1, a, d);
      assert false;
    } else if a < 0 {
      MulMonotone(a, -1, d);
      assert false;
    }
  }

  /** Digits above position `d * m` do not reach `(c / d) % m`. */
  lemma DivModNest(c: nat, d: nat, m: nat)
    requires d > 0 && m > 0
    ensures (c / d) % m == (c % (d * m)) / d
  {
    var big := d * m;
    var rem := c % big;
    var hi := rem / d;
    assert c == (c / big) * big + rem;
    assert rem == hi * d + rem % d;
    if hi >= m {
      MulMonotone(m, hi, d);
      assert false;
    }
    assert c == ((c / big) * m + hi) * d + rem % d by {
      assert (c / big) * big == ((c / big) * m) * d;
    }
    DivAdd((c / big) * m + hi, rem % d, d);
    DivAdd(c / big, hi, m);
  }

  /** Taking the remainder by a multiple of `a` first does not change `c % a`. */
  lemma ModNest(c: nat, a: nat, b: nat)
    requires a > 0 && b > 0
    ensures (c % (a * b)) % a == c % a
  {
    var big := a * b;
    var rem := c % big;
    assert c == (c / big) * big + rem;
    assert rem == (rem / a) * a + rem % a;
    assert c == ((c / big) * b + rem / a) * a + rem % a by {
      assert (c / big) * big == ((c / big) * b) * a;
    }
    DivAdd((c / big) * b + rem / a, rem % a, a);
  }

  /** Only the low 24 bits of a display colour reach the decoded channels. */
  lemma DecodeIgnoresHighBits(c: ColorDisplay)
    ensures U8VecFromColorDisplay(c) == U8VecFromColorDisplay(c % 0x100_0000)
  {
    var low := c % 0x100_0000;
    DivModNest(c, 0x1_0000, 0x100);
    DivModNest(low, 0x1_0000, 0x100);
    DivAdd(0, low, 0x100_0000);
    DivModNest(c, 0x100, 0x100);
    DivModNest(low, 0x100, 0x100);
    ModNest(c, 0x1_0000, 0x100);
    ModNest(c, 0x100, 0x1_0000);
  }

  /** Repacking the decoded channels keeps exactly the low 24 bits. */
  lemma PackDecoded(c: ColorDisplay)
    ensures var v := U8VecFromColorDisplay(c);
      ColorDisplayFromRgb(Rgb(v[0], v[1], v[2])) == c % 0x100_0000
  {
    var low := c % 0x100_0000;
    DecodeIgnoresHighBits(c);
    var v := U8VecFromColorDisplay(low);
    var mid := low % 0x1_0000;
    assert low == (low / 0x1_0000) * 0x1_0000 + mid;
    assert mid == (mid / 0x100) * 0x100 + mid % 0x100;
    DivModNest(low, 0x1_0000, 0x100);
    DivAdd(0, low, 0x100_0000);
    DivModNest(low, 0x100, 0x100);
    ModNest(low, 0x100, 0x100);
    assert v[0] == low / 0x1_0000 && v[1] == mid / 0x100 && v[2] == mid % 0x100;
  }

  /** `u8_vec_from_buffer_display(bd)`: every packed pixel unpacked to three
      bytes, in buffer order. */
  function U8VecFromBufferDisplay(bd: seq<ColorDisplay>): seq<u8>
  {
    if bd == [] then [] else U8VecFromBufferDisplay(bd[..|bd| - 1]) + U8VecFromColorDisplay(bd[|bd| - 1])
  }

  /** The byte buffer has three bytes per pixel, and bytes `3k .. 3k+2` are
      the channels of pixel `k`. */
  lemma {:induction false} BufferDisplayLayout(bd: seq<ColorDisplay>)
    ensures |U8VecFromBufferDisplay(bd)| == 3 * |bd|
    ensures forall k :: 0 <= k < |bd| ==>
      U8VecFromBufferDisplay(bd)[3 * k .. 3 * k + 3] == U8VecFromColorDisplay(bd[k])
  {
    if bd != [] {
      var init := bd[..|bd| - 1];
      BufferDisplayLayout(init);
      var out := U8VecFromBufferDisplay(bd);
      assert out == U8VecFromBufferDisplay(init) + U8VecFromColorDisplay(bd[|bd| - 1]);
      forall k | 0 <= k < |bd|
        ensures out[3 * k .. 3 * k + 3] == U8VecFromColorDisplay(bd[k])
      {
        if k < |bd| - 1 {
          assert out[3 * k .. 3 * k + 3] == U8VecFromBufferDisplay(init)[3 * k .. 3 * k + 3];
          assert init[k] == bd[k];
        } else {
          assert out[3 * k .. 3 * k + 3] == U8VecFromColorDisplay(bd[|bd| - 1]);
        }
      }
    }
  }

  /** Flattening a buffer of packed colours built from pixels gives back the
      channels of every pixel. */
  lemma BufferDisplayRoundTrip(pixels: seq<Rgb>, bd: seq<ColorDisplay>, k: nat)
    requires |bd| == |pixels| && k < |pixels|
    requires forall i :: 0 <= i < |pixels| ==> bd[i] == ColorDisplayFromRgb(pixels[i])
    ensures |U8VecFromBufferDisplay(bd)| == 3 * |pixels|
    ensures U8VecFromBufferDisplay(bd)[3 * k .. 3 * k + 3] == [pixels[k].r, pixels[k].g, pixels[k].b]
  {
    BufferDisplayLayout(bd);
    RgbRoundTrip(pixels[k]);
  }

  // ---------------------------------------------------------------------
  // Sequences without repeats.

  /** No element occurs twice. */
  predicate Distinct<T(==)>(s: seq<T>)
  {
    forall i, j :: 0 <= i < j < |s| ==> s[i] != s[j]
  }

  /** A sequence without repeats holds each of its elements exactly once. */
  lemma {:induction false} DistinctMultiplicity<T>(s: seq<T>, x: T)
    requires Distinct(s)
    ensures multiset(s)[x] == if x in s then 1 else 0
  {
    if s != [] {
      var init := s[..|s| - 1];
      assert s == init + [s[|s| - 1]];
      assert Distinct(init) by {
        forall i, j | 0 <= i < j < |init| ensures init[i] != init[j] {
          assert init[i] == s[i] && init[j] == s[j];
        }
      }
      DistinctMultiplicity(init, x);
      assert x == s[|s| - 1] ==> x !in init;
    }
  }

  /** A position at which an element of the multiset of `s` occurs. */
  lemma Occurrence<T>(s: seq<T>, x: T) returns (j: nat)
    requires x in multiset(s)
    ensures j < |s| && s[j] == x
  {
    j :| 0 <= j < |s| && s[j] == x;
  }

  /** A value at two positions of a sequence occurs there at least twice. */
  lemma TwoOccurrences<T>(s: seq<T>, i: nat, j: nat)
    requires i < j < |s|
    ensures s[i] == s[j] ==> multiset(s)[s[j]] >= 2
  {
    assert s == s[..j] + s[j..];
    assert s[i] == s[..j][i] && s[j] == s[j..][0];
    assert s[..j][i] in multiset(s[..j]) && s[j..][0] in multiset(s[j..]);
  }

  /** A sequence with the multiset of a repeat-free one has no repeats. */
  lemma DistinctByMultiset<T>(s: seq<T>, t: seq<T>)
    requires Distinct(t) && multiset(s) == multiset(t)
    ensures Distinct(s)
  {
    forall i, j | 0 <= i < j < |s| ensures s[i] != s[j] {
      DistinctMultiplicity(t, s[j]);
      TwoOccurrences(s, i, j);
    }
  }
}
