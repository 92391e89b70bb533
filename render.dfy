/** Output: converting colours to bytes (`write_color`), the camera and the
    rays it casts through each pixel, and the render loop of `main` that fills
    the image and flips it top to bottom. */
module Render {
  import opened Scalars
  import opened Vectors
  import opened Rays
  import opened Spheres
  import opened Scene
  import opened Shading

  /** Python's `int()` on a float: truncation toward zero. */
  function Truncate(x: real): (n: int)
    ensures 0.0 <= x ==> 0 <= n && n as real <= x < n as real + 1.0
    ensures x < 0.0 ==> n <= 0 && n as real - 1.0 < x <= n as real
  {
    if x < 0.0 then -((-x).Floor) else x.Floor
  }

  predicate IsByte(n: int) {
    0 <= n <= 255
  }

  /** One channel of `write_color`: `int(255.999 * c)`. A channel in `[0, 1]`
      becomes a byte, and the byte is the whole part of `255.999 * c`. */
  function ToByte(c: real): (b: int)
    ensures 0.0 <= c <= 1.0 ==> IsByte(b)
    ensures 0.0 <= c ==> b as real <= 255.999 * c < b as real + 1.0
  {
    Truncate(255.999 * c)
  }

  /** Brighter channels never give smaller bytes, and the ends of `[0, 1]`
      give 0 and 255. */
  lemma ToByteMonotone(c: real, d: real)
    requires 0.0 <= c <= d
    ensures ToByte(c) <= ToByte(d)
    ensures ToByte(0.0) == 0 && ToByte(1.0) == 255
  {
    assert ToByte(c) as real <= 255.999 * c <= 255.999 * d;
  }

  /** A pixel value: the `(ir, ig, ib)` tuple handed to `putpixel`. */
  datatype Rgb = Rgb(r: int, g: int, b: int)

  /** The pixel value `write_color` computes for a colour: every channel of a
      colour in the unit cube becomes a byte. */
  function ToRgb(c: Vec3): (p: Rgb)
    ensures InUnitCube(c) ==> IsByte(p.r) && IsByte(p.g) && IsByte(p.b)
  {
    Rgb(ToByte(c.x), ToByte(c.y), ToByte(c.z))
  }

  /** `write_color`: stores the pixel value of `pixelColor` at column `x`, row
      `y`, and changes no other pixel. Out-of-range coordinates are refused by
      the image library in the source. */
  method WriteColor(pixelColor: Vec3, x: nat, y: nat, img: array2<Rgb>)
    requires x < img.Length0 && y < img.Length1
    modifies img
    ensures img[x, y] == ToRgb(pixelColor)
    ensures forall i, j :: 0 <= i < img.Length0 && 0 <= j < img.Length1 && (i != x || j != y) ==>
              img[i, j] == old(img[i, j])
  {
    var ir := ToByte(pixelColor.x);
    var ig := ToByte(pixelColor.y);
    var ib := ToByte(pixelColor.z);
    img[x, y] := Rgb(ir, ig, ib);
  }

  /** `image_height = int(image_width / aspect_ratio)`. */
  function ImageHeight(imageWidth: nat, aspectRatio: real): (h: int)
    requires 0.0 < aspectRatio
    ensures 0 <= h && h as real <= imageWidth as real / aspectRatio < h as real + 1.0
  {
    Truncate(imageWidth as real / aspectRatio)
  }

  /** A 1920 pixel wide image at 16:9 is 1080 pixels high. */
  lemma DefaultImageHeight()
    ensures ImageHeight(1920, 16.0 / 9.0) == 1080
  {
    assert 1920.0 / (16.0 / 9.0) == 1080.0;
  }

  /** The camera: its position, the two edges of the viewport, and the
      viewport's lower left corner. */
  datatype Camera = Camera(origin: Vec3, horizontal: Vec3, vertical: Vec3, lowerLeftCorner: Vec3)

  /** The camera of `main`: at the origin, looking down the negative z axis at
      a viewport `aspect_ratio * viewport_height` wide and `viewport_height`
      high, `focal_length` away. The viewport is centred on the line of sight. */
  function MakeCamera(aspectRatio: real, viewportHeight: real, focalLength: real): (cam: Camera)
    ensures cam.origin == Zero()
    ensures cam.lowerLeftCorner.Add(cam.horizontal.Div(2.0)).Add(cam.vertical.Div(2.0))
              == Vec3(0.0, 0.0, -focalLength)
    ensures cam.lowerLeftCorner.Add(cam.horizontal).Add(cam.vertical)
              == Vec3(aspectRatio * viewportHeight / 2.0, viewportHeight / 2.0, -focalLength)
  {
    var viewportWidth := aspectRatio * viewportHeight;
    var origin := Vec3(0.0, 0.0, 0.0);
    var horizontal := Vec3(viewportWidth, 0.0, 0.0);
    var vertical := Vec3(0.0, viewportHeight, 0.0);
    var lowerLeftCorner := origin.Sub(horizontal.Div(2.0)).Sub(vertical.Div(2.0))
                                 .Sub(Vec3(0.0, 0.0, focalLength));
    Camera(origin, horizontal, vertical, lowerLeftCorner)
  }

  /** `u = i / (image_width - 1)`: the pixel's position across the viewport,
      from 0 at the first column to 1 at the last. */
  function ViewportFraction(i: nat, n: nat): (u: real)
    requires 1 < n
    ensures i < n ==> 0.0 <= u <= 1.0
    ensures i == 0 ==> u == 0.0
    ensures i == n - 1 ==> u == 1.0
  {
    i as real / (n - 1) as real
  }

  /** The ray `main` casts through pixel `(i, j)` of a `width` by `height`
      image. */
  function PixelRay(cam: Camera, i: nat, j: nat, width: nat, height: nat): Ray
    requires 1 < width && 1 < height
  {
    var u := ViewportFraction(i, width);
    var v := ViewportFraction(j, height);
    Ray(cam.origin, cam.lowerLeftCorner.Add(cam.horizontal.Mul(u)).Add(cam.vertical.Mul(v)))
  }

  /** The first pixel looks at the lower left corner of the viewport and the
      last one at the upper right corner. */
  lemma PixelRayCorners(cam: Camera, width: nat, height: nat)
    requires 1 < width && 1 < height
    ensures PixelRay(cam, 0, 0, width, height).direction == cam.lowerLeftCorner
    ensures PixelRay(cam, width - 1, height - 1, width, height).direction
              == cam.lowerLeftCorner.Add(cam.horizontal).Add(cam.vertical)
  {
  }

  /** Through the camera of `main`, pixel `(i, j)` looks at the point of the
      viewport `u - 1/2` of its width right of centre and `v - 1/2` of its
      height above it, `focal_length` ahead. */
  lemma PixelRayThroughViewport(aspectRatio: real, viewportHeight: real, focalLength: real,
                                i: nat, j: nat, width: nat, height: nat)
    requires 1 < width && 1 < height
    ensures var u, v := ViewportFraction(i, width), ViewportFraction(j, height);
      PixelRay(MakeCamera(aspectRatio, viewportHeight, focalLength), i, j, width, height).direction
        == Vec3((u - 0.5) * (aspectRatio * viewportHeight), (v - 0.5) * viewportHeight, -focalLength)
  {
  }

  /** After the flip, row `y` of the saved image holds pixel row
      `height - 1 - y`, whose rays meet the viewport `y / (height - 1)` of its
      height below the top edge: the first saved row looks along the top edge
      and the last along the bottom edge. */
  lemma SavedRowHeight(aspectRatio: real, viewportHeight: real, focalLength: real,
                       i: nat, y: nat, width: nat, height: nat)
    requires 1 < width && 1 < height && y < height
    ensures var d := PixelRay(MakeCamera(aspectRatio, viewportHeight, focalLength),
                              i, height - 1 - y, width, height).direction;
      d.y == viewportHeight / 2.0 - y as real / (height - 1) as real * viewportHeight &&
      (y == 0 ==> d.y == viewportHeight / 2.0) &&
      (y == height - 1 ==> d.y == -viewportHeight / 2.0)
  {
    PixelRayThroughViewport(aspectRatio, viewportHeight, focalLength, i, height - 1 - y, width, height);
    var n, m := (height - 1) as real, y as real;
    assert (height - 1 - y) as real == n - m;
    assert 0.0 < n;
    DivMul(m, n);
    DivMul(n - m, n);
    assert Mul((n - m) / n - (1.0 - m / n), n) == 0.0;
    ZeroProduct((n - m) / n - (1.0 - m / n), n);
  }

  /** The viewport lies in a plane in front of the camera: both edges are
      level in z and the corner is not at depth zero. */
  predicate FacesForward(cam: Camera) {
    cam.horizontal.z == 0.0 && cam.vertical.z == 0.0 && cam.lowerLeftCorner.z != 0.0
  }

  /** The camera of `main` faces forward whenever the focal length is not zero. */
  lemma MakeCameraFacesForward(aspectRatio: real, viewportHeight: real, focalLength: real)
    requires focalLength != 0.0
    ensures FacesForward(MakeCamera(aspectRatio, viewportHeight, focalLength))
  {
  }

  /** Through a forward-facing camera every pixel's ray has a non-zero
      direction, as the intersection test needs. */
  lemma PixelRayNonZero(cam: Camera, i: nat, j: nat, width: nat, height: nat)
    requires 1 < width && 1 < height
    requires FacesForward(cam)
    ensures PixelRay(cam, i, j, width, height).direction.LengthSquared() != 0.0
  {
    var d := PixelRay(cam, i, j, width, height).direction;
    assert d.z == cam.lowerLeftCorner.z;
    LengthSquaredPositive(d);
  }

  /** The pixel value `main` writes at `(i, j)` before the flip. */
  function PixelValue(spheres: seq<Sphere>, cam: Camera, i: nat, j: nat, width: nat, height: nat,
                      sqrt: real -> real): (p: Rgb)
    requires IsSquareRoot(sqrt)
    requires NonZeroRadii(spheres)
    requires FacesForward(cam)
    requires 1 < width && 1 < height
    ensures IsByte(p.r) && IsByte(p.g) && IsByte(p.b)
  {
    PixelRayNonZero(cam, i, j, width, height);
    ShadeInUnitCube(spheres, PixelRay(cam, i, j, width, height), sqrt);
    ToRgb(Shade(spheres, PixelRay(cam, i, j, width, height), sqrt))
  }

  /** The first `n` pixels of row `j`, left to right. */
  function Row(n: nat, j: nat): seq<(nat, nat)> {
    if n == 0 then [] else Row(n - 1, j) + [(n - 1, j)]
  }

  /** The pixels of rows `hi - 1` down to `lo`, in the order the render loop
      visits them: rows from the top index down, each left to right. */
  function Rows(width: nat, lo: nat, hi: nat): seq<(nat, nat)>
    decreases hi - lo
  {
    if hi <= lo then [] else Rows(width, lo + 1, hi) + Row(width, lo)
  }

  /** Row `j` holds each of its first `n` pixels once and nothing else. */
  lemma {:induction false} RowCount(n: nat, j: nat, p: (nat, nat))
    ensures multiset(Row(n, j))[p] == if p.0 < n && p.1 == j then 1 else 0
  {
    if n != 0 {
      RowCount(n - 1, j, p);
    }
  }

  /** One step of `RowsCount`: the count in rows `lo` to `hi - 1` is the
      count in the rows above `lo` plus the count in row `lo`. */
  lemma RowsStep(width: nat, lo: nat, hi: nat, p: (nat, nat))
    requires lo < hi
    requires multiset(Rows(width, lo + 1, hi))[p] ==
               if p.0 < width && lo + 1 <= p.1 < hi then 1 else 0
    ensures multiset(Rows(width, lo, hi))[p] == if p.0 < width && lo <= p.1 < hi then 1 else 0
  {
    RowCount(width, lo, p);
    var above, row := Rows(width, lo + 1, hi), Row(width, lo);
    assert multiset(Rows(width, lo, hi))[p] == multiset(above)[p] + multiset(row)[p] by {
      assert Rows(width, lo, hi) == above + row;
    }
  }

  /** The rows `lo` to `hi - 1` hold each of their pixels once and nothing
      else. */
  lemma {:induction false} RowsCount(width: nat, lo: nat, hi: nat, p: (nat, nat))
    ensures multiset(Rows(width, lo, hi))[p] == if p.0 < width && lo <= p.1 < hi then 1 else 0
    decreases hi - lo
  {
    if lo < hi {
      RowsCount(width, lo + 1, hi, p);
      RowsStep(width, lo, hi, p);
    } else {
      assert Rows(width, lo, hi) == [];
    }
  }

  /** The render loop visits every pixel of the image exactly once, and
      nothing outside it. */
  lemma EveryPixelOnce(width: nat, height: nat)
    ensures forall p: (nat, nat) :: multiset(Rows(width, 0, height))[p] ==
              if p.0 < width && p.1 < height then 1 else 0
  {
    forall p: (nat, nat)
      ensures multiset(Rows(width, 0, height))[p] == if p.0 < width && p.1 < height then 1 else 0
    {
      RowsCount(width, 0, height, p);
    }
  }

  /** The body of the inner loop of `main`: the ray through pixel `(i, j)`,
      its colour, and the write of that colour into the image. Only pixel
      `(i, j)` changes. */
  method RenderPixel(world: SphereList, cam: Camera, img: array2<Rgb>, i: nat, j: nat,
                     sqrt: real -> real)
    requires IsSquareRoot(sqrt)
    requires NonZeroRadii(world.spheres)
    requires FacesForward(cam)
    requires 1 < img.Length0 && 1 < img.Length1 && i < img.Length0 && j < img.Length1
    modifies img
    ensures img[i, j] == PixelValue(world.spheres, cam, i, j, img.Length0, img.Length1, sqrt)
    ensures forall x, y :: 0 <= x < img.Length0 && 0 <= y < img.Length1 && (x != i || y != j) ==>
              img[x, y] == old(img[x, y])
  {
    var r := PixelRay(cam, i, j, img.Length0, img.Length1);
    PixelRayNonZero(cam, i, j, img.Length0, img.Length1);
    var col := RayColor(world, r, sqrt);
    WriteColor(col, i, j, img);
  }

  /** The inner loop of `main`: columns of row `j` from 0 up, writing the
      colour of each pixel's ray. Row `j` ends up holding its values, every
      other row is unchanged, and `visited` lists the pixels in the order
      they were written. */
  method RenderRow(world: SphereList, cam: Camera, img: array2<Rgb>, j: nat, sqrt: real -> real)
    returns (ghost visited: seq<(nat, nat)>)
    requires IsSquareRoot(sqrt)
    requires NonZeroRadii(world.spheres)
    requires FacesForward(cam)
    requires 1 < img.Length0 && 1 < img.Length1 && j < img.Length1
    modifies img
    ensures visited == Row(img.Length0, j)
    ensures forall x :: 0 <= x < img.Length0 ==>
              img[x, j] == PixelValue(world.spheres, cam, x, j, img.Length0, img.Length1, sqrt)
    ensures forall x, y :: 0 <= x < img.Length0 && 0 <= y < img.Length1 && y != j ==>
              img[x, y] == old(img[x, y])
  {
    var imageWidth, imageHeight := img.Length0, img.Length1;
    visited := [];
    for i := 0 to imageWidth
      invariant visited == Row(i, j)
      invariant forall x :: 0 <= x < i ==>
                  img[x, j] == PixelValue(world.spheres, cam, x, j, imageWidth, imageHeight, sqrt)
      invariant forall x, y :: 0 <= x < imageWidth && 0 <= y < imageHeight && y != j ==>
                  img[x, y] == old(img[x, y])
    {
      RenderPixel(world, cam, img, i, j, sqrt);
      visited := visited + [(i, j)];
    }
  }

  /** The nested loops of `main`: rows from `height - 1` down to 0, each
      written by `RenderRow`. Every pixel ends up holding its value, and
      `order` records the pixels in the order they were written: each
      exactly once, by `EveryPixelOnce`. */
  method RenderImage(world: SphereList, cam: Camera, img: array2<Rgb>, sqrt: real -> real)
    returns (ghost order: seq<(nat, nat)>)
    requires IsSquareRoot(sqrt)
    requires NonZeroRadii(world.spheres)
    requires FacesForward(cam)
    requires 1 < img.Length0 && 1 < img.Length1
    modifies img
    ensures order == Rows(img.Length0, 0, img.Length1)
    ensures forall i, j :: 0 <= i < img.Length0 && 0 <= j < img.Length1 ==>
              img[i, j] == PixelValue(world.spheres, cam, i, j, img.Length0, img.Length1, sqrt)
  {
    var imageWidth, imageHeight := img.Length0, img.Length1;
    order := [];
    var j := imageHeight;
    while j > 0
      invariant 0 <= j <= imageHeight
      invariant order == Rows(imageWidth, j, imageHeight)
      invariant forall x, y :: 0 <= x < imageWidth && j <= y < imageHeight ==>
                  img[x, y] == PixelValue(world.spheres, cam, x, y, imageWidth, imageHeight, sqrt)
    {
      j := j - 1;
      ghost var visited := RenderRow(world, cam, img, j, sqrt);
      order := order + visited;
    }
  }

  /** `Image.transpose(FLIP_TOP_BOTTOM)`: a new image whose row `y` is row
      `height - 1 - y` of the old one. */
  method FlipTopBottom(img: array2<Rgb>) returns (flipped: array2<Rgb>)
    ensures fresh(flipped)
    ensures flipped.Length0 == img.Length0 && flipped.Length1 == img.Length1
    ensures forall x, y :: 0 <= x < img.Length0 && 0 <= y < img.Length1 ==>
              flipped[x, y] == img[x, img.Length1 - 1 - y]
  {
    var height := img.Length1;
    flipped := new Rgb[img.Length0, height]((x: nat, y: nat) reads img =>
      if x < img.Length0 && y < height then img[x, height - 1 - y] else Rgb(0, 0, 0));
  }

  /** The two spheres of `main`: a small one straight ahead and a large one
      below it that forms the ground. */
  function DefaultSpheres(): seq<Sphere> {
    [Sphere(Vec3(0.0, 0.0, -1.0), 0.5), Sphere(Vec3(0.0, -100.5, -1.0), 100.0)]
  }

  /** The world of `main`: an empty sphere list with the two spheres added. */
  method DefaultWorld() returns (world: SphereList)
    ensures fresh(world)
    ensures world.spheres == DefaultSpheres()
    ensures NonZeroRadii(world.spheres)
  {
    world := new SphereList();
    world.Add(Sphere(Vec3(0.0, 0.0, -1.0), 0.5));
    world.Add(Sphere(Vec3(0.0, -100.5, -1.0), 100.0));
  }

  /** The constants `main` fixes for the image and the camera. */
  datatype Settings = Settings(aspectRatio: real, imageWidth: nat, viewportHeight: real,
                               focalLength: real)
  {
    /** Settings the render loop can run with: a positive aspect ratio, at
        least two pixels each way (the loop divides by `width - 1` and
        `height - 1`) and a camera that faces forward. */
    predicate Valid() {
      && 0.0 < aspectRatio
      && 1 < imageWidth
      && 1 < ImageHeight(imageWidth, aspectRatio)
      && focalLength != 0.0
    }
  }

  /** The values written in `main`. */
  function DefaultSettings(): Settings {
    Settings(16.0 / 9.0, 1920, 2.0, 1.0)
  }

  /** The settings of `main` are valid and give a 1920 by 1080 image. */
  lemma DefaultSettingsValid()
    ensures DefaultSettings().Valid()
    ensures ImageHeight(1920, DefaultSettings().aspectRatio) == 1080
  {
    DefaultImageHeight();
  }

  /** The rendering half of `main`: a black `width` by `height` image, filled
      by the render loop and flipped top to bottom. */
  method RenderFlipped(world: SphereList, cam: Camera, imageWidth: nat, imageHeight: nat,
                       sqrt: real -> real)
    returns (img: array2<Rgb>)
    requires IsSquareRoot(sqrt)
    requires NonZeroRadii(world.spheres)
    requires FacesForward(cam)
    requires 1 < imageWidth && 1 < imageHeight
    ensures fresh(img)
    ensures img.Length0 == imageWidth && img.Length1 == imageHeight
    ensures forall x, y :: 0 <= x < imageWidth && 0 <= y < imageHeight ==>
              img[x, y] == PixelValue(world.spheres, cam, x, imageHeight - 1 - y,
                                      imageWidth, imageHeight, sqrt)
  {
    var canvas := new Rgb[imageWidth, imageHeight]((x, y) => Rgb(0, 0, 0));
    ghost var order := RenderImage(world, cam, canvas, sqrt);
    img := FlipTopBottom(canvas);
  }

  /** `main` without its interactive part, for the world `DefaultWorld`
      builds (or any other): makes the camera of `settings`, renders the
      image and flips it so that its top row shows the top of the viewport.
      With `DefaultSettings()` and `DefaultWorld()` it is the source's
      `main`. */
  method RenderScene(settings: Settings, world: SphereList, sqrt: real -> real)
    returns (img: array2<Rgb>)
    requires IsSquareRoot(sqrt)
    requires settings.Valid()
    requires NonZeroRadii(world.spheres)
    ensures fresh(img)
    ensures img.Length0 == settings.imageWidth
    ensures img.Length1 == ImageHeight(settings.imageWidth, settings.aspectRatio)
    ensures var cam := MakeCamera(settings.aspectRatio, settings.viewportHeight, settings.focalLength);
      FacesForward(cam) &&
      forall x, y :: 0 <= x < img.Length0 && 0 <= y < img.Length1 ==>
        img[x, y] == PixelValue(world.spheres, cam, x, img.Length1 - 1 - y,
                                img.Length0, img.Length1, sqrt)
  {
    // Image
    var aspectRatio := settings.aspectRatio;
    var imageWidth := settings.imageWidth;
    var imageHeight := ImageHeight(imageWidth, aspectRatio);

    // Camera
    var cam := MakeCamera(aspectRatio, settings.viewportHeight, settings.focalLength);
    MakeCameraFacesForward(aspectRatio, settings.viewportHeight, settings.focalLength);

    // Render
    img := RenderFlipped(world, cam, imageWidth, imageHeight, sqrt);
  }
}
