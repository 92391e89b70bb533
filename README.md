# Sigma raytracer, modelled in Dafny

This project models a small Python ray tracer in the style of "Ray Tracing in
One Weekend" (`main.py`). The tracer renders one picture:
- the scene is two spheres, a small one in front of the camera and a large one that forms the ground;
- each pixel's ray is coloured by the surface normal of the nearest sphere it hits, or by a white to sky-blue gradient when it hits nothing;
- colours become bytes in an RGB image, which is flipped top to bottom at the end.

The model follows the program's own structure, one Dafny module per part:

- `Vectors`: `vec3` over exact reals. Its operations build new values.
- `Rays`: `ray` and `ray.at`.
- `Spheres`: the `hit_record` class and the analytic ray–sphere test.
  - `Sphere.hit` is a method that writes into the record.
  - `hitSphere` is a pure function.
  - Lemmas about the near root of the quadratic.
- `Scene`: `Sphere_List`, a class whose `add` appends to a `seq` field, and whose `hit` is a loop.
  - The loop is proved against `Scan`. `Scan` is a function giving the sphere the loop leaves in the record.
  - `IsNearest` gives a declarative definition of the nearest hit. `Scan` is proved to choose a sphere exactly when it is the nearest hit.
- `Shading`: `getColour` (the sky gradient) and `ray_color` (a method that allocates a record and asks the scene).
  - `ray_color` is specified by the function `Shade`. `getColour` is the miss branch of `Shade` and has its own bounds.
- `Render`: the byte conversion of `write_color`, the camera, and the ray through each pixel.
  - The nested render loop of `main` writes into an `array2` framebuffer, one method per loop level.
  - The top-to-bottom flip.
  - `RenderScene`: `main` without its prompts.
- `Scalars`: squares, products and the square root behind `** 0.5`.
  - Dafny's reals have no square root. Every member that takes one is given `sqrt: real -> real` together with `IsSquareRoot(sqrt)`: `sqrt(x)` is non-negative and squares back to `x` for every `x >= 0`.
- `Options`: an `Option` type.

Behaviour worth knowing when reading the contracts:

- `Sphere.hit` tests only the near root `(-half_b - sqrt(disc)) / a` (main.py:109-111).
  - A ray that starts inside a sphere therefore misses it, although it leaves through the far side. `Spheres.MissFromInside` proves this for every ray with a non-zero direction whose origin lies strictly inside the sphere: the near root is negative, and the far root is positive and on the surface.
- The rejection test is `t_max < root` (main.py:110), so a root equal to `closest_so_far` is accepted.
  - On an exact tie between two spheres, the later one in the list overwrites the record.
  - `Scene.IsNearest` states this tie-break, and `Scene.ScanChoosesIff` proves that the loop follows it.
  - A strict comparison would let the first of two tied spheres win. The test `t_max < root` lets the later one overwrite the record, and the model follows the code.
- `float("inf")` as the upper limit of `ray_color` is `Spheres.Bound.Infinity`.
- Python's `int()` truncates toward zero, and `Render.Truncate` models that exactly for both signs.

## Model

| member | source | states |
|---|---|---|
| Vectors.Vec3.Neg | main.py:24-25 | adding the negation to a vector gives the zero vector |
| Vectors.Vec3.Sub | main.py:33-34 | `(a - b) + b == a`: subtraction undoes addition |
| Vectors.Vec3.Div | main.py:42-43 | dividing by `s != 0` (as multiplication by `1 / s`) and multiplying back by `s` restores the vector |
| Vectors.Vec3.Cross | main.py:48-51 | the cross product is orthogonal to both of its arguments |
| Vectors.Vec3.LengthSquared | main.py:56-57 | the squared length is never negative and equals the dot product of the vector with itself |
| Vectors.Vec3.Length | main.py:59-60 | the length is the non-negative number whose square is the squared length |
| Vectors.Vec3.UnitVector | main.py:53-54 | for a non-zero vector, the unit vector has length one, and scaled by the length it gives the vector back |
| Vectors.ScaleLengthSquared | main.py:36-37 | scaling by `s` multiplies the squared length by `s ** 2` |
| Vectors.UnitLength | main.py:53-54 | dividing a vector by its length leaves a vector of squared length one |
| Vectors.LengthSquaredPositive | main.py:56-57 | a vector with a non-zero component has a positive squared length |
| Vectors.ComponentBound | main.py:56-57 | the square of each component is at most the squared length |
| Vectors.UnitComponents | main.py:53-54 | every component of a vector of length one lies in `[-1, 1]` |
| Vectors.UnitOfUnit | main.py:53-54 | a vector of length one is its own unit vector |
| Vectors.UnitVectorScale | main.py:53-54 | scaling a non-zero vector by a positive factor keeps its unit vector |
| Vectors.DivScaled | main.py:42-43 | dividing `s * v` by `s * d` gives the same vector as dividing `v` by `d` |
| Vectors.AddSubCancel | main.py:30-34 | `(a + b) - b == a` |
| Vectors.NegNeg | main.py:24-25 | `-(-a) == a` |
| Vectors.DotSymmetric | main.py:45-46 | `dot(a, b) == dot(b, a)` |
| Vectors.DotCross | main.py:45-51 | `dot(a, cross(a, b)) == 0` |
| Rays.Ray.At | main.py:83-84 | `at(t) - origin == t * direction` for every `t` |
| Rays.AtZero | main.py:83-84 | `at(0) == origin` |
| Rays.AtShift | main.py:83-84 | `at(s + t) == at(s) + t * direction` |
| Spheres.HitRecord.constructor | main.py:16-17 | a fresh record has three fixed fields `p`, `normal` and `t`, all zero |
| Spheres.Sphere.Hit | main.py:100-117 | answers true exactly when a near root exists and lies in `[t_min, t_max]`; on a hit, `rec.t` is that root, `rec.p == r.at(rec.t)` and `rec.normal == (rec.p - center) / radius`; on a miss (negative discriminant or root out of range) the record is unchanged |
| Spheres.HitSphere | main.py:146-155 | returns `-1` when the discriminant is negative, and otherwise the same near root that `Sphere.hit` tests |
| Spheres.SurfaceEquation | main.py:101-105 | the squared distance from the centre at `r.at(t)`, minus `radius ** 2`, is the quadratic `a t^2 + 2 half_b t + c` built from the coefficients of `Sphere.hit` |
| Spheres.CompletedSquare | main.py:102-105 | `a * q(t) == (a t + half_b)^2 - discriminant` |
| Spheres.NearRootSolves | main.py:105-109 | the near root is a root of the quadratic |
| Spheres.NearRootOnSurface | main.py:109-114 | under exact arithmetic, the point `Sphere.hit` records lies on the sphere |
| Spheres.NearRootIsFirst | main.py:105-109 | if the ray is on the sphere at some `t`, the discriminant is non-negative and the near root is at most `t`; a negative discriminant therefore means the ray never meets the sphere |
| Spheres.NormalIsUnit | main.py:115 | the normal recorded for a point on the sphere has length one |
| Spheres.AimedAtCentre | main.py:101-109 | a unit ray aimed at the centre from distance `d` has near root `d - radius` |
| Spheres.RootGap | main.py:105-107 | when `a > 0` and `c < 0` the discriminant is positive and its square root exceeds `abs(half_b)` |
| Spheres.FarRootSolves | main.py:105-109 | the far root `(-half_b + sqrtd) / a`, the one `Sphere.hit` does not compute, also solves the quadratic |
| Spheres.StraddlesZero | main.py:105-109 | when `a > 0` and `c < 0` the near root is negative, and the far root is positive and solves the quadratic |
| Spheres.MissFromInside | main.py:109-111 | for every ray with a non-zero direction whose origin is strictly inside the sphere, the near root is negative, so the test with `[0, inf]` rejects it, while the far root is positive and on the surface |
| Scene.Scan | main.py:127-136 | the sphere left in the record after the loop, with limits lowered as the loop lowers them; whatever it chooses is accepted within the original limits |
| Scene.Limit | main.py:129-134 | `closest_so_far` after the loop never exceeds `t_max` |
| Scene.ScanMissIff | main.py:127-136 | the loop finds nothing exactly when no sphere's near root lies in `[t_min, t_max]` (so an empty list gives a miss) |
| Scene.NearestKept | main.py:131-134 | a sphere that is not accepted below the current root keeps the nearest hit |
| Scene.NearestReplaced | main.py:131-134 | a sphere accepted below the current root becomes the nearest hit |
| Scene.NearestFirst | main.py:131-134 | the first accepted sphere is the nearest hit among the spheres so far |
| Scene.ScanIsNearest | main.py:127-136 | the chosen sphere's root is the minimum of all accepted near roots, and every later accepted sphere has a strictly larger root |
| Scene.NearestUnique | main.py:127-136 | at most one sphere is the nearest hit under this tie-break |
| Scene.ScanChoosesIff | main.py:127-136 | the loop chooses sphere `k` if and only if `k` is the nearest hit (on an exact tie, the last of the tied spheres) |
| Scene.LimitShrinks | main.py:131-134 | `closest_so_far` never increases from one sphere to the next |
| Scene.ScanExtend | main.py:131-134 | one iteration: an accepted sphere becomes the choice and its root the new `closest_so_far`; otherwise both stay |
| Scene.SphereList.constructor | main.py:121-122 | a new list is empty |
| Scene.SphereList.Add | main.py:124-125 | `add` appends the sphere at the end |
| Scene.SphereList.Hit | main.py:127-136 | answers whether any sphere is accepted; on a hit the record holds the chosen sphere's root, point and normal; on a miss the record is unchanged |
| Shading.GradientEnds | main.py:158-161 | the gradient is exactly `(1, 1, 1)` at `y == -1` and `(0.5, 0.7, 1.0)` at `y == 1`; in between each channel stays between the two colours |
| Shading.GetColour | main.py:158-161 | the sky colour has red in `[0.5, 1]`, green in `[0.7, 1]` and blue `1` |
| Shading.GetColourScale | main.py:158-161 | the sky colour depends only on the ray's direction, not on its length or origin |
| Shading.VerticalUnit | main.py:159 | the unit vector of `(0, k, 0)` is `(0, 1, 0)` or `(0, -1, 0)`, by the sign of `k` |
| Shading.VerticalSky | main.py:158-161 | direction `(0, k, 0)` with `k > 0` gives `(0.5, 0.7, 1.0)`, and with `k < 0` gives `(1, 1, 1)` |
| Shading.NormalColourInUnitCube | main.py:167 | `0.5 * (normal + (1, 1, 1))` of a unit normal has every channel in `[0, 1]` |
| Shading.ShadeMiss | main.py:164-169 | a ray that no sphere accepts in `[0, inf]` gets the sky colour |
| Shading.ShadeHit | main.py:164-169 | a ray whose nearest hit is sphere `k` gets `0.5 * (normal + (1, 1, 1))` of that sphere's normal at the hit point |
| Shading.ShadeInUnitCube | main.py:164-169 | under exact arithmetic every colour `ray_color` returns lies in the unit cube |
| Shading.RayColor | main.py:164-169 | `ray_color` returns `Shade`: the normal colour of the chosen sphere with limits `[0, inf]`, or the sky |
| Render.Truncate | main.py:140 | `int()` truncates toward zero: for `x >= 0` the result is the whole part, and for `x < 0` it is minus the whole part of `-x` |
| Render.ToByte | main.py:140-142 | a channel in `[0, 1]` becomes a byte in `[0, 255]`, equal to the whole part of `255.999 * c` |
| Render.ToByteMonotone | main.py:140-142 | the conversion never decreases, maps `0` to `0` and maps `1` to `255` |
| Render.ToRgb | main.py:139-142 | a colour in the unit cube gives three bytes |
| Render.WriteColor | main.py:139-143 | pixel `(x, y)` gets the converted colour, and every other pixel stays unchanged |
| Render.ImageHeight | main.py:176 | `image_height` is the whole part of `image_width / aspect_ratio` |
| Render.DefaultImageHeight | main.py:174-176 | `ImageHeight(1920, 16/9) == 1080`: a 1920-pixel-wide image at 16:9 is 1080 pixels high |
| Render.MakeCamera | main.py:186-193 | the camera is at the origin; the viewport centre is `(0, 0, -focal_length)`, and the upper right corner is at half the viewport width and height |
| Render.ViewportFraction | main.py:201-202 | `u = i / (n - 1)` lies in `[0, 1]`; it is `0` at the first pixel and `1` at the last |
| Render.PixelRayThroughViewport | main.py:186-203 | through the camera of `main`, pixel `(i, j)` looks at `((u - 1/2) * viewport_width, (v - 1/2) * viewport_height, -focal_length)`, with `u` and `v` its viewport fractions |
| Render.SavedRowHeight | main.py:197-208 | row `y` of the flipped image holds pixel row `image_height - 1 - y`, whose rays meet the viewport `y / (image_height - 1)` of its height below the top edge; the first saved row looks along the top edge and the last along the bottom edge |
| Render.PixelRayCorners | main.py:201-203 | the first pixel's ray points at the lower left corner, and the last pixel's ray at the upper right corner |
| Render.MakeCameraFacesForward | main.py:188-193 | with a non-zero focal length, the viewport lies in a plane in front of the camera |
| Render.PixelRayNonZero | main.py:201-203 | every pixel's ray has a non-zero direction, as the intersection test needs |
| Render.PixelValue | main.py:200-206 | every written pixel value is three bytes in `[0, 255]` |
| Render.RowCount | main.py:200 | the inner loop visits each pixel of its row once, and nothing else |
| Render.RowsStep | main.py:197-200 | the visit count over rows `lo..hi-1` is the count over the rows above `lo` plus the count in row `lo` |
| Render.RowsCount | main.py:197-200 | rows `lo..hi-1`, visited from the top index down, contain each of their pixels exactly once |
| Render.EveryPixelOnce | main.py:197-206 | every pixel `(i, j)` with `i < w` and `j < h` is visited exactly once, and no other pixel is visited |
| Render.RenderPixel | main.py:201-206 | the body of the inner loop writes pixel `(i, j)`'s value and leaves every other pixel unchanged |
| Render.RenderRow | main.py:200-206 | the inner loop writes every pixel of row `j`, visits them left to right, and leaves the other rows unchanged |
| Render.RenderImage | main.py:196-206 | after the nested loops every pixel holds its value; the visit order is rows from the top index down, each left to right |
| Render.FlipTopBottom | main.py:208 | the flipped image has the same size, and its row `y` is row `h - 1 - y` of the original |
| Render.DefaultWorld | main.py:180-182 | the world of `main` holds the two spheres in the order they were added |
| Render.DefaultSettingsValid | main.py:174-188 | the constants of `main` are valid settings and give a 1920 by 1080 image |
| Render.RenderFlipped | main.py:196-208 | the image after the flip has pixel `(x, y)` equal to the value computed for pixel `(x, h - 1 - y)` |
| Render.RenderScene | main.py:172-208 | `main` builds an image `image_width` by `image_height` in size, through a camera that faces forward, whose every pixel holds the flipped pixel value |

## Left out

- Image library calls (`Image.new`, `putpixel`, `transpose`, `show`, `save`) are modelled as writes to a Dafny `array2` and a row mapping; the image file and its display are not modelled.
- The interactive prompts and progress output of `main` (`input`, `print`) are I/O and are left out.
- IEEE-754 floating point is modelled as exact real arithmetic; rounding, NaN and infinity propagation are not modelled, and division by zero becomes a precondition (non-zero ray direction, non-zero radius, image at least 2 by 2, non-zero focal length).
- The square root `** 0.5` is a parameter `sqrt` with `IsSquareRoot(sqrt)`, because Dafny's reals have no square root function.
- The `basic_structure` attribute reflection (`setattr`/`getattr`) and `__getitem__` are replaced by the fixed fields of `HitRecord`, and `vec3.e` by the three fields of `Vec3`.
- `__repr__` formatting is cosmetic and left out.
- The `point3` and `color` subclasses of `vec3` are plain `Vec3` values.
- Render.RenderScene: takes the settings (aspect ratio, width, viewport height, focal length) and the world as parameters, because the pixel contract does not verify within the resource limit with the literal spheres and the literal camera in one proof; `DefaultSettings`, `DefaultSettingsValid` and `DefaultWorld` state the values of `main`, and the combination is not a single proved member.
- Spheres.HitRecord.constructor: the source creates an empty record with no attributes; the model starts all three fields at zero, which nothing reads before a hit.
