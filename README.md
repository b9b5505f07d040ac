# Preview-size selection of the Buscemi camera preview

This project models the preview-size selection rule of the Android camera
preview widget `CameraPreview` (`getOptimalPreviewSize`). The widget calls
the rule with the list of preview sizes the camera supports and the measured
viewport `w × h`. The rule makes two passes over the list:

- The aspect-aware pass considers only sizes whose ratio `width/height` is
  within `ASPECT_TOLERANCE = 0.1` of `w/h`. Among them it keeps the one whose
  height is closest to `h`.
- The fallback pass runs only when the first pass kept nothing. It keeps the
  size whose height is closest to `h` over the whole list.

Both passes compare with a strict `<` against the best difference so far,
`minDiff`. That value starts at the sentinel `Double.MAX_VALUE` and is reset
to it between the passes. So the earliest size wins a tie, and the fallback
pass always accepts the first size of a non-empty list. A `null` list gives
`null`, and so does an empty list.

The model is in two modules:

- `Wrappers` (`wrappers.dfy`) holds `Option`, which stands for a Java
  reference that may be `null`.
- `CameraPreview` (`camera_preview.dfy`) holds the rest:
  - `Size` is a datatype of two integers.
  - The list is an `Option<seq<Size>>`, where `None` is the `null` list.
  - The `minDiff` sentinel is the `MinDiff.Infinite` value, which lies above
    every height difference.
  - The aspect test is defined exactly over the integers as
    `10·|width·h − w·height| <= height·h`. `AspectTestExact` proves that this
    agrees with the real-number test `|width/height − w/h| <= 0.1` that the
    method computes.
  - The specification has two parts. `Closest` is a recursive reference
    definition of one pass, working from the front of the list. `IsClosest`
    is a declarative predicate: the first index, among the eligible sizes,
    whose height difference is minimal.
  - `GetOptimalPreviewSize` is the two-loop method. It is proved to return
    what `OptimalPreviewSize` specifies.

An empty list is not an error: neither loop runs and the rule returns
`null`.

The list and its sizes are only read. In the model they are immutable
values, and the method has no `modifies` clause. The width/height swap after
the second pass is commented out in the Java code, so it is not modelled, and
the result is always one of the listed sizes.

## Model

| member | source | states |
|---|---|---|
| `CameraPreview.GetOptimalPreviewSize` | src/com/akicode/busceni/CameraPreview.java:196-232 | The two-loop method, with `minDiff` as a sentinel-or-difference value reset between the passes, returns exactly `OptimalPreviewSize(sizes, w, h)`. Its loop invariants say that once a size is kept, `minDiff` equals that size's height difference. They also say the kept size is the first eligible size of minimal difference among those scanned, and that the fallback pass keeps a size from its first element on. |
| `CameraPreview.OptimalPreviewSize` | src/com/akicode/busceni/CameraPreview.java:199-231 | The result is `null` exactly when the list is `null` or empty. A non-null result is always an element of the list: nothing is made up and no fields are swapped. |
| `CameraPreview.OptimalIndex` | src/com/akicode/busceni/CameraPreview.java:201-225 | There is a choice exactly when the list is non-empty. If some size is aspect-compatible, the choice is the first aspect-compatible size of minimal height difference. Otherwise it is the first size of minimal height difference over the whole list. |
| `CameraPreview.Closest` | src/com/akicode/busceni/CameraPreview.java:207-214 | This is the reference definition of one pass. It returns no index exactly when no size is eligible. Any index it returns satisfies `IsClosest`: the size is eligible, its height difference is at most that of every eligible size, and it is strictly less than that of every earlier eligible size. No other index satisfies `IsClosest`. |
| `CameraPreview.AspectTestExact` | src/com/akicode/busceni/CameraPreview.java:197-209 | For positive dimensions, `AspectCompatible` (`10·|width·h − w·height| <= height·h`) holds exactly when `|width/height − w/h| <= 0.1`. So a size is skipped only when the ratio difference is strictly above the tolerance. |
| `CameraPreview.PrefersAspectCompatible` | src/com/akicode/busceni/CameraPreview.java:207-217 | If some size is aspect-compatible, the result is aspect-compatible. It is no farther in height from `h` than any aspect-compatible size, and it is the earliest such size in list order. |
| `CameraPreview.FallsBackToClosestHeight` | src/com/akicode/busceni/CameraPreview.java:216-225 | If the list is non-empty and no size is aspect-compatible, the result is the first size of minimal height difference over the whole list. |

## Left out

- The aspect test is modelled on exact rationals, not on IEEE doubles. The two disagree when the ratio difference is exactly 0.1, which happens with ordinary sizes: for a 1280×800 size and a 960×640 (or 480×320) viewport, the doubles give 1.6 − 1.5 = 0.10000000000000009 > 0.1, so the Java code skips the size, while `AspectCompatible(Size(1280, 800), 960, 640)` holds and the model keeps it. Other differences within rounding error of 0.1 can flip the same way. The model does not capture double rounding.
- Zero dimensions are not modelled. A viewport or size of height 0 makes the Java ratio `Infinity`, or `NaN` for `0/0`. `NaN` would pass the aspect test. `GetOptimalPreviewSize` requires positive `w`, `h` and positive sizes instead.
- Java `int` width is not modelled. For positive dimensions, `size.height - h` cannot overflow. The ratio test is computed in `double`, so it has no integer products. Unbounded integers therefore give the same results.
- Object identity is not modelled. The Java method returns a reference to one of the listed `Camera.Size` objects. The model returns an equal value, and `Closest` and `OptimalIndex` give its position.
- The camera lifecycle and surface callbacks (`setCamera`, `switchCamera`, `surfaceCreated`, `surfaceChanged`, `surfaceDestroyed`) are left out. They only call into the Android camera API.
- View measurement and layout (`onMeasure`, `onLayout`) are left out. They are host-controlled. Their only logic is the call to the selector and the construction of a platform `FaceDetector`.
- The frame pipeline (`doFaceDetection`, `onPreviewFrame`, `DetectFacesTask`) is left out. It is platform image transcoding, face detection and `AsyncTask` threading.
- The commented-out reflection code is dead, and so is left out.
- The `EyeView` drawing and its static `Paint` are left out, as UI only.
- `BusceniActivity.java` is not part of this model. It is activity wiring only.
