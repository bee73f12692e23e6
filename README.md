# Security camera motion marker and configuration loader, in Dafny

This project models the two pieces of logic in the `security_camera` program
that are more than camera, window or OpenCV plumbing, and proves properties of
them:

- **`highlight_motion_center`** (`src/motion_detect.py`). It takes the external
  contours of a foreground mask and picks the one with the largest area. On a
  tie, the first one listed wins, as with Python's `max`. If that area is
  strictly greater than the literal 5000, it draws a filled red dot of radius 5
  at the centre of the contour's bounding box. It always returns `True`.
  Module `MotionDetect` in `motion_detect.dfy`.
- **`load_config`** (`src/config/config_loader.py`). It decodes the INI settings
  into a dictionary of nine options. Six are integers with fallback texts, two
  are capture flags read with `getboolean` and no fallback, and one is the dot
  colour, parsed from a text like `"(0, 0, 255)"`. Module `ConfigLoader` in
  `config_loader.dfy`.

The loader relies on Python's `int()`, `str.strip(chars)`, `str.split(sep)` and
`str.lower()`. Those built-ins are stated in module `PyStr` (`py_str.dfy`),
together with `FormatInt`, the decimal rendering that `int()` is checked
against. `wrappers.dfy` holds the `Option` and `Result` datatypes.

How the model is shaped:

- A contour is a record `Contour(area, x, y, w, h)`. It holds what
  `cv2.contourArea` and `cv2.boundingRect` report for it. The area is a `real`
  because OpenCV computes it in floating point, and a polygon area can be a
  half-integer.
- The centre is `int(x + w / 2)`. For integers that float is exactly
  `(2x + w) / 2`, and `int` truncates it toward zero. `CentreCoord` computes
  exactly that with integers.
- The frame is an `array2<Bgr>` indexed `[row, column]`, that is `[y, x]`. The
  `cv2.circle` call is a `Circle` value. Its write into the frame is modelled as
  the colour of the centre pixel, clipped when the centre falls outside the
  frame. `HighlightMotionCenter` changes only `frame`. It leaves `fgmask`
  untouched, because the contours are traced on a copy of it.
- The parsed INI file is a map from `(section, key)` to the stored text. Each
  conversion failure is a `ConfigError`, the `ValueError` that Python raises.
  The first failure in source order aborts the load.

Facts of the code that the model keeps:

- The detector uses the literals 5000, 5 and `(0, 0, 255)` for the area
  threshold, the dot radius and the dot colour. The loaded
  `motion_area_threshold` (default 500), `dot_radius` and `dot_colour` are
  never passed to it.
- `save_interval_seconds` is only loaded, with `int()` and not as a float. No
  code schedules saves or applies a cooldown.
- Ties between contours of equal area go to the first in the order
  `cv2.findContours` returns them.

## Model

| member | source | states |
|---|---|---|
| MotionDetect.LargestIndex | src/motion_detect.py:18 | the index chosen by `max(contours, key=cv2.contourArea)` is a first maximum: no contour has a larger area, and every earlier contour has a strictly smaller one |
| MotionDetect.FirstMaxUnique | src/motion_detect.py:18 | any index with the first-maximum property is the one `max` picks, so the choice is fully determined and ties go to the earliest contour |
| MotionDetect.TruncHalf | src/motion_detect.py:23-24 | `int()` of an exact half truncates toward zero: for n ≥ 0, 0 ≤ 2r ≤ n < 2r + 2; for n < 0, 2r − 2 < n ≤ 2r ≤ 0 |
| MotionDetect.CentreCoord | src/motion_detect.py:22-24 | the centre coordinate `int(x + w / 2)` lies in `[x, x + w]` for w ≥ 0, whatever the sign of x, and equals `x + w // 2` when x, w ≥ 0 |
| MotionDetect.CentreTruncatesTowardZero | src/motion_detect.py:23 | left of the origin, truncation rounds up: x = −3, w = 1 gives −2, not `x + w // 2` = −3 |
| MotionDetect.MotionMarker | src/motion_detect.py:15-31 | a dot is drawn exactly when some contour's area is strictly greater than 5000, so no contours means no dot; any dot has radius 5, colour (0, 0, 255) and a negative (filled) thickness |
| MotionDetect.MarkerOfFirstLargest | src/motion_detect.py:18-31 | when the first largest contour's area exceeds 5000, the single dot is centred on that contour's bounding box |
| MotionDetect.MarkerIgnoresSmaller | src/motion_detect.py:16-31 | any dot drawn belongs to a contour of maximal area, so a smaller contour is never marked even if its own area exceeds 5000 |
| MotionDetect.ThresholdIsStrict | src/motion_detect.py:21 | a lone contour of area exactly 5000 draws nothing; one of area 5000.5 draws a dot |
| MotionDetect.SquareAtOrigin | src/motion_detect.py:18-31 | a 100×100 box at (0, 0) with area 10000 gives a filled red dot of radius 5 at (50, 50) |
| MotionDetect.LargerBlobWins | src/motion_detect.py:18-24 | of two contours where the larger exceeds 5000, only the larger is marked, in either list order |
| MotionDetect.TieGoesToFirst | src/motion_detect.py:18 | of two contours of equal area above 5000, the first listed is marked |
| MotionDetect.DrawCircle | src/motion_detect.py:27-31 | `cv2.circle` writes the dot colour at its centre pixel when that pixel is inside the frame; every other pixel keeps its value |
| MotionDetect.HighlightMotionCenter | src/motion_detect.py:5-32 | returns `True`; leaves `fgmask` unchanged; changes `frame` only by the dot `MotionMarker` chooses, so with no contours or no area above 5000 the frame is unchanged |
| PyStr.Strip | src/config/config_loader.py:17 | `strip(chars)` as the `lstrip` then `rstrip` of the characters; what it removes and keeps is stated by `StripSpan` and `StripPadded` |
| PyStr.StripSpan | src/config/config_loader.py:17 | `strip('()')` returns a contiguous slice of the text: everything cut from either end is a parenthesis, and the result neither starts nor ends with one |
| PyStr.StripPadded | src/config/config_loader.py:17 | `strip` removes exactly the padding: stripping `pre + t + post` gives `t` when the padding is all strippable characters and `t` does not begin or end with one |
| PyStr.Split | src/config/config_loader.py:17 | `split(',')` gives one field per comma plus one, and no field contains a comma |
| PyStr.JoinSplit | src/config/config_loader.py:17 | joining the fields of `split(',')` with commas gives back the text |
| PyStr.SplitJoin | src/config/config_loader.py:17 | splitting the comma-join of comma-free fields gives back those fields |
| PyStr.ParseInt | src/config/config_loader.py:8-17 | `int(text)`: surrounding whitespace stripped, one optional sign, then digits with single underscores between them; `None` where Python raises `ValueError`. Its lemmas below state what it accepts and rejects |
| PyStr.ParseFormatInt | src/config/config_loader.py:8-16 | `int(str(n)) == n` for every integer n (up to the 4300-digit limit noted under Left out) |
| PyStr.ParseIntPadded | src/config/config_loader.py:8-17 | `int()` ignores whitespace on either side of the literal |
| PyStr.ParseIntBlank | src/config/config_loader.py:8-17 | an empty or all-whitespace text is not an integer |
| PyStr.ParseIntRejectsStray | src/config/config_loader.py:8-17 | a text holding any character that is not a digit, underscore, sign or whitespace is not an integer |
| PyStr.ParseIntRejectsSeparator | src/config/config_loader.py:8-16 | the information separator U+001C is not skipped as whitespace: `int("\x1c5")` raises |
| PyStr.Lower | src/config/config_loader.py:12-13 | `str.lower()` keeps the length and lower-cases each ASCII letter, leaving every other character as it is |
| ConfigLoader.ParseFields | src/config/config_loader.py:17 | `tuple(map(int, fields))` succeeds exactly when every field is an integer literal; it then has one component per field, each the `int()` of its field |
| ConfigLoader.ParseColour | src/config/config_loader.py:17 | the colour is `tuple(map(int, …))` of the comma-separated fields of the text with its parentheses stripped; its lemmas below state length, round trip and the rejected cases |
| ConfigLoader.ParseFieldsFirstError | src/config/config_loader.py:17 | when the conversion fails, the error carries the first field that is not an integer |
| ConfigLoader.ColourLength | src/config/config_loader.py:17 | a parsed colour has as many components as the stripped text has commas, plus one |
| ConfigLoader.ParseColourText | src/config/config_loader.py:17 | a colour written as `(c0, c1, …)` reads back as the same components, for any number of them |
| ConfigLoader.DefaultColour | src/config/config_loader.py:17 | the fallback text `"(0, 0, 255)"` yields the tuple (0, 0, 255) |
| ConfigLoader.TwoComponentColour | src/config/config_loader.py:17 | the length is not checked: `"(1, 2)"` yields (1, 2) |
| ConfigLoader.EmptyColourRejected | src/config/config_loader.py:17 | `"()"` strips to one empty field, which `int()` rejects |
| ConfigLoader.ParseBool | src/config/config_loader.py:12-13 | `getboolean`'s conversion: true exactly when the lower-cased text is one of "1", "yes", "true", "on"; false exactly when it is one of "0", "no", "false", "off"; neither otherwise, which `FlagOf` turns into an error |
| ConfigLoader.FlagOf | src/config/config_loader.py:12-13 | an absent key gives `None`, because no fallback is passed; a present key gives its boolean, and a text that is not a boolean word raises with that text |
| ConfigLoader.ParseBoolText | src/config/config_loader.py:12-13 | `getboolean` reads `str(b)`, that is "True" or "False", back as b |
| ConfigLoader.ParseBoolUpperCase | src/config/config_loader.py:12-13 | boolean words are compared after lower-casing: "YES" is true and "Off" is false |
| ConfigLoader.DecodeConfig | src/config/config_loader.py:8-17 | the nine conversions in source order, each on its stored text or its fallback, the first failing one aborting the load; its properties are the lemmas below |
| ConfigLoader.DecodeTextsOf | src/config/config_loader.py:8-17 | converting the texts written from any configuration with a non-empty colour gives back every option of it |
| ConfigLoader.DecodeStoreOf | src/config/config_loader.py:8-17 | an INI file that stores every option of a configuration decodes to that configuration, so stored values override the fallbacks |
| ConfigLoader.DecodeEmptyStore | src/config/config_loader.py:8-17 | with no keys present the result is camera 0, resize 50, interval 10, frame skip 1, both capture flags `None`, threshold 500, radius 5, colour (0, 0, 255) |
| ConfigLoader.DefaultTexts | src/config/config_loader.py:8-17 | the fallback texts are exactly the default options written out |
| ConfigLoader.DecodeStoredThreshold | src/config/config_loader.py:15 | a stored `MotionAreaThreshold` of n gives threshold n, and every other option keeps its fallback |
| ConfigLoader.DecodeRejectsNonInteger | src/config/config_loader.py:8-16 | if the stored or fallback text of any integer option is not an integer, the load fails instead of falling back |
| ConfigLoader.DecodeRejectsNonBoolean | src/config/config_loader.py:12-13 | a stored capture flag that is not a boolean word fails the load |
| ConfigLoader.DecodedTexts | src/config/config_loader.py:8-17 | after a successful conversion, each option is the conversion of its own text |
| ConfigLoader.DecodedOptions | src/config/config_loader.py:8-17 | after a successful load, each integer option is the `int()` of its stored or fallback text, and the colour is the parse of its text; an absent capture flag is `None`, because no fallback is given, and a present one is its boolean word |
| ConfigLoader.AsDict | src/config/config_loader.py:19-29 | the returned dictionary has exactly the nine listed keys; `AsDictLookup` states what each key holds |
| ConfigLoader.AsDictLookup | src/config/config_loader.py:19-29 | each key holds the option it is named after, for example `dot_colour` holds the colour tuple |
| ConfigLoader.AsDictInjective | src/config/config_loader.py:19-29 | the dictionary loses no decoded option: equal dictionaries come from equal configurations |
| ConfigLoader.LoadConfig | src/config/config_loader.py:4-29 | `load_config` succeeds exactly when the decoding does. It then returns the dictionary of the decoded options, with exactly the nine keys; otherwise it raises the decoding's error |
| ConfigLoader.LoadConfigEmpty | src/config/config_loader.py:4-29 | an empty INI file loads as camera_port 0, frame_resize_percent 50, save_interval_seconds 10, frame_skip_count 1, both capture flags `None`, motion_area_threshold 500, dot_radius 5, dot_colour (0, 0, 255) |
| ConfigLoader.LoadedOptions | src/config/config_loader.py:8-29 | in a loaded dictionary each key holds the `int()`, `getboolean` or colour conversion of the text read for that key (stored or fallback), so no two options are swapped |

## Left out

- Camera access, display windows and `print` diagnostics (`src/main.py`, `src/camera.py`) are all I/O. `otsu_thresholding` wraps OpenCV grayscale, Gaussian blur and threshold calls, whose algorithms are not part of this model.
- `cv2.findContours`, `cv2.contourArea` and `cv2.boundingRect` are not modelled. Their results are the `Contour` records given to `HighlightMotionCenter`, in the order `findContours` returns them.
- DrawCircle: models only the centre pixel of the filled disc, because OpenCV's circle rasterisation is not part of this model. Pixels of the disc around a centre that lies outside the frame are not modelled either.
- HighlightMotionCenter: states the frame change through `DrawCircle`, so it has the same centre-pixel limit.
- `int(x + w / 2)` goes through a double. The model treats it as exact, which holds while `|2x + w|` stays below 2^53.
- Reading the INI file is not modelled; the model starts from the parsed map. configparser behaviour beyond a plain map lookup is also left out: case-insensitive keys, values inherited from `DEFAULT` by the `MOTION` section, `%` interpolation, and the errors for malformed files.
- ParseInt: accepts ASCII digits only. Python's `int()` also accepts other Unicode decimal digits.
- ParseInt: has no length limit. Since Python 3.11 `int()` raises `ValueError` for a literal of more than 4300 digits (`sys.get_int_max_str_digits()`), so `ParseFormatInt` holds in Python only for integers of at most 4300 digits.
- Lower: lower-cases only ASCII letters. This is enough for `getboolean`, because no other character lower-cases into one of its words.
- No code gates saves by `save_interval_seconds` or by a cooldown, so there is nothing of that kind to model.
