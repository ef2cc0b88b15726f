# djeocad core: colour encoding, tangent-plane conversion and list views

This project models the pure logic of the djeocad drawing utilities and list
views in Dafny.

- **Colour encoder** (`cad2hex`). A CAD colour arrives in one of two forms.
  A true-colour `(r, g, b)` tuple becomes `#` plus three `{:02x}` fields. An
  index is looked up in the CAD default-colour table and becomes `#` plus one
  `{:06X}` field. Python's hex formatting is modelled exactly in `HexFormat`:
  lower-case or upper-case digits, and sign-aware zero padding to a minimum
  width. `ParseHex` inverts `Digits`, and inverts `FormatHex` on non-negative values (`HexFormat.ParseDigits`, `HexFormat.FormatFixedWidth`).
- **Tangent-plane conversion** (`xy2latlong`, `latlong2xy`). `xy2latlong`
  maps local CAD vertices to `[long, lat]` around an anchor. It scales each
  vertex, rotates it, and then turns metres into degrees using the mean Earth
  radius of 6 371 000 m. `latlong2xy` is the approximate reverse. Both are
  modelled over `real`:
  - `radians` and `degrees` are exact multiplications by constants, using
    pi written as the decimal `repr(math.pi)` prints, 3.141592653589793.
  - `sin` and `cos` are passed in as a `Trig` record. The ghost predicate
    `Angles.Valid` constrains them to `sin 0 = 0`, `cos 0 = 1` and
    `sin² + cos² = 1`.
  - The rotation angle goes straight into `sin`/`cos` with no `radians()`
    call, as in the code, so it is in radians.
  - `fabs(cos(radians(latp))) == 0` is a division by zero. It raises before
    any vertex is read, even for an empty list, and is modelled as
    `Failure(ZeroDivision)`.
- **List views** (`views.py`). Querysets become sequences of `Drawing`
  records in table order. The model covers three rules:
  - the htmx template rewrite;
  - the visibility rule: public drawings, plus the caller's own private ones
    when logged in;
  - the author list: order-preserving de-duplication of the usernames of
    **all** drawings, private ones included.

`xy2latlong` applies `sin`/`cos` to the `rot` argument directly
(utils.py:32-33), so the model takes the rotation in radians.

## Model

| member | source | states |
|---|---|---|
| `Colors.ListAt` | utils.py:19 | The table subscript succeeds exactly when `-len <= i < len`. A non-negative index selects `palette[i]`, a negative one `palette[len + i]`, and anything else raises IndexError. |
| `Colors.TrueColorNegative` | utils.py:17-18 | A negative component is not rejected. `{:02x}` writes any negative red, green or blue with a leading `-`, which appears in the encoding at the start of that component's field. |
| `Colors.Cad2Hex` | utils.py:16-20 | A true colour always encodes. An index encodes exactly when Python list indexing accepts it (`-len <= i < len`), and raises IndexError otherwise. Every encoding starts with `#`. |
| `Colors.TrueColorEncoding` | utils.py:17-18 | Components in 0..255 give `#` and exactly six lower-case hex digits. Each two-digit pair reads back as its component. |
| `Colors.IndexedEncoding` | utils.py:19-20 | A valid index gives `#` and exactly six upper-case hex digits. They read back as the table entry, with negative indices counting from the end. |
| `Colors.TrueColorInjective` | utils.py:17-18 | Two in-range true colours with the same encoding are the same colour. |
| `Colors.TrueColorOverflow` | utils.py:17-18 | A component above 255 is not clipped. Its field grows past two digits, so the string is longer than seven characters. |
| `Colors.WhiteInBothBranches` | utils.py:16-20 | The two branches differ in letter case: white is `#ffffff` as a tuple and `#FFFFFF` from the table. |
| `HexFormat.FormatFixedWidth` | utils.py:18-20 | `FormatHex`, the model of `{:0wx}`/`{:0wX}`, of a value below 16^w is exactly w digits of the chosen case, and they parse back to the value. |
| `HexFormat.ParseDigits` | utils.py:18-20 | Reading hex digits back yields the number formatted. |
| `Geo.XyToLatLong` | utils.py:23-39 | Fails with a division by zero exactly when the cosine of the anchor latitude is 0. Otherwise it returns one `[long, lat]` per vertex, in input order, and vertex (0,0) goes to exactly `[longp, latp]` for any rotation and scales. Each vertex is placed by `PlaceVertex` with the longitude factor `Gx` (utils.py:26), which is positive and satisfies `gx·|cos(latp)| = gy`. |
| `Geo.PlaceAll` | utils.py:27-38 | The loop yields one position per vertex, in input order. Each position is `PlaceVertex` of that vertex alone: scale, rotate, then add `degrees(xr·gx)` and `degrees(yr·gy)` to the anchor. |
| `Geo.LatLongToXy` | utils.py:42-48 | One `(x, y)` per point, in input order. Each is `PlanePoint` of that point: `-R·radians(longp - lon)·cos(radians(latp))` and `-R·radians(latp - lat)`. The anchor `[longp, latp]` maps to (0,0). |
| `Geo.RotationPreservesLength` | utils.py:29-33 | The rotation step keeps the Euclidean length of the scaled vector, given `sin² + cos² = 1`. |
| `Geo.UnrotatedAxesSeparate` | utils.py:29-37 | With `rot = 0` and unit scales, longitude is `longp + degrees(x·gx)` and latitude is `latp + degrees(y·gy)`. |
| `Geo.UnrotatedOffsetsIndependent` | utils.py:29-37 | With `rot = 0` and unit scales, equal x gives equal longitude and equal y gives equal latitude. |
| `Geo.EastStaysEast` | utils.py:29-37 | Without rotation and with unit scales, a vertex due east of the design point (x > 0, y = 0) lands east of the anchor at the same latitude. |
| `Geo.PointRoundTrip` | utils.py:23-48 | If the anchor latitude has a positive cosine, `latlong2xy` of `xy2latlong` returns the scaled, rotated vertex. |
| `Geo.PointRoundTripMirrored` | utils.py:26-45 | If that cosine is negative, the `fabs` in `xy2latlong` is not undone, and x comes back negated. |
| `Geo.PlaneRoundTripMirrored` | utils.py:26-46 | If the cosine of the anchor latitude is negative, `xy2latlong` of `latlong2xy` reflects the longitude about the anchor (`2·longp − lon`) and keeps the latitude. |
| `Geo.PlaneRoundTrip` | utils.py:23-48 | Without rotation or scaling, and if the anchor latitude has a positive cosine, `xy2latlong` of `latlong2xy` returns the geographic point. |
| `Geo.ListRoundTrip` | utils.py:23-48 | With `rot = 0`, unit scales and a positive cosine, `latlong2xy(xy2latlong(v)) = v` for every vertex list. |
| `Geo.ListRoundTripFromGeographic` | utils.py:23-48 | Under the same conditions, `xy2latlong(latlong2xy(p)) = p` for every point list. |
| `Text.RemoveAll` | views.py:12 | The model of `str.replace(p, "")` for a non-empty `p`. Its result is never longer than its input. Its full behaviour is pinned down by `Text.RemoveAllAbsent` and `Text.RemoveAllLeftmost`. |
| `Text.RemoveAllAbsent` | views.py:12 | `replace("htmx/", "")` leaves a string with no occurrence unchanged. |
| `Text.RemoveAllLeftmost` | views.py:12 | The replacement deletes the leftmost occurrence and then continues after it, so deletions never overlap. |
| `Text.RemoveAllNotIdempotent` | views.py:12 | Removal can reassemble the pattern: `"hhtmx/tmx/"` becomes `"htmx/"`, so a second pass changes it again. |
| `Views.TemplateNames` | views.py:10-14 | Exactly one name. An htmx request gets the template unchanged. Any other request gets it with every `htmx/` removed, and it is unchanged if it has none. |
| `Views.HtmxDirectoryDropped` | views.py:10-14 | Take a name `dir + "htmx/" + page` whose only `htmx/` is that one. It renders as `dir + page` for a full page and stays as it is for htmx. |
| `Views.Queryset` | views.py:22-27 | The listing is never longer than the table. Its contents, order and union shape are stated by `Views.QuerysetMembers`, `Views.QuerysetKeepsOrder` and `Views.QuerysetIsUnion`. |
| `Views.QuerysetMembers` | views.py:22-27 | Anonymous visitors get exactly the non-private drawings. A logged-in user gets the non-private drawings plus their own private ones, and never another user's private drawing. |
| `Views.OwnPrivate` | views.py:25 | The second query holds exactly the caller's private drawings. |
| `Views.QuerysetKeepsOrder` | views.py:22-27 | The listing keeps table order: listing `a + b` gives the listing of `a` followed by the listing of `b`. |
| `Views.QuerysetIsUnion` | views.py:23-26 | As a multiset, a logged-in user's listing is the public listing plus that user's private drawings. The union of the two queries is disjoint. |
| `Views.Usernames` | views.py:31 | The username of each drawing's author, one per drawing, in table order. |
| `Views.Deduplicate` | views.py:32 | `dict.fromkeys` keeps each element once and loses none. The order follows the elements' first occurrences in the input. |
| `Views.Authors` | views.py:29-32 | Each author is listed once. Every author of any drawing is listed, and only authors of drawings are listed. |
| `Views.AuthorsCoverListing` | views.py:22-32 | Whoever asks, the author of every listed drawing is in the author list. |
| `Views.AuthorsIncludePrivateOnlyAuthors` | views.py:23-31 | The author list is built from all drawings, so it names an author whose only drawing is private, even for an anonymous visitor. |

## Left out

- `check_wide_image` (utils.py:51-67): image processing and file-system I/O.
- The module-level UTM reference-system lookup (utils.py:70-79): a query to a projection database with a fixed area of interest.
- Floating-point rounding: the conversions are stated over exact reals. They are not bit-exact models of IEEE doubles.
- `sin` and `cos` are parameters constrained only by `Angles.Valid`. No numeric accuracy is modelled.
- The default-colour table is a parameter `palette` of 24-bit values. Its 256 actual entries are not reproduced.
- `Colors.Cad2Hex`: the colour is a three-component true colour or an integer index. Longer tuples and non-integer values are not modelled; for those the source either ignores extra components or raises.
- `Geo.XyToLatLong`: a vertex is its first two components. A z component is ignored by the source and is absent here. Vertices with fewer than two components raise in the source and are not modelled.
- `Geo.LatLongToXy`: a point is its first two components. The source ignores any further components. Points with fewer than two components raise IndexError in the source, and that case is not modelled.
- `Views.TemplateNames`: the template name is assumed to be a configured string. With Django's default `template_name = None`, a non-htmx request raises AttributeError and an htmx request returns `[None]`; neither case is modelled.
- `Views.Queryset`: its own contract states only the length bound. What it lists is stated by the lemmas about it, because putting membership into the recursive function's contract makes the order proof too costly.
- `Text.RemoveAll`: its own contract states only the length bound. The lemmas about it state its behaviour.
- Listing order: the model uses table order for the listing. The model class declares no ordering, so the database order is whatever the sequence holds.
- The `mapbox_token` setting lookup in `get_context_data`: configuration.
- `Drawing.save`, the `__original_*` shadow fields and `Layer.__str__` (models.py): file storage and thumbnails. `Layer.__str__` returns the bare name, while its unit test expects `Layer-<id>`.
- Admin, forms, URL configuration, app setup, migrations and the map scripts: declarative configuration and UI.
- Extraction, insertion re-sync, regeneration and staleness tracking: none of that logic is present in the modelled files. The models they use (`Insertion`, `Dxf2Csv`) are not part of this model.
