# CreateBeamAxis: geometry and settings utilities, modelled in Dafny

CreateBeamAxis is a Revit add-in. The user picks a road-axis polyline and a set of
section lines, and the add-in keeps them in its settings. It is named for drawing beam
axes between them, but the code contains no such step (see below). Its modelled logic
is in `RevitGeometryUtils` and covers four things:

- **The settings text for a selection.** The ids of the picked elements are saved as
  text such as `"Id123, Id456"` and read back when the add-in opens again.
  `ElementIdToString` writes this text and `GetIdsByString` reads it.
  `GetStartLine` writes a single id in the same form, and `GetStartLineById` reads the
  first id back.
- **Splitting a polyline into segments** (`GetCurvesByPolyline`).
- **Flattening DirectShape geometry into a curve list** (`GetCurvesByDirectShapes`).
  Each polyline is replaced in place by its segments. Each curve is kept. Anything else
  becomes a `null` entry, which `GetCurvesById` drops afterwards (not modelled).
- **The existence check** (`IsElemsExistInModel`). It asks whether every saved id still
  names an element of exactly the wanted class. `RevitModelForfard` combines it with the
  reader in `IsLinesExistInModel` and `IsProfileLinesExistInModel`.

Files and modules:

- `wrappers.dfy` (`Wrappers`): `Option`, whose `None` stands for a C# `null`, and
  `Result`, whose `Err` carries a thrown exception.
- `net_runtime.dfy` (`NetRuntime`): the .NET pieces the text format relies on.
  This is `Int32`, `Int32.ToString()` and `int.Parse`, in the invariant culture.
  `int.Parse` is modelled with the grammar of `NumberStyles.Integer`: white space, an
  optional `+` or `-`, one or more ASCII digits, white space, then NUL characters.
  Other text gives `FormatException`. A value outside the 32-bit range gives
  `OverflowException`.
- `element_ids.dfy` (`ElementIds`): the selection text format.
- `curve_extraction.dfy` (`CurveExtraction`): the polyline and DirectShape geometry code.
- `element_check.dfy` (`ElementCheck`): `IsElemsExistInModel`.
- `revit_model.dfy` (`RevitModel`): the two settings checks of `RevitModelForfard`.

Host calls are replaced by plain values:

- The document is a map from element id to the element's run-time class.
  `doc.GetElement(id)` is a lookup in it, and a missing key is `null`.
- `DirectShape.get_Geometry(options)` is given as the sequence of geometry objects of
  each shape.
- `Line.CreateBound(p, q)` is the value `Line(p, q)`.
- Points are integer triples. Only their order and adjacency matter here.
- A Dafny `string` is a sequence of Unicode scalar values; a .NET `string` is a sequence
  of UTF-16 code units, in which a character outside the Basic Multilingual Plane takes
  two. `String.Length` and `String.Remove(0, 2)` are modelled on code units
  (`NetRuntime.Utf16Length`, `ElementIds.ParseToken`). Splitting and `int.Parse` give the
  same result on either view, since separators, digits, signs and white space are all
  single code units and no surrogate is one of them.

The region of `RevitModelForfard` headed "creation of the block axes"
(`CreateBeamAxis/Models/RevitModelForfard.cs:105-107`) is empty: the code draws no beam
axes. The model follows the code, so it has no beam-axis synthesis.

## Model

| member | source | states |
|---|---|---|
| `NetRuntime.NatDigits` | CreateBeamAxis/Models/RevitGeometryUtils.cs:144 | the decimal text of a non-negative id is non-empty digits that read back as the same number, with a leading `0` only for zero; it is one digit exactly below 10, and zero is written `0` |
| `NetRuntime.FormatInt32` | CreateBeamAxis/Models/RevitGeometryUtils.cs:144 | `Int32.ToString()` writes only digits and `-`, never a separator, and starts with `-` exactly for negative values |
| `NetRuntime.ParseInt32` | CreateBeamAxis/Models/RevitGeometryUtils.cs:119 | `int.Parse` fails only with `FormatException` or `OverflowException`; text without a digit is always a `FormatException` |
| `NetRuntime.ParseMagnitude` | CreateBeamAxis/Models/RevitGeometryUtils.cs:119 | the unsigned part of `int.Parse` fails only with a format or overflow error, and always with a format error when there is no digit |
| `NetRuntime.ParseFormat` | CreateBeamAxis/Models/RevitGeometryUtils.cs:119 | `int.Parse(n.ToString()) == n` for every 32-bit `n`, negative values and `Int32.MinValue` included |
| `NetRuntime.ParseDigits` | CreateBeamAxis/Models/RevitGeometryUtils.cs:119 | a run of digits, with an optional minus sign, reads as its value when that value is in range |
| `NetRuntime.ParseOverflow` | CreateBeamAxis/Models/RevitGeometryUtils.cs:119 | a well-formed number above `Int32.MaxValue` throws `OverflowException` |
| `NetRuntime.ParseUnderflow` | CreateBeamAxis/Models/RevitGeometryUtils.cs:119 | a well-formed negative number below `Int32.MinValue` throws `OverflowException` |
| `NetRuntime.Utf16Length` | CreateBeamAxis/Models/RevitGeometryUtils.cs:119 | `String.Length` counts UTF-16 code units: at least one per character and at most two, and exactly one per character when all are in the Basic Multilingual Plane |
| `ElementIds.IsSeparator` | CreateBeamAxis/Models/RevitGeometryUtils.cs:118 | the separators `,` and space are single UTF-16 code units, so splitting on characters and on code units agree |
| `ElementIds.Split` | CreateBeamAxis/Models/RevitGeometryUtils.cs:118 | splitting on `,` and space with `RemoveEmptyEntries` yields only non-empty tokens free of separators |
| `ElementIds.SplitKeepsEverythingElse` | CreateBeamAxis/Models/RevitGeometryUtils.cs:118 | the tokens, put back together, are exactly the non-separator characters of the text in order |
| `ElementIds.SplitAtSeparator` | CreateBeamAxis/Models/RevitGeometryUtils.cs:118 | a separator cuts the text in two: the tokens of `a + sep + b` are the tokens of `a` followed by those of `b` |
| `ElementIds.SeparatorRunsCollapse` | CreateBeamAxis/Models/RevitGeometryUtils.cs:118 | a run of separators acts as one, so extra commas or spaces change nothing |
| `ElementIds.SplitOfSeparators` | CreateBeamAxis/Models/RevitGeometryUtils.cs:118 | text made only of separators has no tokens |
| `ElementIds.SplitOfToken` | CreateBeamAxis/Models/RevitGeometryUtils.cs:118 | a non-empty text without separators is a single token |
| `ElementIds.SplitWithTrailingToken` | CreateBeamAxis/Models/RevitGeometryUtils.cs:118 | appending `", c"` to any text adds exactly the one token `c` at the end |
| `ElementIds.SplitJoin` | CreateBeamAxis/Models/RevitGeometryUtils.cs:118-145 | splitting undoes `string.Join(", ", parts)` when no part is empty or holds a separator |
| `ElementIds.IdText` | CreateBeamAxis/Models/RevitGeometryUtils.cs:70 | the text of one id starts with `Id`, is longer than two characters and holds no separator |
| `ElementIds.Join` | CreateBeamAxis/Models/RevitGeometryUtils.cs:145 | `string.Join(", ", …)` adds nothing but separators: without them it is the parts put together |
| `ElementIds.ElementIdToString` | CreateBeamAxis/Models/RevitGeometryUtils.cs:142-148 | the settings text is empty exactly when the selection is empty |
| `ElementIds.SelectionTokens` | CreateBeamAxis/Models/RevitGeometryUtils.cs:142-148 | the tokens of the settings text are `Id` plus each id's text, one per id, in selection order |
| `ElementIds.ParseToken` | CreateBeamAxis/Models/RevitGeometryUtils.cs:119 | `Remove(0, 2)` throws `ArgumentOutOfRangeException` exactly for tokens shorter than two UTF-16 code units (two characters for text of the Basic Multilingual Plane); any other failure is a parse failure |
| `ElementIds.ParseBmpToken` | CreateBeamAxis/Models/RevitGeometryUtils.cs:119 | a token starting with two single-code-unit characters is parsed from its third character on, whatever those two are |
| `ElementIds.AstralPrefixExample` | CreateBeamAxis/Models/RevitGeometryUtils.cs:119 | a character outside the Basic Multilingual Plane is two code units, so `"\U{1F600}12"` reads as the single id 12 |
| `ElementIds.ParseAll` | CreateBeamAxis/Models/RevitGeometryUtils.cs:118-120 | the read succeeds exactly when every token parses, and then gives one id per token, in token order; otherwise it throws one of the token-level exceptions |
| `ElementIds.ParseAllFirstError` | CreateBeamAxis/Models/RevitGeometryUtils.cs:119-120 | when tokens fail, the exception thrown is the one of the first failing token |
| `ElementIds.ReadSingleToken` | CreateBeamAxis/Models/RevitGeometryUtils.cs:111-123 | text that is one token reads as that token's id, or throws that token's exception |
| `ElementIds.GetIdsByString` | CreateBeamAxis/Models/RevitGeometryUtils.cs:111-123 | `null` or empty text, and only that, reads as `null`; other text reads successfully exactly when every token parses, and then as one id per token, in order; the only exceptions are `ArgumentOutOfRangeException`, `FormatException` and `OverflowException` |
| `ElementIds.IdsRoundTrip` | CreateBeamAxis/Models/RevitGeometryUtils.cs:111-148 | reading what `ElementIdToString` wrote gives back the same ids in order, negative ids included, except that an empty selection reads back as `null` |
| `ElementIds.PrefixNotChecked` | CreateBeamAxis/Models/RevitGeometryUtils.cs:119 | the two leading characters of a token are never checked: any two single-code-unit non-separators read like `Id` |
| `ElementIds.PrefixExample` | CreateBeamAxis/Models/RevitGeometryUtils.cs:119 | `"Xy12"` reads as the single id 12 |
| `ElementIds.SeparatorsGiveEmptyList` | CreateBeamAxis/Models/RevitGeometryUtils.cs:113-120 | text made only of commas and spaces reads as an empty list, not as `null` |
| `ElementIds.ShortTokenFails` | CreateBeamAxis/Models/RevitGeometryUtils.cs:119 | one token of a single character makes the whole read throw, even after valid ids: `ArgumentOutOfRangeException` for a one-code-unit character, `FormatException` for a surrogate pair |
| `ElementIds.PrefixedNumberIsToken` | CreateBeamAxis/Models/RevitGeometryUtils.cs:144 | two non-separators followed by a number's text contain no separator, so they stay one token |
| `ElementIds.TooLargeIdFails` | CreateBeamAxis/Models/RevitGeometryUtils.cs:119 | a token whose number is above the 32-bit range makes the read throw `OverflowException` |
| `ElementIds.TooSmallIdFails` | CreateBeamAxis/Models/RevitGeometryUtils.cs:119 | a token whose number is below the 32-bit range, such as `Id-2147483649`, makes the read throw `OverflowException` |
| `ElementIds.StartLineTextIsListText` | CreateBeamAxis/Models/RevitGeometryUtils.cs:70 | `GetStartLine` writes one id exactly as `ElementIdToString` writes a one-element selection |
| `ElementIds.StartLineId` | CreateBeamAxis/Models/RevitGeometryUtils.cs:79 | `First()` of the read ids: null or empty text throws `ArgumentNullException`, an empty list throws `InvalidOperationException`, a read error is passed on; it succeeds exactly when the read gives a non-empty list, and returns that list's first id |
| `ElementIds.StartLineRoundTrip` | CreateBeamAxis/Models/RevitGeometryUtils.cs:62-87 | the id `GetStartLine` saves is the id `GetStartLineById` reads back |
| `CurveExtraction.PolylineSegments` | CreateBeamAxis/Models/RevitGeometryUtils.cs:175-186 | `n` points give `max(n - 1, 0)` segments; segment `i` runs from point `i` to point `i + 1`, so each segment ends where the next one starts |
| `CurveExtraction.VerticesOfSegments` | CreateBeamAxis/Models/RevitGeometryUtils.cs:175-186 | the points of a polyline with at least two points are recovered from its segments, in order |
| `CurveExtraction.GetCurvesByPolyline` | CreateBeamAxis/Models/RevitGeometryUtils.cs:175-186 | the loop builds exactly one line per pair of consecutive coordinates, in order |
| `CurveExtraction.Geometries` | CreateBeamAxis/Models/RevitGeometryUtils.cs:156 | `SelectMany` puts the first shape's geometry first, and shapes with no geometry give none |
| `CurveExtraction.GeometriesAppend` | CreateBeamAxis/Models/RevitGeometryUtils.cs:156 | flattening keeps shape order: the geometry of two runs of shapes is that of the first run followed by that of the second |
| `CurveExtraction.AsCurve` | CreateBeamAxis/Models/RevitGeometryUtils.cs:167 | `geom as Curve` is the curve for a curve and `null` for anything else |
| `CurveExtraction.Contribution` | CreateBeamAxis/Models/RevitGeometryUtils.cs:160-168 | one item adds `max(points - 1, 0)` entries if it is a polyline and one otherwise, with a `null` among them exactly when it is neither a polyline nor a curve |
| `CurveExtraction.CurvesOf` | CreateBeamAxis/Models/RevitGeometryUtils.cs:158-169 | the curve list of a run of geometry, item by item; its length is the sum over items of `max(points - 1, 0)` for a polyline and 1 for anything else |
| `CurveExtraction.CurvesOfAppend` | CreateBeamAxis/Models/RevitGeometryUtils.cs:158-169 | the curves of two runs of geometry are the curves of the first run followed by those of the second |
| `CurveExtraction.AsEntries` | CreateBeamAxis/Models/RevitGeometryUtils.cs:163 | `AddRange` of a polyline's segments adds one non-null entry per segment, in order |
| `CurveExtraction.CurvesOfSingle` | CreateBeamAxis/Models/RevitGeometryUtils.cs:158-169 | one geometry object adds exactly its own contribution |
| `CurveExtraction.CurvesAround` | CreateBeamAxis/Models/RevitGeometryUtils.cs:158-169 | the list for `before + [item] + after` is the list for `before`, then the item's entries, then the list for `after` |
| `CurveExtraction.ContributionInPlace` | CreateBeamAxis/Models/RevitGeometryUtils.cs:156-169 | order is kept: an item's entries form one block that starts right after the entries of the items before it |
| `CurveExtraction.NullMarksNonCurve` | CreateBeamAxis/Models/RevitGeometryUtils.cs:167 | the list holds a `null` exactly when some geometry object is neither a polyline nor a curve |
| `CurveExtraction.GetCurvesByDirectShapes` | CreateBeamAxis/Models/RevitGeometryUtils.cs:151-172 | the loop builds the item-by-item curve list of the shapes' geometry, and its length is the sum of the items' counts |
| `CurveExtraction.ShapesAppend` | CreateBeamAxis/Models/RevitGeometryUtils.cs:151-169 | the curves of two runs of shapes are those of the first run followed by those of the second |
| `ElementCheck.IsElemsExistInModel` | CreateBeamAxis/Models/RevitGeometryUtils.cs:90-108 | false for a `null` list, true for an empty one, otherwise true exactly when every id is in the document with exactly the requested class |
| `ElementCheck.AllOfClassAppend` | CreateBeamAxis/Models/RevitGeometryUtils.cs:97-105 | a list passes the check exactly when both of its parts pass |
| `ElementCheck.ExactClassOnly` | CreateBeamAxis/Models/RevitGeometryUtils.cs:101 | classes are compared by exact equality, so a non-empty list passes for one class only |
| `RevitModel.RevitModelForfard.constructor` | CreateBeamAxis/Models/RevitModelForfard.cs:26-32 | the model keeps the active document |
| `RevitModel.RevitModelForfard.IsLinesExistInModel` | CreateBeamAxis/Models/RevitModelForfard.cs:35-40 | empty or `null` settings give false; a read error is passed up as the same exception; otherwise true exactly when the saved ids all name DirectShape elements |
| `RevitModel.RevitModelForfard.IsProfileLinesExistInModel` | CreateBeamAxis/Models/RevitModelForfard.cs:97-102 | empty or `null` settings give false; a read error is passed up as the same exception; otherwise true exactly when the saved ids all name ModelLine elements |

## Left out

- Interactive selection is not modelled: `GetCurvesByRectangle`, `GetCurvesByLines`, `GetStartLine`'s `PickObject` and the selection filters. These are host UI calls. Only the id text that `GetStartLine` writes is modelled.
- `GetCurvesById` is not modelled. It looks each id up as a `DirectShape`, runs `GetCurvesByDirectShapes` on them, then drops the `null` entries with `OfType<Curve>()`. So when the road axis is restored from settings, only curves reach the caller; this filtering step is not part of the model.
- `GetProfileLinesById` is not modelled. It looks the ids up, takes the first geometry object of each element and keeps it only when it is a `Line` (`OfType<Line>()`). It also reads the sketch plane of the first element. The lookup, the first-object choice and the filtering are not part of the model.
- The element lookup and the geometry read in `GetStartLineById` are not modelled; only the id it reads from the text is.
- `Line.CreateBound` rejects lines shorter than the host's tolerance, including a segment between two equal consecutive points. This check belongs to the host geometry kernel, so `GetCurvesByPolyline` here builds every segment.
- Coordinates are doubles in the source and integers here. No arithmetic is done on them in the modelled code.
- A `null` DirectShape passed to `GetCurvesByDirectShapes` would make `get_Geometry` throw `NullReferenceException`. The model takes each shape's geometry as given.
- `int.Parse` and `Int32.ToString` follow the current culture in .NET. The model uses the invariant culture's signs (`-`, `+`).
- `MainWindowViewModel` is not modelled. It holds WPF commands, window handling and the `Properties.Settings` persistence.
- `RevitModelForfard`'s other members are not modelled: picking, `PolyCurve` construction and restoring from settings. The `PolyCurve` type is not part of this model.
- Beam-axis generation is absent from this code (see above), so nothing of it is modelled.
