# KMZ tools: a Dafny model of the three KMZ processing algorithms

This project models the three processing algorithms of the KMZ tools plugin for QGIS. Each one assembles a
KMZ archive, which is a zip holding a KML document called `doc.kml` and, optionally, photos under `Photos/`.

- **Image Layer to KMZ with Photos** (`image_layer_to_kmz_algorithm.py`).
  - A staging pass copies every feature's photo and records the names in `copied_photos`.
  - The KML pass then writes one Placemark per feature that has a non-empty geometry:
    - an escaped name;
    - a CDATA description, holding an attribute table and the photo's `<img>` tag;
    - the geometry element.
  - The archive holds `doc.kml` and then every staged photo.
- **Package Layers to KMZ** (`package_layers_algorithm.py`).
  - Every vector or raster layer is exported to its own KML file in a temporary directory. Its name comes from the sanitised layer name plus a unique number.
  - The first `<Folder>…</Folder>` block of each exported file is spliced into one master document. Its name is the output file's stem.
- **Geotagged Images to KMZ** (`geotagged_images_algorithm.py`).
  - The images of a folder whose EXIF data carry a complete GPS fix become records.
  - Each record has a name, a decimal coordinate pair and a reformatted time stamp.
  - The images are copied, and a Point Placemark is to be written per record.

Modules:

- `Wrappers`: Option and Result.
- `Seqs`: `Somes` filters and maps a sequence through an Option-valued function, with position lemmas. `SomeSet` is the same into a set.
- `Text`: Python string operations (`join`, `split`, `replace`, `strip`, `lower`, `str(int)`) and `xml.sax.saxutils.escape`.
- `Paths`: `basename`, `splitext(...)[0]` and `get_filename_from_path`.
- `Stamps`: `strptime` and `strftime` on the fixed-width EXIF form.
- `Packaging`: archive entries, the cancellation point of a polled loop, and the markup shared by the KML writers.
- `GeometryMarkup`: `geometry_to_kml_coordinates` and `geometry_to_kml_element`.
- `ImageLayer`, `PackageLayers`, `Geotagged`: the three algorithms.

Calls into the host become parameters of the model:

- `canceled(i)` is `feedback.isCanceled()` before step `i`.
- `fileExists(p)` is `os.path.exists`.
- `copyOk(p)` is whether `shutil.copy2` succeeds.
- `exported(l)` is whether the layer's vector writer or GDAL export left a non-empty KML file.
- `read(p)` is the file's text.
- `exifOf(f)` is the dictionary `get_exif_data` returns.
- `zipOpens` is whether the output zip can be created.
- `fmt(x)` is Python's `f"{x}"` on a float.
- The coordinate transform is a function on vertices.
- The layer's unique number is the `uid` field, standing for `id(layer)`.

Loops in the source are methods with loop invariants. Each method's postcondition ties its result to a
specification function, and the properties of those functions are proved as lemmas.

Behaviour modelled as the code has it:

- A feature with an unsupported geometry type still gets a Placemark, with an empty geometry element. Only an empty geometry is skipped: a line without vertices, or a polygon without an outer ring or whose outer ring has no vertex, as QGIS's `isEmpty` defines it.
- The staging pass strips the photo path but the KML pass does not. The KML pass's file name drops anything before the last separator, so leading whitespace in a path with a directory is harmless. But a path that ends in whitespace, or a bare file name that starts with it, is staged under the stripped name and looked up under the unstripped one, so its photo is not shown (`TrailingBlankNotReferenced`).
- In the layer packager, a fragment without a `<Folder>` block makes `.group(0)` fail. The failure is re-raised as a processing error, so it aborts the whole KMZ rather than dropping one layer (`MissingFolderAbortsKmz`).
- Truncation to 50 characters happens after stripping. So a sanitised name can end in a dot (`TruncationCanEndInDot`).
- The geotagged `create_kml_content` reads `feature['description']`, but the records built in `processAlgorithm` have no such key. The record carries an explicit optional description.
  - Every run with at least one record fails with that `KeyError` before any archive is written (`ScannedRecordsLackDescription`, `NoGeoOutcome`).
  - The geotagged algorithm is not registered by the plugin's provider, which is in keeping with this.
- Neither the geotagged document (layer name and Placemark names) nor the master document name is escaped.

## Model

| member | source | states |
|---|---|---|
| Paths.FileNameFromPath | image_layer_to_kmz_algorithm.py:109-114 | None exactly for the empty path; otherwise a suffix of the path with neither `/` nor `\`, preceded in the path by one of them unless it is the whole path |
| Paths.BaseName | image_layer_to_kmz_algorithm.py:114 | the result is a separator-free suffix, preceded by `/` unless it is the whole path |
| Paths.PlainFileName | image_layer_to_kmz_algorithm.py:109-114 | a non-empty name without separators is its own file name |
| Text.ReplaceChar | image_layer_to_kmz_algorithm.py:114 | replacing by one character keeps the length and changes exactly the positions holding the old character |
| Text.EscapeIsPerCharacter | image_layer_to_kmz_algorithm.py:182 | the three successive replacements of `escape` equal escaping each character on its own |
| Text.EscapedHasNoTags | image_layer_to_kmz_algorithm.py:182 | escaped text contains no `<` and no `>` |
| Text.UnescapeEscape | image_layer_to_kmz_algorithm.py:182 | escaping can be undone: decoding the three entities gives the original text back |
| GeometryMarkup.JoinedTriples | image_layer_to_kmz_algorithm.py:126-130 | the loop yields the space-joined `x,y,0` triples of the vertices, in order |
| GeometryMarkup.GeometryToKmlCoordinates | image_layer_to_kmz_algorithm.py:116-139 | the coordinate string of the transformed geometry: a point's triple, the line's triples, the outer ring only, or `""` for an empty polygon or other type |
| GeometryMarkup.CoordinatesAreVertexTriples | image_layer_to_kmz_algorithm.py:123-139 | every branch writes the space-joined triples of the written vertices (point, line, or outer ring) |
| GeometryMarkup.CoordinatesRoundTrip | image_layer_to_kmz_algorithm.py:126-137 | splitting the coordinate string on spaces, then commas, gives back one `[x, y, "0"]` per written vertex, in order |
| GeometryMarkup.GeometryToKmlElement | image_layer_to_kmz_algorithm.py:141-166 | the element is empty exactly for an unsupported geometry type |
| GeometryMarkup.TransformAppliedOnce | image_layer_to_kmz_algorithm.py:141-147 | passing a transform equals transforming first and passing none: the transform is applied once |
| GeometryMarkup.TransformKeepsShape | image_layer_to_kmz_algorithm.py:118-119 | transforming keeps the geometry's type, its emptiness and the number of written vertices, and maps each vertex through the transform |
| ImageLayer.StagedName | image_layer_to_kmz_algorithm.py:284-297 | a staged name is non-empty, separator-free, the file name of the stripped path, and that path exists and its copy succeeded |
| ImageLayer.StagedWhenCopied | image_layer_to_kmz_algorithm.py:286-294 | conversely, a truthy photo whose stripped path exists and copies is staged |
| ImageLayer.StagedSetMembers | image_layer_to_kmz_algorithm.py:280-303 | a name is in `copied_photos` exactly when some visited feature's photo was staged under it |
| ImageLayer.StagePhotos | image_layer_to_kmz_algorithm.py:280-303 | the loop stops at the first cancellation, collects the staged names of the visited features, and reports `(k+1)*50/total` after feature `k` |
| ImageLayer.StagingProgressBounded | image_layer_to_kmz_algorithm.py:302-303 | staging progress never decreases and stays at most 50 |
| Packaging.CancelPoint | image_layer_to_kmz_algorithm.py:280-282 | the number of steps run is the first canceled step, or all of them |
| Packaging.ZipEntries | image_layer_to_kmz_algorithm.py:319-327 | `doc.kml` first, then `Photos/<name>` once for each staged name and nothing else |
| Packaging.PhotoEntryInjective | image_layer_to_kmz_algorithm.py:327 | distinct photos have distinct archive paths, none of them `doc.kml` |
| ImageLayer.CreateFeatureDescription | image_layer_to_kmz_algorithm.py:168-191 | the description is the join of the table parts (when attributes are included) and the image part |
| ImageLayer.AppendRows | image_layer_to_kmz_algorithm.py:176-182 | the field loop appends exactly the rows of the fields that get one, in field order |
| ImageLayer.DescriptionShowsPhoto | image_layer_to_kmz_algorithm.py:187-191 | an image tag is in the description exactly when a non-empty file name is given, and it is that file's tag, last |
| ImageLayer.TableHasNoImgTag | image_layer_to_kmz_algorithm.py:172-185 | no part of the attribute table is an image tag |
| ImageLayer.RowIsNoImgTag | image_layer_to_kmz_algorithm.py:182 | an attribute row is never an image tag |
| ImageLayer.RowPerField | image_layer_to_kmz_algorithm.py:176-182 | every non-photo field with a non-null value gets its row, at its place in field order |
| ImageLayer.RowsOnlyFromFields | image_layer_to_kmz_algorithm.py:176-182 | every row is the row of such a field |
| ImageLayer.RowCellsInert | image_layer_to_kmz_algorithm.py:179-182 | both cells of a row are free of `<` and `>`, and the value cell decodes back to the value's text |
| ImageLayer.FirstNameField | image_layer_to_kmz_algorithm.py:222-225 | the position of the first non-photo, non-null field, or the field count |
| ImageLayer.FeatureName | image_layer_to_kmz_algorithm.py:221-225 | without a naming field, the name is `Feature <id>` |
| ImageLayer.FeatureNameIsFirstCandidate | image_layer_to_kmz_algorithm.py:221-225 | otherwise it is the value of the first naming field |
| ImageLayer.ChooseFeatureName | image_layer_to_kmz_algorithm.py:221-225 | the naming loop with `break` computes that name |
| ImageLayer.KmlPhotoReference | image_layer_to_kmz_algorithm.py:207-218 | a photo is referenced exactly when the value is truthy and not blank and the unstripped path's non-empty file name is staged, and then it is that file name |
| ImageLayer.PlacemarkFor | image_layer_to_kmz_algorithm.py:202-238 | no Placemark exactly for an empty geometry (a line without vertices, a polygon whose outer ring is missing or has no vertex); otherwise the photo is the feature's KML photo reference (a staged name or none), an empty element exactly for an unsupported type, the chosen name, and the description of that photo |
| ImageLayer.RenderPlacemark | image_layer_to_kmz_algorithm.py:203-238 | the loop body builds exactly that Placemark |
| ImageLayer.CreateKmlContent | image_layer_to_kmz_algorithm.py:193-242 | the document is the header, the Placemarks of the features in order, and the footer |
| ImageLayer.PlacemarkPerFeature | image_layer_to_kmz_algorithm.py:202-238 | every feature with a non-empty geometry contributes its Placemark, at its place in feature order |
| ImageLayer.EmptyGeometrySkipped | image_layer_to_kmz_algorithm.py:203-205 | a feature with an empty geometry contributes nothing |
| ImageLayer.OnePlacemarkEach | image_layer_to_kmz_algorithm.py:202-238 | with no empty geometry, there is one Placemark per feature |
| ImageLayer.NoDanglingReference | image_layer_to_kmz_algorithm.py:211-218 | every photo a Placemark shows is a non-empty staged name |
| ImageLayer.PlacemarkFromFeature | image_layer_to_kmz_algorithm.py:202-238 | every Placemark is the one built for some feature |
| ImageLayer.TrailingBlankNotReferenced | image_layer_to_kmz_algorithm.py:211-218 | a photo path `"a.jpg "` is staged as `a.jpg`, yet its Placemark shows no photo |
| ImageLayer.BlankKeptInFileName | image_layer_to_kmz_algorithm.py:211-212 | the KML pass takes the file name of the unstripped path |
| ImageLayer.StripTrailingBlank | image_layer_to_kmz_algorithm.py:286-288 | the staging pass strips the trailing blank |
| ImageLayer.CleanPathReferenced | image_layer_to_kmz_algorithm.py:211-218 | a staged photo whose path needs no stripping is referenced under its staged name |
| ImageLayer.LayerToKmz | image_layer_to_kmz_algorithm.py:244-339 | the three input errors in order; then the archive error exactly when the output zip cannot be created; otherwise, and only then, an archive built from the staged set, the document, and the staging progress |
| ImageLayer.ShownPhotoPackaged | image_layer_to_kmz_algorithm.py:319-327 | every photo a Placemark shows has its entry in the archive |
| ImageLayer.ShownPhotoCopied | image_layer_to_kmz_algorithm.py:286-297 | and it was copied from an existing path while staging a feature visited before cancellation |
| PackageLayers.ReplaceReserved | package_layers_algorithm.py:333 | the length is kept, no reserved character remains, every reserved character becomes `_` and every other character is unchanged |
| Text.Strip | package_layers_algorithm.py:335 | the result is the slice between the dropped leading and trailing runs; it neither starts nor ends with a dropped character |
| PackageLayers.SanitizeFilename | package_layers_algorithm.py:329-340 | non-empty, at most 50 characters, no reserved character, not starting with a space or dot; `layer` exactly when nothing is left after stripping; otherwise exactly the stripped name cut to its first 50 characters, so a result shorter than 50 does not end in a space or dot |
| PackageLayers.SanitizedIsSlice | package_layers_algorithm.py:329-340 | unless nothing is left, the result is the stretch of the name (reserved characters replaced) that starts right after its leading spaces and dots; when shorter than 50 only spaces and dots follow it |
| PackageLayers.SanitizeKeepsCleanName | package_layers_algorithm.py:329-340 | a short name with no reserved character and no leading or trailing space or dot is kept |
| PackageLayers.SanitizeBlankName | package_layers_algorithm.py:335-340 | a name of spaces and dots becomes `layer` |
| PackageLayers.TruncationCanEndInDot | package_layers_algorithm.py:335-338 | truncation after stripping can leave a trailing dot |
| PackageLayers.KmlPathsDistinct | package_layers_algorithm.py:197-199 | two layers with the same export path have the same unique number |
| Text.NatTextValue | package_layers_algorithm.py:199 | the printed number reads back as the number |
| PackageLayers.CollectLayers | package_layers_algorithm.py:142-173 | the loop stops at the first cancellation, keeps the existing files of the exported vector and raster layers it visited, and reports `i*90/total` for each visited layer |
| PackageLayers.ProcessedFileFromLayer | package_layers_algorithm.py:151-170 | every kept file exists and is the export path of some vector or raster layer that exported |
| PackageLayers.ExportedLayerKept | package_layers_algorithm.py:168-170 | every such layer's file is kept, at its place in layer order |
| PackageLayers.ProcessedInLayerOrder | package_layers_algorithm.py:142-170 | files of earlier layers come earlier |
| PackageLayers.LayerProgressBounded | package_layers_algorithm.py:146 | layer progress never decreases and stays below 90 |
| PackageLayers.FindFrom | package_layers_algorithm.py:315 | the first occurrence of a tag at or after a position, or None when there is none |
| PackageLayers.FolderSpan | package_layers_algorithm.py:315 | a found span starts with `<Folder>` and ends with `</Folder>` after it |
| PackageLayers.FolderSpanIsRegexMatch | package_layers_algorithm.py:315 | None exactly when no match exists; otherwise the leftmost match start and, there, the shortest match, as the lazy DOTALL search finds |
| PackageLayers.ExtractFolder | package_layers_algorithm.py:315 | a block exactly when the search matches; it starts with `<Folder>` and ends with `</Folder>` |
| PackageLayers.ExtractedBlockIsSlice | package_layers_algorithm.py:315 | the block is a contiguous slice of the file's text |
| PackageLayers.ExtractedBlockIsShortest | package_layers_algorithm.py:315 | no `</Folder>` ends inside the block before its end |
| PackageLayers.AppendFolders | package_layers_algorithm.py:311-317 | the loop succeeds exactly when every existing file holds a block, and then appends the blocks in file order |
| PackageLayers.CreateKmzFile | package_layers_algorithm.py:297-327 | the archive `doc.kml` holding the master document, or the KMZ error when the zip cannot be opened or a block is missing |
| PackageLayers.MissingFolderAbortsKmz | package_layers_algorithm.py:315-327 | one existing file without a block fails the whole KMZ |
| PackageLayers.MasterHoldsEveryBlock | package_layers_algorithm.py:305-320 | when every file exists, the master holds one block per file, in file order |
| PackageLayers.MasterNameIsStem | package_layers_algorithm.py:308 | the master's name is the output file's name without directory and extension |
| PackageLayers.PackageLayersToKmz | package_layers_algorithm.py:112-192 | no input layers and no processed layers are errors exactly in those cases; otherwise the KMZ result; success means the zip opened and the archive is the master of the collected blocks |
| Geotagged.ConvertToDegrees | geotagged_images_algorithm.py:136-139 | zero minutes and seconds leave the degrees unchanged |
| Geotagged.DegreesWithinWhole | geotagged_images_algorithm.py:136-139 | with at most 59 minutes and under 60 seconds, the value stays within its whole degree |
| Geotagged.GetCoordinates | geotagged_images_algorithm.py:141-162 | both coordinates exactly when GPS data and all four entries are present and truthy; each is the decimal value, negated unless the reference is exactly `N` or `E` |
| Geotagged.HemisphereExample | geotagged_images_algorithm.py:153-159 | (10, 30, 0) South and (20, 0, 0) East give (-10.5, 20.0) |
| Geotagged.OnlyNorthIsPositive | geotagged_images_algorithm.py:153-155 | a positive latitude stays positive exactly for the reference `N` |
| Paths.SplitExtRoot | geotagged_images_algorithm.py:242 | the stem is a prefix of the path; when shorter it ends before the last dot of the last component, and that dot follows a non-dot character |
| Paths.SplitExtRootFindsExtension | geotagged_images_algorithm.py:242 | conversely, whenever the last component holds a dot after a non-dot character, the stem is shorter than the path: the extension is removed |
| Paths.SplitExtRootDropsExtension | geotagged_images_algorithm.py:242 | `photo.jpg` has stem `photo` |
| Paths.SplitExtRootDropsLastExtension | geotagged_images_algorithm.py:242 | `data.tar.gz` has stem `data.tar` |
| Paths.SplitExtRootKeepsHiddenName | geotagged_images_algorithm.py:242 | `.hidden` is its own stem |
| Paths.SplitExtRootKeepsBareName | geotagged_images_algorithm.py:242 | `README` is its own stem |
| Stamps.ParseExifStamp | geotagged_images_algorithm.py:174 | parses exactly the fixed-width texts whose fields form a valid date and time |
| Stamps.ReformatExifStamp | geotagged_images_algorithm.py:174-175 | a parsed stamp is reprinted with its two date colons turned into dashes |
| Geotagged.GetDatetime | geotagged_images_algorithm.py:164-178 | None exactly for falsy data or when no stamp is truthy; otherwise non-empty: the reformatted stamp, or the raw text when it does not parse |
| Geotagged.OriginalStampPreferred | geotagged_images_algorithm.py:170 | `DateTimeOriginal` is used whenever non-empty, `DateTime` otherwise |
| Text.Lower | geotagged_images_algorithm.py:229 | the same length, no capital left, exactly the capitals changed, and each character the same letter up to case |
| Geotagged.ImageNameIffExtension | geotagged_images_algorithm.py:229 | a file name passes the filter exactly when it ends, up to ASCII case, in `.jpg`, `.jpeg`, `.tiff` or `.tif` |
| Geotagged.ImageNameExamples | geotagged_images_algorithm.py:229 | `A.JPG` is an image name, `a.png` is not |
| Geotagged.FeatureFor | geotagged_images_algorithm.py:229-246 | a record exactly for an image name with a complete fix; the stem, file name, coordinates and time stamp text; no description |
| Geotagged.ScanFolder | geotagged_images_algorithm.py:228-255 | no failure exactly when every recorded file copies; then the records in listing order and the count equal to their number; a failure names the first recorded file in listing order whose copy failed, with the records up to and including it and the count of the copies before it |
| Geotagged.RecordsAreFixedImages | geotagged_images_algorithm.py:228-247 | every record comes from a listed image with a fix, named by its stem, and has no description |
| Geotagged.FixedImageRecorded | geotagged_images_algorithm.py:228-247 | every listed image with a fix is recorded, at its place in listing order |
| Geotagged.GeoPointIsLayerPoint | geotagged_images_algorithm.py:197-199 | the Point is written `lon,lat,0`, as the layer converter writes the vertex (lon, lat) |
| Geotagged.PlacedIffDescribed | geotagged_images_algorithm.py:190 | a record yields a Placemark exactly when it has a description |
| Geotagged.AppendPlacemarks | geotagged_images_algorithm.py:189-201 | the loop succeeds exactly when every record yields a Placemark, and then appends them in record order |
| Geotagged.CreateKmlContent | geotagged_images_algorithm.py:180-205 | the header, one Placemark per record and the footer, or the `KeyError` on `description` |
| Geotagged.OnePlacemarkPerRecord | geotagged_images_algorithm.py:189-201 | with descriptions present, one Placemark per record, in order |
| Geotagged.ScannedRecordsLackDescription | geotagged_images_algorithm.py:241-246 | a non-empty scan always fails on the missing `description` |
| Geotagged.NoGeoOutcome | geotagged_images_algorithm.py:257-276 | no run ever yields an archive |
| Geotagged.GeotaggedImagesToKmz | geotagged_images_algorithm.py:207-285 | the run fails with a copy failure exactly when some recorded file does not copy, and it names the first such file in listing order; no records means the no-image error; records that all copied mean the `description` error |

## Left out

- Feedback messages are not modelled. The progress values are: those of the two loops, and the final 100.
- Float formatting of coordinates (`f"{x}"`) is the parameter `fmt`. Only its lack of commas and spaces is used.
- Float rounding is not modelled. Degrees are exact reals, and progress is floor division on naturals.
- Text.Lower: only ASCII letters are lowered, unlike Python's full Unicode `str.lower`.
- Stamps.ParseExifStamp: only the fixed-width ASCII form is parsed. Other forms `strptime` also accepts are treated as parse failures, so `get_datetime` would reformat them where the model keeps the raw text: single-digit fields; a space-padded day (`" 5"`); any run of whitespace between date and time, since the format's space matches `\s+` (`2020:01:01\t12:00:00` is even 19 characters long); and non-ASCII Unicode decimal digits, which `\d` matches. A four-digit year below 1000 (`0999`) is parsed, and `FormatStamp` prints it padded to four digits (`0999-01-01 …`). On glibc, some CPython versions print `%Y` unpadded (`999`); the model does not follow that.
- ImageLayer attribute values are strings, integers, date-times and null. Other host value types are not modelled.
- NULL attributes: a NULL attribute (the `Null` value of the model) is taken to read as Python `None`, so `is not None` skips it in the attribute table and the feature name. Under PyQt5 bindings that return the QVariant `NULL`, the source would instead write a `NULL` row and could name a feature `NULL`; that reading is not modelled.
- Paths.BaseName: `os.path` is taken to be `posixpath`, with only `/` as a separator. On Windows `ntpath.basename` also splits at `\` and drive letters, so `PackageLayers.MasterName` of `C:\out\survey.kmz` would be `survey` there, where the model gives `C:\out\survey`. The photo paths are not affected, since `get_filename_from_path` turns `\` into `/` first.
- `id(layer)` is the layer's `uid` field, taken as any natural number.
- Reading an exported KML file is `read`. Encoding errors are not modelled.
- The vector and raster exporters are the oracle `exported`. Reprojection, styles, the temporary TIFF and GDAL options happen inside it.
- `get_exif_data` is the parameter `exifOf`. PIL and the tag tables are not modelled.
- The order of `os.listdir` is the `listing` parameter. The archive order of photos from a set is left unspecified, as the host's set iteration order is.
- GeometryMarkup.IsEmpty: a Point is never empty, since model coordinates are exact reals; QGIS also calls a point with a NaN coordinate empty.
- ImageLayer.ShownPhotoPackaged: the existence re-check before zipping each staged photo is taken as true, since the staging pass just wrote it.
- Temporary-directory creation and clean-up, the writing of `doc.kml` to disk, and deflate compression are not modelled.
- The coordinate transform is a total function on vertices. In the source, a transform that fails raises out of the image-layer run uncaught.
- The plugin provider (registration, icons, ids) and the algorithms' parameter declarations are host boilerplate.
