/**
 * The "Image Layer to KMZ" algorithm: a vector layer whose features carry a photo path
 * becomes a KMZ holding `doc.kml` (one Placemark per non-empty geometry, with an optional
 * attribute table and an inline `<img>` in its description) and the staged photos under
 * `Photos/`.
 */
module ImageLayer {
  import opened Wrappers
  import opened Seqs
  import opened Text
  import opened Paths
  import opened Stamps
  import opened Packaging
  import opened GeometryMarkup

  /** An attribute value as the host hands it to the script. */
  datatype Value =
    | Null                                   // a NULL attribute, seen as None
    | Str(text: string)
    | Integer(number: int)
    | DateTime(stamp: Stamp, repr: string)   // a QDateTime; `repr` is what str() prints for it

  datatype Field = Field(name: string, value: Value)

  /** A feature: its id, its attributes in field order, and its geometry. */
  datatype Feature = Feature(id: int, fields: seq<Field>, geometry: Geometry)

  /** The input layer: the names of its fields and its features in iteration order. */
  datatype Layer = Layer(fieldNames: seq<string>, features: seq<Feature>)

  /** The algorithm's parameters that the per-feature rendering depends on. */
  datatype Settings = Settings(
    photoField: string,
    includeAttributes: bool,
    transform: Option<Vertex -> Vertex>,   // to WGS84, when the layer's CRS differs from it
    fmt: real -> Token)                    // how the host prints one coordinate

  /** `str(value)`. */
  function StrOf(v: Value): string
  {
    match v
    case Null => "None"
    case Str(t) => t
    case Integer(n) => IntText(n)
    case DateTime(_, repr) => repr
  }

  /** Python truthiness of the value. */
  predicate Truthy(v: Value)
  {
    match v
    case Null => false
    case Str(t) => t != ""
    case Integer(n) => n != 0
    case DateTime(_, _) => true
  }

  /** `feature[name] if name in feature.fields().names() else None`. */
  function FieldValue(fields: seq<Field>, name: string): Value
  {
    if |fields| == 0 then Null
    else if fields[0].name == name then fields[0].value
    else FieldValue(fields[1..], name)
  }

  /** The photo attribute of a feature, as the source reads it in both passes. */
  function PhotoValue(f: Feature, photoField: string): Value
  {
    FieldValue(f.fields, photoField)
  }

  // ---------------------------------------------------------------- staging pass

  /**
   * The name under which the staging pass copies a feature's photo into `Photos/`, if
   * it does: the path is stripped of surrounding whitespace, must exist, and its copy
   * must succeed.
   */
  function StagedName(f: Feature, photoField: string, fileExists: string -> bool,
                      copyOk: string -> bool): (r: Option<string>)
    ensures r.Some? ==> r.value != "" && '/' !in r.value && '\\' !in r.value
    ensures r.Some? ==>
      var path := StripSpace(StrOf(PhotoValue(f, photoField)));
      Truthy(PhotoValue(f, photoField)) && fileExists(path) && copyOk(path)
      && FileNameFromPath(path) == r
  {
    var v := PhotoValue(f, photoField);
    if Truthy(v) && StripSpace(StrOf(v)) != "" then
      var path := StripSpace(StrOf(v));
      var name := FileNameFromPath(path);
      if name.Some? && name.value != "" && fileExists(path) && copyOk(path) then name else None
    else None
  }

  function StagerOf(photoField: string, fileExists: string -> bool, copyOk: string -> bool)
    : Feature -> Option<string>
  {
    f => StagedName(f, photoField, fileExists, copyOk)
  }

  /** Conversely, a photo whose stripped path exists and copies is staged under its file name. */
  lemma StagedWhenCopied(f: Feature, photoField: string, fileExists: string -> bool, copyOk: string -> bool)
    requires Truthy(PhotoValue(f, photoField))
    requires var path := StripSpace(StrOf(PhotoValue(f, photoField)));
             path != "" && fileExists(path) && copyOk(path) && FileNameFromPath(path) != Some("")
    ensures StagedName(f, photoField, fileExists, copyOk)
            == FileNameFromPath(StripSpace(StrOf(PhotoValue(f, photoField))))
  {
  }

  /** `copied_photos` after the staging pass has visited the features `fs`. */
  function StagedSet(fs: seq<Feature>, photoField: string, fileExists: string -> bool,
                     copyOk: string -> bool): set<string>
  {
    SomeSet(fs, StagerOf(photoField, fileExists, copyOk))
  }

  /** A name is staged exactly when some visited feature's photo was copied under it. */
  lemma StagedSetMembers(fs: seq<Feature>, photoField: string, fileExists: string -> bool,
                         copyOk: string -> bool, x: string)
    ensures x in StagedSet(fs, photoField, fileExists, copyOk) <==>
      exists k :: 0 <= k < |fs| && StagedName(fs[k], photoField, fileExists, copyOk) == Some(x)
  {
    SomeSetMembers(fs, StagerOf(photoField, fileExists, copyOk), x);
  }

  /**
   * The staging pass: before each feature it polls for cancellation, then takes the
   * feature's copy step `stage` (`StagerOf(..)` in a run, the name the photo was copied
   * under, if any) and reports progress over the first half of the run.
   */
  method StagePhotos(features: seq<Feature>, canceled: nat -> bool, stage: Feature -> Option<string>)
    returns (copied: set<string>, processed: nat, progress: seq<nat>)
    ensures processed == CancelPoint(canceled, |features|)
    ensures copied == SomeSet(features[..processed], stage)
    ensures |progress| == processed
    ensures forall k :: 0 <= k < processed ==> progress[k] == (k + 1) * 50 / |features|
  {
    copied, processed, progress := {}, 0, [];
    while processed < |features|
      invariant processed <= |features|
      invariant forall j :: 0 <= j < processed ==> !canceled(j)
      invariant copied == SomeSet(features[..processed], stage)
      invariant |progress| == processed
      invariant forall k :: 0 <= k < processed ==> progress[k] == (k + 1) * 50 / |features|
    {
      if canceled(processed) {
        break;
      }
      var staged := stage(features[processed]);
      if staged.Some? {
        copied := copied + {staged.value};
      }
      SomeSetStep(features, processed, stage);
      processed := processed + 1;
      progress := progress + [processed * 50 / |features|];
    }
  }

  /** The staging pass's progress never leaves its half of the bar and never goes back. */
  lemma StagingProgressBounded(total: nat, i: nat, j: nat)
    requires i <= j < total
    ensures (i + 1) * 50 / total <= (j + 1) * 50 / total <= 50
  {
    DivMonotone((i + 1) * 50, (j + 1) * 50, total);
    DivMonotone((j + 1) * 50, 50 * total, total);
    MulDivExact(50, total);
  }

  // ---------------------------------------------------------------- description

  const TableOpen: string := "<table" + TableStyle
  const TableStyle: string := " border='1' style='border-collapse: collapse;'>"
  const HeaderRow: string := "<tr><th>Attribute</th>" + "<th>Value</th></tr>"
  const TableClose: string := "</table>"
  const LineBreak: string := "<br/>"

  /** The inline image of a staged photo. */
  function ImgTag(filename: string): string
  {
    ImgOpen + filename + ImgClose
  }

  const ImgOpen: string := "<img src=\"Photos/"
  const ImgClose: string := "\" style=\"max-width:720px;\" />"

  /** What an attribute cell shows: date-times in `yyyy-MM-dd HH:mm:ss`, anything else by str(). */
  function CellText(v: Value): string
  {
    if v.DateTime? then FormatStamp(v.stamp) else StrOf(v)
  }

  /** One table row, both cells escaped. */
  function Row(name: string, v: Value): string
  {
    RowOpen + Escape(name) + CellBreak + Escape(CellText(v)) + RowClose
  }

  const RowOpen: string := "<tr><td>"
  const CellBreak: string := "</td><td>"
  const RowClose: string := "</td></tr>"

  /** The row a field gets: every field but the photo field, unless its value is null. */
  function TableRow(fld: Field, photoField: string): Option<string>
  {
    if fld.name != photoField && fld.value != Null then Some(Row(fld.name, fld.value)) else None
  }

  function RowOf(photoField: string): Field -> Option<string>
  {
    fld => TableRow(fld, photoField)
  }

  function TableRows(fields: seq<Field>, photoField: string): seq<string>
  {
    Somes(fields, RowOf(photoField))
  }

  function AttributeTable(fields: seq<Field>, photoField: string): seq<string>
  {
    [TableOpen, HeaderRow] + TableRows(fields, photoField) + [TableClose, LineBreak]
  }

  /** `if filename:` */
  predicate PhotoShown(filename: Option<string>)
  {
    filename.Some? && filename.value != ""
  }

  function PhotoPart(filename: Option<string>): seq<string>
  {
    if PhotoShown(filename) then [ImgTag(filename.value)] else []
  }

  /** The list the description is joined from. */
  function DescriptionParts(fields: seq<Field>, photoField: string, filename: Option<string>,
                            includeAttributes: bool): seq<string>
  {
    (if includeAttributes then AttributeTable(fields, photoField) else []) + PhotoPart(filename)
  }

  /** `create_feature_description`. */
  method CreateFeatureDescription(f: Feature, photoField: string, filename: Option<string>,
                                  includeAttributes: bool) returns (description: string)
    ensures description == Concat(DescriptionParts(f.fields, photoField, filename, includeAttributes))
  {
    var parts: seq<string> := [];
    if includeAttributes {
      parts := parts + [TableOpen, HeaderRow];
      parts := AppendRows(parts, f.fields, photoField);
      parts := parts + [TableClose, LineBreak];
    }
    ghost var table := parts;
    assert table == if includeAttributes then AttributeTable(f.fields, photoField) else [];
    if PhotoShown(filename) {
      parts := parts + [ImgTag(filename.value)];
    } else {
      assert parts == table + [];
    }
    description := Concat(parts);
  }

  /** The field loop of `create_feature_description`: one row per field that gets one, appended in field order. */
  method AppendRows(parts: seq<string>, fields: seq<Field>, photoField: string) returns (out: seq<string>)
    ensures out == parts + TableRows(fields, photoField)
  {
    out := parts;
    for i := 0 to |fields|
      invariant out == parts + TableRows(fields[..i], photoField)
    {
      var fld := fields[i];
      RowsStep(fields, i, photoField);
      if fld.name != photoField {
        var value := fld.value;
        if value != Null {
          out := out + [Row(fld.name, value)];
        }
      }
    }
    assert fields[..|fields|] == fields;
  }

  /** The step the field loop takes at position `i`. */
  lemma RowsStep(fields: seq<Field>, i: nat, photoField: string)
    requires i < |fields|
    ensures fields[i].name != photoField && fields[i].value != Null ==>
              TableRows(fields[..i + 1], photoField)
              == TableRows(fields[..i], photoField) + [Row(fields[i].name, fields[i].value)]
    ensures fields[i].name == photoField || fields[i].value == Null ==>
              TableRows(fields[..i + 1], photoField) == TableRows(fields[..i], photoField)
  {
    SomesStep(fields, i, RowOf(photoField));
  }

  /** A part that is an image tag. */
  predicate IsImgTag(s: string)
  {
    |s| >= 4 && s[..4] == "<img"
  }

  lemma NotImgTag(s: string)
    requires |s| >= 2 && s[1] != 'i'
    ensures !IsImgTag(s)
  {
    if |s| >= 4 {
      assert s[..4][1] == s[1];
    }
  }

  lemma RowIsNoImgTag(name: string, v: Value)
    ensures !IsImgTag(Row(name, v))
  {
    var rest := Escape(name) + CellBreak + Escape(CellText(v)) + RowClose;
    assert Row(name, v) == RowOpen + rest;
    assert Row(name, v)[1] == RowOpen[1] == 't';
    NotImgTag(Row(name, v));
  }

  lemma {:induction false} TableHasNoImgTag(fields: seq<Field>, photoField: string)
    ensures forall i :: 0 <= i < |AttributeTable(fields, photoField)| ==> !IsImgTag(AttributeTable(fields, photoField)[i])
  {
    var rows := TableRows(fields, photoField);
    forall i | 0 <= i < |rows|
      ensures !IsImgTag(rows[i])
    {
      SomesOnly(fields, i, RowOf(photoField));
      var k :| 0 <= k < |fields| && RowOf(photoField)(fields[k]) == Some(rows[i]);
      RowIsNoImgTag(fields[k].name, fields[k].value);
    }
    NotImgTag(TableOpen);
    NotImgTag(HeaderRow);
    NotImgTag(TableClose);
    NotImgTag(LineBreak);
  }

  /**
   * A description shows an image exactly when a (non-empty) file name is passed, and
   * then it is that file's tag, last.
   */
  lemma {:induction false} DescriptionShowsPhoto(fields: seq<Field>, photoField: string,
                                                 filename: Option<string>, includeAttributes: bool)
    ensures var parts := DescriptionParts(fields, photoField, filename, includeAttributes);
            (exists k :: 0 <= k < |parts| && IsImgTag(parts[k])) <==> PhotoShown(filename)
    ensures var parts := DescriptionParts(fields, photoField, filename, includeAttributes);
            PhotoShown(filename) ==> parts[|parts| - 1] == ImgTag(filename.value)
  {
    var table := if includeAttributes then AttributeTable(fields, photoField) else [];
    TableHasNoImgTag(fields, photoField);
    assert forall i :: 0 <= i < |table| ==> !IsImgTag(table[i]);
    var parts := DescriptionParts(fields, photoField, filename, includeAttributes);
    if PhotoShown(filename) {
      assert ImgTag(filename.value) == ImgOpen + (filename.value + ImgClose);
      assert ImgTag(filename.value)[..4] == ImgOpen[..4] == "<img";
      assert IsImgTag(parts[|parts| - 1]);
    } else {
      assert parts == table + [];
    }
  }

  /** Each field other than the photo field with a non-null value gets its row, in field order. */
  lemma RowPerField(fields: seq<Field>, photoField: string, k: nat)
    requires k < |fields| && fields[k].name != photoField && fields[k].value != Null
    ensures |TableRows(fields[..k], photoField)| < |TableRows(fields, photoField)|
    ensures TableRows(fields, photoField)[|TableRows(fields[..k], photoField)|]
            == Row(fields[k].name, fields[k].value)
  {
    SomesAt(fields, k, RowOf(photoField));
  }

  /** And every row is such a field's row. */
  lemma RowsOnlyFromFields(fields: seq<Field>, photoField: string, i: nat)
    requires i < |TableRows(fields, photoField)|
    ensures exists k :: (0 <= k < |fields| && fields[k].name != photoField && fields[k].value != Null
                         && TableRows(fields, photoField)[i] == Row(fields[k].name, fields[k].value))
  {
    SomesOnly(fields, i, RowOf(photoField));
  }

  /** The cells of a row are escaped: whatever the attribute holds, it opens no markup. */
  lemma RowCellsInert(name: string, v: Value)
    ensures '<' !in Escape(name) && '>' !in Escape(name)
    ensures '<' !in Escape(CellText(v)) && '>' !in Escape(CellText(v))
    ensures Unescape(Escape(CellText(v))) == CellText(v)
  {
    EscapedHasNoTags(name);
    EscapedHasNoTags(CellText(v));
    UnescapeEscape(CellText(v));
  }

  // ---------------------------------------------------------------- feature name

  /** A field that can name a feature: not the photo field, and not null. */
  predicate NameCandidate(fld: Field, photoField: string)
  {
    fld.name != photoField && fld.value != Null
  }

  /** The position of the first naming field at or after `from`, or `|fields|`. */
  function FirstNameField(fields: seq<Field>, photoField: string, from: nat): (k: nat)
    requires from <= |fields|
    ensures from <= k <= |fields|
    ensures forall j :: from <= j < k ==> !NameCandidate(fields[j], photoField)
    ensures k < |fields| ==> NameCandidate(fields[k], photoField)
    decreases |fields| - from
  {
    if from == |fields| then from
    else if NameCandidate(fields[from], photoField) then from
    else FirstNameField(fields, photoField, from + 1)
  }

  /** The Placemark name: the first naming field's value, else `Feature <id>`. */
  function FeatureName(f: Feature, photoField: string): (r: string)
    ensures (forall j :: 0 <= j < |f.fields| ==> !NameCandidate(f.fields[j], photoField))
            ==> r == "Feature " + IntText(f.id)
  {
    var k := FirstNameField(f.fields, photoField, 0);
    if k < |f.fields| then StrOf(f.fields[k].value) else "Feature " + IntText(f.id)
  }

  /** Otherwise the name is the value of the first field that can name the feature. */
  lemma FeatureNameIsFirstCandidate(f: Feature, photoField: string, k: nat)
    requires k < |f.fields| && NameCandidate(f.fields[k], photoField)
    requires forall j :: 0 <= j < k ==> !NameCandidate(f.fields[j], photoField)
    ensures FeatureName(f, photoField) == StrOf(f.fields[k].value)
  {
    var first := FirstNameField(f.fields, photoField, 0);
    assert first <= k;
    assert first >= k;
  }

  /** The naming loop of `create_kml_content`. */
  method ChooseFeatureName(f: Feature, photoField: string) returns (name: string)
    ensures name == FeatureName(f, photoField)
  {
    name := "Feature " + IntText(f.id);
    var i := 0;
    while i < |f.fields|
      invariant 0 <= i <= |f.fields|
      invariant forall j :: 0 <= j < i ==> !NameCandidate(f.fields[j], photoField)
    {
      if f.fields[i].name != photoField && f.fields[i].value != Null {
        name := StrOf(f.fields[i].value);
        break;
      }
      i := i + 1;
    }
  }

  // ---------------------------------------------------------------- KML document

  /**
   * The file name the KML pass references for a feature: taken from the photo path as
   * stored, without stripping, and only when that name was staged.
   */
  function KmlPhotoReference(f: Feature, photoField: string, copied: set<string>): (r: Option<string>)
    ensures r.Some? ==> r.value in copied && r.value != ""
    ensures r.Some? ==> (Truthy(PhotoValue(f, photoField))
                         && FileNameFromPath(StrOf(PhotoValue(f, photoField))) == r)
    ensures Truthy(PhotoValue(f, photoField)) && StripSpace(StrOf(PhotoValue(f, photoField))) != ""
            && FileNameFromPath(StrOf(PhotoValue(f, photoField))).Some?
            && FileNameFromPath(StrOf(PhotoValue(f, photoField))).value != ""
            && FileNameFromPath(StrOf(PhotoValue(f, photoField))).value in copied
            ==> r == FileNameFromPath(StrOf(PhotoValue(f, photoField)))
  {
    var v := PhotoValue(f, photoField);
    if Truthy(v) && StripSpace(StrOf(v)) != "" then
      var name := FileNameFromPath(StrOf(v));
      if name.Some? && name.value != "" && name.value in copied then name else None
    else None
  }

  /** What one Placemark is made of. */
  datatype Placemark = Placemark(name: string, photo: Option<string>, description: string, element: string)

  /** The Placemark a feature contributes, if any. */
  function PlacemarkFor(f: Feature, s: Settings, copied: set<string>): (r: Option<Placemark>)
    ensures r.None? <==> IsEmpty(f.geometry)
    ensures r.Some? ==> r.value.photo == KmlPhotoReference(f, s.photoField, copied)
    ensures r.Some? && r.value.photo.Some? ==> r.value.photo.value in copied && r.value.photo.value != ""
    ensures r.Some? ==> (r.value.element == "" <==> f.geometry.Unsupported?)
    ensures r.Some? ==> r.value.name == FeatureName(f, s.photoField)
    ensures r.Some? ==> r.value.description
                        == Concat(DescriptionParts(f.fields, s.photoField, r.value.photo, s.includeAttributes))
  {
    if IsEmpty(f.geometry) then None
    else
      var photo := KmlPhotoReference(f, s.photoField, copied);
      Some(Placemark(FeatureName(f, s.photoField), photo,
                     Concat(DescriptionParts(f.fields, s.photoField, photo, s.includeAttributes)),
                     GeometryToKmlElement(f.geometry, s.transform, s.fmt)))
  }

  function PlacemarkOf(s: Settings, copied: set<string>): Feature -> Option<Placemark>
  {
    f => PlacemarkFor(f, s, copied)
  }

  /** The Placemarks of a layer, in feature order. */
  function Placemarks(fs: seq<Feature>, s: Settings, copied: set<string>): seq<Placemark>
  {
    Somes(fs, PlacemarkOf(s, copied))
  }

  function PlacemarkText(p: Placemark): string
  {
    PlacemarkOpen + Escape(p.name) + DescriptionOpen + p.description + DescriptionClose
    + p.element + PlacemarkClose
  }

  function RenderAll(ps: seq<Placemark>): string
  {
    if |ps| == 0 then "" else RenderAll(ps[..|ps| - 1]) + PlacemarkText(ps[|ps| - 1])
  }

  /** Appending one Placemark's text to a document prefix renders one more Placemark. */
  lemma RenderAllSnoc(prefix: string, ps: seq<Placemark>, p: Placemark)
    ensures prefix + RenderAll(ps) + PlacemarkText(p) == prefix + RenderAll(ps + [p])
  {
    assert (ps + [p])[..|ps|] == ps;
  }

  function DocumentHeader(layerName: string): string
  {
    XmlDeclaration + KmlOpen + DocumentOpen + Escape(layerName) + NameClose + LayerDescription
  }

  const LayerDescription: string := "    <description>Layer exported with photos</description>\n"

  function KmlDocument(layerName: string, ps: seq<Placemark>): string
  {
    DocumentHeader(layerName) + RenderAll(ps) + DocumentFooter
  }

  /**
   * The body of the feature loop of `create_kml_content` for a feature with a geometry:
   * the photo reference, the name, the description and the geometry element.
   */
  method RenderPlacemark(feature: Feature, s: Settings, copied: set<string>) returns (p: Placemark)
    requires !IsEmpty(feature.geometry)
    ensures PlacemarkFor(feature, s, copied) == Some(p)
  {
    var filename := KmlPhotoReference(feature, s.photoField, copied);
    var featureName := ChooseFeatureName(feature, s.photoField);
    var description := CreateFeatureDescription(feature, s.photoField, filename, s.includeAttributes);
    var element := GeometryToKmlElement(feature.geometry, s.transform, s.fmt);
    p := Placemark(featureName, filename, description, element);
  }

  /**
   * `create_kml_content`: the header, the text of the Placemark `place` yields for each
   * feature (`PlacemarkOf(..)` in a run, None for an empty geometry), the footer.
   */
  method CreateKmlContent(features: seq<Feature>, layerName: string, place: Feature -> Option<Placemark>)
    returns (kml: string)
    ensures kml == KmlDocument(layerName, Somes(features, place))
  {
    kml := DocumentHeader(layerName);
    for i := 0 to |features|
      invariant kml == DocumentHeader(layerName) + RenderAll(Somes(features[..i], place))
    {
      var feature := features[i];
      ghost var before := Somes(features[..i], place);
      SomesStep(features, i, place);
      var p := place(feature);
      if p.None? {
        assert Somes(features[..i + 1], place) == before;
        continue;
      }
      assert Somes(features[..i + 1], place) == before + [p.value];
      RenderAllSnoc(DocumentHeader(layerName), before, p.value);
      kml := kml + PlacemarkText(p.value);
    }
    assert features[..|features|] == features;
    kml := kml + DocumentFooter;
  }

  /** Every feature with a non-empty geometry gets its Placemark, in feature order. */
  lemma PlacemarkPerFeature(fs: seq<Feature>, s: Settings, copied: set<string>, k: nat)
    requires k < |fs| && !IsEmpty(fs[k].geometry)
    ensures |Placemarks(fs[..k], s, copied)| < |Placemarks(fs, s, copied)|
    ensures Placemarks(fs, s, copied)[|Placemarks(fs[..k], s, copied)|]
            == PlacemarkFor(fs[k], s, copied).value
  {
    SomesAt(fs, k, PlacemarkOf(s, copied));
  }

  /** A feature with an empty geometry is skipped. */
  lemma EmptyGeometrySkipped(fs: seq<Feature>, s: Settings, copied: set<string>, k: nat)
    requires k < |fs| && IsEmpty(fs[k].geometry)
    ensures Placemarks(fs[..k + 1], s, copied) == Placemarks(fs[..k], s, copied)
  {
    SomesStep(fs, k, PlacemarkOf(s, copied));
  }

  /** When no geometry is empty there is one Placemark per feature. */
  lemma OnePlacemarkEach(fs: seq<Feature>, s: Settings, copied: set<string>)
    requires forall k :: 0 <= k < |fs| ==> !IsEmpty(fs[k].geometry)
    ensures |Placemarks(fs, s, copied)| == |fs|
  {
    SomesLengthAll(fs, PlacemarkOf(s, copied));
  }

  /** No dangling reference: every photo a Placemark names is a staged one. */
  lemma {:induction false} NoDanglingReference(fs: seq<Feature>, s: Settings, copied: set<string>, i: nat)
    requires i < |Placemarks(fs, s, copied)|
    ensures var p := Placemarks(fs, s, copied)[i];
      p.photo.Some? ==> p.photo.value in copied && p.photo.value != ""
  {
    PlacemarkFromFeature(fs, s, copied, i);
  }

  /** Every Placemark is the one `PlacemarkFor` builds for some feature of the layer. */
  lemma {:induction false} PlacemarkFromFeature(fs: seq<Feature>, s: Settings, copied: set<string>, i: nat)
    requires i < |Placemarks(fs, s, copied)|
    ensures exists k :: 0 <= k < |fs| && PlacemarkFor(fs[k], s, copied) == Some(Placemarks(fs, s, copied)[i])
  {
    SomesOnly(fs, i, PlacemarkOf(s, copied));
  }

  /**
   * The staging pass strips the photo path, the KML pass does not: a path with a trailing
   * blank is staged, yet its Placemark shows no photo.
   */
  lemma TrailingBlankNotReferenced()
    ensures var f := BlankPathFeature;
            StagedName(f, "photo", (p: string) => true, (p: string) => true) == Some("a.jpg")
            && KmlPhotoReference(f, "photo", {"a.jpg"}) == None
  {
    TrailingBlankStaged();
    TrailingBlankUnreferenced();
  }

  /** A point feature whose photo path ends in a blank. */
  const BlankPathFeature: Feature := Feature(1, [Field("photo", Str("a.jpg "))], Point(Vertex(0.0, 0.0, 0.0)))

  lemma TrailingBlankStaged()
    ensures StagedName(BlankPathFeature, "photo", (p: string) => true, (p: string) => true) == Some("a.jpg")
  {
    var v := PhotoValue(BlankPathFeature, "photo");
    assert v == Str("a.jpg ");
    assert StrOf(v) == "a.jpg " && Truthy(v);
    StripTrailingBlank();
    var path := StripSpace(StrOf(v));
    assert path == "a.jpg";
    PlainFileName(path);
  }

  lemma TrailingBlankUnreferenced()
    ensures KmlPhotoReference(BlankPathFeature, "photo", {"a.jpg"}) == None
  {
    var f := BlankPathFeature;
    assert PhotoValue(f, "photo") == Str("a.jpg ");
    BlankKeptInFileName();
  }

  lemma BlankKeptInFileName()
    ensures FileNameFromPath("a.jpg ") != Some("a.jpg")
  {
    var r := FileNameFromPath("a.jpg ").value;
    assert r[|r| - 1] == "a.jpg "[5] == ' ';
  }

  lemma StripTrailingBlank()
    ensures StripSpace("a.jpg ") == "a.jpg"
  {
    var raw := "a.jpg ";
    assert !IsPySpace(raw[0]) && IsPySpace(raw[5]) && !IsPySpace(raw[4]);
    assert LeadingCount(raw, IsPySpace) == 0;
    assert raw[0..] == raw;
    assert TrailingCount(raw, IsPySpace) == 1;
  }

  /** A staged photo whose path needs no stripping is referenced by its Placemark. */
  lemma CleanPathReferenced(f: Feature, photoField: string, fileExists: string -> bool,
                            copyOk: string -> bool, copied: set<string>)
    requires StagedName(f, photoField, fileExists, copyOk).Some?
    requires StagedName(f, photoField, fileExists, copyOk).value in copied
    requires StripSpace(StrOf(PhotoValue(f, photoField))) == StrOf(PhotoValue(f, photoField))
    ensures KmlPhotoReference(f, photoField, copied) == StagedName(f, photoField, fileExists, copyOk)
  {
  }

  // ---------------------------------------------------------------- the run

  /** The run's errors; `ZipNotCreated` is the exception `zipfile.ZipFile` raises for an output it cannot create. */
  datatype ImageError = InvalidInputLayer | PhotoFieldNotSpecified | PhotoFieldNotFound(field: string) | ZipNotCreated

  /** What a successful run leaves: the archive, the staged names, how many features were staged, progress. */
  datatype ImageRun = ImageRun(archive: Archive, copied: set<string>, processed: nat, progress: seq<nat>)

  /** What a successful run over `layer` produces. */
  ghost predicate RunOutcome(layer: Layer, s: Settings, layerName: string, canceled: nat -> bool,
                             fileExists: string -> bool, copyOk: string -> bool, run: ImageRun)
  {
    var fs := layer.features;
    var n := CancelPoint(canceled, |fs|);
    run.processed == n
    && run.copied == StagedSet(fs[..n], s.photoField, fileExists, copyOk)
    && run.archive.doc == KmlDocument(layerName, Placemarks(fs, s, run.copied))
    && |run.archive.entries| == |run.copied| + 1 && run.archive.entries[0] == DocEntry
    && (forall x :: x in run.copied <==> PhotoEntry(x) in run.archive.entries[1..])
    && |run.progress| == n + 1 && run.progress[n] == 100
    && (forall k :: 0 <= k < n ==> run.progress[k] == (k + 1) * 50 / |fs|)
  }

  /** `processAlgorithm`; `zipOpens` is whether the output archive can be created. */
  method LayerToKmz(input: Option<Layer>, s: Settings, layerName: string, canceled: nat -> bool,
                    fileExists: string -> bool, copyOk: string -> bool, zipOpens: bool)
    returns (r: Result<ImageRun, ImageError>)
    ensures input.None? ==> r == Failure(InvalidInputLayer)
    ensures input.Some? && s.photoField == "" ==> r == Failure(PhotoFieldNotSpecified)
    ensures input.Some? && s.photoField != "" && s.photoField !in input.value.fieldNames
            ==> r == Failure(PhotoFieldNotFound(s.photoField))
    ensures input.Some? && s.photoField != "" && s.photoField in input.value.fieldNames && !zipOpens
            ==> r == Failure(ZipNotCreated)
    ensures r.Success? <==> input.Some? && s.photoField != "" && s.photoField in input.value.fieldNames && zipOpens
    ensures r.Success? ==> RunOutcome(input.value, s, layerName, canceled, fileExists, copyOk, r.value)
  {
    if input.None? {
      return Failure(InvalidInputLayer);
    }
    var layer := input.value;
    if s.photoField == "" {
      return Failure(PhotoFieldNotSpecified);
    }
    if s.photoField !in layer.fieldNames {
      return Failure(PhotoFieldNotFound(s.photoField));
    }
    var copied, processed, progress := StagePhotos(layer.features, canceled, StagerOf(s.photoField, fileExists, copyOk));
    var kml := CreateKmlContent(layer.features, layerName, PlacemarkOf(s, copied));
    if !zipOpens {
      return Failure(ZipNotCreated);
    }
    var entries, order := ZipEntries(copied);
    progress := progress + [100];
    r := Success(ImageRun(Archive(entries, kml), copied, processed, progress));
  }

  /** Every photo a Placemark shows has its entry under `Photos/` in an archive built from the staged set. */
  lemma ShownPhotoPackaged(fs: seq<Feature>, s: Settings, copied: set<string>, entries: seq<string>, i: nat)
    requires |entries| >= 1 && forall x :: x in copied <==> PhotoEntry(x) in entries[1..]
    requires i < |Placemarks(fs, s, copied)| && Placemarks(fs, s, copied)[i].photo.Some?
    ensures PhotoEntry(Placemarks(fs, s, copied)[i].photo.value) in entries
  {
    NoDanglingReference(fs, s, copied, i);
    var x := Placemarks(fs, s, copied)[i].photo.value;
    var j :| 0 <= j < |entries| - 1 && entries[1..][j] == PhotoEntry(x);
    assert entries[j + 1] == PhotoEntry(x);
  }

  /** And it was copied, from an existing file, while staging one of the features visited before cancellation. */
  lemma ShownPhotoCopied(fs: seq<Feature>, s: Settings, fileExists: string -> bool, copyOk: string -> bool,
                         n: nat, i: nat)
    requires n <= |fs|
    requires i < |Placemarks(fs, s, StagedSet(fs[..n], s.photoField, fileExists, copyOk))|
    requires Placemarks(fs, s, StagedSet(fs[..n], s.photoField, fileExists, copyOk))[i].photo.Some?
    ensures var x := Placemarks(fs, s, StagedSet(fs[..n], s.photoField, fileExists, copyOk))[i].photo.value;
            exists k :: 0 <= k < n && StagedName(fs[k], s.photoField, fileExists, copyOk) == Some(x)
  {
    var copied := StagedSet(fs[..n], s.photoField, fileExists, copyOk);
    NoDanglingReference(fs, s, copied, i);
    StagedFromPrefix(fs, n, s.photoField, fileExists, copyOk, Placemarks(fs, s, copied)[i].photo.value);
  }

  /** A name staged while visiting the first `n` features is the staged name of one of them. */
  lemma StagedFromPrefix(fs: seq<Feature>, n: nat, photoField: string, fileExists: string -> bool,
                         copyOk: string -> bool, x: string)
    requires n <= |fs| && x in StagedSet(fs[..n], photoField, fileExists, copyOk)
    ensures exists k :: 0 <= k < n && StagedName(fs[k], photoField, fileExists, copyOk) == Some(x)
  {
    StagedSetMembers(fs[..n], photoField, fileExists, copyOk, x);
    var k :| 0 <= k < n && StagedName(fs[..n][k], photoField, fileExists, copyOk) == Some(x);
    assert fs[..n][k] == fs[k];
  }
}
