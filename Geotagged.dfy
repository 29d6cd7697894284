/**
 * Geotagged Images to KMZ: the images of a folder whose EXIF data carry a GPS fix become
 * Point Placemarks, and the images themselves are copied under `Photos/`.
 */
module Geotagged {
  import opened Wrappers
  import opened Seqs
  import opened Text
  import opened Paths
  import opened Stamps
  import opened Packaging
  import opened GeometryMarkup

  // ---------------------------------------------------------------- EXIF data

  /** A GPS coordinate as EXIF stores it: degrees, minutes and seconds. */
  datatype Dms = Dms(degrees: real, minutes: real, seconds: real)

  /** The `GPSInfo` dictionary; each entry may be absent. */
  datatype GpsInfo = GpsInfo(latitude: Option<Dms>, latitudeRef: Option<string>,
                             longitude: Option<Dms>, longitudeRef: Option<string>)

  /**
   * The dictionary `get_exif_data` returns: the GPS block and the two time stamps,
   * each present only when the image has that tag.
   */
  datatype Exif = Exif(gps: Option<GpsInfo>, dateTime: Option<string>, dateTimeOriginal: Option<string>)

  /** Python truthiness of the dictionary: None and the empty dictionary are false. */
  predicate ExifTruthy(exif: Option<Exif>)
  {
    exif.Some? && (exif.value.gps.Some? || exif.value.dateTime.Some? || exif.value.dateTimeOriginal.Some?)
  }

  /** Python truthiness of an optional string. */
  predicate Truthy(s: Option<string>)
  {
    s.Some? && s.value != ""
  }

  /** `convert_to_degrees((d, m, s))`. */
  function ConvertToDegrees(v: Dms): (r: real)
    ensures v.minutes == 0.0 && v.seconds == 0.0 ==> r == v.degrees
  {
    v.degrees + v.minutes / 60.0 + v.seconds / 3600.0
  }

  /** With at most 59 whole minutes and seconds below 60, the decimal value stays within its whole degree. */
  lemma DegreesWithinWhole(v: Dms)
    requires 0.0 <= v.minutes <= 59.0 && 0.0 <= v.seconds < 60.0
    ensures v.degrees <= ConvertToDegrees(v) < v.degrees + 1.0
  {
    assert v.minutes / 60.0 <= 59.0 / 60.0;
    assert v.seconds / 3600.0 < 1.0 / 60.0;
  }

  /** The four GPS entries `get_coordinates` needs, all present and truthy. */
  predicate HasFix(exif: Option<Exif>)
  {
    ExifTruthy(exif) && exif.value.gps.Some?
    && exif.value.gps.value.latitude.Some? && exif.value.gps.value.longitude.Some?
    && Truthy(exif.value.gps.value.latitudeRef) && Truthy(exif.value.gps.value.longitudeRef)
  }

  /**
   * `get_coordinates(exif_data)`: `(lat, lon)` in decimal degrees, latitude negated unless
   * its reference is exactly `N` and longitude unless it is exactly `E`; `(None, None)`
   * without a complete fix.
   */
  function GetCoordinates(exif: Option<Exif>): (r: (Option<real>, Option<real>))
    ensures r.0.Some? <==> HasFix(exif)
    ensures r.1.Some? <==> HasFix(exif)
    ensures HasFix(exif) ==>
      var g := exif.value.gps.value;
      r.0.value == (if g.latitudeRef.value == "N" then 1.0 else -1.0) * ConvertToDegrees(g.latitude.value)
      && r.1.value == (if g.longitudeRef.value == "E" then 1.0 else -1.0) * ConvertToDegrees(g.longitude.value)
  {
    if !ExifTruthy(exif) || exif.value.gps.None? then (None, None)
    else
      var g := exif.value.gps.value;
      if g.latitude.Some? && g.longitude.Some? && Truthy(g.latitudeRef) && Truthy(g.longitudeRef) then
        var lat := ConvertToDegrees(g.latitude.value);
        var lat := if g.latitudeRef.value != "N" then -lat else lat;
        var lon := ConvertToDegrees(g.longitude.value);
        var lon := if g.longitudeRef.value != "E" then -lon else lon;
        (Some(lat), Some(lon))
      else (None, None)
  }

  /** (10, 30, 0) South and (20, 0, 0) East give latitude -10.5 and longitude 20.0. */
  lemma HemisphereExample()
    ensures var g := GpsInfo(Some(Dms(10.0, 30.0, 0.0)), Some("S"), Some(Dms(20.0, 0.0, 0.0)), Some("E"));
            GetCoordinates(Some(Exif(Some(g), None, None))) == (Some(-10.5), Some(20.0))
  {
    assert "S" != "N";
  }

  /**
   * Only the exact reference keeps the sign: a southern latitude, a lower-case `n`, or any
   * other text give the same negative value.
   */
  lemma OnlyNorthIsPositive(d: Dms, ref: string, lon: Dms, lonRef: string)
    requires 0.0 <= d.degrees && 0.0 <= d.minutes && 0.0 <= d.seconds && ConvertToDegrees(d) > 0.0
    requires ref != "" && lonRef != ""
    ensures var g := GpsInfo(Some(d), Some(ref), Some(lon), Some(lonRef));
            GetCoordinates(Some(Exif(Some(g), None, None))).0.value > 0.0 <==> ref == "N"
  {
  }

  /** `exif.get('DateTimeOriginal') or exif.get('DateTime')`. */
  function PreferredStamp(e: Exif): Option<string>
  {
    if Truthy(e.dateTimeOriginal) then e.dateTimeOriginal else e.dateTime
  }

  /**
   * `get_datetime(exif_data)`: the preferred stamp reprinted as `YYYY-MM-DD HH:MM:SS`
   * when it parses, the raw text when it does not, and None when there is none.
   */
  function GetDatetime(exif: Option<Exif>): (r: Option<string>)
    ensures r.None? <==> !ExifTruthy(exif) || !Truthy(PreferredStamp(exif.value))
    ensures r.Some? ==> r.value != ""
    ensures r.Some? && ParseExifStamp(PreferredStamp(exif.value).value).None? ==>
              r.value == PreferredStamp(exif.value).value
    ensures r.Some? && ParseExifStamp(PreferredStamp(exif.value).value).Some? ==>
              var raw := PreferredStamp(exif.value).value;
              r.value == raw[..4] + "-" + raw[5..7] + "-" + raw[8..]
  {
    if !ExifTruthy(exif) then None
    else
      var raw := PreferredStamp(exif.value);
      if Truthy(raw) then
        match ParseExifStamp(raw.value)
        case Some(st) =>
          ReformatExifStamp(raw.value);
          Some(FormatStamp(st))
        case None => Some(raw.value)
      else None
  }

  /** `DateTimeOriginal` wins whenever it is non-empty; `DateTime` is read only otherwise. */
  lemma OriginalStampPreferred(e: Exif)
    ensures Truthy(e.dateTimeOriginal) ==> PreferredStamp(e) == e.dateTimeOriginal
    ensures !Truthy(e.dateTimeOriginal) ==> PreferredStamp(e) == e.dateTime
  {
  }

  /** `datetime_str or 'Unknown'`. */
  function DatetimeText(d: Option<string>): string
  {
    match d case Some(t) => t case None => "Unknown"
  }

  // ---------------------------------------------------------------- the folder scan

  const ImageExtensions: seq<string> := [".jpg", ".jpeg", ".tiff", ".tif"]

  /** `any(filename.lower().endswith(ext) for ext in image_extensions)`. */
  predicate IsImageName(filename: string)
  {
    exists i :: 0 <= i < |ImageExtensions| && EndsWith(Lower(filename), ImageExtensions[i])
  }

  /**
   * A file name is an image name exactly when it ends, up to the case of ASCII letters,
   * in one of the listed extensions.
   */
  lemma ImageNameIffExtension(filename: string)
    ensures IsImageName(filename) <==>
              exists i :: 0 <= i < |ImageExtensions| && EndsUpToCase(filename, ImageExtensions[i])
  {
    forall i | 0 <= i < |ImageExtensions|
      ensures EndsWith(Lower(filename), ImageExtensions[i]) <==> EndsUpToCase(filename, ImageExtensions[i])
    {
      LowerEndsWith(filename, ImageExtensions[i]);
    }
  }

  /** `name` ends in `ext` when its capitals are read as lower case. */
  predicate EndsUpToCase(name: string, ext: string)
  {
    |ext| <= |name| && forall k :: 0 <= k < |ext| ==> SameUpToCase(name[|name| - |ext| + k], ext[k])
  }

  /** For a suffix without capitals, lower-casing then matching is matching up to case. */
  lemma LowerEndsWith(name: string, ext: string)
    requires forall k :: 0 <= k < |ext| ==> !IsUpper(ext[k])
    ensures EndsWith(Lower(name), ext) <==> EndsUpToCase(name, ext)
  {
    if |ext| <= |name| {
      var off := |name| - |ext|;
      var l := Lower(name);
      if EndsWith(l, ext) {
        forall k | 0 <= k < |ext|
          ensures SameUpToCase(name[off + k], ext[k])
        {
          assert l[off..][k] == l[off + k];
        }
      }
      if EndsUpToCase(name, ext) {
        forall k | 0 <= k < |ext|
          ensures l[off..][k] == ext[k]
        {
          assert SameUpToCase(name[off + k], ext[k]);
        }
      }
    }
  }

  lemma ImageNameExamples()
    ensures IsImageName("A.JPG")
    ensures !IsImageName("a.png")
  {
    assert Lower("A.JPG") == "a.jpg";
    assert EndsWith(Lower("A.JPG"), ImageExtensions[0]);
    assert Lower("a.png") == "a.png";
    assert Lower("a.png")[1..] == ".png" && Lower("a.png")[2..] == "png";
  }

  /**
   * A feature record: `name`, `filename`, `datetime` and `coordinates` as
   * `processAlgorithm` builds it, and `description`, the key it never sets.
   */
  datatype GeoFeature = GeoFeature(name: string, filename: string, datetime: string, lat: real, lon: real,
                                   description: Option<string>)

  /** The record a listed file yields: None unless it is an image with a complete GPS fix. */
  function FeatureFor(filename: string, exifOf: string -> Option<Exif>): (r: Option<GeoFeature>)
    ensures r.Some? <==> IsImageName(filename) && HasFix(exifOf(filename))
    ensures r.Some? ==> r.value.name == SplitExtRoot(filename) && r.value.filename == filename
    ensures r.Some? ==> r.value.description.None?
    ensures r.Some? ==> r.value.lat == GetCoordinates(exifOf(filename)).0.value
                        && r.value.lon == GetCoordinates(exifOf(filename)).1.value
    ensures r.Some? ==> r.value.datetime == DatetimeText(GetDatetime(exifOf(filename)))
  {
    if !IsImageName(filename) then None
    else
      var exif := exifOf(filename);
      var (lat, lon) := GetCoordinates(exif);
      if lat.Some? && lon.Some? then
        Some(GeoFeature(SplitExtRoot(filename), filename, DatetimeText(GetDatetime(exif)),
                        lat.value, lon.value, None))
      else None
  }

  function FeatureOf(exifOf: string -> Option<Exif>): string -> Option<GeoFeature>
  {
    f => FeatureFor(f, exifOf)
  }

  /** The records of the listed files, in listing order. */
  function GeoFeatures(listing: seq<string>, exifOf: string -> Option<Exif>): seq<GeoFeature>
  {
    Somes(listing, FeatureOf(exifOf))
  }

  /** Every listed file that yields a record is copied without error. */
  predicate AllCopied(listing: seq<string>, exifOf: string -> Option<Exif>, copyOk: string -> bool)
  {
    forall k :: 0 <= k < |listing| ==> Copied(listing[k], exifOf, copyOk)
  }

  predicate Copied(filename: string, exifOf: string -> Option<Exif>, copyOk: string -> bool)
  {
    FeatureFor(filename, exifOf).Some? ==> copyOk(filename)
  }

  datatype GeoError = NoGeotaggedImages | CopyFailed(filename: string) | MissingKey(key: string)

  /**
   * The copy of the `k`-th listed file is the first copy of a record to fail: `shutil.copy2`
   * raises there, and every earlier record was copied.
   */
  predicate FirstCopyFailure(listing: seq<string>, featureOf: string -> Option<GeoFeature>,
                             copyOk: string -> bool, k: nat)
  {
    k < |listing| && featureOf(listing[k]).Some? && !copyOk(listing[k])
    && forall j :: 0 <= j < k && featureOf(listing[j]).Some? ==> copyOk(listing[j])
  }

  /**
   * The folder loop of `processAlgorithm` over `os.listdir` (`listing`): each image with
   * a fix becomes a record and is copied to `Photos/` (`copyOk` is whether `shutil.copy2`
   * succeeds; an error it raises ends the run), and `processed_count` counts the copies.
   * `featureOf` is the per-file step, `FeatureOf(exifOf)` in a run.
   */
  method ScanFolder(listing: seq<string>, featureOf: string -> Option<GeoFeature>, copyOk: string -> bool)
    returns (features: seq<GeoFeature>, processedCount: nat, failed: Option<string>)
    ensures failed.None? <==> forall k :: 0 <= k < |listing| && featureOf(listing[k]).Some? ==> copyOk(listing[k])
    ensures failed.None? ==> features == Somes(listing, featureOf) && processedCount == |features|
    ensures failed.Some? ==> exists k: nat :: FirstCopyFailure(listing, featureOf, copyOk, k)
                                         && listing[k] == failed.value
                                         && features == Somes(listing[..k + 1], featureOf)
                                         && processedCount + 1 == |features|
  {
    features, processedCount, failed := [], 0, None;
    for i := 0 to |listing|
      invariant features == Somes(listing[..i], featureOf) && processedCount == |features|
      invariant forall k :: 0 <= k < i && featureOf(listing[k]).Some? ==> copyOk(listing[k])
    {
      var filename := listing[i];
      SomesStep(listing, i, featureOf);
      var feature := featureOf(filename);
      if feature.Some? {
        features := features + [feature.value];
        if !copyOk(filename) {
          assert FirstCopyFailure(listing, featureOf, copyOk, i);
          return features, processedCount, Some(filename);
        }
        processedCount := processedCount + 1;
      }
    }
    assert listing[..|listing|] == listing;
  }

  /** Exactly the images with a complete fix become records, in listing order, none with a description. */
  lemma {:induction false} RecordsAreFixedImages(listing: seq<string>, exifOf: string -> Option<Exif>, j: nat)
    requires j < |GeoFeatures(listing, exifOf)|
    ensures var f := GeoFeatures(listing, exifOf)[j];
            f.description.None?
            && exists k :: 0 <= k < |listing| && IsImageName(listing[k]) && HasFix(exifOf(listing[k]))
                           && f.filename == listing[k] && f.name == SplitExtRoot(listing[k])
  {
    SomesOnly(listing, j, FeatureOf(exifOf));
  }

  /** And every image with a complete fix is recorded, at its place in listing order. */
  lemma FixedImageRecorded(listing: seq<string>, exifOf: string -> Option<Exif>, k: nat)
    requires k < |listing| && IsImageName(listing[k]) && HasFix(exifOf(listing[k]))
    ensures var at := |GeoFeatures(listing[..k], exifOf)|;
            at < |GeoFeatures(listing, exifOf)| && GeoFeatures(listing, exifOf)[at].filename == listing[k]
  {
    SomesAt(listing, k, FeatureOf(exifOf));
  }

  // ---------------------------------------------------------------- the document

  const GeoDescription: string := "    <description>Geotagged Photos</description>\n"

  /** The document header, with the layer name written unescaped. */
  function GeoHeader(layerName: string): string
  {
    XmlDeclaration + KmlOpen + DocumentOpen + layerName + NameClose + GeoDescription
  }

  /** One record's Placemark: unescaped name, its description and a Point at `lon,lat,0`. */
  function GeoPlacemarkText(f: GeoFeature, description: string, fmt: real -> Token): string
  {
    PlacemarkOpen + f.name + DescriptionOpen + description + DescriptionClose + GeoPoint(f, fmt) + PlacemarkClose
  }

  /** The record's Point element, longitude first. */
  function GeoPoint(f: GeoFeature, fmt: real -> Token): string
  {
    PointOpen + fmt(f.lon) + "," + fmt(f.lat) + ",0" + PointClose
  }

  /** The Point is the one the layer converter writes for the vertex (lon, lat). */
  lemma GeoPointIsLayerPoint(f: GeoFeature, fmt: real -> Token)
    ensures GeoPoint(f, fmt) == GeometryToKmlElement(Point(Vertex(f.lon, f.lat, 0.0)), None, fmt)
  {
    var t := Triple(Vertex(f.lon, f.lat, 0.0), fmt);
    assert PointOpen + fmt(f.lon) + "," + fmt(f.lat) + ",0" == PointOpen + t;
  }

  function PlacemarkTextOf(fmt: real -> Token): GeoFeature -> Option<string>
  {
    (f: GeoFeature) => match f.description case Some(d) => Some(GeoPlacemarkText(f, d, fmt)) case None => None
  }

  /** Every record carries the `description` key. */
  predicate AllDescribed(features: seq<GeoFeature>)
  {
    forall k :: 0 <= k < |features| ==> Described(features[k])
  }

  predicate Described(f: GeoFeature)
  {
    f.description.Some?
  }

  /**
   * What `create_kml_content(features, layer_name)` returns: the document with one
   * Placemark per record, in order, or the `KeyError` raised by the first record
   * without a description.
   */
  function GeoKml(features: seq<GeoFeature>, layerName: string, fmt: real -> Token): Result<string, GeoError>
  {
    if AllDescribed(features)
    then Success(GeoHeader(layerName) + Concat(Somes(features, PlacemarkTextOf(fmt))) + DocumentFooter)
    else Failure(MissingKey("description"))
  }

  /** `create_kml_content`: the text grows by one Placemark per record. */
  method CreateKmlContent(features: seq<GeoFeature>, layerName: string, fmt: real -> Token)
    returns (r: Result<string, GeoError>)
    ensures r == GeoKml(features, layerName, fmt)
  {
    PlacedIffDescribed(features, fmt);
    var body := AppendPlacemarks(GeoHeader(layerName), features, PlacemarkTextOf(fmt));
    if body.None? {
      return Failure(MissingKey("description"));
    }
    r := Success(body.value + DocumentFooter);
  }

  /** Written in `place`'s terms, the records all yield a Placemark. */
  predicate AllPlaced(features: seq<GeoFeature>, place: GeoFeature -> Option<string>)
  {
    forall k :: 0 <= k < |features| ==> place(features[k]).Some?
  }

  /** A record yields its Placemark exactly when it carries a description. */
  lemma PlacedIffDescribed(features: seq<GeoFeature>, fmt: real -> Token)
    ensures AllPlaced(features, PlacemarkTextOf(fmt)) <==> AllDescribed(features)
  {
    var g := PlacemarkTextOf(fmt);
    assert forall k :: 0 <= k < |features| ==> (g(features[k]).Some? <==> Described(features[k]));
  }

  /**
   * The feature loop of `create_kml_content`: `place(feature)` is the feature's Placemark,
   * and None where reading `feature['description']` raises `KeyError`, which ends the loop.
   */
  method AppendPlacemarks(prefix: string, features: seq<GeoFeature>, place: GeoFeature -> Option<string>)
    returns (kml: Option<string>)
    ensures kml.Some? <==> AllPlaced(features, place)
    ensures kml.Some? ==> kml.value == prefix + Concat(Somes(features, place))
  {
    var text := prefix;
    for i := 0 to |features|
      invariant text == prefix + Concat(Somes(features[..i], place))
      invariant forall k :: 0 <= k < i ==> place(features[k]).Some?
    {
      ghost var before := Somes(features[..i], place);
      SomesStep(features, i, place);
      var placemark := place(features[i]);
      if placemark.None? {
        return None;
      }
      ConcatSnocAfter(prefix, before, placemark.value);
      text := text + placemark.value;
    }
    assert features[..|features|] == features;
    kml := Some(text);
  }

  /**
   * With descriptions present the document holds one Placemark per record, in record
   * order; `processAlgorithm` never supplies them.
   */
  lemma {:induction false} OnePlacemarkPerRecord(features: seq<GeoFeature>, fmt: real -> Token)
    requires AllDescribed(features)
    ensures |Somes(features, PlacemarkTextOf(fmt))| == |features|
    ensures forall k :: 0 <= k < |features| ==>
      Somes(features, PlacemarkTextOf(fmt))[k] == GeoPlacemarkText(features[k], features[k].description.value, fmt)
  {
    var g := PlacemarkTextOf(fmt);
    SomesLengthAll(features, g);
    forall k | 0 <= k < |features|
      ensures Somes(features, g)[k] == GeoPlacemarkText(features[k], features[k].description.value, fmt)
    {
      assert forall j :: 0 <= j < k ==> g(features[..k][j]).Some?;
      SomesLengthAll(features[..k], g);
      SomesAt(features, k, g);
    }
  }

  /** The records `processAlgorithm` builds have no description, so a non-empty scan always fails on it. */
  lemma {:induction false} ScannedRecordsLackDescription(listing: seq<string>, exifOf: string -> Option<Exif>,
                                                         layerName: string, fmt: real -> Token)
    requires GeoFeatures(listing, exifOf) != []
    ensures GeoKml(GeoFeatures(listing, exifOf), layerName, fmt) == Failure(MissingKey("description"))
  {
    RecordsAreFixedImages(listing, exifOf, 0);
  }

  // ---------------------------------------------------------------- the run

  /** What a successful run would leave: the archive, the records and the count of copies. */
  datatype GeoRun = GeoRun(archive: Archive, features: seq<GeoFeature>, processedCount: nat)

  /** What a successful run over `listing` leaves. */
  ghost predicate GeoOutcome(listing: seq<string>, exifOf: string -> Option<Exif>, layerName: string,
                             fmt: real -> Token, run: GeoRun)
  {
    run.features == GeoFeatures(listing, exifOf) && run.features != []
    && run.processedCount == |run.features|
    && GeoKml(run.features, layerName, fmt) == Success(run.archive.doc)
    && |run.archive.entries| >= 1 && run.archive.entries[0] == DocEntry
  }

  /** No run succeeds: every outcome the run could report is ruled out. */
  lemma NoGeoOutcome(listing: seq<string>, exifOf: string -> Option<Exif>, layerName: string,
                     fmt: real -> Token, run: GeoRun)
    ensures !GeoOutcome(listing, exifOf, layerName, fmt, run)
  {
    if GeoFeatures(listing, exifOf) != [] {
      ScannedRecordsLackDescription(listing, exifOf, layerName, fmt);
    }
  }

  /**
   * `processAlgorithm` over a folder's `listing`, with `exifOf` standing for
   * `get_exif_data` and `copyOk` for the copies. After the KML, `doc.kml` and every
   * copied photo are zipped, in the unspecified order of the staging directory.
   */
  method GeotaggedImagesToKmz(listing: seq<string>, exifOf: string -> Option<Exif>, copyOk: string -> bool,
                              layerName: string, fmt: real -> Token)
    returns (r: Result<GeoRun, GeoError>)
    ensures r.Success? ==> GeoOutcome(listing, exifOf, layerName, fmt, r.value)
    ensures r == Failure(NoGeotaggedImages) <==> AllCopied(listing, exifOf, copyOk) && GeoFeatures(listing, exifOf) == []
    ensures r.Failure? && r.error.CopyFailed? ==>
      exists k: nat :: FirstCopyFailure(listing, FeatureOf(exifOf), copyOk, k) && listing[k] == r.error.filename
    ensures !AllCopied(listing, exifOf, copyOk) ==> r.Failure? && r.error.CopyFailed?
    ensures AllCopied(listing, exifOf, copyOk) && GeoFeatures(listing, exifOf) != [] ==>
      r == Failure(MissingKey("description"))
  {
    var features, processedCount, failed := ScanFolder(listing, FeatureOf(exifOf), copyOk);
    if failed.Some? {
      return Failure(CopyFailed(failed.value));
    }
    if features == [] {
      return Failure(NoGeotaggedImages);
    }
    ScannedRecordsLackDescription(listing, exifOf, layerName, fmt);
    var kml := CreateKmlContent(features, layerName, fmt);
    match kml
    case Failure(e) =>
      r := Failure(e);
    case Success(doc) =>
      var photos := set f | f in features :: f.filename;
      var entries, order := ZipEntries(photos);
      r := Success(GeoRun(Archive(entries, doc), features, processedCount));
  }
}
