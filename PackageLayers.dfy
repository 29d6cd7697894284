/**
 * Package Layers to KMZ: every selected vector or raster layer is exported by the host
 * to a KML file named after the layer, the first `<Folder>` element of each export is
 * cut out, and the blocks are concatenated into one master `doc.kml`.
 */
module PackageLayers {
  import opened Wrappers
  import opened Seqs
  import opened Text
  import opened Paths
  import opened Packaging

  // ---------------------------------------------------------------- file names

  /** The characters of the class `[<>:"/\\|?*]`. */
  predicate IsReserved(c: char)
  {
    c == '<' || c == '>' || c == ':' || c == '"' || c == '/' || c == '\\' || c == '|' || c == '?' || c == '*'
  }

  /** `re.sub(r'[<>:"/\\|?*]', '_', s)`: each reserved character becomes `_`, one for one. */
  function ReplaceReserved(s: string): (r: string)
    ensures |r| == |s|
    ensures forall k :: 0 <= k < |s| ==> !IsReserved(r[k])
    ensures forall k :: 0 <= k < |s| ==> (IsReserved(s[k]) ==> r[k] == '_') && (!IsReserved(s[k]) ==> r[k] == s[k])
  {
    seq(|s|, k requires 0 <= k < |s| => if IsReserved(s[k]) then '_' else s[k])
  }

  /** The characters `strip(' .')` removes. */
  predicate IsSpaceOrDot(c: char)
  {
    c == ' ' || c == '.'
  }

  const MaxNameLength: nat := 50
  const DefaultName: string := "layer"

  /** The name with its reserved characters replaced and spaces and dots stripped from both ends. */
  function Stripped(name: string): string
  {
    Strip(ReplaceReserved(name), IsSpaceOrDot)
  }

  /** The number of spaces and dots `strip` removes from the front of the replaced name. */
  function Lead(name: string): nat
  {
    LeadingCount(ReplaceReserved(name), IsSpaceOrDot)
  }

  /**
   * `_sanitize_filename(filename)`: the reserved characters replaced, spaces and dots
   * stripped from both ends, the rest cut to 50 characters, and `layer` when nothing is left.
   */
  function SanitizeFilename(name: string): (r: string)
    ensures 0 < |r| <= MaxNameLength
    ensures forall k :: 0 <= k < |r| ==> !IsReserved(r[k])
    ensures !IsSpaceOrDot(r[0])
    ensures |r| < MaxNameLength ==> !IsSpaceOrDot(r[|r| - 1])
    ensures Stripped(name) == "" ==> r == DefaultName
    ensures Stripped(name) != "" ==>
              r == if |Stripped(name)| > MaxNameLength then Stripped(name)[..MaxNameLength] else Stripped(name)
  {
    var t := ReplaceReserved(name);
    SliceNoReserved(t, Strip(t, IsSpaceOrDot), LeadingCount(t, IsSpaceOrDot));
    Cut(Strip(t, IsSpaceOrDot))
  }

  /**
   * Unless nothing is left, the sanitised name is a contiguous piece of the replaced name
   * starting after the stripped spaces and dots, and when shorter than 50 only spaces and
   * dots follow it there.
   */
  lemma SanitizedIsSlice(name: string)
    ensures var r := SanitizeFilename(name);
            var t := ReplaceReserved(name);
            Stripped(name) != "" ==>
              Lead(name) + |r| <= |t| && r == t[Lead(name)..Lead(name) + |r|]
              && (|r| < MaxNameLength ==> forall k :: Lead(name) + |r| <= k < |t| ==> IsSpaceOrDot(t[k]))
  {
    var t := ReplaceReserved(name);
    var s := Strip(t, IsSpaceOrDot);
    var i := LeadingCount(t, IsSpaceOrDot);
    if s != "" {
      assert Stripped(name) == s && Lead(name) == i;
      CutOfSlice(t, s, i);
      if |SanitizeFilename(name)| < MaxNameLength {
        assert SanitizeFilename(name) == s;
        StrippedTail(t, s, i);
      }
    }
  }

  /** After the stripped text only spaces and dots follow. */
  lemma StrippedTail(t: string, s: string, i: nat)
    requires s == Strip(t, IsSpaceOrDot) && i == LeadingCount(t, IsSpaceOrDot)
    ensures forall k :: i + |s| <= k < |t| ==> IsSpaceOrDot(t[k])
  {
  }

  /** The stripped text cut to 50 characters, or `layer` when nothing is left. */
  function Cut(s: string): (r: string)
    ensures 0 < |r| <= MaxNameLength
    ensures (forall k :: 0 <= k < |s| ==> !IsReserved(s[k])) ==> forall k :: 0 <= k < |r| ==> !IsReserved(r[k])
    ensures s != "" && !IsSpaceOrDot(s[0]) && !IsSpaceOrDot(s[|s| - 1]) ==>
              !IsSpaceOrDot(r[0]) && (|r| < MaxNameLength ==> !IsSpaceOrDot(r[|r| - 1]))
    ensures s == "" ==> r == DefaultName && !IsSpaceOrDot(r[0]) && !IsSpaceOrDot(r[|r| - 1])
  {
    NoReservedInDefault();
    if s == "" then DefaultName
    else if |s| > MaxNameLength then
      assert s[..MaxNameLength][0] == s[0];
      s[..MaxNameLength]
    else s
  }

  lemma NoReservedInDefault()
    ensures forall k :: 0 <= k < |DefaultName| ==> !IsReserved(DefaultName[k])
    ensures !IsSpaceOrDot(DefaultName[0]) && !IsSpaceOrDot(DefaultName[|DefaultName| - 1])
  {
  }

  /** A slice of a text without reserved characters has none either. */
  lemma SliceNoReserved(t: string, s: string, i: nat)
    requires i + |s| <= |t| && s == t[i..i + |s|]
    requires forall k :: 0 <= k < |t| ==> !IsReserved(t[k])
    ensures forall k :: 0 <= k < |s| ==> !IsReserved(s[k])
  {
    forall k | 0 <= k < |s|
      ensures !IsReserved(s[k])
    {
      assert s[k] == t[i + k];
    }
  }

  /** Cutting a slice of `t` to 50 characters leaves a slice of `t` at the same start. */
  lemma CutOfSlice(t: string, s: string, i: nat)
    requires i + |s| <= |t| && s == t[i..i + |s|]
    ensures var u := if |s| > MaxNameLength then s[..MaxNameLength] else s;
            i + |u| <= |t| && u == t[i..i + |u|]
  {
    if |s| > MaxNameLength {
      assert s[..MaxNameLength] == t[i..i + MaxNameLength];
    }
  }

  /** A name with nothing to replace or strip, of at most 50 characters, is kept as it is. */
  lemma SanitizeKeepsCleanName(name: string)
    requires 0 < |name| <= MaxNameLength
    requires forall k :: 0 <= k < |name| ==> !IsReserved(name[k])
    requires !IsSpaceOrDot(name[0]) && !IsSpaceOrDot(name[|name| - 1])
    ensures SanitizeFilename(name) == name
  {
    assert ReplaceReserved(name) == name;
    StripKeepsClean(name);
  }

  lemma StripKeepsClean(t: string)
    requires |t| > 0 && !IsSpaceOrDot(t[0]) && !IsSpaceOrDot(t[|t| - 1])
    ensures Strip(t, IsSpaceOrDot) == t
  {
    assert LeadingCount(t, IsSpaceOrDot) == 0;
    assert !IsSpaceOrDot(t[|t| - 1]);
  }

  /** A name of nothing but spaces and dots becomes `layer`. */
  lemma SanitizeBlankName(name: string)
    requires forall k :: 0 <= k < |name| ==> IsSpaceOrDot(name[k])
    ensures SanitizeFilename(name) == DefaultName
  {
    var t := ReplaceReserved(name);
    assert forall k :: 0 <= k < |t| ==> t[k] == name[k];
    assert LeadingCount(t, IsSpaceOrDot) == |t|;
  }

  /**
   * Stripping comes before truncation, so a long name whose 50th character is a dot
   * keeps that dot at the end of the result: only the start is guaranteed clean.
   */
  lemma TruncationCanEndInDot(name: string)
    requires |name| > MaxNameLength
    requires forall k :: 0 <= k < |name| ==> !IsReserved(name[k])
    requires !IsSpaceOrDot(name[0]) && !IsSpaceOrDot(name[|name| - 1])
    requires name[MaxNameLength - 1] == '.'
    ensures |SanitizeFilename(name)| == MaxNameLength
    ensures SanitizeFilename(name)[MaxNameLength - 1] == '.'
  {
    assert ReplaceReserved(name) == name;
    StripKeepsClean(name);
  }

  // ---------------------------------------------------------------- layers and their exports

  datatype LayerKind = Vector | Raster | Other

  /** A map layer: its name, its type and the number the host's `id()` gives it. */
  datatype MapLayer = MapLayer(name: string, kind: LayerKind, uid: nat)

  /**
   * `os.path.join(temp_dir, f'{layer_name}_{id(layer)}.kml')`, the path both exporters
   * write to, `temp_dir` (made by `mkdtemp`) having no trailing separator.
   */
  function KmlPath(tempDir: string, l: MapLayer): string
  {
    tempDir + "/" + SanitizeFilename(l.name) + "_" + NatText(l.uid) + ".kml"
  }

  /**
   * The identity number keeps apart the exports of two layers, even layers of the same
   * name: equal paths mean the same number.
   */
  lemma KmlPathsDistinct(tempDir: string, l1: MapLayer, l2: MapLayer)
    ensures KmlPath(tempDir, l1) == KmlPath(tempDir, l2) ==> l1.uid == l2.uid
  {
    TaggedNamesDistinct(tempDir + "/", SanitizeFilename(l1.name), l1.uid, SanitizeFilename(l2.name), l2.uid, ".kml");
  }

  lemma TaggedNamesDistinct(a: string, x1: string, u1: nat, x2: string, u2: nat, b: string)
    ensures a + x1 + "_" + NatText(u1) + b == a + x2 + "_" + NatText(u2) + b ==> u1 == u2
  {
    var t1, t2 := NatText(u1), NatText(u2);
    assert a + x1 + "_" + t1 + b == a + (x1 + "_" + t1) + b;
    assert a + x2 + "_" + t2 + b == a + (x2 + "_" + t2) + b;
    if a + (x1 + "_" + t1) + b == a + (x2 + "_" + t2) + b {
      FrameCancels(a, x1 + "_" + t1, x2 + "_" + t2, b);
      NatTextValue(u1);
      NatTextValue(u2);
      TagSplits(x1, t1, x2, t2);
    }
  }

  /** The text after the last `_` of `x + "_" + t`, for a digit string `t`, is `t`. */
  lemma TagSplits(x1: string, t1: string, x2: string, t2: string)
    requires IsDigits(t1) && IsDigits(t2) && x1 + "_" + t1 == x2 + "_" + t2
    ensures t1 == t2
  {
    assert forall k :: 0 <= k < |t1| ==> t1[k] != '_';
    assert forall k :: 0 <= k < |t2| ==> t2[k] != '_';
    LastIndexOfIsLast(x1, '_', t1);
    LastIndexOfIsLast(x2, '_', t2);
    assert t1 == (x1 + "_" + t1)[|x1| + 1..];
    assert t2 == (x2 + "_" + t2)[|x2| + 1..];
  }

  lemma FrameCancels(a: string, q1: string, q2: string, b: string)
    requires a + q1 + b == a + q2 + b
    ensures q1 == q2
  {
    var p := a + q1 + b;
    assert q1 == p[|a|..|p| - |b|];
    assert q2 == (a + q2 + b)[|a|..|p| - |b|];
  }

  /** Where a run in `tempDir` writes each layer's export. */
  function PathIn(tempDir: string): MapLayer -> string
  {
    l => KmlPath(tempDir, l)
  }

  /**
   * `_process_vector_layer` or `_process_raster_layer`: the layer's KML path (`pathOf`,
   * which a run fixes to `PathIn(tempDir)`) when the host's writer (or GDAL) reported no
   * error and left a non-empty file, else None. `exported` stands for that outcome, the
   * coordinate transform and the style export included.
   */
  function ExportLayer(l: MapLayer, pathOf: MapLayer -> string, exported: MapLayer -> bool): (r: Option<string>)
    ensures r.Some? <==> exported(l)
    ensures r.Some? ==> r.value == pathOf(l)
  {
    if exported(l) then Some(pathOf(l)) else None
  }

  /**
   * What one layer adds to `processed_files`: nothing for a layer that is neither
   * vector nor raster, for a failed export, or for a file that does not exist.
   */
  function LayerFile(l: MapLayer, pathOf: MapLayer -> string, exported: MapLayer -> bool, fileExists: string -> bool)
    : Option<string>
  {
    if l.kind == Other then None
    else match ExportLayer(l, pathOf, exported)
      case None => None
      case Some(p) => if fileExists(p) then Some(p) else None
  }

  function FileOf(pathOf: MapLayer -> string, exported: MapLayer -> bool, fileExists: string -> bool): MapLayer -> Option<string>
  {
    l => LayerFile(l, pathOf, exported, fileExists)
  }

  /** The KML files collected from the layers visited, in layer order. */
  function ProcessedFiles(layers: seq<MapLayer>, pathOf: MapLayer -> string, exported: MapLayer -> bool,
                          fileExists: string -> bool): seq<string>
  {
    Somes(layers, FileOf(pathOf, exported, fileExists))
  }

  /**
   * The layer loop of `processAlgorithm`: cancellation is polled before each layer, the
   * progress `int(i / total * 90)` reported, the layer dispatched on its type, and its
   * file kept when the export produced one that exists.
   */
  method CollectLayers(layers: seq<MapLayer>, pathOf: MapLayer -> string, canceled: nat -> bool,
                       exported: MapLayer -> bool, fileExists: string -> bool)
    returns (files: seq<string>, visited: nat, progress: seq<nat>)
    ensures visited == CancelPoint(canceled, |layers|)
    ensures files == ProcessedFiles(layers[..visited], pathOf, exported, fileExists)
    ensures |progress| == visited
    ensures forall k :: 0 <= k < visited ==> progress[k] == k * 90 / |layers|
  {
    files, visited, progress := [], 0, [];
    ghost var g := FileOf(pathOf, exported, fileExists);
    while visited < |layers|
      invariant visited <= |layers|
      invariant forall j :: 0 <= j < visited ==> !canceled(j)
      invariant files == Somes(layers[..visited], g)
      invariant |progress| == visited
      invariant forall k :: 0 <= k < visited ==> progress[k] == k * 90 / |layers|
    {
      if canceled(visited) {
        break;
      }
      var layer := layers[visited];
      progress := progress + [visited * 90 / |layers|];
      SomesStep(layers, visited, g);
      if layer.kind == Other {
        visited := visited + 1;
        continue;
      }
      var kml := ExportLayer(layer, pathOf, exported);
      if kml.Some? && fileExists(kml.value) {
        files := files + [kml.value];
      }
      visited := visited + 1;
    }
  }

  /** Every collected file is the existing export of a vector or raster layer visited. */
  lemma ProcessedFileFromLayer(layers: seq<MapLayer>, pathOf: MapLayer -> string, exported: MapLayer -> bool,
                               fileExists: string -> bool, j: nat)
    requires j < |ProcessedFiles(layers, pathOf, exported, fileExists)|
    ensures var p := ProcessedFiles(layers, pathOf, exported, fileExists)[j];
            fileExists(p) && exists k :: 0 <= k < |layers| && layers[k].kind != Other && exported(layers[k])
                                     && p == pathOf(layers[k])
  {
    SomesOnly(layers, j, FileOf(pathOf, exported, fileExists));
  }

  /** Every vector or raster layer whose export exists is collected, at its place in layer order. */
  lemma ExportedLayerKept(layers: seq<MapLayer>, pathOf: MapLayer -> string, exported: MapLayer -> bool,
                          fileExists: string -> bool, k: nat)
    requires k < |layers| && layers[k].kind != Other && exported(layers[k])
    requires fileExists(pathOf(layers[k]))
    ensures var files := ProcessedFiles(layers, pathOf, exported, fileExists);
            var at := |ProcessedFiles(layers[..k], pathOf, exported, fileExists)|;
            at < |files| && files[at] == pathOf(layers[k])
  {
    SomesAt(layers, k, FileOf(pathOf, exported, fileExists));
  }

  /** Of two collected layers, the earlier one's file comes first. */
  lemma ProcessedInLayerOrder(layers: seq<MapLayer>, pathOf: MapLayer -> string, exported: MapLayer -> bool,
                              fileExists: string -> bool, k1: nat, k2: nat)
    requires k1 < k2 <= |layers|
    requires LayerFile(layers[k1], pathOf, exported, fileExists).Some?
    ensures |ProcessedFiles(layers[..k1], pathOf, exported, fileExists)|
            < |ProcessedFiles(layers[..k2], pathOf, exported, fileExists)|
  {
    SomesOrder(layers, k1, k2, FileOf(pathOf, exported, fileExists));
  }

  /** The reported progress lies in [0, 90) and never goes back. */
  lemma LayerProgressBounded(total: nat, i: nat, j: nat)
    requires i <= j < total
    ensures i * 90 / total <= j * 90 / total < 90
  {
    DivMonotone(i * 90, j * 90, total);
    var q := j * 90 / total;
    assert q * total <= j * 90 < 90 * total;
    MulCancel(q, 90, total);
  }

  // ---------------------------------------------------------------- Folder extraction

  const FolderOpen: string := "<Folder>"
  const FolderClose: string := "</Folder>"

  predicate OccursAt(s: string, t: string, i: nat)
  {
    i + |t| <= |s| && s[i..i + |t|] == t
  }

  /** The first position at or after `from` where `t` occurs in `s`. */
  function FindFrom(s: string, t: string, from: nat): (r: Option<nat>)
    requires from <= |s| && |t| > 0
    ensures r.Some? ==> from <= r.value && OccursAt(s, t, r.value)
    ensures r.Some? ==> forall j :: from <= j < r.value ==> !OccursAt(s, t, j)
    ensures r.None? ==> forall j :: from <= j <= |s| ==> !OccursAt(s, t, j)
    decreases |s| - from
  {
    if from + |t| > |s| then None
    else if OccursAt(s, t, from) then Some(from)
    else FindFrom(s, t, from + 1)
  }

  /** `<Folder>.*?</Folder>` under DOTALL matches `s[i..e]`. */
  ghost predicate FolderMatch(s: string, i: nat, e: nat)
  {
    OccursAt(s, FolderOpen, i) && i + |FolderOpen| + |FolderClose| <= e <= |s|
    && OccursAt(s, FolderClose, e - |FolderClose|)
  }

  /** From the first `<Folder>` through the first `</Folder>` beginning at or after that tag's end. */
  function FolderSpan(s: string): (r: Option<(nat, nat)>)
    ensures r.Some? ==> FolderMatch(s, r.value.0, r.value.1)
  {
    match FindFrom(s, FolderOpen, 0)
    case None => None
    case Some(i) =>
      match FindFrom(s, FolderClose, i + |FolderOpen|)
      case None => None
      case Some(j) => Some((i, j + |FolderClose|))
  }

  /**
   * The span is what `re.search` returns: there is one exactly when the pattern matches
   * somewhere, and then it starts at the leftmost match and is the shortest match there.
   */
  lemma FolderSpanIsRegexMatch(s: string)
    ensures FolderSpan(s).None? <==> forall i: nat, e: nat :: !FolderMatch(s, i, e)
    ensures FolderSpan(s).Some? ==>
      forall i: nat, e: nat :: FolderMatch(s, i, e) ==>
        FolderSpan(s).value.0 < i || (FolderSpan(s).value.0 == i && FolderSpan(s).value.1 <= e)
  {
    var open := FindFrom(s, FolderOpen, 0);
    if open.Some? {
      var a := open.value;
      var close := FindFrom(s, FolderClose, a + |FolderOpen|);
      forall i: nat, e: nat | FolderMatch(s, i, e)
        ensures close.Some? && (a < i || (a == i && close.value + |FolderClose| <= e))
      {
        assert a <= i;
        assert a + |FolderOpen| <= e - |FolderClose|;
      }
    }
  }

  /**
   * The text of the first match: `.group(0)` of the search, or None where the search
   * finds nothing (where `.group(0)` fails).
   */
  function ExtractFolder(s: string): (r: Option<string>)
    ensures r.Some? <==> FolderSpan(s).Some?
    ensures r.Some? ==> |FolderOpen| + |FolderClose| <= |r.value|
                        && r.value[..|FolderOpen|] == FolderOpen
                        && r.value[|r.value| - |FolderClose|..] == FolderClose
  {
    match FolderSpan(s)
    case None => None
    case Some((i, e)) =>
      assert s[i..e][..|FolderOpen|] == s[i..i + |FolderOpen|];
      assert s[i..e][e - i - |FolderClose|..] == s[e - |FolderClose|..e];
      Some(s[i..e])
  }

  /** The extracted block is a contiguous piece of the export. */
  lemma ExtractedBlockIsSlice(s: string)
    requires ExtractFolder(s).Some?
    ensures var (i, e) := FolderSpan(s).value;
            i <= e <= |s| && ExtractFolder(s).value == s[i..e]
  {
  }

  /** The match is non-greedy: no `</Folder>` begins inside the block before its closing tag. */
  lemma ExtractedBlockIsShortest(s: string)
    requires ExtractFolder(s).Some?
    ensures var b := ExtractFolder(s).value;
            forall j :: |FolderOpen| <= j < |b| - |FolderClose| ==> !OccursAt(b, FolderClose, j)
  {
    var (i, e) := FolderSpan(s).value;
    var b := s[i..e];
    forall j | |FolderOpen| <= j < |b| - |FolderClose|
      ensures !OccursAt(b, FolderClose, j)
    {
      SliceOccurs(s, i, e, FolderClose, j);
    }
  }

  /** An occurrence inside a slice is an occurrence in the whole, shifted by the slice's start. */
  lemma SliceOccurs(s: string, i: nat, e: nat, t: string, j: nat)
    requires i <= e <= |s| && j + |t| <= e - i
    ensures OccursAt(s[i..e], t, j) <==> OccursAt(s, t, i + j)
  {
    var a, b := s[i..e][j..j + |t|], s[i + j..i + j + |t|];
    assert |a| == |b| && forall m :: 0 <= m < |a| ==> a[m] == s[i + j + m] == b[m];
    assert a == b;
  }

  // ---------------------------------------------------------------- the master document

  /** `os.path.splitext(os.path.basename(output_kmz))[0]`, written unescaped. */
  function MasterName(output: string): string
  {
    SplitExtRoot(BaseName(output))
  }

  function MasterHeader(output: string): string
  {
    XmlDeclaration + KmlOpen + DocumentOpen + MasterName(output) + NameClose
  }

  function MasterDocument(output: string, blocks: seq<string>): string
  {
    MasterHeader(output) + Concat(blocks) + DocumentFooter
  }

  /** The block a listed KML file contributes: its Folder when the file exists, nothing when it does not. */
  function BlockOf(fileExists: string -> bool, read: string -> string): string -> Option<string>
  {
    Present(fileExists, FolderIn(read))
  }

  /** The Folder of a file's text. */
  function FolderIn(read: string -> string): string -> Option<string>
  {
    f => ExtractFolder(read(f))
  }

  /** A file's block under `folderOf`, for files that exist. */
  function Present(fileExists: string -> bool, folderOf: string -> Option<string>): string -> Option<string>
  {
    f => if fileExists(f) then folderOf(f) else None
  }

  /** Every listed file that exists has a block under `folderOf`. */
  predicate AllPresent(files: seq<string>, fileExists: string -> bool, folderOf: string -> Option<string>)
  {
    forall k :: 0 <= k < |files| ==> Placed(files[k], fileExists, folderOf)
  }

  predicate Placed(f: string, fileExists: string -> bool, folderOf: string -> Option<string>)
  {
    fileExists(f) ==> folderOf(f).Some?
  }

  /** Under `FolderIn(read)`, having a block is having a Folder. */
  lemma PresentIffFolder(files: seq<string>, fileExists: string -> bool, read: string -> string)
    ensures AllPresent(files, fileExists, FolderIn(read)) <==> AllHaveFolder(files, fileExists, read)
  {
    assert forall k :: 0 <= k < |files| ==>
      (Placed(files[k], fileExists, FolderIn(read)) <==> HasFolder(files[k], fileExists, read));
  }

  /** A listed file that exists holds a Folder. */
  predicate HasFolder(f: string, fileExists: string -> bool, read: string -> string)
  {
    fileExists(f) ==> ExtractFolder(read(f)).Some?
  }

  /** Every listed file that exists holds a Folder. */
  predicate AllHaveFolder(files: seq<string>, fileExists: string -> bool, read: string -> string)
  {
    forall k :: 0 <= k < |files| ==> HasFolder(files[k], fileExists, read)
  }

  datatype PackageError = NoInputLayers | NoLayersProcessed | KmzCreationFailed

  /**
   * What `_create_kmz_file` leaves: an archive holding `doc.kml` alone, or the error it
   * raises when the archive cannot be opened or when some existing file has no Folder.
   */
  function KmzOf(files: seq<string>, output: string, zipOpens: bool, fileExists: string -> bool,
                 read: string -> string): Result<Archive, PackageError>
  {
    if zipOpens && AllHaveFolder(files, fileExists, read)
    then Success(Archive([DocEntry], MasterDocument(output, Somes(files, BlockOf(fileExists, read)))))
    else Failure(KmzCreationFailed)
  }

  /**
   * `_create_kmz_file(kml_files, output_kmz)`: the master text is the header, the Folder
   * of each listed file that exists, and the closing tags; one file without a Folder
   * makes the whole build fail. `zipOpens` is whether the output archive could be created.
   */
  method CreateKmzFile(kmlFiles: seq<string>, output: string, zipOpens: bool, fileExists: string -> bool,
                       read: string -> string)
    returns (r: Result<Archive, PackageError>)
    ensures r == KmzOf(kmlFiles, output, zipOpens, fileExists, read)
  {
    if !zipOpens {
      return Failure(KmzCreationFailed);
    }
    PresentIffFolder(kmlFiles, fileExists, read);
    var master := AppendFolders(MasterHeader(output), kmlFiles, fileExists, FolderIn(read));
    if master.None? {
      return Failure(KmzCreationFailed);
    }
    r := Success(Archive([DocEntry], master.value + DocumentFooter));
  }

  /**
   * The file loop of `_create_kmz_file`: `master_kml` grows by the Folder of each listed
   * file that exists (`folderOf`, `FolderIn(read)` in a run), and the first such file
   * without one ends the build (None).
   */
  method AppendFolders(prefix: string, kmlFiles: seq<string>, fileExists: string -> bool,
                       folderOf: string -> Option<string>)
    returns (master: Option<string>)
    ensures master.Some? <==> AllPresent(kmlFiles, fileExists, folderOf)
    ensures master.Some? ==> master.value == prefix + Concat(Somes(kmlFiles, Present(fileExists, folderOf)))
  {
    var text := prefix;
    for i := 0 to |kmlFiles|
      invariant text == prefix + Concat(Somes(kmlFiles[..i], Present(fileExists, folderOf)))
      invariant forall k :: 0 <= k < i ==> Placed(kmlFiles[k], fileExists, folderOf)
    {
      PresentStep(kmlFiles, i, fileExists, folderOf);
      if fileExists(kmlFiles[i]) {
        var folder := folderOf(kmlFiles[i]);
        if folder.None? {
          assert !Placed(kmlFiles[i], fileExists, folderOf);
          return None;
        }
        ConcatSnocAfter(prefix, Somes(kmlFiles[..i], Present(fileExists, folderOf)), folder.value);
        text := text + folder.value;
      }
    }
    assert kmlFiles[..|kmlFiles|] == kmlFiles;
    master := Some(text);
  }

  /** The step the file loop takes at position `i`. */
  lemma PresentStep(files: seq<string>, i: nat, fileExists: string -> bool, folderOf: string -> Option<string>)
    requires i < |files|
    ensures fileExists(files[i]) && folderOf(files[i]).Some? ==>
              Somes(files[..i + 1], Present(fileExists, folderOf))
              == Somes(files[..i], Present(fileExists, folderOf)) + [folderOf(files[i]).value]
    ensures !fileExists(files[i]) ==>
              Somes(files[..i + 1], Present(fileExists, folderOf)) == Somes(files[..i], Present(fileExists, folderOf))
  {
    SomesStep(files, i, Present(fileExists, folderOf));
  }

  /** One existing export without a Folder aborts the whole archive, not just its layer. */
  lemma MissingFolderAbortsKmz(files: seq<string>, output: string, fileExists: string -> bool,
                               read: string -> string, k: nat)
    requires k < |files| && fileExists(files[k]) && ExtractFolder(read(files[k])).None?
    ensures KmzOf(files, output, true, fileExists, read) == Failure(KmzCreationFailed)
  {
  }

  /**
   * When every listed file exists, the master document holds one block per file, in
   * list order, each the Folder of that file; `doc.kml` is the only entry.
   */
  lemma {:induction false} MasterHoldsEveryBlock(files: seq<string>, output: string, fileExists: string -> bool,
                                                 read: string -> string)
    requires forall k :: 0 <= k < |files| ==> fileExists(files[k])
    requires KmzOf(files, output, true, fileExists, read).Success?
    ensures var blocks := Somes(files, BlockOf(fileExists, read));
            var archive := KmzOf(files, output, true, fileExists, read).value;
            archive.entries == [DocEntry] && archive.doc == MasterDocument(output, blocks)
            && |blocks| == |files|
            && forall k :: 0 <= k < |files| ==> blocks[k] == ExtractFolder(read(files[k])).value
  {
    var g := BlockOf(fileExists, read);
    assert forall k :: 0 <= k < |files| ==> g(files[k]) == ExtractFolder(read(files[k]));
    assert forall k :: 0 <= k < |files| ==> g(files[k]).Some?;
    SomesAll(files, g);
  }

  /**
   * The master name is the output file's stem (`survey` for `dir/survey.kmz`), whatever
   * directory it is in, and unescaped.
   */
  lemma MasterNameIsStem(dir: string, stem: string, ext: string)
    requires stem != "" && '/' !in stem && '.' !in stem && '/' !in ext && '.' !in ext
    ensures MasterName(dir + "/" + stem + "." + ext) == stem
  {
    assert dir + "/" + stem + "." + ext == dir + "/" + (stem + "." + ext);
    BaseNameAfterSlash(dir, stem + "." + ext);
    StemBeforeExtension(stem, ext);
  }

  lemma BaseNameAfterSlash(dir: string, base: string)
    requires '/' !in base
    ensures BaseName(dir + "/" + base) == base
  {
    var p := dir + "/" + base;
    LastIndexOfIsLast(dir, '/', base);
    assert p[|dir| + 1..] == base;
  }

  lemma StemBeforeExtension(stem: string, ext: string)
    requires stem != "" && '/' !in stem && '.' !in stem && '/' !in ext && '.' !in ext
    ensures SplitExtRoot(stem + "." + ext) == stem
  {
    var p := stem + "." + ext;
    LastIndexOfIsLast(stem, '.', ext);
    assert '/' !in p;
    assert p[..|stem|] == stem;
    assert p[..|stem|][0] != '.';
  }

  /** The last `c` of `a + [c] + b`, when `b` has none, is the one between them. */
  lemma LastIndexOfIsLast(a: string, c: char, b: string)
    requires c !in b
    ensures LastIndexOf(a + [c] + b, c) == Some(|a|)
  {
    var s := a + [c] + b;
    assert s[|a|] == c;
    assert s[|a| + 1..] == b;
  }

  // ---------------------------------------------------------------- the run

  /** What a successful run leaves: the archive, the collected files, the layers visited, progress. */
  datatype PackageRun = PackageRun(archive: Archive, files: seq<string>, visited: nat, progress: seq<nat>)

  /** What a successful run over `layers` produces. */
  ghost predicate PackageOutcome(layers: seq<MapLayer>, tempDir: string, output: string, canceled: nat -> bool,
                                 exported: MapLayer -> bool, fileExists: string -> bool, read: string -> string,
                                 run: PackageRun)
  {
    var n := CancelPoint(canceled, |layers|);
    run.visited == n
    && run.files == ProcessedFiles(layers[..n], PathIn(tempDir), exported, fileExists) && run.files != []
    && KmzOf(run.files, output, true, fileExists, read) == Success(run.archive)
    && |run.progress| == n + 1 && run.progress[n] == 100
    && (forall k :: 0 <= k < n ==> run.progress[k] == k * 90 / |layers|)
  }

  /** `processAlgorithm`, with `tempDir` the directory `mkdtemp` made. */
  method PackageLayersToKmz(layers: seq<MapLayer>, tempDir: string, output: string, canceled: nat -> bool,
                            exported: MapLayer -> bool, fileExists: string -> bool, read: string -> string,
                            zipOpens: bool)
    returns (r: Result<PackageRun, PackageError>)
    ensures |layers| == 0 <==> r == Failure(NoInputLayers)
    ensures |layers| > 0 ==>
      var files := ProcessedFiles(layers[..CancelPoint(canceled, |layers|)], PathIn(tempDir), exported, fileExists);
      (files == [] <==> r == Failure(NoLayersProcessed))
      && (files != [] ==> (r.Success? <==> KmzOf(files, output, zipOpens, fileExists, read).Success?))
    ensures r.Failure? ==> r.error == NoInputLayers || r.error == NoLayersProcessed || r.error == KmzCreationFailed
    ensures r.Success? ==> zipOpens && PackageOutcome(layers, tempDir, output, canceled, exported, fileExists, read, r.value)
  {
    if |layers| == 0 {
      return Failure(NoInputLayers);
    }
    var files, visited, progress := CollectLayers(layers, PathIn(tempDir), canceled, exported, fileExists);
    if files == [] {
      return Failure(NoLayersProcessed);
    }
    var kmz := CreateKmzFile(files, output, zipOpens, fileExists, read);
    if kmz.Failure? {
      return Failure(kmz.error);
    }
    progress := progress + [100];
    r := Success(PackageRun(kmz.value, files, visited, progress));
  }
}
