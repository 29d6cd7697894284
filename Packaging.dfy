/** What every conversion run shares: the archive layout and the cooperative cancellation poll. */
module Packaging {

  /** A written KMZ: the entry names in the order they are written, and the text of `doc.kml`. */
  datatype Archive = Archive(entries: seq<string>, doc: string)

  const DocEntry: string := "doc.kml"

  /** The archive path of a staged photo. */
  function PhotoEntry(name: string): string
  {
    "Photos/" + name
  }

  /**
   * The index of the first iteration, among `from`..`n`-1, at which the host reports
   * cancellation, or `n` when it never does.
   */
  function CancelPointFrom(canceled: nat -> bool, n: nat, from: nat): (k: nat)
    requires from <= n
    ensures from <= k <= n
    ensures forall j :: from <= j < k ==> !canceled(j)
    ensures k < n ==> canceled(k)
    decreases n - from
  {
    if from == n then n else if canceled(from) then from else CancelPointFrom(canceled, n, from + 1)
  }

  /** How many iterations of an `n`-step loop that polls `canceled` before each step run. */
  function CancelPoint(canceled: nat -> bool, n: nat): (k: nat)
    ensures k <= n
    ensures forall j :: 0 <= j < k ==> !canceled(j)
    ensures k < n ==> canceled(k)
  {
    CancelPointFrom(canceled, n, 0)
  }

  /** Distinct photos have distinct archive paths, and none of them is `doc.kml`. */
  lemma PhotoEntryInjective(x: string, y: string)
    ensures PhotoEntry(x) == PhotoEntry(y) ==> x == y
    ensures PhotoEntry(x) != DocEntry
  {
    if PhotoEntry(x) == PhotoEntry(y) {
      assert x == PhotoEntry(x)[7..] && y == PhotoEntry(y)[7..];
    }
    assert PhotoEntry(x)[0] == 'P';
  }

  ghost predicate Distinct(s: seq<string>)
  {
    forall i, j :: 0 <= i < j < |s| ==> s[i] != s[j]
  }

  /**
   * The entry names written by `zipfile` for a run: `doc.kml` first, then one
   * `Photos/<name>` per staged photo, in the (unspecified) iteration order of the
   * staged set, which `order` records.
   */
  method ZipEntries(photos: set<string>) returns (entries: seq<string>, ghost order: seq<string>)
    ensures |order| == |photos| && Distinct(order)
    ensures forall x :: x in photos <==> x in order
    ensures |entries| == |photos| + 1 && entries[0] == DocEntry
    ensures forall k :: 0 <= k < |order| ==> entries[k + 1] == PhotoEntry(order[k])
    ensures forall x :: x in photos <==> PhotoEntry(x) in entries[1..]
  {
    entries, order := [DocEntry], [];
    var rest := photos;
    while rest != {}
      invariant rest <= photos
      invariant forall x :: x in order <==> x in photos && x !in rest
      invariant |order| + |rest| == |photos|
      invariant Distinct(order)
      invariant |entries| == |order| + 1 && entries[0] == DocEntry
      invariant forall k :: 0 <= k < |order| ==> entries[k + 1] == PhotoEntry(order[k])
      decreases |rest|
    {
      var x :| x in rest;
      entries, order := entries + [PhotoEntry(x)], order + [x];
      rest := rest - {x};
    }
    forall x
      ensures x in photos <==> PhotoEntry(x) in entries[1..]
    {
      if x in photos {
        var k :| 0 <= k < |order| && order[k] == x;
        assert entries[1..][k] == PhotoEntry(x);
      }
      if PhotoEntry(x) in entries[1..] {
        var j :| 0 <= j < |entries| - 1 && entries[1..][j] == PhotoEntry(x);
        PhotoEntryInjective(x, order[j]);
      }
    }
  }

  /**
   * The frame every generated `doc.kml` shares: the XML declaration, the `kml` and
   * `Document` openers up to the document's `<name>`, and the closing tags.
   */
  const XmlDeclaration: string := "<?xml version=\"1.0\" encoding=\"UTF-8\"?>\n"
  const KmlOpen: string := "<kml xmlns=\"http://www.opengis.net/kml/2.2\">\n"
  const DocumentOpen: string := "  <Document>\n    <name>"
  const NameClose: string := "</name>\n"
  const DocumentFooter: string := "  </Document>\n</kml>"

  /** The pieces around a Placemark's name, its CDATA description and its geometry element. */
  const PlacemarkOpen: string := "    <Placemark>\n      <name>"
  const DescriptionOpen: string := "</name>\n      <description><![CDATA["
  const DescriptionClose: string := "]]></description>\n"
  const PlacemarkClose: string := "\n    </Placemark>\n"

  /** `x * d < y * d` with a positive `d` gives `x < y`. */
  lemma MulCancel(x: int, y: int, d: int)
    requires d > 0 && x * d < y * d
    ensures x < y
  {
    assert (y - x) * d == y * d - x * d;
  }

  /** Progress is computed by floor division, which is monotone in the numerator. */
  lemma DivMonotone(a: nat, b: nat, d: nat)
    requires a <= b && d > 0
    ensures a / d <= b / d
  {
    var q, p := a / d, b / d;
    assert q * d <= a;
    assert b < (p + 1) * d;
    MulCancel(q, p + 1, d);
  }

  /** Dividing a multiple of `d` by `d` is exact. */
  lemma MulDivExact(k: nat, d: nat)
    requires d > 0
    ensures k * d / d == k
  {
    var q := k * d / d;
    assert q * d <= k * d < (q + 1) * d;
    MulCancel(q, k + 1, d);
    MulCancel(k, q + 1, d);
  }
}
