/**
 * Per-tile decisions taken before any geometry is read: the SWBD shapefile
 * name of a one-degree tile, the search for the first dataset suffix whose
 * file exists, and the sentinel written when no file exists.
 */
module TileName {
  import opened BitStream
  import opened Layout
  import opened Options

  /** The dataset suffixes in the order they are listed. */
  const Datasets: seq<char> := ['a', 'e', 'f', 'i', 'n', 's', 'x']
  /** Only the first six suffixes are tried; 'x' never is. */
  const TriedDatasets: nat := 6

  function Pow10(n: nat): (r: nat)
    ensures r >= 1
  {
    if n == 0 then 1 else 10 * Pow10(n - 1)
  }

  function DigitChar(d: nat): (c: char)
    requires d < 10
    ensures '0' <= c <= '9'
  {
    ('0' as int + d) as char
  }

  /** v in exactly `width` decimal digits, zero-padded on the left (printf's %0<width>d). */
  function ZeroPadded(v: nat, width: nat): (s: string)
    requires v < Pow10(width)
    ensures |s| == width
    ensures forall i :: 0 <= i < |s| ==> '0' <= s[i] <= '9'
  {
    if width == 0 then [] else ZeroPadded(v / 10, width - 1) + [DigitChar(v % 10)]
  }

  /** The value of a string of decimal digits. */
  function DigitsValue(s: string): nat
    requires forall i :: 0 <= i < |s| ==> '0' <= s[i] <= '9'
  {
    if s == [] then 0 else 10 * DigitsValue(s[..|s| - 1]) + (s[|s| - 1] as int - '0' as int)
  }

  /** Zero padding loses nothing: the digits read back as the value. */
  lemma {:induction false} ZeroPaddedValue(v: nat, width: nat)
    requires v < Pow10(width)
    ensures DigitsValue(ZeroPadded(v, width)) == v
  {
    if width > 0 {
      var s := ZeroPadded(v, width);
      assert s[..|s| - 1] == ZeroPadded(v / 10, width - 1);
      ZeroPaddedValue(v / 10, width - 1);
    }
  }

  function Abs(x: int): nat
  {
    if x < 0 then -x else x
  }

  function LonHemisphere(lon: int): (c: char)
    ensures c == 'w' || c == 'e'
    ensures c == 'w' <==> lon < 0
  {
    if lon < 0 then 'w' else 'e'
  }

  function LatHemisphere(lat: int): (c: char)
    ensures c == 's' || c == 'n'
    ensures c == 's' <==> lat < 0
  {
    if lat < 0 then 's' else 'n'
  }

  /**
   * The name, inside the SWBD directory, of the shapefile for tile lat, lon
   * and dataset suffix number ds: "w123s45a.shp".
   */
  function ShapeFileName(lat: int, lon: int, ds: nat): (name: string)
    requires ValidTile(lat, lon) && ds < |Datasets|
    ensures |name| == 12
    ensures name[0] == LonHemisphere(lon) && name[4] == LatHemisphere(lat) && name[7] == Datasets[ds]
    ensures forall i :: (1 <= i < 4 || 5 <= i < 7) ==> '0' <= name[i] <= '9'
    ensures name[8..] == ".shp"
  {
    [LonHemisphere(lon)] + ZeroPadded(Abs(lon), 3) + [LatHemisphere(lat)] + ZeroPadded(Abs(lat), 2)
      + [Datasets[ds]] + ".shp"
  }

  function IndexOf(s: seq<char>, c: char): (r: Option<nat>)
    ensures r.Some? ==> r.value < |s| && s[r.value] == c && c !in s[..r.value]
    ensures r.None? ==> c !in s
  {
    if s == [] then None
    else if s[0] == c then Some(0)
    else match IndexOf(s[1..], c)
      case None => None
      case Some(i) => Some(i + 1)
  }

  /** Reads tile and dataset back from a shapefile name. */
  function ParseShapeFileName(name: string): Option<(int, int, nat)>
  {
    if |name| != 12 || name[8..] != ".shp" then None
    else if !(name[0] in "we" && name[4] in "sn") then None
    else if !(forall i | 1 <= i < 7 && i != 4 :: '0' <= name[i] <= '9') then None
    else
      var lon: int := DigitsValue(name[1..4]);
      var lat: int := DigitsValue(name[5..7]);
      match IndexOf(Datasets, name[7])
      case None => None
      case Some(ds) =>
        Some((if name[4] == 's' then -lat else lat, if name[0] == 'w' then -lon else lon, ds))
  }

  /** Every tile and suffix gets its own name: the name reads back as both. */
  lemma ShapeFileNameRoundTrip(lat: int, lon: int, ds: nat)
    requires ValidTile(lat, lon) && ds < |Datasets|
    ensures ParseShapeFileName(ShapeFileName(lat, lon, ds)) == Some((lat, lon, ds))
  {
    var name := ShapeFileName(lat, lon, ds);
    var lonDigits, latDigits := ZeroPadded(Abs(lon), 3), ZeroPadded(Abs(lat), 2);
    assert name == [LonHemisphere(lon)] + lonDigits + [LatHemisphere(lat)] + latDigits + [Datasets[ds]] + ".shp";
    assert name[1..4] == lonDigits && name[5..7] == latDigits && name[8..] == ".shp";
    assert DigitsValue(name[1..4]) == Abs(lon) by { ZeroPaddedValue(Abs(lon), 3); }
    assert DigitsValue(name[5..7]) == Abs(lat) by { ZeroPaddedValue(Abs(lat), 2); }
    assert forall i | 1 <= i < 7 && i != 4 :: '0' <= name[i] <= '9' by {
      assert forall i | 1 <= i < 4 :: name[i] == lonDigits[i - 1];
      assert forall i | 5 <= i < 7 :: name[i] == latDigits[i - 5];
    }
    assert name[7] == Datasets[ds];
    SuffixIndex(ds);
    ParseFromParts(name, lat, lon, ds);
  }

  /** Every suffix is found at its own position: the suffixes are distinct. */
  lemma SuffixIndex(ds: nat)
    requires ds < |Datasets|
    ensures IndexOf(Datasets, Datasets[ds]) == Some(ds)
  {
    assert Datasets[0] < Datasets[1] < Datasets[2] < Datasets[3] < Datasets[4] < Datasets[5] < Datasets[6];
    IndexOfIncreasing(Datasets, ds);
  }

  /** In a strictly increasing sequence IndexOf finds each element at its own position. */
  lemma {:induction false} IndexOfIncreasing(s: seq<char>, k: nat)
    requires k < |s|
    requires forall j :: 0 <= j < |s| - 1 ==> s[j] < s[j + 1]
    ensures IndexOf(s, s[k]) == Some(k)
  {
    if k > 0 {
      FirstIsLeast(s, k);
      assert s[1..][k - 1] == s[k];
      IndexOfIncreasing(s[1..], k - 1);
    }
  }

  /** The head of a strictly increasing sequence is below every later element. */
  lemma {:induction false} FirstIsLeast(s: seq<char>, k: nat)
    requires 0 < k < |s|
    requires forall j :: 0 <= j < |s| - 1 ==> s[j] < s[j + 1]
    ensures s[0] < s[k]
  {
    if k > 1 {
      FirstIsLeast(s, k - 1);
    }
  }

  /** How ParseShapeFileName reads a well-formed name, field by field. */
  lemma ParseFromParts(name: string, lat: int, lon: int, ds: nat)
    requires |name| == 12 && name[8..] == ".shp" && ds < |Datasets|
    requires name[0] == LonHemisphere(lon) && name[4] == LatHemisphere(lat)
    requires forall i | 1 <= i < 7 && i != 4 :: '0' <= name[i] <= '9'
    requires DigitsValue(name[1..4]) == Abs(lon) && DigitsValue(name[5..7]) == Abs(lat)
    requires IndexOf(Datasets, name[7]) == Some(ds)
    ensures ParseShapeFileName(name) == Some((lat, lon, ds))
  {
  }

  /** Distinct tiles or suffixes never share a shapefile name. */
  lemma ShapeFileNameInjective(lat: int, lon: int, ds: nat, lat': int, lon': int, ds': nat)
    requires ValidTile(lat, lon) && ds < |Datasets|
    requires ValidTile(lat', lon') && ds' < |Datasets|
    requires ShapeFileName(lat, lon, ds) == ShapeFileName(lat', lon', ds')
    ensures lat == lat' && lon == lon' && ds == ds'
  {
    ShapeFileNameRoundTrip(lat, lon, ds);
    ShapeFileNameRoundTrip(lat', lon', ds');
  }

  /** The first suffix from ds on, among the tried ones, whose file exists. */
  function FirstDatasetFrom(lat: int, lon: int, fileExists: string -> bool, ds: nat): (r: Option<nat>)
    requires ValidTile(lat, lon)
    ensures r.Some? ==> ds <= r.value < TriedDatasets
    decreases TriedDatasets - ds
  {
    if ds >= TriedDatasets then None
    else if fileExists(ShapeFileName(lat, lon, ds)) then Some(ds)
    else FirstDatasetFrom(lat, lon, fileExists, ds + 1)
  }

  /** The suffix whose shapefile the tile is read from, if any. */
  function FirstDataset(lat: int, lon: int, fileExists: string -> bool): Option<nat>
    requires ValidTile(lat, lon)
  {
    FirstDatasetFrom(lat, lon, fileExists, 0)
  }

  /**
   * FirstDataset is the first tried suffix with an existing file: it is found
   * exactly when one of the six exists, it is never 'x', and no earlier
   * suffix has a file.
   */
  lemma {:induction false} FirstDatasetFromIsFirst(lat: int, lon: int, fileExists: string -> bool, ds: nat)
    requires ValidTile(lat, lon)
    ensures var r := FirstDatasetFrom(lat, lon, fileExists, ds);
      && (r.Some? <==> exists d :: ds <= d < TriedDatasets && fileExists(ShapeFileName(lat, lon, d)))
      && (r.Some? ==> ds <= r.value < TriedDatasets && fileExists(ShapeFileName(lat, lon, r.value)))
      && (r.Some? ==> forall d :: ds <= d < r.value ==> !fileExists(ShapeFileName(lat, lon, d)))
    decreases TriedDatasets - ds
  {
    if ds < TriedDatasets && !fileExists(ShapeFileName(lat, lon, ds)) {
      FirstDatasetFromIsFirst(lat, lon, fileExists, ds + 1);
    }
  }

  /**
   * The suffix search: suffixes are tried in order and the first whose file
   * exists is chosen; without one, found is false and ext stays 0.
   */
  method FindDataset(lat: int, lon: int, fileExists: string -> bool) returns (found: bool, ext: nat)
    requires ValidTile(lat, lon)
    ensures found <==> exists d :: 0 <= d < TriedDatasets && fileExists(ShapeFileName(lat, lon, d))
    ensures found ==> ext < TriedDatasets && fileExists(ShapeFileName(lat, lon, ext))
    ensures found ==> forall d :: 0 <= d < ext ==> !fileExists(ShapeFileName(lat, lon, d))
    ensures !found ==> ext == 0
    ensures FirstDataset(lat, lon, fileExists) == if found then Some(ext) else None
  {
    found, ext := false, 0;
    var ds := 0;
    while ds < TriedDatasets
      invariant 0 <= ds <= TriedDatasets
      invariant !found && ext == 0
      invariant forall d :: 0 <= d < ds ==> !fileExists(ShapeFileName(lat, lon, d))
      invariant FirstDataset(lat, lon, fileExists) == FirstDatasetFrom(lat, lon, fileExists, ds)
    {
      if fileExists(ShapeFileName(lat, lon, ds)) {
        found, ext := true, ds;
        return;
      }
      ds := ds + 1;
    }
  }

  /** The band, 57S to 59N, where the reference SRTM mask is consulted. */
  predicate InReferenceBand(lat: int): (b: bool)
    ensures b <==> !(lat < -57 || lat > 59)
  {
    -57 <= lat <= 59
  }

  /**
   * The sentinel for a tile without a shapefile: undefined outside the band;
   * inside it, all water when the reference mask reads 0 and all land otherwise.
   * landRef is the reference result at the tile centre, consulted only in the band.
   */
  function SentinelFor(lat: int, landRef: int): (value: nat)
    ensures value <= AllWater
    ensures value == Undefined <==> !InReferenceBand(lat)
    ensures value == AllWater <==> InReferenceBand(lat) && landRef == 0
    ensures value == AllLand <==> InReferenceBand(lat) && landRef != 0
  {
    if lat < -57 || lat > 59 then Undefined
    else if landRef == 0 then AllWater
    else AllLand
  }

  /** Outside the band the sentinel record is seven zero bytes, like an untouched record. */
  lemma OutsideBandRecordIsZero(lat: int, landRef: int)
    requires !InReferenceBand(lat)
    ensures SentinelRecord(SentinelFor(lat, landRef)) == Zeros(RecordSize)
  {
    UndefinedRecordIsZeros();
  }

  /** Inside the band the record holds 2 (water) or 1 (land) and a zero length field. */
  lemma InsideBandRecord(lat: int, landRef: int)
    requires InReferenceBand(lat)
    ensures DecodeRecord(SentinelRecord(SentinelFor(lat, landRef)))
         == Entry(if landRef == 0 then AllWater else AllLand, 0)
  {
  }
}
