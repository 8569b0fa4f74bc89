/**
 * The photo placement rules of the organiser (src/picchronicle.py): GPS
 * decoding, the image-extension filter, the choice of a date, the
 * `DEST/YYYY/MM/DD[/Place]` folder rule, the first-fit collision suffix and
 * the per-file move driven by a directory walk.
 *
 * Everything the script learns from the outside (EXIF decoding, file
 * timestamps, the reverse geocoder, the clock, whether `shutil.move` raises)
 * arrives as plain input values.
 */
module PicChronicle {
  import opened Wrappers
  import opened Text
  import opened Paths

  // =======================================================================
  // GPS coordinates
  // =======================================================================

  /** An EXIF rational: a (numerator, denominator) pair. */
  datatype Rational = Rational(num: int, den: int)

  /** A value found under a GPS tag. */
  datatype GpsValue =
    | Chars(text: string)            // a hemisphere reference such as "N"
    | Triple(parts: seq<Rational>)   // degrees, minutes, seconds
    | Integer(n: int)

  function RatValue(q: Rational): real
    requires q.den != 0
  {
    q.num as real / q.den as real
  }

  /** `ref in ['S', 'W']`: only these two references flip the sign. */
  predicate IsSouthOrWest(ref: GpsValue) {
    ref == Chars("S") || ref == Chars("W")
  }

  /** The value has the three rational parts the conversion indexes and divides by. */
  predicate Convertible(dms: GpsValue) {
    && dms.Triple?
    && |dms.parts| >= 3
    && dms.parts[0].den != 0 && dms.parts[1].den != 0 && dms.parts[2].den != 0
  }

  /** `get_decimal_from_dms`: None stands for the ZeroDivisionError, IndexError or
      TypeError the Python raises on a value it cannot convert. */
  function DecimalFromDms(dms: GpsValue, ref: GpsValue): (r: Option<real>)
    ensures r.Some? <==> Convertible(dms)
    ensures r.Some? ==>
      var d, m, s := dms.parts[0], dms.parts[1], dms.parts[2];
      var magnitude := d.num as real / d.den as real
                       + (m.num as real / m.den as real) / 60.0
                       + (s.num as real / s.den as real) / 3600.0;
      r.value == if IsSouthOrWest(ref) then -magnitude else magnitude
  {
    if !Convertible(dms) then None
    else
      var degrees := RatValue(dms.parts[0]);
      var minutes := RatValue(dms.parts[1]);
      var seconds := RatValue(dms.parts[2]);
      var decimal := degrees + minutes / 60.0 + seconds / 3600.0;
      Some(if IsSouthOrWest(ref) then -decimal else decimal)
  }

  function Negate(r: Option<real>): Option<real> {
    match r
    case None => None
    case Some(x) => Some(-x)
  }

  /** South is the mirror image of north and west of east, for every triple. */
  lemma HemisphereSymmetry(dms: GpsValue)
    ensures DecimalFromDms(dms, Chars("S")) == Negate(DecimalFromDms(dms, Chars("N")))
    ensures DecimalFromDms(dms, Chars("W")) == Negate(DecimalFromDms(dms, Chars("E")))
  {
  }

  /** For a well-formed angle (non-negative parts, minutes and seconds together
      below a degree) the magnitude stays within one degree of the degrees part,
      and the sign is that of the hemisphere. */
  lemma DecimalWithinDegree(dms: GpsValue, ref: GpsValue)
    requires Convertible(dms)
    requires var p := dms.parts;
      0.0 <= RatValue(p[0]) && 0.0 <= RatValue(p[1]) && 0.0 <= RatValue(p[2])
      && RatValue(p[1]) + RatValue(p[2]) / 60.0 < 60.0
    ensures var d := RatValue(dms.parts[0]); var r := DecimalFromDms(dms, ref).value;
      if IsSouthOrWest(ref) then -d - 1.0 < r <= -d else d <= r < d + 1.0
  {
    var p := dms.parts;
    var frac := RatValue(p[1]) / 60.0 + RatValue(p[2]) / 3600.0;
    assert frac == (RatValue(p[1]) + RatValue(p[2]) / 60.0) / 60.0;
    assert 0.0 <= frac < 1.0;
  }

  /** 10°20'30" is 1241/120 degrees, within 0.000005 of the 10.341667 the tests expect. */
  lemma DmsTestExamples()
    ensures var dms := Triple([Rational(10, 1), Rational(20, 1), Rational(30, 1)]);
      && DecimalFromDms(dms, Chars("N")) == Some(1241.0 / 120.0)
      && DecimalFromDms(dms, Chars("S")) == Some(-1241.0 / 120.0)
      && -10.341672 < -1241.0 / 120.0 < -10.341662
  {
  }

  // EXIF GPS tag numbers (GPSTAGS): the only keys that are renamed to these four names.
  const LatitudeRefTag: nat := 1
  const LatitudeTag: nat := 2
  const LongitudeRefTag: nat := 3
  const LongitudeTag: nat := 4

  /** The EXIF tag number of the GPS directory, whose name in `ExifTags.TAGS` is "GPSInfo". */
  const GpsInfoTag: nat := 34853

  /** A value in the EXIF map: the GPS directory (tag number to value) or a plain field. */
  datatype ExifValue =
    | GpsDirectory(tags: map<nat, GpsValue>)
    | Field(text: string)

  /** A key of the EXIF map. `img._getexif()` keys its map by tag number, which
      is why `get_exif_date` looks names up in `ExifTags.TAGS`; a map built by
      hand, as in the unit test, may use the tag's name instead. */
  datatype ExifKey = TagId(id: nat) | TagName(name: string)

  type Exif = map<ExifKey, ExifValue>

  datatype GpsOutcome =
    | NoGps                      // get_gps_coords returns None
    | Coords(lat: real, lon: real)
    | GpsError                   // get_gps_coords raises

  predicate HasAllGpsTags(tags: map<nat, GpsValue>) {
    {LatitudeRefTag, LatitudeTag, LongitudeRefTag, LongitudeTag} <= tags.Keys
  }

  /** The body of `get_gps_coords` after the lookup of the GPS directory, given
      what that lookup found. A truthy value that is not a directory has no
      `.items()` and raises, as does a coordinate the conversion rejects. */
  function GpsFromInfo(info: Option<ExifValue>): (r: GpsOutcome)
    ensures r == NoGps <==>
      || info.None?
      || info.value == Field("")
      || (info.value.GpsDirectory? && !HasAllGpsTags(info.value.tags))
    ensures r.Coords? ==>
      && info.Some? && info.value.GpsDirectory?
      && var tags := info.value.tags;
      && HasAllGpsTags(tags)
      && DecimalFromDms(tags[LatitudeTag], tags[LatitudeRefTag]) == Some(r.lat)
      && DecimalFromDms(tags[LongitudeTag], tags[LongitudeRefTag]) == Some(r.lon)
    ensures r == GpsError <==>
      && info.Some?
      && match info.value
         case Field(t) => t != ""
         case GpsDirectory(tags) =>
           HasAllGpsTags(tags)
           && (!Convertible(tags[LatitudeTag]) || !Convertible(tags[LongitudeTag]))
  {
    match info
    case None => NoGps
    case Some(v) =>
      match v
      case Field(t) => if t == "" then NoGps else GpsError
      case GpsDirectory(tags) =>
        if tags == map[] || !HasAllGpsTags(tags) then NoGps
        else
          var lat := DecimalFromDms(tags[LatitudeTag], tags[LatitudeRefTag]);
          var lon := DecimalFromDms(tags[LongitudeTag], tags[LongitudeRefTag]);
          if lat.Some? && lon.Some? then Coords(lat.value, lon.value) else GpsError
  }

  /** `exif.get(key)`. */
  function Lookup(exif: Exif, key: ExifKey): (r: Option<ExifValue>)
    ensures r.Some? <==> key in exif
    ensures r.Some? ==> r.value == exif[key]
  {
    if key in exif then Some(exif[key]) else None
  }

  /** `get_gps_coords` as written: the directory is looked up under the name "GPSInfo". */
  function GetGpsCoords(exif: Exif): GpsOutcome {
    GpsFromInfo(Lookup(exif, TagName("GPSInfo")))
  }

  /** `get_gps_coords` as evidently intended: the directory is found under its
      tag number, as `_getexif` keys it, and otherwise under its name. */
  function GetGpsCoordsByTag(exif: Exif): GpsOutcome {
    GpsFromInfo(if TagId(GpsInfoTag) in exif then Some(exif[TagId(GpsInfoTag)])
                else Lookup(exif, TagName("GPSInfo")))
  }

  /** As written, a map keyed by tag numbers, as `_getexif` returns it, never
      yields coordinates, so no image ever gets a place folder. */
  lemma TagKeyedExifHasNoGps(exif: Exif, address: Option<map<string, string>>)
    requires forall k :: k in exif ==> k.TagId?
    ensures GetGpsCoords(exif) == NoGps
    ensures LocationFolder(GetGpsCoords(exif), address) == ""
  {
    assert TagName("GPSInfo") !in exif;
  }

  /** The corrected lookup reads a complete GPS directory filed under its tag number. */
  lemma ByTagReadsCameraGps(exif: Exif)
    requires TagId(GpsInfoTag) in exif && exif[TagId(GpsInfoTag)].GpsDirectory?
    requires var tags := exif[TagId(GpsInfoTag)].tags;
      HasAllGpsTags(tags) && Convertible(tags[LatitudeTag]) && Convertible(tags[LongitudeTag])
    ensures var tags := exif[TagId(GpsInfoTag)].tags;
      GetGpsCoordsByTag(exif)
      == Coords(DecimalFromDms(tags[LatitudeTag], tags[LatitudeRefTag]).value,
                DecimalFromDms(tags[LongitudeTag], tags[LongitudeRefTag]).value)
  {
  }

  /** Where there is no tag-number entry the corrected lookup is the original one,
      so maps keyed by name, like the unit test's, decode as before. */
  lemma ByTagAgreesOnNamedMaps(exif: Exif)
    requires TagId(GpsInfoTag) !in exif
    ensures GetGpsCoordsByTag(exif) == GetGpsCoords(exif)
  {
  }

  /** The GPS directory of the test case. */
  function TestGps(): map<nat, GpsValue> {
    map[LatitudeRefTag := Chars("N"),
        LatitudeTag := Triple([Rational(10, 1), Rational(20, 1), Rational(30, 1)]),
        LongitudeRefTag := Chars("E"),
        LongitudeTag := Triple([Rational(40, 1), Rational(50, 1), Rational(60, 1)])]
  }

  /** The GPS test case: N 10°20'30", E 40°50'60" decode to 1241/120 and 2451/60. */
  lemma GpsTestExample()
    ensures GetGpsCoords(map[TagName("GPSInfo") := GpsDirectory(TestGps())]) == Coords(1241.0 / 120.0, 2451.0 / 60.0)
    ensures GetGpsCoordsByTag(map[TagName("GPSInfo") := GpsDirectory(TestGps())]) == Coords(1241.0 / 120.0, 2451.0 / 60.0)
  {
    var gps := TestGps();
    assert HasAllGpsTags(gps);
    assert DecimalFromDms(gps[LatitudeTag], gps[LatitudeRefTag]) == Some(1241.0 / 120.0);
    assert DecimalFromDms(gps[LongitudeTag], gps[LongitudeRefTag]) == Some(2451.0 / 60.0);
  }

  /** The same directory filed under its tag number, as a camera image has it:
      the code as written finds nothing, the corrected lookup finds the coordinates. */
  lemma CameraGpsExample()
    ensures GetGpsCoords(map[TagId(GpsInfoTag) := GpsDirectory(TestGps())]) == NoGps
    ensures GetGpsCoordsByTag(map[TagId(GpsInfoTag) := GpsDirectory(TestGps())]) == Coords(1241.0 / 120.0, 2451.0 / 60.0)
  {
    var gps := TestGps();
    var exif := map[TagId(GpsInfoTag) := GpsDirectory(gps)];
    TagKeyedExifHasNoGps(exif, None);
    assert HasAllGpsTags(gps);
    assert DecimalFromDms(gps[LatitudeTag], gps[LatitudeRefTag]) == Some(1241.0 / 120.0);
    assert DecimalFromDms(gps[LongitudeTag], gps[LongitudeRefTag]) == Some(2451.0 / 60.0);
  }

  // =======================================================================
  // Reverse-geocoded place name
  // =======================================================================

  /** The address fields consulted, in order of preference. */
  const AddressKeys: seq<string> := ["city", "town", "village", "county", "state"]

  /** Index of the first key of `keys` that the address has. */
  function FirstPresent(address: map<string, string>, keys: seq<string>): (r: Option<nat>)
    ensures r.None? <==> forall i :: 0 <= i < |keys| ==> keys[i] !in address
    ensures r.Some? ==> r.value < |keys| && keys[r.value] in address
    ensures r.Some? ==> forall j :: 0 <= j < r.value ==> keys[j] !in address
    decreases |keys|
  {
    if keys == [] then None
    else if keys[0] in address then Some(0)
    else match FirstPresent(address, keys[1..])
      case None => None
      case Some(i) => Some(i + 1)
  }

  /** `.replace(' ', '_')`. */
  function Underscored(s: string): (r: string)
    ensures |r| == |s|
    ensures forall i :: 0 <= i < |r| ==> r[i] != ' '
    ensures forall i :: 0 <= i < |r| ==> if s[i] == ' ' then r[i] == '_' else r[i] == s[i]
  {
    seq(|s|, i requires 0 <= i < |s| => if s[i] == ' ' then '_' else s[i])
  }

  /** `reverse_geocode` given the address the geocoder returned (None for a
      timeout, an error, no location or no address): the most specific of the
      preferred fields, spaces turned into underscores. */
  function ReverseGeocode(address: Option<map<string, string>>): (r: Option<string>)
    ensures r.Some? <==> address.Some? && exists i :: 0 <= i < |AddressKeys| && AddressKeys[i] in address.value
    ensures r.Some? ==> forall i :: 0 <= i < |r.value| ==> r.value[i] != ' '
    ensures address.Some? && "city" in address.value ==> r == Some(Underscored(address.value["city"]))
    ensures forall i :: 0 <= i < |AddressKeys| && address.Some? && AddressKeys[i] in address.value
                        && (forall j :: 0 <= j < i ==> AddressKeys[j] !in address.value)
                        ==> r == Some(Underscored(address.value[AddressKeys[i]]))
  {
    match address
    case None => None
    case Some(a) =>
      match FirstPresent(a, AddressKeys)
      case None => None
      case Some(i) => Some(Underscored(a[AddressKeys[i]]))
  }

  /** The place segment of `organize_image`: empty unless coordinates were found
      and the geocoder named a place. */
  function LocationFolder(gps: GpsOutcome, address: Option<map<string, string>>): string {
    if gps.Coords? then
      match ReverseGeocode(address)
      case None => ""
      case Some(name) => name
    else ""
  }

  // =======================================================================
  // File filter, date choice and destination folder
  // =======================================================================

  const ImageExtensions: seq<string> := [".jpg", ".jpeg", ".png", ".tiff", ".bmp"]

  /** `is_image_file`: the lower-cased name ends with one of the extensions. */
  predicate IsImageFile(name: string) {
    EndsWithAny(Lower(name), ImageExtensions)
  }

  /** A name is an image exactly when its lower-cased form ends with one of
      the accepted extensions. */
  lemma IsImageFileSpec(name: string)
    ensures IsImageFile(name) <==> exists ext :: ext in ImageExtensions && EndsWith(Lower(name), ext)
  {
    EndsWithAnyExists(Lower(name), ImageExtensions);
  }

  /** The filter ignores letter case: a name and its lower-case form agree. */
  lemma ImageFileIgnoresCase(name: string)
    ensures IsImageFile(name) == IsImageFile(Lower(name))
  {
    LowerIdempotent(name);
  }

  /** A name ending in an accepted extension, written in any letter case, is
      an image whatever comes before it. */
  lemma ImageByExtension(stem: string, ext: string)
    requires Lower(ext) in ImageExtensions
    ensures IsImageFile(stem + ext)
  {
    var n := Lower(stem + ext);
    assert n[|stem|..] == Lower(ext);
    IsImageFileSpec(stem + ext);
  }

  /** "IMG_0001.JPG" is an image. */
  lemma UpperCaseImageAccepted()
    ensures IsImageFile("IMG_0001.JPG")
  {
    assert Lower(".JPG") == ".jpg";
    ImageByExtension("IMG_0001", ".JPG");
    assert "IMG_0001" + ".JPG" == "IMG_0001.JPG";
  }

  /** Every accepted extension ends in 'g', 'f' or 'p', so a name whose last
      letter is none of these, in either case, is not an image. */
  lemma NotImageByLastChar(name: string)
    requires name != [] && LowerChar(name[|name| - 1]) !in "gfp"
    ensures !IsImageFile(name)
  {
    var n := Lower(name);
    IsImageFileSpec(name);
    forall ext | ext in ImageExtensions ensures !EndsWith(n, ext) {
      assert ext != [] && ext[|ext| - 1] in "gfp";
      assert n[|n| - 1] != ext[|ext| - 1];
      assert |ext| <= |n| ==> n[|n| - |ext|..][|ext| - 1] == n[|n| - 1];
    }
  }

  /** Only the end of the name counts: a video, or an image name with a
      further extension, is passed over. */
  lemma OtherFilesRejected()
    ensures !IsImageFile("clip.mp4") && !IsImageFile("photo.jpg.txt")
  {
    NotImageByLastChar("clip.mp4");
    NotImageByLastChar("photo.jpg.txt");
  }

  /** A `datetime` reduced to the calendar date that selects the folder. */
  datatype Date = Date(year: int, month: int, day: int)

  predicate ValidDate(d: Date) {
    1 <= d.year <= 9999 && 1 <= d.month <= 12 && 1 <= d.day <= 31
  }

  /** `get_best_date(...)` followed by the `datetime.now()` fallback of `organize_image`. */
  function BestDate(exifDate: Option<Date>, fileDate: Option<Date>, now: Date): (r: Date)
    ensures exifDate.Some? ==> r == exifDate.value
    ensures exifDate.None? && fileDate.Some? ==> r == fileDate.value
    ensures exifDate.None? && fileDate.None? ==> r == now
    ensures ((exifDate.Some? ==> ValidDate(exifDate.value)) && (fileDate.Some? ==> ValidDate(fileDate.value))
             && ValidDate(now)) ==> ValidDate(r)
  {
    match exifDate
    case Some(d) => d
    case None =>
      match fileDate
      case Some(d) => d
      case None => now
  }

  /** `os.path.join(DEST, year, month, day, place)`: "%Y", "%m" and "%d" are
      zero-padded to 4, 2 and 2 digits; an empty place adds no segment. */
  function DestinationFolder(dest: Path, d: Date, place: string): (r: Path)
    requires ValidDate(d)
    ensures dest <= r
    ensures |r| == |dest| + 3 + (if place == "" then 0 else 1)
    ensures |r[|dest|]| == 4 && |r[|dest| + 1]| == 2 && |r[|dest| + 2]| == 2
    ensures forall k :: |dest| <= k < |dest| + 3 ==> forall i :: 0 <= i < |r[k]| ==> IsDigit(r[k][i])
    ensures ParseDigits(r[|dest|]) == d.year
    ensures ParseDigits(r[|dest| + 1]) == d.month
    ensures ParseDigits(r[|dest| + 2]) == d.day
    ensures place != "" ==> r[|dest| + 3] == place
  {
    ZeroPadLength(d.year, 4);
    ZeroPadLength(d.month, 2);
    ZeroPadLength(d.day, 2);
    ParseZeroPad(d.year, 4);
    ParseZeroPad(d.month, 2);
    ParseZeroPad(d.day, 2);
    var dated := dest + [ZeroPad(d.year, 4), ZeroPad(d.month, 2), ZeroPad(d.day, 2)];
    if place == "" then dated else dated + [place]
  }

  /** Two files land in the same folder only if they have the same date and place. */
  lemma FolderDeterminesDateAndPlace(dest: Path, d1: Date, p1: string, d2: Date, p2: string)
    requires ValidDate(d1) && ValidDate(d2)
    requires DestinationFolder(dest, d1, p1) == DestinationFolder(dest, d2, p2)
    ensures d1 == d2 && p1 == p2
  {
    var f := DestinationFolder(dest, d1, p1);
    assert f[|dest|] == DestinationFolder(dest, d2, p2)[|dest|];
    if p1 != "" { assert f[|dest| + 3] == p1; }
  }

  // =======================================================================
  // First-fit collision suffix
  // =======================================================================

  /** The k-th name tried for `filename`: the name itself, then
      `f"{base}_{k}{ext}"` with `base, ext = os.path.splitext(filename)`. */
  function Candidate(filename: string, k: nat): string {
    if k == 0 then filename
    else
      var (base, ext) := SplitExt(filename);
      base + "_" + NatToString(k) + ext
  }

  lemma CandidateInjective(filename: string, j: nat, k: nat)
    requires Candidate(filename, j) == Candidate(filename, k)
    ensures j == k
  {
    var (base, ext) := SplitExt(filename);
    if j > 0 && k > 0 {
      var a, b := NatToString(j), NatToString(k);
      var x := Candidate(filename, j);
      assert |a| == |b|;
      assert x[|base| + 1..|x| - |ext|] == a;
      assert Candidate(filename, k)[|base| + 1..|x| - |ext|] == b;
      NatToStringInjective(j, k);
    }
  }

  ghost function Slots(folder: Path, filename: string, c: nat): set<Path> {
    set j | 0 <= j < c :: folder + [Candidate(filename, j)]
  }

  /** Trying one more counter adds its candidate to the names tried. */
  lemma SlotsSnoc(folder: Path, filename: string, c: nat)
    ensures Slots(folder, filename, c + 1) == Slots(folder, filename, c) + {folder + [Candidate(filename, c)]}
  {
  }

  /** The slot for counter `c` is not among the slots below it. */
  lemma NewSlot(folder: Path, filename: string, c: nat)
    ensures folder + [Candidate(filename, c)] !in Slots(folder, filename, c)
  {
    var last := folder + [Candidate(filename, c)];
    if last in Slots(folder, filename, c) {
      var j :| 0 <= j < c && last == folder + [Candidate(filename, j)];
      assert last[|folder|] == Candidate(filename, j);
      CandidateInjective(filename, j, c);
    }
  }

  /** The first `c` names tried are pairwise distinct paths. */
  lemma {:induction false} SlotsCard(folder: Path, filename: string, c: nat)
    ensures |Slots(folder, filename, c)| == c
  {
    if c > 0 {
      SlotsSnoc(folder, filename, c - 1);
      NewSlot(folder, filename, c - 1);
      SlotsCard(folder, filename, c - 1);
    }
  }

  lemma SubsetCard<T>(a: set<T>, b: set<T>)
    requires a <= b
    ensures |a| <= |b|
  {
    assert b == a + (b - a);
  }

  /** Suffix `k` is free and every earlier candidate is taken. */
  ghost predicate IsFirstFree(folder: Path, filename: string, existing: set<Path>, k: nat) {
    && folder + [Candidate(filename, k)] !in existing
    && forall j :: 0 <= j < k ==> folder + [Candidate(filename, j)] in existing
  }

  /** The suffix the collision loop ends on when it has reached `k`: the first
      free one from `k` on. */
  function FreeSuffix(folder: Path, filename: string, existing: set<Path>, k: nat): (r: nat)
    requires forall j :: 0 <= j < k ==> folder + [Candidate(filename, j)] in existing
    ensures k <= r && IsFirstFree(folder, filename, existing, r)
    decreases |existing| - k
  {
    if folder + [Candidate(filename, k)] !in existing then k
    else
      SlotsCard(folder, filename, k + 1);
      SubsetCard(Slots(folder, filename, k + 1), existing);
      FreeSuffix(folder, filename, existing, k + 1)
  }

  /** The collision loop of `organize_image`: keep trying `name_1.ext`,
      `name_2.ext`, ... until a path does not exist. It returns the path and the
      suffix it ended on (0 when the original name was free). */
  method ResolveCollision(folder: Path, filename: string, existing: set<Path>)
    returns (destination: Path, k: nat)
    ensures destination == folder + [Candidate(filename, k)]
    ensures destination !in existing
    ensures forall j :: 0 <= j < k ==> folder + [Candidate(filename, j)] in existing
    ensures k == FreeSuffix(folder, filename, existing, 0)
  {
    destination := folder + [filename];
    var (base, ext) := SplitExt(filename);
    var counter := 1;
    while destination in existing
      invariant 1 <= counter && counter - 1 <= |existing|
      invariant destination == folder + [Candidate(filename, counter - 1)]
      invariant forall j :: 0 <= j < counter - 1 ==> folder + [Candidate(filename, j)] in existing
      decreases |existing| - (counter - 1)
    {
      SlotsCard(folder, filename, counter);
      SubsetCard(Slots(folder, filename, counter), existing);
      destination := folder + [base + "_" + NatToString(counter) + ext];
      counter := counter + 1;
    }
    k := counter - 1;
    FirstFreeUnique(folder, filename, existing, k, FreeSuffix(folder, filename, existing, 0));
  }

  /** The suffix the loop picks is the unique first free one. */
  lemma FirstFreeUnique(folder: Path, filename: string, existing: set<Path>, k1: nat, k2: nat)
    requires IsFirstFree(folder, filename, existing, k1)
    requires IsFirstFree(folder, filename, existing, k2)
    ensures k1 == k2
  {
  }

  /** Splitting `base + "." + rest` puts the suffix before that final dot, as long
      as `rest` has no dot and `base` is not all dots. */
  lemma SplitExtAppend(base: string, rest: string)
    requires base != [] && !AllDots(base)
    requires forall i :: 0 <= i < |rest| ==> rest[i] != '.'
    ensures SplitExt(base + "." + rest) == (base, "." + rest)
    ensures forall k :: 1 <= k ==> Candidate(base + "." + rest, k) == base + "_" + NatToString(k) + "." + rest
  {
    LastDotAfter(base + ".", rest);
    var name := base + "." + rest;
    assert name[..|base|] == base;
    assert name[|base|..] == "." + rest;
  }

  lemma {:induction false} LastDotAfter(s: string, t: string)
    requires s != [] && s[|s| - 1] == '.'
    requires forall i :: 0 <= i < |t| ==> t[i] != '.'
    ensures LastDot(s + t) == Some(|s| - 1)
    decreases |t|
  {
    if t == [] {
      assert s + t == s;
    } else {
      var u := s + t;
      assert u[|u| - 1] == t[|t| - 1];
      assert u[..|u| - 1] == s + t[..|t| - 1];
      LastDotAfter(s, t[..|t| - 1]);
    }
  }

  /** An `IMG_0001.jpg` already in place pushes the next two arrivals to
      `IMG_0001_1.jpg` and then `IMG_0001_2.jpg`. */
  lemma CollisionNames()
    ensures Candidate("IMG_0001.jpg", 1) == "IMG_0001_1.jpg"
    ensures Candidate("IMG_0001.jpg", 2) == "IMG_0001_2.jpg"
  {
    assert "IMG_0001"[0] != '.';
    SplitExtAppend("IMG_0001", "jpg");
    assert "IMG_0001" + "." + "jpg" == "IMG_0001.jpg";
    assert Candidate("IMG_0001.jpg", 1) == "IMG_0001" + "_" + NatToString(1) + "." + "jpg";
    assert Candidate("IMG_0001.jpg", 2) == "IMG_0001" + "_" + NatToString(2) + "." + "jpg";
  }

  lemma CollisionExample(folder: Path)
    ensures IsFirstFree(folder, "IMG_0001.jpg", {folder + ["IMG_0001.jpg"]}, 1)
    ensures IsFirstFree(folder, "IMG_0001.jpg", {folder + ["IMG_0001.jpg"], folder + ["IMG_0001_1.jpg"]}, 2)
  {
    CollisionNames();
    var a, b, c := folder + ["IMG_0001.jpg"], folder + ["IMG_0001_1.jpg"], folder + ["IMG_0001_2.jpg"];
    assert b != a by { assert b[|folder|] != a[|folder|]; }
    assert c != a by { assert c[|folder|] != a[|folder|]; }
    assert c != b by { assert c[|folder|] != b[|folder|]; }
  }

  // =======================================================================
  // organize_image and main
  // =======================================================================

  /** What the outside world tells `organize_image` about one file. */
  datatype ImageFacts = ImageFacts(
    opens: bool,                           // Image.open succeeds
    exif: Exif,                            // img._getexif() or {}
    exifDate: Option<Date>,                // get_exif_date
    fileDate: Option<Date>,                // get_file_date
    now: Date,                             // datetime.now() while this file is handled
    address: Option<map<string, string>>,  // what the reverse geocoder answered
    moveSucceeds: bool)                    // shutil.move does not raise

  predicate FactsValid(f: ImageFacts) {
    && (f.exifDate.Some? ==> ValidDate(f.exifDate.value))
    && (f.fileDate.Some? ==> ValidDate(f.fileDate.value))
    && ValidDate(f.now)
  }

  /** The image opens but its GPS data makes `get_gps_coords` raise. The call
      is outside any `try`, so the exception ends `main`. */
  predicate GpsFails(f: ImageFacts) {
    f.opens && GetGpsCoordsByTag(f.exif) == GpsError
  }

  datatype Outcome =
    | CannotOpen           // Image.open failed: nothing happens
    | GpsFailure           // get_gps_coords raised: the run stops
    | Moved(to: Path)
    | MoveFailed(to: Path) // shutil.move raised: logged, file stays

  /** The folder `organize_image` computes for a file. */
  function TargetFolder(dest: Path, facts: ImageFacts): Path
    requires FactsValid(facts)
  {
    DestinationFolder(dest, BestDate(facts.exifDate, facts.fileDate, facts.now),
                      LocationFolder(GetGpsCoordsByTag(facts.exif), facts.address))
  }

  /** `os.makedirs(folder, exist_ok=True)` brings every prefix of the folder into existence. */
  function Ancestry(folder: Path): set<Path> {
    set i | 1 <= i <= |folder| :: folder[..i]
  }

  /** What `organize_image` does to one file, over a file system given as the
      set of existing paths: the outcome and the new set. */
  function Organize(dest: Path, image: Path, facts: ImageFacts, fs: set<Path>): (Outcome, set<Path>)
    requires FactsValid(facts)
  {
    if !facts.opens then (CannotOpen, fs)
    else if GetGpsCoordsByTag(facts.exif) == GpsError then (GpsFailure, fs)
    else
      var folder := TargetFolder(dest, facts);
      var created := fs + Ancestry(folder);
      var to := folder + [Candidate(Basename(image), FreeSuffix(folder, Basename(image), created, 0))];
      if facts.moveSucceeds then (Moved(to), created - {image} + {to}) else (MoveFailed(to), created)
  }

  /** Nothing happens to an image that does not open or whose GPS data raises;
      any other image gets its folder and the parents of that folder, and is moved
      to, or fails to move to, the first free candidate name there. Only the
      image itself can disappear. */
  lemma OrganizeSpec(dest: Path, image: Path, facts: ImageFacts, fs: set<Path>)
    requires FactsValid(facts)
    ensures var (outcome, fs') := Organize(dest, image, facts, fs);
      && (outcome == CannotOpen <==> !facts.opens)
      && (outcome == GpsFailure <==> GpsFails(facts))
      && (outcome == CannotOpen || outcome == GpsFailure ==> fs' == fs)
      && (forall p :: p in fs && p !in fs' ==> p == image)
      && (outcome.Moved? || outcome.MoveFailed? ==>
            var folder := TargetFolder(dest, facts);
            var created := fs + Ancestry(folder);
            && (outcome.Moved? <==> facts.moveSucceeds)
            && (exists k :: outcome.to == folder + [Candidate(Basename(image), k)]
                            && IsFirstFree(folder, Basename(image), created, k))
            && fs' == if outcome.Moved? then created - {image} + {outcome.to} else created)
  {
    if facts.opens && GetGpsCoordsByTag(facts.exif) != GpsError {
      var folder := TargetFolder(dest, facts);
      var created := fs + Ancestry(folder);
      var k := FreeSuffix(folder, Basename(image), created, 0);
      assert Organize(dest, image, facts, fs).0.to == folder + [Candidate(Basename(image), k)];
    }
  }

  /** `organize_image`, with the GPS directory found as `GetGpsCoordsByTag` finds it. */
  method OrganizeImage(dest: Path, image: Path, facts: ImageFacts, fs: set<Path>)
    returns (outcome: Outcome, fs': set<Path>)
    requires FactsValid(facts)
    ensures (outcome, fs') == Organize(dest, image, facts, fs)
  {
    if !facts.opens {
      return CannotOpen, fs;
    }
    var date := BestDate(facts.exifDate, facts.fileDate, facts.now);
    var gps := GetGpsCoordsByTag(facts.exif);
    if gps == GpsError {
      return GpsFailure, fs;
    }
    var place := LocationFolder(gps, facts.address);
    var folder := DestinationFolder(dest, date, place);
    var created := fs + Ancestry(folder);
    var filename := Basename(image);
    var destination, k := ResolveCollision(folder, filename, created);
    if facts.moveSucceeds {
      outcome, fs' := Moved(destination), created - {image} + {destination};
    } else {
      outcome, fs' := MoveFailed(destination), created;
    }
  }

  /** The file system after `organize_image` has handled `images` in order. */
  function AfterOrganizing(dest: Path, images: seq<Path>, facts: Path -> ImageFacts, fs: set<Path>)
    : set<Path>
    requires forall p :: FactsValid(facts(p))
    decreases |images|
  {
    if images == [] then fs
    else
      var last := images[|images| - 1];
      Organize(dest, last, facts(last), AfterOrganizing(dest, images[..|images| - 1], facts, fs)).1
  }

  /** Handling a sequence of images removes nothing but some of those images. */
  lemma {:induction false} AfterOrganizingRemovesOnlyImages(dest: Path, images: seq<Path>, facts: Path -> ImageFacts,
                                                            fs: set<Path>)
    requires forall p :: FactsValid(facts(p))
    ensures forall p :: p in fs && p !in AfterOrganizing(dest, images, facts, fs) ==> p in images
    decreases |images|
  {
    if images != [] {
      var init := images[..|images| - 1];
      var last := images[|images| - 1];
      AfterOrganizingRemovesOnlyImages(dest, init, facts, fs);
      OrganizeSpec(dest, last, facts(last), AfterOrganizing(dest, init, facts, fs));
      assert forall p :: p in init ==> p in images;
    }
  }

  lemma {:induction false} AfterOrganizingAppend(dest: Path, p: seq<Path>, q: seq<Path>, facts: Path -> ImageFacts,
                                                 fs: set<Path>)
    requires forall x :: FactsValid(facts(x))
    ensures AfterOrganizing(dest, p + q, facts, fs)
            == AfterOrganizing(dest, q, facts, AfterOrganizing(dest, p, facts, fs))
    decreases |q|
  {
    if q == [] {
      assert p + q == p;
    } else {
      var init := q[..|q| - 1];
      AfterOrganizingAppend(dest, p, init, facts, fs);
      assert (p + q)[..|p + q| - 1] == p + init;
      assert (p + q)[|p + q| - 1] == q[|q| - 1];
    }
  }

  /** The image files of one directory, in listing order. */
  function ImagesIn(root: Path, files: seq<string>): (r: seq<Path>)
    ensures forall i :: 0 <= i < |r| ==> Dirname(r[i]) == root && IsImageFile(Basename(r[i]))
    decreases |files|
  {
    if files == [] then []
    else
      var init := ImagesIn(root, files[..|files| - 1]);
      var f := files[|files| - 1];
      if IsImageFile(f) then init + [root + [f]] else init
  }

  /** The image files of a whole walk, in walk order. */
  function ImagePaths(walk: seq<WalkEntry>): (r: seq<Path>)
    ensures forall i :: 0 <= i < |r| ==> IsImageFile(Basename(r[i]))
    decreases |walk|
  {
    if walk == [] then []
    else
      var last := walk[|walk| - 1];
      ImagePaths(walk[..|walk| - 1]) + ImagesIn(last.root, last.files)
  }

  /** A path is selected from a directory listing exactly when it is the
      directory joined with a listed file that is an image. */
  lemma {:induction false} ImagesInExact(root: Path, files: seq<string>, p: Path)
    ensures p in ImagesIn(root, files) <==> exists f :: f in files && IsImageFile(f) && p == root + [f]
    decreases |files|
  {
    if files != [] {
      var init := files[..|files| - 1];
      ImagesInExact(root, init, p);
      assert files == init + [files[|files| - 1]];
    }
  }

  /** A path is handled by the walk exactly when it is a walked directory joined
      with one of its files that is an image. */
  lemma {:induction false} ImagePathsExact(walk: seq<WalkEntry>, p: Path)
    ensures p in ImagePaths(walk) <==>
            exists e, f :: e in walk && f in e.files && IsImageFile(f) && p == e.root + [f]
    decreases |walk|
  {
    if walk != [] {
      var init := walk[..|walk| - 1];
      var last := walk[|walk| - 1];
      ImagePathsExact(init, p);
      ImagesInExact(last.root, last.files, p);
      assert walk == init + [last];
    }
  }

  /** One pass of the inner loop of `main`: the file at index `j` goes through
      `organize_image` when it is an image; `failed` says its GPS data raised. */
  method OrganizeNext(dest: Path, root: Path, files: seq<string>, j: nat, facts: Path -> ImageFacts,
                      fs0: set<Path>, processed: seq<Path>, fs: set<Path>)
    returns (processed': seq<Path>, fs': set<Path>, failed: bool)
    requires j < |files| && forall p :: FactsValid(facts(p))
    requires processed == ImagesIn(root, files[..j])
    requires fs == AfterOrganizing(dest, processed, facts, fs0)
    ensures processed' == ImagesIn(root, files[..j + 1])
    ensures fs' == AfterOrganizing(dest, processed', facts, fs0)
    ensures failed <==> IsImageFile(files[j]) && GpsFails(facts(root + [files[j]]))
  {
    var file := files[j];
    ImagesInSnoc(root, files, j);
    processed', fs', failed := processed, fs, false;
    if IsImageFile(file) {
      var path := root + [file];
      processed' := processed + [path];
      assert processed'[..|processed'| - 1] == processed;
      var outcome;
      outcome, fs' := OrganizeImage(dest, path, facts(path), fs);
      OrganizeSpec(dest, path, facts(path), fs);
      failed := outcome == GpsFailure;
    }
  }

  /** A run that has handled a prefix of `images` and stops at its last element
      stops at the first failing image of `images`. */
  lemma StopsAtFirstFailure(images: seq<Path>, processed: seq<Path>, facts: Path -> ImageFacts)
    requires processed <= images && processed != []
    requires forall i :: 0 <= i < |processed| - 1 ==> !GpsFails(facts(processed[i]))
    requires GpsFails(facts(processed[|processed| - 1]))
    ensures exists i :: 0 <= i < |images| && GpsFails(facts(images[i]))
  {
    assert images[|processed| - 1] == processed[|processed| - 1];
  }

  /** The inner loop of `main` over the files of one directory: its images go
      through `organize_image` in listing order, up to and including the first
      one whose GPS data raises. */
  method OrganizeFiles(dest: Path, root: Path, files: seq<string>, facts: Path -> ImageFacts,
                       fs: set<Path>)
    returns (processed: seq<Path>, fs': set<Path>, stopped: bool)
    requires forall p :: FactsValid(facts(p))
    ensures processed <= ImagesIn(root, files)
    ensures stopped <==> exists i :: 0 <= i < |ImagesIn(root, files)| && GpsFails(facts(ImagesIn(root, files)[i]))
    ensures !stopped ==> processed == ImagesIn(root, files)
    ensures stopped ==> processed != [] && GpsFails(facts(processed[|processed| - 1]))
    ensures forall i :: 0 <= i < |processed| - 1 ==> !GpsFails(facts(processed[i]))
    ensures fs' == AfterOrganizing(dest, processed, facts, fs)
  {
    processed, fs', stopped := [], fs, false;
    var j := 0;
    while j < |files|
      invariant 0 <= j <= |files|
      invariant processed == ImagesIn(root, files[..j])
      invariant forall i :: 0 <= i < |processed| ==> !GpsFails(facts(processed[i]))
      invariant fs' == AfterOrganizing(dest, processed, facts, fs)
    {
      ghost var before := processed;
      var failed;
      processed, fs', failed := OrganizeNext(dest, root, files, j, facts, fs, processed, fs');
      ImagesInSnoc(root, files, j);
      if failed {
        assert processed == before + [root + [files[j]]];
        ImagesInPrefix(root, files, j + 1);
        StopsAtFirstFailure(ImagesIn(root, files), processed, facts);
        stopped := true;
        return;
      }
      j := j + 1;
    }
    assert files[..j] == files;
  }

  /** One pass of the outer loop of `main`: the directory at index `i` of the
      walk goes through the inner loop; `halted` says an image of it made the
      run stop. */
  method OrganizeEntry(dest: Path, walk: seq<WalkEntry>, i: nat, facts: Path -> ImageFacts,
                       fs0: set<Path>, processed: seq<Path>, fs: set<Path>)
    returns (processed': seq<Path>, fs': set<Path>, halted: bool)
    requires i < |walk| && forall p :: FactsValid(facts(p))
    requires processed == ImagePaths(walk[..i])
    requires forall k :: 0 <= k < |processed| ==> !GpsFails(facts(processed[k]))
    requires fs == AfterOrganizing(dest, processed, facts, fs0)
    ensures fs' == AfterOrganizing(dest, processed', facts, fs0)
    ensures !halted ==> processed' == ImagePaths(walk[..i + 1])
    ensures !halted ==> forall k :: 0 <= k < |processed'| ==> !GpsFails(facts(processed'[k]))
    ensures halted ==> processed' <= ImagePaths(walk) && processed' != []
    ensures halted ==> GpsFails(facts(processed'[|processed'| - 1]))
    ensures forall k :: 0 <= k < |processed'| - 1 ==> !GpsFails(facts(processed'[k]))
  {
    var entry := walk[i];
    assert walk[..i + 1][..i] == walk[..i];
    var more, fs2, stopped := OrganizeFiles(dest, entry.root, entry.files, facts, fs);
    AfterOrganizingAppend(dest, processed, more, facts, fs0);
    processed', fs', halted := processed + more, fs2, stopped;
    NoFailureBefore(processed, more, facts);
    if halted {
      WalkPrefixExtended(walk, i, more);
    }
  }

  /** The images of the walk's first `i` directories followed by a non-empty
      prefix of the next directory's images are a prefix of the walk's images,
      ending with the last of them. */
  lemma WalkPrefixExtended(walk: seq<WalkEntry>, i: nat, more: seq<Path>)
    requires i < |walk| && more <= ImagesIn(walk[i].root, walk[i].files) && more != []
    ensures ImagePaths(walk[..i]) + more <= ImagePaths(walk)
    ensures (ImagePaths(walk[..i]) + more)[|ImagePaths(walk[..i]) + more| - 1] == more[|more| - 1]
  {
    assert walk[..i + 1][..i] == walk[..i];
    PrefixOfWalk(walk, i + 1);
    assert ImagePaths(walk[..i + 1]) == ImagePaths(walk[..i]) + ImagesIn(walk[i].root, walk[i].files);
  }

  /** Appending images to a run that had no failure keeps the images before
      the last one free of failures. */
  lemma NoFailureBefore(p: seq<Path>, q: seq<Path>, facts: Path -> ImageFacts)
    requires forall k :: 0 <= k < |p| ==> !GpsFails(facts(p[k]))
    ensures (forall k :: 0 <= k < |q| - 1 ==> !GpsFails(facts(q[k])))
            ==> forall k :: 0 <= k < |p + q| - 1 ==> !GpsFails(facts((p + q)[k]))
    ensures (forall k :: 0 <= k < |q| ==> !GpsFails(facts(q[k])))
            ==> forall k :: 0 <= k < |p + q| ==> !GpsFails(facts((p + q)[k]))
  {
    assert forall k :: |p| <= k < |p + q| ==> (p + q)[k] == q[k - |p|];
  }

  /** `main`: every image file of the walk, and only those, goes through
      `organize_image`, in walk order; the run stops at the first image whose
      GPS data raises, and only there. */
  method OrganizeAll(dest: Path, walk: seq<WalkEntry>, facts: Path -> ImageFacts, fs: set<Path>)
    returns (processed: seq<Path>, fs': set<Path>, stopped: bool)
    requires forall p :: FactsValid(facts(p))
    ensures processed <= ImagePaths(walk)
    ensures stopped <==> exists i :: 0 <= i < |ImagePaths(walk)| && GpsFails(facts(ImagePaths(walk)[i]))
    ensures !stopped ==> processed == ImagePaths(walk)
    ensures stopped ==> processed != [] && GpsFails(facts(processed[|processed| - 1]))
    ensures forall i :: 0 <= i < |processed| - 1 ==> !GpsFails(facts(processed[i]))
    ensures fs' == AfterOrganizing(dest, processed, facts, fs)
  {
    processed, fs', stopped := [], fs, false;
    var i := 0;
    while i < |walk|
      invariant 0 <= i <= |walk|
      invariant processed == ImagePaths(walk[..i])
      invariant forall k :: 0 <= k < |processed| ==> !GpsFails(facts(processed[k]))
      invariant fs' == AfterOrganizing(dest, processed, facts, fs)
    {
      var halted;
      processed, fs', halted := OrganizeEntry(dest, walk, i, facts, fs, processed, fs');
      if halted {
        StopsAtFirstFailure(ImagePaths(walk), processed, facts);
        stopped := true;
        return;
      }
      i := i + 1;
    }
    assert walk[..i] == walk;
  }

  /** One more file adds its path exactly when it is an image. */
  lemma ImagesInSnoc(root: Path, files: seq<string>, j: nat)
    requires j < |files|
    ensures ImagesIn(root, files[..j + 1])
            == ImagesIn(root, files[..j]) + (if IsImageFile(files[j]) then [root + [files[j]]] else [])
  {
    assert files[..j + 1][..j] == files[..j];
  }

  lemma {:induction false} ImagesInPrefix(root: Path, files: seq<string>, n: nat)
    requires n <= |files|
    ensures ImagesIn(root, files[..n]) <= ImagesIn(root, files)
    decreases |files| - n
  {
    if n < |files| {
      ImagesInPrefix(root, files, n + 1);
      assert files[..n + 1][..n] == files[..n];
    } else {
      assert files[..n] == files;
    }
  }

  lemma {:induction false} PrefixOfWalk(walk: seq<WalkEntry>, n: nat)
    requires n <= |walk|
    ensures ImagePaths(walk[..n]) <= ImagePaths(walk)
    decreases |walk| - n
  {
    if n < |walk| {
      PrefixOfWalk(walk, n + 1);
      assert walk[..n + 1][..n] == walk[..n];
    } else {
      assert walk[..n] == walk;
    }
  }
}
