/** The catalog projection of scripts/utils/mapPhotos.js: each raw catalog
    item becomes a flat photo record with defaults for the missing fields. */
module Photos {
  import opened Seqs
  import opened Text

  /** A photo id as the catalog holds it: a JSON number or a string. */
  datatype Id = NumId(n: nat) | StrId(s: string)

  /** `String(id)`: the form in which ids are compared and stored. */
  function IdString(id: Id): string {
    match id
    case NumId(n) => NatToString(n)
    case StrId(s) => s
  }

  /** A number id and its decimal string have the same string form, and the
      string form of a number id reads back as that number. */
  lemma IdStringOfNumber(n: nat)
    ensures IdString(NumId(n)) == IdString(StrId(NatToString(n)))
    ensures AllDigits(IdString(NumId(n))) && DecimalValue(IdString(NumId(n))) == n
  {
    DecimalRoundTrip(n);
  }

  // Raw catalog items: an absent or null field is None.
  datatype RawLocation = RawLocation(region: Option<string>, country: Option<string>)
  datatype RawFiles = RawFiles(thumb: string, web: string, hq: Option<string>)
  datatype RawCamera = RawCamera(
    model: Option<string>, lens: Option<string>, focalLengthMm: Option<string>,
    apertureF: Option<string>, shutter: Option<string>, iso: Option<string>)
  datatype RawItem = RawItem(
    id: Id, date: string, location: Option<RawLocation>, tags: Option<seq<string>>,
    files: RawFiles, description: Option<string>, camera: Option<RawCamera>)

  /** The record the pages work with. */
  datatype Photo = Photo(
    id: Id, year: string, month: string, region: string, country: string, location: string,
    tags: seq<string>, thumb: string, web: string, hq: Option<string>, description: string,
    cameraModel: string, cameraLens: string, cameraFocalLength: string,
    cameraAperture: string, cameraShutter: string, cameraIso: string)

  /** A string value is truthy when it is present and not empty. */
  predicate Truthy(v: Option<string>) {
    v.Some? && v.value != ""
  }

  /** `v || ''` for an optional string. */
  function OrEmpty(v: Option<string>): string {
    if Truthy(v) then v.value else ""
  }

  /** `(item.location && item.location.region) ? item.location.region : ''`. */
  function RegionOf(location: Option<RawLocation>): string {
    if location.Some? then OrEmpty(location.value.region) else ""
  }

  function CountryOf(location: Option<RawLocation>): string {
    if location.Some? then OrEmpty(location.value.country) else ""
  }

  // The camera sub-fields, as functions to pick one with.
  function ModelOf(c: RawCamera): Option<string> { c.model }
  function LensOf(c: RawCamera): Option<string> { c.lens }
  function FocalLengthOf(c: RawCamera): Option<string> { c.focalLengthMm }
  function ApertureOf(c: RawCamera): Option<string> { c.apertureF }
  function ShutterOf(c: RawCamera): Option<string> { c.shutter }
  function IsoOf(c: RawCamera): Option<string> { c.iso }

  /** `(item.camera && item.camera.<field>) || ''`. */
  function CameraField(camera: Option<RawCamera>, field: RawCamera -> Option<string>): (v: string)
    ensures CameraValue(camera, field, v)
  {
    if camera.Some? then OrEmpty(field(camera.value)) else ""
  }

  /** A camera value is '' when there is no camera or the field is absent or
      empty, and otherwise the field's value. */
  predicate CameraValue(camera: Option<RawCamera>, field: RawCamera -> Option<string>, v: string) {
    && (v == "" <==> camera.None? || !Truthy(field(camera.value)))
    && (v != "" ==> field(camera.value) == Some(v))
  }

  const Bullet: string := " \U{2022} "

  /** The card title: `region • country`, or whichever of the two is present. */
  function ComposeLocation(region: string, country: string): (r: string)
    ensures r == "" <==> region == "" && country == ""
    ensures IsInfix(region, r) && IsInfix(country, r)
    ensures region != "" && country != "" ==> r == region + Bullet + country
    ensures region == "" || country == "" ==> r == region + country
  {
    var r :=
      if region != "" && country != "" then region + Bullet + country
      else if region != "" then region
      else if country != "" then country
      else "";
    assert OccursAt(region, r, 0);
    assert OccursAt(country, r, |r| - |country|);
    r
  }

  /** `date.split('-')[0]`: the longest prefix of the date without '-'. */
  function YearOfDate(date: string): (y: string)
    ensures '-' !in y && |y| <= |date| && y == date[..|y|]
    ensures |y| < |date| ==> date[|y|] == '-'
  {
    var i := IndexOf(date, '-');
    IndexOfFirst(date, '-');
    assert SplitOn(date, '-')[0] == date[..i];
    SplitOn(date, '-')[0]
  }

  /** `date.split('-')[1] || ''`: the segment after the first '-' up to the
      next '-' or the end, or '' when the date has no '-'. */
  function MonthOfDate(date: string): (m: string)
    ensures '-' !in m
    ensures '-' !in date ==> m == ""
    ensures '-' in date ==> m == YearOfDate(date[|YearOfDate(date)| + 1..])
  {
    var parts := SplitOn(date, '-');
    var i := IndexOf(date, '-');
    assert parts[0] == date[..i];
    assert |parts| > 1 ==> parts[1..] == SplitOn(date[i + 1..], '-');
    SplitOnJoin(date, '-');
    if |parts| > 1 then parts[1] else ""
  }

  /** The projection of one catalog item. */
  function MapPhoto(item: RawItem): (p: Photo)
    ensures p.id == item.id && p.thumb == item.files.thumb && p.web == item.files.web
    // region and country: the value when present and non-empty, '' otherwise
    ensures p.region == "" <==> item.location.None? || !Truthy(item.location.value.region)
    ensures p.region != "" ==> item.location.value.region == Some(p.region)
    ensures p.country == "" <==> item.location.None? || !Truthy(item.location.value.country)
    ensures p.country != "" ==> item.location.value.country == Some(p.country)
    ensures p.location == ComposeLocation(p.region, p.country)
    ensures p.year == YearOfDate(item.date) && p.month == MonthOfDate(item.date)
    // defaults
    ensures p.tags == (if item.tags.Some? then item.tags.value else [])
    ensures p.hq == (if Truthy(item.files.hq) then item.files.hq else None)
    ensures p.description == OrEmpty(item.description)
    ensures CameraValue(item.camera, ModelOf, p.cameraModel)
    ensures CameraValue(item.camera, LensOf, p.cameraLens)
    ensures CameraValue(item.camera, FocalLengthOf, p.cameraFocalLength)
    ensures CameraValue(item.camera, ApertureOf, p.cameraAperture)
    ensures CameraValue(item.camera, ShutterOf, p.cameraShutter)
    ensures CameraValue(item.camera, IsoOf, p.cameraIso)
  {
    var region := RegionOf(item.location);
    var country := CountryOf(item.location);
    Photo(
      id := item.id,
      year := YearOfDate(item.date),
      month := MonthOfDate(item.date),
      region := region,
      country := country,
      location := ComposeLocation(region, country),
      tags := if item.tags.Some? then item.tags.value else [],
      thumb := item.files.thumb,
      web := item.files.web,
      hq := if Truthy(item.files.hq) then item.files.hq else None,
      description := OrEmpty(item.description),
      cameraModel := CameraField(item.camera, ModelOf),
      cameraLens := CameraField(item.camera, LensOf),
      cameraFocalLength := CameraField(item.camera, FocalLengthOf),
      cameraAperture := CameraField(item.camera, ApertureOf),
      cameraShutter := CameraField(item.camera, ShutterOf),
      cameraIso := CameraField(item.camera, IsoOf))
  }

  /** `mapPhotos`: one record per catalog item, in catalog order. */
  function MapPhotos(items: seq<RawItem>): (r: seq<Photo>)
    ensures |r| == |items|
    ensures forall i :: 0 <= i < |items| ==> r[i] == MapPhoto(items[i])
  {
    seq(|items|, i requires 0 <= i < |items| => MapPhoto(items[i]))
  }

  /** A segment without '-' that ends the date or is followed by '-' is
      what `split('-')[0]` returns. */
  lemma YearOfPrefix(y: string, rest: string)
    requires '-' !in y
    requires rest == "" || rest[0] == '-'
    ensures YearOfDate(y + rest) == y
  {
    var d := y + rest;
    assert forall k :: 0 <= k < |y| ==> d[k] == y[k] != '-';
    assert |y| < |d| ==> d[|y|] == '-';
  }

  /** A date written as `year-month` or `year-month-rest` projects to exactly
      that year and month; a date without '-' is all year and has no month. */
  lemma DateParts(item: RawItem, y: string, m: string, tail: string)
    requires '-' !in y && '-' !in m
    requires tail == "" || tail[0] == '-'
    requires item.date == y + "-" + m + tail
    ensures MapPhoto(item).year == y && MapPhoto(item).month == m
  {
    var d := item.date;
    assert d == y + ("-" + m + tail);
    YearOfPrefix(y, "-" + m + tail);
    assert d[|y|] == '-';
    assert d[|y| + 1..] == m + tail;
    YearOfPrefix(m, tail);
  }

  lemma DateWithoutDash(item: RawItem)
    requires '-' !in item.date
    ensures MapPhoto(item).year == item.date && MapPhoto(item).month == ""
  {
  }
}
