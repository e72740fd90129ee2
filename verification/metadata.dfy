/** The six metadata fields of a photo as the upload forms hold them, the
    merge of extracted metadata into what the user typed, and the camera
    description built from the EXIF make and model. Reading EXIF itself is
    not modelled: its result enters as a parameter. */
module Metadata {
  import opened Basics
  import opened Text

  /** `{ date, shutter_speed, iso, focal_length, aperture, camera_info }`. */
  datatype Meta = Meta(
    date: string,
    shutterSpeed: string,
    iso: string,
    focalLength: string,
    aperture: string,
    cameraInfo: string)

  datatype MetaField = Date | ShutterSpeed | Iso | FocalLength | Aperture | CameraInfoField

  /** All six fields empty: the forms' initial values and what the clear
      buttons restore. */
  const EmptyMeta := Meta("", "", "", "", "", "")

  function Get(m: Meta, field: MetaField): string {
    match field
    case Date => m.date
    case ShutterSpeed => m.shutterSpeed
    case Iso => m.iso
    case FocalLength => m.focalLength
    case Aperture => m.aperture
    case CameraInfoField => m.cameraInfo
  }

  /** Setting one field by name, as an input's change handler does. */
  function Set(m: Meta, field: MetaField, value: string): (r: Meta)
    ensures Get(r, field) == value
    ensures forall g :: g != field ==> Get(r, g) == Get(m, g)
  {
    match field
    case Date => m.(date := value)
    case ShutterSpeed => m.(shutterSpeed := value)
    case Iso => m.(iso := value)
    case FocalLength => m.(focalLength := value)
    case Aperture => m.(aperture := value)
    case CameraInfoField => m.(cameraInfo := value)
  }

  /** `a || b` on two strings. */
  function Or(a: string, b: string): (r: string)
    ensures r == a || r == b
    ensures r == "" <==> a == "" && b == ""
    ensures a != "" ==> r == a
  {
    if a != "" then a else b
  }

  /** `extracted.x || previous.x` for every field: an extracted value wins
      unless it is empty, in which case the user's input is kept. */
  function Merge(previous: Meta, extracted: Meta): (r: Meta)
    ensures forall g :: Get(r, g) == Get(extracted, g) || Get(r, g) == Get(previous, g)
    ensures forall g :: Get(r, g) == "" <==> Get(extracted, g) == "" && Get(previous, g) == ""
    ensures forall g :: Get(extracted, g) != "" ==> Get(r, g) == Get(extracted, g)
  {
    var r := Meta(
      Or(extracted.date, previous.date),
      Or(extracted.shutterSpeed, previous.shutterSpeed),
      Or(extracted.iso, previous.iso),
      Or(extracted.focalLength, previous.focalLength),
      Or(extracted.aperture, previous.aperture),
      Or(extracted.cameraInfo, previous.cameraInfo));
    assert forall g :: Get(r, g) == Or(Get(extracted, g), Get(previous, g));
    r
  }

  /** Merging nothing keeps the input; merging into an empty form gives the
      extracted values; merging the same extraction twice is merging once. */
  lemma MergeLaws(previous: Meta, extracted: Meta)
    ensures Merge(previous, EmptyMeta) == previous
    ensures Merge(EmptyMeta, extracted) == extracted
    ensures Merge(Merge(previous, extracted), extracted) == Merge(previous, extracted)
  {
  }

  /** A present, non-empty EXIF string. */
  predicate Truthy(o: Option<string>) {
    o.Some? && o.value != ""
  }

  /** The camera description: the make and the model that are present,
      joined by one space, or the empty string when neither is. */
  function CameraInfo(make: Option<string>, model: Option<string>): (r: string)
    ensures !Truthy(make) && !Truthy(model) ==> r == ""
    ensures Truthy(make) && !Truthy(model) ==> r == make.value
    ensures !Truthy(make) && Truthy(model) ==> r == model.value
    ensures Truthy(make) && Truthy(model) ==> r == make.value + " " + model.value
  {
    var parts := (if Truthy(make) then [make.value] else []) +
                 (if Truthy(model) then [model.value] else []);
    if |parts| == 0 then ""
    else if |parts| == 1 then Join(parts, ' ')
    else
      assert parts == [parts[0], parts[1]];
      JoinTwo(parts[0], parts[1], ' ');
      Join(parts, ' ')
  }

  /** When neither part contains a space, the description splits back into
      the make and the model. */
  lemma CameraInfoSplits(make: string, model: string)
    requires make != "" && model != ""
    requires ' ' !in make && ' ' !in model
    ensures Split(CameraInfo(Some(make), Some(model)), ' ') == [make, model]
  {
    SplitJoin([make, model], ' ');
  }
}
