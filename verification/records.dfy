/** The records the two conversion scripts pass between their stages.

    Every XML attribute is an `Option<string>`: `None` is lxml's `get`
    returning `None` for a missing attribute. Coordinates and pixel values stay
    opaque strings; the scripts never parse them. */
module Records {
  import opened Wrappers

  /** A `<camera>` element: its `id` and `label` attributes. */
  datatype Camera = Camera(id: string, cameraLabel: string)

  /** An image file found on disk: its file name without extension, and its full path. */
  datatype ImageFile = ImageFile(name: string, path: string)

  /** A `<location>` child of a marker: `camera_id`, `x`, `y`. */
  datatype Location = Location(cameraId: Option<string>, x: Option<string>, y: Option<string>)

  /** A `<reference>` child of a control point: `x`, `y`, `z`, `sxy`, `sz`, `enabled`. */
  datatype Reference = Reference(
    x: Option<string>, y: Option<string>, z: Option<string>,
    sxy: Option<string>, sz: Option<string>, enabled: Option<string>)

  /** A `<marker>` element: attributes `id`, `marker_id`, `label`, the first
      `<reference>` child (if any) and the `<location>` children in document order. */
  datatype MarkerElement = MarkerElement(
    id: Option<string>,
    markerId: Option<string>,
    pointLabel: Option<string>,
    reference: Option<Reference>,
    locations: seq<Location>)

  /** A control-point record (`'Type': 'ControlPoint'`). */
  datatype ControlPoint = ControlPoint(
    id: Option<string>,
    name: Option<string>,
    category: string,
    x: Option<string>, y: Option<string>, z: Option<string>,
    horizontalAccuracy: Option<string>,
    verticalAccuracy: Option<string>,
    checkPoint: Option<string>)

  /** A marker record (`'Type': 'Marker'`), generic in the measurement shape,
      which differs between the two scripts. */
  datatype Marker<M> = Marker(markerId: Option<string>, measurements: seq<M>)

  /** A measurement of the Pix4Dmatic script: the photo is named at once as `label + ".JPG"`. */
  datatype Pix4dMeasurement = Pix4dMeasurement(photoId: string, x: Option<string>, y: Option<string>)

  /** A measurement of the iTwin script: the camera id, and an image path only
      when one could be resolved (the `ImagePath` key is then present). */
  datatype ITwinMeasurement = ITwinMeasurement(
    photoId: Option<string>, x: Option<string>, y: Option<string>, imagePath: Option<string>)

  /** A merged record; the constructor is the `'Type'` tag the merge writes.
      An `Integrated` record holds every control-point key plus `MarkerID` and
      `Measurement`; the other two hold the keys of their one source record. */
  datatype Merged<M> =
    | Integrated(cp: ControlPoint, marker: Marker<M>)
    | MarkerOnly(marker: Marker<M>)
    | ControlPointOnly(cp: ControlPoint)
  {
    /** `'Measurement' in record`, and its value. */
    function Measurement(): Option<seq<M>> {
      if ControlPointOnly? then None else Some(marker.measurements)
    }

    predicate HasControlPoint() {
      !MarkerOnly?
    }

    predicate HasMarker() {
      !ControlPointOnly?
    }
  }

  /** The exceptions the scripts raise on malformed input. */
  datatype Error =
    | MissingReference        // a control point without `<reference>`: `None.get` raises AttributeError
    | UnlabelledCamera        // a camera id no label maps to: `None + '.JPG'` raises TypeError
    | MissingKey(key: string) // a record without the key read: KeyError
    | NoneText(tag: string)   // lxml's builder given `None` as element text: TypeError
}
