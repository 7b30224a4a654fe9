/** The MediaItem entity of a publication: an uploaded image or video with
    its display position and free-form metadata. */
module MediaItems {
  import opened Js
  import opened Results

  datatype MediaType = Image | Video

  datatype MediaItem = MediaItem(
    id: string,
    publicationId: string,
    mediaType: MediaType,
    url: string,
    filename: string,
    size: real,
    order: real,
    createdAt: int,
    cloudinaryPublicId: Option<string>,
    metadata: map<string, Value>)

  datatype MediaError =
    | InvalidId
    | InvalidPublicationId
    | InvalidType
    | InvalidUrl
    | InvalidFilename
    | InvalidSize
    | InvalidPublicId
    | InvalidOrder
    | NotAnImage
    | NotAVideo

  /** `['image', 'video'].includes(type)`. */
  function ParseType(v: Value): (r: Option<MediaType>)
    ensures r == Some(Image) <==> v == Str("image")
    ensures r == Some(Video) <==> v == Str("video")
    ensures r.None? <==> v != Str("image") && v != Str("video")
  {
    if v == Str("image") then Some(Image)
    else if v == Str("video") then Some(Video)
    else None
  }

  /** `!size || typeof size !== 'number' || size <= 0` fails: a positive number. */
  predicate IsValidSize(v: Value) {
    v.Num? && v.n > 0.0
  }

  /** `new MediaItem(id, publicationId, type, url, filename, size, order)`. */
  function New(id: Value, publicationId: Value, mediaType: Value, url: Value, filename: Value,
               size: Value, order: real, now: int)
    : (r: Result<MediaItem, MediaError>)
    ensures r.Ok? <==>
      && IsNonEmptyString(id) && IsNonEmptyString(publicationId)
      && ParseType(mediaType).Some?
      && IsNonEmptyString(url) && IsNonEmptyString(filename) && IsValidSize(size)
    ensures !IsNonEmptyString(id) ==> r == Err(InvalidId)
    ensures IsNonEmptyString(id) && !IsNonEmptyString(publicationId) ==> r == Err(InvalidPublicationId)
    ensures IsNonEmptyString(id) && IsNonEmptyString(publicationId) && ParseType(mediaType).None?
      ==> r == Err(InvalidType)
    ensures (IsNonEmptyString(id) && IsNonEmptyString(publicationId) && ParseType(mediaType).Some?
             && !IsNonEmptyString(url)) ==> r == Err(InvalidUrl)
    ensures (IsNonEmptyString(id) && IsNonEmptyString(publicationId) && ParseType(mediaType).Some?
             && IsNonEmptyString(url) && !IsNonEmptyString(filename)) ==> r == Err(InvalidFilename)
    ensures (IsNonEmptyString(id) && IsNonEmptyString(publicationId) && ParseType(mediaType).Some?
             && IsNonEmptyString(url) && IsNonEmptyString(filename) && !IsValidSize(size)) ==> r == Err(InvalidSize)
    ensures r.Ok? ==>
      && r.value.id == id.s && r.value.publicationId == publicationId.s
      && Some(r.value.mediaType) == ParseType(mediaType)
      && r.value.url == url.s && r.value.filename == filename.s
      && r.value.size == size.n && r.value.size > 0.0
      && r.value.order == order && r.value.createdAt == now
      && r.value.cloudinaryPublicId.None? && r.value.metadata == map[]
  {
    if !IsNonEmptyString(id) then Err(InvalidId)
    else if !IsNonEmptyString(publicationId) then Err(InvalidPublicationId)
    else if ParseType(mediaType).None? then Err(InvalidType)
    else if !IsNonEmptyString(url) then Err(InvalidUrl)
    else if !IsNonEmptyString(filename) then Err(InvalidFilename)
    else if !IsValidSize(size) then Err(InvalidSize)
    else Ok(MediaItem(id.s, publicationId.s, ParseType(mediaType).value, url.s, filename.s,
                      size.n, order, now, None, map[]))
  }

  /** `setCloudinaryData(publicId, metadata)`: records the storage id and
      merges the metadata, the incoming keys overriding existing ones. */
  function SetCloudinaryData(m: MediaItem, publicId: Value, metadata: map<string, Value>)
    : (r: Result<MediaItem, MediaError>)
    ensures r.Ok? <==> IsNonEmptyString(publicId)
    ensures r.Err? ==> r.error == InvalidPublicId
    ensures r.Ok? ==> r.value.cloudinaryPublicId == Some(publicId.s)
    ensures r.Ok? ==> r.value.metadata.Keys == m.metadata.Keys + metadata.Keys
    ensures r.Ok? ==> forall k :: k in metadata ==> r.value.metadata[k] == metadata[k]
    ensures r.Ok? ==> forall k :: k in m.metadata && k !in metadata ==> r.value.metadata[k] == m.metadata[k]
    ensures r.Ok? ==> r.value == m.(cloudinaryPublicId := r.value.cloudinaryPublicId, metadata := r.value.metadata)
  {
    if !IsNonEmptyString(publicId) then Err(InvalidPublicId)
    else Ok(m.(cloudinaryPublicId := Some(publicId.s), metadata := m.metadata + metadata))
  }

  /** `updateOrder(newOrder)`: a number that is not negative. */
  function UpdateOrder(m: MediaItem, newOrder: Value): (r: Result<MediaItem, MediaError>)
    ensures r.Ok? <==> newOrder.Num? && newOrder.n >= 0.0
    ensures r.Err? ==> r.error == InvalidOrder
    ensures r.Ok? ==> r.value == m.(order := newOrder.n)
  {
    if !newOrder.Num? || newOrder.n < 0.0 then Err(InvalidOrder)
    else Ok(m.(order := newOrder.n))
  }

  /** `setDimensions(width, height)`: images only; writes exactly the
      `width` and `height` metadata keys. */
  function SetDimensions(m: MediaItem, width: Value, height: Value): (r: Result<MediaItem, MediaError>)
    ensures r.Ok? <==> IsImage(m)
    ensures r.Err? ==> r.error == NotAnImage
    ensures r.Ok? ==> r.value.metadata.Keys == m.metadata.Keys + {"width", "height"}
    ensures r.Ok? ==> r.value.metadata["width"] == width && r.value.metadata["height"] == height
    ensures r.Ok? ==> forall k :: k in m.metadata && k != "width" && k != "height" ==> r.value.metadata[k] == m.metadata[k]
    ensures r.Ok? ==> r.value == m.(metadata := r.value.metadata)
  {
    if !IsImage(m) then Err(NotAnImage)
    else Ok(m.(metadata := m.metadata["width" := width]["height" := height]))
  }

  /** `setDuration(duration)`: videos only; writes exactly the `duration` key. */
  function SetDuration(m: MediaItem, duration: Value): (r: Result<MediaItem, MediaError>)
    ensures r.Ok? <==> IsVideo(m)
    ensures r.Err? ==> r.error == NotAVideo
    ensures r.Ok? ==> r.value.metadata.Keys == m.metadata.Keys + {"duration"}
    ensures r.Ok? ==> r.value.metadata["duration"] == duration
    ensures r.Ok? ==> forall k :: k in m.metadata && k != "duration" ==> r.value.metadata[k] == m.metadata[k]
    ensures r.Ok? ==> r.value == m.(metadata := r.value.metadata)
  {
    if !IsVideo(m) then Err(NotAVideo)
    else Ok(m.(metadata := m.metadata["duration" := duration]))
  }

  predicate IsImage(m: MediaItem) {
    m.mediaType == Image
  }

  predicate IsVideo(m: MediaItem) {
    m.mediaType == Video
  }

  /** Exactly one of the two metadata setters applies to any item. */
  lemma ExactlyOneKind(m: MediaItem, w: Value, h: Value, d: Value)
    ensures IsImage(m) != IsVideo(m)
    ensures SetDimensions(m, w, h).Ok? != SetDuration(m, d).Ok?
  {
  }

  /** `equals`: media items are the same entity when their ids agree. */
  predicate Equals(a: MediaItem, b: MediaItem) {
    a.id == b.id
  }

  /** Every mutator keeps the item's identity, type and file. */
  lemma MutatorsKeepIdentity(m: MediaItem, p: Value, md: map<string, Value>, o: Value, w: Value, h: Value, d: Value)
    ensures SetCloudinaryData(m, p, md).Ok? ==> Equals(m, SetCloudinaryData(m, p, md).value)
    ensures UpdateOrder(m, o).Ok? ==> Equals(m, UpdateOrder(m, o).value)
    ensures SetDimensions(m, w, h).Ok? ==> Equals(m, SetDimensions(m, w, h).value)
    ensures SetDuration(m, d).Ok? ==> Equals(m, SetDuration(m, d).value)
  {
  }
}
