/** The catalog's entities: the media-type enumeration, the raw document the
    loader receives (or fails to read), and the item it builds. */
module Media {
  import opened JsValue

  /** The seven media types the user can filter by. */
  datatype MediaType = Book | Movie | Drama | Manga | Anime | Music | Zeitgeist

  /** The string each media type is written as in front matter. */
  function TypeName(t: MediaType): string {
    match t
    case Book => "book"
    case Movie => "movie"
    case Drama => "drama"
    case Manga => "manga"
    case Anime => "anime"
    case Music => "music"
    case Zeitgeist => "zeitgeist"
  }

  /** One discovered document after front-matter parsing: its file path, its
      attributes object and its body text. */
  datatype Document = Document(path: string, attributes: Attributes, body: string)

  /** One discovered file as the loading loop reaches it: read and parsed, or
      a read that rejects or a front-matter block the parser throws on. */
  datatype Fetched = Parsed(doc: Document) | Failed(path: string)

  /** A catalog entry. The loader copies the attribute values as they are, so
      the fields keep the parser's value (a `year: 2001` stays a number). */
  datatype MediaItem = MediaItem(
    id: string,
    mediaType: Value,
    title: Value,
    creator: Value,
    year: Value,
    importance: Value,
    notes: string,
    imageUrl: Value)
}
