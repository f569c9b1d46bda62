/**
  The opened presentation container, as the viewer sees it through its
  archive library: the entry paths in the container's own order (what a
  folder's `forEach` walks) and a lookup from path to entry (what `file(path)`
  answers, `null` for a path that is not there).
*/
module Archives {
  import opened Options

  newtype byte = b: int | 0 <= b < 256

  /** An entry the library can read back, or one whose read rejects (corrupt data). */
  datatype Entry = Intact(data: seq<byte>) | Damaged

  datatype Archive = Archive(listing: seq<string>, files: map<string, Entry>)

  /**
    One `Relationship` element of a `.rels` document; `None` stands for an
    attribute that is not there (`getAttribute` answers `null`).
  */
  datatype Relationship = Relationship(typ: Option<string>, target: Option<string>)

  /**
    The decoders the viewer calls but does not define: reading an entry as
    text, parsing that text as a relationship list (every `Relationship`
    element in document order), and reading an entry as base64 text.
  */
  datatype Codecs = Codecs(
    text: seq<byte> -> string,
    relationships: string -> seq<Relationship>,
    base64: seq<byte> -> string)
}
