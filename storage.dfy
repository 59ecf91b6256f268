/**
 * The storage side of the diff engine, seen only through its interface:
 * stat of a URL, the two listings of a client, and the URL joiner.
 * The backends themselves (local filesystem, object store) are not modelled.
 */
module Storage {

  datatype Option<+T> = None | Some(value: T)

  /** Go's int64, the type of an entry's size. */
  newtype int64 = x: int | -0x8000_0000_0000_0000 <= x < 0x8000_0000_0000_0000

  /** The part of os.FileMode the engine inspects: IsRegular, IsDir, or neither. */
  datatype Kind = Regular | Dir | Other

  /** What a stat or a listing step reports about one entry. */
  datatype Content = Content(name: string, size: int64, kind: Kind)

  /** One value received from Client.List: an entry, or an error that ends the listing. */
  datatype ListItem = Entry(content: Content) | ListError

  /**
   * A storage client as the engine uses it: the string of its URL, that URL's
   * path separator, and what List(false) and List(true) yield.
   */
  datatype Client = Client(
    url: string,
    separator: char,
    flatListing: seq<ListItem>,
    fullListing: seq<ListItem>)

  /** A successful url2Stat: the client for the URL and the entry it names. */
  datatype Stat = Stat(client: Client, content: Content)

  /**
   * The environment of one comparison: url2Stat succeeds on `url` exactly when
   * `url in stat`, and urlJoinPath(a, b) is `join(a, b)`, None when it fails.
   */
  datatype Env = Env(stat: map<string, Stat>, join: (string, string) -> Option<string>)
}
