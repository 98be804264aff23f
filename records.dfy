/** The manifest that the three stages hand to each other through
    `extracted_urls.json`. */
module Records {

  datatype Option<T> = None | Some(value: T)

  /** One entry of the manifest's `links` array. */
  datatype Link = Link(url: string, title: string, fileName: string)

  /** The manifest object: `totalCount`, `baseUrl`, `links`. */
  datatype Manifest = Manifest(totalCount: int, baseUrl: string, links: seq<Link>)

  /** What reading the manifest file gives a stage: a file that cannot be read
      or parsed, a JSON value Python treats as false (such as `{}`), or a
      manifest. */
  datatype JsonInput = Unreadable | EmptyObject | Parsed(manifest: Manifest)
}
