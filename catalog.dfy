/**
 * The shared catalog `games.json`: an ordered list of game records
 * `{name, directory, image, source, gameUrl?}`. The scripts read `name`,
 * `directory` and `gameUrl` with `g.get(key, '')`, so a record field can be
 * absent, JSON `null`, or a string; `Field` keeps those three apart.
 */
module Catalog {
  import opened Wrappers

  datatype Field = Missing | Null | Str(text: string)

  datatype Entry = Entry(
    name: Field,
    directory: Field,
    image: string,
    source: string,
    gameUrl: Field,
    imagePath: Option<string>)  // only the gn-math scraper sets it

  /** The image and source every script writes for a locally hosted game. */
  const CoverImage: string := "cover.png"
  const LocalSource: string := "non-semag"

  /** `{name, directory, image: "cover.png", source: "non-semag"}`. */
  function LocalEntry(name: Field, directory: string): Entry {
    Entry(name, Str(directory), CoverImage, LocalSource, Missing, None)
  }

  /** The text of a `directory` field compared with `==` against a string slug (`None` never equals one). */
  predicate HasDirectory(e: Entry, dir: string) {
    e.directory == Str(dir)
  }

  /** The state of a JSON input file as a script finds it. */
  datatype JsonFile<T> = Absent | Unparsable | Parsed(contents: T)
}
