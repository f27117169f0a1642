/**
 * The exercise catalog (`gifs.json`): written by the catalog builder and read
 * by the front end. It maps each muscle group ("categoria") to its list of
 * exercises; the JSON object's key order is kept as the order of the groups.
 */
module GifsJson {

  /** One exercise image: its display name and the URL of the GIF. */
  datatype Entry = Entry(nome: string, url: string)

  /** One muscle group and its exercises, in list order. */
  datatype Group = Group(name: string, entries: seq<Entry>)

  /** The whole catalog, groups in key order. */
  type Catalog = seq<Group>
}
