/** The plugin's options, after they have been merged with the defaults. */
module SlugOptions {
  import opened SlugGenerator

  /**
   * The source fields. A field string containing a space is split into a
   * list of names (index.js:37-39). A string without one stays a single
   * name, and the hook treats the two shapes differently.
   */
  datatype SlugFields = Single(name: string) | Many(names: seq<string>)

  /**
   * The options the core reads. `maxLength` is tested for truthiness, so 0
   * stands for both `null` and `0`: no limit. `unique` is `index_unique` and
   * `sparse` is `index_sparse`.
   */
  datatype Options = Options(
    fields: SlugFields,
    separator: Separator,
    maxLength: nat,
    update: bool,
    unique: bool,
    sparse: bool,
    saveHistory: bool,
    stripHtml: bool)

  /** The default options of index.js:15-32 for the given source fields. */
  function Defaults(fields: SlugFields): Options {
    Options(fields, Dash, 0, false, true, false, false, true)
  }
}
