/**
 * Frontmatter values as the `front-matter` and `gray-matter` parsers hand
 * them over, JavaScript truthiness on them, and the globbed input files.
 */
module Values {
  import opened Common

  /** One frontmatter value. A YAML timestamp arrives as a `Date` object and
      is kept as its millisecond value `Stamp(t)`; lists and nested mappings
      are `Composite`. Numbers are integers here. */
  datatype Value = Str(s: string) | Num(n: int) | Bool(b: bool) | Null | Stamp(t: int) | Composite

  /** An open record of named values: the frontmatter attributes, and the
      post entries built by spreading them. */
  type Record = map<string, Value>

  /** JavaScript truthiness. */
  predicate Truthy(v: Value) {
    match v
    case Str(s) => s != ""
    case Num(n) => n != 0
    case Bool(b) => b
    case Null => false
    case Stamp(_) => true
    case Composite => true
  }

  /** Rendering the value as a JSX child throws: React renders a string
      or a number as text and a boolean or `null` as nothing, but throws
      "Objects are not valid as a React child" on a `Date` or a mapping.
      A list is lumped in with mappings. */
  predicate ThrowsAsChild(v: Value) {
    v.Stamp? || v.Composite?
  }

  /** `record.key`; `None` is `undefined`. */
  function Get(r: Record, key: string): Option<Value> {
    if key in r then Some(r[key]) else None
  }

  /** `!!record.key`: the field is present and truthy. */
  predicate Has(r: Record, key: string) {
    key in r && Truthy(r[key])
  }

  /** What reading one markdown file gives: the parser's `attributes`/`data`
      and `body`/`content`, or `Failed` when the import, the fetch or the
      parse throws. */
  datatype Fetched = Failed | Parsed(attrs: Record, body: string)

  /** One file found by `import.meta.glob`: its path and what reading it gives. */
  datatype SourceFile = SourceFile(path: string, doc: Fetched)
}
