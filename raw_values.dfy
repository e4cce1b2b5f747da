/**
 * YamlLoader: the value a YAML document parses to, the loader's error kinds,
 * and the check `_read_yaml` makes on the parsed root.
 */
module RawValues {
  import opened Wrappers

  /**
   * Parsed YAML content: a mapping (its entries in document order), a
   * sequence, or a scalar. Floats are modelled as reals; the loader never
   * computes with them.
   */
  datatype RawValue =
    | Mapping(fields: seq<Field>)
    | Sequence(items: seq<RawValue>)
    | Str(s: string)
    | Int(i: int)
    | Float(x: real)
    | Bool(b: bool)
    | Null

  datatype Field = Field(key: string, value: RawValue)

  /** The failures the loader reports (raised in the source as FileNotFoundError, ValueError and KeyError). */
  datatype LoadError =
    | ConfigNotFound(path: string)
    | ConfigFormatError(path: string)
    | MissingVariable(name: string)

  /** Python truthiness of a parsed document: empty containers, `""`, `0`, `0.0`, `false` and `null` are false. */
  predicate IsTruthy(v: RawValue) {
    match v
    case Mapping(fs) => fs != []
    case Sequence(xs) => xs != []
    case Str(s) => s != ""
    case Int(i) => i != 0
    case Float(x) => x != 0.0
    case Bool(b) => b
    case Null => false
  }

  /**
   * The root check of `_read_yaml`: a missing file is an error, a document
   * that is false in Python's sense (`yaml.safe_load(f) or {}`) becomes an
   * empty mapping, and any other root that is not a mapping is an error.
   * `document` is None when the file does not exist, otherwise the parsed root.
   */
  function ReadYamlRoot(path: string, document: Option<RawValue>): (r: Result<seq<Field>, LoadError>)
    ensures document.None? ==> r == Failure(ConfigNotFound(path))
    ensures document.Some? ==> (r.Failure? <==> IsTruthy(document.value) && !document.value.Mapping?)
    ensures document.Some? && r.Failure? ==> r.error == ConfigFormatError(path)
    ensures document.Some? && !IsTruthy(document.value) ==> r == Success([])
    ensures document.Some? && document.value.Mapping? ==> r == Success(document.value.fields)
  {
    match document
    case None => Failure(ConfigNotFound(path))
    case Some(root) =>
      var data := if IsTruthy(root) then root else Mapping([]);
      if data.Mapping? then Success(data.fields) else Failure(ConfigFormatError(path))
  }
}
