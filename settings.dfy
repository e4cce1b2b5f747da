/**
 * `load_settings`: the loader options, the YAML step that reads, checks and
 * interpolates the document, and the fixed order of the value sources with
 * first-source-wins lookup of a field.
 */
module Settings {
  import opened Wrappers
  import opened RawValues
  import opened Interpolation
  import opened Dotenv

  /** Per-call options; `DefaultOptions` holds the defaults of the source's dataclass. */
  datatype LoaderOptions = LoaderOptions(
    envPrefix: string,
    envNestedDelimiter: string,
    envFile: Option<string>,
    caseSensitive: bool)

  const DefaultOptions := LoaderOptions("", "__", Some(".env"), false)

  // ---------------------------------------------------------------------
  // The YAML step
  // ---------------------------------------------------------------------

  /** The YAML mapping before interpolation: empty when no path is given, else the checked document root. */
  function YamlRoot(yamlPath: Option<string>, document: Option<RawValue>): Result<seq<Field>, LoadError> {
    if yamlPath.None? then Success([]) else ReadYamlRoot(yamlPath.value, document)
  }

  /**
   * Reads and checks the YAML root, then builds the environment map from the
   * process environment and the dotenv file and interpolates the YAML data
   * with it. `document` is what the YAML parser returned for `yamlPath` (None
   * when the file does not exist), `processOrder` the iteration order of the
   * process environment and `fileLines` the lines read from the dotenv file.
   * A failed read stops before the environment map is built.
   */
  method LoadYamlData(yamlPath: Option<string>, document: Option<RawValue>, processEnv: map<string, string>,
                      processOrder: seq<string>, fileLines: Option<seq<string>>, options: LoaderOptions)
    returns (r: Result<seq<Field>, LoadError>)
    requires Enumerates(processOrder, processEnv)
    ensures yamlPath.None? ==> r.Success? && r.value == []
    ensures yamlPath.Some? && document.None? ==> r == Failure(ConfigNotFound(yamlPath.value))
    ensures yamlPath.Some? && document.Some? && IsTruthy(document.value) && !document.value.Mapping? ==>
              r == Failure(ConfigFormatError(yamlPath.value))
    ensures YamlRoot(yamlPath, document).Success? ==>
              r == ExpandFields(YamlRoot(yamlPath, document).value,
                                EnvMap(processEnv, processOrder, options.envFile, fileLines, options.caseSensitive),
                                options.caseSensitive)
  {
    var root := YamlRoot(yamlPath, document);
    if root.Failure? {
      return root.PropagateFailure();
    }
    var envMap := BuildEnvMap(processEnv, processOrder, options.envFile, fileLines, options.caseSensitive);
    r := ExpandFields(root.value, envMap, options.caseSensitive);
  }

  /**
   * Under the default options an existing `.env` file is read and the keys
   * of the resulting map are lower-cased: it folds the process environment
   * overlaid with the file's entries.
   */
  lemma DefaultsReadDotenvAndFold(processEnv: map<string, string>, processOrder: seq<string>, fileLines: seq<string>)
    requires Enumerates(processOrder, processEnv)
    ensures FoldsKeys(Overlay(processEnv, fileLines),
                      EnvMap(processEnv, processOrder, DefaultOptions.envFile, Some(fileLines), DefaultOptions.caseSensitive))
  {
    assert DotenvLines(DefaultOptions.envFile, Some(fileLines)) == fileLines;
    EnvMapFolds(processEnv, processOrder, DefaultOptions.envFile, Some(fileLines), DefaultOptions.caseSensitive);
  }

  // ---------------------------------------------------------------------
  // Source precedence
  // ---------------------------------------------------------------------

  /** The providers of field values, as wired by `settings_customise_sources`. */
  datatype Source = CliOverrides | ProcessEnvironment | DotenvFile | YamlFile | InitArguments | FileSecrets

  /** Highest precedence first. */
  const SourceOrder: seq<Source> := [CliOverrides, ProcessEnvironment, DotenvFile, YamlFile, InitArguments, FileSecrets]

  /** The position of a source in `SourceOrder`. */
  function Rank(src: Source): (r: nat)
    ensures r < |SourceOrder| && SourceOrder[r] == src
  {
    match src
    case CliOverrides => 0
    case ProcessEnvironment => 1
    case DotenvFile => 2
    case YamlFile => 3
    case InitArguments => 4
    case FileSecrets => 5
  }

  /** The order is total and fixed: every source appears in it exactly once. */
  lemma SourceOrderIsPermutation()
    ensures forall src: Source :: src in SourceOrder
    ensures forall i, j :: 0 <= i < j < |SourceOrder| ==> SourceOrder[i] != SourceOrder[j]
  {
    forall src: Source
      ensures src in SourceOrder
    {
      var _ := Rank(src);
    }
  }

  /** The field values each source provides (top-level fields only). */
  datatype SourceSet = SourceSet(
    cli: map<string, RawValue>,
    processEnv: map<string, RawValue>,
    dotenv: map<string, RawValue>,
    yaml: map<string, RawValue>,
    init: map<string, RawValue>,
    secrets: map<string, RawValue>)
  {
    function Layer(src: Source): map<string, RawValue> {
      match src
      case CliOverrides => cli
      case ProcessEnvironment => processEnv
      case DotenvFile => dotenv
      case YamlFile => yaml
      case InitArguments => init
      case FileSecrets => secrets
    }

    /** The layers in precedence order. */
    function Layers(): seq<map<string, RawValue>> {
      seq(|SourceOrder|, i requires 0 <= i < |SourceOrder| => Layer(SourceOrder[i]))
    }
  }

  /** The YAML data as the YAML source's dictionary; a later entry for the same key replaces an earlier one. */
  function ToMap(fields: seq<Field>): map<string, RawValue> {
    if fields == [] then map[] else ToMap(fields[..|fields| - 1])[fields[|fields| - 1].key := fields[|fields| - 1].value]
  }

  /** The value of `field` in the first layer that defines it. */
  function FirstDefining(layers: seq<map<string, RawValue>>, field: string): Option<RawValue> {
    if layers == [] then None
    else if field in layers[0] then Some(layers[0][field])
    else FirstDefining(layers[1..], field)
  }

  lemma {:induction false} FirstDefiningSpec(layers: seq<map<string, RawValue>>, field: string, i: nat)
    requires i < |layers| && field in layers[i]
    requires forall j :: 0 <= j < i ==> field !in layers[j]
    ensures FirstDefining(layers, field) == Some(layers[i][field])
  {
    if i > 0 {
      forall j | 0 <= j < i - 1
        ensures field !in layers[1..][j]
      {
        assert layers[1..][j] == layers[j + 1];
      }
      FirstDefiningSpec(layers[1..], field, i - 1);
    }
  }

  lemma {:induction false} FirstDefiningNone(layers: seq<map<string, RawValue>>, field: string)
    ensures FirstDefining(layers, field).None? <==> forall j :: 0 <= j < |layers| ==> field !in layers[j]
  {
    if layers != [] {
      FirstDefiningNone(layers[1..], field);
      assert forall j :: 1 <= j < |layers| ==> layers[1..][j - 1] == layers[j];
    }
  }

  /**
   * The value chosen for a field: that of the highest-precedence source
   * defining it, else the schema default, else the field is missing.
   */
  function ResolveField(sources: SourceSet, field: string, default: Option<RawValue>): Result<RawValue, string> {
    var found := FirstDefining(sources.Layers(), field);
    if found.Some? then Success(found.value)
    else if default.Some? then Success(default.value)
    else Failure(field)
  }

  /** A source that defines the field wins over every source after it in the order. */
  lemma SourceWins(sources: SourceSet, src: Source, field: string, default: Option<RawValue>)
    requires field in sources.Layer(src)
    requires forall other: Source :: Rank(other) < Rank(src) ==> field !in sources.Layer(other)
    ensures ResolveField(sources, field, default) == Success(sources.Layer(src)[field])
  {
    var layers := sources.Layers();
    forall j | 0 <= j < Rank(src)
      ensures field !in layers[j]
    {
      assert Rank(SourceOrder[j]) == j;
    }
    FirstDefiningSpec(layers, field, Rank(src));
  }

  /** Overrides given by the caller beat every other source. */
  lemma OverridesWin(sources: SourceSet, field: string, default: Option<RawValue>)
    requires field in sources.cli
    ensures ResolveField(sources, field, default) == Success(sources.cli[field])
  {
    SourceWins(sources, CliOverrides, field, default);
  }

  /** The default is used exactly when no source defines the field; without a default the field is missing. */
  lemma DefaultWhenUndefined(sources: SourceSet, field: string, default: Option<RawValue>)
    ensures (forall src: Source :: field !in sources.Layer(src)) ==>
              ResolveField(sources, field, default) == (if default.Some? then Success(default.value) else Failure(field))
    ensures ResolveField(sources, field, default).Failure? <==>
              default.None? && forall src: Source :: field !in sources.Layer(src)
  {
    var layers := sources.Layers();
    FirstDefiningNone(layers, field);
    if forall src: Source :: field !in sources.Layer(src) {
      forall j | 0 <= j < |layers|
        ensures field !in layers[j]
      {
      }
    } else {
      var src: Source :| field in sources.Layer(src);
      assert field in layers[Rank(src)];
    }
  }

  /** The last entry for a key in the YAML data is the one the YAML source provides. */
  lemma {:induction false} ToMapLastWins(fields: seq<Field>, i: nat)
    requires i < |fields|
    requires forall j :: i < j < |fields| ==> fields[j].key != fields[i].key
    ensures fields[i].key in ToMap(fields) && ToMap(fields)[fields[i].key] == fields[i].value
  {
    if i < |fields| - 1 {
      var init := fields[..|fields| - 1];
      ToMapLastWins(init, i);
    }
  }

  lemma {:induction false} ToMapKeys(fields: seq<Field>, key: string)
    ensures key in ToMap(fields) <==> exists j :: 0 <= j < |fields| && fields[j].key == key
  {
    if fields != [] {
      var init := fields[..|fields| - 1];
      ToMapKeys(init, key);
      if exists j :: 0 <= j < |fields| && fields[j].key == key {
        var j :| 0 <= j < |fields| && fields[j].key == key;
        if j < |fields| - 1 {
          assert init[j].key == key;
        }
      }
    }
  }
}
