# Configuration loader core of `common_core`, modelled in Dafny

This project models the configuration loader of the `common_core` package
and the two small BGC class helpers that sit beside it.

The loader resolves a settings object for a worker process. It works in four steps:

1. It reads a YAML file and checks that the document root is a mapping.
2. It builds an *environment map*. This is the process environment with the
   `KEY=VALUE` lines of a dotenv file written over it. Its keys are lower-cased
   unless the loader is case-sensitive.
3. It replaces every `${NAME}` token in the YAML strings with the map's value
   for `NAME`. A token whose variable is missing fails the load.
4. It hands the result, with the caller's overrides and the environment, to a
   list of sources ordered by precedence. For each field the first source that
   defines it wins.

The helpers fold raw class labels (`NRPS`, `PKS`,
`ribosomal`, …) into canonical class names (`NRP`, `Polyketide`, `RiPP`, …).
They also turn a count per class into percentages.

The modules are:

| file | module | models |
|---|---|---|
| `wrappers.dfy` | `Wrappers` | `Option` and `Result` (failures are Python exceptions) |
| `text.dfy` | `Text` | `str.strip()` / `str.strip(chars)`, `str.find`, ASCII `str.lower()` |
| `dotenv.dfy` | `Dotenv` | `_build_env_map`: the dotenv loop, the overlay onto the process environment, lower-casing of keys |
| `raw_values.dfy` | `RawValues` | the parsed YAML value, the loader's error kinds, the root check of `_read_yaml` |
| `interpolation.dfy` | `Interpolation` | `_ENV_PATTERN`, `_expand_env_in_str`, `_expand_env_in_data` |
| `settings.dfy` | `Settings` | `LoaderOptions`, the YAML step of `load_settings`, the order of the settings sources and first-source-wins lookup |
| `class_distribution.dfy` | `ClassDistribution` | `normalize_class_distribution_dict`: the fold loop, the total, the percentages |
| `class_labels.dfy` | `ClassLabels` | `CLASS_MAP` and `normalize_bgc_class_string` |

Effects become inputs:

- The process environment is a `map<string, string>`, together with the order in which `os.environ` lists its keys.
- The dotenv file is `Option<seq<string>>`: its lines, or None when the file does not exist.
- The YAML file is `Option<RawValue>`: what the YAML parser returned, or None when the file does not exist.

The dotenv loop and the class-count fold change a dictionary step by step, so
they are methods with loops. Each loop is proved equal to a specification
function (`Overlay`, `FoldAll`). The lemmas then state what the source
promises about those functions. Interpolation and the lookups are pure
functions with lemmas.

## Model

| member | source | states |
|---|---|---|
| Text.TrimSpec | src/common_core/config_loader.py:49 | Trimming yields a string no longer than the input. Neither end of the result is a dropped character. An already-trimmed string is returned unchanged. Every character of the result comes from the input. |
| Text.TrimStartSpec | src/common_core/config_loader.py:49 | The left trim keeps a suffix of the input. It drops only droppable characters and stops at the first one that is not. |
| Text.TrimEndSpec | src/common_core/config_loader.py:49 | The right trim keeps a prefix of the input. It drops only droppable characters and stops at the last one that is not. |
| Text.TrimBetween | src/common_core/config_loader.py:58 | A run of droppable characters on each side of a core whose ends are not droppable is removed, leaving exactly the core. |
| Text.IndexOfSpec | src/common_core/config_loader.py:54-56 | The search finds a character exactly when it occurs, and then at its first occurrence. |
| Text.LowerChar | src/common_core/config_loader.py:66 | An upper-case ASCII letter becomes its own lower-case letter. Every other character is unchanged. |
| Text.Lower | src/common_core/config_loader.py:66 | Lower-casing keeps the length and leaves no upper-case ASCII letter. Every character that is not an upper-case letter is kept, and each upper-case letter becomes its own lower-case letter. |
| Text.LowerIsLower | src/common_core/config_loader.py:66 | A lower-cased string has no upper-case letter. Lower-casing it again changes nothing. |
| Dotenv.SplitAtFirst | src/common_core/config_loader.py:54-56 | The split exists exactly when the separator occurs. The line is then the part before, the separator and the rest, and the part before contains no separator. |
| Dotenv.SplitAtFirstSeparator | src/common_core/config_loader.py:56 | A line is split only at its first `=`. Everything after it, including further `=`, is the value. |
| Dotenv.ParseLineShape | src/common_core/config_loader.py:49-58 | A line is skipped exactly when it is blank or a comment after trimming, or has no `=` once `export ` is removed. An entry's key has no `=` and no surrounding whitespace. Its value has no leading or trailing quote. |
| Dotenv.ParseLineParts | src/common_core/config_loader.py:49-58 | When a line that is neither blank nor a comment reads `before=after` once trimmed and stripped of `export `, with no `=` in `before`, the key is `before` trimmed. The value is `after` with whitespace and then quotes stripped. |
| Dotenv.PlainLineKept | src/common_core/config_loader.py:49-51 | A `KEY=VALUE` line built from a plain key and value is unchanged by trimming and is neither blank nor a comment. |
| Dotenv.PlainLineNotExported | src/common_core/config_loader.py:52-53 | A line whose key does not start with `export ` is not altered by the prefix removal. |
| Dotenv.ParsePlainAssignment | src/common_core/config_loader.py:49-59 | Writing a plain key and value as `KEY=VALUE` and parsing the line gives back that key and value. The value may contain `=`. |
| Dotenv.ExportedLineKept | src/common_core/config_loader.py:49-53 | An `export KEY=…` line ending in a quote survives trimming and loses exactly its `export ` prefix. |
| Dotenv.ParseExportedQuotedAssignment | src/common_core/config_loader.py:49-59 | `export KEY=` followed by a value wrapped in runs of quote characters parses to the key and the bare value. The quotes need not match: `'"x"'` gives `x`. |
| Dotenv.QuotesStripped | src/common_core/config_loader.py:58 | Whitespace is trimmed before quotes. A value wrapped in quote runs on both sides comes out bare. |
| Dotenv.ParseLines | src/common_core/config_loader.py:48 | Parsing a file gives one entry per line, including skipped lines. |
| Dotenv.ParseLinesAt | src/common_core/config_loader.py:48-59 | Entry `i` of the parsed file is line `i`, parsed on its own. |
| Dotenv.ParseLinesSnoc | src/common_core/config_loader.py:48 | Parsing one more line appends exactly that line's entry. |
| Dotenv.OverlayStep | src/common_core/config_loader.py:48-59 | Overlaying the first `i + 1` lines is overlaying the first `i` lines, then applying line `i`. |
| Dotenv.KeyOrderStep | src/common_core/config_loader.py:59 | Line `i` appends its key to the iteration order exactly when the key is new. |
| Dotenv.OverlayKeys | src/common_core/config_loader.py:41-59 | A key is in the overlaid map exactly when it is in the process environment or some dotenv entry assigns it. Skipped lines add nothing. |
| Dotenv.LastAssignmentWins | src/common_core/config_loader.py:41-59 | The last dotenv entry for a key decides its value and overwrites the process environment. |
| Dotenv.UnassignedKept | src/common_core/config_loader.py:41-59 | A process-environment key that no dotenv entry assigns is kept with its value. |
| Dotenv.KeyOrderSpec | src/common_core/config_loader.py:41-59 | After the dotenv entries are assigned, the iteration order lists exactly the map's keys. It starts with the process environment's order, and only keys the process environment lacked follow it. |
| Dotenv.ApplyDotenv | src/common_core/config_loader.py:41-59 | The loop over the file's lines yields the process environment overlaid with the file's entries, in order. It also yields the dictionary's iteration order: a new key goes last, and a reassigned key keeps its place. |
| Dotenv.LowerKeys | src/common_core/config_loader.py:66 | The comprehension, visiting the keys in the dictionary's iteration order, computes the specified fold, in which a later key overwrites an earlier one that lower-cases to the same name. |
| Dotenv.FoldInOrderKeys | src/common_core/config_loader.py:66 | The folded names are exactly the lower-cased keys visited. |
| Dotenv.FoldInOrderLast | src/common_core/config_loader.py:66 | The last key in iteration order that lower-cases to a name decides that name's value. |
| Dotenv.FoldInOrderFolds | src/common_core/config_loader.py:66 | Every lower-cased key is present, and each folded value is the value of a key that lower-cases to it. |
| Dotenv.BuildEnvMap | src/common_core/config_loader.py:40-66 | The map is the process environment overlaid with the dotenv lines. The lines are used only when a non-empty file name is configured and the file exists. Keys are lower-cased exactly when the loader is not case-sensitive, visiting the process keys first and then the keys the dotenv adds. |
| Dotenv.EnvMapFolds | src/common_core/config_loader.py:63-66 | When case-sensitive, the map is the overlaid environment unchanged. Otherwise it folds the overlaid environment's keys. |
| Dotenv.DotenvKeyWins | src/common_core/config_loader.py:41-66 | A key the dotenv file adds beats every process key that lower-cases to the same name. The folded value comes from a dotenv-added key. |
| Dotenv.FoldedKeysAreLower | src/common_core/config_loader.py:63-66 | After case folding, every key is lower-case. |
| Dotenv.FoldedUnique | src/common_core/config_loader.py:63-66 | A key that no other key folds onto keeps its value under its lower-cased name. |
| RawValues.ReadYamlRoot | src/common_core/config_loader.py:27-34 | A missing file is `ConfigNotFound`. A document that is false in Python's sense, `null` included, is the empty mapping. A mapping root gives its entries. Any other root is `ConfigFormatError`. |
| Interpolation.NameRunSpec | src/common_core/config_loader.py:37 | The name run is the longest prefix made of name characters. |
| Interpolation.TokenAt | src/common_core/config_loader.py:37 | A recognised token is `${`, a well-formed name, then `}`, at the start of the string. |
| Interpolation.TokenAtComplete | src/common_core/config_loader.py:37 | Every well-formed `${NAME}` at the start of a string is recognised, with its whole name. |
| Interpolation.InsideTokenNoToken | src/common_core/config_loader.py:37-77 | No token starts inside another, so the scan misses none by skipping over a replaced token. |
| Interpolation.ExpandStr | src/common_core/config_loader.py:69-77 | A failed expansion names a well-formed variable whose key (lower-cased unless case-sensitive) is absent from the map. |
| Interpolation.LiteralCopied | src/common_core/config_loader.py:77 | Text in which no token begins is copied verbatim ahead of the expansion of the rest. |
| Interpolation.NoTokenUnchanged | src/common_core/config_loader.py:77 | A string with no token is returned unchanged. |
| Interpolation.TokenReplaced | src/common_core/config_loader.py:70-77 | A token is replaced by the map's value exactly as stored. The value is not rescanned, and expansion continues after the token. |
| Interpolation.TokenMissing | src/common_core/config_loader.py:72-74 | A token whose key is missing fails the expansion with an error naming the variable as written. |
| Interpolation.ExpandFailsIffMissing | src/common_core/config_loader.py:69-77 | Expansion fails exactly when some token in the string has a key missing from the map. |
| Interpolation.ExpandAllAppend | src/common_core/config_loader.py:80-87 | Expanding two lists of strings one after the other is expanding their concatenation. The first failure wins. |
| Interpolation.ExpandValueLeaves | src/common_core/config_loader.py:80-87 | Expanding a document succeeds exactly when each of its strings expands, in document order. A failure is the first string's failure. The result has the same skeleton: mapping keys, key order, sequence lengths and non-string scalars. Its strings are the expanded strings. |
| Interpolation.ExpandFieldsLeaves | src/common_core/config_loader.py:81-82 | As above, for the entries of a mapping: keys are kept and never interpolated. |
| Interpolation.ExpandItemsLeaves | src/common_core/config_loader.py:83-84 | As above, for a sequence: length and order are kept. |
| Interpolation.ExpandAllPointwise | src/common_core/config_loader.py:80-87 | A list of strings expands exactly when every string does. Each result is then that string's own expansion. |
| Settings.LoadYamlData | src/common_core/config_loader.py:108-114 | Without a path the YAML data is empty. A missing file or a non-mapping root fails before the environment map is built. Otherwise the result is the root's entries interpolated with the environment map that `BuildEnvMap` computes from the options. |
| Settings.DefaultsReadDotenvAndFold | src/common_core/config_loader.py:21-24 | With the default options (`.env`, not case-sensitive), an existing `.env` file is read and the map folds the keys of the process environment overlaid with its entries. |
| Settings.Rank | src/common_core/config_loader.py:160-167 | Each source has a position in the precedence order, and that position holds it. |
| Settings.SourceOrderIsPermutation | src/common_core/config_loader.py:160-167 | Every source appears in the order, and none appears twice. |
| Settings.FirstDefiningSpec | src/common_core/config_loader.py:160-167 | The first layer that defines a field supplies its value. |
| Settings.FirstDefiningNone | src/common_core/config_loader.py:160-167 | Lookup finds nothing exactly when no layer defines the field. |
| Settings.SourceWins | src/common_core/config_loader.py:160-167 | A source that defines a field wins over every source after it. |
| Settings.OverridesWin | src/common_core/config_loader.py:160-167 | The caller's overrides beat every other source. |
| Settings.DefaultWhenUndefined | src/common_core/config_loader.py:100-104 | The schema default is used exactly when no source defines the field. Resolution fails exactly when there is no source value and no default. |
| Settings.ToMapLastWins | src/common_core/config_loader.py:141-142 | The YAML source's dictionary holds the last entry for each key. |
| Settings.ToMapKeys | src/common_core/config_loader.py:141-142 | The YAML source's keys are exactly the keys of the YAML entries. |
| ClassDistribution.FoldCounts | build/lib/common_core/helpers.py:17-34 | The fold loop, run on a copy, computes the specified fold. |
| ClassDistribution.LabelsDistinct | build/lib/common_core/helpers.py:20-28 | No label occurs in two pairs, and no label is both a source and a target. |
| ClassDistribution.FoldStepOther | build/lib/common_core/helpers.py:29-34 | One iteration changes only its own source and target. |
| ClassDistribution.FoldStepPair | build/lib/common_core/helpers.py:29-34 | One iteration moves a nonzero source count onto the target and drops a zero target. |
| ClassDistribution.FoldBetween | build/lib/common_core/helpers.py:20-34 | Iterations leave every label they do not name alone. |
| ClassDistribution.FoldAllSpec | build/lib/common_core/helpers.py:20-34 | Labels outside the fold list keep their counts. A nonzero source is removed and a zero source kept as it was. The target holds the sum of both counts, and is absent when that sum is 0. |
| ClassDistribution.NoZeroTargets | build/lib/common_core/helpers.py:32-34 | After folding, no canonical name is present with count 0. |
| ClassDistribution.SumRemove | build/lib/common_core/helpers.py:36 | The total is any one count plus the total of the rest. |
| ClassDistribution.SumUpdate | build/lib/common_core/helpers.py:29-36 | Setting one count changes the total by the difference. |
| ClassDistribution.SumWithout | build/lib/common_core/helpers.py:29-36 | Removing a key lowers the total by its count, or by 0 when it is absent. |
| ClassDistribution.FoldStepSum | build/lib/common_core/helpers.py:29-34 | One iteration leaves the total unchanged. |
| ClassDistribution.FoldUpToSum | build/lib/common_core/helpers.py:20-36 | The fold loop preserves the total of all counts. |
| ClassDistribution.TotalCount | build/lib/common_core/helpers.py:36 | The loop over the keys computes the total of the counts. |
| ClassDistribution.SumNonNegative | build/lib/common_core/helpers.py:36 | Non-negative counts have a non-negative total. |
| ClassDistribution.EntryAtMostSum | build/lib/common_core/helpers.py:36-41 | A non-negative count is at most the total of non-negative counts. |
| ClassDistribution.PercentagesBounded | build/lib/common_core/helpers.py:39-42 | With non-negative counts and a positive total, every percentage lies in [0, 100]. |
| ClassDistribution.NormalizeClassDistribution | build/lib/common_core/helpers.py:17-44 | The result's labels are exactly the folded labels. With no positive total every value is 0. Otherwise each value is the folded count's share of the original total, as a percentage. |
| ClassLabels.NormalizeBgcClassString | src/common_core/helpers.py:12-26 | A label gets a result exactly when it is a key of `CLASS_MAP`. Every result is one of the seven canonical names. |
| ClassLabels.KnownLabels | src/common_core/helpers.py:1-26 | Each of the seven mapped labels yields its listed canonical name. |
| ClassLabels.CaseSensitive | src/common_core/helpers.py:12-26 | Matching is exact and case-sensitive: `"nrps"` and `"Terpene"` yield nothing. |
| ClassLabels.CanonicalClassesReached | src/common_core/helpers.py:1-26 | Every canonical name is the result for some label. |
| ClassLabels.AgreesWithFoldPairs | src/common_core/helpers.py:1-9 | `CLASS_MAP` and the fold list of `normalize_class_distribution_dict` name the same pairs. |

## Left out

- Filesystem and environment access are not modelled. That covers `Path.exists`, `open`, reading `os.environ` and the encoding of the files. Their outcomes are inputs.
- YAML parsing (`yaml.safe_load`) is not modelled. The model takes the parsed root. Mapping keys are strings, and a mapping's entries have distinct keys, as a Python `dict` does.
- I/O errors while reading the dotenv file are swallowed. The model's line sequence stands for the lines read before any such error. Entries already applied are kept, as the source's in-place updates keep them.
- The pydantic-settings machinery is not modelled. That covers the dynamic subclass, the `_YamlSource` and `_CliSource` classes, and the decoding of environment variables with `env_prefix` and `env_nested_delimiter`. Deep merging of nested mappings, type coercion and validation are out as well. The model keeps the order of the sources and top-level first-source-wins lookup. `LoaderOptions.envPrefix` and `envNestedDelimiter` are carried but unused.
- Text.Lower: covers ASCII letters only, whereas Python's `str.lower()` also folds non-ASCII letters, so non-ASCII environment keys fold differently. Some of them lower-case to ASCII: U+212A KELVIN SIGN becomes `k`, so `${k}` finds such a key in the source but not in the model. Some lower-case to two characters (`'İ'.lower()`), which a length-preserving `Lower` cannot express.
- ClassDistribution.NormalizeClassDistribution: percentages are exact reals. The source rounds them with `round(v / total * 100, 1)` and returns them sorted in descending order. Float arithmetic, rounding and the sort are not modelled.
- ClassDistribution.NormalizeClassDistribution: the `int(v)` conversion of the input counts is not modelled. The input is already a map of integers.
- build/lib/common_core/helpers.py has no imports. `Mapping` in the signature is evaluated when the function is defined, so importing the module raises `NameError`, and `log` is undefined as well. As written the helper cannot run. The model assumes the missing `Mapping` and `log` imports and leaves the `log.debug` call out.
- `normalize_classes_list` (build/lib/common_core/helpers.py:49-52) is not modelled. It unpacks each key string of a dictionary into two names, so it fails on most inputs.
- src/common_core/logging_setup.py, src/common_core/versioning.py and src/common_core/worker_template.py are not part of this model. They are logging configuration, a package-metadata lookup and command-line glue.

### Behaviour of the code that is easy to miss

The model follows the code in each case:

- **YAML root.** The code reads the root as `yaml.safe_load(f) or {}`. So every document that is false in Python's sense becomes an empty mapping, not only an empty one or `null`. That covers `false`, `0`, `""` and `[]`. A root that is a non-empty scalar or sequence is rejected.
- **Dotenv read errors.** The code keeps the entries already applied when reading the dotenv file fails part-way. It does not fall back to the process environment alone.
- **Quote stripping.** Quotes are stripped as every leading and trailing `'` or `"` character, not as one matched pair.
- **Source order.** The docstring of `load_settings` (src/common_core/config_loader.py:100-104) lists overrides, the environment, YAML and defaults. The wired order (lines 160-167) also places dotenv values right after the process environment. It ranks init arguments below the YAML source and file secrets last.
- **Two precedences.** For interpolation, dotenv entries overwrite the process environment (line 59). For field values, the process environment ranks above the dotenv source (lines 162-163).
