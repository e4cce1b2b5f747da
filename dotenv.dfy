/**
 * EnvMapBuilder: the map of candidate `${NAME}` values, built from a snapshot
 * of the process environment with the entries of a dotenv file laid over it,
 * its keys lower-cased unless the loader is case-sensitive.
 */
module Dotenv {
  import opened Wrappers
  import opened Text

  /** One `KEY=VALUE` entry of a dotenv file. */
  datatype Assignment = Assignment(key: string, value: string)

  const ExportPrefix: string := "export "

  predicate IsQuote(c: char) {
    c == '\'' || c == '"'
  }

  /** A trimmed line that is skipped outright: blank, or a `#` comment. */
  predicate IsBlankOrComment(line: string) {
    line == [] || line[0] == '#'
  }

  /** A leading `export ` is removed once; nothing else is. */
  function DropExport(line: string): string {
    if StartsWith(line, ExportPrefix) then line[|ExportPrefix|..] else line
  }

  /** Python's `line.split(sep, 1)`, when `sep` occurs: the text before the first `sep` and the text after it. */
  function SplitAtFirst(line: string, sep: char): (r: Option<(string, string)>)
    ensures r.None? <==> sep !in line
    ensures r.Some? ==> line == r.value.0 + [sep] + r.value.1 && sep !in r.value.0
  {
    IndexOfSpec(line, sep);
    match IndexOf(line, sep)
    case None => None
    case Some(i) =>
      assert line == line[..i] + [sep] + line[i + 1..];
      Some((line[..i], line[i + 1..]))
  }

  /** A line is split at its FIRST separator only: whatever follows, separators included, is the second half. */
  lemma SplitAtFirstSeparator(before: string, sep: char, after: string)
    requires sep !in before
    ensures SplitAtFirst(before + [sep] + after, sep) == Some((before, after))
  {
    var line := before + [sep] + after;
    var r := SplitAtFirst(line, sep);
    assert line[|before|] == sep;
    var (a, b) := r.value;
    assert forall k :: 0 <= k < |before| ==> line[k] == before[k];
    assert forall k :: 0 <= k < |a| ==> line[k] == a[k];
    assert line[|a|] == sep;
    assert |a| == |before|;
    assert a == line[..|a|] == before;
    assert b == line[|a| + 1..] == after;
  }

  /**
   * One line of a dotenv file: trimmed of whitespace; blank and `#` lines
   * skipped; a leading `export ` removed; lines without `=` skipped; otherwise
   * split at the first `=`, the key trimmed of whitespace and the value trimmed
   * of whitespace and then of every leading and trailing quote character.
   */
  function ParseLine(raw: string): Option<Assignment> {
    var line := Trim(raw, IsSpace);
    if IsBlankOrComment(line) then None else ParseAssignment(DropExport(line))
  }

  /** `KEY=VALUE` split at the first `=`, or nothing when there is no `=`. */
  function ParseAssignment(body: string): Option<Assignment> {
    var split := SplitAtFirst(body, '=');
    if split.None? then None else Some(Assignment(Trim(split.value.0, IsSpace), CleanValue(split.value.1)))
  }

  /**
   * Which lines are skipped, and the shape of an entry: its key has no `=`
   * and no surrounding whitespace, its value no leading or trailing quote.
   */
  lemma ParseLineShape(raw: string)
    ensures ParseLine(raw).None? <==> IsBlankOrComment(Trim(raw, IsSpace)) || '=' !in DropExport(Trim(raw, IsSpace))
    ensures ParseLine(raw).Some? ==> var a := ParseLine(raw).value;
      && '=' !in a.key
      && (a.key == [] || (!IsSpace(a.key[0]) && !IsSpace(a.key[|a.key| - 1])))
      && (a.value == [] || (!IsQuote(a.value[0]) && !IsQuote(a.value[|a.value| - 1])))
  {
    var line := Trim(raw, IsSpace);
    if !IsBlankOrComment(line) {
      var split := SplitAtFirst(DropExport(line), '=');
      if split.Some? {
        TrimSpec(split.value.0, IsSpace);
        TrimSpec(Trim(split.value.1, IsSpace), IsQuote);
      }
    }
  }

  /** A value loses its surrounding whitespace and then every leading and trailing quote character. */
  function CleanValue(after: string): string {
    Trim(Trim(after, IsSpace), IsQuote)
  }

  /**
   * How a line that is neither blank nor a comment is taken apart: when the
   * line, trimmed and without `export `, is `before=after` with no `=` in
   * `before`, the key is `before` trimmed and the value is `after` cleaned.
   */
  lemma ParseLineParts(raw: string, before: string, after: string)
    requires !IsBlankOrComment(Trim(raw, IsSpace))
    requires '=' !in before && DropExport(Trim(raw, IsSpace)) == before + "=" + after
    ensures ParseLine(raw) == Some(Assignment(Trim(before, IsSpace), CleanValue(after)))
  {
    assert before + "=" + after == before + ['='] + after;
    SplitAtFirstSeparator(before, '=', after);
  }
  /** A key that a dotenv line carries through unchanged when written as `KEY=VALUE`. */
  predicate IsPlainKey(key: string) {
    && '=' !in key
    && (key == [] || (!IsSpace(key[0]) && !IsSpace(key[|key| - 1]) && key[0] != '#'))
    && !StartsWith(key, ExportPrefix)
  }

  /** A value that a dotenv line carries through unchanged when written without quotes. */
  predicate IsPlainValue(value: string) {
    value == [] || (!IsSpace(value[0]) && !IsSpace(value[|value| - 1]) && !IsQuote(value[0]) && !IsQuote(value[|value| - 1]))
  }

  predicate AllQuotes(s: string) {
    forall k :: 0 <= k < |s| ==> IsQuote(s[k])
  }

  /** A `KEY=VALUE` line built from a plain key and value survives trimming and is neither blank nor a comment. */
  lemma PlainLineKept(key: string, value: string)
    requires IsPlainKey(key) && IsPlainValue(value)
    ensures var line := key + "=" + value; Trim(line, IsSpace) == line && !IsBlankOrComment(line)
  {
    var line := key + "=" + value;
    assert line[0] == if key == [] then '=' else key[0];
    assert line[|line| - 1] == if value == [] then '=' else value[|value| - 1];
  }

  /** A plain key cannot make its line start with `export `, since `=` would have to be part of the prefix. */
  lemma PlainLineNotExported(key: string, value: string)
    requires !StartsWith(key, ExportPrefix)
    ensures var line := key + "=" + value; DropExport(line) == line
  {
    var line := key + "=" + value;
    assert line[|key|] == '=';
  }

  /** Formatting `KEY=VALUE` and parsing it back yields the same key and value; the value may itself contain `=`. */
  lemma {:induction false} ParsePlainAssignment(key: string, value: string)
    requires IsPlainKey(key) && IsPlainValue(value)
    ensures ParseLine(key + "=" + value) == Some(Assignment(key, value))
  {
    var line := key + "=" + value;
    PlainLineKept(key, value);
    PlainLineNotExported(key, value);
    assert line == key + ['='] + value;
    SplitAtFirstSeparator(key, '=', value);
    ParseLineParts(line, key, value);
    var k, v := Trim(key, IsSpace), CleanValue(value);
    assert k == key;
    assert v == value;
  }

  /** An `export ` line with a quoted value survives trimming and loses exactly its `export `. */
  lemma ExportedLineKept(key: string, quoted: string)
    requires quoted != [] && IsQuote(quoted[|quoted| - 1])
    ensures var line := ExportPrefix + key + "=" + quoted;
      Trim(line, IsSpace) == line && !IsBlankOrComment(line) && DropExport(line) == key + ['='] + quoted
  {
    var line := ExportPrefix + key + "=" + quoted;
    assert line == ExportPrefix + (key + ['='] + quoted);
    assert line[0] == 'e';
    assert line[|line| - 1] == quoted[|quoted| - 1];
    assert line[..|ExportPrefix|] == ExportPrefix;
  }

  /**
   * An `export`ed line whose value is wrapped in runs of quote characters
   * parses to the bare value: every leading and trailing quote is removed, so
   * the quotes need not match (`'"x"'` and `'x"` both give `x`), while
   * whitespace inside the quotes is kept.
   */
  lemma {:induction false} ParseExportedQuotedAssignment(key: string, open: string, value: string, close: string)
    requires '=' !in key && (key == [] || (!IsSpace(key[0]) && !IsSpace(key[|key| - 1])))
    requires open != [] && close != [] && AllQuotes(open) && AllQuotes(close)
    requires value == [] || (!IsQuote(value[0]) && !IsQuote(value[|value| - 1]))
    ensures ParseLine(ExportPrefix + key + "=" + (open + value + close)) == Some(Assignment(key, value))
  {
    var quoted := open + value + close;
    var line := ExportPrefix + key + "=" + quoted;
    assert quoted[|quoted| - 1] == close[|close| - 1];
    ExportedLineKept(key, quoted);
    SplitAtFirstSeparator(key, '=', quoted);
    ParseLineParts(line, key, quoted);
    QuotesStripped(open, value, close);
    var k := Trim(key, IsSpace);
    assert k == key;
  }

  /** Whitespace is trimmed first and quotes second, so a value wrapped in quote runs comes out bare. */
  lemma QuotesStripped(open: string, value: string, close: string)
    requires open != [] && close != [] && AllQuotes(open) && AllQuotes(close)
    requires value == [] || (!IsQuote(value[0]) && !IsQuote(value[|value| - 1]))
    ensures CleanValue(open + value + close) == value
  {
    var quoted := open + value + close;
    assert quoted[0] == open[0];
    assert quoted[|quoted| - 1] == close[|close| - 1];
    assert Trim(quoted, IsSpace) == quoted;
    TrimBetween(open, value, close, IsQuote);
  }


  /** Every line of a dotenv file, parsed; `None` for the lines that are skipped. */
  function ParseLines(lines: seq<string>): (r: seq<Option<Assignment>>)
    ensures |r| == |lines|
  {
    if lines == [] then [] else [ParseLine(lines[0])] + ParseLines(lines[1..])
  }

  /** Entry `i` of the parsed file is line `i`, parsed. */
  lemma {:induction false} ParseLinesAt(lines: seq<string>, i: nat)
    requires i < |lines|
    ensures ParseLines(lines)[i] == ParseLine(lines[i])
  {
    if i > 0 {
      ParseLinesAt(lines[1..], i - 1);
    }
  }

  /** Whether a parsed line assigns `key`. */
  predicate Assigns(entry: Option<Assignment>, key: string) {
    entry.Some? && entry.value.key == key
  }

  /** The environment after parsed dotenv entries are applied in order: each overwrites the entry of the same key. */
  function ApplyEntries(env: map<string, string>, entries: seq<Option<Assignment>>): map<string, string>
    decreases |entries|
  {
    if entries == [] then env
    else
      var before := ApplyEntries(env, entries[..|entries| - 1]);
      match entries[|entries| - 1]
      case None => before
      case Some(a) => before[a.key := a.value]
  }

  /** The process environment with the lines of a dotenv file laid over it. */
  function Overlay(env: map<string, string>, lines: seq<string>): map<string, string> {
    ApplyEntries(env, ParseLines(lines))
  }

  /** The keys after overlaying: those of the process environment and those some entry assigns. */
  lemma {:induction false} OverlayKeys(env: map<string, string>, entries: seq<Option<Assignment>>, key: string)
    ensures key in ApplyEntries(env, entries) <==> key in env || exists i :: 0 <= i < |entries| && Assigns(entries[i], key)
    decreases |entries|
  {
    if entries != [] {
      var init := entries[..|entries| - 1];
      OverlayKeys(env, init, key);
      assert forall i :: 0 <= i < |init| ==> init[i] == entries[i];
    }
  }

  /** The last entry that assigns a key decides its value, whatever the process environment held. */
  lemma {:induction false} LastAssignmentWins(env: map<string, string>, entries: seq<Option<Assignment>>, i: nat)
    requires i < |entries| && entries[i].Some?
    requires forall j :: i < j < |entries| ==> !Assigns(entries[j], entries[i].value.key)
    ensures entries[i].value.key in ApplyEntries(env, entries)
    ensures ApplyEntries(env, entries)[entries[i].value.key] == entries[i].value.value
    decreases |entries|
  {
    var init := entries[..|entries| - 1];
    if i < |entries| - 1 {
      assert init[i] == entries[i];
      forall j | i < j < |init| ensures !Assigns(init[j], init[i].value.key) {
        assert init[j] == entries[j];
      }
      LastAssignmentWins(env, init, i);
    }
  }

  /** A process-environment entry that no dotenv entry assigns is kept as it is. */
  lemma {:induction false} UnassignedKept(env: map<string, string>, entries: seq<Option<Assignment>>, key: string)
    requires forall j :: 0 <= j < |entries| ==> !Assigns(entries[j], key)
    ensures key in ApplyEntries(env, entries) <==> key in env
    ensures key in env ==> ApplyEntries(env, entries)[key] == env[key]
    decreases |entries|
  {
    if entries != [] {
      var init := entries[..|entries| - 1];
      forall j | 0 <= j < |init| ensures !Assigns(init[j], key) {
        assert init[j] == entries[j];
      }
      UnassignedKept(env, init, key);
    }
  }

  /**
   * `folded` is `env` with every key lower-cased: its keys are exactly the
   * lower-cased keys of `env`, and each value is the value of some key of
   * `env` that lower-cases to it.
   */
  ghost predicate FoldsKeys(env: map<string, string>, folded: map<string, string>) {
    && (forall k :: k in env ==> Lower(k) in folded)
    && (forall fk :: fk in folded ==> exists k :: k in env && Lower(k) == fk && folded[fk] == env[k])
  }

  /** `order` lists exactly the keys of `env`, as the order a dictionary iterates them in. */
  ghost predicate Enumerates(order: seq<string>, env: map<string, string>) {
    forall k :: k in order <==> k in env
  }

  /**
   * The iteration order of a dictionary that iterated as `order`, after the
   * entries are assigned into it: a new key goes last, a key assigned again
   * keeps its place.
   */
  function KeyOrder(order: seq<string>, entries: seq<Option<Assignment>>): seq<string>
    decreases |entries|
  {
    if entries == [] then order
    else
      var before := KeyOrder(order, entries[..|entries| - 1]);
      var entry := entries[|entries| - 1];
      if entry.Some? && entry.value.key !in before then before + [entry.value.key] else before
  }

  /**
   * After the entries are applied the order lists exactly the keys of the
   * map; it starts with the old order, and only keys the old map lacked
   * follow it.
   */
  lemma {:induction false} KeyOrderSpec(env: map<string, string>, order: seq<string>, entries: seq<Option<Assignment>>)
    requires Enumerates(order, env)
    ensures Enumerates(KeyOrder(order, entries), ApplyEntries(env, entries))
    ensures |order| <= |KeyOrder(order, entries)| && KeyOrder(order, entries)[..|order|] == order
    ensures forall i :: |order| <= i < |KeyOrder(order, entries)| ==> KeyOrder(order, entries)[i] !in env
    decreases |entries|
  {
    if entries != [] {
      var init := entries[..|entries| - 1];
      KeyOrderSpec(env, order, init);
      var before := KeyOrder(order, init);
      var ko := KeyOrder(order, entries);
      if ko != before {
        var key := entries[|entries| - 1].value.key;
        assert ko == before + [key];
        assert ko[..|order|] == before[..|order|];
      }
    }
  }

  /**
   * The dictionary comprehension `{k.lower(): v for k, v in env.items()}`
   * visiting the keys in `order`: a later key overwrites an earlier one that
   * lower-cases to the same name.
   */
  function FoldInOrder(env: map<string, string>, order: seq<string>): map<string, string>
    requires forall k :: k in order ==> k in env
  {
    if order == [] then map[]
    else
      var k := order[|order| - 1];
      assert forall k' :: k' in order[..|order| - 1] ==> k' in order;
      FoldInOrder(env, order[..|order| - 1])[Lower(k) := env[k]]
  }

  /** The folded names are exactly the lower-cased keys visited. */
  lemma {:induction false} FoldInOrderKeys(env: map<string, string>, order: seq<string>, fk: string)
    requires forall k :: k in order ==> k in env
    ensures fk in FoldInOrder(env, order) <==> exists i :: 0 <= i < |order| && Lower(order[i]) == fk
  {
    if order != [] {
      var init := order[..|order| - 1];
      assert forall k :: k in init ==> k in order;
      FoldInOrderKeys(env, init, fk);
      assert forall i :: 0 <= i < |init| ==> init[i] == order[i];
    }
  }

  /** The last key in the order that lower-cases to a name decides that name's value. */
  lemma {:induction false} FoldInOrderLast(env: map<string, string>, order: seq<string>, i: nat)
    requires forall k :: k in order ==> k in env
    requires i < |order|
    requires forall j :: i < j < |order| ==> Lower(order[j]) != Lower(order[i])
    ensures Lower(order[i]) in FoldInOrder(env, order)
    ensures FoldInOrder(env, order)[Lower(order[i])] == env[order[i]]
  {
    if i < |order| - 1 {
      var init := order[..|order| - 1];
      assert forall k :: k in init ==> k in order;
      assert init[i] == order[i];
      forall j | i < j < |init|
        ensures Lower(init[j]) != Lower(init[i])
      {
        assert init[j] == order[j];
      }
      FoldInOrderLast(env, init, i);
    }
  }

  /** Among the positions from `i` on whose key lower-cases to `fk`, the last. */
  lemma {:induction false} LastFolding(order: seq<string>, fk: string, i: nat) returns (j: nat)
    requires i < |order| && Lower(order[i]) == fk
    ensures i <= j < |order| && Lower(order[j]) == fk
    ensures forall m :: j < m < |order| ==> Lower(order[m]) != fk
    decreases |order| - i
  {
    if m :| i < m < |order| && Lower(order[m]) == fk {
      j := LastFolding(order, fk, m);
    } else {
      j := i;
    }
  }

  /** Visiting every key of `env` folds its keys. */
  lemma FoldInOrderFolds(env: map<string, string>, order: seq<string>)
    requires Enumerates(order, env)
    ensures FoldsKeys(env, FoldInOrder(env, order))
  {
    var folded := FoldInOrder(env, order);
    forall k | k in env
      ensures Lower(k) in folded
    {
      var i :| 0 <= i < |order| && order[i] == k;
      FoldInOrderKeys(env, order, Lower(k));
    }
    forall fk | fk in folded
      ensures exists k :: k in env && Lower(k) == fk && folded[fk] == env[k]
    {
      FoldInOrderKeys(env, order, fk);
      var i :| 0 <= i < |order| && Lower(order[i]) == fk;
      var j := LastFolding(order, fk, i);
      FoldInOrderLast(env, order, j);
      assert order[j] in env;
    }
  }

  /** The dotenv lines that are read: none unless a non-empty file name is configured and the file exists. */
  function DotenvLines(envFile: Option<string>, fileLines: Option<seq<string>>): seq<string> {
    if envFile.Some? && envFile.value != "" && fileLines.Some? then fileLines.value else []
  }

  /**
   * The map `BuildEnvMap` returns: the process environment overlaid with the
   * dotenv entries; unless case-sensitive, its keys lower-cased in the
   * dictionary's iteration order (the process keys in `processOrder`, then
   * the keys the dotenv file adds, in the order they first appear).
   */
  function EnvMap(processEnv: map<string, string>, processOrder: seq<string>, envFile: Option<string>,
                  fileLines: Option<seq<string>>, caseSensitive: bool): map<string, string>
    requires Enumerates(processOrder, processEnv)
  {
    var entries := ParseLines(DotenvLines(envFile, fileLines));
    var overlaid := ApplyEntries(processEnv, entries);
    if caseSensitive then overlaid
    else
      KeyOrderSpec(processEnv, processOrder, entries);
      FoldInOrder(overlaid, KeyOrder(processOrder, entries))
  }

  /** The lower-cased copy of `env`, visiting its keys in `order`. */
  method LowerKeys(env: map<string, string>, order: seq<string>) returns (folded: map<string, string>)
    requires forall k :: k in order ==> k in env
    ensures folded == FoldInOrder(env, order)
  {
    folded := map[];
    for i := 0 to |order|
      invariant forall k :: k in order[..i] ==> k in order
      invariant folded == FoldInOrder(env, order[..i])
    {
      assert order[..i + 1][..i] == order[..i];
      assert forall k :: k in order[..i + 1] ==> k in order;
      folded := folded[Lower(order[i]) := env[order[i]]];
    }
    assert order[..|order|] == order;
  }

  /** The first `i + 1` lines parse to the first `i` lines' entries followed by line `i`'s. */
  lemma PrefixParsed(lines: seq<string>, i: nat)
    requires i < |lines|
    ensures ParseLines(lines[..i + 1]) == ParseLines(lines[..i]) + [ParseLine(lines[i])]
  {
    var prefix := lines[..i + 1];
    assert prefix[..i] == lines[..i];
    ParseLinesSnoc(prefix[..i], lines[i]);
    assert prefix == prefix[..i] + [lines[i]];
  }

  /** The lines up to `i + 1` are the lines up to `i` followed by line `i`. */
  lemma OverlayStep(env: map<string, string>, lines: seq<string>, i: nat)
    requires i < |lines|
    ensures Overlay(env, lines[..i + 1]) == ApplyEntries(Overlay(env, lines[..i]), [ParseLine(lines[i])])
  {
    PrefixParsed(lines, i);
    var entries := ParseLines(lines[..i]);
    assert (entries + [ParseLine(lines[i])])[..|entries|] == entries;
    assert [ParseLine(lines[i])][..0] == [];
  }

  /** Line `i` adds its key to the iteration order when the key is new. */
  lemma KeyOrderStep(order: seq<string>, lines: seq<string>, i: nat)
    requires i < |lines|
    ensures var before := KeyOrder(order, ParseLines(lines[..i]));
      var entry := ParseLine(lines[i]);
      KeyOrder(order, ParseLines(lines[..i + 1]))
        == if entry.Some? && entry.value.key !in before then before + [entry.value.key] else before
  {
    PrefixParsed(lines, i);
    var entries := ParseLines(lines[..i]);
    assert (entries + [ParseLine(lines[i])])[..|entries|] == entries;
  }

  /** Parsing one more line appends its entry. */
  lemma {:induction false} ParseLinesSnoc(lines: seq<string>, line: string)
    ensures ParseLines(lines + [line]) == ParseLines(lines) + [ParseLine(line)]
  {
    if lines != [] {
      assert (lines + [line])[1..] == lines[1..] + [line];
      ParseLinesSnoc(lines[1..], line);
    }
  }

  /**
   * Reads the dotenv lines in order, writing each parsed entry over the map
   * (the body of the `for raw in f` loop); `order` follows the dictionary's
   * iteration order, to which a new key is appended.
   */
  method ApplyDotenv(processEnv: map<string, string>, processOrder: seq<string>, lines: seq<string>)
    returns (env: map<string, string>, order: seq<string>)
    requires Enumerates(processOrder, processEnv)
    ensures env == Overlay(processEnv, lines)
    ensures order == KeyOrder(processOrder, ParseLines(lines))
  {
    env, order := processEnv, processOrder;
    for i := 0 to |lines|
      invariant env == Overlay(processEnv, lines[..i])
      invariant order == KeyOrder(processOrder, ParseLines(lines[..i]))
      invariant Enumerates(order, env)
    {
      OverlayStep(processEnv, lines, i);
      KeyOrderStep(processOrder, lines, i);
      var entry := ParseLine(lines[i]);
      if entry.Some? {
        if entry.value.key !in env {
          order := order + [entry.value.key];
        }
        env := env[entry.value.key := entry.value.value];
      }
    }
    assert lines[..|lines|] == lines;
  }

  /**
   * Builds the interpolation map: the process environment, overwritten by the
   * entries of the dotenv file when one is configured and exists, with keys
   * lower-cased unless `caseSensitive`. The file's lines and the process
   * environment's iteration order are inputs.
   */
  method BuildEnvMap(processEnv: map<string, string>, processOrder: seq<string>, envFile: Option<string>,
                     fileLines: Option<seq<string>>, caseSensitive: bool) returns (envMap: map<string, string>)
    requires Enumerates(processOrder, processEnv)
    ensures envMap == EnvMap(processEnv, processOrder, envFile, fileLines, caseSensitive)
  {
    var env, order := processEnv, processOrder;
    if envFile.Some? && envFile.value != "" && fileLines.Some? {
      env, order := ApplyDotenv(processEnv, processOrder, fileLines.value);
    }
    KeyOrderSpec(processEnv, processOrder, ParseLines(DotenvLines(envFile, fileLines)));
    if caseSensitive {
      envMap := env;
    } else {
      envMap := LowerKeys(env, order);
    }
  }

  /**
   * The environment map is the overlaid environment when case-sensitive;
   * otherwise it folds the overlaid environment's keys.
   */
  lemma EnvMapFolds(processEnv: map<string, string>, processOrder: seq<string>, envFile: Option<string>,
                    fileLines: Option<seq<string>>, caseSensitive: bool)
    requires Enumerates(processOrder, processEnv)
    ensures var overlaid := Overlay(processEnv, DotenvLines(envFile, fileLines));
      var envMap := EnvMap(processEnv, processOrder, envFile, fileLines, caseSensitive);
      if caseSensitive then envMap == overlaid else FoldsKeys(overlaid, envMap)
  {
    var entries := ParseLines(DotenvLines(envFile, fileLines));
    KeyOrderSpec(processEnv, processOrder, entries);
    if !caseSensitive {
      FoldInOrderFolds(ApplyEntries(processEnv, entries), KeyOrder(processOrder, entries));
    }
  }

  /**
   * A key the dotenv file adds beats every process key that lower-cases to
   * the same name: the folded value comes from a key the dotenv file added.
   */
  lemma DotenvKeyWins(processEnv: map<string, string>, processOrder: seq<string>, envFile: Option<string>,
                      fileLines: Option<seq<string>>, k: string)
    requires Enumerates(processOrder, processEnv)
    requires k in Overlay(processEnv, DotenvLines(envFile, fileLines)) && k !in processEnv
    ensures var overlaid := Overlay(processEnv, DotenvLines(envFile, fileLines));
      var envMap := EnvMap(processEnv, processOrder, envFile, fileLines, false);
      Lower(k) in envMap &&
      exists added :: added in overlaid && added !in processEnv && Lower(added) == Lower(k) && envMap[Lower(k)] == overlaid[added]
  {
    var entries := ParseLines(DotenvLines(envFile, fileLines));
    var overlaid := ApplyEntries(processEnv, entries);
    KeyOrderSpec(processEnv, processOrder, entries);
    var order := KeyOrder(processOrder, entries);
    var i :| 0 <= i < |order| && order[i] == k;
    var j := LastFolding(order, Lower(k), i);
    FoldInOrderLast(overlaid, order, j);
    assert order[j] in overlaid && order[j] !in processEnv;
  }

  /** After case folding every key is lower-case. */
  lemma FoldedKeysAreLower(env: map<string, string>, folded: map<string, string>, fk: string)
    requires FoldsKeys(env, folded) && fk in folded
    ensures IsLower(fk) && Lower(fk) == fk
  {
    var k :| k in env && Lower(k) == fk && folded[fk] == env[k];
    LowerIsLower(k);
  }

  /** A key that no other key folds onto keeps its value under its lower-cased name. */
  lemma FoldedUnique(env: map<string, string>, folded: map<string, string>, k: string)
    requires FoldsKeys(env, folded) && k in env
    requires forall k' :: k' in env && Lower(k') == Lower(k) ==> k' == k
    ensures Lower(k) in folded && folded[Lower(k)] == env[k]
  {
  }
}
