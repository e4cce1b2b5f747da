/**
 * `${NAME}` interpolation of YAML strings from the environment map, and the
 * recursive walk that applies it to every string in a parsed document.
 */
module Interpolation {
  import opened Wrappers
  import opened Text
  import opened RawValues

  // ---------------------------------------------------------------------
  // Tokens: `${` NAME `}` with NAME matching [A-Za-z_][A-Za-z0-9_]*
  // ---------------------------------------------------------------------

  predicate IsNameStart(c: char) {
    'A' <= c <= 'Z' || 'a' <= c <= 'z' || c == '_'
  }

  predicate IsNameChar(c: char) {
    IsNameStart(c) || '0' <= c <= '9'
  }

  predicate IsName(name: string) {
    name != [] && IsNameStart(name[0]) && forall i :: 1 <= i < |name| ==> IsNameChar(name[i])
  }

  /** The text of the token that refers to `name`. */
  function Token(name: string): string {
    "${" + name + "}"
  }

  /** The length of the longest prefix of `s` made of name characters. */
  function NameRun(s: string): nat {
    if s != [] && IsNameChar(s[0]) then 1 + NameRun(s[1..]) else 0
  }

  lemma {:induction false} NameRunSpec(s: string)
    ensures NameRun(s) <= |s|
    ensures forall i :: 0 <= i < NameRun(s) ==> IsNameChar(s[i])
    ensures NameRun(s) == |s| || !IsNameChar(s[NameRun(s)])
  {
    if s != [] && IsNameChar(s[0]) {
      NameRunSpec(s[1..]);
      forall i | 0 <= i < NameRun(s)
        ensures IsNameChar(s[i])
      {
        if i > 0 {
          assert s[i] == s[1..][i - 1];
        }
      }
    }
  }

  /** The name of the token that `s` starts with, if it starts with one. */
  function TokenAt(s: string): (r: Option<string>)
    ensures r.Some? ==> IsName(r.value) && |Token(r.value)| <= |s| && s[..|Token(r.value)|] == Token(r.value)
  {
    if 3 <= |s| && s[0] == '$' && s[1] == '{' && IsNameStart(s[2]) then
      NameRunSpec(s[2..]);
      var n := NameRun(s[2..]);
      if 2 + n < |s| && s[2 + n] == '}' then Some(s[2..2 + n]) else None
    else
      None
  }

  /** Every occurrence of a well-formed token at the start of `s` is recognised, with its whole name. */
  lemma TokenAtComplete(s: string, name: string)
    requires IsName(name) && StartsWith(s, Token(name))
    ensures TokenAt(s) == Some(name)
  {
    var t := s[2..];
    assert s[..|Token(name)|] == Token(name);
    assert s[0] == '$' && s[1] == '{';
    assert forall i :: 0 <= i < |name| ==> t[i] == name[i];
    assert t[|name|] == '}';
    NameRunSpec(t);
    var n := NameRun(t);
    if n < |name| {
      assert IsNameChar(t[n]);
    }
    assert s[2..2 + n] == name;
  }

  /** No position inside a token (after its `$`) starts another token. */
  lemma InsideTokenNoToken(s: string, name: string, i: nat)
    requires TokenAt(s) == Some(name)
    requires 1 <= i < |Token(name)|
    ensures TokenAt(s[i..]).None?
  {
    assert s[i] == Token(name)[i];
    if 2 <= i < |name| + 2 {
      assert Token(name)[i] == name[i - 2];
    }
  }

  /** The map key a token's name is looked up under. */
  function KeyOf(name: string, caseSensitive: bool): string {
    if caseSensitive then name else Lower(name)
  }

  // ---------------------------------------------------------------------
  // Expansion of one string
  // ---------------------------------------------------------------------

  /**
   * `_expand_env_in_str`: a single left-to-right pass that replaces each token
   * by the map's value for its key; replaced text is not scanned again. The
   * first token whose key is missing fails the whole expansion.
   */
  function ExpandStr(s: string, env: map<string, string>, caseSensitive: bool): (r: Result<string, LoadError>)
    ensures r.Failure? ==> r.error.MissingVariable? && IsName(r.error.name) && KeyOf(r.error.name, caseSensitive) !in env
    decreases |s|
  {
    if s == [] then Success([])
    else
      var token := TokenAt(s);
      if token.Some? then
        var key := KeyOf(token.value, caseSensitive);
        if key !in env then Failure(MissingVariable(token.value))
        else
          var rest :- ExpandStr(s[|Token(token.value)|..], env, caseSensitive);
          Success(env[key] + rest)
      else
        var rest :- ExpandStr(s[1..], env, caseSensitive);
        Success([s[0]] + rest)
  }

  /** `p` followed by the expansion `r`, or `r`'s failure. */
  function Prepend(p: string, r: Result<string, LoadError>): Result<string, LoadError> {
    if r.Success? then Success(p + r.value) else r
  }

  /** One step of the scan over a character that does not begin a token. */
  lemma LiteralStep(s: string, env: map<string, string>, caseSensitive: bool)
    requires s != [] && TokenAt(s).None?
    ensures ExpandStr(s, env, caseSensitive) == Prepend([s[0]], ExpandStr(s[1..], env, caseSensitive))
  {
  }

  lemma PrependTwice(c: char, p: string, r: Result<string, LoadError>)
    ensures Prepend([c], Prepend(p, r)) == Prepend([c] + p, r)
  {
    if r.Success? {
      assert [c] + (p + r.value) == ([c] + p) + r.value;
    }
  }

  /** A token begins at position `i` of `s`. */
  predicate TokenStartsAt(s: string, i: int) {
    0 <= i < |s| && TokenAt(s[i..]).Some?
  }

  /** A token begins at position `i` of `s` and its key is not in the map. */
  predicate MissingAt(s: string, i: int, env: map<string, string>, caseSensitive: bool) {
    TokenStartsAt(s, i) && KeyOf(TokenAt(s[i..]).value, caseSensitive) !in env
  }

  /** Text in which no token begins is copied verbatim ahead of the expansion of what follows it. */
  lemma {:induction false} LiteralCopied(p: string, t: string, env: map<string, string>, caseSensitive: bool)
    requires forall i :: 0 <= i < |p| ==> !TokenStartsAt(p + t, i)
    ensures ExpandStr(p + t, env, caseSensitive) == Prepend(p, ExpandStr(t, env, caseSensitive))
  {
    if p != [] {
      var s := p + t;
      assert !TokenStartsAt(s, 0);
      assert s[0..] == s;
      forall i | 0 <= i < |p[1..]|
        ensures !TokenStartsAt(p[1..] + t, i)
      {
        assert !TokenStartsAt(s, i + 1);
        assert (p[1..] + t)[i..] == s[i + 1..];
      }
      assert s[1..] == p[1..] + t;
      LiteralStep(s, env, caseSensitive);
      LiteralCopied(p[1..], t, env, caseSensitive);
      PrependTwice(p[0], p[1..], ExpandStr(t, env, caseSensitive));
      assert [p[0]] + p[1..] == p;
    } else {
      assert p + t == t;
      var r := ExpandStr(t, env, caseSensitive);
      if r.Success? {
        assert p + r.value == r.value;
      }
    }
  }

  /** A string in which no token begins is returned unchanged. */
  lemma NoTokenUnchanged(s: string, env: map<string, string>, caseSensitive: bool)
    requires forall i :: 0 <= i < |s| ==> !TokenStartsAt(s, i)
    ensures ExpandStr(s, env, caseSensitive) == Success(s)
  {
    assert s + [] == s;
    LiteralCopied(s, [], env, caseSensitive);
  }

  /**
   * A token is replaced by its value exactly as stored: the value is not
   * scanned for tokens again, and expansion continues after the token.
   */
  lemma TokenReplaced(name: string, rest: string, env: map<string, string>, caseSensitive: bool)
    requires IsName(name) && KeyOf(name, caseSensitive) in env
    ensures ExpandStr(Token(name) + rest, env, caseSensitive)
         == Prepend(env[KeyOf(name, caseSensitive)], ExpandStr(rest, env, caseSensitive))
  {
    var s := Token(name) + rest;
    TokenAtComplete(s, name);
    assert s[|Token(name)|..] == rest;
  }

  /** A token whose key is missing fails the expansion with an error naming the variable as written. */
  lemma TokenMissing(name: string, rest: string, env: map<string, string>, caseSensitive: bool)
    requires IsName(name) && KeyOf(name, caseSensitive) !in env
    ensures ExpandStr(Token(name) + rest, env, caseSensitive) == Failure(MissingVariable(name))
  {
    TokenAtComplete(Token(name) + rest, name);
  }

  /** Expansion fails exactly when some token of the string has a key missing from the map. */
  lemma {:induction false} ExpandFailsIffMissing(s: string, env: map<string, string>, caseSensitive: bool)
    ensures ExpandStr(s, env, caseSensitive).Failure? <==> exists i :: MissingAt(s, i, env, caseSensitive)
    decreases |s|
  {
    if s == [] {
      return;
    }
    assert s[0..] == s;
    var token := TokenAt(s);
    var m := if token.Some? then |Token(token.value)| else 1;
    if token.Some? && KeyOf(token.value, caseSensitive) !in env {
      assert MissingAt(s, 0, env, caseSensitive);
      return;
    }
    var t := s[m..];
    ExpandFailsIffMissing(t, env, caseSensitive);
    assert ExpandStr(s, env, caseSensitive).Failure? <==> ExpandStr(t, env, caseSensitive).Failure?;
    forall i | 0 <= i < m
      ensures !MissingAt(s, i, env, caseSensitive)
    {
      if 1 <= i {
        InsideTokenNoToken(s, token.value, i);
      }
    }
    forall j | 0 <= j < |t|
      ensures MissingAt(t, j, env, caseSensitive) <==> MissingAt(s, j + m, env, caseSensitive)
    {
      assert t[j..] == s[j + m..];
    }
    if exists i :: MissingAt(s, i, env, caseSensitive) {
      var i :| MissingAt(s, i, env, caseSensitive);
      assert MissingAt(t, i - m, env, caseSensitive);
    }
    if exists j :: MissingAt(t, j, env, caseSensitive) {
      var j :| MissingAt(t, j, env, caseSensitive);
      assert MissingAt(s, j + m, env, caseSensitive);
    }
  }

  // ---------------------------------------------------------------------
  // Expansion of a whole document
  // ---------------------------------------------------------------------

  /**
   * `_expand_env_in_data`: mappings are rebuilt with the same keys in the same
   * order (keys are not interpolated), sequences item by item, strings are
   * expanded, and every other scalar is returned as it is. Work proceeds left
   * to right and the first failure is the result.
   */
  function ExpandValue(v: RawValue, env: map<string, string>, caseSensitive: bool): Result<RawValue, LoadError>
    decreases v
  {
    match v
    case Mapping(fs) =>
      var fs' :- ExpandFields(fs, env, caseSensitive);
      Success(Mapping(fs'))
    case Sequence(xs) =>
      var xs' :- ExpandItems(xs, env, caseSensitive);
      Success(Sequence(xs'))
    case Str(s) =>
      var s' :- ExpandStr(s, env, caseSensitive);
      Success(Str(s'))
    case _ => Success(v)
  }

  function ExpandFields(fs: seq<Field>, env: map<string, string>, caseSensitive: bool): Result<seq<Field>, LoadError>
    decreases fs
  {
    if fs == [] then Success([])
    else
      var v :- ExpandValue(fs[0].value, env, caseSensitive);
      var rest :- ExpandFields(fs[1..], env, caseSensitive);
      Success([Field(fs[0].key, v)] + rest)
  }

  function ExpandItems(xs: seq<RawValue>, env: map<string, string>, caseSensitive: bool): Result<seq<RawValue>, LoadError>
    decreases xs
  {
    if xs == [] then Success([])
    else
      var v :- ExpandValue(xs[0], env, caseSensitive);
      var rest :- ExpandItems(xs[1..], env, caseSensitive);
      Success([v] + rest)
  }

  /** The document with every string blanked: its keys, lengths, order and non-string scalars. */
  function Skeleton(v: RawValue): RawValue
    decreases v
  {
    match v
    case Mapping(fs) => Mapping(FieldsSkeleton(fs))
    case Sequence(xs) => Sequence(ItemsSkeleton(xs))
    case Str(_) => Str("")
    case _ => v
  }

  function FieldsSkeleton(fs: seq<Field>): seq<Field>
    decreases fs
  {
    if fs == [] then [] else [Field(fs[0].key, Skeleton(fs[0].value))] + FieldsSkeleton(fs[1..])
  }

  function ItemsSkeleton(xs: seq<RawValue>): seq<RawValue>
    decreases xs
  {
    if xs == [] then [] else [Skeleton(xs[0])] + ItemsSkeleton(xs[1..])
  }

  /** The string values of the document, in document order (mapping keys are not among them). */
  function Leaves(v: RawValue): seq<string>
    decreases v
  {
    match v
    case Mapping(fs) => FieldsLeaves(fs)
    case Sequence(xs) => ItemsLeaves(xs)
    case Str(s) => [s]
    case _ => []
  }

  function FieldsLeaves(fs: seq<Field>): seq<string>
    decreases fs
  {
    if fs == [] then [] else Leaves(fs[0].value) + FieldsLeaves(fs[1..])
  }

  function ItemsLeaves(xs: seq<RawValue>): seq<string>
    decreases xs
  {
    if xs == [] then [] else Leaves(xs[0]) + ItemsLeaves(xs[1..])
  }

  /** Reference semantics: expand a list of strings one after another, stopping at the first failure. */
  function ExpandAll(ls: seq<string>, env: map<string, string>, caseSensitive: bool): Result<seq<string>, LoadError>
  {
    if ls == [] then Success([])
    else
      var s :- ExpandStr(ls[0], env, caseSensitive);
      var rest :- ExpandAll(ls[1..], env, caseSensitive);
      Success([s] + rest)
  }

  /** Two results in sequence: the first failure wins, otherwise the values are joined. */
  function Then<T>(a: Result<seq<T>, LoadError>, b: Result<seq<T>, LoadError>): Result<seq<T>, LoadError> {
    if a.Failure? then a else if b.Failure? then b else Success(a.value + b.value)
  }

  lemma {:induction false} ExpandAllAppend(a: seq<string>, b: seq<string>, env: map<string, string>, caseSensitive: bool)
    ensures ExpandAll(a + b, env, caseSensitive) == Then(ExpandAll(a, env, caseSensitive), ExpandAll(b, env, caseSensitive))
    decreases |a|
  {
    if a == [] {
      assert a + b == b;
      var r := ExpandAll(b, env, caseSensitive);
      if r.Success? {
        assert [] + r.value == r.value;
      }
    } else {
      assert (a + b)[0] == a[0];
      assert (a + b)[1..] == a[1..] + b;
      ExpandAllAppend(a[1..], b, env, caseSensitive);
      var x, ra, rb := ExpandStr(a[0], env, caseSensitive), ExpandAll(a[1..], env, caseSensitive), ExpandAll(b, env, caseSensitive);
      if x.Success? && ra.Success? && rb.Success? {
        assert [x.value] + (ra.value + rb.value) == ([x.value] + ra.value) + rb.value;
      }
    }
  }

  /**
   * Expanding a document is expanding its strings in document order: it
   * succeeds exactly when every string expands, the result has the same
   * skeleton (keys, lengths, order, non-string scalars), its strings are the
   * expanded strings, and a failure is that of the first failing string.
   */
  lemma {:induction false} ExpandValueLeaves(v: RawValue, env: map<string, string>, caseSensitive: bool)
    ensures ExpandValue(v, env, caseSensitive).Success? == ExpandAll(Leaves(v), env, caseSensitive).Success?
    ensures ExpandValue(v, env, caseSensitive).Failure? ==>
      ExpandValue(v, env, caseSensitive).error == ExpandAll(Leaves(v), env, caseSensitive).error
    ensures ExpandValue(v, env, caseSensitive).Success? ==>
      Skeleton(ExpandValue(v, env, caseSensitive).value) == Skeleton(v) &&
      Leaves(ExpandValue(v, env, caseSensitive).value) == ExpandAll(Leaves(v), env, caseSensitive).value
    decreases v
  {
    match v
    case Mapping(fs) => ExpandFieldsLeaves(fs, env, caseSensitive);
    case Sequence(xs) => ExpandItemsLeaves(xs, env, caseSensitive);
    case Str(s) =>
      assert Leaves(v) == [s] && [s][1..] == [];
    case _ =>
  }

  lemma {:induction false} ExpandFieldsLeaves(fs: seq<Field>, env: map<string, string>, caseSensitive: bool)
    ensures ExpandFields(fs, env, caseSensitive).Success? == ExpandAll(FieldsLeaves(fs), env, caseSensitive).Success?
    ensures ExpandFields(fs, env, caseSensitive).Failure? ==>
      ExpandFields(fs, env, caseSensitive).error == ExpandAll(FieldsLeaves(fs), env, caseSensitive).error
    ensures ExpandFields(fs, env, caseSensitive).Success? ==>
      FieldsSkeleton(ExpandFields(fs, env, caseSensitive).value) == FieldsSkeleton(fs) &&
      FieldsLeaves(ExpandFields(fs, env, caseSensitive).value) == ExpandAll(FieldsLeaves(fs), env, caseSensitive).value
    decreases fs
  {
    if fs != [] {
      ExpandValueLeaves(fs[0].value, env, caseSensitive);
      ExpandFieldsLeaves(fs[1..], env, caseSensitive);
      ExpandAllAppend(Leaves(fs[0].value), FieldsLeaves(fs[1..]), env, caseSensitive);
      var r := ExpandFields(fs, env, caseSensitive);
      if r.Success? {
        var w := ExpandValue(fs[0].value, env, caseSensitive).value;
        var rest := ExpandFields(fs[1..], env, caseSensitive).value;
        assert r.value == [Field(fs[0].key, w)] + rest;
        assert r.value[0] == Field(fs[0].key, w) && r.value[1..] == rest;
      }
    }
  }

  lemma {:induction false} ExpandItemsLeaves(xs: seq<RawValue>, env: map<string, string>, caseSensitive: bool)
    ensures ExpandItems(xs, env, caseSensitive).Success? == ExpandAll(ItemsLeaves(xs), env, caseSensitive).Success?
    ensures ExpandItems(xs, env, caseSensitive).Failure? ==>
      ExpandItems(xs, env, caseSensitive).error == ExpandAll(ItemsLeaves(xs), env, caseSensitive).error
    ensures ExpandItems(xs, env, caseSensitive).Success? ==>
      ItemsSkeleton(ExpandItems(xs, env, caseSensitive).value) == ItemsSkeleton(xs) &&
      ItemsLeaves(ExpandItems(xs, env, caseSensitive).value) == ExpandAll(ItemsLeaves(xs), env, caseSensitive).value
    decreases xs
  {
    if xs != [] {
      ExpandValueLeaves(xs[0], env, caseSensitive);
      ExpandItemsLeaves(xs[1..], env, caseSensitive);
      ExpandAllAppend(Leaves(xs[0]), ItemsLeaves(xs[1..]), env, caseSensitive);
      var r := ExpandItems(xs, env, caseSensitive);
      if r.Success? {
        var w := ExpandValue(xs[0], env, caseSensitive).value;
        var rest := ExpandItems(xs[1..], env, caseSensitive).value;
        assert r.value == [w] + rest;
        assert r.value[0] == w && r.value[1..] == rest;
      }
    }
  }

  /**
   * Element-wise reading of the reference semantics: the list expands exactly
   * when every string does, and then each result is that string's expansion.
   */
  lemma {:induction false} ExpandAllPointwise(ls: seq<string>, env: map<string, string>, caseSensitive: bool)
    ensures ExpandAll(ls, env, caseSensitive).Success? <==>
      forall i :: 0 <= i < |ls| ==> ExpandStr(ls[i], env, caseSensitive).Success?
    ensures ExpandAll(ls, env, caseSensitive).Success? ==>
      |ExpandAll(ls, env, caseSensitive).value| == |ls| &&
      forall i :: 0 <= i < |ls| ==> ExpandAll(ls, env, caseSensitive).value[i] == ExpandStr(ls[i], env, caseSensitive).value
  {
    if ls != [] {
      ExpandAllPointwise(ls[1..], env, caseSensitive);
      assert forall i :: 1 <= i < |ls| ==> ls[1..][i - 1] == ls[i];
      var r := ExpandAll(ls, env, caseSensitive);
      if r.Success? {
        assert forall i :: 1 <= i < |ls| ==> r.value[i] == ExpandAll(ls[1..], env, caseSensitive).value[i - 1];
      }
    }
  }
}
