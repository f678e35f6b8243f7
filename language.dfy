/**
 * The language registry (`language.rs`): the languages of the editor's
 * configuration, the globs and interpreters that select them, and the
 * three lookups by file path, by shebang line and by injection name.
 *
 * The engines the registry leans on are parameters: `matches(glob, path)`
 * stands for globset, `findLen(regex, s)` for the length of the regex
 * crate's leftmost-first match, and `Engines` for the shipped query files,
 * the compiled-in grammars and tree-sitter's query compiler. The shebang
 * pattern is the one regex the registry owns, and it is written out here.
 */
module Languages {
  import opened Base

  // ---------------------------------------------------------------------
  // The shebang pattern `#!\s*(?:\S*[/\\](?:env\s+(?:\-\S+\s+)*)?)?([^\s\.\d]+)`
  // ---------------------------------------------------------------------

  /** `\s`, on ASCII. */
  predicate IsSpace(c: char)
  {
    c == ' ' || c == '\t' || c == '\n' || c == '\r' || c == '\U{000B}' || c == '\U{000C}'
  }

  predicate NotSpace(c: char)
  {
    !IsSpace(c)
  }

  /** `\d`, on ASCII. */
  predicate IsDigit(c: char)
  {
    '0' <= c <= '9'
  }

  /** `[^\s\.\d]`: what the interpreter's name is made of. */
  predicate Capturable(c: char)
  {
    !IsSpace(c) && c != '.' && !IsDigit(c)
  }

  /** `[/\\]`. */
  predicate IsSeparator(c: char)
  {
    c == '/' || c == '\\'
  }

  /** A capture that is a non-empty run of name characters, or no capture. */
  predicate Clean(r: Option<string>)
  {
    r.Some? ==> |r.value| > 0 && forall k :: 0 <= k < |r.value| ==> Capturable(r.value[k])
  }

  /** The length of the longest run of characters satisfying `p` from `i` on: what a greedy `*` takes. */
  function Run(s: string, i: nat, p: char -> bool): (n: nat)
    requires i <= |s|
    ensures i + n <= |s|
    ensures forall k :: i <= k < i + n ==> p(s[k])
    ensures i + n < |s| ==> !p(s[i + n])
    decreases |s| - i
  {
    if i < |s| && p(s[i]) then 1 + Run(s, i + 1, p) else 0
  }

  /** `([^\s\.\d]+)` at `q`: the longest run of name characters, which may not be empty. */
  function CaptureAt(s: string, q: nat): (r: Option<string>)
    requires q <= |s|
    ensures Clean(r)
    ensures r.Some? ==> q + |r.value| <= |s| && r.value == s[q..q + |r.value|]
    ensures r.Some? && q + |r.value| < |s| ==> !Capturable(s[q + |r.value|])
    ensures r.None? <==> q == |s| || !Capturable(s[q])
  {
    var n := Run(s, q, Capturable);
    if n > 0 then Some(s[q..q + n]) else None
  }

  /** `env\s+` at `q`: where the interpreter's options start. */
  function AfterEnv(s: string, q: nat): (r: Option<nat>)
    requires q <= |s|
    ensures r.Some? ==> q + 3 < r.value <= |s| && s[q..q + 3] == "env" && IsSpace(s[q + 3])
  {
    if q + 3 < |s| && s[q..q + 3] == "env" && IsSpace(s[q + 3]) then Some(q + 4 + Run(s, q + 4, IsSpace)) else None
  }

  /** `\-\S+\s+` at `q`: where the option and the spaces after it end. */
  function AfterOption(s: string, q: nat): (r: Option<nat>)
    requires q <= |s|
    ensures r.Some? ==> q + 2 < r.value <= |s| && s[q] == '-'
  {
    if q < |s| && s[q] == '-' then
      var t := q + 1 + Run(s, q + 1, NotSpace);
      if t > q + 1 && t < |s| then Some(t + Run(s, t, IsSpace)) else None
    else None
  }

  /**
   * `(?:\-\S+\s+)*` then the capture, from `q`: the star is greedy, so one
   * more option is tried first, and the capture right here only when that
   * fails.
   */
  function CaptureAfterOptions(s: string, q: nat): (r: Option<string>)
    requires q <= |s|
    ensures Clean(r)
    decreases |s| - q
  {
    var more := match AfterOption(s, q) case Some(e) => CaptureAfterOptions(s, e) case None => None;
    if more.Some? then more else CaptureAt(s, q)
  }

  /** `(?:env\s+(?:\-\S+\s+)*)?` then the capture, after a path separator: `env` is tried first. */
  function CaptureAfterSeparator(s: string, q: nat): (r: Option<string>)
    requires q <= |s|
    ensures Clean(r)
  {
    var viaEnv := match AfterEnv(s, q) case Some(e) => CaptureAfterOptions(s, e) case None => None;
    if viaEnv.Some? then viaEnv else CaptureAt(s, q)
  }

  /**
   * `\S*[/\\]` from `j`, then the rest: the greedy `\S*` tries the separator
   * at `k - 1` for `k` from the end of the word down, so the last separator
   * that leads to a capture wins.
   */
  function CaptureAfterPath(s: string, j: nat, k: nat): (r: Option<string>)
    requires j <= k <= |s|
    ensures Clean(r)
    decreases k
  {
    if k == j then None
    else
      var r := if IsSeparator(s[k - 1]) then CaptureAfterSeparator(s, k) else None;
      if r.Some? then r else CaptureAfterPath(s, j, k - 1)
  }

  /**
   * `SHEBANG` anchored at the line's start, as `language_config_for_shebang`
   * uses it: the interpreter's name, or None when the line does not match.
   * The optional path group is tried before the bare name.
   */
  function ShebangCapture(line: string): (r: Option<string>)
    ensures Clean(r)
    ensures r.Some? ==> |line| >= 2 && line[0] == '#' && line[1] == '!'
  {
    if |line| < 2 || line[0] != '#' || line[1] != '!' then None
    else
      var j := 2 + Run(line, 2, IsSpace);
      var r := CaptureAfterPath(line, j, j + Run(line, j, NotSpace));
      if r.Some? then r else CaptureAt(line, j)
  }

  /** The start of a shebang line that runs its interpreter through `env`. */
  const EnvPrefix := "#!/usr/bin/env "

  /** A shebang line through `env`, with a version number after the interpreter's name. */
  const PythonLine := EnvPrefix + "python3"

  /** A shebang line through `env` with an option before the interpreter's name. */
  const DenoLine := EnvPrefix + "-S deno run"

  /** After `#!/usr/bin/env `, the path is the word up to the space and `env` follows its last separator. */
  lemma {:induction false} EnvPathWord(s: string)
    requires |s| > 15 && s[..15] == EnvPrefix && !IsSpace(s[15])
    ensures s[0] == '#' && s[1] == '!'
    ensures Run(s, 2, IsSpace) == 0 && Run(s, 2, NotSpace) == 12
    ensures CaptureAfterPath(s, 2, 14) == CaptureAfterPath(s, 2, 11)
    ensures IsSeparator(s[10]) && AfterEnv(s, 11) == Some(15)
  {
    assert forall k :: 0 <= k < 15 ==> s[k] == EnvPrefix[k];
    assert forall k :: 2 <= k < 14 ==> NotSpace(s[k]);
    RunExact(s, 2, 12, NotSpace);
    assert CaptureAfterPath(s, 2, 14) == CaptureAfterPath(s, 2, 13);
    assert CaptureAfterPath(s, 2, 13) == CaptureAfterPath(s, 2, 12);
    assert CaptureAfterPath(s, 2, 12) == CaptureAfterPath(s, 2, 11);
    assert s[11..14] == "env";
    RunExact(s, 15, 0, IsSpace);
  }

  /** A line of that shape names whatever the options after `env ` lead to. */
  lemma {:induction false} EnvCapture(s: string, name: string)
    requires |s| > 15 && s[..15] == EnvPrefix && !IsSpace(s[15])
    requires CaptureAfterOptions(s, 15) == Some(name)
    ensures ShebangCapture(s) == Some(name)
  {
    EnvPathWord(s);
    assert CaptureAfterSeparator(s, 11) == Some(name);
    assert CaptureAfterPath(s, 2, 11) == Some(name);
  }

  /** No option at `q`: the name is captured right there. */
  lemma {:induction false} NoMoreOptions(s: string, q: nat, name: string)
    requires q <= |s| && AfterOption(s, q).None? && CaptureAt(s, q) == Some(name)
    ensures CaptureAfterOptions(s, q) == Some(name)
  {
  }

  /** An option at `q` that the name follows is skipped. */
  lemma {:induction false} SkipOption(s: string, q: nat, e: nat, name: string)
    requires q <= |s| && AfterOption(s, q) == Some(e) && CaptureAfterOptions(s, e) == Some(name)
    ensures CaptureAfterOptions(s, q) == Some(name)
  {
  }

  lemma {:induction false} PythonName(s: string)
    requires s == PythonLine
    ensures |s| > 15 && s[..15] == EnvPrefix && !IsSpace(s[15])
    ensures AfterOption(s, 15) == None && CaptureAt(s, 15) == Some("python")
  {
    assert s[..15] == EnvPrefix;
    var t := s[15..];
    assert t == "python3";
    assert forall k :: 15 <= k < |s| ==> s[k] == t[k - 15];
    assert forall k :: 15 <= k < 21 ==> Capturable(s[k]);
    RunExact(s, 15, 6, Capturable);
    assert s[15..21] == "python";
  }

  lemma {:induction false} DenoOption(s: string)
    requires s == DenoLine
    ensures |s| > 15 && s[..15] == EnvPrefix && !IsSpace(s[15])
    ensures AfterOption(s, 15) == Some(18)
  {
    assert s[..15] == EnvPrefix;
    var t := s[15..];
    assert t == "-S deno run";
    assert forall k :: 15 <= k < 19 ==> s[k] == t[k - 15];
    RunExact(s, 16, 1, NotSpace);
    RunExact(s, 17, 1, IsSpace);
  }

  lemma {:induction false} DenoName(s: string)
    requires s == DenoLine
    ensures |s| > 22 && AfterOption(s, 18) == None && CaptureAt(s, 18) == Some("deno")
  {
    var t := s[18..];
    assert t == "deno run";
    assert forall k :: 18 <= k < 23 ==> s[k] == t[k - 18];
    assert forall k :: 18 <= k < 22 ==> Capturable(s[k]);
    RunExact(s, 18, 4, Capturable);
    assert s[18..22] == "deno";
  }

  /** Under `/usr/bin/env`, the version digits are not part of the interpreter's name. */
  lemma {:induction false} ShebangEnvPython()
    ensures ShebangCapture(PythonLine) == Some("python")
  {
    PythonName(PythonLine);
    NoMoreOptions(PythonLine, 15, "python");
    EnvCapture(PythonLine, "python");
  }

  /** An option to `env` is skipped over: `env -S deno run` names `deno`. */
  lemma {:induction false} ShebangEnvOption()
    ensures ShebangCapture(DenoLine) == Some("deno")
  {
    DenoOption(DenoLine);
    DenoName(DenoLine);
    NoMoreOptions(DenoLine, 18, "deno");
    SkipOption(DenoLine, 15, 18, "deno");
    EnvCapture(DenoLine, "deno");
  }

  /** A run is exactly `n` long when `n` characters satisfy `p` and the next does not. */
  lemma {:induction false} RunExact(s: string, i: nat, n: nat, p: char -> bool)
    requires i + n <= |s| && (forall k :: i <= k < i + n ==> p(s[k])) && (i + n < |s| ==> !p(s[i + n]))
    ensures Run(s, i, p) == n
    decreases n
  {
    if n > 0 {
      RunExact(s, i + 1, n - 1, p);
    }
  }

  // ---------------------------------------------------------------------
  // Language configurations
  // ---------------------------------------------------------------------

  /** What `HighlightConfiguration::new` is built from: the grammar and the three queries. */
  datatype HighlightConfiguration = HighlightConfiguration(grammar: string, highlights: string, injections: string, locals: string)

  /**
   * The engines highlighting depends on: `read_query` over the shipped query
   * files, `get_language` over the compiled-in grammars, and whether
   * tree-sitter compiles the queries against the grammar.
   */
  datatype Engines = Engines(readQuery: (string, string) -> string, hasGrammar: string -> bool, compiles: HighlightConfiguration -> bool)

  /** The grammar a language is parsed with: its own `grammar`, else its id. */
  function GrammarName(languageId: string, grammar: Option<string>): string
  {
    if grammar.Some? then grammar.value else languageId
  }

  /**
   * `initialize_highlight`: no configuration for a language without a
   * highlights query; otherwise the one built from its queries with its
   * grammar, when the grammar exists and the queries compile.
   */
  function InitializeHighlight(languageId: string, grammar: Option<string>, e: Engines): (r: Option<HighlightConfiguration>)
    ensures e.readQuery(languageId, "highlights.scm") == "" ==> r.None?
    ensures r.Some? ==> r.value.highlights == e.readQuery(languageId, "highlights.scm") != ""
    ensures r.Some? ==> r.value.grammar == GrammarName(languageId, grammar) && e.hasGrammar(r.value.grammar) && e.compiles(r.value)
    ensures r.Some? && grammar.None? ==> r.value.grammar == languageId
    ensures r.Some? ==> r.value.injections == e.readQuery(languageId, "injections.scm") && r.value.locals == e.readQuery(languageId, "locals.scm")
    ensures r.Some? <==>
      var name := GrammarName(languageId, grammar);
      && e.readQuery(languageId, "highlights.scm") != "" && e.hasGrammar(name)
      && e.compiles(HighlightConfiguration(name, e.readQuery(languageId, "highlights.scm"),
           e.readQuery(languageId, "injections.scm"), e.readQuery(languageId, "locals.scm")))
  {
    var highlights := e.readQuery(languageId, "highlights.scm");
    var injections := e.readQuery(languageId, "injections.scm");
    var locals := e.readQuery(languageId, "locals.scm");
    if highlights == "" then None
    else
      var name := GrammarName(languageId, grammar);
      var config := HighlightConfiguration(name, highlights, injections, locals);
      if e.hasGrammar(name) && e.compiles(config) then Some(config) else None
  }

  /** A language of the configuration. Only its highlight configuration is filled in after loading. */
  class LanguageConfiguration {
    const languageId: string
    const fileTypes: seq<string>
    const shebangs: seq<string>
    const grammar: Option<string>
    const injectionRegex: Option<string>
    /** The `OnceCell`: None until the highlight configuration is first asked for. */
    var highlightConfig: Option<Option<HighlightConfiguration>>

    constructor (languageId: string, fileTypes: seq<string>, shebangs: seq<string>, grammar: Option<string>, injectionRegex: Option<string>)
      ensures this.languageId == languageId && this.fileTypes == fileTypes && this.shebangs == shebangs
      ensures this.grammar == grammar && this.injectionRegex == injectionRegex
      ensures highlightConfig.None?
    {
      this.languageId := languageId;
      this.fileTypes := fileTypes;
      this.shebangs := shebangs;
      this.grammar := grammar;
      this.injectionRegex := injectionRegex;
      highlightConfig := None;
    }

    /**
     * `highlight_config`: the first call initialises the configuration and
     * keeps it; every later call returns the kept one, whatever the engines
     * say by then.
     */
    method HighlightConfig(e: Engines) returns (r: Option<HighlightConfiguration>)
      modifies this
      ensures old(highlightConfig).Some? ==> r == old(highlightConfig).value
      ensures old(highlightConfig).None? ==> r == InitializeHighlight(languageId, grammar, e)
      ensures highlightConfig == Some(r)
    {
      if highlightConfig.None? {
        highlightConfig := Some(InitializeHighlight(languageId, grammar, e));
      }
      r := highlightConfig.value;
    }
  }

  // ---------------------------------------------------------------------
  // The loader
  // ---------------------------------------------------------------------

  /** An entry of `file_types`: a glob and the index of its language. */
  datatype FileType = FileType(glob: string, language: nat)

  /** The registry: the languages in order, every glob with its language, and the interpreters. */
  datatype Loader = Loader(languageConfigs: seq<LanguageConfiguration>, fileTypes: seq<FileType>, byShebang: map<string, nat>)

  /** The globs of language `idx`, each tagged with it. */
  function Tagged(globs: seq<string>, idx: nat): (r: seq<FileType>)
  {
    seq(|globs|, k requires 0 <= k < |globs| => FileType(globs[k], idx))
  }

  /** `file_types` once the first `n` languages are registered. */
  function FileTypesOf(langs: seq<LanguageConfiguration>, n: nat): seq<FileType>
    requires n <= |langs|
  {
    if n == 0 then [] else FileTypesOf(langs, n - 1) + Tagged(langs[n - 1].fileTypes, n - 1)
  }

  /** `names` inserted into `m`, all for language `idx`. */
  function Registered(m: map<string, nat>, names: seq<string>, idx: nat): map<string, nat>
    decreases |names|
  {
    if names == [] then m else Registered(m[names[0] := idx], names[1..], idx)
  }

  /** `language_config_ids_by_shebang` once the first `n` languages are registered. */
  function ShebangsOf(langs: seq<LanguageConfiguration>, n: nat): map<string, nat>
    requires n <= |langs|
  {
    if n == 0 then map[] else Registered(ShebangsOf(langs, n - 1), langs[n - 1].shebangs, n - 1)
  }

  /** The loader a configuration of `langs` builds when every glob is valid. */
  function Loaded(langs: seq<LanguageConfiguration>): Loader
  {
    Loader(langs, FileTypesOf(langs, |langs|), ShebangsOf(langs, |langs|))
  }

  /** Some glob of one of the languages is not a valid glob. */
  predicate SomeGlobInvalid(langs: seq<LanguageConfiguration>, n: nat, validGlob: string -> bool)
    requires n <= |langs|
  {
    exists i, k :: 0 <= i < n && 0 <= k < |langs[i].fileTypes| && !validGlob(langs[i].fileTypes[k])
  }

  /** Every glob is registered with the index of its language, and nothing else is. */
  lemma {:induction false} FileTypesRegistered(langs: seq<LanguageConfiguration>, n: nat)
    requires n <= |langs|
    ensures forall ft :: ft in FileTypesOf(langs, n) <==> ft.language < n && ft.glob in langs[ft.language].fileTypes
  {
    if n > 0 {
      FileTypesRegistered(langs, n - 1);
      var tagged := Tagged(langs[n - 1].fileTypes, n - 1);
      forall ft
        ensures ft in tagged <==> ft.language == n - 1 && ft.glob in langs[n - 1].fileTypes
      {
        if ft.language == n - 1 && ft.glob in langs[n - 1].fileTypes {
          var k :| 0 <= k < |langs[n - 1].fileTypes| && langs[n - 1].fileTypes[k] == ft.glob;
          assert tagged[k] == ft;
        }
      }
    }
  }

  /** Inserting names keeps the old keys, adds the names, and maps exactly the names to `idx`. */
  lemma {:induction false} RegisteredFacts(m: map<string, nat>, names: seq<string>, idx: nat)
    ensures forall s :: s in Registered(m, names, idx) <==> s in m || s in names
    ensures forall s :: s in names ==> Registered(m, names, idx)[s] == idx
    ensures forall s :: s in m && s !in names ==> Registered(m, names, idx)[s] == m[s]
    decreases |names|
  {
    if names != [] {
      RegisteredFacts(m[names[0] := idx], names[1..], idx);
      assert forall s :: s in names <==> s == names[0] || s in names[1..];
    }
  }

  /**
   * An interpreter is registered iff some language declares it, and it maps
   * to the last language that does: a later declaration overwrites an earlier one.
   */
  lemma {:induction false} ShebangsLastWins(langs: seq<LanguageConfiguration>, n: nat, name: string)
    requires n <= |langs|
    ensures name in ShebangsOf(langs, n) <==> exists i :: 0 <= i < n && name in langs[i].shebangs
    ensures name in ShebangsOf(langs, n) ==>
      && ShebangsOf(langs, n)[name] < n
      && name in langs[ShebangsOf(langs, n)[name]].shebangs
      && forall j :: ShebangsOf(langs, n)[name] < j < n ==> name !in langs[j].shebangs
  {
    if n > 0 {
      ShebangsLastWins(langs, n - 1, name);
      RegisteredFacts(ShebangsOf(langs, n - 1), langs[n - 1].shebangs, n - 1);
    }
  }

  /** Adds the tagged globs of language `idx` to `file_types`; None where an invalid glob panics. */
  method PushGlobs(fileTypes: seq<FileType>, globs: seq<string>, idx: nat, validGlob: string -> bool) returns (r: Option<seq<FileType>>)
    ensures r.None? <==> exists k :: 0 <= k < |globs| && !validGlob(globs[k])
    ensures r.Some? ==> r.value == fileTypes + Tagged(globs, idx)
  {
    var acc := fileTypes;
    var k := 0;
    while k < |globs|
      invariant k <= |globs| && acc == fileTypes + Tagged(globs[..k], idx)
      invariant forall j :: 0 <= j < k ==> validGlob(globs[j])
    {
      if !validGlob(globs[k]) {
        return None;
      }
      assert Tagged(globs[..k + 1], idx) == Tagged(globs[..k], idx) + [FileType(globs[k], idx)];
      acc := acc + [FileType(globs[k], idx)];
      k := k + 1;
    }
    assert globs[..k] == globs;
    return Some(acc);
  }

  /** Inserts the interpreters of language `idx`, overwriting earlier entries. */
  method InsertShebangs(m: map<string, nat>, names: seq<string>, idx: nat) returns (r: map<string, nat>)
    ensures r == Registered(m, names, idx)
  {
    r := m;
    var k := 0;
    while k < |names|
      invariant k <= |names| && Registered(r, names[k..], idx) == Registered(m, names, idx)
    {
      assert names[k..][1..] == names[k + 1..];
      r := r[names[k] := idx];
      k := k + 1;
    }
  }

  /**
   * `Loader::new`: registers every glob of every language with the
   * language's index, in order, and every interpreter; an invalid glob
   * panics (None).
   */
  method New(langs: seq<LanguageConfiguration>, validGlob: string -> bool) returns (r: Option<Loader>)
    ensures r.None? <==> SomeGlobInvalid(langs, |langs|, validGlob)
    ensures r.Some? ==> r.value == Loaded(langs)
  {
    var configs: seq<LanguageConfiguration> := [];
    var fileTypes: seq<FileType> := [];
    var byShebang: map<string, nat> := map[];
    var idx := 0;
    while idx < |langs|
      invariant idx <= |langs| && configs == langs[..idx]
      invariant fileTypes == FileTypesOf(langs, idx) && byShebang == ShebangsOf(langs, idx)
      invariant !SomeGlobInvalid(langs, idx, validGlob)
    {
      var lang := langs[idx];
      var pushed := PushGlobs(fileTypes, lang.fileTypes, idx, validGlob);
      if pushed.None? {
        return None;
      }
      fileTypes := pushed.value;
      byShebang := InsertShebangs(byShebang, lang.shebangs, idx);
      configs := configs + [lang];
      idx := idx + 1;
    }
    assert configs == langs;
    return Some(Loader(configs, fileTypes, byShebang));
  }

  /** `language_configs.get(id)`. */
  function At(configs: seq<LanguageConfiguration>, id: Option<nat>): (r: Option<LanguageConfiguration>)
    ensures r.Some? <==> id.Some? && id.value < |configs|
  {
    if id.Some? && id.value < |configs| then Some(configs[id.value]) else None
  }

  // ---------------------------------------------------------------------
  // Lookup by path
  // ---------------------------------------------------------------------

  /** The bytes a character takes in UTF-8. */
  function CharLen(c: char): nat
  {
    if c as int < 0x80 then 1 else if c as int < 0x800 then 2 else if c as int < 0x10000 then 3 else 4
  }

  /** `str::len`: the length of a glob's pattern text in UTF-8 bytes. */
  function Utf8Len(s: string): nat
  {
    if s == [] then 0 else CharLen(s[0]) + Utf8Len(s[1..])
  }

  /**
   * `max_by_key` on the pattern length over the globs from `i` on that
   * match, `best` being the one kept so far: an equally long glob later on
   * replaces it.
   */
  function LongestFrom(fts: seq<FileType>, path: string, matches: (string, string) -> bool, i: nat, best: Option<nat>): (r: Option<nat>)
    requires i <= |fts| && (best.Some? ==> best.value < i)
    ensures r.Some? ==> r.value < |fts|
    decreases |fts| - i
  {
    if i == |fts| then best
    else if matches(fts[i].glob, path) && (best.None? || Utf8Len(fts[i].glob) >= Utf8Len(fts[best.value].glob)) then
      LongestFrom(fts, path, matches, i + 1, Some(i))
    else LongestFrom(fts, path, matches, i + 1, best)
  }

  /** The entry of `file_types` whose glob decides a path's language: globset reports matches in order. */
  function LongestMatch(fts: seq<FileType>, path: string, matches: (string, string) -> bool): Option<nat>
  {
    LongestFrom(fts, path, matches, 0, None)
  }

  /**
   * `best` is what `max_by_key` keeps after the first `i` globs: none when
   * none matched; otherwise a matching glob at least as long as any match
   * and longer than every match after it.
   */
  predicate KeptLongest(fts: seq<FileType>, path: string, matches: (string, string) -> bool, i: nat, best: Option<nat>)
    requires i <= |fts|
  {
    && (best.None? ==> forall j :: 0 <= j < i ==> !matches(fts[j].glob, path))
    && (best.Some? ==>
      && best.value < i
      && matches(fts[best.value].glob, path)
      && (forall j :: 0 <= j < i && matches(fts[j].glob, path) ==> Utf8Len(fts[j].glob) <= Utf8Len(fts[best.value].glob))
      && (forall j :: best.value < j < i && matches(fts[j].glob, path) ==> Utf8Len(fts[j].glob) < Utf8Len(fts[best.value].glob)))
  }

  lemma {:induction false} LongestFromKeeps(fts: seq<FileType>, path: string, matches: (string, string) -> bool, i: nat, best: Option<nat>)
    requires i <= |fts| && KeptLongest(fts, path, matches, i, best)
    ensures KeptLongest(fts, path, matches, |fts|, LongestFrom(fts, path, matches, i, best))
    decreases |fts| - i
  {
    if i < |fts| {
      if matches(fts[i].glob, path) && (best.None? || Utf8Len(fts[i].glob) >= Utf8Len(fts[best.value].glob)) {
        assert KeptLongest(fts, path, matches, i + 1, Some(i));
        LongestFromKeeps(fts, path, matches, i + 1, Some(i));
      } else {
        assert KeptLongest(fts, path, matches, i + 1, best);
        LongestFromKeeps(fts, path, matches, i + 1, best);
      }
    }
  }

  /**
   * A path's glob is a matching one with the longest pattern, the last of
   * the longest ones; there is none only when no glob matches.
   */
  lemma {:induction false} LongestMatchIsLongest(fts: seq<FileType>, path: string, matches: (string, string) -> bool)
    ensures LongestMatch(fts, path, matches).None? <==> forall j :: 0 <= j < |fts| ==> !matches(fts[j].glob, path)
    ensures LongestMatch(fts, path, matches).Some? ==>
      && matches(fts[LongestMatch(fts, path, matches).value].glob, path)
      && (forall j :: 0 <= j < |fts| && matches(fts[j].glob, path) ==> Utf8Len(fts[j].glob) <= Utf8Len(fts[LongestMatch(fts, path, matches).value].glob))
      && (forall j :: LongestMatch(fts, path, matches).value < j < |fts| && matches(fts[j].glob, path) ==>
            Utf8Len(fts[j].glob) < Utf8Len(fts[LongestMatch(fts, path, matches).value].glob))
  {
    LongestFromKeeps(fts, path, matches, 0, None);
  }

  /** `language_config_for_path`: the language of the path's longest matching glob. */
  function ForPath(loader: Loader, path: string, matches: (string, string) -> bool): (r: Option<LanguageConfiguration>)
    ensures r.Some? ==> LongestMatch(loader.fileTypes, path, matches).Some?
  {
    match LongestMatch(loader.fileTypes, path, matches)
    case None => None
    case Some(k) => At(loader.languageConfigs, Some(loader.fileTypes[k].language))
  }

  /** A loaded registry finds the language of every glob it registered. */
  lemma {:induction false} LoadedPathsResolve(langs: seq<LanguageConfiguration>, path: string, matches: (string, string) -> bool)
    ensures ForPath(Loaded(langs), path, matches).Some? <==> LongestMatch(Loaded(langs).fileTypes, path, matches).Some?
  {
    var loader := Loaded(langs);
    FileTypesRegistered(langs, |langs|);
    if LongestMatch(loader.fileTypes, path, matches).Some? {
      var k := LongestMatch(loader.fileTypes, path, matches).value;
      assert loader.fileTypes[k] in loader.fileTypes;
    }
  }

  // ---------------------------------------------------------------------
  // Lookup by shebang
  // ---------------------------------------------------------------------

  /** `language_config_for_shebang`: the interpreter the shebang line names, looked up exactly. */
  function ForShebang(loader: Loader, line: string): (r: Option<LanguageConfiguration>)
    ensures r.Some? ==> ShebangCapture(line).Some? && ShebangCapture(line).value in loader.byShebang
  {
    match ShebangCapture(line)
    case None => None
    case Some(name) => if name in loader.byShebang then At(loader.languageConfigs, Some(loader.byShebang[name])) else None
  }

  /** A loaded registry resolves a shebang line to the last language declaring the interpreter it names. */
  lemma {:induction false} LoadedShebangResolves(langs: seq<LanguageConfiguration>, line: string)
    requires ShebangCapture(line).Some?
    ensures ForShebang(Loaded(langs), line).Some? <==> exists i :: 0 <= i < |langs| && ShebangCapture(line).value in langs[i].shebangs
    ensures ForShebang(Loaded(langs), line).Some? ==> ShebangCapture(line).value in ForShebang(Loaded(langs), line).value.shebangs
  {
    ShebangsLastWins(langs, |langs|, ShebangCapture(line).value);
  }

  // ---------------------------------------------------------------------
  // Lookup by injection name
  // ---------------------------------------------------------------------

  /** The length of a language's injection-regex match in `name`; 0 without a regex or a match. */
  function MatchLength(c: LanguageConfiguration, name: string, findLen: (string, string) -> Option<nat>): nat
  {
    match c.injectionRegex
    case None => 0
    case Some(re) => match findLen(re, name) case None => 0 case Some(n) => n
  }

  /** The scan of `language_config_for_name` from language `i` on: only a strictly longer match replaces the best. */
  function BestFrom(configs: seq<LanguageConfiguration>, name: string, findLen: (string, string) -> Option<nat>, i: nat, bestLen: nat, best: Option<nat>): (r: Option<nat>)
    requires i <= |configs| && (best.Some? ==> best.value < i)
    ensures r.Some? ==> r.value < |configs|
    decreases |configs| - i
  {
    if i == |configs| then best
    else if MatchLength(configs[i], name, findLen) > bestLen then BestFrom(configs, name, findLen, i + 1, MatchLength(configs[i], name, findLen), Some(i))
    else BestFrom(configs, name, findLen, i + 1, bestLen, best)
  }

  /** The language `language_config_for_name` picks for `name`. */
  function BestInjection(configs: seq<LanguageConfiguration>, name: string, findLen: (string, string) -> Option<nat>): Option<nat>
  {
    BestFrom(configs, name, findLen, 0, 0, None)
  }

  /**
   * After the first `i` languages: no best while no language matched with a
   * positive length; otherwise the best is a language whose match length is
   * `bestLen`, positive, at least every match so far and longer than every
   * earlier one.
   */
  predicate KeptBest(configs: seq<LanguageConfiguration>, name: string, findLen: (string, string) -> Option<nat>, i: nat, bestLen: nat, best: Option<nat>)
    requires i <= |configs|
  {
    && (best.None? ==> bestLen == 0 && forall j :: 0 <= j < i ==> MatchLength(configs[j], name, findLen) == 0)
    && (best.Some? ==>
      && best.value < i
      && bestLen == MatchLength(configs[best.value], name, findLen) > 0
      && (forall j :: 0 <= j < i ==> MatchLength(configs[j], name, findLen) <= bestLen)
      && (forall j :: 0 <= j < best.value ==> MatchLength(configs[j], name, findLen) < bestLen))
  }

  lemma {:induction false} BestFromKeeps(configs: seq<LanguageConfiguration>, name: string, findLen: (string, string) -> Option<nat>, i: nat, bestLen: nat, best: Option<nat>)
    requires i <= |configs| && KeptBest(configs, name, findLen, i, bestLen, best)
    ensures KeptBest(configs, name, findLen, |configs|, MatchLengthOf(configs, name, findLen, BestFrom(configs, name, findLen, i, bestLen, best)), BestFrom(configs, name, findLen, i, bestLen, best))
    decreases |configs| - i
  {
    if i < |configs| {
      var len := MatchLength(configs[i], name, findLen);
      if len > bestLen {
        assert KeptBest(configs, name, findLen, i + 1, len, Some(i));
        BestFromKeeps(configs, name, findLen, i + 1, len, Some(i));
      } else {
        assert KeptBest(configs, name, findLen, i + 1, bestLen, best);
        BestFromKeeps(configs, name, findLen, i + 1, bestLen, best);
      }
    }
  }

  /** The match length of the language picked, 0 for none. */
  function MatchLengthOf(configs: seq<LanguageConfiguration>, name: string, findLen: (string, string) -> Option<nat>, best: Option<nat>): nat
  {
    if best.Some? && best.value < |configs| then MatchLength(configs[best.value], name, findLen) else 0
  }

  /**
   * The language picked for an injection name has the longest match, the
   * earliest of the longest ones; a zero-length match or a language without
   * a regex never wins, and there is none when nothing matches with a
   * positive length.
   */
  lemma {:induction false} BestInjectionIsLongest(configs: seq<LanguageConfiguration>, name: string, findLen: (string, string) -> Option<nat>)
    ensures BestInjection(configs, name, findLen).None? <==> forall j :: 0 <= j < |configs| ==> MatchLength(configs[j], name, findLen) == 0
    ensures BestInjection(configs, name, findLen).Some? ==>
      && MatchLength(configs[BestInjection(configs, name, findLen).value], name, findLen) > 0
      && (forall j :: 0 <= j < |configs| ==> MatchLength(configs[j], name, findLen) <= MatchLength(configs[BestInjection(configs, name, findLen).value], name, findLen))
      && (forall j :: 0 <= j < BestInjection(configs, name, findLen).value ==>
            MatchLength(configs[j], name, findLen) < MatchLength(configs[BestInjection(configs, name, findLen).value], name, findLen))
  {
    BestFromKeeps(configs, name, findLen, 0, 0, None);
  }

  /** `language_config_for_name`: the loop keeping the best match length and its position. */
  method ForName(loader: Loader, name: string, findLen: (string, string) -> Option<nat>) returns (r: Option<LanguageConfiguration>)
    ensures r == At(loader.languageConfigs, BestInjection(loader.languageConfigs, name, findLen))
  {
    var configs := loader.languageConfigs;
    var bestLength := 0;
    var bestPosition: Option<nat> := None;
    var i := 0;
    while i < |configs|
      invariant i <= |configs| && (bestPosition.Some? ==> bestPosition.value < i)
      invariant BestFrom(configs, name, findLen, i, bestLength, bestPosition) == BestInjection(configs, name, findLen)
    {
      var length := MatchLength(configs[i], name, findLen);
      if length > bestLength {
        bestPosition := Some(i);
        bestLength := length;
      }
      i := i + 1;
    }
    return At(configs, bestPosition);
  }

  /** The kinds of language marker an injection query captures. */
  datatype InjectionLanguageMarker = Name(name: string) | Filename(path: string) | Shebang(interpreter: string)

  /**
   * `language_configuration_for_injection_string`: a name goes to the
   * injection-regex lookup, a file name to the glob lookup, and an
   * interpreter straight to the interpreter table, without the shebang pattern.
   */
  method ForInjection(loader: Loader, marker: InjectionLanguageMarker, matches: (string, string) -> bool, findLen: (string, string) -> Option<nat>)
    returns (r: Option<LanguageConfiguration>)
    ensures marker.Name? ==> r == At(loader.languageConfigs, BestInjection(loader.languageConfigs, marker.name, findLen))
    ensures marker.Filename? ==> r == ForPath(loader, marker.path, matches)
    ensures marker.Shebang? ==> r == if marker.interpreter in loader.byShebang then At(loader.languageConfigs, Some(loader.byShebang[marker.interpreter])) else None
  {
    match marker
    case Name(n) =>
      r := ForName(loader, n, findLen);
    case Filename(p) =>
      r := ForPath(loader, p, matches);
    case Shebang(s) =>
      r := if s in loader.byShebang then At(loader.languageConfigs, Some(loader.byShebang[s])) else None;
  }
}
