/**
 * Loading a tree-sitter query (`read_query` in `syntax.rs`): the query
 * file of a language, with every `; inherits <languages>` directive
 * replaced by the queries of those languages, each on lines of its own.
 *
 * The embedded query directory is a parameter: a map from (language, file
 * name) to the file's text. The source follows directives without any
 * guard against a language inheriting itself; here `fuel` bounds how
 * deeply directives nest, and `None` says that bound was reached.
 */
module Queries {
  import opened Base
  import Languages

  /** The characters of the language list in a directive: `[a-z_,()-]`. */
  predicate ListChar(c: char)
  {
    ('a' <= c <= 'z') || c == '_' || c == ',' || c == '(' || c == ')' || c == '-'
  }

  const INHERITS := "inherits"

  /** The length of the run of `\s` characters at `i`. */
  function Spaces(s: string, i: nat): (n: nat)
    requires i <= |s|
    ensures i + n <= |s|
    decreases |s| - i
  {
    if i < |s| && Languages.IsSpace(s[i]) then 1 + Spaces(s, i + 1) else 0
  }

  /** The length of the run of `;` at `i`. */
  function Semicolons(s: string, i: nat): (n: nat)
    requires i <= |s|
    ensures i + n <= |s|
    decreases |s| - i
  {
    if i < |s| && s[i] == ';' then 1 + Semicolons(s, i + 1) else 0
  }

  /** The length of the run of `[a-z_,()-]` characters at `i`. */
  function ListRun(s: string, i: nat): (n: nat)
    requires i <= |s|
    ensures i + n <= |s|
    ensures forall k :: i <= k < i + n ==> ListChar(s[k])
    decreases |s| - i
  {
    if i < |s| && ListChar(s[i]) then 1 + ListRun(s, i + 1) else 0
  }

  /**
   * A match of `;+\s*inherits\s*:?\s*([a-z_,()-]+)\s*` starting at `p`:
   * where the match ends and the captured language list. Each repetition
   * is greedy and none can give back what the next needs, so the match,
   * when there is one, is the one below.
   */
  function DirectiveAt(s: string, p: nat): (r: Option<(nat, string)>)
    requires p <= |s|
    ensures r.Some? ==> p < r.value.0 <= |s| && |r.value.1| > 0
    ensures r.Some? ==> forall k :: 0 <= k < |r.value.1| ==> ListChar(r.value.1[k])
    ensures r.Some? ==> s[p] == ';'
  {
    if p == |s| || s[p] != ';' then None
    else
      KeywordAfter(s, p + Semicolons(s, p))
  }

  /** The rest of a directive after its semicolons: `\s*inherits` and what follows it. */
  function KeywordAfter(s: string, a: nat): (r: Option<(nat, string)>)
    requires a <= |s|
    ensures r.Some? ==> a <= r.value.0 <= |s| && |r.value.1| > 0
    ensures r.Some? ==> forall k :: 0 <= k < |r.value.1| ==> ListChar(r.value.1[k])
  {
    var b := a + Spaces(s, a);
    if b + |INHERITS| > |s| || s[b..b + |INHERITS|] != INHERITS then None
    else ListAfterKeyword(s, b + |INHERITS|)
  }

  /** The rest of a directive after `inherits`: `\s*:?\s*([a-z_,()-]+)\s*`. */
  function ListAfterKeyword(s: string, c0: nat): (r: Option<(nat, string)>)
    requires c0 <= |s|
    ensures r.Some? ==> c0 <= r.value.0 <= |s| && |r.value.1| > 0
    ensures r.Some? ==> forall k :: 0 <= k < |r.value.1| ==> ListChar(r.value.1[k])
  {
    var c := c0 + Spaces(s, c0);
    var d := if c < |s| && s[c] == ':' then c + 1 else c;
    var e := d + Spaces(s, d);
    var n := ListRun(s, e);
    if n == 0 then None
    else Some((e + n + Spaces(s, e + n), s[e..e + n]))
  }

  /** The text of a query file; a missing file reads as empty. */
  function Load(files: map<(string, string), string>, language: string, filename: string): string
  {
    if (language, filename) in files then files[(language, filename)] else ""
  }

  /**
   * `read_query`: the file with its directives expanded, `None` when
   * directives nest deeper than `fuel`.
   */
  function ReadQuery(files: map<(string, string), string>, language: string, filename: string, fuel: nat): Option<string>
    decreases fuel, 2, 0
  {
    var text := Load(files, language, filename);
    ExpandFrom(files, filename, text, 0, fuel)
  }

  /**
   * `replace_all` from position `i`: text is copied up to the next
   * directive, which is replaced by the queries of the languages it lists.
   */
  function ExpandFrom(files: map<(string, string), string>, filename: string, s: string, i: nat, fuel: nat): Option<string>
    requires i <= |s|
    decreases fuel, 1, |s| - i
  {
    if i == |s| then Some("")
    else match DirectiveAt(s, i)
      case None =>
        (match ExpandFrom(files, filename, s, i + 1, fuel)
         case None => None
         case Some(rest) => Some([s[i]] + rest))
      case Some((end, list)) =>
        if fuel == 0 then None
        else
          match Inherited(files, filename, Split(list, ','), fuel - 1)
          case None => None
          case Some(inherited) =>
            match ExpandFrom(files, filename, s, end, fuel)
            case None => None
            case Some(rest) => Some(inherited + rest)
  }

  /** The replacement of one directive: each listed language's query between newlines. */
  function Inherited(files: map<(string, string), string>, filename: string, languages: seq<string>, fuel: nat): Option<string>
    decreases fuel, 3, |languages|
  {
    if languages == [] then Some("")
    else
      match ReadQuery(files, languages[0], filename, fuel)
      case None => None
      case Some(query) =>
        match Inherited(files, filename, languages[1..], fuel)
        case None => None
        case Some(rest) => Some("\n" + query + "\n" + rest)
  }

  /** Text without a `;` holds no directive and is copied as it is. */
  lemma {:induction false} NoDirectiveKept(files: map<(string, string), string>, filename: string, s: string, i: nat, fuel: nat)
    requires i <= |s| && forall k :: i <= k < |s| ==> s[k] != ';'
    ensures ExpandFrom(files, filename, s, i, fuel) == Some(s[i..])
    decreases |s| - i
  {
    if i < |s| {
      NoDirectiveKept(files, filename, s, i + 1, fuel);
      assert s[i..] == [s[i]] + s[i + 1..];
    }
  }

  /** A query file without directives is read as it is; a missing one reads as empty. */
  lemma PlainQueryRead(files: map<(string, string), string>, language: string, filename: string, fuel: nat)
    requires forall k :: 0 <= k < |Load(files, language, filename)| ==> Load(files, language, filename)[k] != ';'
    ensures ReadQuery(files, language, filename, fuel) == Some(Load(files, language, filename))
    ensures (language, filename) !in files ==> ReadQuery(files, language, filename, fuel) == Some("")
  {
    NoDirectiveKept(files, filename, Load(files, language, filename), 0, fuel);
  }

  /** More fuel changes nothing once a query could be read. */
  lemma {:induction false} ReadQueryMonotone(files: map<(string, string), string>, language: string, filename: string, fuel: nat)
    requires ReadQuery(files, language, filename, fuel).Some?
    ensures ReadQuery(files, language, filename, fuel + 1) == ReadQuery(files, language, filename, fuel)
    decreases fuel, 2, 0
  {
    ExpandMonotone(files, filename, Load(files, language, filename), 0, fuel);
  }

  lemma {:induction false} ExpandMonotone(files: map<(string, string), string>, filename: string, s: string, i: nat, fuel: nat)
    requires i <= |s| && ExpandFrom(files, filename, s, i, fuel).Some?
    ensures ExpandFrom(files, filename, s, i, fuel + 1) == ExpandFrom(files, filename, s, i, fuel)
    decreases fuel, 1, |s| - i, 1
  {
    if i < |s| {
      if DirectiveAt(s, i).None? {
        PlainStep(files, filename, s, i, fuel);
        ExpandMonotone(files, filename, s, i + 1, fuel);
        PlainStep(files, filename, s, i, fuel + 1);
      } else {
        DirectiveMonotone(files, filename, s, i, fuel);
      }
    }
  }

  /** `ExpandMonotone` at a directive. */
  lemma {:induction false} DirectiveMonotone(files: map<(string, string), string>, filename: string, s: string, i: nat, fuel: nat)
    requires i < |s| && DirectiveAt(s, i).Some? && ExpandFrom(files, filename, s, i, fuel).Some?
    ensures ExpandFrom(files, filename, s, i, fuel + 1) == ExpandFrom(files, filename, s, i, fuel)
    decreases fuel, 1, |s| - i, 0
  {
    var end, list := DirectiveAt(s, i).value.0, DirectiveAt(s, i).value.1;
    assert fuel > 0;
    DirectiveStep(files, filename, s, i, end, list, fuel);
    InheritedMonotone(files, filename, Split(list, ','), fuel - 1);
    ExpandMonotone(files, filename, s, end, fuel);
    DirectiveStep(files, filename, s, i, end, list, fuel + 1);
  }

  /** Two parts read in turn: both must be read, and they are concatenated. */
  function Both(first: Option<string>, second: Option<string>): (r: Option<string>)
    ensures r.Some? <==> first.Some? && second.Some?
  {
    if first.Some? && second.Some? then Some(first.value + second.value) else None
  }

  /** Expanding past a character that starts no directive copies it. */
  lemma PlainStep(files: map<(string, string), string>, filename: string, s: string, i: nat, fuel: nat)
    requires i < |s| && DirectiveAt(s, i).None?
    ensures ExpandFrom(files, filename, s, i, fuel) == Both(Some([s[i]]), ExpandFrom(files, filename, s, i + 1, fuel))
  {
  }

  /** Expanding at a directive puts the inherited queries before the expansion of what follows. */
  lemma DirectiveStep(files: map<(string, string), string>, filename: string, s: string, i: nat, end: nat, list: string, fuel: nat)
    requires i < |s| && DirectiveAt(s, i) == Some((end, list)) && fuel > 0
    ensures ExpandFrom(files, filename, s, i, fuel) == Both(Inherited(files, filename, Split(list, ','), fuel - 1), ExpandFrom(files, filename, s, end, fuel))
  {
  }

  lemma {:induction false} InheritedMonotone(files: map<(string, string), string>, filename: string, languages: seq<string>, fuel: nat)
    requires Inherited(files, filename, languages, fuel).Some?
    ensures Inherited(files, filename, languages, fuel + 1) == Inherited(files, filename, languages, fuel)
    decreases fuel, 3, |languages|
  {
    if languages != [] {
      ReadQueryMonotone(files, languages[0], filename, fuel);
      InheritedMonotone(files, filename, languages[1..], fuel);
    }
  }

  /** A directive `;inherits x` naming one language of one letter. */
  lemma ShortDirective(c: char)
    requires 'a' <= c <= 'z'
    ensures DirectiveAt([';'] + INHERITS + [' ', c], 0) == Some((11, [c]))
  {
    var s := [';'] + INHERITS + [' ', c];
    assert s[1..9] == INHERITS && s[9] == ' ' && s[10] == c && s[1] == 'i';
    assert Semicolons(s, 0) == 1;
    assert Spaces(s, 1) == 0;
    assert Spaces(s, 9) == 1;
    assert Spaces(s, 10) == 0;
    assert ListRun(s, 10) == 1;
    assert s[10..11] == [c];
  }

  /** A directive naming one language. */
  const Directive := [';'] + INHERITS + [' ', 'a']

  lemma {:induction false} SplitWithout(s: string, sep: char)
    requires sep !in s
    ensures Split(s, sep) == [s]
    decreases |s|
  {
    if s != [] {
      SplitWithout(s[1..], sep);
      assert s == [s[0]] + s[1..];
    }
  }

  /** Text that is one directive naming one language reads as that language's query between newlines. */
  lemma OneDirective(files: map<(string, string), string>, filename: string, s: string, language: string, fuel: nat)
    requires DirectiveAt(s, 0) == Some((|s|, language)) && ',' !in language && fuel > 0
    requires ReadQuery(files, language, filename, fuel - 1).Some?
    ensures ExpandFrom(files, filename, s, 0, fuel) == Some("\n" + ReadQuery(files, language, filename, fuel - 1).value + "\n")
  {
    SplitWithout(language, ',');
    var q := ReadQuery(files, language, filename, fuel - 1).value;
    assert Inherited(files, filename, [language], fuel - 1) == Some("\n" + q + "\n" + "");
    assert "\n" + q + "\n" + "" == "\n" + q + "\n";
  }

  /** A query of `b` that is one directive inheriting the one-letter language `c`, whose query `x` has no directive, reads as `x` between newlines. */
  lemma InheritsExpanded(files: map<(string, string), string>, b: string, q: string, c: char, x: string)
    requires 'a' <= c <= 'z' && ';' !in x
    requires Load(files, b, q) == [';'] + INHERITS + [' ', c] && Load(files, [c], q) == x
    ensures ReadQuery(files, b, q, 1) == Some("\n" + x + "\n")
  {
    ShortDirective(c);
    PlainQueryRead(files, [c], q, 0);
    OneDirective(files, q, Load(files, b, q), [c], 1);
  }

  /** A query that is one directive naming its own language is never read to the end, whatever the bound. */
  lemma {:induction false} SelfInheritanceDiverges(files: map<(string, string), string>, language: string, filename: string, fuel: nat)
    requires DirectiveAt(Load(files, language, filename), 0) == Some((|Load(files, language, filename)|, language))
    requires ',' !in language
    ensures ReadQuery(files, language, filename, fuel) == None
  {
    SplitWithout(language, ',');
    if fuel > 0 {
      SelfInheritanceDiverges(files, language, filename, fuel - 1);
      assert Inherited(files, filename, [language], fuel - 1) == None;
    }
  }

  /** `a` inheriting `a`: the source would not return. */
  lemma SelfInheritingQuery(fuel: nat)
    ensures ReadQuery(map[("a", "q") := Directive], "a", "q", fuel) == None
  {
    ShortDirective('a');
    SelfInheritanceDiverges(map[("a", "q") := Directive], "a", "q", fuel);
  }
}
