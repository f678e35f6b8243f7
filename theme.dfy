/**
 * Themes (`ui/theme.rs`): colour names resolved through a palette, and a
 * map from dot-separated scopes to styles in which a missing scope falls
 * back to its broader parents.
 *
 * Strings are sequences of characters, each counted as one byte (the
 * theme's own strings are ASCII).
 */
module Themes {
  import opened Base
  import opened Styles

  /** The outcome of `color`: a colour, or the panic or endless recursion it runs into. */
  datatype Resolved =
    | Resolved(color: Color)
    | BadHex        // a `#` string whose channels are not hexadecimal
    | UnknownColor  // neither a colour nor a palette name
    | Diverges      // the palette leads back to a name already being resolved

  predicate IsHexDigit(c: char)
  {
    '0' <= c <= '9' || 'a' <= c <= 'f' || 'A' <= c <= 'F'
  }

  function HexValue(c: char): (v: nat)
    requires IsHexDigit(c)
    ensures v < 16
  {
    if '0' <= c <= '9' then c as int - '0' as int
    else if 'a' <= c <= 'f' then c as int - 'a' as int + 10
    else c as int - 'A' as int + 10
  }

  /**
   * `u8::from_str_radix(s, 16)` on a two-character slice: two hexadecimal
   * digits, or a `+` sign and one digit.
   */
  function HexByte(a: char, b: char): (r: Option<Byte>)
    ensures IsHexDigit(a) && IsHexDigit(b) ==> r == Some(16 * HexValue(a) + HexValue(b))
    ensures !IsHexDigit(b) ==> r.None?
  {
    if IsHexDigit(a) && IsHexDigit(b) then Some(16 * HexValue(a) + HexValue(b))
    else if a == '+' && IsHexDigit(b) then Some(HexValue(b))
    else None
  }

  predicate IsDigit(c: char)
  {
    '0' <= c <= '9'
  }

  /** The value of a string of decimal digits. */
  function DigitsValue(s: string): nat
    requires forall i :: 0 <= i < |s| ==> IsDigit(s[i])
  {
    if s == [] then 0
    else
      assert IsDigit(s[|s| - 1]);
      10 * DigitsValue(s[..|s| - 1]) + (s[|s| - 1] as int - '0' as int)
  }

  /** `s.parse::<u8>()`: an optional `+`, at least one digit, and a value of at most 255. */
  function ParseU8(s: string): (r: Option<Byte>)
    ensures r.Some? ==> |s| >= 1
  {
    var digits := if |s| >= 1 && s[0] == '+' then s[1..] else s;
    if |digits| >= 1 && (forall i :: 0 <= i < |digits| ==> IsDigit(digits[i])) && DigitsValue(digits) <= 255
    then Some(DigitsValue(digits))
    else None
  }

  /** The builtin colour of each base colour name. */
  function BaseColor(s: string): Option<Color>
  {
    if s == "reset" then Some(Reset)
    else if s == "black" then Some(Black)
    else if s == "dark_grey" then Some(DarkGrey)
    else if s == "red" then Some(Red)
    else if s == "dark_red" then Some(DarkRed)
    else if s == "green" then Some(Green)
    else if s == "dark_green" then Some(DarkGreen)
    else if s == "yellow" then Some(Yellow)
    else if s == "dark_yellow" then Some(DarkYellow)
    else if s == "blue" then Some(Blue)
    else if s == "dark_blue" then Some(DarkBlue)
    else if s == "magenta" then Some(Magenta)
    else if s == "dark_magenta" then Some(DarkMagenta)
    else if s == "cyan" then Some(Cyan)
    else if s == "dark_cyan" then Some(DarkCyan)
    else if s == "white" then Some(White)
    else if s == "grey" then Some(Grey)
    else None
  }

  /** A `#` followed by at least six characters; anything after the sixth is ignored. */
  predicate HexShaped(s: string)
  {
    |s| >= 7 && s[0] == '#'
  }

  /**
   * `color`, resolving `s` while the palette names in `unseen` have not been
   * looked up yet on this chain: a base name takes its palette entry if it
   * has one; then `#rrggbb`; then a decimal `u8`; then any other palette
   * name; and anything else is unknown.
   */
  function Resolve(s: string, palette: map<string, string>, unseen: set<string>): Resolved
    requires unseen <= palette.Keys
    decreases |unseen|
  {
    if BaseColor(s).Some? && s !in palette then Resolved(BaseColor(s).value)
    else if BaseColor(s).None? && HexShaped(s) then
      var r, g, b := HexByte(s[1], s[2]), HexByte(s[3], s[4]), HexByte(s[5], s[6]);
      if r.Some? && g.Some? && b.Some? then Resolved(Rgb(r.value, g.value, b.value)) else BadHex
    else if BaseColor(s).None? && ParseU8(s).Some? then Resolved(AnsiValue(ParseU8(s).value))
    else if s !in palette then UnknownColor
    else if s !in unseen then Diverges
    else Resolve(palette[s], palette, unseen - {s})
  }

  /** `color(s)` against `palette`. */
  function ColorOf(s: string, palette: map<string, string>): Resolved
  {
    Resolve(s, palette, palette.Keys)
  }

  /** `#rrggbb` gives the colour with those hexadecimal channels. */
  lemma {:induction false} HexColor(s: string, palette: map<string, string>, unseen: set<string>)
    requires unseen <= palette.Keys && HexShaped(s)
    requires forall i :: 1 <= i < 7 ==> IsHexDigit(s[i])
    ensures Resolve(s, palette, unseen) == Resolved(Rgb(
      16 * HexValue(s[1]) + HexValue(s[2]),
      16 * HexValue(s[3]) + HexValue(s[4]),
      16 * HexValue(s[5]) + HexValue(s[6])))
  {
    assert BaseColor(s).None? by {
      assert s[0] == '#';
    }
  }

  /** A decimal string with a value up to 255 gives that ANSI colour. */
  lemma {:induction false} DecimalColor(s: string, palette: map<string, string>, unseen: set<string>)
    requires unseen <= palette.Keys && |s| >= 1
    requires forall i :: 0 <= i < |s| ==> IsDigit(s[i])
    requires DigitsValue(s) <= 255
    ensures Resolve(s, palette, unseen) == Resolved(AnsiValue(DigitsValue(s)))
  {
    assert BaseColor(s).None? && !HexShaped(s) by {
      assert IsDigit(s[0]);
    }
  }

  /** A base colour name takes its palette entry when there is one, and the builtin colour otherwise. */
  lemma {:induction false} BaseNameColor(s: string, palette: map<string, string>)
    requires BaseColor(s).Some?
    ensures s !in palette ==> ColorOf(s, palette) == Resolved(BaseColor(s).value)
    ensures s in palette ==> ColorOf(s, palette) == Resolve(palette[s], palette, palette.Keys - {s})
  {
  }

  /** A name that is no colour and not in the palette panics. */
  lemma {:induction false} UnknownName(s: string, palette: map<string, string>, unseen: set<string>)
    requires unseen <= palette.Keys
    requires BaseColor(s).None? && !HexShaped(s) && ParseU8(s).None? && s !in palette
    ensures Resolve(s, palette, unseen) == UnknownColor
  {
  }

  /** A palette entry that resolves to itself never resolves: `color` recurses forever. */
  lemma {:induction false} SelfReferenceDiverges(s: string, palette: map<string, string>)
    requires BaseColor(s).None? && !HexShaped(s) && ParseU8(s).None?
    requires s in palette && palette[s] == s
    ensures ColorOf(s, palette) == Diverges
  {
    assert Resolve(s, palette, palette.Keys) == Resolve(s, palette, palette.Keys - {s});
  }

  /** Every value of a palette made of `#rrggbb` strings, like the builtin one, resolves to an RGB colour. */
  lemma {:induction false} HexPaletteResolves(s: string, palette: map<string, string>)
    requires forall k :: k in palette ==> HexShaped(palette[k]) && forall i :: 1 <= i < 7 ==> IsHexDigit(palette[k][i])
    requires s in palette && BaseColor(s).None? && !HexShaped(s) && ParseU8(s).None?
    ensures ColorOf(s, palette).Resolved? && ColorOf(s, palette).color.Rgb?
  {
    HexColor(palette[s], palette, palette.Keys - {s});
  }

  /** The index of the last `.` in `s`, if any. */
  function LastDot(s: string): (r: Option<nat>)
    ensures r.Some? ==> r.value < |s| && s[r.value] == '.' && forall j :: r.value < j < |s| ==> s[j] != '.'
    ensures r.None? ==> forall j :: 0 <= j < |s| ==> s[j] != '.'
  {
    if s == [] then None
    else if s[|s| - 1] == '.' then Some(|s| - 1)
    else LastDot(s[..|s| - 1])
  }

  /** `rsplit_once('.')`: the part before the last dot. */
  function Broader(s: string): (r: Option<string>)
    ensures r.Some? ==> |r.value| < |s| && r.value + "." <= s
  {
    match LastDot(s)
    case None => None
    case Some(i) => Some(s[..i])
  }

  /** The scopes `try_get` looks at, from the full scope to the broadest one. */
  function Fallbacks(s: string): (r: seq<string>)
    ensures |r| >= 1 && r[0] == s
    decreases |s|
  {
    match Broader(s)
    case None => [s]
    case Some(p) => [s] + Fallbacks(p)
  }

  /** Each fallback after the first is a prefix of the scope that ends right before a dot. */
  lemma {:induction false} FallbacksArePrefixes(s: string)
    ensures forall i :: 0 < i < |Fallbacks(s)| ==> Fallbacks(s)[i] + "." <= s
    decreases |s|
  {
    match Broader(s)
    case None =>
    case Some(p) =>
      FallbacksArePrefixes(p);
      var f := Fallbacks(s);
      assert f[1..] == Fallbacks(p);
      forall i | 1 < i < |f|
        ensures f[i] + "." <= s
      {
        assert f[i] == Fallbacks(p)[i - 1];
        DottedPrefix(f[i], p, s);
      }
  }

  lemma {:induction false} DottedPrefix(a: string, p: string, s: string)
    requires a + "." <= p && p + "." <= s
    ensures a + "." <= s
  {
    assert p <= p + ".";
  }

  /** The fallbacks get strictly shorter. */
  lemma {:induction false} FallbacksShorten(s: string)
    ensures forall i, j :: 0 <= i < j < |Fallbacks(s)| ==> |Fallbacks(s)[j]| < |Fallbacks(s)[i]|
    decreases |s|
  {
    match Broader(s)
    case None =>
    case Some(p) =>
      FallbacksShorten(p);
      var f := Fallbacks(s);
      assert f[1..] == Fallbacks(p);
      FallbacksArePrefixes(p);
      forall i, j | 0 <= i < j < |f|
        ensures |f[j]| < |f[i]|
      {
        assert f[j] == Fallbacks(p)[j - 1];
        if i > 0 {
          assert f[i] == Fallbacks(p)[i - 1];
        } else if j > 1 {
          assert |f[j]| < |p|;
        }
      }
  }

  /** The last fallback has no dot left in it. */
  lemma {:induction false} FallbacksEndUndotted(s: string)
    ensures LastDot(Fallbacks(s)[|Fallbacks(s)| - 1]).None?
    decreases |s|
  {
    match Broader(s)
    case None =>
    case Some(p) =>
      FallbacksEndUndotted(p);
      assert Fallbacks(s)[1..] == Fallbacks(p);
  }

  /** `try_get`: the style of the first of the scope's fallbacks the theme defines. */
  function TryGet(styles: map<string, Style>, scope: string): (r: Option<Style>)
    decreases |scope|
  {
    if scope in styles then Some(styles[scope])
    else match Broader(scope)
      case None => None
      case Some(p) => TryGet(styles, p)
  }

  /**
   * `try_get` finds nothing exactly when no fallback is defined, and
   * otherwise returns the style of the first defined one.
   */
  lemma {:induction false} TryGetFirst(styles: map<string, Style>, scope: string)
    ensures TryGet(styles, scope).None? <==> forall i :: 0 <= i < |Fallbacks(scope)| ==> Fallbacks(scope)[i] !in styles
    ensures TryGet(styles, scope).Some? ==>
      (exists i :: 0 <= i < |Fallbacks(scope)| && FirstDefined(styles, Fallbacks(scope), i)
         && TryGet(styles, scope).value == styles[Fallbacks(scope)[i]])
    decreases |scope|
  {
    if scope !in styles {
      match Broader(scope)
      case None =>
      case Some(p) =>
        TryGetFirst(styles, p);
        var f := Fallbacks(scope);
        assert f[1..] == Fallbacks(p);
        assert forall i :: 0 < i < |f| ==> f[i] == Fallbacks(p)[i - 1];
        assert TryGet(styles, scope) == TryGet(styles, p);
        if TryGet(styles, p).Some? {
          var i :| 0 <= i < |Fallbacks(p)| && FirstDefined(styles, Fallbacks(p), i)
            && TryGet(styles, p).value == styles[Fallbacks(p)[i]];
          assert FirstDefined(styles, f, i + 1);
          assert f[i + 1] in styles;
        } else {
          forall k | 0 < k < |f|
            ensures f[k] !in styles
          {
            assert f[k] == Fallbacks(p)[k - 1];
          }
        }
    } else {
      assert FirstDefined(styles, Fallbacks(scope), 0);
    }
  }

  /** Fallback `i` is defined and none before it is. */
  predicate FirstDefined(styles: map<string, Style>, f: seq<string>, i: nat)
    requires i < |f|
  {
    f[i] in styles && forall j :: 0 <= j < i ==> f[j] !in styles
  }

  /** `get`: the fallback style, or the default style when none is defined. */
  function Get(styles: map<string, Style>, scope: string): (r: Style)
    ensures TryGet(styles, scope).Some? ==> r == TryGet(styles, scope).value
    ensures TryGet(styles, scope).None? ==> r == Default()
  {
    match TryGet(styles, scope)
    case Some(s) => s
    case None => Default()
  }

  /** No scope appears twice among the `theme!` entries. */
  predicate DistinctKeys(entries: seq<(string, Style)>)
  {
    forall i, j :: 0 <= i < j < |entries| ==> entries[i].0 != entries[j].0
  }

  /** `theme!`: the entries inserted in order, a later entry replacing an earlier one with the same scope. */
  function BuildTheme(entries: seq<(string, Style)>): (styles: map<string, Style>)
    ensures forall k :: k in styles <==> exists i :: 0 <= i < |entries| && entries[i].0 == k
    decreases |entries|
  {
    if entries == [] then map[]
    else
      var last := entries[|entries| - 1];
      var before := BuildTheme(entries[..|entries| - 1]);
      assert forall i :: 0 <= i < |entries| - 1 ==> entries[..|entries| - 1][i] == entries[i];
      before[last.0 := last.1]
  }

  /** With distinct scopes, as the macro asserts in debug builds, every entry keeps its own style. */
  lemma {:induction false} BuildThemeKeeps(entries: seq<(string, Style)>, i: nat)
    requires DistinctKeys(entries) && i < |entries|
    ensures BuildTheme(entries)[entries[i].0] == entries[i].1
    decreases |entries|
  {
    var n := |entries| - 1;
    if i < n {
      var init := entries[..n];
      assert DistinctKeys(init) by {
        assert forall a :: 0 <= a < n ==> init[a] == entries[a];
      }
      assert init[i] == entries[i];
      BuildThemeKeeps(init, i);
      assert entries[n].0 != entries[i].0;
    }
  }
}
