/**
 * Text styles (`ui/style.rs`): optional colours and underline, plus two
 * modifier sets — flags to switch on and flags to switch off. Patching one
 * style with another layers the second on top of the first.
 */
module Styles {
  import opened Base

  /** The terminal colours a style can name. */
  datatype Color =
    | Reset | Black | DarkGrey | Red | DarkRed | Green | DarkGreen | Yellow | DarkYellow
    | Blue | DarkBlue | Magenta | DarkMagenta | Cyan | DarkCyan | White | Grey
    | Rgb(r: Byte, g: Byte, b: Byte)
    | AnsiValue(n: Byte)

  datatype UnderlineStyle = UnderlineReset | Line | Curl | Dotted | Dashed | DoubleLine

  /** The eight bits of `Modifier`. */
  datatype Flag = Bold | Dim | Italic | SlowBlink | RapidBlink | Reversed | Hidden | CrossedOut

  /** A `Modifier` bit set, as the set of its flags. */
  type Modifier = set<Flag>

  /** `Modifier::all()`. */
  const ALL: Modifier := {Bold, Dim, Italic, SlowBlink, RapidBlink, Reversed, Hidden, CrossedOut}

  /** `Modifier::all()` holds every flag. */
  lemma {:induction false} AllFlags(f: Flag)
    ensures f in ALL
  {
  }

  /** The name `Modifier::from_str` accepts for each flag. */
  function FlagName(f: Flag): string
  {
    match f
    case Bold => "bold"
    case Dim => "dim"
    case Italic => "italic"
    case SlowBlink => "blink"
    case RapidBlink => "bblink"
    case Reversed => "rev"
    case Hidden => "hidden"
    case CrossedOut => "strike"
  }

  /** `Modifier::from_str`: one of the eight names, or an error. */
  function ParseModifier(s: string): (r: Option<Modifier>)
    ensures r.Some? ==> |r.value| == 1
  {
    if s == "bold" then Some({Bold})
    else if s == "dim" then Some({Dim})
    else if s == "italic" then Some({Italic})
    else if s == "blink" then Some({SlowBlink})
    else if s == "bblink" then Some({RapidBlink})
    else if s == "rev" then Some({Reversed})
    else if s == "hidden" then Some({Hidden})
    else if s == "strike" then Some({CrossedOut})
    else None
  }

  /** Exactly the eight flag names parse, each to its own flag. */
  lemma {:induction false} ParseModifierExactly(s: string)
    ensures ParseModifier(s).Some? <==> exists f :: FlagName(f) == s
    ensures forall f :: FlagName(f) == s ==> ParseModifier(s) == Some({f})
  {
    if ParseModifier(s).Some? {
      var f :| f in ParseModifier(s).value;
      assert FlagName(f) == s;
    }
  }

  /** The name `UnderlineStyle::from_str` accepts for each style. */
  function UnderlineName(u: UnderlineStyle): string
  {
    match u
    case UnderlineReset => "reset"
    case Line => "line"
    case Curl => "curl"
    case Dotted => "dot"
    case Dashed => "dash"
    case DoubleLine => "double"
  }

  /** `UnderlineStyle::from_str`: one of the six names, or an error. */
  function ParseUnderline(s: string): (r: Option<UnderlineStyle>)
    ensures r.Some? ==> UnderlineName(r.value) == s
  {
    if s == "reset" then Some(UnderlineReset)
    else if s == "line" then Some(Line)
    else if s == "curl" then Some(Curl)
    else if s == "dot" then Some(Dotted)
    else if s == "dash" then Some(Dashed)
    else if s == "double" then Some(DoubleLine)
    else None
  }

  /** Exactly the six underline names parse. */
  lemma {:induction false} ParseUnderlineExactly(s: string)
    ensures ParseUnderline(s).Some? <==> exists u :: UnderlineName(u) == s
    ensures forall u :: UnderlineName(u) == s ==> ParseUnderline(s) == Some(u)
  {
    if ParseUnderline(s).Some? {
      assert UnderlineName(ParseUnderline(s).value) == s;
    }
  }

  datatype Style = Style(
    fg: Option<Color>,
    bg: Option<Color>,
    underlineColor: Option<Color>,
    underlineStyle: Option<UnderlineStyle>,
    addModifier: Modifier,
    subModifier: Modifier)

  /** No flag is both switched on and switched off. */
  predicate Disjoint(s: Style)
  {
    s.addModifier !! s.subModifier
  }

  /** `Style::default()`: nothing set. */
  function Default(): (s: Style)
    ensures Disjoint(s)
    ensures s.fg.None? && s.bg.None? && s.underlineColor.None? && s.underlineStyle.None?
    ensures s.addModifier == {} && s.subModifier == {}
  {
    Style(None, None, None, None, {}, {})
  }

  /** `Style::reset()`: reset colours and every flag switched off. */
  function ResetStyle(): (s: Style)
    ensures Disjoint(s)
    ensures s.fg == Some(Reset) && s.bg == Some(Reset)
    ensures s.underlineColor.None? && s.underlineStyle.None?
    ensures s.addModifier == {} && s.subModifier == ALL
  {
    Style(Some(Reset), Some(Reset), None, None, {}, ALL)
  }

  /** `add_modifier`: the flags are switched on and no longer switched off. */
  function AddModifier(s: Style, m: Modifier): (r: Style)
    ensures Disjoint(s) ==> Disjoint(r)
    ensures m <= r.addModifier && m !! r.subModifier
    ensures forall f :: f !in m ==> (f in r.addModifier <==> f in s.addModifier) && (f in r.subModifier <==> f in s.subModifier)
    ensures r.(addModifier := s.addModifier, subModifier := s.subModifier) == s
  {
    s.(subModifier := s.subModifier - m, addModifier := s.addModifier + m)
  }

  /** `remove_modifier`: the flags are switched off and no longer switched on. */
  function RemoveModifier(s: Style, m: Modifier): (r: Style)
    ensures Disjoint(s) ==> Disjoint(r)
    ensures m <= r.subModifier && m !! r.addModifier
    ensures forall f :: f !in m ==> (f in r.addModifier <==> f in s.addModifier) && (f in r.subModifier <==> f in s.subModifier)
    ensures r.(addModifier := s.addModifier, subModifier := s.subModifier) == s
  {
    s.(addModifier := s.addModifier - m, subModifier := s.subModifier + m)
  }

  /** `Option::or`: the first if present, the second otherwise. */
  function Or<T>(a: Option<T>, b: Option<T>): (r: Option<T>)
    ensures r == (if a.Some? then a else b)
  {
    if a.Some? then a else b
  }

  /**
   * `patch`: `o` layered on top of `s`. Each field `o` sets wins; a flag `o`
   * switches on is on, a flag `o` switches off is off, and every other flag
   * keeps its state in `s`.
   */
  function Patch(s: Style, o: Style): (r: Style)
    ensures r.fg == Or(o.fg, s.fg) && r.bg == Or(o.bg, s.bg)
    ensures r.underlineColor == Or(o.underlineColor, s.underlineColor)
    ensures r.underlineStyle == Or(o.underlineStyle, s.underlineStyle)
    ensures forall f :: f in r.addModifier <==> f in o.addModifier || (f in s.addModifier && f !in o.subModifier)
    ensures forall f :: f in r.subModifier <==> f in o.subModifier || (f in s.subModifier && f !in o.addModifier)
  {
    Style(
      Or(o.fg, s.fg), Or(o.bg, s.bg), Or(o.underlineColor, s.underlineColor),
      Or(o.underlineStyle, s.underlineStyle),
      (s.addModifier - o.subModifier) + o.addModifier,
      (s.subModifier - o.addModifier) + o.subModifier)
  }

  /** Patching two styles that never switch a flag both on and off keeps that so. */
  lemma {:induction false} PatchDisjoint(s: Style, o: Style)
    requires Disjoint(s) && Disjoint(o)
    ensures Disjoint(Patch(s, o))
  {
  }

  /** The default style is a left and right identity of `patch`. */
  lemma {:induction false} PatchIdentity(s: Style)
    ensures Patch(s, Default()) == s && Patch(Default(), s) == s
  {
    assert Patch(s, Default()).addModifier == s.addModifier;
    assert Patch(Default(), s).subModifier == s.subModifier;
  }

  /** Layering is associative, so a stack of styles can be folded from either end. */
  lemma {:induction false} PatchAssociative(a: Style, b: Style, c: Style)
    ensures Patch(Patch(a, b), c) == Patch(a, Patch(b, c))
  {
    var l, r := Patch(Patch(a, b), c), Patch(a, Patch(b, c));
    assert l.addModifier == r.addModifier;
    assert l.subModifier == r.subModifier;
  }

  /** Patching with the reset style resets the colours and switches every flag off. */
  lemma {:induction false} PatchReset(s: Style)
    ensures var r := Patch(s, ResetStyle());
      r.fg == Some(Reset) && r.bg == Some(Reset) && r.addModifier == {} && r.subModifier == ALL
      && r.underlineColor == s.underlineColor && r.underlineStyle == s.underlineStyle
  {
    var r := Patch(s, ResetStyle());
    forall f | f in r.addModifier || f in s.subModifier
      ensures f in ALL
    {
      AllFlags(f);
    }
    assert r.addModifier == {};
    assert r.subModifier == ALL;
  }
}
