/**
 * The text the block shows for the selected monitor: one of four fixed
 * format templates, chosen by the `resolution` and `icons` options, with its
 * placeholders replaced by the monitor's values.
 */
module Templates {
  import opened Strings
  import opened Monitors

  /** The placeholders the block fills in. */
  datatype Placeholder =
    | Name            // {display}
    | Brightness      // {brightness}
    | BrightnessIcon  // {brightness_icon}
    | Resolution      // {resolution}
    | ResIcon         // {res_icon}

  /** A format template: literal text and placeholders, in order. */
  datatype Piece = Lit(text: string) | Var(placeholder: Placeholder)

  /** How a placeholder is written in a format string. */
  function Spelling(p: Placeholder): string {
    match p
    case Name => "{display}"
    case Brightness => "{brightness}"
    case BrightnessIcon => "{brightness_icon}"
    case Resolution => "{resolution}"
    case ResIcon => "{res_icon}"
  }

  /** The format string a template is read from. */
  function FormatString(t: seq<Piece>): string {
    if t == [] then ""
    else (match t[0] case Lit(s) => s case Var(p) => Spelling(p)) + FormatString(t[1..])
  }

  /** The placeholders a template mentions. */
  function Mentions(t: seq<Piece>): set<Placeholder> {
    if t == [] then {}
    else (match t[0] case Lit(_) => {} case Var(p) => {p}) + Mentions(t[1..])
  }

  // The four templates; the two with the resolution extend the two without.
  const PlainTemplate: seq<Piece> := [Var(Name), Lit(": "), Var(Brightness)]
  const ResolutionTemplate: seq<Piece> := PlainTemplate + ResolutionSuffix
  const ResolutionSuffix: seq<Piece> := [Lit(" ["), Var(Resolution), Lit("]")]
  const IconTemplate: seq<Piece> := [Var(Name), Lit(" "), Var(BrightnessIcon), Lit(" "), Var(Brightness)]
  const FullTemplate: seq<Piece> := IconTemplate + IconResolutionSuffix
  const IconResolutionSuffix: seq<Piece> := [Lit(" "), Var(ResIcon), Lit(" "), Var(Resolution)]

  /** The template `display` picks for the `resolution` and `icons` options. */
  function FormatFor(resolution: bool, icons: bool): seq<Piece> {
    if resolution then
      if icons then FullTemplate else ResolutionTemplate
    else if icons then IconTemplate
    else PlainTemplate
  }

  /**
   * The name and the brightness are always shown; the resolution only with
   * the resolution option, the icons only with the icons option.
   */
  lemma FormatForMentions(resolution: bool, icons: bool)
    ensures Mentions(FormatFor(resolution, icons)) ==
      {Name, Brightness} +
      (if resolution then {Resolution} else {}) +
      (if icons then {BrightnessIcon} else {}) +
      (if resolution && icons then {ResIcon} else {})
  {
    if resolution {
      if icons { FullMentions(); } else { ResolutionMentions(); }
    } else if icons {
      IconMentions();
    } else {
      PlainMentions();
    }
  }

  lemma FullMentions()
    ensures Mentions(FullTemplate) == {Name, BrightnessIcon, Brightness, ResIcon, Resolution}
  {
    MentionsAppend(IconTemplate, IconResolutionSuffix);
    IconMentions();
  }

  lemma ResolutionMentions()
    ensures Mentions(ResolutionTemplate) == {Name, Brightness, Resolution}
  {
    MentionsAppend(PlainTemplate, ResolutionSuffix);
    PlainMentions();
  }

  lemma IconMentions()
    ensures Mentions(IconTemplate) == {Name, BrightnessIcon, Brightness}
  {
  }

  lemma PlainMentions()
    ensures Mentions(PlainTemplate) == {Name, Brightness}
  {
  }

  /** The placeholders of two templates one after the other. */
  lemma {:induction false} MentionsAppend(t: seq<Piece>, u: seq<Piece>)
    ensures Mentions(t + u) == Mentions(t) + Mentions(u)
  {
    if t == [] {
      assert t + u == u;
    } else {
      assert (t + u)[1..] == t[1..] + u;
      MentionsAppend(t[1..], u);
    }
  }

  /** `FormatString` takes a template piece by piece. */
  lemma FormatStringPieceByPiece(t: seq<Piece>)
    requires t != []
    ensures FormatString(t) == FormatString([t[0]]) + FormatString(t[1..])
  {
    assert [t[0]][1..] == [];
  }

  /** `Render` takes a template piece by piece. */
  lemma RenderPieceByPiece(t: seq<Piece>, v: Values)
    requires t != []
    ensures Render(t, v) == Render([t[0]], v) + Render(t[1..], v)
  {
    assert [t[0]][1..] == [];
  }

  /** The template of each option pair is read from the format string `display` gives for it. */
  lemma FormatForStrings(resolution: bool, icons: bool)
    ensures resolution && icons ==>
      FormatString(FormatFor(resolution, icons)) == "{display} {brightness_icon} {brightness} {res_icon} {resolution}"
    ensures resolution && !icons ==> FormatString(FormatFor(resolution, icons)) == "{display}: {brightness} [{resolution}]"
    ensures !resolution && icons ==> FormatString(FormatFor(resolution, icons)) == "{display} {brightness_icon} {brightness}"
    ensures !resolution && !icons ==> FormatString(FormatFor(resolution, icons)) == "{display}: {brightness}"
  {
    if resolution && icons {
      FullTemplateString();
    } else if resolution {
      ResolutionTemplateString();
    } else if icons {
      IconTemplateString();
    } else {
      PlainTemplateString();
    }
  }

  lemma PlainTemplateString()
    ensures FormatString(PlainTemplate) == "{display}: {brightness}"
  {
  }

  lemma ResolutionTemplateString()
    ensures FormatString(ResolutionTemplate) == "{display}: {brightness} [{resolution}]"
  {
    FormatStringAppend(PlainTemplate, ResolutionSuffix);
    PlainTemplateString();
    assert FormatString(ResolutionSuffix) == " [{resolution}]";
    ResolutionLiteral();
  }

  // Literal concatenations are separate lemmas, so that the solver does not unfold string literals in the callers.
  lemma ResolutionLiteral()
    ensures "{display}: {brightness}" + " [{resolution}]" == "{display}: {brightness} [{resolution}]"
  {
  }

  lemma IconTemplateString()
    ensures FormatString(IconTemplate) == "{display} {brightness_icon} {brightness}"
  {
    var t := IconTemplate;
    FormatStringPieceByPiece(t);
    FormatStringPieceByPiece(t[1..]);
    FormatStringPieceByPiece(t[1..][1..]);
    FormatStringPieceByPiece(t[1..][1..][1..]);
    assert t[1..][1..][1..][1..] == [Var(Brightness)];
    assert FormatString(t) == "{display}" + " " + "{brightness_icon}" + " " + "{brightness}";
    IconLiteral();
  }

  // A literal fact, kept apart so that the solver does not unfold the literal in the caller.
  lemma IconLiteral()
    ensures "{display}" + " " + "{brightness_icon}" + " " + "{brightness}" == "{display} {brightness_icon} {brightness}"
  {
  }

  // A literal fact, kept apart so that the solver does not unfold the literal in the caller.
  lemma FullLiteral()
    ensures "{display} {brightness_icon} {brightness}" + " {res_icon} {resolution}" ==
      "{display} {brightness_icon} {brightness} {res_icon} {resolution}"
  {
  }

  lemma FullTemplateString()
    ensures FormatString(FullTemplate) == "{display} {brightness_icon} {brightness} {res_icon} {resolution}"
  {
    FormatStringAppend(IconTemplate, IconResolutionSuffix);
    IconTemplateString();
    ResolutionTailString(IconResolutionSuffix);
    FullLiteral();
  }

  lemma ResolutionTailString(tail: seq<Piece>)
    requires tail == [Lit(" "), Var(ResIcon), Lit(" "), Var(Resolution)]
    ensures FormatString(tail) == " {res_icon} {resolution}"
  {
    FormatStringPieceByPiece(tail);
    FormatStringPieceByPiece(tail[1..]);
    FormatStringPieceByPiece(tail[1..][1..]);
    assert tail[1..][1..][1..] == [Var(Resolution)];
    assert FormatString(tail) == " " + "{res_icon}" + " " + "{resolution}";
    TailLiteral();
  }

  // A literal fact, kept apart so that the solver does not unfold the literal in the caller.
  lemma TailLiteral()
    ensures " " + "{res_icon}" + " " + "{resolution}" == " {res_icon} {resolution}"
  {
  }

  /** The format string of two templates one after the other. */
  lemma {:induction false} FormatStringAppend(t: seq<Piece>, u: seq<Piece>)
    ensures FormatString(t + u) == FormatString(t) + FormatString(u)
  {
    if t == [] {
      assert t + u == u;
    } else {
      assert (t + u)[1..] == t[1..] + u;
      FormatStringAppend(t[1..], u);
    }
  }

  /** The rendering of two templates one after the other. */
  lemma {:induction false} RenderAppend(t: seq<Piece>, u: seq<Piece>, v: Values)
    ensures Render(t + u, v) == Render(t, v) + Render(u, v)
  {
    if t == [] {
      assert t + u == u;
    } else {
      assert (t + u)[1..] == t[1..] + u;
      RenderAppend(t[1..], u, v);
    }
  }

  /** The values substituted for the placeholders. */
  datatype Values = Values(display: string, brightness: string, brightnessIcon: string, resolution: string, resIcon: string)

  function Lookup(v: Values, p: Placeholder): string {
    match p
    case Name => v.display
    case Brightness => v.brightness
    case BrightnessIcon => v.brightnessIcon
    case Resolution => v.resolution
    case ResIcon => v.resIcon
  }

  /** A theme icon, trimmed, or `""` when the theme has none. */
  function IconOrEmpty(themeIcons: map<string, string>, key: string): (s: string)
    ensures key !in themeIcons ==> s == ""
    ensures key in themeIcons ==> s == Trim(themeIcons[key])
  {
    Trim(if key in themeIcons then themeIcons[key] else "")
  }

  /** The values `display` builds for a monitor. */
  function ValuesOf(m: Monitor, themeIcons: map<string, string>): Values {
    Values(m.name, NatToString(m.brightness), IconOrEmpty(themeIcons, "backlight_full"),
           m.resolution, IconOrEmpty(themeIcons, "resolution"))
  }

  /** `render_static_str`: every placeholder replaced by its value. */
  function Render(t: seq<Piece>, v: Values): string {
    if t == [] then ""
    else (match t[0] case Lit(s) => s case Var(p) => Lookup(v, p)) + Render(t[1..], v)
  }

  /** The rendered text depends only on the values of the placeholders the template mentions. */
  lemma {:induction false} RenderReadsMentioned(t: seq<Piece>, v: Values, w: Values)
    requires forall p :: p in Mentions(t) ==> Lookup(v, p) == Lookup(w, p)
    ensures Render(t, v) == Render(t, w)
  {
    if t != [] {
      assert forall k :: 0 <= k < |t[1..]| ==> t[1..][k] == t[k + 1];
      assert Mentions(t[1..]) <= Mentions(t);
      if t[0].Var? {
        assert t[0].placeholder in Mentions(t);
      }
      RenderReadsMentioned(t[1..], v, w);
    }
  }

  /** Without the icons option the theme's icons never reach the text. */
  lemma IconsUnusedWithoutIconsOption(resolution: bool, v: Values, brightnessIcon: string, resIcon: string)
    ensures Render(FormatFor(resolution, false), v) ==
      Render(FormatFor(resolution, false), v.(brightnessIcon := brightnessIcon, resIcon := resIcon))
  {
    FormatForMentions(resolution, false);
    RenderReadsMentioned(FormatFor(resolution, false), v, v.(brightnessIcon := brightnessIcon, resIcon := resIcon));
  }

  /** Without the resolution option the resolution never reaches the text. */
  lemma ResolutionUnusedWithoutResolutionOption(icons: bool, v: Values, resolution: string)
    ensures Render(FormatFor(false, icons), v) == Render(FormatFor(false, icons), v.(resolution := resolution))
  {
    FormatForMentions(false, icons);
    RenderReadsMentioned(FormatFor(false, icons), v, v.(resolution := resolution));
  }

  /** With neither option the text is `<name>: <brightness>`. */
  lemma PlainText(v: Values)
    ensures Render(FormatFor(false, false), v) == v.display + ": " + v.brightness
  {
    var t := FormatFor(false, false);
    RenderPieceByPiece(t, v);
    RenderPieceByPiece(t[1..], v);
    assert t[1..][1..][1..] == [];
    assert Render(t[1..][1..], v) == v.brightness;
  }

  /** With the resolution option only, the text is `<name>: <brightness> [<resolution>]`. */
  lemma ResolutionText(v: Values)
    ensures Render(FormatFor(true, false), v) == v.display + ": " + v.brightness + " [" + v.resolution + "]"
  {
    RenderAppend(PlainTemplate, ResolutionSuffix, v);
    PlainText(v);
    var u := ResolutionSuffix;
    RenderPieceByPiece(u, v);
    RenderPieceByPiece(u[1..], v);
    assert u[1..][1..] == [Lit("]")];
    assert Render(u, v) == " [" + v.resolution + "]";
  }
}
