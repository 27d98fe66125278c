/** The colour palette and the shades derived from the user's accent:
    a lighter and a darker variant (each channel moved by 30 and clamped to
    0..255) and two translucent variants, and the priority style picked
    from them. */
module Colors {
  import opened Wrappers
  import opened Text
  import opened HexColor
  import opened Database

  const GrayLight := "#A3A3A3"
  const GrayDark := "#525252"

  /** One colour channel as the shade generator computes it; None is NaN,
      which `parseInt` gives for a slice without hex digits. */
  type Channel = Option<int>

  /** A CSS colour value: hex text, `rgb(r, g, b)` or `rgba(r, g, b, a)`
      (the alpha is kept as the literal text written in the source). */
  datatype Css =
    | Hex(text: string)
    | Rgb(r: Channel, g: Channel, b: Channel)
    | Rgba(r: Channel, g: Channel, b: Channel, alpha: string)

  /** `Math.min(255, c + 30)`; NaN stays NaN. */
  function Lighten(c: Channel): Channel {
    match c
    case None => None
    case Some(v) => Some(if v + 30 < 255 then v + 30 else 255)
  }

  /** `Math.max(0, c - 30)`; NaN stays NaN. */
  function Darken(c: Channel): Channel {
    match c
    case None => None
    case Some(v) => Some(if v - 30 > 0 then v - 30 else 0)
  }

  datatype Shades = Shades(accent: string, accentLight: Css, accentDark: Css, accentAlpha10: Css, accentAlpha20: Css)

  /** The red, green and blue channels of a '#rrggbb' string. */
  function ParseChannels(hex: string): (Channel, Channel, Channel) {
    (ParseIntHex(Slice(hex, 1, 3)), ParseIntHex(Slice(hex, 3, 5)), ParseIntHex(Slice(hex, 5, 7)))
  }

  /** A channel of a valid colour, lightened and darkened: all three stay
      in 0..255 and the original lies between the dark and light shade. */
  predicate ShadedChannel(c: Channel, light: Channel, dark: Channel, v: int) {
    && c == Some(v)
    && light.Some? && dark.Some?
    && 0 <= dark.value <= v <= light.value <= 255
    && light.value == (if v + 30 <= 255 then v + 30 else 255)
    && dark.value == (if v >= 30 then v - 30 else 0)
  }

  /** `generateShades(hex)`. */
  function GenerateShades(hex: string): (s: Shades)
    ensures s.accent == hex
    ensures s.accentAlpha20.Rgba? && s.accentAlpha20.alpha == "0.20"
    ensures s.accentAlpha10 == Rgba(s.accentAlpha20.r, s.accentAlpha20.g, s.accentAlpha20.b, "0.10")
    ensures s.accentLight == Rgb(Lighten(s.accentAlpha20.r), Lighten(s.accentAlpha20.g), Lighten(s.accentAlpha20.b))
    ensures s.accentDark == Rgb(Darken(s.accentAlpha20.r), Darken(s.accentAlpha20.g), Darken(s.accentAlpha20.b))
  {
    var (r, g, b) := ParseChannels(hex);
    Shades(
      hex,
      Rgb(Lighten(r), Lighten(g), Lighten(b)),
      Rgb(Darken(r), Darken(g), Darken(b)),
      Rgba(r, g, b, "0.10"),
      Rgba(r, g, b, "0.20"))
  }

  /** On a valid colour the three channels are the bytes its digit pairs
      write (characters 1-2, 3-4 and 5-6), and each light and dark shade
      is that byte moved by 30 and clamped to 0..255. */
  lemma ShadesOfValidHex(hex: string)
    requires IsHexColor(hex)
    ensures var s := GenerateShades(hex);
      && ShadedChannel(s.accentAlpha20.r, s.accentLight.r, s.accentDark.r, PairValue(hex, 1))
      && ShadedChannel(s.accentAlpha20.g, s.accentLight.g, s.accentDark.g, PairValue(hex, 3))
      && ShadedChannel(s.accentAlpha20.b, s.accentLight.b, s.accentDark.b, PairValue(hex, 5))
  {
    ParseChannel(hex, 1);
    ParseChannel(hex, 3);
    ParseChannel(hex, 5);
  }

  /** Low, medium and high in increasing order. */
  function PriorityRank(p: Priority): int {
    match p
    case Low => 0
    case Medium => 1
    case High => 2
  }

  /** Channel `i` (1 for red, 3 for green, 5 for blue) of a colour value;
      hex text is read the way the shade generator reads it. */
  function CssChannel(c: Css, i: int): Channel
    requires i == 1 || i == 3 || i == 5
  {
    match c
    case Hex(t) => ParseIntHex(Slice(t, i, i + 2))
    case Rgb(r, g, b) => if i == 1 then r else if i == 3 then g else b
    case Rgba(r, g, b, _) => if i == 1 then r else if i == 3 then g else b
  }

  /** The dot and background colours of a priority badge. */
  datatype PriorityStyle = PriorityStyle(dot: Css, bg: Css)

  /** The gray style for a priority string outside low/medium/high. */
  const FallbackStyle := PriorityStyle(Hex(GrayLight), Rgba(Some(163), Some(163), Some(163), "0.10"))

  /** `getPriorityStyle(priority, shades)`, on the priority text as it
      arrives at run time. */
  function GetPriorityStyle(priority: string, shades: Shades): (st: PriorityStyle)
    ensures priority == "low" ==> st == PriorityStyle(shades.accentLight, shades.accentAlpha10)
    ensures priority == "medium" ==> st == PriorityStyle(Hex(shades.accent), shades.accentAlpha20)
    ensures priority == "high" ==> st == PriorityStyle(shades.accentDark, shades.accentAlpha20)
    ensures priority != "low" && priority != "medium" && priority != "high" ==> st == FallbackStyle
  {
    if priority == "low" then PriorityStyle(shades.accentLight, shades.accentAlpha10)
    else if priority == "medium" then PriorityStyle(Hex(shades.accent), shades.accentAlpha20)
    else if priority == "high" then PriorityStyle(shades.accentDark, shades.accentAlpha20)
    else FallbackStyle
  }

  /** The fallback background is grayLight itself at 10% opacity. */
  lemma FallbackIsGrayLight()
    ensures ParseChannels(GrayLight) == (FallbackStyle.bg.r, FallbackStyle.bg.g, FallbackStyle.bg.b)
  {
    assert IsHexColor(GrayLight);
    ParseChannel(GrayLight, 1);
    ParseChannel(GrayLight, 3);
    ParseChannel(GrayLight, 5);
  }

  /** A stored priority never falls back to gray, and on a valid accent a
      higher priority gets a dot no lighter in any channel: low's dot is
      the light shade, medium's the accent itself, high's the dark shade. */
  lemma PriorityDotsDarkenWithPriority(p: Priority, q: Priority, hex: string, i: int)
    requires IsHexColor(hex) && (i == 1 || i == 3 || i == 5)
    requires PriorityRank(p) <= PriorityRank(q)
    ensures var s := GenerateShades(hex);
      var dp := CssChannel(GetPriorityStyle(PriorityName(p), s).dot, i);
      var dq := CssChannel(GetPriorityStyle(PriorityName(q), s).dot, i);
      && GetPriorityStyle(PriorityName(p), s) != FallbackStyle
      && dp.Some? && dq.Some? && 0 <= dq.value <= dp.value <= 255
  {
    DotChannels(hex, i);
  }

  /** Channel `i` of each priority's dot on a valid accent: the byte the
      digits write, moved up by 30 for low and down by 30 for high. */
  lemma DotChannels(hex: string, i: int)
    requires IsHexColor(hex) && (i == 1 || i == 3 || i == 5)
    ensures var s := GenerateShades(hex);
      var v := PairValue(hex, i);
      && CssChannel(GetPriorityStyle("low", s).dot, i) == Some(if v + 30 <= 255 then v + 30 else 255)
      && CssChannel(GetPriorityStyle("medium", s).dot, i) == Some(v)
      && CssChannel(GetPriorityStyle("high", s).dot, i) == Some(if v >= 30 then v - 30 else 0)
  {
    LowDot(hex, i);
    MediumDot(hex, i);
    HighDot(hex, i);
  }

  lemma LowDot(hex: string, i: int)
    requires IsHexColor(hex) && (i == 1 || i == 3 || i == 5)
    ensures var v := PairValue(hex, i);
      CssChannel(GetPriorityStyle("low", GenerateShades(hex)).dot, i) == Some(if v + 30 <= 255 then v + 30 else 255)
  {
    var s := GenerateShades(hex);
    assert GetPriorityStyle("low", s).dot == s.accentLight;
    ShadedChannelOf(hex, i);
    LightChannel(s, i);
  }

  lemma MediumDot(hex: string, i: int)
    requires IsHexColor(hex) && (i == 1 || i == 3 || i == 5)
    ensures CssChannel(GetPriorityStyle("medium", GenerateShades(hex)).dot, i) == Some(PairValue(hex, i))
  {
    ParseChannel(hex, i);
  }

  lemma HighDot(hex: string, i: int)
    requires IsHexColor(hex) && (i == 1 || i == 3 || i == 5)
    ensures var v := PairValue(hex, i);
      CssChannel(GetPriorityStyle("high", GenerateShades(hex)).dot, i) == Some(if v >= 30 then v - 30 else 0)
  {
    var s := GenerateShades(hex);
    assert GetPriorityStyle("high", s).dot == s.accentDark;
    ShadedChannelOf(hex, i);
    DarkChannel(s, i);
  }

  /** The light and dark shades are built channel by channel. */
  lemma LightChannel(s: Shades, i: int)
    requires i == 1 || i == 3 || i == 5
    requires s.accentAlpha20.Rgba?
    requires s.accentLight == Rgb(Lighten(s.accentAlpha20.r), Lighten(s.accentAlpha20.g), Lighten(s.accentAlpha20.b))
    ensures CssChannel(s.accentLight, i) == Lighten(ChannelOf(s.accentAlpha20, i))
  {
  }

  lemma DarkChannel(s: Shades, i: int)
    requires i == 1 || i == 3 || i == 5
    requires s.accentAlpha20.Rgba?
    requires s.accentDark == Rgb(Darken(s.accentAlpha20.r), Darken(s.accentAlpha20.g), Darken(s.accentAlpha20.b))
    ensures CssChannel(s.accentDark, i) == Darken(ChannelOf(s.accentAlpha20, i))
  {
  }

  /** The channel `i` of an rgb/rgba value. */
  function ChannelOf(c: Css, i: int): Channel
    requires i == 1 || i == 3 || i == 5
  {
    if c.Hex? then None else if i == 1 then c.r else if i == 3 then c.g else c.b
  }

  /** The translucent shade carries the byte the digits write, per channel. */
  lemma ShadedChannelOf(hex: string, i: int)
    requires IsHexColor(hex) && (i == 1 || i == 3 || i == 5)
    ensures ChannelOf(GenerateShades(hex).accentAlpha20, i) == Some(PairValue(hex, i))
  {
    ShadesOfValidHex(hex);
  }

  /** `categoryColors`: the colours offered for a new category. */
  const CategoryColors: seq<string> := [
    GrayLight, GrayDark, "#6B7280", "#9CA3AF", "#D1D5DB", "#F3F4F6", "#E5E7EB", "#F9FAFB"
  ]

  /** `DEFAULT_ACCENT_HEX`. */
  const DefaultAccentHex := "#6366F1"

  /** The category palette has eight distinct valid colours, grayLight
      first and grayDark second. */
  lemma CategoryColorsShape()
    ensures |CategoryColors| == 8
    ensures CategoryColors[0] == GrayLight && CategoryColors[1] == GrayDark
    ensures forall i :: 0 <= i < |CategoryColors| ==> IsHexColor(CategoryColors[i])
    ensures forall i, j :: 0 <= i < j < |CategoryColors| ==> CategoryColors[i] != CategoryColors[j]
  {
  }
}
