/** `print_color`: one console line wrapped in an ANSI Select Graphic
    Rendition colour code and the reset code. The line is returned as the
    text `print` would write, trailing newline included. */
module PrintColor {
  import opened Text

  const Esc: char := 27 as char

  /** The escape sequence `ESC [ <code> m`. */
  function Sgr(code: string): string
  {
    [Esc, '['] + code + "m"
  }

  const Endc := Sgr("0")

  /** The attributes of `BColors`, by name. */
  const Codes: map<string, string> := map[
    "HEADER" := Sgr("95"), "OKBLUE" := Sgr("94"), "OKCYAN" := Sgr("96"),
    "OKGREEN" := Sgr("92"), "WARNING" := Sgr("93"), "ERROR" := Sgr("91"),
    "BOLD" := Sgr("1"), "UNDERLINE" := Sgr("4"), "ENDC" := Endc]

  /** `styles`: every colour name but `ENDC`. */
  const Styles: set<string> := Codes.Keys - {"ENDC"}

  /** The line `print_color(msg, style)` writes. An unknown style prints the
      message plainly; a known one opens with its code and closes with the
      reset code. */
  function PrintColor(msg: string, style: string): (r: string)
    ensures style in Styles ==> r == Codes[style] + msg + Endc + "\n"
    ensures style !in Styles ==> r == msg + "\n"
  {
    var chosen := if style in Styles then style else "";
    var styleStart := if chosen in Codes then Codes[chosen] else "";
    var styleEnd := if chosen != "" then Endc else "";
    styleStart + msg + styleEnd + "\n"
  }

  /** Every colour but `ENDC` is a style, and `ENDC` itself prints plainly. */
  lemma StylesAreColours()
    ensures Styles == {"HEADER", "OKBLUE", "OKCYAN", "OKGREEN", "WARNING", "ERROR", "BOLD", "UNDERLINE"}
    ensures forall msg :: PrintColor(msg, "ENDC") == msg + "\n"
    ensures forall msg :: PrintColor(msg, "") == msg + "\n"
  {
  }

  /** The message always appears whole on the line. */
  lemma MessageIntact(msg: string, style: string)
    ensures Contains(PrintColor(msg, style), msg)
  {
    if style in Styles {
      ContainsInfix(Codes[style], msg, Endc + "\n");
      assert Codes[style] + msg + Endc + "\n" == Codes[style] + msg + (Endc + "\n");
    } else {
      ContainsInfix([], msg, "\n");
      assert [] + msg + "\n" == msg + "\n";
    }
  }

  /** The line is the plain message exactly when the style is unknown. */
  lemma PlainIffUnknown(msg: string, style: string)
    ensures PrintColor(msg, style) == msg + "\n" <==> style !in Styles
  {
    if style in Styles {
      assert |PrintColor(msg, style)| > |msg + "\n"|;
    }
  }

  /** A styled line ends with the reset code, so the colour never leaks into
      later output. */
  lemma StyledLineResets(msg: string, style: string)
    requires style in Styles
    ensures var r := PrintColor(msg, style); r[|r| - 5..] == Endc + "\n" && r[0] == Esc
  {
  }

  /** Distinct styles give distinct lines. */
  lemma StylesDistinguishable(msg: string, a: string, b: string)
    requires a in Styles && b in Styles && a != b
    ensures PrintColor(msg, a) != PrintColor(msg, b)
  {
    var ra, rb := PrintColor(msg, a), PrintColor(msg, b);
    assert Codes[a][2] != Codes[b][2] || (|Codes[a]| == |Codes[b]| == 5 && Codes[a][3] != Codes[b][3]);
    if Codes[a][2] != Codes[b][2] {
      assert ra[2] != rb[2];
    } else {
      assert ra[3] != rb[3];
    }
  }
}
