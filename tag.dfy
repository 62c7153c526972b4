/**
 * The tag `get_tag` puts in front of every message: the timestamp and the
 * severity label, wrapped in colour codes when the logger's colour flag is
 * set. The timestamp, which the source takes from the clock, is a parameter.
 */
module Tag {
  import opened ColorFilter

  const Info := 0
  const Warning := 1
  const Error := 2
  const Fatal := 3

  /** The `tags` map; a level without an entry reads as the empty string. */
  function Label(level: int): string {
    if level == Info then "[info] "
    else if level == Warning then "[warning] "
    else if level == Error then "[error] "
    else if level == Fatal then "[fatal] "
    else ""
  }

  const White := "\U{1B}[0m"
  const Green := "\U{1B}[38;2;82;116;67m"
  const LightGreen := "\U{1B}[38;2;169;193;157m"
  const Yellow := "\U{1B}[38;2;205;192;0m"
  const LightYellow := "\U{1B}[38;2;254;242;120m"
  const Red := "\U{1B}[38;2;188;19;26m"
  const LightRed := "\U{1B}[38;2;246;126;115m"

  /**
   * `this.get_tag(level, color)` for a logger whose colour flag is `isColor`,
   * with `timestamp` standing for the formatted clock reading. The `color`
   * argument is accepted and never read, as in the source.
   */
  function GetTag(isColor: bool, level: int, color: bool, timestamp: string): (tag: string) {
    if isColor && level == Info then Green + timestamp + LightGreen + Label(Info) + White
    else if isColor && level == Warning then Yellow + timestamp + LightYellow + Label(Warning) + White
    else if isColor && level == Error then Red + timestamp + LightRed + Label(Error) + White
    else if isColor && level == Fatal then Red + timestamp + LightRed + Label(Fatal) + White
    else timestamp + Label(level)
  }

  /** The SGR parameters of the colour of the timestamp, per level. */
  function StampColour(level: int): string {
    if level == Info then "38;2;82;116;67"
    else if level == Warning then "38;2;205;192;0"
    else "38;2;188;19;26"
  }

  /** The SGR parameters of the colour of the label, per level. */
  function LabelColour(level: int): string {
    if level == Info then "38;2;169;193;157"
    else if level == Warning then "38;2;254;242;120"
    else "38;2;246;126;115"
  }

  predicate IsLevel(level: int) {
    Info <= level <= Fatal
  }

  // ---------------------------------------------------------------------
  // Properties
  // ---------------------------------------------------------------------

  /** The `color` argument makes no difference. */
  lemma GetTagIgnoresColor(isColor: bool, level: int, timestamp: string)
    ensures GetTag(isColor, level, true, timestamp) == GetTag(isColor, level, false, timestamp)
  {
  }

  /** Without colour, or for a level the switch has no case for, the tag is the timestamp and then the label. */
  lemma PlainTag(isColor: bool, level: int, color: bool, timestamp: string)
    requires !isColor || !IsLevel(level)
    ensures GetTag(isColor, level, color, timestamp) == timestamp + Label(level)
  {
  }

  lemma ColoursAreSgr()
    ensures White == SgrText("0")
    ensures Green == SgrText(StampColour(Info)) && LightGreen == SgrText(LabelColour(Info))
    ensures Yellow == SgrText(StampColour(Warning)) && LightYellow == SgrText(LabelColour(Warning))
    ensures Red == SgrText(StampColour(Error)) && LightRed == SgrText(LabelColour(Error))
  {
    WhiteIsSgr();
    InfoColours();
    WarningColours();
    ErrorColours();
  }

  lemma WhiteIsSgr()
    ensures White == SgrText("0")
  {
    IsSgr(White, "0");
  }

  lemma InfoColours()
    ensures Green == SgrText("38;2;82;116;67") && LightGreen == SgrText("38;2;169;193;157")
  {
    IsSgr(Green, "38;2;82;116;67");
    IsSgr(LightGreen, "38;2;169;193;157");
  }

  lemma WarningColours()
    ensures Yellow == SgrText("38;2;205;192;0") && LightYellow == SgrText("38;2;254;242;120")
  {
    IsSgr(Yellow, "38;2;205;192;0");
    IsSgr(LightYellow, "38;2;254;242;120");
  }

  lemma ErrorColours()
    ensures Red == SgrText("38;2;188;19;26") && LightRed == SgrText("38;2;246;126;115")
  {
    IsSgr(Red, "38;2;188;19;26");
    IsSgr(LightRed, "38;2;246;126;115");
  }

  lemma IsSgr(code: string, params: string)
    requires |code| == |params| + 3 && code[0] == ESC && code[1] == '[' && code[|code| - 1] == 'm'
    requires code[2..|code| - 1] == params
    ensures code == SgrText(params)
  {
    assert code == [code[0], code[1]] + code[2..|code| - 1] + [code[|code| - 1]];
  }

  /**
   * With colour, a level's tag is the timestamp in one colour, the label in a
   * second and a reset; Error and Fatal share their pair of colours.
   */
  lemma ColouredTag(level: int, color: bool, timestamp: string)
    requires IsLevel(level)
    ensures GetTag(true, level, color, timestamp)
      == SgrText(StampColour(level)) + timestamp + SgrText(LabelColour(level)) + Label(level) + SgrText("0")
    ensures StampColour(Error) == StampColour(Fatal) && LabelColour(Error) == LabelColour(Fatal)
  {
    ColoursAreSgr();
  }

  lemma AllParamsColours(level: int)
    ensures AllParams(StampColour(level)) && AllParams(LabelColour(level)) && AllParams("0")
  {
    if level == Info {
      assert AllParams("38;2;82;116;67");
      assert AllParams("38;2;169;193;157");
    } else if level == Warning {
      assert AllParams("38;2;205;192;0");
      assert AllParams("38;2;254;242;120");
    } else {
      assert AllParams("38;2;188;19;26");
      assert AllParams("38;2;246;126;115");
    }
  }

  lemma NoEscLabel(level: int)
    ensures NoEsc(Label(level))
  {
  }

  /**
   * What a filtered writer receives: stripping a coloured tag and the message
   * after it leaves the plain tag and the stripped message, provided the
   * timestamp holds no ESC byte.
   */
  lemma StripColouredTag(level: int, color: bool, timestamp: string, message: string)
    requires NoEsc(timestamp)
    ensures Strip(GetTag(true, level, color, timestamp) + message) == GetTag(false, level, color, timestamp) + Strip(message)
  {
    var tag := Label(level);
    NoEscLabel(level);
    if IsLevel(level) {
      ColouredTag(level, color, timestamp);
      AllParamsColours(level);
      StripFramed(StampColour(level), timestamp, LabelColour(level), tag, message);
    } else {
      StripPlainPair(timestamp, tag, message);
    }
  }

  /** The shape of a coloured tag, stripped. */
  lemma StripFramed(a: string, timestamp: string, b: string, tag: string, message: string)
    requires AllParams(a) && AllParams(b) && AllParams("0")
    requires NoEsc(timestamp) && NoEsc(tag)
    ensures Strip(SgrText(a) + timestamp + SgrText(b) + tag + SgrText("0") + message)
      == timestamp + tag + Strip(message)
  {
    var tail := SgrText("0") + message;
    Nest(SgrText(a), timestamp, SgrText(b), tag, SgrText("0"), message);
    StripDropsSgr(a, timestamp + (SgrText(b) + (tag + tail)));
    StripKeepsPlain(timestamp, SgrText(b) + (tag + tail));
    StripDropsSgr(b, tag + tail);
    StripKeepsPlain(tag, tail);
    StripDropsSgr("0", message);
    assert timestamp + (tag + Strip(message)) == timestamp + tag + Strip(message);
  }

  lemma Nest(p: string, q: string, r: string, s: string, t: string, u: string)
    ensures p + q + r + s + t + u == p + (q + (r + (s + (t + u))))
  {
  }

  lemma StripPlainPair(timestamp: string, tag: string, message: string)
    requires NoEsc(timestamp) && NoEsc(tag)
    ensures Strip(timestamp + tag + message) == timestamp + tag + Strip(message)
  {
    assert NoEsc(timestamp + tag) by {
      forall k | 0 <= k < |timestamp + tag|
        ensures (timestamp + tag)[k] != ESC
      {
        if k >= |timestamp| {
          assert (timestamp + tag)[k] == tag[k - |timestamp|];
        }
      }
    }
    StripKeepsPlain(timestamp + tag, message);
  }
}
