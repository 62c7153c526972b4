/**
 * The message formatter of the logger: `format_arg`, which renders one
 * argument, and `format_message`, which scans a template for `{N}` and
 * `{N:spec}` placeholders and splices the rendered arguments in.
 */
module Format {

  import opened Wrappers
  import opened Decimal

  /**
   * A logged argument. `Int` is a Go `int`; `Str` a Go `string`; `Other` any
   * value of another type, carrying the text `fmt.Sprintf("%v", v)` gives it.
   */
  datatype Arg = Int(i: int64) | Str(s: string) | Other(shown: string)

  /**
   * The text `fmt.Sprintf("%" + spec + "d", i)` gives for a specifier other
   * than the width forms modelled here (with `+`, `-`, `x`, a precision, ...).
   */
  type IntPrinter = (string, int64) -> string

  /**
   * The result of formatting: the text, or the run-time panic Go raises when a
   * placeholder index is negative (`args[index]` with `index < 0`).
   */
  datatype Rendered = Done(text: string) | Panic

  /** The text of `a` followed by the text of `b`; a panic in either wins. */
  function Concat(a: Rendered, b: Rendered): (r: Rendered)
    ensures r.Done? <==> a.Done? && b.Done?
    ensures r.Done? ==> r.text == a.text + b.text
  {
    match a
    case Panic => Panic
    case Done(x) =>
      match b
      case Panic => Panic
      case Done(y) => Done(x + y)
  }

  /** A specifier of the width forms `W` and `0W` (zeros before W are flags). */
  predicate IsWidthSpec(spec: string) {
    |spec| > 0 && AllDigits(spec) && Value(spec) <= 1_000_000
  }

  /** `format_arg`: renders one argument under a specifier (`""` when none). */
  function FormatArg(arg: Arg, spec: string, printf: IntPrinter): (r: string)
    ensures arg.Str? ==> r == arg.s
    ensures arg.Other? ==> r == arg.shown
  {
    match arg
    case Int(i) =>
      if spec == "" then IntToString(i)
      else if IsWidthSpec(spec) then PadInt(i, spec[0] == '0', Value(spec))
      else printf(spec, i)
    case Str(s) => s
    case Other(shown) => shown
  }

  /**
   * `strings.IndexByte(s[from:], c)`, given as a position in `s` rather than
   * in `s[from:]`: the first `c` at or after `from`, if any.
   */
  function IndexFrom(s: string, from: nat, c: char): (r: Option<nat>)
    requires from <= |s|
    ensures r.Some? ==> from <= r.value < |s| && s[r.value] == c
    decreases |s| - from
  {
    if from == |s| then None
    else if s[from] == c then Some(from)
    else IndexFrom(s, from + 1, c)
  }

  /**
   * The blanks the scanner skips before a number or a word: the ASCII
   * characters Go's `isSpace` accepts except the newline, which `fmt.Sscanf`
   * does not skip (it fails on it).
   */
  predicate IsBlank(c: char) {
    c == ' ' || c == '\t' || c == '\U{B}' || c == '\U{C}' || c == '\r'
  }

  /** The characters that end a word read by `%s`. */
  predicate IsSpace(c: char) {
    IsBlank(c) || c == '\n'
  }

  /** The length of the run of blanks that `s` starts with. */
  function BlankRun(s: string): (n: nat)
    ensures n <= |s|
  {
    if s == [] || !IsBlank(s[0]) then 0 else 1 + BlankRun(s[1..])
  }

  /** The length of the run of decimal digits that `s` starts with. */
  function DigitRun(s: string): (n: nat)
    ensures n <= |s|
  {
    if s == [] || !IsDigit(s[0]) then 0 else 1 + DigitRun(s[1..])
  }

  /** The run `DigitRun` measures is all digits. */
  lemma {:induction false} DigitRunAll(s: string)
    ensures AllDigits(s[..DigitRun(s)])
  {
    if s != [] && IsDigit(s[0]) {
      DigitRunAll(s[1..]);
      assert s[..DigitRun(s)] == [s[0]] + s[1..][..DigitRun(s[1..])];
    }
  }

  /** The length of the word (no blank, no newline) that `s` starts with. */
  function WordRun(s: string): (n: nat)
    ensures n <= |s|
  {
    if s == [] || IsSpace(s[0]) then 0 else 1 + WordRun(s[1..])
  }

  /**
   * `%d` in `fmt.Sscanf`: blanks are skipped, an optional sign is taken, then
   * the decimal digits that follow; there must be at least one, and the value
   * must fit in a Go `int`. Gives the value read and the input that follows
   * the token.
   */
  function ScanInt(s: string): (r: Option<(int, string)>)
    ensures r.Some? ==> IsInt64(r.value.0)
  {
    ScanSigned(s[BlankRun(s)..])
  }

  /** The number token of `%d` once the blanks are skipped: a sign, then digits. */
  function ScanSigned(t: string): (r: Option<(int, string)>)
    ensures r.Some? ==> IsInt64(r.value.0)
  {
    var signed := |t| > 0 && (t[0] == '+' || t[0] == '-');
    var magnitude := ScanMagnitude(if signed then t[1..] else t);
    if magnitude.None? then None
    else
      var m: int := magnitude.value.0;
      var v := if signed && t[0] == '-' then -m else m;
      if IsInt64(v) then Some((v, magnitude.value.1)) else None
  }

  /** The unsigned part of the token: the digits, at least one. */
  function ScanMagnitude(body: string): (r: Option<(nat, string)>)
  {
    var n := DigitRun(body);
    DigitRunAll(body);
    if n == 0 then None else Some((Value(body[..n]), body[n..]))
  }

  /**
   * The `:%s` tail of `fmt.Sscanf(specifier, "%d:%s", ...)` applied to what
   * follows the index: a colon straight after it, then (blanks skipped) a
   * non-empty word. `None` when that scan fails, which sends the caller to
   * the plain `%d` scan.
   */
  function ScanSpec(tail: string): (r: Option<string>)
  {
    if |tail| == 0 || tail[0] != ':' then None
    else
      var u := tail[1..][BlankRun(tail[1..])..];
      if |u| == 0 || u[0] == '\n' then None else Some(u[..WordRun(u)])
  }

  /**
   * One placeholder with the text `specifier` between its braces. The
   * specifier is read as `%d:%s` (an index, a colon and a word) or else as
   * `%d` (an index, whatever follows). An unreadable specifier or an index at
   * or past the end of `args` gives no text; a negative index panics.
   */
  function RenderPlaceholder(specifier: string, args: seq<Arg>, printf: IntPrinter): (r: Rendered) {
    var scanned := ScanInt(specifier);
    if scanned.None? then Done("")
    else
      var index := scanned.value.0;
      var spec := SpecOf(ScanSpec(scanned.value.1));
      if index >= |args| then Done("")
      else if index < 0 then Panic
      else Done(FormatArg(args[index], spec, printf))
  }

  /** The format spec handed to `format_arg`: the word read, or `""` after the plain `%d` scan. */
  function SpecOf(word: Option<string>): string {
    if word.Some? then word.value else ""
  }

  /**
   * A template cut into the pieces `format_message` handles in turn: literal
   * text it copies, and the text between a pair of braces.
   */
  datatype Segment = Literal(text: string) | Placeholder(specifier: string)

  /**
   * One turn of the scan that `format_message` performs from position `i`:
   * the text up to the next `{` is literal, and the next `}` closes the
   * placeholder, whatever lies between. When that `{` has no `}` after it, the
   * text before the `{` is emitted and then the whole remaining template, so
   * that text comes twice.
   */
  function Chunk(format: string, i: nat): (segs: seq<Segment>)
    requires i < |format|
    ensures 1 <= |segs| <= 2 && segs[0].Literal?
  {
    match IndexFrom(format, i, '{')
    case None => [Literal(format[i..])]
    case Some(open) =>
      match IndexFrom(format, open, '}')
      case None => [Literal(format[i..open]), Literal(format[i..])]
      case Some(close) => [Literal(format[i..open]), Placeholder(format[open + 1..close])]
  }

  /** Where the next turn starts: past the `}`, or the end after a `break`. */
  function ChunkEnd(format: string, i: nat): (next: nat)
    requires i < |format|
    ensures i < next <= |format|
    ensures next == |format| || i + 2 <= next
  {
    match IndexFrom(format, i, '{')
    case None => |format|
    case Some(open) =>
      match IndexFrom(format, open, '}')
      case None => |format|
      case Some(close) => assert format[open] != format[close]; close + 1
  }

  /** The whole scan from position `i`, turn by turn. */
  function Parse(format: string, i: nat): (segs: seq<Segment>)
    requires i <= |format|
    decreases |format| - i
  {
    if i == |format| then [] else Chunk(format, i) + Parse(format, ChunkEnd(format, i))
  }

  function Piece(seg: Segment, args: seq<Arg>, printf: IntPrinter): Rendered {
    match seg
    case Literal(text) => Done(text)
    case Placeholder(specifier) => RenderPlaceholder(specifier, args, printf)
  }

  /** The pieces rendered and joined in order; a panic in any of them wins. */
  function Expand(segs: seq<Segment>, args: seq<Arg>, printf: IntPrinter): (r: Rendered) {
    if segs == [] then Done("") else Concat(Piece(segs[0], args, printf), Expand(segs[1..], args, printf))
  }

  /** What `format_message(format, args...)` returns. */
  function Render(format: string, args: seq<Arg>, printf: IntPrinter): (r: Rendered) {
    Expand(Parse(format, 0), args, printf)
  }

  /**
   * `format_message` as the source writes it: a loop over the template that
   * appends to a builder and advances past each placeholder.
   */
  method FormatMessage(format: string, args: seq<Arg>, printf: IntPrinter) returns (r: Rendered)
    ensures r == Render(format, args, printf)
  {
    var out := "";
    var i := 0;
    ghost var whole := Render(format, args, printf);
    while i < |format|
      invariant 0 <= i <= |format|
      invariant whole == Concat(Done(out), Expand(Parse(format, i), args, printf))
      decreases |format| - i
    {
      var chunk, next := ScanFrom(format, i, args, printf);
      if chunk.Panic? {
        r := Panic;
        return;
      }
      ConcatDone(whole, out, chunk.text, Expand(Parse(format, next), args, printf));
      out := out + chunk.text;
      i := next;
    }
    r := Done(out);
  }

  /**
   * One turn of the loop of `format_message` from position `i`: what it
   * appends to the builder (the literal text and the rendered placeholder,
   * or the rest of the template when no placeholder is left) and where the
   * next turn starts (`len(format)` after a `break`).
   */
  method ScanFrom(format: string, i: nat, args: seq<Arg>, printf: IntPrinter) returns (chunk: Rendered, next: nat)
    requires i < |format|
    ensures i < next <= |format|
    ensures next == |format| || i + 2 <= next
    ensures Expand(Parse(format, i), args, printf) == Concat(chunk, Expand(Parse(format, next), args, printf))
  {
    var segs;
    segs, next := FindBraces(format, i);
    ExpandAppend(segs, Parse(format, next), args, printf);
    if |segs| == 1 {
      ExpandOne(segs[0], args, printf);
      chunk := Done(segs[0].text);
    } else {
      var second;
      if segs[1].Literal? {
        second := Done(segs[1].text);
      } else {
        second := FormatPlaceholder(segs[1].specifier, args, printf);
      }
      ExpandPair(segs[0], segs[1], args, printf);
      assert segs == [segs[0], segs[1]];
      chunk := Concat(Done(segs[0].text), second);
    }
  }

  /**
   * The two `strings.IndexByte` searches of one turn: the pieces of the
   * template they delimit from position `i` and where the next turn starts.
   */
  method FindBraces(format: string, i: nat) returns (segs: seq<Segment>, next: nat)
    requires i < |format|
    ensures segs == Chunk(format, i) && next == ChunkEnd(format, i)
  {
    var open := IndexFrom(format, i, '{');
    if open.None? {
      segs, next := [Literal(format[i..])], |format|;
      return;
    }
    var o := open.value;
    var close := IndexFrom(format, o, '}');
    if close.None? {
      segs, next := [Literal(format[i..o]), Literal(format[i..])], |format|;
      return;
    }
    var c := close.value;
    BraceOrder(format, o, c);
    segs, next := [Literal(format[i..o]), Placeholder(format[o + 1..c])], c + 1;
  }

  lemma ExpandOne(a: Segment, args: seq<Arg>, printf: IntPrinter)
    ensures Expand([a], args, printf) == Piece(a, args, printf)
  {
    var pa := Piece(a, args, printf);
    assert [a][1..] == [];
    if pa.Done? {
      assert pa.text + "" == pa.text;
    }
  }

  /** The rendered placeholder joins the text built so far. */
  lemma ConcatDone(whole: Rendered, out: string, text: string, rest: Rendered)
    requires whole == Concat(Done(out), Concat(Done(text), rest))
    ensures whole == Concat(Done(out + text), rest)
  {
    ConcatAssoc(Done(out), Done(text), rest);
  }

  lemma ConcatAssoc(a: Rendered, b: Rendered, c: Rendered)
    ensures Concat(Concat(a, b), c) == Concat(a, Concat(b, c))
  {
    if a.Done? && b.Done? && c.Done? {
      assert (a.text + b.text) + c.text == a.text + (b.text + c.text);
    }
  }

  /**
   * The body of the scan loop for one placeholder: the two `fmt.Sscanf`
   * attempts, the bounds check on the index and the call to `format_arg`.
   */
  method FormatPlaceholder(specifier: string, args: seq<Arg>, printf: IntPrinter) returns (piece: Rendered)
    ensures piece == RenderPlaceholder(specifier, args, printf)
  {
    piece := Done("");
    var scanned := ScanInt(specifier);
    if scanned.Some? {
      var (index, tail) := scanned.value;
      var spec := SpecOf(ScanSpec(tail));
      if index < |args| {
        if index < 0 {
          piece := Panic;
        } else {
          piece := Done(FormatArg(args[index], spec, printf));
        }
      }
    }
  }

  /** A `}` found from a `{` lies strictly after it. */
  lemma BraceOrder(format: string, open: nat, close: nat)
    requires open < |format| && format[open] == '{'
    requires IndexFrom(format, open, '}') == Some(close)
    ensures open < close
  {
  }

  /** The turn from `i` when no `{` is left. */
  lemma ChunkNoBrace(format: string, i: nat)
    requires i < |format| && IndexFrom(format, i, '{') == None
    ensures Chunk(format, i) == [Literal(format[i..])] && ChunkEnd(format, i) == |format|
  {
  }

  /** The turn from `i` when the next `{` has no `}` after it. */
  lemma ChunkUnclosed(format: string, i: nat, open: nat)
    requires i < |format| && IndexFrom(format, i, '{') == Some(open) && IndexFrom(format, open, '}') == None
    ensures Chunk(format, i) == [Literal(format[i..open]), Literal(format[i..])] && ChunkEnd(format, i) == |format|
  {
  }

  /** The turn from `i` over a placeholder whose braces are at `open` and `close`. */
  lemma ChunkClosed(format: string, i: nat, open: nat, close: nat)
    requires i < |format|
    requires IndexFrom(format, i, '{') == Some(open)
    requires IndexFrom(format, open, '}') == Some(close)
    ensures open < close
    ensures Chunk(format, i) == [Literal(format[i..open]), Placeholder(format[open + 1..close])]
    ensures ChunkEnd(format, i) == close + 1
  {
    BraceOrder(format, open, close);
  }

  lemma ExpandPair(a: Segment, b: Segment, args: seq<Arg>, printf: IntPrinter)
    ensures Expand([a, b], args, printf) == Concat(Piece(a, args, printf), Piece(b, args, printf))
  {
    var pb := Piece(b, args, printf);
    assert [b][1..] == [];
    assert Expand([b], args, printf) == Concat(pb, Expand([], args, printf));
    assert Expand([b], args, printf) == pb by {
      if pb.Done? {
        assert pb.text + "" == pb.text;
      }
    }
    assert [a, b][1..] == [b];
  }

  lemma {:induction false} ExpandAppend(a: seq<Segment>, b: seq<Segment>, args: seq<Arg>, printf: IntPrinter)
    ensures Expand(a + b, args, printf) == Concat(Expand(a, args, printf), Expand(b, args, printf))
  {
    if a == [] {
      assert a + b == b;
      var e := Expand(b, args, printf);
      if e.Done? {
        assert "" + e.text == e.text;
      }
    } else {
      assert (a + b)[0] == a[0];
      assert (a + b)[1..] == a[1..] + b;
      ExpandAppend(a[1..], b, args, printf);
      ConcatAssoc(Piece(a[0], args, printf), Expand(a[1..], args, printf), Expand(b, args, printf));
    }
  }
}
