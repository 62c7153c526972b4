/**
 * What `format_message` does to the templates a caller writes: a template
 * built from literal text and `{...}` placeholders renders as each literal
 * followed by its placeholder's text; text without braces passes through;
 * an unclosed `{` repeats the text before it; and the placeholder forms
 * `{N}`, `{N:spec}`, `{-N}` and an index past the arguments behave as the
 * scans of `fmt.Sscanf` decide.
 */
module FormatLaws {
  import opened Wrappers
  import opened Decimal
  import opened Format

  // ---------------------------------------------------------------------
  // The brace search
  // ---------------------------------------------------------------------

  /** The search stops at the first `c` from `from` on. */
  lemma {:induction false} IndexFromAt(s: string, from: nat, at: nat, c: char)
    requires from <= at < |s| && s[at] == c
    requires forall k :: from <= k < at ==> s[k] != c
    ensures IndexFrom(s, from, c) == Some(at)
    decreases at - from
  {
    if from < at {
      IndexFromAt(s, from + 1, at, c);
    }
  }

  /** The search finds nothing exactly when no `c` lies from `from` on. */
  lemma {:induction false} IndexFromNone(s: string, from: nat, c: char)
    requires from <= |s|
    ensures IndexFrom(s, from, c) == None <==> forall k :: from <= k < |s| ==> s[k] != c
    decreases |s| - from
  {
    if from < |s| && s[from] != c {
      IndexFromNone(s, from + 1, c);
      assert (forall k :: from <= k < |s| ==> s[k] != c) <==> (forall k :: from + 1 <= k < |s| ==> s[k] != c);
    }
  }

  /** What the search finds is the first `c` from `from` on, and it finds one whenever one is there. */
  lemma {:induction false} IndexFromFirst(s: string, from: nat, c: char)
    requires from <= |s|
    ensures IndexFrom(s, from, c).None? ==> forall k :: from <= k < |s| ==> s[k] != c
    ensures IndexFrom(s, from, c).Some? ==> forall k :: from <= k < IndexFrom(s, from, c).value ==> s[k] != c
    decreases |s| - from
  {
    if from < |s| && s[from] != c {
      IndexFromFirst(s, from + 1, c);
    }
  }

  /** `s` is what `f` holds from position `d` to its end. */
  predicate SuffixAt(f: string, s: string, d: nat) {
    |f| == d + |s| && forall j :: 0 <= j < |s| ==> f[d + j] == s[j]
  }

  /** Searching `f` from `d + k` finds what searching its suffix `s` from `k` finds, moved by `d`. */
  lemma {:induction false} IndexFromShift(f: string, s: string, d: nat, k: nat, c: char)
    requires SuffixAt(f, s, d) && k <= |s|
    ensures IndexFrom(s, k, c).None? ==> IndexFrom(f, d + k, c) == None
    ensures IndexFrom(s, k, c).Some? ==> IndexFrom(f, d + k, c) == Some(d + IndexFrom(s, k, c).value)
    decreases |s| - k
  {
    if k < |s| {
      assert f[d + k] == s[k];
      if s[k] != c {
        IndexFromShift(f, s, d, k + 1, c);
      }
    }
  }

  lemma SliceShift(f: string, s: string, d: nat, x: nat, y: nat)
    requires SuffixAt(f, s, d) && x <= y <= |s|
    ensures f[d + x..d + y] == s[x..y]
    ensures f[d + x..] == s[x..]
  {
    assert forall j :: x <= j < y ==> f[d + x..d + y][j - x] == s[j];
    assert forall j :: x <= j < |s| ==> f[d + x..][j - x] == s[j];
  }

  /** One turn from position `d + k` of `f` is the turn from `k` of its suffix `s`, moved by `d`. */
  lemma ChunkShift(f: string, s: string, d: nat, k: nat)
    requires SuffixAt(f, s, d) && k < |s|
    ensures Chunk(f, d + k) == Chunk(s, k)
    ensures ChunkEnd(f, d + k) == d + ChunkEnd(s, k)
  {
    IndexFromShift(f, s, d, k, '{');
    SliceShift(f, s, d, k, k);
    var open := IndexFrom(s, k, '{');
    if open.None? {
      ShiftNoBrace(f, s, d, k);
    } else {
      var o := open.value;
      IndexFromShift(f, s, d, o, '}');
      SliceShift(f, s, d, k, o);
      var close := IndexFrom(s, o, '}');
      if close.None? {
        ShiftUnclosed(f, s, d, k, o);
      } else {
        var c := close.value;
        ChunkClosed(s, k, o, c);
        SliceShift(f, s, d, o + 1, c);
        ShiftClosed(f, s, d, k, o, c);
      }
    }
  }

  lemma ShiftNoBrace(f: string, s: string, d: nat, k: nat)
    requires k < |s| && |f| == d + |s|
    requires IndexFrom(s, k, '{') == None && IndexFrom(f, d + k, '{') == None
    requires f[d + k..] == s[k..]
    ensures Chunk(f, d + k) == Chunk(s, k) && ChunkEnd(f, d + k) == d + ChunkEnd(s, k)
  {
    ChunkNoBrace(s, k);
    ChunkNoBrace(f, d + k);
  }

  lemma ShiftUnclosed(f: string, s: string, d: nat, k: nat, o: nat)
    requires k < |s| && |f| == d + |s|
    requires IndexFrom(s, k, '{') == Some(o) && IndexFrom(s, o, '}') == None
    requires IndexFrom(f, d + k, '{') == Some(d + o) && IndexFrom(f, d + o, '}') == None
    requires f[d + k..] == s[k..] && f[d + k..d + o] == s[k..o]
    ensures Chunk(f, d + k) == Chunk(s, k) && ChunkEnd(f, d + k) == d + ChunkEnd(s, k)
  {
    ChunkUnclosed(s, k, o);
    ChunkUnclosed(f, d + k, d + o);
  }

  lemma ShiftClosed(f: string, s: string, d: nat, k: nat, o: nat, c: nat)
    requires k < |s| && |f| == d + |s| && o < c
    requires IndexFrom(s, k, '{') == Some(o) && IndexFrom(s, o, '}') == Some(c)
    requires IndexFrom(f, d + k, '{') == Some(d + o) && IndexFrom(f, d + o, '}') == Some(d + c)
    requires f[d + k..d + o] == s[k..o] && f[d + o + 1..d + c] == s[o + 1..c]
    ensures Chunk(f, d + k) == Chunk(s, k) && ChunkEnd(f, d + k) == d + ChunkEnd(s, k)
  {
    ChunkClosed(s, k, o, c);
    ChunkClosed(f, d + k, d + o, d + c);
  }

  /** What comes before position `d` does not affect the scan from there on. */
  lemma {:induction false} ParseShift(f: string, s: string, d: nat, k: nat)
    requires SuffixAt(f, s, d) && k <= |s|
    ensures Parse(f, d + k) == Parse(s, k)
    decreases |s| - k
  {
    if k < |s| {
      ChunkShift(f, s, d, k);
      var next := ChunkEnd(s, k);
      ParseShift(f, s, d, next);
      ParseStepShift(f, s, d, k, next);
    } else {
      assert d + k == |f|;
    }
  }

  lemma ParseStepShift(f: string, s: string, d: nat, k: nat, next: nat)
    requires k < |s| && |f| == d + |s|
    requires Chunk(f, d + k) == Chunk(s, k)
    requires ChunkEnd(s, k) == next && ChunkEnd(f, d + k) == d + next
    requires Parse(f, d + next) == Parse(s, next)
    ensures Parse(f, d + k) == Parse(s, k)
  {
    ParseUnfold(s, k, next);
    ParseUnfold(f, d + k, d + next);
  }

  /** One turn of the scan from `i`, then the scan from where it ends. */
  lemma ParseUnfold(t: string, i: nat, next: nat)
    requires i < |t| && ChunkEnd(t, i) == next
    ensures Parse(t, i) == Chunk(t, i) + Parse(t, next)
  {
  }

  /** A turn with no `{` left copies the rest of the template and ends the scan. */
  lemma TurnNoBrace(format: string, i: nat)
    requires i < |format|
    requires forall k :: i <= k < |format| ==> format[k] != '{'
    ensures Chunk(format, i) == [Literal(format[i..])] && ChunkEnd(format, i) == |format|
  {
    IndexFromNone(format, i, '{');
    ChunkNoBrace(format, i);
  }

  /**
   * A turn whose first `{` has no `}` after it writes the text before the
   * `{`, then the rest of the template from the start of the turn, and ends
   * the scan.
   */
  lemma TurnUnclosed(format: string, i: nat, open: nat)
    requires i <= open < |format| && format[open] == '{'
    requires forall k :: i <= k < open ==> format[k] != '{'
    requires forall k :: open <= k < |format| ==> format[k] != '}'
    ensures Chunk(format, i) == [Literal(format[i..open]), Literal(format[i..])]
    ensures ChunkEnd(format, i) == |format|
  {
    IndexFromAt(format, i, open, '{');
    IndexFromNone(format, open, '}');
    ChunkUnclosed(format, i, open);
  }

  /**
   * The first `}` after the first `{` closes the placeholder: the text before
   * the `{` is literal, the text between the braces is the specifier, and the
   * next turn starts after the `}`.
   */
  lemma TurnClosed(format: string, i: nat, open: nat, close: nat)
    requires i <= open < close < |format| && format[open] == '{' && format[close] == '}'
    requires forall k :: i <= k < open ==> format[k] != '{'
    requires forall k :: open <= k < close ==> format[k] != '}'
    ensures Chunk(format, i) == [Literal(format[i..open]), Placeholder(format[open + 1..close])]
    ensures ChunkEnd(format, i) == close + 1
  {
    IndexFromAt(format, i, open, '{');
    IndexFromAt(format, open, close, '}');
    ChunkClosed(format, i, open, close);
  }

  // ---------------------------------------------------------------------
  // Templates written from literals and placeholders
  // ---------------------------------------------------------------------

  /** A literal text followed by a placeholder `{specifier}`. */
  datatype Field = Field(literal: string, specifier: string)

  predicate NoChar(s: string, c: char) {
    forall k :: 0 <= k < |s| ==> s[k] != c
  }

  /** The template text: each field's literal and braced specifier, then `last`. */
  function Template(fields: seq<Field>, last: string): string {
    if fields == [] then last
    else fields[0].literal + "{" + fields[0].specifier + "}" + Template(fields[1..], last)
  }

  /**
   * A template that means what it says: no literal holds a `{` (it would
   * open a placeholder) and no specifier holds a `}` (it would close one).
   */
  predicate WellFormed(fields: seq<Field>, last: string) {
    && NoChar(last, '{')
    && forall k :: 0 <= k < |fields| ==> NoChar(fields[k].literal, '{') && NoChar(fields[k].specifier, '}')
  }

  /** The pieces the template is written as. */
  function Segments(fields: seq<Field>, last: string): seq<Segment> {
    if fields == [] then (if last == "" then [] else [Literal(last)])
    else [Literal(fields[0].literal), Placeholder(fields[0].specifier)] + Segments(fields[1..], last)
  }

  /**
   * The reference reading of a template: each literal, then the text of its
   * placeholder, and the trailing literal last; a panicking placeholder
   * makes the whole message panic.
   */
  function Filled(fields: seq<Field>, last: string, args: seq<Arg>, printf: IntPrinter): Rendered {
    if fields == [] then Done(last)
    else Concat(Done(fields[0].literal),
                Concat(RenderPlaceholder(fields[0].specifier, args, printf), Filled(fields[1..], last, args, printf)))
  }

  /** Scanning a well-formed template recovers the pieces it was written from. */
  lemma {:induction false} ParseTemplate(fields: seq<Field>, last: string)
    requires WellFormed(fields, last)
    ensures Parse(Template(fields, last), 0) == Segments(fields, last)
  {
    if fields == [] {
      ParsePlain(last);
    } else {
      var tail := Template(fields[1..], last);
      WellFormedTail(fields, last);
      ParseTemplate(fields[1..], last);
      FieldThenRest(fields[0].literal, fields[0].specifier, tail, Segments(fields[1..], last));
    }
  }

  /** A well-formed field, then a template read as `rest`. */
  lemma FieldThenRest(lit: string, spec: string, tail: string, rest: seq<Segment>)
    requires NoChar(lit, '{') && NoChar(spec, '}')
    requires Parse(tail, 0) == rest
    ensures Parse(lit + "{" + spec + "}" + tail, 0) == [Literal(lit), Placeholder(spec)] + rest
  {
    var head := lit + "{" + spec + "}";
    ChunkField(lit, spec, tail);
    SuffixOfJoin(head, tail);
    ChunkThenRest(head + tail, tail, |head|, [Literal(lit), Placeholder(spec)], rest);
  }

  /** A first chunk that ends where `tail` begins, then the segments of `tail`. */
  lemma ChunkThenRest(t: string, tail: string, n: nat, first: seq<Segment>, rest: seq<Segment>)
    requires t != "" && SuffixAt(t, tail, n)
    requires Chunk(t, 0) == first && ChunkEnd(t, 0) == n
    requires Parse(tail, 0) == rest
    ensures Parse(t, 0) == first + rest
  {
    ParseShift(t, tail, n, 0);
    ParseFirst(t, n);
  }

  lemma SuffixOfJoin(head: string, tail: string)
    ensures SuffixAt(head + tail, tail, |head|)
  {
    forall j | 0 <= j < |tail|
      ensures (head + tail)[|head| + j] == tail[j]
    {
    }
  }

  /** Parsing from the start is the first chunk, then parsing from where it ends. */
  lemma ParseFirst(t: string, n: nat)
    requires t != "" && ChunkEnd(t, 0) == n
    ensures Parse(t, 0) == Chunk(t, 0) + Parse(t, n)
  {
  }

  lemma ParsePlain(last: string)
    requires NoChar(last, '{')
    ensures Parse(last, 0) == Segments([], last)
  {
    if last != "" {
      IndexFromNone(last, 0, '{');
      ChunkNoBrace(last, 0);
      assert last[0..] == last;
      assert Parse(last, 0) == [Literal(last)] + [];
    }
  }

  /** The first turn over a template that starts with a well-formed field. */
  lemma ChunkField(lit: string, spec: string, tail: string)
    requires NoChar(lit, '{') && NoChar(spec, '}')
    ensures var t := lit + "{" + spec + "}" + tail;
      Chunk(t, 0) == [Literal(lit), Placeholder(spec)] && ChunkEnd(t, 0) == |lit| + |spec| + 2
  {
    var t := lit + "{" + spec + "}" + tail;
    forall k | 0 <= k < |lit|
      ensures t[k] != '{'
    {
      assert t[k] == lit[k];
    }
    IndexFromAt(t, 0, |lit|, '{');
    forall k | |lit| <= k < |lit| + 1 + |spec|
      ensures t[k] != '}'
    {
      if k > |lit| {
        assert t[k] == spec[k - |lit| - 1];
      }
    }
    IndexFromAt(t, |lit|, |lit| + 1 + |spec|, '}');
    ChunkClosed(t, 0, |lit|, |lit| + 1 + |spec|);
    assert t[0..|lit|] == lit;
    assert t[|lit| + 1..|lit| + 1 + |spec|] == spec;
  }

  lemma WellFormedTail(fields: seq<Field>, last: string)
    requires fields != [] && WellFormed(fields, last)
    ensures WellFormed(fields[1..], last)
  {
    forall k | 0 <= k < |fields[1..]|
      ensures NoChar(fields[1..][k].literal, '{') && NoChar(fields[1..][k].specifier, '}')
    {
      assert fields[1..][k] == fields[k + 1];
    }
  }


  lemma {:induction false} ExpandSegments(fields: seq<Field>, last: string, args: seq<Arg>, printf: IntPrinter)
    ensures Expand(Segments(fields, last), args, printf) == Filled(fields, last, args, printf)
  {
    if fields == [] {
      if last != "" {
        ExpandOne(Literal(last), args, printf);
      }
    } else {
      var pair := [Literal(fields[0].literal), Placeholder(fields[0].specifier)];
      ExpandAppend(pair, Segments(fields[1..], last), args, printf);
      ExpandPair(pair[0], pair[1], args, printf);
      assert pair == [pair[0], pair[1]];
      ExpandSegments(fields[1..], last, args, printf);
      ConcatAssoc(Done(fields[0].literal), RenderPlaceholder(fields[0].specifier, args, printf),
                  Filled(fields[1..], last, args, printf));
    }
  }

  /**
   * The message a well-formed template gives is its literals with each
   * placeholder's text between them, in order.
   */
  lemma RenderTemplate(fields: seq<Field>, last: string, args: seq<Arg>, printf: IntPrinter)
    requires WellFormed(fields, last)
    ensures Render(Template(fields, last), args, printf) == Filled(fields, last, args, printf)
  {
    ParseTemplate(fields, last);
    ExpandSegments(fields, last, args, printf);
  }

  /** A template without `{` is copied as it is, whatever the arguments. */
  lemma RenderPlainText(format: string, args: seq<Arg>, printf: IntPrinter)
    requires NoChar(format, '{')
    ensures Render(format, args, printf) == Done(format)
  {
    RenderTemplate([], format, args, printf);
  }

  /**
   * A `{` that no `}` follows: the text before it is written, and then the
   * whole template again from the start of the scan, so that text comes
   * twice.
   */
  lemma RenderUnterminated(prefix: string, rest: string, args: seq<Arg>, printf: IntPrinter)
    requires NoChar(prefix, '{') && NoChar(rest, '}')
    ensures Render(prefix + "{" + rest, args, printf) == Done(prefix + (prefix + "{" + rest))
  {
    var t := prefix + "{" + rest;
    forall k | 0 <= k < |prefix|
      ensures t[k] != '{'
    {
      assert t[k] == prefix[k];
    }
    IndexFromAt(t, 0, |prefix|, '{');
    forall k | |prefix| <= k < |t|
      ensures t[k] != '}'
    {
      if k > |prefix| {
        assert t[k] == rest[k - |prefix| - 1];
      }
    }
    IndexFromNone(t, |prefix|, '}');
    assert Parse(t, 0) == [Literal(t[0..|prefix|]), Literal(t[0..])];
    assert t[0..|prefix|] == prefix && t[0..] == t;
    ExpandPair(Literal(prefix), Literal(t), args, printf);
  }

  // ---------------------------------------------------------------------
  // Reading a placeholder index with `%d`
  // ---------------------------------------------------------------------

  lemma {:induction false} DigitRunOf(d: string, rest: string)
    requires AllDigits(d)
    requires rest == [] || !IsDigit(rest[0])
    ensures DigitRun(d + rest) == |d|
  {
    if d != [] {
      assert (d + rest)[1..] == d[1..] + rest;
      DigitRunOf(d[1..], rest);
    } else {
      assert d + rest == rest;
    }
  }

  lemma {:induction false} BlankRunOf(b: string, rest: string)
    requires forall k :: 0 <= k < |b| ==> IsBlank(b[k])
    requires rest == [] || !IsBlank(rest[0])
    ensures BlankRun(b + rest) == |b|
  {
    if b != [] {
      assert (b + rest)[1..] == b[1..] + rest;
      BlankRunOf(b[1..], rest);
    } else {
      assert b + rest == rest;
    }
  }

  lemma ScanMagnitudeOf(d: string, rest: string)
    requires |d| > 0 && AllDigits(d)
    requires rest == [] || !IsDigit(rest[0])
    ensures ScanMagnitude(d + rest) == Some((Value(d), rest))
  {
    DigitRunOf(d, rest);
    assert (d + rest)[..|d|] == d && (d + rest)[|d|..] == rest;
  }

  /** A run of digits, unsigned, reads as its value when it fits in an `int`. */
  lemma ScanUnsigned(d: string, rest: string)
    requires |d| > 0 && AllDigits(d) && IsInt64(Value(d))
    requires rest == [] || !IsDigit(rest[0])
    ensures ScanInt(d + rest) == Some((Value(d), rest))
  {
    ScanMagnitudeOf(d, rest);
    ScanIntNoBlank(d + rest);
  }

  /** A minus sign and a run of digits read as the negated value. */
  lemma ScanNegated(d: string, rest: string)
    requires |d| > 0 && AllDigits(d) && Value(d) <= 0x8000_0000_0000_0000
    requires rest == [] || !IsDigit(rest[0])
    ensures var m: int := Value(d); ScanInt("-" + (d + rest)) == Some((-m, rest))
  {
    ScanMagnitudeOf(d, rest);
    ScanMinus(d + rest, Value(d), rest);
    ScanIntNoBlank("-" + (d + rest));
  }

  lemma ScanIntNoBlank(t: string)
    requires t == [] || !IsBlank(t[0])
    ensures ScanInt(t) == ScanSigned(t)
  {
    assert t[0..] == t;
  }

  lemma ScanMinus(body: string, m: nat, rest: string)
    requires ScanMagnitude(body) == Some((m, rest)) && m <= 0x8000_0000_0000_0000
    ensures ScanSigned("-" + body) == Some((-(m as int), rest))
  {
    assert ("-" + body)[1..] == body;
  }

  /** `%d` reads back what `%d` writes: the text of a Go `int`, then a non-number. */
  lemma ScanIntReadsBack(i: int64, rest: string)
    requires rest == [] || !IsDigit(rest[0])
    ensures ScanInt(IntToString(i) + rest) == Some((i, rest))
  {
    if i < 0 {
      ScanNegativeBack(i, rest);
    } else {
      ValueOfDigits(i);
      ScanUnsigned(Digits(i), rest);
    }
  }

  lemma ScanNegativeBack(i: int64, rest: string)
    requires i < 0
    requires rest == [] || !IsDigit(rest[0])
    ensures ScanInt(IntToString(i) + rest) == Some((i, rest))
  {
    var m: nat := -(i as int);
    NegativeText(i, rest);
    ScanMinusDigits(m, rest);
    ScanSame(IntToString(i) + rest, "-" + (Digits(m) + rest), Some((i as int, rest)));
  }

  lemma ScanSame(a: string, b: string, r: Option<(int, string)>)
    requires a == b && ScanInt(b) == r
    ensures ScanInt(a) == r
  {
  }

  lemma NegativeText(i: int, rest: string)
    requires i < 0
    ensures IntToString(i) + rest == "-" + (Digits(-i) + rest)
  {
    assert IntToString(i) == "-" + Digits(-i);
  }

  lemma ScanMinusDigits(m: nat, rest: string)
    requires m <= 0x8000_0000_0000_0000
    requires rest == [] || !IsDigit(rest[0])
    ensures ScanInt("-" + (Digits(m) + rest)) == Some((-(m as int), rest))
  {
    ValueOfDigits(m);
    ScanNegated(Digits(m), rest);
  }

  /** Blanks before the number are skipped. */
  lemma ScanIntSkipsBlanks(b: string, s: string)
    requires forall k :: 0 <= k < |b| ==> IsBlank(b[k])
    requires s == [] || !IsBlank(s[0])
    ensures ScanInt(b + s) == ScanInt(s)
  {
    BlankRunOf(b, s);
    BlankRunOf([], s);
    assert (b + s)[|b|..] == s;
    assert s[0..] == s;
  }

  lemma {:induction false} WordRunOf(w: string, rest: string)
    requires forall k :: 0 <= k < |w| ==> !IsSpace(w[k])
    requires rest == [] || IsSpace(rest[0])
    ensures WordRun(w + rest) == |w|
  {
    if w != [] {
      assert (w + rest)[1..] == w[1..] + rest;
      WordRunOf(w[1..], rest);
    } else {
      assert w + rest == rest;
    }
  }

  /** `:%s` after the index reads the word up to the next blank or newline. */
  lemma ScanSpecWord(word: string, rest: string)
    requires |word| > 0 && forall k :: 0 <= k < |word| ==> !IsSpace(word[k])
    requires rest == [] || IsSpace(rest[0])
    ensures ScanSpec(":" + word + rest) == Some(word)
  {
    var tail := ":" + word + rest;
    assert tail[1..] == word + rest;
    assert !IsBlank((word + rest)[0]);
    assert BlankRun(word + rest) == 0;
    assert (word + rest)[0..] == word + rest;
    WordRunOf(word, rest);
    assert (word + rest)[..|word|] == word;
  }

  // ---------------------------------------------------------------------
  // The placeholder forms
  // ---------------------------------------------------------------------

  /** `{N}` with N in range renders argument N with the empty spec. */
  lemma PlaceholderIndex(n: nat, args: seq<Arg>, printf: IntPrinter)
    requires n < |args| && IsInt64(n)
    ensures RenderPlaceholder(IntToString(n), args, printf) == Done(FormatArg(args[n], "", printf))
  {
    ScanIntReadsBack(n, "");
    assert IntToString(n) + "" == IntToString(n);
  }

  /**
   * `{N:spec}` with N in range renders argument N with the spec, which is the
   * word after the colon; what follows a blank after it is ignored.
   */
  lemma PlaceholderIndexSpec(n: nat, word: string, rest: string, args: seq<Arg>, printf: IntPrinter)
    requires n < |args| && IsInt64(n)
    requires |word| > 0 && forall k :: 0 <= k < |word| ==> !IsSpace(word[k])
    requires rest == [] || IsSpace(rest[0])
    ensures RenderPlaceholder(IntToString(n) + (":" + word + rest), args, printf) == Done(FormatArg(args[n], word, printf))
  {
    ScanIntReadsBack(n, ":" + word + rest);
    ScanSpecWord(word, rest);
  }

  /** `{N}` or `{N:spec}` with N at or past the end of the arguments renders as nothing. */
  lemma PlaceholderPastEnd(n: nat, rest: string, args: seq<Arg>, printf: IntPrinter)
    requires |args| <= n && IsInt64(n)
    requires rest == [] || !IsDigit(rest[0])
    ensures RenderPlaceholder(IntToString(n) + rest, args, printf) == Done("")
  {
    ScanIntReadsBack(n, rest);
  }

  /** `{-N}` with N > 0 indexes the arguments below zero, which panics in Go. */
  lemma PlaceholderNegative(i: int64, rest: string, args: seq<Arg>, printf: IntPrinter)
    requires i < 0
    requires rest == [] || !IsDigit(rest[0])
    ensures RenderPlaceholder(IntToString(i) + rest, args, printf) == Panic
  {
    ScanIntReadsBack(i, rest);
  }

  /**
   * A specifier whose first non-blank character is neither a sign nor a
   * digit fails both scans and renders as nothing.
   */
  lemma PlaceholderUnreadable(specifier: string, args: seq<Arg>, printf: IntPrinter)
    requires var t := specifier[BlankRun(specifier)..];
      t == [] || !(IsDigit(t[0]) || t[0] == '+' || t[0] == '-')
    ensures RenderPlaceholder(specifier, args, printf) == Done("")
  {
  }

  // ---------------------------------------------------------------------
  // Integer arguments
  // ---------------------------------------------------------------------

  /**
   * An `int` argument printed with no spec or with a width spec (`W` or
   * `0W`) reads back as the same number through `%d`, and a width spec makes
   * the field W characters wide unless the number needs more.
   */
  lemma IntArgReadsBack(i: int64, spec: string, printf: IntPrinter)
    requires spec == "" || IsWidthSpec(spec)
    ensures ScanInt(FormatArg(Int(i), spec, printf)) == Some((i, ""))
    ensures spec != "" ==> |FormatArg(Int(i), spec, printf)| == Max(Value(spec), |IntToString(i)|)
  {
    var r := FormatArg(Int(i), spec, printf);
    if spec == "" {
      ScanIntReadsBack(i, "");
      assert IntToString(i) + "" == IntToString(i);
    } else if spec[0] == '0' {
      ZeroPadScans(i, Value(spec));
    } else {
      var fill := SpaceFill(i, Value(spec));
      SpacePadAligns(i, Value(spec));
      ScanIntSkipsBlanks(Repeat(' ', fill), IntToString(i));
      ScanIntReadsBack(i, "");
      assert IntToString(i) + "" == IntToString(i);
    }
  }

  lemma ZeroPadScans(i: int64, width: nat)
    ensures ScanInt(PadInt(i, true, width)) == Some((i, ""))
    ensures |PadInt(i, true, width)| == Max(width, |IntToString(i)|)
  {
    var fill := ZeroFill(i, width);
    var m: nat := if i < 0 then -(i as int) else i;
    var body := Repeat('0', fill) + Digits(m);
    ValueOfLeadingZeros(fill, Digits(m));
    ValueOfDigits(m);
    assert body + "" == body;
    if i < 0 {
      ScanNegated(body, "");
    } else {
      ScanUnsigned(body, "");
    }
  }

  // ---------------------------------------------------------------------
  // Worked examples
  // ---------------------------------------------------------------------

  lemma Hundred()
    ensures IntToString(0) == "0" && IntToString(100) == "100"
  {
    assert DigitChar(0) == '0' && DigitChar(1) == '1';
    assert Digits(1) == "1";
    assert Digits(10) == Digits(1) + [DigitChar(0)] == "10";
    assert Digits(100) == Digits(10) + [DigitChar(0)] == "100";
  }

  /** A template of one literal and one placeholder. */
  lemma RenderOne(literal: string, specifier: string, args: seq<Arg>, printf: IntPrinter)
    requires NoChar(literal, '{') && NoChar(specifier, '}')
    ensures Render(literal + "{" + specifier + "}", args, printf) == Concat(Done(literal), RenderPlaceholder(specifier, args, printf))
  {
    var fields := [Field(literal, specifier)];
    assert fields[1..] == [];
    assert Template(fields, "") == literal + "{" + specifier + "}" + "";
    assert literal + "{" + specifier + "}" + "" == literal + "{" + specifier + "}";
    RenderTemplate(fields, "", args, printf);
    var p := RenderPlaceholder(specifier, args, printf);
    if p.Done? {
      assert p.text + "" == p.text;
    }
  }

  /** `{0}` with argument `100`. */
  lemma ExampleValue(printf: IntPrinter)
    ensures Render("Value: {0}", [Int(100)], printf) == Done("Value: 100")
  {
    ValueText();
    RenderOne("Value: ", "0", [Int(100)], printf);
    PlaceholderHundred(printf);
  }

  lemma ValueText()
    ensures "Value: {0}" == "Value: " + "{" + "0" + "}"
    ensures "Value: " + "100" == "Value: 100"
    ensures NoChar("Value: ", '{') && NoChar("0", '}')
  {
  }

  lemma PlaceholderHundred(printf: IntPrinter)
    ensures RenderPlaceholder("0", [Int(100)], printf) == Done("100")
  {
    Hundred();
    PlaceholderIndex(0, [Int(100)], printf);
  }

  /** `{0:05}` with argument `100`: zero-padded to five places. */
  lemma PlaceholderPadded(printf: IntPrinter)
    ensures RenderPlaceholder("0:05", [Int(100)], printf) == Done("00100")
  {
    Hundred();
    assert "0:05" == IntToString(0) + (":" + "05" + "");
    PlaceholderIndexSpec(0, "05", "", [Int(100)], printf);
    PadHundred(printf);
  }

  lemma PadHundred(printf: IntPrinter)
    ensures FormatArg(Int(100), "05", printf) == "00100"
  {
    assert Value("05") == 5 by {
      assert "05"[..1] == "0" && "0"[..0] == "";
    }
    Hundred();
    assert Repeat('0', 2) == "00";
  }

  /** `{5}` with two arguments renders as nothing. */
  lemma ExampleMissing(printf: IntPrinter)
    ensures Render("Missing: {5}", [Int(1), Int(2)], printf) == Done("Missing: ")
  {
    assert "Missing: {5}" == "Missing: " + "{" + "5" + "}";
    RenderOne("Missing: ", "5", [Int(1), Int(2)], printf);
    assert IntToString(5) == "5";
    assert "5" == IntToString(5) + "";
    PlaceholderPastEnd(5, "", [Int(1), Int(2)], printf);
    assert "Missing: " + "" == "Missing: ";
  }

  /** An unclosed `{`: the text before it comes twice. */
  lemma ExampleBroken(args: seq<Arg>, printf: IntPrinter)
    ensures Render("Broken: {0", args, printf) == Done("Broken: Broken: {0")
  {
    assert NoChar("Broken: ", '{') && NoChar("0", '}');
    RenderUnterminated("Broken: ", "0", args, printf);
    assert "Broken: " + "{" + "0" == "Broken: {0";
    assert "Broken: " + "Broken: {0" == "Broken: Broken: {0";
  }

  /** The hexadecimal literal `0x10A` prints as `266`. */
  lemma ExampleHex(printf: IntPrinter)
    ensures FormatArg(Int(0x10A), "", printf) == "266"
  {
    assert DigitChar(2) == '2' && DigitChar(6) == '6';
    assert Digits(2) == "2";
    assert Digits(26) == Digits(2) + [DigitChar(6)] == "26";
    assert Digits(266) == Digits(26) + [DigitChar(6)] == "266";
  }

  /**
   * Text after the index that is not `:` and a word sends the specifier to
   * the plain `%d` scan: `{0abc}` and `{0:}` both render argument 0.
   */
  lemma ExampleTrailing(a: Arg, printf: IntPrinter)
    ensures RenderPlaceholder("0abc", [a], printf) == Done(FormatArg(a, "", printf))
  {
  }

  lemma ExampleEmptySpec(a: Arg, printf: IntPrinter)
    ensures RenderPlaceholder("0:", [a], printf) == Done(FormatArg(a, "", printf))
  {
  }

  /**
   * `%d` stops at an underscore: `{1_0}` reads the index 1, the `:%s` scan
   * then fails on the `_`, and the plain `%d` scan renders argument 1.
   */
  lemma ExampleUnderscore(a: Arg, b: Arg, printf: IntPrinter)
    ensures RenderPlaceholder("1_0", [a, b], printf) == Done(FormatArg(b, "", printf))
  {
    assert IntToString(1) == "1" by {
      assert Digits(1) == [DigitChar(1)];
    }
    assert "1_0" == IntToString(1) + "_0";
    ScanIntReadsBack(1, "_0");
  }

  /** `{-1}` indexes below the arguments and panics. */
  lemma ExampleNegative(args: seq<Arg>, printf: IntPrinter)
    ensures RenderPlaceholder("-1", args, printf) == Panic
  {
    assert IntToString(-1) == "-1";
    assert "-1" == IntToString(-1) + "";
    PlaceholderNegative(-1, "", args, printf);
  }
}
