/**
 * The logger object: a minimum level, a colour flag and the set of writers
 * a message goes to, the operations that change them, the process-wide
 * instance `New` hands out, and `Log`, which renders a message and sends it
 * to every writer. Writes and the process exit are returned as a trace and
 * an outcome instead of being performed.
 */
module Logs {
  import opened Wrappers
  import opened Format
  import opened ColorFilter
  import opened Tag

  /**
   * A writer a message can be sent to: the process's standard output, some
   * other writer a caller owns, or the colour filter that the `id`-th call of
   * `AddWriter` put around `underlying`. Two filters are different keys even
   * when they wrap the same writer, since each call allocates a new one.
   */
  datatype Dest = Stdout | Sink(name: nat) | Wrapped(id: nat, underlying: Dest)

  /** One call of `writer.Write(bytes)`. */
  datatype Write = Write(dest: Dest, bytes: string)

  /** How a call of `Log` ends: it returns, the process exits, or it panics. */
  datatype Outcome = Returned | Exited | Panicked

  /** The bytes the writer at the bottom of `dest` receives: each filter on the way strips them. */
  function Received(dest: Dest, bytes: string): (received: string) {
    match dest
    case Wrapped(_, underlying) => Received(underlying, Strip(bytes))
    case _ => bytes
  }

  /** The writers a trace has written to. */
  function Dests(writes: seq<Write>): set<Dest> {
    if writes == [] then {} else Dests(writes[..|writes| - 1]) + {writes[|writes| - 1].dest}
  }

  /** A level outside `Info..Fatal` is treated as `Info`. */
  function Clamp(level: int): (l: int)
    ensures IsLevel(l)
    ensures IsLevel(level) ==> l == level
    ensures !IsLevel(level) ==> l == Info
  {
    if level < 0 || level > Fatal then Info else level
  }

  class Logger {
    var level: int
    var isColor: bool
    var buffer: set<Dest>
    /** How many filters `AddWriter` has made so far; the next one gets this id. */
    var nextId: nat

    /** The buffer holds standard output and filters made by this logger, nothing else. */
    ghost predicate Valid()
      reads this
    {
      forall d :: d in buffer ==> d == Stdout || (d.Wrapped? && d.id < nextId)
    }

    /** The instance `New` makes: its arguments, and standard output as the only writer. */
    constructor (level: int, color: bool)
      ensures Valid()
      ensures this.level == level && isColor == color && buffer == {Stdout} && nextId == 0
    {
      this.level := level;
      isColor := color;
      buffer := {Stdout};
      nextId := 0;
    }

    /** Puts a new colour filter around `writer` into the buffer. */
    method AddWriter(writer: Dest)
      requires Valid()
      modifies this
      ensures Valid()
      ensures Wrapped(old(nextId), writer) !in old(buffer)
      ensures buffer == old(buffer) + {Wrapped(old(nextId), writer)}
      ensures |buffer| == |old(buffer)| + 1
      ensures nextId == old(nextId) + 1
      ensures level == old(level) && isColor == old(isColor)
    {
      buffer := buffer + {Wrapped(nextId, writer)};
      nextId := nextId + 1;
    }

    /**
     * Deletes the key `writer`. A writer a caller once passed to `AddWriter`
     * is not a key (its filter is), so cancelling it changes nothing.
     */
    method CancelWriter(writer: Dest)
      requires Valid()
      modifies this
      ensures Valid()
      ensures buffer == old(buffer) - {writer}
      ensures writer.Sink? ==> buffer == old(buffer)
      ensures level == old(level) && isColor == old(isColor) && nextId == old(nextId)
    {
      buffer := buffer - {writer};
    }

    method SetLevel(level: int)
      requires Valid()
      modifies this
      ensures Valid()
      ensures this.level == level
      ensures isColor == old(isColor) && buffer == old(buffer) && nextId == old(nextId)
    {
      this.level := level;
    }

    method IsColorAvailable(boolean: bool)
      requires Valid()
      modifies this
      ensures Valid()
      ensures isColor == boolean
      ensures level == old(level) && buffer == old(buffer) && nextId == old(nextId)
    {
      isColor := boolean;
    }

    /**
     * `this.Log(level, format, args...)`. `clock(k)` is the timestamp the
     * `k`-th write's tag is given.
     */
    method Log(level: int, format: string, args: seq<Arg>, printf: IntPrinter, clock: nat -> string)
      returns (writes: seq<Write>, outcome: Outcome)
      ensures var l := Clamp(level);
        l < this.level ==> writes == [] && outcome == Returned
      ensures this.level > Fatal ==> writes == [] && outcome == Returned
      ensures var l := Clamp(level);
        l >= this.level && Render(format, args, printf).Panic? ==> writes == [] && outcome == Panicked
      ensures var l := Clamp(level); var r := Render(format, args, printf);
        l >= this.level && r.Done? ==> Delivered(buffer, isColor, writes, outcome, l, r.text, clock)
    {
      var l := level;
      if l < 0 || l > Fatal {
        l := Info;
      }
      writes, outcome := [], Returned;
      if l < this.level {
        return;
      }
      var message := FormatMessage(format, args, printf);
      if message.Panic? {
        outcome := Panicked;
        return;
      }
      writes, outcome := Dispatch(l, message.text, clock);
    }

    /**
     * The loop of `Log` over the buffer. The map's iteration order is not
     * fixed, so each turn picks any writer not yet visited.
     */
    method Dispatch(l: int, text: string, clock: nat -> string) returns (writes: seq<Write>, outcome: Outcome)
      ensures Delivered(buffer, isColor, writes, outcome, l, text, clock)
    {
      ghost var colour := isColor;
      ghost var line := (d: Dest, k: nat) => GetTag(colour, l, d == Stdout, clock(k)) + text;
      writes, outcome := [], Returned;
      var remaining := buffer;
      while remaining != {}
        invariant remaining <= buffer
        invariant Dests(writes) == buffer - remaining
        invariant |writes| + |remaining| == |buffer|
        invariant Lined(writes, line)
        invariant Distinct(writes)
        invariant l == Fatal ==> writes == []
        decreases |remaining|
      {
        var d :| d in remaining;
        var tag := GetTag(isColor, l, d == Stdout, clock(|writes|));
        var w := Write(d, tag + text);
        assert w.bytes == line(d, |writes|);
        WriteKeeps(writes, w, buffer - remaining, line);
        writes := writes + [w];
        remaining := remaining - {d};
        if l == Fatal {
          outcome := Exited;
          FatalDelivered(buffer, isColor, writes, w, l, text, clock, line);
          return;
        }
      }
      AllDelivered(buffer, isColor, writes, l, text, clock, line);
    }
  }

  /** Each write holds the line `line` gives for its writer and position. */
  predicate Lined(writes: seq<Write>, line: (Dest, nat) -> string) {
    forall k :: 0 <= k < |writes| ==> writes[k].bytes == line(writes[k].dest, k)
  }

  lemma LinedTagged(writes: seq<Write>, isColor: bool, l: int, text: string, clock: nat -> string, line: (Dest, nat) -> string)
    requires Lined(writes, line)
    requires forall d, k :: line(d, k) == GetTag(isColor, l, d == Stdout, clock(k)) + text
    ensures Tagged(writes, isColor, l, text, clock)
  {
  }

  /** Each write carries the tag for its writer and timestamp, then the text. */
  predicate Tagged(writes: seq<Write>, isColor: bool, l: int, text: string, clock: nat -> string) {
    forall k :: 0 <= k < |writes| ==> writes[k].bytes == GetTag(isColor, l, writes[k].dest == Stdout, clock(k)) + text
  }

  /** No writer is written twice. */
  predicate Distinct(writes: seq<Write>) {
    forall j, k :: 0 <= j < k < |writes| ==> writes[j].dest != writes[k].dest
  }

  /**
   * What sending the rendered message `text` at level `l` to `buffer` leaves
   * behind: every write is tagged, and the writes are routed as `Routed` says.
   */
  predicate Delivered(buffer: set<Dest>, isColor: bool, writes: seq<Write>, outcome: Outcome, l: int, text: string, clock: nat -> string) {
    Tagged(writes, isColor, l, text, clock) && Routed(buffer, writes, outcome, l)
  }

  /**
   * Which writers a message at level `l` reached and how the call ended:
   * distinct writers of the buffer, every one of them, except that a Fatal
   * message stops the process after the first write (and only when there
   * was one).
   */
  predicate Routed(buffer: set<Dest>, writes: seq<Write>, outcome: Outcome, l: int) {
    && Distinct(writes)
    && Dests(writes) <= buffer
    && (l != Fatal ==> Dests(writes) == buffer && |writes| == |buffer| && outcome == Returned)
    && (l == Fatal ==> |writes| == (if buffer == {} then 0 else 1))
    && (l == Fatal ==> outcome == (if buffer == {} then Returned else Exited))
  }

  /** One more write, to a writer not yet visited, keeps the loop's invariants. */
  lemma WriteKeeps(writes: seq<Write>, w: Write, visited: set<Dest>, line: (Dest, nat) -> string)
    requires Lined(writes, line) && Distinct(writes) && Dests(writes) == visited
    requires w.dest !in visited
    requires w.bytes == line(w.dest, |writes|)
    ensures Lined(writes + [w], line)
    ensures Distinct(writes + [w])
    ensures Dests(writes + [w]) == visited + {w.dest}
  {
    var all := writes + [w];
    DestsSnoc(writes, w);
    DestsHas(writes);
    forall k | 0 <= k < |all|
      ensures all[k].bytes == line(all[k].dest, k)
    {
      if k < |writes| {
        assert all[k] == writes[k];
      }
    }
    forall j, k | 0 <= j < k < |all|
      ensures all[j].dest != all[k].dest
    {
      assert all[j] == writes[j];
      if k < |writes| {
        assert all[k] == writes[k];
      }
    }
  }

  /** The Fatal turn: one write, then the exit. */
  lemma FatalDelivered(buffer: set<Dest>, isColor: bool, writes: seq<Write>, w: Write, l: int, text: string,
                       clock: nat -> string, line: (Dest, nat) -> string)
    requires l == Fatal && w.dest in buffer && writes == [w]
    requires Lined(writes, line)
    requires forall d, k :: line(d, k) == GetTag(isColor, l, d == Stdout, clock(k)) + text
    ensures Delivered(buffer, isColor, writes, Exited, l, text, clock)
  {
    LinedTagged(writes, isColor, l, text, clock, line);
    FatalRouted(buffer, w, l);
  }

  /** The loop ran to its end: every writer has had its write. */
  lemma AllDelivered(buffer: set<Dest>, isColor: bool, writes: seq<Write>, l: int, text: string,
                     clock: nat -> string, line: (Dest, nat) -> string)
    requires Distinct(writes) && Dests(writes) == buffer && |writes| == |buffer|
    requires l == Fatal ==> writes == []
    requires Lined(writes, line)
    requires forall d, k :: line(d, k) == GetTag(isColor, l, d == Stdout, clock(k)) + text
    ensures Delivered(buffer, isColor, writes, Returned, l, text, clock)
  {
    LinedTagged(writes, isColor, l, text, clock, line);
    AllRouted(buffer, writes, l);
  }

  lemma FatalRouted(buffer: set<Dest>, w: Write, l: int)
    requires l == Fatal && w.dest in buffer
    ensures Routed(buffer, [w], Exited, l)
  {
    DestsSnoc([], w);
    assert [] + [w] == [w];
  }

  lemma AllRouted(buffer: set<Dest>, writes: seq<Write>, l: int)
    requires Distinct(writes)
    requires Dests(writes) == buffer && |writes| == |buffer|
    requires l == Fatal ==> writes == []
    ensures Routed(buffer, writes, Returned, l)
  {
  }

  lemma DestsSnoc(writes: seq<Write>, w: Write)
    ensures Dests(writes + [w]) == Dests(writes) + {w.dest}
  {
    assert (writes + [w])[..|writes|] == writes;
  }

  lemma {:induction false} DestsHas(writes: seq<Write>)
    ensures forall k :: 0 <= k < |writes| ==> writes[k].dest in Dests(writes)
  {
    if writes != [] {
      var init := writes[..|writes| - 1];
      DestsHas(init);
      forall k | 0 <= k < |writes|
        ensures writes[k].dest in Dests(writes)
      {
        if k < |writes| - 1 {
          assert writes[k] == init[k];
        }
      }
    }
  }

  /**
   * What a writer added with `AddWriter` ends up with: the plain tag and the
   * message with its SGR sequences stripped, whether or not the logger
   * colours its tags, as long as the timestamp holds no ESC byte.
   */
  lemma FilteredWriterGetsPlainTag(id: nat, writer: Dest, isColor: bool, level: int, timestamp: string, message: string)
    requires !writer.Wrapped? && NoEsc(timestamp)
    ensures Received(Wrapped(id, writer), GetTag(isColor, level, false, timestamp) + message)
      == GetTag(false, level, false, timestamp) + Strip(message)
  {
    if isColor {
      StripColouredTag(level, false, timestamp, message);
    } else {
      PlainTag(false, level, false, timestamp);
      NoEscLabel(level);
      StripPlainPair(timestamp, Label(level), message);
    }
  }

  /** The process-wide instance behind `New`, with `sync.Once` as "set on the first call". */
  class Registry {
    var instance: Option<Logger>

    /** The instance, once made, is a valid logger. */
    ghost predicate Valid()
      reads this, if instance.Some? then {instance.value} else {}
    {
      instance.Some? ==> instance.value.Valid()
    }

    constructor ()
      ensures Valid() && instance == None
    {
      instance := None;
    }

    /**
     * `New(level, color, buffer)`: the first call makes the logger, with
     * standard output as its only writer whatever `buffer` is; every later
     * call returns that same logger and ignores its arguments.
     */
    method New(level: int, color: bool, buffer: Dest) returns (logger: Logger)
      requires Valid()
      modifies this
      ensures Valid() && logger.Valid()
      ensures old(instance).Some? ==> logger == old(instance).value && instance == old(instance)
      ensures old(instance).None? ==> fresh(logger) && instance == Some(logger)
      ensures old(instance).None? ==> logger.Valid() && logger.level == level && logger.isColor == color
      ensures old(instance).None? ==> logger.buffer == {Stdout} && logger.nextId == 0
    {
      if instance.None? {
        var made := new Logger(level, color);
        instance := Some(made);
      }
      logger := instance.value;
    }
  }
}
