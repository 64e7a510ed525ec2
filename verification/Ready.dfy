/** `engine/ready.rs`: the handshake reads two streams in whatever pieces they arrive until one stdout
    line announces the engine. */
module Ready {
  import opened Options

  datatype Info = Info(port: nat, pid: nat, version: string, schema: nat)

  /** `parse_ready_line`. Parsing the JSON after the prefix is a parameter. */
  datatype Parsed = NotReady | Announces(info: Info) | Malformed(reason: string)

  type Parser = string -> Parsed

  datatype Found = Nothing | FoundReady(info: Info) | FoundBad(reason: string)

  /** What draining a buffer gives: the lines that were recorded, the rest, and why it stopped. */
  datatype Drained = Drained(lines: seq<string>, rest: string, found: Found)

  function FindNewline(s: string): (k: nat)
    ensures k <= |s| && (k < |s| ==> s[k] == '\n') && forall i :: 0 <= i < k ==> s[i] != '\n'
  {
    if s == "" || s[0] == '\n' then 0 else 1 + FindNewline(s[1..])
  }

  /** `trim_end_matches(['\r', '\n'])` */
  function TrimEnd(line: string): string {
    if line != "" && (line[|line| - 1] == '\r' || line[|line| - 1] == '\n') then TrimEnd(line[..|line| - 1]) else line
  }

  function Recorded(line: string, d: Drained): Drained {
    d.(lines := [line] + d.lines)
  }

  datatype Verdict = Skip | Keep | Stop(found: Found)

  /** What becomes of one line. */
  function Judge(line: string, parse: Parser, look: bool): Verdict {
    if line == "" then Skip
    else match parse(line)
      case Announces(info) => if look then Stop(FoundReady(info)) else Keep
      case NotReady => Keep
      case Malformed(reason) => Stop(FoundBad(reason))
  }

  function Drain(buf: string, parse: Parser, look: bool): Drained
    decreases |buf|
  {
    var k := FindNewline(buf);
    if k == |buf| then Drained([], buf, Nothing)
    else
      var line, rest := TrimEnd(buf[..k]), buf[k + 1..];
      match Judge(line, parse, look)
      case Skip => Drain(rest, parse, look)
      case Keep => Recorded(line, Drain(rest, parse, look))
      case Stop(found) => Drained([], rest, found)
  }

  function Joined(lines: seq<string>, d: Drained): Drained {
    d.(lines := lines + d.lines)
  }

  function AndThen(d: Drained, more: string, parse: Parser, look: bool): Drained {
    if d.found.Nothing? then Joined(d.lines, Drain(d.rest + more, parse, look)) else d.(rest := d.rest + more)
  }

  lemma RecordedAndThen(line: string, d: Drained, more: string, parse: Parser, look: bool)
    ensures AndThen(Recorded(line, d), more, parse, look) == Recorded(line, AndThen(d, more, parse, look))
  {
    if d.found.Nothing? {
      var e := Drain(d.rest + more, parse, look);
      assert ([line] + d.lines) + e.lines == [line] + (d.lines + e.lines);
    }
  }

  lemma JoinedNothing(d: Drained)
    ensures Joined([], d) == d
  {
    assert [] + d.lines == d.lines;
  }

  /** One line off the front. */
  lemma DrainLine(line: string, rest: string, parse: Parser, look: bool)
    requires FindNewline(line) == |line|
    ensures Drain(line + "\n" + rest, parse, look) ==
            match Judge(TrimEnd(line), parse, look)
            case Skip => Drain(rest, parse, look)
            case Keep => Recorded(TrimEnd(line), Drain(rest, parse, look))
            case Stop(found) => Drained([], rest, found)
  {
    hide Judge, TrimEnd;
    var buf := line + "\n" + rest;
    assert buf[|line|] == '\n' && forall i :: 0 <= i < |line| ==> buf[i] == line[i];
    assert FindNewline(buf) == |line|;
    assert buf[..|line|] == line && buf[|line| + 1..] == rest;
  }

  lemma FirstLine(buf: string) returns (line: string, rest: string)
    requires FindNewline(buf) < |buf|
    ensures buf == line + "\n" + rest && FindNewline(line) == |line| && |rest| < |buf|
  {
    var k := FindNewline(buf);
    line, rest := buf[..k], buf[k + 1..];
    assert forall i :: 0 <= i < k ==> line[i] == buf[i];
  }

  lemma Regrouped(line: string, rest: string, more: string)
    ensures (line + "\n" + rest) + more == line + "\n" + (rest + more)
  {
  }

  lemma AppendLine(line: string, rest: string, more: string, parse: Parser, look: bool)
    requires FindNewline(line) == |line|
    requires Drain(rest + more, parse, look) == AndThen(Drain(rest, parse, look), more, parse, look)
    ensures Drain(line + "\n" + (rest + more), parse, look)
            == AndThen(Drain(line + "\n" + rest, parse, look), more, parse, look)
  {
    hide Drain, TrimEnd, FindNewline;
    DrainLine(line, rest, parse, look);
    DrainLine(line, rest + more, parse, look);
    RecordedAndThen(TrimEnd(line), Drain(rest, parse, look), more, parse, look);
  }

  /** Draining a text is draining its first part and then what is left of it with the second part. */
  lemma {:induction false} DrainAppend(a: string, b: string, parse: Parser, look: bool)
    ensures Drain(a + b, parse, look) == AndThen(Drain(a, parse, look), b, parse, look)
    decreases |a|
  {
    if FindNewline(a) == |a| {
      NoLineYet(a, b, parse, look);
    } else {
      hide Drain, AndThen, FindNewline;
      var line, rest := FirstLine(a);
      DrainAppend(rest, b, parse, look);
      AppendLine(line, rest, b, parse, look);
      Regrouped(line, rest, b);
    }
  }

  lemma NoLineYet(a: string, b: string, parse: Parser, look: bool)
    requires FindNewline(a) == |a|
    ensures Drain(a + b, parse, look) == AndThen(Drain(a, parse, look), b, parse, look)
  {
    JoinedNothing(Drain(a + b, parse, look));
  }

  /** What is left after draining has no complete line, and nothing is left of a text that ends with
      one. */
  lemma {:induction false} RestHasNoLine(buf: string, parse: Parser, look: bool)
    requires Drain(buf, parse, look).found.Nothing?
    ensures '\n' !in Drain(buf, parse, look).rest
    ensures EndsOpen(buf) <==> Drain(buf, parse, look).rest != ""
    decreases |buf|
  {
    if FindNewline(buf) == |buf| {
    } else {
      var line, rest := FirstLine(buf);
      hide Drain, Judge, TrimEnd, FindNewline, EndsOpen, Recorded;
      DrainLine(line, rest, parse, look);
      RecordedKeepsRest(line, Drain(rest, parse, look));
      RestHasNoLine(rest, parse, look);
      LastOf(line + "\n", rest);
    }
  }

  lemma RecordedKeepsRest(line: string, d: Drained)
    ensures Recorded(TrimEnd(line), d).rest == d.rest && Recorded(TrimEnd(line), d).found == d.found
  {
    hide TrimEnd;
  }

  lemma LastOf(front: string, rest: string)
    requires front != "" && front[|front| - 1] == '\n'
    ensures EndsOpen(front + rest) <==> EndsOpen(rest)
  {
  }

  predicate EndsOpen(text: string) {
    text != "" && text[|text| - 1] != '\n'
  }

  // ---------- one announcement ----------

  const READY_PREFIX := "PRAELECTOR_READY "

  /** What the payload parses to: its fields, as far as they have the right type. */
  datatype Json = NoObject | Object(port: Option<nat>, pid: Option<nat>, version: Option<string>, schema: Option<nat>)

  function OrZero(n: Option<nat>): nat {
    if n.Some? then n.value % 0x1_0000_0000 else 0
  }

  /** `parse_ready_line` and `parse_ready_payload` */
  function ParseReadyLine(line: string, json: string -> Json): Parsed {
    var trimmed := TrimEnd(line);
    if |trimmed| < |READY_PREFIX| || trimmed[..|READY_PREFIX|] != READY_PREFIX then NotReady
    else match json(trimmed[|READY_PREFIX|..])
      case NoObject => Malformed("malformed_json")
      case Object(port, pid, version, schema) =>
        if port.None? || port.value < 1 || port.value > 65535 then Malformed("missing_port")
        else Announces(Info(port.value, OrZero(pid), if version.Some? then version.value else "", OrZero(schema)))
  }

  lemma {:induction false} TrimmedOnce(line: string)
    ensures TrimEnd(TrimEnd(line)) == TrimEnd(line)
  {
    if line != "" && (line[|line| - 1] == '\r' || line[|line| - 1] == '\n') { TrimmedOnce(line[..|line| - 1]); }
  }

  /** How a line was ended does not matter, and only a usable port is ever announced. */
  lemma AnnouncementIgnoresLineEnd(line: string, json: string -> Json)
    ensures ParseReadyLine(TrimEnd(line), json) == ParseReadyLine(line, json)
    ensures ParseReadyLine(line, json).Announces? ==> 1 <= ParseReadyLine(line, json).info.port <= 65535
  {
    TrimmedOnce(line);
  }

  // ---------- the two streams ----------

  /** What one poll of a reader hands over. `ErrRest`: stderr ended inside a line, where `read_line` returns
      what it has and only the next call reports the end. On stdout that next call is polled first and
      answered at once, so there `OutEnd` stands for both. */
  datatype Arrival = OutText(text: string) | ErrText(text: string) | OutEnd | ErrRest | ErrEnd

  function OutOf(arrivals: seq<Arrival>): string {
    if arrivals == [] then ""
    else var a := arrivals[|arrivals| - 1]; OutOf(arrivals[..|arrivals| - 1]) + (if a.OutText? then a.text else "")
  }

  /** A stream ends once, and nothing comes after its end. */
  ghost predicate Orderly(arrivals: seq<Arrival>) {
    forall i, j :: 0 <= i < j < |arrivals| ==>
      && (arrivals[i].OutEnd? ==> !arrivals[j].OutText? && !arrivals[j].OutEnd?)
      && (arrivals[i].ErrEnd? ==> !arrivals[j].ErrText? && !arrivals[j].ErrRest? && !arrivals[j].ErrEnd?)
      && (arrivals[i].ErrRest? ==> !arrivals[j].ErrText? && !arrivals[j].ErrRest?)
  }

  /** `terminate_tail`: a stream that closed gets the newline of its last line. */
  function Terminated(text: string, closed: bool): string {
    if closed && text != "" && text[|text| - 1] != '\n' then text + "\n" else text
  }

  function WholeOut(arrivals: seq<Arrival>): string {
    Terminated(OutOf(arrivals), OutEnd in arrivals)
  }

  datatype Handshake = Announced(info: Info) | Failed(reason: string) | Eof | TimedOut

  datatype Logged = Logged(out: seq<string>, err: seq<string>)

  /** The text up to its last newline. */
  function LinesOf(text: string): (r: string)
    ensures r <= text && !EndsOpen(r) && (EndsOpen(text) <==> |r| < |text|) && '\n' !in text[|r|..]
  {
    if EndsOpen(text) then LinesOf(text[..|text| - 1]) else text
  }

  /** The call of `read_line` on stdout, or on stderr, returns with this arrival. */
  predicate OutReturns(a: Arrival) {
    (a.OutText? && '\n' in a.text) || a.OutEnd?
  }

  predicate ErrReturns(a: Arrival) {
    (a.ErrText? && '\n' in a.text) || a.ErrRest? || a.ErrEnd?
  }

  /** What an arrival does to a stream. `read_line` takes the buffer into its future, and `select!` drops the
      future of the call that did not return: the half line it held is lost. */
  datatype Fate = Grows(more: string) | CutOff | Closes

  function OutFate(a: Arrival): Fate {
    match a
    case OutText(text) => Grows(text)
    case OutEnd => Closes
    case _ => if ErrReturns(a) then CutOff else Grows("")
  }

  function ErrFate(a: Arrival): Fate {
    match a
    case ErrText(text) => Grows(text)
    case ErrEnd => Closes
    case _ => if OutReturns(a) then CutOff else Grows("")
  }

  function Fed(text: string, fate: Fate): string {
    match fate
    case Grows(more) => text + more
    case CutOff => LinesOf(text)
    case Closes => Terminated(text, true)
  }

  /** The stdout text the loop gets to see. */
  function OutRead(arrivals: seq<Arrival>): string {
    if arrivals == [] then ""
    else Fed(OutRead(arrivals[..|arrivals| - 1]), OutFate(arrivals[|arrivals| - 1]))
  }

  /** The stderr text the loop gets to see. */
  function ErrRead(arrivals: seq<Arrival>): string {
    if arrivals == [] then ""
    else Fed(ErrRead(arrivals[..|arrivals| - 1]), ErrFate(arrivals[|arrivals| - 1]))
  }

  lemma OneMore(arrivals: seq<Arrival>, a: Arrival)
    ensures OutRead(arrivals + [a]) == Fed(OutRead(arrivals), OutFate(a))
    ensures ErrRead(arrivals + [a]) == Fed(ErrRead(arrivals), ErrFate(a))
    ensures OutOf(arrivals + [a]) == OutOf(arrivals) + (if a.OutText? then a.text else "")
    ensures OutEnd in arrivals + [a] <==> OutEnd in arrivals || a == OutEnd
    ensures ErrEnd in arrivals + [a] <==> ErrEnd in arrivals || a == ErrEnd
  {
    var more := arrivals + [a];
    assert more[..|more| - 1] == arrivals && more[|more| - 1] == a;
  }

  // ---------- stdout is read whole ----------

  /** Whenever a read of stderr returned, no line of stdout was half read. */
  ghost predicate Undisturbed(arrivals: seq<Arrival>) {
    forall i :: 0 <= i < |arrivals| ==> Calm(arrivals, i)
  }

  /** A line of stderr, or its end. */
  predicate EndsErrLine(a: Arrival) {
    a.ErrRest? || a.ErrEnd? || (a.ErrText? && '\n' in a.text)
  }

  predicate Calm(arrivals: seq<Arrival>, i: nat)
    requires i < |arrivals|
  {
    EndsErrLine(arrivals[i]) ==> !EndsOpen(WholeOut(arrivals[..i]))
  }

  lemma UndisturbedFront(front: seq<Arrival>, a: Arrival)
    ensures Undisturbed(front + [a]) <==> Undisturbed(front) && (EndsErrLine(a) ==> !EndsOpen(WholeOut(front)))
  {
    hide WholeOut, EndsOpen, EndsErrLine;
    var more := front + [a];
    forall i | 0 <= i < |front| ensures Calm(more, i) <==> Calm(front, i) {
      assert more[..i] == front[..i] && more[i] == front[i];
    }
    assert more[..|front|] == front;
    assert Calm(more, |front|) <==> (EndsErrLine(a) ==> !EndsOpen(WholeOut(front)));
    if Undisturbed(front) && Calm(more, |front|) {
      forall i | 0 <= i < |more| ensures Calm(more, i) {
        if i < |front| { assert Calm(front, i); }
      }
    }
    if Undisturbed(more) {
      forall i | 0 <= i < |front| ensures Calm(front, i) {
        assert Calm(more, i);
      }
    }
  }

  lemma OrderlyFront(front: seq<Arrival>, a: Arrival)
    requires Orderly(front + [a])
    ensures Orderly(front)
  {
    var more := front + [a];
    forall i, j | 0 <= i < j < |front|
      ensures more[i] == front[i] && more[j] == front[j]
    {
    }
  }

  /** The loop sees stdout as it was written if and only if no read of stderr returned inside one of its
      lines. Otherwise it sees less. */
  lemma {:induction false} ReadWholeExactly(arrivals: seq<Arrival>)
    requires Orderly(arrivals)
    ensures OutRead(arrivals) == WholeOut(arrivals) <==> Undisturbed(arrivals)
    ensures !Undisturbed(arrivals) ==> |OutRead(arrivals)| < |WholeOut(arrivals)|
    ensures EndsOpen(OutRead(arrivals)) ==> EndsOpen(WholeOut(arrivals))
    decreases |arrivals|
  {
    if arrivals != [] {
      var front, a := arrivals[..|arrivals| - 1], arrivals[|arrivals| - 1];
      assert arrivals == front + [a];
      OrderlyFront(front, a);
      NothingAfterEnd(front, a);
      ReadWholeExactly(front);
      OneMore(front, a);
      UndisturbedFront(front, a);
      ReadOneMore(OutRead(front), OutOf(front), OutEnd in front, a);
    }
  }

  lemma ReadOneMore(read: string, text: string, closed: bool, a: Arrival)
    requires closed ==> !a.OutText? && !a.OutEnd?
    requires |read| < |Terminated(text, closed)| || read == Terminated(text, closed)
    requires EndsOpen(read) ==> EndsOpen(Terminated(text, closed))
    ensures var read' := Fed(read, OutFate(a));
            var whole := Terminated(text, closed);
            var whole' := Terminated(text + (if a.OutText? then a.text else ""), closed || a.OutEnd?);
            && (EndsOpen(read') ==> EndsOpen(whole'))
            && (read == whole && (ErrReturns(a) ==> !EndsOpen(whole)) ==> read' == whole')
            && (read != whole || (ErrReturns(a) && EndsOpen(whole)) ==> |read'| < |whole'|)
  {
    hide LinesOf, Fed, Terminated, EndsOpen;
    FedOneMore(read, text, closed, OutFate(a));
  }

  /** What was written of a stream after a poll. */
  function WrittenBy(text: string, fate: Fate): string {
    text + if fate.Grows? then fate.more else ""
  }

  /** Feeding what was read and what was written: only a cut loses something. */
  lemma FedOneMore(read: string, text: string, closed: bool, fate: Fate)
    requires closed ==> !fate.Closes? && (fate.Grows? ==> fate.more == "")
    requires |read| < |Terminated(text, closed)| || read == Terminated(text, closed)
    requires EndsOpen(read) ==> EndsOpen(Terminated(text, closed))
    ensures var read', whole := Fed(read, fate), Terminated(text, closed);
            var whole' := Terminated(WrittenBy(text, fate), closed || fate.Closes?);
            && (EndsOpen(read') ==> EndsOpen(whole'))
            && (read == whole && (fate.CutOff? ==> !EndsOpen(whole)) ==> read' == whole')
            && (read != whole || (fate.CutOff? && EndsOpen(whole)) ==> |read'| < |whole'|)
  {
    match fate
    case Grows(more) => FedGrows(read, text, closed, more);
    case CutOff =>
      hide LinesOf, Terminated;
      assert text + "" == text;
    case Closes =>
      assert text + "" == text;
  }

  lemma FedGrows(read: string, text: string, closed: bool, more: string)
    requires closed ==> more == ""
    requires |read| < |Terminated(text, closed)| || read == Terminated(text, closed)
    requires EndsOpen(read) ==> EndsOpen(Terminated(text, closed))
    ensures var whole, whole' := Terminated(text, closed), Terminated(text + more, closed);
            && (EndsOpen(read + more) ==> EndsOpen(whole'))
            && (read == whole ==> read + more == whole')
            && (read != whole ==> |read + more| < |whole'|)
  {
    if closed {
      assert text + more == text && read + more == read;
    } else {
      LastIs(read, more);
      LastIs(text, more);
      hide EndsOpen;
    }
  }

  lemma LastIs(text: string, more: string)
    ensures EndsOpen(text + more) <==> if more == "" then EndsOpen(text) else EndsOpen(more)
  {
    if more == "" {
      assert text + more == text;
    } else {
      assert (text + more)[|text + more| - 1] == more[|more| - 1];
    }
  }

  lemma NothingAfterEnd(arrivals: seq<Arrival>, a: Arrival)
    requires Orderly(arrivals + [a])
    ensures OutEnd in arrivals ==> !a.OutText? && !a.OutEnd?
    ensures ErrEnd in arrivals ==> !a.ErrText? && !a.ErrRest? && !a.ErrEnd?
  {
    var more := arrivals + [a];
    assert more[|arrivals|] == a;
    if OutEnd in arrivals {
      var i :| 0 <= i < |arrivals| && arrivals[i] == OutEnd;
      assert more[i] == OutEnd;
    }
    if ErrEnd in arrivals {
      var i :| 0 <= i < |arrivals| && arrivals[i] == ErrEnd;
      assert more[i] == ErrEnd;
    }
  }

  /** `buf` and `lines` are what is left and what was recorded of a text. */
  ghost predicate Drains(whole: string, lines: seq<string>, buf: string, parse: Parser, look: bool) {
    Drain(whole, parse, look) == Drained(lines, buf, Nothing)
  }

  lemma MoreText(whole: string, lines: seq<string>, buf: string, more: string, parse: Parser, look: bool)
    requires Drains(whole, lines, buf, parse, look)
    ensures Drain(whole + more, parse, look) == Joined(lines, Drain(buf + more, parse, look))
  {
    DrainAppend(whole, more, parse, look);
  }

  lemma NothingArrived(text: string, closed: bool, lines: seq<string>, buf: string, parse: Parser, look: bool)
    requires Drains(Terminated(text, closed), lines, buf, parse, look)
    ensures Drain(Terminated(text, true), parse, look) == Joined(lines, Drain(Terminated(buf, true), parse, look))
  {
    var whole := Terminated(text, closed);
    RestHasNoLine(whole, parse, look);
    hide Drain;
    var tail := if buf == "" then "" else "\n";
    MoreText(whole, lines, buf, tail, parse, look);
    assert whole + tail == Terminated(text, true) && buf + tail == Terminated(buf, true);
  }

  /** Losing a half line loses nothing of the lines before it. */
  lemma CutText(text: string, lines: seq<string>, buf: string, parse: Parser, look: bool)
    requires Drains(text, lines, buf, parse, look)
    ensures Drains(LinesOf(text), lines, "", parse, look) && LinesOf(buf) == ""
  {
    hide Drain, LinesOf;
    var front := LinesOf(text);
    var tail := text[|front|..];
    assert text == front + tail;
    DrainAppend(front, tail, parse, look);
    RestHasNoLine(text, parse, look);
    if Drain(front, parse, look).found.Nothing? {
      RestHasNoLine(front, parse, look);
      NoLine(tail, parse, look);
      assert "" + tail == tail;
      assert Drain(front, parse, look).lines + [] == Drain(front, parse, look).lines;
    }
    NothingOf(buf);
  }

  lemma NoLine(text: string, parse: Parser, look: bool)
    requires '\n' !in text
    ensures Drain(text, parse, look) == Drained([], text, Nothing)
  {
  }

  lemma NothingOf(buf: string)
    requires '\n' !in buf
    ensures LinesOf(buf) == ""
  {
    hide LinesOf;
  }

  /** What an arrival does to the whole text it does to the buffer. */
  lemma FedAlike(text: string, lines: seq<string>, buf: string, fate: Fate, parse: Parser, look: bool)
    requires Drains(text, lines, buf, parse, look)
    ensures Drain(Fed(text, fate), parse, look) == Joined(lines, Drain(Fed(buf, fate), parse, look))
  {
    match fate
    case Grows(more) => MoreText(text, lines, buf, more, parse, look);
    case CutOff =>
      CutText(text, lines, buf, parse, look);
      NoLine("", parse, look);
      assert lines + [] == lines;
    case Closes =>
      assert Terminated(text, false) == text;
      NothingArrived(text, false, lines, buf, parse, look);
  }

  /** A line that stopped the drain of a prefix stops the drain of the whole in the same way. */
  lemma FoundStaysFound(text: string, closed: bool, more: string, closes: bool, parse: Parser, look: bool)
    requires !Drain(Terminated(text, closed), parse, look).found.Nothing?
    requires (closed ==> closes) && (closed ==> more == "")
    ensures var d := Drain(Terminated(text, closed), parse, look);
            var e := Drain(Terminated(text + more, closes), parse, look);
            e.found == d.found && e.lines == d.lines
  {
    var whole := Terminated(text, closed);
    var all := Terminated(text + more, closes);
    if closed {
      assert text + more == text && all == whole;
    } else {
      var tail := if all == text + more then more else more + "\n";
      assert all == whole + tail;
      DrainAppend(whole, tail, parse, look);
    }
  }

  // ---------- the handshake ----------

  /** `drain_lines`: every complete line leaves the buffer, up to one that stops the loop. */
  method DrainLines(buf: string, parse: Parser, look: bool) returns (lines: seq<string>, rest: string, found: Found)
    ensures Drained(lines, rest, found) == Drain(buf, parse, look)
  {
    hide TrimEnd;
    lines, rest, found := [], buf, Nothing;
    while FindNewline(rest) < |rest|
      invariant Joined(lines, Drain(rest, parse, look)) == Drain(buf, parse, look)
      decreases |rest|
    {
      var k := FindNewline(rest);
      var line := TrimEnd(rest[..k]);
      ghost var d := Drain(rest[k + 1..], parse, look);
      rest := rest[k + 1..];
      if line == "" {
        continue;
      }
      match parse(line)
      case Malformed(reason) =>
        return lines, rest, FoundBad(reason);
      case Announces(info) =>
        if look {
          return lines, rest, FoundReady(info);
        }
        assert lines + ([line] + d.lines) == (lines + [line]) + d.lines;
        lines := lines + [line];
      case NotReady =>
        assert lines + ([line] + d.lines) == (lines + [line]) + d.lines;
        lines := lines + [line];
    }
  }

  /** What the loop knows between two reads. */
  datatype Reader = Reader(outBuf: string, errBuf: string, outOpen: bool, errOpen: bool, log: Logged)

  /** One poll of `select!`. When one call returns, the other one is dropped with what it held. */
  function Poll(r: Reader, a: Arrival): Reader {
    match a
    case OutText(text) => r.(outBuf := r.outBuf + text, errBuf := if OutReturns(a) then "" else r.errBuf)
    case ErrText(text) => r.(errBuf := r.errBuf + text, outBuf := if ErrReturns(a) then "" else r.outBuf)
    case OutEnd => r.(outOpen := false, errBuf := "")
    case ErrRest => r.(outBuf := "")
    case ErrEnd => r.(errOpen := false, outBuf := "")
  }

  datatype Turned = Turned(reader: Reader, result: Option<Handshake>)

  /** One turn of the loop before the next read. `late` is what stderr can deliver without waiting once
      the announcement was found, and whether it closed there. */
  method Turn(r: Reader, late: string, lateClosed: bool, parse: Parser) returns (out: Turned)
    ensures var o := Drain(Terminated(r.outBuf, !r.outOpen), parse, true);
            var e := Drain(Terminated(r.errBuf, !r.errOpen), parse, false);
            && out.reader.log.out == r.log.out + o.lines && !e.found.FoundReady?
            && (o.found.FoundBad? ==> out.result == Some(Failed(o.found.reason)) && out.reader.log.err == r.log.err)
            && (o.found.Nothing? ==> out.reader.log.err == r.log.err + e.lines)
            && (o.found.Nothing? && e.found.FoundBad? ==> out.result == Some(Failed(e.found.reason)))
            && (o.found.Nothing? && !e.found.FoundBad? ==>
                  && out.reader == Reader(o.rest, e.rest, r.outOpen, r.errOpen,
                                          Logged(r.log.out + o.lines, r.log.err + e.lines))
                  && out.result == if r.outOpen || r.errOpen then None else Some(Eof))
            && (o.found.FoundReady? && !r.errOpen ==>
                  out.result == Some(Announced(o.found.info)) && out.reader.log.err == r.log.err)
            && (o.found.FoundReady? && r.errOpen ==>
                  var l := Drain(Terminated(r.errBuf + late, lateClosed), parse, false);
                  && out.result == Some(if l.found.FoundBad? then Failed(l.found.reason) else Announced(o.found.info))
                  && out.reader.log.err == r.log.err + l.lines)
  {
    hide Drain;
    NeverReady(Terminated(r.errBuf, !r.errOpen), parse);
    NeverReady(Terminated(r.errBuf + late, lateClosed), parse);
    var lines, rest, found := DrainLines(Terminated(r.outBuf, !r.outOpen), parse, true);
    var next := r.(outBuf := rest, log := r.log.(out := r.log.out + lines));
    match found
    case FoundBad(reason) =>
      return Turned(next, Some(Failed(reason)));
    case FoundReady(info) =>
      if r.errOpen {
        var lateLines, lateRest, lateFound := DrainLines(Terminated(r.errBuf + late, lateClosed), parse, false);
        next := next.(errBuf := lateRest, errOpen := !lateClosed, log := next.log.(err := next.log.err + lateLines));
        if lateFound.FoundBad? {
          return Turned(next, Some(Failed(lateFound.reason)));
        }
      }
      return Turned(next, Some(Announced(info)));
    case Nothing =>
      var errLines, errRest, errFound := DrainLines(Terminated(r.errBuf, !r.errOpen), parse, false);
      next := next.(errBuf := errRest, log := next.log.(err := next.log.err + errLines));
      if errFound.FoundBad? {
        return Turned(next, Some(Failed(errFound.reason)));
      }
      out := Turned(next, if r.outOpen || r.errOpen then None else Some(Eof));
  }

  /** Where nobody looks for the announcement, none is found. */
  lemma {:induction false} NeverReady(buf: string, parse: Parser)
    ensures !Drain(buf, parse, false).found.FoundReady?
    decreases |buf|
  {
    var k := FindNewline(buf);
    if k < |buf| { NeverReady(buf[k + 1..], parse); }
  }

  // ---------- what the handshake comes to ----------

  ghost predicate ErrBad(seen: seq<Arrival>, parse: Parser) {
    Drain(ErrRead(seen), parse, false).found.FoundBad?
  }

  /** These arrivals end the handshake. */
  ghost predicate Decided(seen: seq<Arrival>, parse: Parser) {
    || !Drain(OutRead(seen), parse, true).found.Nothing?
    || ErrBad(seen, parse)
    || (OutEnd in seen && ErrEnd in seen)
  }

  ghost predicate DecidedAfter(arrivals: seq<Arrival>, n: nat, parse: Parser) {
    n <= |arrivals| && Decided(arrivals[..n], parse)
  }

  ghost function NextDecided(arrivals: seq<Arrival>, from: nat, parse: Parser): (n: nat)
    requires from <= |arrivals|
    ensures from <= n <= |arrivals| && (n < |arrivals| ==> DecidedAfter(arrivals, n, parse))
    ensures forall j :: from <= j < n ==> !DecidedAfter(arrivals, j, parse)
    decreases |arrivals| - from
  {
    hide DecidedAfter;
    if from == |arrivals| || DecidedAfter(arrivals, from, parse) then from else NextDecided(arrivals, from + 1, parse)
  }

  /** How many arrivals the handshake reads: up to the first that decides it, or all. */
  ghost function DecidedAt(arrivals: seq<Arrival>, parse: Parser): (n: nat)
    ensures n <= |arrivals| && (n < |arrivals| ==> Decided(arrivals[..n], parse))
    ensures forall j :: 0 <= j < n ==> !Decided(arrivals[..j], parse)
  {
    hide Decided;
    var n := NextDecided(arrivals, 0, parse);
    assert forall j :: 0 <= j < n ==> (DecidedAfter(arrivals, j, parse) <==> Decided(arrivals[..j], parse));
    n
  }

  /** What it comes to after the arrivals `seen`, the last of which decided it or was the last of all. */
  ghost function Outcome(seen: seq<Arrival>, late: string, lateClosed: bool, parse: Parser): (Handshake, Logged) {
    var o, e := Drain(OutRead(seen), parse, true), Drain(ErrRead(seen), parse, false);
    var l := Drain(Terminated(late, lateClosed), parse, false);
    match o.found
    case FoundReady(info) =>
      if ErrEnd in seen then (Announced(info), Logged(o.lines, e.lines))
      else (if l.found.FoundBad? then Failed(l.found.reason) else Announced(info), Logged(o.lines, e.lines + l.lines))
    case FoundBad(reason) => (Failed(reason), Logged(o.lines, e.lines))
    case Nothing =>
      (if e.found.FoundBad? then Failed(e.found.reason)
       else if OutEnd in seen && ErrEnd in seen then Eof
       else TimedOut,
       Logged(o.lines, e.lines))
  }

  /** The reader has read the arrivals; what it recorded and what is still to be drained make up what the
      loop gets to see. */
  ghost predicate Pending(r: Reader, seen: seq<Arrival>, parse: Parser) {
    && r.outOpen == (OutEnd !in seen) && r.errOpen == (ErrEnd !in seen)
    && Drain(OutRead(seen), parse, true) == Joined(r.log.out, Drain(Terminated(r.outBuf, !r.outOpen), parse, true))
    && Drain(ErrRead(seen), parse, false) == Joined(r.log.err, Drain(Terminated(r.errBuf, !r.errOpen), parse, false))
  }

  /** And it has been drained, without anything that ended the handshake. */
  ghost predicate Settled(r: Reader, seen: seq<Arrival>, parse: Parser) {
    && r.outOpen == (OutEnd !in seen) && r.errOpen == (ErrEnd !in seen)
    && Drains(OutRead(seen), r.log.out, r.outBuf, parse, true)
    && Drains(ErrRead(seen), r.log.err, r.errBuf, parse, false)
  }

  /** A turn follows one call that returned, so one of the streams has nothing new. */
  ghost predicate OneIdle(r: Reader, seen: seq<Arrival>, parse: Parser) {
    || (r.outBuf == "" && Drains(OutRead(seen), r.log.out, "", parse, true))
    || (r.errBuf == "" && Drains(ErrRead(seen), r.log.err, "", parse, false))
  }

  lemma StaysClosed(read: string, closed: bool, fate: Fate)
    requires closed ==> !EndsOpen(read) && (fate.Grows? ==> fate.more == "")
    ensures closed || fate.Closes? ==> !EndsOpen(Fed(read, fate))
  {
    hide LinesOf;
  }

  /** A closed stream has no half line. */
  lemma {:induction false} ClosedIsWhole(seen: seq<Arrival>)
    requires Orderly(seen)
    ensures OutEnd in seen ==> !EndsOpen(OutRead(seen))
    ensures ErrEnd in seen ==> !EndsOpen(ErrRead(seen))
    decreases |seen|
  {
    hide EndsOpen, Fed, Orderly;
    if seen == [] {
    } else {
      var front, a := seen[..|seen| - 1], seen[|seen| - 1];
      assert seen == front + [a];
      OrderlyFront(front, a);
      NothingAfterEnd(front, a);
      ClosedIsWhole(front);
      OneMore(front, a);
      StaysClosed(OutRead(front), OutEnd in front, OutFate(a));
      StaysClosed(ErrRead(front), ErrEnd in front, ErrFate(a));
    }
  }

  lemma Polled(r: Reader, seen: seq<Arrival>, a: Arrival, parse: Parser)
    requires Settled(r, seen, parse) && Orderly(seen + [a])
    ensures Pending(Poll(r, a), seen + [a], parse)
    ensures if OutReturns(a) || ErrReturns(a) then OneIdle(Poll(r, a), seen + [a], parse)
            else Settled(Poll(r, a), seen + [a], parse)
  {
    hide Drain, Terminated, LinesOf, Fed;
    OneMore(seen, a);
    NothingAfterEnd(seen, a);
    OrderlyFront(seen, a);
    ClosedIsWhole(seen);
    StreamPolled(OutRead(seen), r.log.out, r.outBuf, r.outOpen, OutFate(a), parse, true);
    StreamPolled(ErrRead(seen), r.log.err, r.errBuf, r.errOpen, ErrFate(a), parse, false);
    assert Poll(r, a).outBuf == Held(r.outBuf, OutFate(a));
    assert Poll(r, a).errBuf == Held(r.errBuf, ErrFate(a));
  }

  /** The buffer of a stream after a poll. The newline of a closed stream comes with the next turn. */
  function Held(buf: string, fate: Fate): string {
    match fate
    case Grows(more) => buf + more
    case CutOff => ""
    case Closes => buf
  }

  lemma StreamPolled(text: string, lines: seq<string>, buf: string, open: bool, fate: Fate, parse: Parser, look: bool)
    requires Drains(text, lines, buf, parse, look)
    requires !open ==> !EndsOpen(text) && !fate.Closes? && (fate.Grows? ==> fate.more == "")
    ensures Drain(Fed(text, fate), parse, look)
         == Joined(lines, Drain(Terminated(Held(buf, fate), !open || fate.Closes?), parse, look))
    ensures fate.CutOff? ==> Drains(Fed(text, fate), lines, "", parse, look)
    ensures fate.Grows? && '\n' !in fate.more ==> Drains(Fed(text, fate), lines, Held(buf, fate), parse, look)
  {
    hide Drain, LinesOf;
    FedAlike(text, lines, buf, fate, parse, look);
    CutText(text, lines, buf, parse, look);
    RestHasNoLine(text, parse, look);
    if fate.Grows? && '\n' !in fate.more {
      NoLine(buf + fate.more, parse, look);
      assert lines + [] == lines;
    }
  }

  lemma {:induction false} OutGrows(arrivals: seq<Arrival>, i: nat) returns (more: string)
    requires Orderly(arrivals) && i <= |arrivals|
    ensures OutOf(arrivals) == OutOf(arrivals[..i]) + more
    ensures OutEnd in arrivals[..i] ==> more == "" && OutEnd in arrivals
    decreases |arrivals|
  {
    var n := |arrivals|;
    if i == n {
      assert arrivals[..i] == arrivals;
      more := "";
    } else {
      var front := arrivals[..n - 1];
      assert front[..i] == arrivals[..i] && arrivals == front + [arrivals[n - 1]];
      more := OutGrows(front, i);
      NothingAfterEnd(front, arrivals[n - 1]);
      var last := if arrivals[n - 1].OutText? then arrivals[n - 1].text else "";
      assert OutOf(arrivals[..i]) + more + last == OutOf(arrivals[..i]) + (more + last);
      assert OutEnd in front[..i] ==> OutEnd in front;
      more := more + last;
    }
  }

  lemma FoundEarly(arrivals: seq<Arrival>, i: nat, parse: Parser)
    requires Orderly(arrivals) && i <= |arrivals| && !Drain(WholeOut(arrivals[..i]), parse, true).found.Nothing?
    ensures Drain(WholeOut(arrivals), parse, true).found == Drain(WholeOut(arrivals[..i]), parse, true).found
    ensures Drain(WholeOut(arrivals), parse, true).lines == Drain(WholeOut(arrivals[..i]), parse, true).lines
  {
    hide Drain, OutOf;
    var more := OutGrows(arrivals, i);
    FoundStaysFound(OutOf(arrivals[..i]), OutEnd in arrivals[..i], more, OutEnd in arrivals, parse, true);
  }

  /** Something arrives only while one of the streams is open. */
  lemma OneIsOpen(arrivals: seq<Arrival>, i: nat)
    requires Orderly(arrivals) && i < |arrivals|
    ensures OutEnd !in arrivals[..i] || ErrEnd !in arrivals[..i]
  {
    var a := arrivals[i];
    if OutEnd in arrivals[..i] {
      var j :| 0 <= j < i && arrivals[..i][j] == OutEnd;
      assert arrivals[j] == OutEnd;
      assert !a.OutText? && !a.OutEnd?;
    }
    if ErrEnd in arrivals[..i] {
      var j :| 0 <= j < i && arrivals[..i][j] == ErrEnd;
      assert arrivals[j] == ErrEnd;
    }
  }

  // ---------- independence of arrival ----------

  function OutcomeOf(found: Found, closed: bool): Handshake {
    match found
    case FoundReady(info) => Announced(info)
    case FoundBad(reason) => Failed(reason)
    case Nothing => if closed then Eof else TimedOut
  }

  /** What splitting the whole stdout text at once comes to. */
  ghost function SplitOutcome(arrivals: seq<Arrival>, parse: Parser): Handshake {
    OutcomeOf(Drain(WholeOut(arrivals), parse, true).found, OutEnd in arrivals && ErrEnd in arrivals)
  }

  ghost predicate Undecided(seen: seq<Arrival>, parse: Parser) {
    Drain(WholeOut(seen), parse, true).found.Nothing?
  }

  ghost predicate ErrFirst(seen: seq<Arrival>, parse: Parser) {
    ErrBad(seen, parse) && Undecided(seen, parse)
  }

  /** Stdout announces, and what stderr can still deliver looks like a broken announcement. */
  ghost predicate LateBad(seen: seq<Arrival>, late: string, lateClosed: bool, parse: Parser) {
    && ErrEnd !in seen && Drain(WholeOut(seen), parse, true).found.FoundReady?
    && Drain(Terminated(late, lateClosed), parse, false).found.FoundBad?
  }

  /** A line of stderr that looks like a broken announcement comes before stdout has decided, or late. */
  ghost predicate Intrudes(arrivals: seq<Arrival>, late: string, lateClosed: bool, parse: Parser) {
    || (exists j :: 0 <= j <= |arrivals| && ErrFirst(arrivals[..j], parse))
    || LateBad(arrivals[..DecidedAt(arrivals, parse)], late, lateClosed, parse)
  }

  lemma OrderlyPrefix(arrivals: seq<Arrival>, n: nat)
    requires Orderly(arrivals) && n <= |arrivals|
    ensures Orderly(arrivals[..n])
  {
    forall i, j | 0 <= i < j < n ensures arrivals[..n][i] == arrivals[i] && arrivals[..n][j] == arrivals[j] {
    }
  }

  /** Where stdout is decided after `n` arrivals it stays decided. */
  lemma StaysDecided(arrivals: seq<Arrival>, n: nat, j: nat, parse: Parser)
    requires Orderly(arrivals) && n <= j <= |arrivals| && !Undecided(arrivals[..n], parse)
    ensures !Undecided(arrivals[..j], parse)
  {
    hide Drain, WholeOut, Orderly;
    OrderlyPrefix(arrivals, j);
    assert arrivals[..j][..n] == arrivals[..n];
    FoundEarly(arrivals[..j], n, parse);
  }

  lemma UndecidedEnd(arrivals: seq<Arrival>, parse: Parser)
    requires Orderly(arrivals) && Undisturbed(arrivals[..DecidedAt(arrivals, parse)])
    ensures var n := DecidedAt(arrivals, parse);
            n < |arrivals| ==> !Undecided(arrivals[..n], parse) || ErrBad(arrivals[..n], parse)
  {
    hide Drain, ErrRead, OutRead, WholeOut, Orderly, Undisturbed, DecidedAt;
    var n := DecidedAt(arrivals, parse);
    OrderlyPrefix(arrivals, n);
    ReadWholeExactly(arrivals[..n]);
    if n < |arrivals| { OneIsOpen(arrivals, n); }
  }

  lemma EarlyIntruder(arrivals: seq<Arrival>, j: nat, parse: Parser)
    requires Orderly(arrivals) && Undisturbed(arrivals[..DecidedAt(arrivals, parse)])
    requires j <= |arrivals| && ErrFirst(arrivals[..j], parse)
    ensures ErrFirst(arrivals[..DecidedAt(arrivals, parse)], parse)
  {
    hide Undecided, ErrBad, DecidedAt, Orderly, Undisturbed;
    var n := DecidedAt(arrivals, parse);
    assert Decided(arrivals[..j], parse);
    UndecidedEnd(arrivals, parse);
    if !Undecided(arrivals[..n], parse) { StaysDecided(arrivals, n, j, parse); }
  }

  /** Before stdout decided, stderr intruded exactly if it decided. */
  lemma EarlyIntrusion(arrivals: seq<Arrival>, parse: Parser)
    requires Orderly(arrivals) && Undisturbed(arrivals[..DecidedAt(arrivals, parse)])
    ensures ErrFirst(arrivals[..DecidedAt(arrivals, parse)], parse) <==>
            exists j :: 0 <= j <= |arrivals| && ErrFirst(arrivals[..j], parse)
  {
    hide ErrFirst, DecidedAt, Orderly, Undisturbed;
    forall j | 0 <= j <= |arrivals| && ErrFirst(arrivals[..j], parse)
      ensures ErrFirst(arrivals[..DecidedAt(arrivals, parse)], parse)
    {
      EarlyIntruder(arrivals, j, parse);
    }
  }

  /** The outcome where stdout was read whole up to the decision. */
  lemma OutcomeAtDecision(seen: seq<Arrival>, late: string, lateClosed: bool, parse: Parser)
    requires OutRead(seen) == WholeOut(seen)
    ensures var (out, log) := Outcome(seen, late, lateClosed, parse);
            && log.out == Drain(WholeOut(seen), parse, true).lines
            && if ErrFirst(seen, parse) || LateBad(seen, late, lateClosed, parse) then out.Failed?
               else out == SplitOutcome(seen, parse)
  {
    hide Drain, OutRead, ErrRead, WholeOut;
  }

  /** While stdout is not disturbed, the pieces do not matter if and only if stderr does not intrude: then
      the outcome and the recorded lines are those of splitting stdout as a whole, an unterminated last
      line included. Otherwise the handshake fails. */
  lemma ArrivalMattersExactly(arrivals: seq<Arrival>, late: string, lateClosed: bool, parse: Parser)
    requires Orderly(arrivals) && Undisturbed(arrivals[..DecidedAt(arrivals, parse)])
    ensures var (out, log) := Outcome(arrivals[..DecidedAt(arrivals, parse)], late, lateClosed, parse);
            && (!Intrudes(arrivals, late, lateClosed, parse) ==>
                  out == SplitOutcome(arrivals, parse) && log.out == Drain(WholeOut(arrivals), parse, true).lines)
            && (Intrudes(arrivals, late, lateClosed, parse) ==> out.Failed?)
            && (!SplitOutcome(arrivals, parse).Failed? ==>
                  (out == SplitOutcome(arrivals, parse) <==> !Intrudes(arrivals, late, lateClosed, parse)))
  {
    var n := DecidedAt(arrivals, parse);
    var seen := arrivals[..n];
    OrderlyPrefix(arrivals, n);
    ReadWholeExactly(seen);
    OutcomeAtDecision(seen, late, lateClosed, parse);
    EarlyIntrusion(arrivals, parse);
    UndecidedEnd(arrivals, parse);
    hide Drain, OutRead, ErrRead, WholeOut, DecidedAt, Orderly, Undisturbed, Outcome, SplitOutcome, LateBad, ErrBad;
    if !ErrFirst(seen, parse) { SplitAtDecision(arrivals, n, parse); }
  }

  /** Splitting what was read up to the decision is splitting all of stdout. */
  lemma SplitAtDecision(arrivals: seq<Arrival>, n: nat, parse: Parser)
    requires Orderly(arrivals) && n <= |arrivals|
    requires n == |arrivals| || !Undecided(arrivals[..n], parse)
    ensures SplitOutcome(arrivals, parse) == SplitOutcome(arrivals[..n], parse)
    ensures Drain(WholeOut(arrivals), parse, true).lines == Drain(WholeOut(arrivals[..n]), parse, true).lines
  {
    hide Drain, WholeOut, Orderly;
    if n == |arrivals| {
      assert arrivals[..n] == arrivals;
    } else {
      FoundEarly(arrivals, n, parse);
    }
  }

  lemma EndedAt(arrivals: seq<Arrival>, n: nat, parse: Parser)
    requires n <= |arrivals| && (n < |arrivals| ==> Decided(arrivals[..n], parse))
    requires forall j :: 0 <= j < n ==> !Decided(arrivals[..j], parse)
    ensures DecidedAt(arrivals, parse) == n
  {
    hide Decided;
    var m := DecidedAt(arrivals, parse);
    assert m < n ==> m < |arrivals|;
    assert n < m ==> n < |arrivals|;
  }

  lemma TurnIsOutcome(r: Reader, seen: seq<Arrival>, late: string, lateClosed: bool, parse: Parser)
    requires Pending(r, seen, parse) && OneIdle(r, seen, parse)
    ensures var o := Drain(Terminated(r.outBuf, !r.outOpen), parse, true);
            var e := Drain(Terminated(r.errBuf, !r.errOpen), parse, false);
            var l := Drain(Terminated(r.errBuf + late, lateClosed), parse, false);
            var (out, log) := Outcome(seen, late, lateClosed, parse);
            && log.out == r.log.out + o.lines
            && (o.found.FoundBad? ==> out == Failed(o.found.reason) && log.err == r.log.err)
            && (o.found.Nothing? ==> log.err == r.log.err + e.lines)
            && (o.found.Nothing? && e.found.FoundBad? ==> out == Failed(e.found.reason))
            && (o.found.Nothing? && !e.found.FoundBad? ==> out == if r.outOpen || r.errOpen then TimedOut else Eof)
            && (o.found.FoundReady? && !r.errOpen ==> out == Announced(o.found.info) && log.err == r.log.err)
            && (o.found.FoundReady? && r.errOpen ==>
                  && out == (if l.found.FoundBad? then Failed(l.found.reason) else Announced(o.found.info))
                  && log.err == r.log.err + l.lines)
            && (Decided(seen, parse) <==> !o.found.Nothing? || e.found.FoundBad? || (!r.outOpen && !r.errOpen))
  {
    NoLine("", parse, true);
    hide Drain, OutRead, ErrRead;
    assert "" + late == late;
  }

  /** `await_ready` for any way in which the two streams arrive. */
  method AwaitReady(arrivals: seq<Arrival>, late: string, lateClosed: bool, parse: Parser)
    returns (out: Handshake, log: Logged)
    requires Orderly(arrivals)
    ensures (out, log) == Outcome(arrivals[..DecidedAt(arrivals, parse)], late, lateClosed, parse)
  {
    hide Drain, Terminated, OutRead, ErrRead, DecidedAt, Outcome, Drains;
    var r := Reader("", "", true, true, Logged([], []));
    NothingYet(parse);
    var i := 0;
    while true
      invariant 0 <= i <= |arrivals|
      invariant Pending(r, arrivals[..i], parse) && OneIdle(r, arrivals[..i], parse)
      invariant forall j :: 0 <= j < i ==> !Decided(arrivals[..j], parse)
      decreases |arrivals| - i
    {
      ghost var seen := arrivals[..i];
      TurnIsOutcome(r, seen, late, lateClosed, parse);
      var turned := Turn(r, late, lateClosed, parse);
      if turned.result.Some? {
        EndedAt(arrivals, i, parse);
        return turned.result.value, turned.reader.log;
      }
      StillSettled(r, turned.reader, seen, parse);
      r := turned.reader;
      var returned := false;
      ghost var from := i;
      while !returned
        invariant from <= i <= |arrivals| && (returned ==> from < i)
        invariant returned ==> Pending(r, arrivals[..i], parse) && OneIdle(r, arrivals[..i], parse)
        invariant !returned ==> Settled(r, arrivals[..i], parse) && (r.outOpen || r.errOpen)
        invariant forall j :: 0 <= j < i ==> !Decided(arrivals[..j], parse)
        decreases |arrivals| - i
      {
        SettledIsOpen(r, arrivals[..i], late, lateClosed, parse);
        if i == |arrivals| {
          EndedAt(arrivals, i, parse);
          return TimedOut, r.log;
        }
        var a := arrivals[i];
        assert arrivals[..i + 1] == arrivals[..i] + [a];
        OrderlyPrefix(arrivals, i + 1);
        Polled(r, arrivals[..i], a, parse);
        r, returned, i := Poll(r, a), OutReturns(a) || ErrReturns(a), i + 1;
      }
    }
  }

  lemma NothingYet(parse: Parser)
    ensures var r := Reader("", "", true, true, Logged([], []));
            Pending(r, [], parse) && OneIdle(r, [], parse)
  {
  }

  lemma StillSettled(r: Reader, next: Reader, seen: seq<Arrival>, parse: Parser)
    requires Pending(r, seen, parse)
    requires var o := Drain(Terminated(r.outBuf, !r.outOpen), parse, true);
             var e := Drain(Terminated(r.errBuf, !r.errOpen), parse, false);
             && o.found.Nothing? && e.found.Nothing?
             && next == Reader(o.rest, e.rest, r.outOpen, r.errOpen, Logged(r.log.out + o.lines, r.log.err + e.lines))
    ensures Settled(next, seen, parse)
  {
    hide Drain, OutRead, ErrRead;
  }

  lemma SettledIsOpen(r: Reader, seen: seq<Arrival>, late: string, lateClosed: bool, parse: Parser)
    requires Settled(r, seen, parse) && (r.outOpen || r.errOpen)
    ensures !Decided(seen, parse) && Outcome(seen, late, lateClosed, parse) == (TimedOut, r.log)
  {
    hide Drain, OutRead, ErrRead;
  }

  // ---------- pieces that matter ----------

  /** A text of one line. */
  lemma OneLine(line: string, parse: Parser, look: bool)
    requires '\n' !in line
    ensures Drain(line + "\n", parse, look) ==
            match Judge(TrimEnd(line), parse, look)
            case Skip => Drained([], "", Nothing)
            case Keep => Drained([TrimEnd(line)], "", Nothing)
            case Stop(found) => Drained([], "", found)
  {
    hide Judge, TrimEnd;
    var rest := "";
    assert line + "\n" + rest == line + "\n";
    DrainLine(line, rest, parse, look);
  }

  lemma LinesOfOne(line: string)
    requires '\n' !in line
    ensures LinesOf(line) == "" && LinesOf(line + "\n") == line + "\n" && !EndsOpen(line + "\n")
  {
    NothingOf(line);
  }

  lemma NothingRead()
    ensures OutRead([]) == "" && ErrRead([]) == "" && WholeOut([]) == ""
  {
  }

  lemma FirstArrival(a: Arrival)
    ensures OutRead([a]) == Fed("", OutFate(a)) && ErrRead([a]) == Fed("", ErrFate(a))
    ensures WholeOut([a]) == if a.OutText? then a.text else ""
  {
    OneMore([], a);
    assert [] + [a] == [a];
  }

  lemma DecidedAtOnce(a: Arrival, more: seq<Arrival>, parse: Parser)
    requires Decided([a], parse)
    ensures var all := [a] + more; DecidedAt(all, parse) == 1 && all[..1] == [a]
  {
    var all := [a] + more;
    assert all[..1] == [a] && all[..0] == [];
    NoLine("", parse, true);
    NoLine("", parse, false);
    EndedAt(all, 1, parse);
  }

  /** A broken announcement on stderr ends the handshake, although stdout announces. */
  lemma BrokenErrLineAborts(good: string, bad: string, info: Info, reason: string, parse: Parser)
    requires '\n' !in good && '\n' !in bad && TrimEnd(good) != "" && TrimEnd(bad) != ""
    requires parse(TrimEnd(good)) == Announces(info) && parse(TrimEnd(bad)) == Malformed(reason)
    ensures var arrivals := [ErrText(bad + "\n"), OutText(good + "\n")];
            && SplitOutcome(arrivals, parse) == Announced(info)
            && Outcome(arrivals[..DecidedAt(arrivals, parse)], "", false, parse).0 == Failed(reason)
  {
    var b, g := ErrText(bad + "\n"), OutText(good + "\n");
    assert [b, g] == [b] + [g];
    hide Drain, TrimEnd, OutRead, ErrRead, DecidedAt, WholeOut;
    ErrLineReads(bad, good);
    OneLine(bad, parse, false);
    NoLine("", parse, true);
    DecidedAtOnce(b, [g], parse);
    OneLine(good, parse, true);
  }

  lemma ErrLineReads(bad: string, good: string)
    ensures var b, g := ErrText(bad + "\n"), OutText(good + "\n");
            OutRead([b]) == "" && ErrRead([b]) == bad + "\n" && WholeOut([b, g]) == good + "\n"
  {
    var b, g := ErrText(bad + "\n"), OutText(good + "\n");
    FirstArrival(b);
    OneMore([b], g);
    assert [b, g] == [b] + [g];
    assert "" + (good + "\n") == good + "\n" && "" + (bad + "\n") == bad + "\n";
  }

  /** Also when it comes late, behind the announcement. */
  lemma LateBrokenErrLineAborts(good: string, bad: string, info: Info, reason: string, parse: Parser)
    requires '\n' !in good && '\n' !in bad && TrimEnd(good) != "" && TrimEnd(bad) != ""
    requires parse(TrimEnd(good)) == Announces(info) && parse(TrimEnd(bad)) == Malformed(reason)
    ensures var arrivals := [OutText(good + "\n")];
            && SplitOutcome(arrivals, parse) == Announced(info)
            && Outcome(arrivals[..DecidedAt(arrivals, parse)], bad + "\n", false, parse).0 == Failed(reason)
  {
    var g := OutText(good + "\n");
    hide Drain, TrimEnd, LinesOf, OutRead, ErrRead, DecidedAt, WholeOut;
    assert OutRead([g]) == WholeOut([g]) == good + "\n" by {
      FirstArrival(g);
      assert "" + (good + "\n") == good + "\n";
    }
    assert [g] == [g] + [];
    OneLine(good, parse, true);
    DecidedAtOnce(g, [], parse);
    OneLine(bad, parse, false);
    assert Terminated(bad + "\n", false) == bad + "\n";
  }

  /** A harmless line of stderr that arrives inside the announcement destroys it: the handshake runs out
      of time although stdout as a whole announces. */
  lemma HalfLineIsLost(left: string, right: string, line: string, info: Info, parse: Parser)
    requires '\n' !in left && '\n' !in right && '\n' !in line && left != "" && TrimEnd(left + right) != ""
    requires parse(TrimEnd(left + right)) == Announces(info)
    requires parse(TrimEnd(right)) == NotReady && parse(TrimEnd(line)) == NotReady
    ensures var arrivals := [OutText(left), ErrText(line + "\n"), OutText(right + "\n")];
            && Orderly(arrivals) && !Undisturbed(arrivals)
            && SplitOutcome(arrivals, parse) == Announced(info)
            && Outcome(arrivals[..DecidedAt(arrivals, parse)], "", false, parse).0 == TimedOut
  {
    LostHalf(left, right, line, parse);
    OneLine(left + right, parse, true);
  }

  /** And inside a line that is no announcement it may leave one. */
  lemma HalfLineMayAnnounce(left: string, right: string, line: string, info: Info, parse: Parser)
    requires '\n' !in left && '\n' !in right && '\n' !in line && left != "" && TrimEnd(right) != ""
    requires parse(TrimEnd(right)) == Announces(info)
    requires parse(TrimEnd(left + right)) == NotReady && parse(TrimEnd(line)) == NotReady
    ensures var arrivals := [OutText(left), ErrText(line + "\n"), OutText(right + "\n")];
            && Orderly(arrivals) && !Undisturbed(arrivals)
            && SplitOutcome(arrivals, parse) == TimedOut
            && Outcome(arrivals[..DecidedAt(arrivals, parse)], "", false, parse).0 == Announced(info)
  {
    LostHalf(left, right, line, parse);
    OneLine(left + right, parse, true);
    NoLine("", parse, false);
  }

  /** What the loop makes of a line of stdout with a line of stderr in its middle. */
  lemma LostHalf(left: string, right: string, line: string, parse: Parser)
    requires '\n' !in left && '\n' !in right && '\n' !in line && left != ""
    requires parse(TrimEnd(line)) == NotReady
    ensures var arrivals := [OutText(left), ErrText(line + "\n"), OutText(right + "\n")];
            var found := Drain(right + "\n", parse, true).found;
            && Orderly(arrivals) && !Undisturbed(arrivals) && WholeOut(arrivals) == left + right + "\n"
            && Outcome(arrivals[..DecidedAt(arrivals, parse)], "", false, parse).0 ==
               OutcomeOf(found, false)
            && found == if Judge(TrimEnd(right), parse, true).Stop? then Judge(TrimEnd(right), parse, true).found
                        else Nothing
  {
    var a, b, c := OutText(left), ErrText(line + "\n"), OutText(right + "\n");
    var arrivals := [a, b, c];
    hide Drain, TrimEnd, Judge, OutRead, ErrRead, LinesOf, WholeOut, DecidedAt;
    HalfLineReads(left, right, line);
    NotYetDecided(left, right, line, parse);
    assert arrivals[..3] == arrivals;
    EndedAt(arrivals, 3, parse);
    OneLine(right, parse, true);
    OneLine(line, parse, false);
    NoLine("", parse, false);
    JudgeOfPlain(TrimEnd(line), parse);
    assert !Calm(arrivals, 1) by {
      assert arrivals[..1] == [a];
      assert (line + "\n")[|line|] == '\n';
    }
  }

  lemma JudgeOfPlain(line: string, parse: Parser)
    requires parse(line) == NotReady
    ensures !Judge(line, parse, false).Stop?
  {
  }

  lemma HalfLineReads(left: string, right: string, line: string)
    requires '\n' !in left && '\n' !in right && '\n' !in line && left != ""
    ensures var a, b, c := OutText(left), ErrText(line + "\n"), OutText(right + "\n");
            && OutRead([a]) == left && ErrRead([a]) == "" && WholeOut([a]) == left
            && OutRead([a, b]) == "" && ErrRead([a, b]) == line + "\n"
            && OutRead([a, b, c]) == right + "\n" && ErrRead([a, b, c]) == line + "\n"
            && WholeOut([a, b, c]) == left + right + "\n"
  {
    hide OutRead, ErrRead, LinesOf, WholeOut;
    var a, b, c := OutText(left), ErrText(line + "\n"), OutText(right + "\n");
    assert OutRead([a]) == left && ErrRead([a]) == "" && WholeOut([a]) == left by {
      FirstArrival(a);
      assert "" + left == left && "" + "" == "";
    }
    assert OutRead([a, b]) == "" && ErrRead([a, b]) == line + "\n" by {
      assert [a] + [b] == [a, b];
      OneMore([a], b);
      LinesOfOne(left);
      assert (line + "\n")[|line|] == '\n';
      assert "" + (line + "\n") == line + "\n";
    }
    assert OutRead([a, b, c]) == right + "\n" && ErrRead([a, b, c]) == line + "\n" by {
      assert [a, b] + [c] == [a, b, c];
      OneMore([a, b], c);
      LinesOfOne(line);
      assert (right + "\n")[|right|] == '\n';
      assert "" + (right + "\n") == right + "\n";
    }
    HalfLineWhole(left, right, line);
  }

  lemma HalfLineWhole(left: string, right: string, line: string)
    ensures WholeOut([OutText(left), ErrText(line + "\n"), OutText(right + "\n")]) == left + right + "\n"
  {
    hide OutRead, ErrRead, LinesOf, OutOf;
    var a, b, c := OutText(left), ErrText(line + "\n"), OutText(right + "\n");
    FirstArrival(a);
    assert [a] + [b] == [a, b] && [a, b] + [c] == [a, b, c];
    OneMore([a], b);
    OneMore([a, b], c);
    assert OutOf([a, b]) == left + "" == left;
    assert left + (right + "\n") == left + right + "\n";
  }

  lemma NotYetDecided(left: string, right: string, line: string, parse: Parser)
    requires '\n' !in left && '\n' !in right && '\n' !in line && left != ""
    requires parse(TrimEnd(line)) == NotReady
    ensures var arrivals := [OutText(left), ErrText(line + "\n"), OutText(right + "\n")];
            forall j :: 0 <= j <= 2 ==> !Decided(arrivals[..j], parse)
  {
    var a, b, c := OutText(left), ErrText(line + "\n"), OutText(right + "\n");
    var arrivals := [a, b, c];
    hide Drain, TrimEnd, OutRead, ErrRead, WholeOut;
    HalfLineReads(left, right, line);
    NothingRead();
    OneLine(line, parse, false);
    NoLine("", parse, true);
    NoLine("", parse, false);
    NoLine(left, parse, true);
    assert arrivals[..0] == [] && arrivals[..1] == [a] && arrivals[..2] == [a, b];
  }
}
