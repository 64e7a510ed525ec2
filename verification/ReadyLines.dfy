/** What draining a stream means for its lines: which are recorded, which one stops the loop, and what is
    left. */
module ReadyLines {
  import opened Options
  import opened Ready

  predicate IsEnd(c: char) {
    c == '\r' || c == '\n'
  }

  /** `core` is the line without the line ends behind it. */
  ghost predicate IsCore(line: string, core: string) {
    && core <= line && (forall i :: |core| <= i < |line| ==> IsEnd(line[i]))
    && (core != "" ==> !IsEnd(core[|core| - 1]))
  }

  lemma {:induction false} TrimEndIsCore(line: string)
    ensures IsCore(line, TrimEnd(line))
  {
    if line != "" && IsEnd(line[|line| - 1]) { TrimEndIsCore(line[..|line| - 1]); }
  }

  lemma OneCore(line: string, a: string, b: string)
    requires IsCore(line, a) && IsCore(line, b)
    ensures a == b
  {
    assert a != "" ==> a[|a| - 1] == line[|a| - 1];
    assert b != "" ==> b[|b| - 1] == line[|b| - 1];
  }

  /** The text of these lines, each ended by a newline, and a half line behind them. */
  function TextOf(lines: seq<string>, tail: string): string {
    if lines == [] then tail else lines[0] + "\n" + TextOf(lines[1..], tail)
  }

  ghost predicate NoNewline(lines: seq<string>) {
    forall i :: 0 <= i < |lines| ==> '\n' !in lines[i]
  }

  /** The line stops the loop: it is a broken announcement, or one that is looked for. */
  predicate Stops(line: string, parse: Parser, look: bool) {
    line != "" && (parse(line).Malformed? || (parse(line).Announces? && look))
  }

  /** The cores of the lines that are not blank. */
  function NotBlank(cores: seq<string>): seq<string> {
    if cores == [] then [] else (if cores[0] != "" then [cores[0]] else []) + NotBlank(cores[1..])
  }

  ghost predicate AreCores(lines: seq<string>, cores: seq<string>) {
    |cores| == |lines| && forall i :: 0 <= i < |lines| ==> IsCore(lines[i], cores[i])
  }

  lemma FirstOfText(lines: seq<string>, tail: string)
    requires lines != []
    ensures TextOf(lines, tail) == lines[0] + "\n" + TextOf(lines[1..], tail)
  {
  }

  lemma PlainLine(line: string)
    requires '\n' !in line
    ensures FindNewline(line) == |line|
  {
  }

  /** Without a stopping line all lines are read: those that are not blank are recorded, and the half line is
      left. */
  lemma {:induction false} DrainsAll(lines: seq<string>, cores: seq<string>, tail: string, parse: Parser, look: bool)
    requires NoNewline(lines) && '\n' !in tail && AreCores(lines, cores)
    requires forall i :: 0 <= i < |cores| ==> !Stops(cores[i], parse, look)
    ensures Drain(TextOf(lines, tail), parse, look) == Drained(NotBlank(cores), tail, Nothing)
  {
    hide Drain, TextOf, IsCore, TrimEnd;
    if lines == [] {
      NoText(tail);
      NoLine(tail, parse, look);
    } else {
      LineDrains(lines, cores, tail, parse, look);
      DrainsAll(lines[1..], cores[1..], tail, parse, look);
      assert [] + NotBlank(cores[1..]) == NotBlank(cores[1..]);
    }
  }

  lemma NoText(tail: string)
    ensures TextOf([], tail) == tail
  {
  }

  lemma LineDrains(lines: seq<string>, cores: seq<string>, tail: string, parse: Parser, look: bool)
    requires lines != [] && NoNewline(lines) && AreCores(lines, cores)
    ensures var core, rest := cores[0], TextOf(lines[1..], tail);
            Drain(TextOf(lines, tail), parse, look) ==
            if Stops(core, parse, look)
            then Drained([], rest, if parse(core).Malformed? then FoundBad(parse(core).reason)
                         else FoundReady(parse(core).info))
            else if core == "" then Drain(rest, parse, look) else Recorded(core, Drain(rest, parse, look))
  {
    hide Drain, TextOf, IsCore, TrimEnd, Recorded;
    FirstOfText(lines, tail);
    PlainLine(lines[0]);
    DrainLine(lines[0], TextOf(lines[1..], tail), parse, look);
    TrimEndIsCore(lines[0]);
    OneCore(lines[0], TrimEnd(lines[0]), cores[0]);
  }

  /** The first stopping line, which is itself not recorded, decides what is found; what stands behind it is
      left. */
  lemma {:induction false} DrainsUpTo(lines: seq<string>, cores: seq<string>, tail: string, k: nat, parse: Parser,
                                      look: bool)
    requires NoNewline(lines) && '\n' !in tail && AreCores(lines, cores)
    requires k < |cores| && Stops(cores[k], parse, look)
    requires forall i :: 0 <= i < k ==> !Stops(cores[i], parse, look)
    ensures Drain(TextOf(lines, tail), parse, look)
         == Drained(NotBlank(cores[..k]), TextOf(lines[k + 1..], tail),
                    match parse(cores[k]) case Malformed(reason) => FoundBad(reason)
                                          case Announces(info) => FoundReady(info) case NotReady => Nothing)
    decreases k
  {
    hide Drain, TextOf, IsCore, TrimEnd;
    LineDrains(lines, cores, tail, parse, look);
    if k == 0 {
      assert cores[..0] == [];
    } else {
      DrainsUpTo(lines[1..], cores[1..], tail, k - 1, parse, look);
      assert cores[1..][..k - 1] == cores[..k][1..] && lines[1..][k..] == lines[k + 1..];
      assert [] + NotBlank(cores[..k][1..]) == NotBlank(cores[..k][1..]);
    }
  }

  /** Every text has its lines. */
  lemma {:induction false} HasLines(text: string) returns (lines: seq<string>, cores: seq<string>, tail: string)
    ensures NoNewline(lines) && '\n' !in tail && AreCores(lines, cores) && text == TextOf(lines, tail)
    decreases |text|
  {
    hide IsCore, TrimEnd;
    if FindNewline(text) == |text| {
      lines, cores, tail := [], [], text;
    } else {
      var line, rest := FirstLine(text);
      lines, cores, tail := HasLines(rest);
      TrimEndIsCore(line);
      lines, cores := [line] + lines, [TrimEnd(line)] + cores;
    }
  }

  ghost predicate Carries(field: Option<nat>, n: nat) {
    if field.None? then n == 0 else n < 0x1_0000_0000 && exists wraps: nat :: field.value == n + wraps * 0x1_0000_0000
  }

  lemma OrZeroCarries(field: Option<nat>)
    ensures Carries(field, OrZero(field))
  {
    if field.Some? {
      var wraps: nat := field.value / 0x1_0000_0000;
      assert field.value == OrZero(field) + wraps * 0x1_0000_0000;
    }
  }

  /** A line announces the engine if and only if it starts with the prefix and its payload is an object with a
      usable port; with the prefix it is otherwise broken. */
  lemma AnnouncementMeans(line: string, core: string, payload: string, json: string -> Json)
    requires IsCore(line, core)
    ensures !("PRAELECTOR_READY " <= core) ==> ParseReadyLine(line, json) == NotReady
    ensures core == "PRAELECTOR_READY " + payload ==>
              var p, j := ParseReadyLine(line, json), json(payload);
              && !p.NotReady?
              && (p.Announces? <==> j.Object? && j.port.Some? && 1 <= j.port.value <= 65535)
              && (p.Announces? ==>
                    && p.info.port == j.port.value && Carries(j.pid, p.info.pid) && Carries(j.schema, p.info.schema)
                    && (j.version.Some? ==> p.info.version == j.version.value)
                    && (j.version.None? ==> p.info.version == ""))
  {
    TrimEndIsCore(line);
    OneCore(line, TrimEnd(line), core);
    hide TrimEnd, IsCore, OrZero;
    if core == "PRAELECTOR_READY " + payload {
      var j := json(payload);
      assert core[|READY_PREFIX|..] == payload;
      if j.Object? {
        OrZeroCarries(j.pid);
        OrZeroCarries(j.schema);
      }
    }
  }

  // ---------- stderr is read whole ----------

  function ErrOf(arrivals: seq<Arrival>): string {
    if arrivals == [] then ""
    else var a := arrivals[|arrivals| - 1]; ErrOf(arrivals[..|arrivals| - 1]) + (if a.ErrText? then a.text else "")
  }

  function WholeErr(arrivals: seq<Arrival>): string {
    Terminated(ErrOf(arrivals), ErrEnd in arrivals)
  }

  /** A line of stdout, or its end. */
  predicate EndsOutLine(a: Arrival) {
    a.OutEnd? || (a.OutText? && '\n' in a.text)
  }

  predicate ErrCalm(arrivals: seq<Arrival>, i: nat)
    requires i < |arrivals|
  {
    EndsOutLine(arrivals[i]) ==> !EndsOpen(WholeErr(arrivals[..i]))
  }

  /** Whenever a read of stdout returned, no line of stderr was half read. */
  ghost predicate ErrUndisturbed(arrivals: seq<Arrival>) {
    forall i :: 0 <= i < |arrivals| ==> ErrCalm(arrivals, i)
  }

  lemma ErrOneMore(front: seq<Arrival>, a: Arrival)
    ensures ErrOf(front + [a]) == ErrOf(front) + (if a.ErrText? then a.text else "")
  {
    var more := front + [a];
    assert more[..|more| - 1] == front;
  }

  lemma ErrUndisturbedFront(front: seq<Arrival>, a: Arrival)
    ensures ErrUndisturbed(front + [a]) <==>
            ErrUndisturbed(front) && (EndsOutLine(a) ==> !EndsOpen(WholeErr(front)))
  {
    hide WholeErr, EndsOpen, EndsOutLine;
    var more := front + [a];
    forall i | 0 <= i < |front| ensures ErrCalm(more, i) <==> ErrCalm(front, i) {
      assert more[..i] == front[..i] && more[i] == front[i];
    }
    assert more[..|front|] == front;
    assert ErrCalm(more, |front|) <==> (EndsOutLine(a) ==> !EndsOpen(WholeErr(front)));
    if ErrUndisturbed(front) && ErrCalm(more, |front|) {
      forall i | 0 <= i < |more| ensures ErrCalm(more, i) {
        if i < |front| { assert ErrCalm(front, i); }
      }
    }
    if ErrUndisturbed(more) {
      forall i | 0 <= i < |front| ensures ErrCalm(front, i) {
        assert ErrCalm(more, i);
      }
    }
  }

  lemma ErrReadOneMore(read: string, text: string, closed: bool, a: Arrival)
    requires closed ==> !a.ErrText? && !a.ErrEnd?
    requires |read| < |Terminated(text, closed)| || read == Terminated(text, closed)
    requires EndsOpen(read) ==> EndsOpen(Terminated(text, closed))
    ensures var read' := Fed(read, ErrFate(a));
            var whole := Terminated(text, closed);
            var whole' := Terminated(text + (if a.ErrText? then a.text else ""), closed || a.ErrEnd?);
            && (EndsOpen(read') ==> EndsOpen(whole'))
            && (read == whole && (EndsOutLine(a) ==> !EndsOpen(whole)) ==> read' == whole')
            && (read != whole || (EndsOutLine(a) && EndsOpen(whole)) ==> |read'| < |whole'|)
  {
    hide LinesOf, Fed, Terminated, EndsOpen;
    FedOneMore(read, text, closed, ErrFate(a));
  }

  /** The loop sees stderr as it was written if and only if no read of stdout returned inside one of its
      lines. Otherwise it sees less. */
  lemma {:induction false} ErrReadWholeExactly(arrivals: seq<Arrival>)
    requires Orderly(arrivals)
    ensures ErrRead(arrivals) == WholeErr(arrivals) <==> ErrUndisturbed(arrivals)
    ensures !ErrUndisturbed(arrivals) ==> |ErrRead(arrivals)| < |WholeErr(arrivals)|
    ensures EndsOpen(ErrRead(arrivals)) ==> EndsOpen(WholeErr(arrivals))
    decreases |arrivals|
  {
    if arrivals != [] {
      var front, a := arrivals[..|arrivals| - 1], arrivals[|arrivals| - 1];
      assert arrivals == front + [a];
      OrderlyFront(front, a);
      NothingAfterEnd(front, a);
      ErrReadWholeExactly(front);
      OneMore(front, a);
      ErrOneMore(front, a);
      ErrUndisturbedFront(front, a);
      ErrReadOneMore(ErrRead(front), ErrOf(front), ErrEnd in front, a);
    }
  }
}
