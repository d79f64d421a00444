/** `Reader`: assembles the text read from the receiver into lines and
    hands them to the `GpsData` and `RawLine` subscribers. The reader is an
    immutable state (`_data` and `_lastPoint`) and `ProcessBytes` a pure
    step that returns the new state and the events raised, in order. The
    haversine distance and the clock are parameters. */
module Reader {
  import opened Outcomes
  import Text
  import Checksum
  import Gprmc

  /** A subscriber call: `RawLine(line)` or `GpsData(point)`. */
  datatype Event = RawLine(line: seq<char>) | GpsData(point: Gprmc.GpsPoint)

  /** The range of `TimeSpan.Seconds`, the seconds component of an elapsed
      time, which is always below a minute in absolute value. */
  type Seconds = s: int | -59 <= s <= 59

  /** Stands in for `GeoDistanceCalculator.DistanceInMiles(lat1, lng1,
      lat2, lng2)`. */
  type Distance = (real, real, real, real) -> real

  /** Stands in for `GprmcParser.Parse`; every `Reader` of GPS.cs is
      `Wired` to it. */
  type Parser = seq<char> -> Gprmc.ParseResult

  /** Whether each event has a subscriber, the configured minimum distance
      between raised points, in miles, and the collaborators: the distance
      calculator and the sentence parser. */
  datatype Config = Config(
    hasGpsData: bool,
    hasRawLine: bool,
    minDistance: real,
    distance: Distance,
    parse: Parser)

  /** GPS.cs:280: the reader parses with `GprmcParser.Parse`. Line assembly
      is stated for any parser; what a parsed line raises is stated for
      this one. */
  ghost predicate Wired(cfg: Config)
  {
    forall line :: cfg.parse(line) == Gprmc.Parse(line)
  }

  /** `_data`, the unterminated text so far, and `_lastPoint`. */
  datatype State = State(data: seq<char>, lastPoint: Option<Gprmc.GpsPoint>)

  /** The state after a chunk, the events raised for it, and whether the
      parser threw out of `ProcessBytes`. */
  datatype Step = Step(state: State, events: seq<Event>, threw: bool)

  /** GPS.cs:275 and GPS.cs:278: the line is parsed only when it begins with
      `$GPRMC` and someone subscribes to `GpsData`. */
  predicate Attempted(line: seq<char>, cfg: Config)
  {
    Text.StartsWith(line, "$GPRMC") && cfg.hasGpsData
  }

  /** The distance from `p` back to `last`, as GPS.cs:286 asks for it. */
  function DistanceFrom(p: Gprmc.GpsPoint, last: Gprmc.GpsPoint, cfg: Config): real
  {
    cfg.distance(p.latitude, p.longitude, last.latitude, last.longitude)
  }

  /** GPS.cs:283-302: whether a newly parsed point is raised. The override
      for a minute gone by tests a seconds component above 60, which never
      holds, so only the distance decides. */
  function IsSignificant(p: Gprmc.GpsPoint, last: Option<Gprmc.GpsPoint>,
                         cfg: Config, elapsed: Seconds): (isOk: bool)
    ensures isOk <==> last.None? || DistanceFrom(p, last.value, cfg) >= cfg.minDistance
  {
    match last
    case None => true
    case Some(lastPoint) =>
      var distance := DistanceFrom(p, lastPoint, cfg);
      var isOk := !(distance < cfg.minDistance);
      if elapsed > 60 then true else isOk
  }

  /** A line whose point is raised: it is parsed, it yields a point, and
      that point is at least the minimum distance from the last one, if
      there is one. */
  predicate Raises(line: seq<char>, last: Option<Gprmc.GpsPoint>, cfg: Config)
  {
    && Attempted(line, cfg)
    && cfg.parse(line).Fix?
    && (last.None? || DistanceFrom(cfg.parse(line).point, last.value, cfg) >= cfg.minDistance)
  }

  /** What dispatching one trimmed line yields. */
  datatype Dispatched = Dispatched(events: seq<Event>, lastPoint: Option<Gprmc.GpsPoint>, threw: bool)

  /** GPS.cs:273-317 for one trimmed line. Only the parser's exception
      leaves the loop, and it leaves with nothing raised; `DispatchSpec`
      says what each line raises. */
  function Dispatch(line: seq<char>, last: Option<Gprmc.GpsPoint>,
                    cfg: Config, elapsed: Seconds): (d: Dispatched)
    ensures line == [] ==> d == Dispatched([], last, false)
    ensures d.threw ==> d.events == [] && d.lastPoint == last
  {
    if line == [] then Dispatched([], last, false)
    else
      var raw := if cfg.hasRawLine then [RawLine(line)] else [];
      if !Attempted(line, cfg) then Dispatched(raw, last, false)
      else
        match cfg.parse(line)
        case Throws => Dispatched([], last, true)
        case NoFix => Dispatched(raw, last, false)
        case Fix(gpsPoint) =>
          var raised := if IsSignificant(gpsPoint, last, cfg, elapsed) then [GpsData(gpsPoint)] else [];
          Dispatched(raised + raw, Some(gpsPoint), false)
  }

  /** What one trimmed line does: the parser's exception is the only way
      out; every parsed point becomes the last point, raised or not; a
      point is raised only when parsed and far enough from the last one;
      and every other non-empty line reaches `RawLine`, after any point. */
  lemma DispatchSpec(line: seq<char>, last: Option<Gprmc.GpsPoint>, cfg: Config, elapsed: Seconds)
    ensures var d := Dispatch(line, last, cfg, elapsed);
            && (d.threw <==> Attempted(line, cfg) && cfg.parse(line).Throws?)
            && d.lastPoint == (if Attempted(line, cfg) && cfg.parse(line).Fix?
                               then Some(cfg.parse(line).point) else last)
            && d.events ==
                 (if Raises(line, last, cfg) then [GpsData(cfg.parse(line).point)] else [])
                 + (if line != [] && cfg.hasRawLine && !d.threw then [RawLine(line)] else [])
  {
  }

  /** The text of `s` up to its first newline, or all of it. */
  function FirstLine(s: seq<char>): (r: seq<char>)
    ensures '\n' !in r
    ensures '\n' !in s ==> r == s
  {
    Text.Split(s, '\n')[0]
  }

  /** `ProcessBytes(temp)`: the `while` loop of GPS.cs:268-321 followed by
      GPS.cs:322. Each round splits the pending text on newlines, trims
      `_data` plus the first piece, dispatches it, and continues with the
      SECOND piece only. When the parser throws, the exception leaves the
      loop with `_data` holding the trimmed line. */
  function ProcessBytes(s: State, temp: seq<char>, cfg: Config, elapsed: Seconds): (r: Step)
    decreases |temp|
    // `_data` never keeps a newline
    ensures '\n' !in s.data ==> '\n' !in r.state.data
    // text without a newline is only appended
    ensures '\n' !in temp ==> r == Step(State(s.data + temp, s.lastPoint), [], false)
  {
    if '\n' !in temp then Step(State(s.data + temp, s.lastPoint), [], false)
    else
      var parts := Text.Split(temp, '\n');
      var data := Text.Trim(s.data + parts[0]);
      var d := Dispatch(data, s.lastPoint, cfg, elapsed);
      if d.threw then Step(State(data, d.lastPoint), [], true)
      else
        var next := ProcessBytes(State([], d.lastPoint), parts[1], cfg, elapsed);
        Step(next.state, d.events + next.events, next.threw)
  }

  /** A chunk with a newline: the loop body runs exactly once. The first
      line is dispatched; the text up to the second newline is kept, and
      whatever follows that is dropped. */
  lemma RunsOnce(s: State, temp: seq<char>, cfg: Config, elapsed: Seconds)
    requires '\n' in temp
    ensures var r := ProcessBytes(s, temp, cfg, elapsed);
            var i := Text.IndexOf(temp, '\n');
            var line := Text.Trim(s.data + temp[..i]);
            var d := Dispatch(line, s.lastPoint, cfg, elapsed);
            && r.threw == d.threw
            && r.events == d.events
            && r.state == (if d.threw then State(line, s.lastPoint)
                           else State(FirstLine(temp[i + 1..]), d.lastPoint))
  {
    var parts := Text.Split(temp, '\n');
    var d := Dispatch(Text.Trim(s.data + parts[0]), s.lastPoint, cfg, elapsed);
    if !d.threw {
      var next := ProcessBytes(State([], d.lastPoint), parts[1], cfg, elapsed);
      assert next.events == [] && !next.threw;
      assert parts[1] == FirstLine(temp[Text.IndexOf(temp, '\n') + 1..]);
    }
  }

  /** The first line of a text whose first newline follows `pre`. */
  lemma FirstLineOf(pre: seq<char>, post: seq<char>)
    requires '\n' !in pre
    ensures FirstLine(pre + ['\n'] + post) == pre
  {
    Text.IndexOfJoined(pre, '\n', post);
  }

  /** A chunk with one newline: the line it completes is dispatched and the
      text after the newline is kept. */
  lemma OneNewline(s: State, pre: seq<char>, suf: seq<char>, cfg: Config, elapsed: Seconds)
    requires '\n' !in pre && '\n' !in suf
    ensures var line := Text.Trim(s.data + pre);
            var d := Dispatch(line, s.lastPoint, cfg, elapsed);
            ProcessBytes(s, pre + ['\n'] + suf, cfg, elapsed)
              == if d.threw then Step(State(line, s.lastPoint), [], true)
                 else Step(State(suf, d.lastPoint), d.events, false)
  {
    Text.IndexOfJoined(pre, '\n', suf);
    RunsOnce(s, pre + ['\n'] + suf, cfg, elapsed);
  }

  /** A chunk with two or more newlines: everything after the second
      newline is lost, exactly as if the chunk had ended there. */
  lemma SecondNewlineDiscards(s: State, pre: seq<char>, mid: seq<char>, rest: seq<char>,
                              cfg: Config, elapsed: Seconds)
    requires '\n' !in pre && '\n' !in mid
    ensures ProcessBytes(s, pre + ['\n'] + mid + ['\n'] + rest, cfg, elapsed)
         == ProcessBytes(s, pre + ['\n'] + mid, cfg, elapsed)
  {
    var tail := mid + ['\n'] + rest;
    assert pre + ['\n'] + mid + ['\n'] + rest == pre + ['\n'] + tail;
    Text.IndexOfJoined(pre, '\n', tail);
    FirstLineOf(mid, rest);
    RunsOnce(s, pre + ['\n'] + tail, cfg, elapsed);
    OneNewline(s, pre, mid, cfg, elapsed);
  }

  /** One poll of `ThreadProc` that found text to read: the chunk and the
      seconds component of the time since the last minute reset. */
  datatype Poll = Poll(text: seq<char>, elapsed: Seconds)

  /** `ThreadProc` over successive reads: each chunk goes through
      `ProcessBytes`, whose exception is caught per chunk, so the next chunk
      starts from whatever state it left. */
  function Feed(s: State, polls: seq<Poll>, cfg: Config): (r: (State, seq<Event>))
    decreases |polls|
    ensures '\n' !in s.data ==> '\n' !in r.0.data
  {
    if |polls| == 0 then (s, [])
    else
      var step := ProcessBytes(s, polls[0].text, cfg, polls[0].elapsed);
      var (final, later) := Feed(step.state, polls[1..], cfg);
      (final, step.events + later)
  }

  /** A read of `q` that takes the reader from `s` to `s'`, raises `e`
      and completes without an exception. */
  predicate Completes(s: State, q: Poll, cfg: Config, s': State, e: seq<Event>)
  {
    ProcessBytes(s, q.text, cfg, q.elapsed) == Step(s', e, false)
  }

  /** Two reads in a row, each of which completes without an exception:
      the state is the second read's, and the events of the first read
      come before those of the second. */
  lemma FeedTwo(s: State, q1: Poll, q2: Poll, cfg: Config, s1: State, e1: seq<Event>, s2: State, e2: seq<Event>)
    requires Completes(s, q1, cfg, s1, e1) && Completes(s1, q2, cfg, s2, e2)
    ensures Feed(s, [q1, q2], cfg) == (s2, e1 + e2)
  {
    assert [q2][1..] == [];
    assert Feed(s1, [q2], cfg) == (s2, e2 + []);
    assert e2 + [] == e2;
    assert [q1, q2][1..] == [q2];
  }

  /** Two reads in a row of which the second raises nothing: the events
      are the first read's. */
  lemma FeedThenQuiet(s: State, q1: Poll, q2: Poll, cfg: Config, s1: State, e1: seq<Event>, s2: State)
    requires Completes(s, q1, cfg, s1, e1) && Completes(s1, q2, cfg, s2, [])
    ensures Feed(s, [q1, q2], cfg) == (s2, e1)
  {
    FeedTwo(s, q1, q2, cfg, s1, e1, s2, []);
    assert e1 + [] == e1;
  }

  /** Only `RawLine` has a subscriber. */
  predicate RawOnly(cfg: Config)
  {
    !cfg.hasGpsData && cfg.hasRawLine
  }

  /** Only `GpsData` has a subscriber. */
  predicate PointsOnly(cfg: Config)
  {
    cfg.hasGpsData && !cfg.hasRawLine
  }

  /** With no `GpsData` subscriber, a completed line only reaches
      `RawLine`, and the state keeps the text after the newline. */
  lemma RawOnlyStep(s: State, q: Poll, pre: seq<char>, suf: seq<char>, line: seq<char>, cfg: Config)
    requires q.text == pre + ['\n'] + suf && '\n' !in pre && '\n' !in suf
    requires RawOnly(cfg) && line == Text.Trim(s.data + pre) && line != []
    ensures Completes(s, q, cfg, State(suf, s.lastPoint), [RawLine(line)])
  {
    DispatchSpec(line, s.lastPoint, cfg, q.elapsed);
    OneNewline(s, pre, suf, cfg, q.elapsed);
  }

  /** The two reads of `SplitLineReassembled` one at a time: the first
      completes the line before its newline and keeps the start of the
      next, and the second completes that one. */
  lemma SplitLineReads(last: Option<Gprmc.GpsPoint>, a: seq<char>, b1: seq<char>, b2: seq<char>,
                       cfg: Config, e1: Seconds, e2: Seconds)
    requires '\n' !in a && '\n' !in b1 && '\n' !in b2
    requires RawOnly(cfg)
    requires Text.Trim(a) != [] && Text.Trim(b1 + b2) != []
    ensures Completes(State([], last), Poll(a + ['\n'] + b1, e1), cfg, State(b1, last), [RawLine(Text.Trim(a))])
    ensures Completes(State(b1, last), Poll(b2 + ['\n'], e2), cfg, State([], last), [RawLine(Text.Trim(b1 + b2))])
  {
    var s0, s1 := State([], last), State(b1, last);
    var q1, q2 := Poll(a + ['\n'] + b1, e1), Poll(b2 + ['\n'], e2);
    assert s0.data + a == a;
    RawOnlyStep(s0, q1, a, b1, Text.Trim(a), cfg);
    assert q2.text == b2 + ['\n'] + [];
    RawOnlyStep(s1, q2, b2, [], Text.Trim(b1 + b2), cfg);
  }

  /** A line split across two reads is reassembled: the raw-line subscriber
      sees both lines whole and in order. */
  lemma SplitLineReassembled(last: Option<Gprmc.GpsPoint>, a: seq<char>, b1: seq<char>, b2: seq<char>,
                             cfg: Config, e1: Seconds, e2: Seconds)
    requires '\n' !in a && '\n' !in b1 && '\n' !in b2
    requires RawOnly(cfg)
    requires Text.Trim(a) != [] && Text.Trim(b1 + b2) != []
    ensures Feed(State([], last), [Poll(a + ['\n'] + b1, e1), Poll(b2 + ['\n'], e2)], cfg)
         == (State([], last), [RawLine(Text.Trim(a)), RawLine(Text.Trim(b1 + b2))])
  {
    var t1, t2 := Text.Trim(a), Text.Trim(b1 + b2);
    SplitLineReads(last, a, b1, b2, cfg, e1, e2);
    FeedTwo(State([], last), Poll(a + ['\n'] + b1, e1), Poll(b2 + ['\n'], e2), cfg,
            State(b1, last), [RawLine(t1)], State([], last), [RawLine(t2)]);
    assert [RawLine(t1)] + [RawLine(t2)] == [RawLine(t1), RawLine(t2)];
  }

  /** The two reads of `SplitFixReassembled` one at a time: the first
      only extends `_data`, and the second completes the line. */
  lemma SplitFixReads(last: Option<Gprmc.GpsPoint>, b1: seq<char>, b2: seq<char>, p: Gprmc.GpsPoint,
                      cfg: Config, e1: Seconds, e2: Seconds)
    requires ParsedLine(b1 + b2, p, cfg) && PointsOnly(cfg)
    ensures Completes(State([], last), Poll(b1, e1), cfg, State(b1, last), [])
    ensures Completes(State(b1, last), Poll(b2 + ['\n'], e2), cfg, State([], Some(p)),
                      if IsSignificant(p, last, cfg, e2) then [GpsData(p)] else [])
  {
    var line := b1 + b2;
    assert '\n' !in b1 && '\n' !in b2 by {
      forall k | 0 <= k < |b1| ensures b1[k] != '\n' { assert b1[k] == line[k]; }
      forall k | 0 <= k < |b2| ensures b2[k] != '\n' { assert b2[k] == line[|b1| + k]; }
    }
    assert [] + b1 == b1;
    assert b2 + ['\n'] + [] == b2 + ['\n'];
    OneNewline(State(b1, last), b2, [], cfg, e2);
    DispatchFix(line, p, last, cfg, e2);
  }

  /** With only a `GpsData` subscriber, a fix sentence split across two
      reads reaches the parser reassembled: it becomes the last point and
      is raised exactly when it is significant. */
  lemma SplitFixReassembled(last: Option<Gprmc.GpsPoint>, b1: seq<char>, b2: seq<char>, p: Gprmc.GpsPoint,
                            cfg: Config, e1: Seconds, e2: Seconds)
    requires ParsedLine(b1 + b2, p, cfg) && PointsOnly(cfg)
    ensures Feed(State([], last), [Poll(b1, e1), Poll(b2 + ['\n'], e2)], cfg)
         == (State([], Some(p)), if IsSignificant(p, last, cfg, e2) then [GpsData(p)] else [])
  {
    var raised := if IsSignificant(p, last, cfg, e2) then [GpsData(p)] else [];
    SplitFixReads(last, b1, b2, p, cfg, e1, e2);
    FeedTwo(State([], last), Poll(b1, e1), Poll(b2 + ['\n'], e2), cfg,
            State(b1, last), [], State([], Some(p)), raised);
    assert [] + raised == raised;
  }

  /** A sentence that passes the checksum begins with `$` and ends in a hex
      digit, so trimming leaves it alone. */
  lemma SentenceIsTrimmed(line: seq<char>)
    requires Checksum.IsCheckSumGood(line) == Checksum.Good
    ensures Text.Trim(line) == line
  {
    Checksum.CheckSumSpec(line);
    assert line == [] + line + [];
    Text.TrimUnique([], line, []);
  }

  /** A `$GPRMC` sentence on a line of its own, which the reader's parser,
      `GprmcParser.Parse`, reads as the fix `p`. */
  ghost predicate FixLine(line: seq<char>, p: Gprmc.GpsPoint, cfg: Config)
  {
    && Text.StartsWith(line, "$GPRMC") && '\n' !in line
    && Wired(cfg) && Gprmc.Parse(line) == Gprmc.Fix(p)
  }

  /** A whole `$GPRMC` line, untouched by trimming, from which the
      configured parser reads the fix `p`. */
  predicate ParsedLine(line: seq<char>, p: Gprmc.GpsPoint, cfg: Config)
  {
    && Text.StartsWith(line, "$GPRMC") && '\n' !in line
    && Text.Trim(line) == line && cfg.parse(line) == Gprmc.Fix(p)
  }

  /** Every fix `GprmcParser.Parse` reads is such a line: a sentence that
      passes the checksum has nothing to trim. */
  lemma FixLineParsed(line: seq<char>, p: Gprmc.GpsPoint, cfg: Config)
    requires FixLine(line, p, cfg)
    ensures ParsedLine(line, p, cfg)
  {
    SentenceIsTrimmed(line);
  }

  /** With no `RawLine` subscriber, a fix that arrives as a whole line
      makes `p` the last point and is raised exactly when it is
      significant. */
  lemma FixStep(last: Option<Gprmc.GpsPoint>, line: seq<char>, p: Gprmc.GpsPoint, cfg: Config, elapsed: Seconds)
    requires ParsedLine(line, p, cfg) && PointsOnly(cfg)
    ensures Completes(State([], last), Poll(line + ['\n'], elapsed), cfg, State([], Some(p)),
                      if IsSignificant(p, last, cfg, elapsed) then [GpsData(p)] else [])
  {
    WholeLineStep(State([], last), line, cfg, elapsed);
    DispatchFix(line, p, last, cfg, elapsed);
  }

  /** A read of exactly one untrimmable line onto an empty `_data`: the
      line is dispatched as it is and nothing is kept. */
  lemma WholeLineStep(s: State, line: seq<char>, cfg: Config, elapsed: Seconds)
    requires s.data == [] && '\n' !in line && Text.Trim(line) == line
    ensures var d := Dispatch(line, s.lastPoint, cfg, elapsed);
            ProcessBytes(s, line + ['\n'], cfg, elapsed)
              == if d.threw then Step(State(line, s.lastPoint), [], true)
                 else Step(State([], d.lastPoint), d.events, false)
  {
    assert s.data + line == line;
    assert line + ['\n'] + [] == line + ['\n'];
    OneNewline(s, line, [], cfg, elapsed);
  }

  /** A parsed point with no `RawLine` subscriber: the point becomes the
      last one and is raised exactly when it is significant. */
  lemma DispatchFix(line: seq<char>, p: Gprmc.GpsPoint, last: Option<Gprmc.GpsPoint>,
                    cfg: Config, elapsed: Seconds)
    requires Attempted(line, cfg) && !cfg.hasRawLine
    requires cfg.parse(line) == Gprmc.Fix(p)
    ensures Dispatch(line, last, cfg, elapsed)
         == Dispatched(if IsSignificant(p, last, cfg, elapsed) then [GpsData(p)] else [], Some(p), false)
  {
    DispatchSpec(line, last, cfg, elapsed);
  }

  /** The two reads of `CloseFixSuppressed` one at a time: the first
      fix is raised, the second is not, and each becomes the last point. */
  lemma CloseFixReads(l1: seq<char>, l2: seq<char>, p1: Gprmc.GpsPoint, p2: Gprmc.GpsPoint,
                      cfg: Config, e1: Seconds, e2: Seconds)
    requires ParsedLine(l1, p1, cfg) && ParsedLine(l2, p2, cfg) && PointsOnly(cfg)
    requires DistanceFrom(p2, p1, cfg) < cfg.minDistance
    ensures Completes(State([], None), Poll(l1 + ['\n'], e1), cfg, State([], Some(p1)), [GpsData(p1)])
    ensures Completes(State([], Some(p1)), Poll(l2 + ['\n'], e2), cfg, State([], Some(p2)), [])
  {
    FixStep(None, l1, p1, cfg, e1);
    FixStep(Some(p1), l2, p2, cfg, e2);
  }

  /** Two fixes closer than the minimum distance, one line per read: only
      the first is raised, and the second still becomes the last point. */
  lemma CloseFixSuppressed(l1: seq<char>, l2: seq<char>, p1: Gprmc.GpsPoint, p2: Gprmc.GpsPoint,
                           cfg: Config, e1: Seconds, e2: Seconds)
    requires ParsedLine(l1, p1, cfg) && ParsedLine(l2, p2, cfg) && PointsOnly(cfg)
    requires DistanceFrom(p2, p1, cfg) < cfg.minDistance
    ensures Feed(State([], None), [Poll(l1 + ['\n'], e1), Poll(l2 + ['\n'], e2)], cfg)
         == (State([], Some(p2)), [GpsData(p1)])
  {
    CloseFixReads(l1, l2, p1, p2, cfg, e1, e2);
    FeedThenQuiet(State([], None), Poll(l1 + ['\n'], e1), Poll(l2 + ['\n'], e2), cfg,
                  State([], Some(p1)), [GpsData(p1)], State([], Some(p2)));
  }

  /** The `Start`/`Stop` part of a reader: the running flag beside the
      line-assembly state, which neither touches. */
  datatype Lifecycle = Lifecycle(isStarted: bool, state: State)

  /** `Reader.Start`, GPS.cs:198-211, without the worker thread. */
  function Start(r: Lifecycle): (result: (bool, Lifecycle))
    ensures result.0 <==> !r.isStarted
    ensures result.1.isStarted && result.1.state == r.state
  {
    if r.isStarted then (false, r)
    else (true, Lifecycle(true, r.state))
  }

  /** `Reader.Stop`, GPS.cs:213-228, without the join and abort. */
  function Stop(r: Lifecycle): (result: (bool, Lifecycle))
    ensures result.0 <==> r.isStarted
    ensures !result.1.isStarted && result.1.state == r.state
  {
    if !r.isStarted then (false, r)
    else (true, Lifecycle(false, r.state))
  }

  /** Stopping undoes starting, and a second start or stop in a row
      reports failure and changes nothing. */
  lemma StartStopCycle(r: Lifecycle)
    requires !r.isStarted
    ensures Start(r).0 && Stop(Start(r).1) == (true, r)
    ensures Start(Start(r).1) == (false, Start(r).1)
    ensures Stop(r) == (false, r)
  {
  }
}
