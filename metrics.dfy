/**
 * The text half of `Xrandr::get_monitor_metrics`: monitor records read from
 * what `xrandr --verbose` prints, for the active output names.
 *
 * The lines of interest are filtered out of the text, then read as
 * consecutive (header, brightness) pairs; each pair yields at most one record.
 */
module Metrics {
  import opened Wrappers
  import opened Strings
  import opened Monitors

  /** The pattern that selects the brightness line of every output. */
  const BrightnessMarker: string := "Brightness:"

  /** The pattern that selects the header line of the output `name`. */
  function ConnectedPattern(name: string): string {
    name + " connected"
  }

  /**
   * Whether `RegexSet::new` accepts the patterns. Regular expression syntax
   * is not modelled: `validPattern` says which patterns compile.
   */
  predicate PatternsCompile(names: seq<string>, validPattern: string -> bool) {
    validPattern(BrightnessMarker) &&
    forall k :: 0 <= k < |names| ==> validPattern(ConnectedPattern(names[k]))
  }

  /**
   * `regex_set.is_match(line)`, with each pattern matched as a plain
   * substring: the line mentions `<name> connected` for some active name,
   * or `Brightness:`.
   */
  predicate IsMetricLine(line: string, names: seq<string>) {
    Contains(line, BrightnessMarker) ||
    exists k :: 0 <= k < |names| && Contains(line, ConnectedPattern(names[k]))
  }

  /** The header line of an active output, `... <name> connected ...`, is a metric line. */
  lemma ConnectedLineIsMetric(pre: string, name: string, post: string, names: seq<string>)
    requires name in names
    ensures IsMetricLine(pre + ConnectedPattern(name) + post, names)
  {
    ContainsInfix(pre, ConnectedPattern(name), post);
    var k :| 0 <= k < |names| && names[k] == name;
    assert Contains(pre + ConnectedPattern(name) + post, ConnectedPattern(names[k]));
  }

  /** A line that mentions `Brightness:` is a metric line, whatever the names. */
  lemma BrightnessLineIsMetric(pre: string, post: string, names: seq<string>)
    ensures IsMetricLine(pre + BrightnessMarker + post, names)
  {
    ContainsInfix(pre, BrightnessMarker, post);
  }

  function KeepIfMetric(names: seq<string>): string -> Option<string> {
    line => if IsMetricLine(line, names) then Some(line) else None
  }

  /** The lines of interest, in their original order. */
  function MetricLines(lines: seq<string>, names: seq<string>): (kept: seq<string>)
    ensures |kept| <= |lines|
  {
    FilterMap(lines, KeepIfMetric(names))
  }

  /** `chunks_exact(2)`: consecutive, non-overlapping pairs; an odd last line is dropped. */
  function ChunksExact2(xs: seq<string>): (pairs: seq<(string, string)>)
    ensures |pairs| == |xs| / 2
    ensures forall j :: 0 <= j < |pairs| ==> pairs[j] == (xs[2 * j], xs[2 * j + 1])
  {
    if |xs| < 2 then []
    else
      var rest := ChunksExact2(xs[2..]);
      assert forall j :: 0 <= j < |rest| ==> xs[2..][2 * j] == xs[2 * (j + 1)];
      [(xs[0], xs[1])] + rest
  }

  /**
   * The brightness a pair reports: the second `:`-separated field of the
   * brightness line, trimmed and parsed, or 0 when there is no such field.
   * `parse` stands for `f32::from_str` followed by `(x * 100.0).floor() as u32`.
   */
  function PairBrightness(bLine: string, parse: string -> Option<u32>): (r: Result<u32, Error>)
    ensures r.Err? ==> r.error == UnparsableBrightness
    ensures ':' !in bLine ==> r == Ok(0)
  {
    SecondFieldExists(bLine, ':');
    match SplitField(bLine, ':', 1)
    case None => Ok(0)
    case Some(raw) =>
      match parse(Trim(raw))
      case None => Err(UnparsableBrightness)
      case Some(b) => Ok(b)
  }

  /** Word 2 of the header if it holds a `+`, else word 3, if there is one. */
  function GeometryWord(args: seq<string>): (g: Option<string>)
    ensures g.Some? ==> |args| >= 3
  {
    if |args| < 3 then None
    else if '+' in args[2] then Some(args[2])
    else if |args| < 4 then None
    else Some(args[3])
  }

  /**
   * One pass of the loop over the pairs: the record the pair yields, no
   * record when the header has no geometry word, or the parse error.
   */
  function PairRecord(header: string, bLine: string, parse: string -> Option<u32>): (r: Result<Option<Monitor>, Error>)
    // the pair fails exactly when its header has a word and the second `:`
    // field of its brightness line exists and does not parse, even when the
    // header has no geometry word
    ensures r.Err? <==>
      Words(header) != [] && SplitField(bLine, ':', 1).Some? && parse(Trim(SplitField(bLine, ':', 1).value)).None?
    ensures r.Err? ==> r.error == UnparsableBrightness
    // otherwise it yields no record exactly when the header has no geometry word
    ensures r.Ok? ==> (r.value.None? <==> |Words(header)| < 3 || (|Words(header)| == 3 && '+' !in Words(header)[2]))
  {
    var args := Words(header);
    var brightness := if args == [] then Ok(0) else PairBrightness(bLine, parse);
    match brightness
    case Err(e) => Err(e)
    case Ok(b) =>
      match GeometryWord(args)
      case None => Ok(None)
      case Some(geometry) => Ok(Some(Monitor(Trim(args[0]), b, Trim(PrefixBefore(geometry, '+')))))
  }

  /** What one pass of the loop yields: a record, no record, or the error that ends the loop. */
  type Outcome = Result<Option<Monitor>, Error>

  /** `PairRecord` as a function of the pair. */
  function PairStep(parse: string -> Option<u32>): ((string, string)) -> Outcome {
    (p: (string, string)) => PairRecord(p.0, p.1, parse)
  }

  /** The record of a pair whose step does not fail, for `FilterMap`. */
  function Kept(step: ((string, string)) -> Outcome): ((string, string)) -> Option<Monitor> {
    (p: (string, string)) => match step(p) case Ok(o) => o case Err(_) => None
  }

  function AsSeq(o: Option<Monitor>): seq<Monitor> {
    match o case Some(m) => [m] case None => []
  }

  /** `ms` in front of a successful result; an error stays an error. */
  function Prepend(ms: seq<Monitor>, r: Result<seq<Monitor>, Error>): Result<seq<Monitor>, Error> {
    match r
    case Ok(rest) => Ok(ms + rest)
    case Err(e) => Err(e)
  }

  /**
   * The loop over the pairs with `acc` already pushed: the records pushed by
   * the end, or the error of the first failing pair.
   */
  function Harvest(acc: seq<Monitor>, pairs: seq<(string, string)>, step: ((string, string)) -> Outcome): (r: Result<seq<Monitor>, Error>)
    ensures r.Ok? ==> |acc| <= |r.value| <= |acc| + |pairs|
    decreases |pairs|
  {
    if pairs == [] then Ok(acc)
    else
      match step(pairs[0])
      case Err(e) => Err(e)
      case Ok(o) => Harvest(acc + AsSeq(o), pairs[1..], step)
  }

  /** The records of the pairs, in pair order; the first failing pair fails all. */
  function Records(pairs: seq<(string, string)>, parse: string -> Option<u32>): (r: Result<seq<Monitor>, Error>)
    ensures r.Ok? ==> |r.value| <= |pairs|
  {
    Harvest([], pairs, PairStep(parse))
  }

  /** The (header, brightness) pairs of the verbose output `text`. */
  function MetricPairs(text: string, names: seq<string>): seq<(string, string)> {
    ChunksExact2(MetricLines(Split(text, '\n'), names))
  }

  /**
   * The records in the verbose output `text` for the active `names`, `None`
   * when there are none, or the error that stops the extraction.
   */
  function MonitorMetrics(text: string, names: seq<string>, parse: string -> Option<u32>, validPattern: string -> bool)
    : (r: Result<Option<seq<Monitor>>, Error>)
    ensures r.Ok? && r.value.Some? ==> r.value.value != []
  {
    if !PatternsCompile(names, validPattern) then Err(InvalidMonitorName)
    else
      match Records(MetricPairs(text, names), parse)
      case Err(e) => Err(e)
      case Ok(ms) => if ms == [] then Ok(None) else Ok(Some(ms))
  }

  /** The loop of `get_monitor_metrics`, pushing one record per usable pair. */
  method GetMonitorMetrics(text: string, names: seq<string>, parse: string -> Option<u32>, validPattern: string -> bool)
    returns (r: Result<Option<seq<Monitor>>, Error>)
    ensures r == MonitorMetrics(text, names, parse, validPattern)
  {
    if !PatternsCompile(names, validPattern) {
      return Err(InvalidMonitorName);
    }
    var infos := MetricLines(Split(text, '\n'), names);
    var chunks := ChunksExact2(infos);
    assert chunks == MetricPairs(text, names);
    var metrics: seq<Monitor> := [];
    var j := 0;
    while j < |chunks|
      invariant 0 <= j <= |chunks|
      invariant Records(chunks, parse) == Harvest(metrics, chunks[j..], PairStep(parse))
    {
      var outcome := ReadChunk(chunks[j].0, chunks[j].1, parse);
      match outcome {
        case Err(e) =>
          HarvestFail(chunks, j, metrics, PairStep(parse));
          return Err(e);
        case Ok(None) =>
          HarvestSkip(chunks, j, metrics, PairStep(parse));
        case Ok(Some(m)) =>
          HarvestPush(chunks, j, metrics, PairStep(parse), m);
          metrics := metrics + [m];
      }
      j := j + 1;
    }
    if metrics != [] {
      r := Ok(Some(metrics));
    } else {
      r := Ok(None);
    }
  }

  /**
   * The body of the loop for one chunk: the record it pushes, `None` where
   * the source pushes nothing or continues, or the parse error that `?` returns.
   */
  method ReadChunk(miLine: string, bLine: string, parse: string -> Option<u32>) returns (r: Result<Option<Monitor>, Error>)
    ensures r == PairRecord(miLine, bLine, parse)
  {
    var brightness: u32 := 0;
    var display := "";
    var args := Words(miLine);
    if |args| > 0 {
      display := Trim(args[0]);
      var raw := SplitField(bLine, ':', 1);
      if raw.Some? {
        var parsed := parse(Trim(raw.value));
        if parsed.None? {
          return Err(UnparsableBrightness);
        }
        brightness := parsed.value;
      }
    }
    PairRecordParsed(miLine, bLine, parse, brightness);
    if |args| > 2 {
      var res := args[2];
      if '+' !in res {
        if |args| <= 3 {
          return Ok(None);
        }
        res := args[3];
      }
      assert GeometryWord(args) == Some(res);
      var resolution := PrefixBefore(res, '+');
      return Ok(Some(Monitor(display, brightness, Trim(resolution))));
    }
    return Ok(None);
  }

  /** Once the brightness of a pair is read, its record depends only on the header words. */
  lemma PairRecordParsed(header: string, bLine: string, parse: string -> Option<u32>, b: u32)
    requires Words(header) != [] ==> PairBrightness(bLine, parse) == Ok(b)
    requires Words(header) == [] ==> b == 0
    ensures GeometryWord(Words(header)).None? ==> PairRecord(header, bLine, parse) == Ok(None)
    ensures GeometryWord(Words(header)).Some? ==>
      PairRecord(header, bLine, parse) ==
      Ok(Some(Monitor(Trim(Words(header)[0]), b, Trim(PrefixBefore(GeometryWord(Words(header)).value, '+')))))
  {
  }

  /** A failing pair fails the rest of the loop. */
  lemma HarvestFail(pairs: seq<(string, string)>, j: nat, acc: seq<Monitor>, step: ((string, string)) -> Outcome)
    requires j < |pairs| && step(pairs[j]).Err?
    ensures Harvest(acc, pairs[j..], step) == Err(step(pairs[j]).error)
  {
    assert pairs[j..][0] == pairs[j];
  }

  /** A pair without a record leaves what is pushed unchanged. */
  lemma HarvestSkip(pairs: seq<(string, string)>, j: nat, acc: seq<Monitor>, step: ((string, string)) -> Outcome)
    requires j < |pairs| && step(pairs[j]) == Ok(None)
    ensures Harvest(acc, pairs[j..], step) == Harvest(acc, pairs[j + 1..], step)
  {
    assert pairs[j..][0] == pairs[j] && pairs[j..][1..] == pairs[j + 1..];
    assert acc + AsSeq(None) == acc;
  }

  /** A pair with a record pushes it. */
  lemma HarvestPush(pairs: seq<(string, string)>, j: nat, acc: seq<Monitor>, step: ((string, string)) -> Outcome, m: Monitor)
    requires j < |pairs| && step(pairs[j]) == Ok(Some(m))
    ensures Harvest(acc, pairs[j..], step) == Harvest(acc + [m], pairs[j + 1..], step)
  {
    assert pairs[j..][0] == pairs[j] && pairs[j..][1..] == pairs[j + 1..];
  }

  /** The lines kept are exactly the lines of the output that match a pattern. */
  lemma MetricLinesMembership(lines: seq<string>, names: seq<string>, line: string)
    ensures line in MetricLines(lines, names) <==> line in lines && IsMetricLine(line, names)
  {
    FilterMapMembership(lines, KeepIfMetric(names), line);
  }

  /** Filtering keeps the relative order of the lines: it works line by line. */
  lemma MetricLinesInOrder(before: seq<string>, line: string, after: seq<string>, names: seq<string>)
    ensures MetricLines(before + [line] + after, names) ==
      MetricLines(before, names) + (if IsMetricLine(line, names) then [line] else []) + MetricLines(after, names)
  {
    FilterMapAppend(before + [line], after, KeepIfMetric(names));
    FilterMapAppend(before, [line], KeepIfMetric(names));
  }

  /** `acc` is only ever pushed in front: the loop ends with `acc` followed by the records of the pairs. */
  lemma {:induction false} HarvestPrepends(acc: seq<Monitor>, pairs: seq<(string, string)>, step: ((string, string)) -> Outcome)
    ensures Harvest(acc, pairs, step) == Prepend(acc, Harvest([], pairs, step))
    decreases |pairs|
  {
    if pairs == [] {
      assert acc + [] == acc;
    } else {
      match step(pairs[0])
      case Err(_) =>
      case Ok(o) =>
        HarvestPrepends(acc + AsSeq(o), pairs[1..], step);
        HarvestPrepends(AsSeq(o), pairs[1..], step);
        assert [] + AsSeq(o) == AsSeq(o);
        match Harvest([], pairs[1..], step)
        case Err(_) =>
        case Ok(rest) => assert acc + AsSeq(o) + rest == acc + (AsSeq(o) + rest);
    }
  }

  /** The first pair either fails the loop or puts its record in front of the others'. */
  lemma HarvestFirst(pairs: seq<(string, string)>, step: ((string, string)) -> Outcome)
    requires pairs != []
    ensures step(pairs[0]).Err? ==> Harvest([], pairs, step) == Err(step(pairs[0]).error)
    ensures step(pairs[0]).Ok? ==>
      Harvest([], pairs, step) == Prepend(AsSeq(step(pairs[0]).value), Harvest([], pairs[1..], step))
  {
    if step(pairs[0]).Ok? {
      assert [] + AsSeq(step(pairs[0]).value) == AsSeq(step(pairs[0]).value);
      HarvestPrepends(AsSeq(step(pairs[0]).value), pairs[1..], step);
    }
  }

  /** A failing pair fails the whole loop, wherever it stands. */
  lemma {:induction false} HarvestFailAt(pairs: seq<(string, string)>, step: ((string, string)) -> Outcome, j: nat)
    requires j < |pairs| && step(pairs[j]).Err?
    ensures Harvest([], pairs, step).Err?
  {
    HarvestFirst(pairs, step);
    if j > 0 {
      assert pairs[1..][j - 1] == pairs[j];
      HarvestFailAt(pairs[1..], step, j - 1);
    }
  }

  /** A failed loop reports the error of a failing pair. */
  lemma {:induction false} FailingPair(pairs: seq<(string, string)>, step: ((string, string)) -> Outcome) returns (j: nat)
    requires Harvest([], pairs, step).Err?
    ensures j < |pairs| && step(pairs[j]) == Err(Harvest([], pairs, step).error)
  {
    if pairs == [] {
      assert false;
    } else {
      HarvestFirst(pairs, step);
      if step(pairs[0]).Err? {
        j := 0;
      } else {
        var k := FailingPair(pairs[1..], step);
        assert pairs[1..][k] == pairs[k + 1];
        j := k + 1;
      }
    }
  }

  /** The loop fails exactly when some pair fails: a failure never yields a partial list. */
  lemma HarvestFailIff(pairs: seq<(string, string)>, step: ((string, string)) -> Outcome)
    ensures Harvest([], pairs, step).Err? <==> exists j :: 0 <= j < |pairs| && step(pairs[j]).Err?
  {
    if Harvest([], pairs, step).Err? {
      var j := FailingPair(pairs, step);
    }
    if exists j :: 0 <= j < |pairs| && step(pairs[j]).Err? {
      var j :| 0 <= j < |pairs| && step(pairs[j]).Err?;
      HarvestFailAt(pairs, step, j);
    }
  }

  /**
   * A loop that does not fail pushes the record of every pair that yields
   * one, in pair order, and nothing else: at most one record per pair.
   */
  lemma {:induction false} HarvestInPairOrder(pairs: seq<(string, string)>, step: ((string, string)) -> Outcome)
    requires Harvest([], pairs, step).Ok?
    ensures Harvest([], pairs, step).value == FilterMap(pairs, Kept(step))
  {
    if pairs != [] {
      HarvestFirst(pairs, step);
      HarvestInPairOrder(pairs[1..], step);
    }
  }

  /**
   * The record of a pair: named by the first header word, with the part
   * before the first `+` of word 2 (when it holds a `+`) or of word 3 as
   * resolution, and the parsed second `:` field of the brightness line as
   * brightness, or 0 when there is none.
   */
  lemma PairRecordFields(header: string, bLine: string, parse: string -> Option<u32>, m: Monitor)
    requires PairRecord(header, bLine, parse) == Ok(Some(m))
    ensures |Words(header)| >= 3 && m.name == Words(header)[0]
    ensures '+' in Words(header)[2] ==> m.resolution == PrefixBefore(Words(header)[2], '+')
    ensures '+' !in Words(header)[2] ==> |Words(header)| >= 4 && m.resolution == PrefixBefore(Words(header)[3], '+')
    ensures m.name != [] && '+' !in m.resolution
    ensures ':' !in bLine ==> m.brightness == 0
    ensures SplitField(bLine, ':', 1).Some? ==> parse(Trim(SplitField(bLine, ':', 1).value)) == Some(m.brightness)
  {
    var args := Words(header);
    var g := GeometryWord(args).value;
    PairRecordShape(header, bLine, parse, m);
    TrimOfPrefix(g);
    PairRecordBrightness(header, bLine, parse, m);
  }

  /** The fields of a record as `PairRecord` assembles them. */
  lemma PairRecordShape(header: string, bLine: string, parse: string -> Option<u32>, m: Monitor)
    requires PairRecord(header, bLine, parse) == Ok(Some(m))
    ensures GeometryWord(Words(header)).Some?
    ensures m.name == Trim(Words(header)[0])
    ensures m.resolution == Trim(PrefixBefore(GeometryWord(Words(header)).value, '+'))
    ensures PairBrightness(bLine, parse) == Ok(m.brightness)
  {
  }

  /** The part of a word before a `+` is left alone by `trim`. */
  lemma TrimOfPrefix(g: string)
    requires NoWhitespace(g)
    ensures Trim(PrefixBefore(g, '+')) == PrefixBefore(g, '+')
  {
    var p := PrefixBefore(g, '+');
    assert forall i :: 0 <= i < |p| ==> p[i] == g[i];
  }

  /** A record's brightness: 0 without a second `:` field, otherwise that field parsed. */
  lemma PairRecordBrightness(header: string, bLine: string, parse: string -> Option<u32>, m: Monitor)
    requires PairBrightness(bLine, parse) == Ok(m.brightness)
    ensures ':' !in bLine ==> m.brightness == 0
    ensures SplitField(bLine, ':', 1).Some? ==> parse(Trim(SplitField(bLine, ':', 1).value)) == Some(m.brightness)
  {
    SecondFieldExists(bLine, ':');
  }

  /**
   * The outcome of the extraction: the pattern error exactly when a pattern
   * does not compile; otherwise the parse error exactly when some pair
   * fails; otherwise the records of the pairs in pair order, and `None`
   * exactly when there are none.
   */
  lemma MonitorMetricsOutcome(text: string, names: seq<string>, parse: string -> Option<u32>, validPattern: string -> bool)
    ensures MonitorMetrics(text, names, parse, validPattern) == Err(InvalidMonitorName) <==> !PatternsCompile(names, validPattern)
    ensures PatternsCompile(names, validPattern) ==>
      (MonitorMetrics(text, names, parse, validPattern) == Err(UnparsableBrightness) <==>
       exists j :: 0 <= j < |MetricPairs(text, names)| && PairStep(parse)(MetricPairs(text, names)[j]).Err?)
    ensures MonitorMetrics(text, names, parse, validPattern) == Ok(None) <==>
      PatternsCompile(names, validPattern) && Records(MetricPairs(text, names), parse) == Ok([])
    ensures MonitorMetrics(text, names, parse, validPattern).Ok? && MonitorMetrics(text, names, parse, validPattern).value.Some? ==>
      MonitorMetrics(text, names, parse, validPattern).value.value == FilterMap(MetricPairs(text, names), Kept(PairStep(parse)))
  {
    var pairs := MetricPairs(text, names);
    var step := PairStep(parse);
    HarvestFailIff(pairs, step);
    if Records(pairs, parse).Err? {
      var j := FailingPair(pairs, step);
    } else {
      HarvestInPairOrder(pairs, step);
    }
  }

  /**
   * A header `eDP-1 connected 1920x1080+0+0` with the brightness line
   * `Brightness: 0.80`, whose value reads as 80%, yields the record
   * (`eDP-1`, 80, `1920x1080`).
   */
  lemma PairRecordExample(header: string, bLine: string, parse: string -> Option<u32>)
    requires header == "eDP-1 connected 1920x1080+0+0" && bLine == "Brightness: 0.80"
    requires parse("0.80") == Some(80)
    ensures PairRecord(header, bLine, parse) == Ok(Some(Monitor("eDP-1", 80, "1920x1080")))
  {
    var name, geometry, resolution := "eDP-1", "1920x1080+0+0", "1920x1080";
    ExampleHeaderWords(header, name, geometry);
    ExampleBrightnessField(bLine, " 0.80");
    ExampleGeometry(geometry, resolution);
    ExampleNoWhitespace(name, resolution);
    assert GeometryWord(Words(header)) == Some(geometry);
    assert PairBrightness(bLine, parse) == Ok(80);
    PairRecordParsed(header, bLine, parse, 80);
  }

  lemma ExampleHeaderWords(header: string, name: string, geometry: string)
    requires header == "eDP-1 connected 1920x1080+0+0" && name == "eDP-1" && geometry == "1920x1080+0+0"
    ensures Words(header) == [name, "connected", geometry]
  {
    var ws := [name, "connected", geometry];
    JoinThree(name, "connected", geometry);
    HeaderLiteral();
    ExampleNoWhitespace(name, geometry);
    assert NoWhitespace("connected");
    WordsOfJoin(ws);
  }

  // The literal facts of the example are separate lemmas, so that the solver does not unfold string literals in it.
  lemma HeaderLiteral()
    ensures "eDP-1" + [' '] + "connected" + [' '] + "1920x1080+0+0" == "eDP-1 connected 1920x1080+0+0"
  {
  }

  // A literal fact, kept apart so that the solver does not unfold the literal in the caller.
  lemma ExampleNoWhitespace(a: string, b: string)
    requires a == "eDP-1" && (b == "1920x1080" || b == "1920x1080+0+0")
    ensures NoWhitespace(a) && NoWhitespace(b)
  {
  }

  lemma ExampleBrightnessField(bLine: string, raw: string)
    requires bLine == "Brightness: 0.80" && raw == " 0.80"
    ensures SplitField(bLine, ':', 1) == Some(raw)
    ensures Trim(raw) == "0.80"
  {
    BrightnessLiteral();
    FieldAfterSeparator(bLine, "Brightness", raw, ':');
    TrimOneLeading(raw, "0.80");
  }

  // A literal fact, kept apart so that the solver does not unfold the literal in the caller.
  lemma BrightnessLiteral()
    ensures "Brightness" + [':'] + " 0.80" == "Brightness: 0.80"
  {
  }

  lemma ExampleGeometry(geometry: string, resolution: string)
    requires geometry == "1920x1080+0+0" && resolution == "1920x1080"
    ensures PrefixBefore(geometry, '+') == resolution
  {
    GeometryLiteral();
    PrefixOfSeparated(geometry, resolution, "0+0", '+');
  }

  // A literal fact, kept apart so that the solver does not unfold the literal in the caller.
  lemma GeometryLiteral()
    ensures "1920x1080" + ['+'] + "0+0" == "1920x1080+0+0"
  {
  }

  /** `Join` of three words. */
  lemma JoinThree(a: string, b: string, c: string)
    ensures Join([a, b, c], ' ') == a + [' '] + b + [' '] + c
  {
    var ws := [a, b, c];
    assert ws[1..] == [b, c] && ws[1..][1..] == [c];
    assert Join([c], ' ') == c;
    assert Join([b, c], ' ') == b + [' '] + c;
  }

  /** The second field of `a:b` is `b` when neither part holds the separator. */
  lemma FieldAfterSeparator(line: string, a: string, b: string, sep: char)
    requires line == a + [sep] + b && sep !in a && sep !in b
    ensures SplitField(line, sep, 1) == Some(b)
  {
    SplitAtSeparator(a, sep, b);
    SplitUnique(b, sep, [b]);
  }

  /** The part before the first separator of `a+b` is `a`. */
  lemma PrefixOfSeparated(g: string, a: string, b: string, sep: char)
    requires g == a + [sep] + b && sep !in a
    ensures PrefixBefore(g, sep) == a
  {
    SplitAtSeparator(a, sep, b);
  }

  /** Trimming one leading whitespace character off a word. */
  lemma TrimOneLeading(s: string, w: string)
    requires s != [] && IsWhitespace(s[0]) && s[1..] == w && w != [] && NoWhitespace(w)
    ensures Trim(s) == w
  {
    assert TrimStart(s) == TrimStart(w);
    assert Trim(w) == w;
  }
}
