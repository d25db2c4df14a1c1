/**
 * The xrandr block: its options, the `Xrandr` object holding the monitors it
 * knows and the index of the one it shows, and how that state changes on an
 * update and on a click.
 */
module Block {
  import opened Wrappers
  import opened Strings
  import opened Monitors
  import opened ActiveOutputs
  import opened Metrics
  import opened Templates

  /** The largest brightness step the block accepts, in percent. */
  const MaxStepWidth: u32 := 50

  /** The options the block is configured with; the update interval is not modelled. */
  datatype XrandrConfig = XrandrConfig(icons: bool, resolution: bool, stepWidth: u32)

  /** The configured step, capped at 50. */
  function ClampStepWidth(configured: u32): (s: u32)
    ensures s <= MaxStepWidth && s <= configured
    ensures s == configured || s == MaxStepWidth
  {
    if configured > MaxStepWidth then MaxStepWidth else configured
  }

  /** The direction of a click, after the host's scroll mapping. */
  datatype Button = Left | Up | Down | Other

  /** A click: whether it is aimed at this block, and its button. */
  datatype ClickEvent = ClickEvent(onThisBlock: bool, button: Button)

  /**
   * The selection after a left click on `count` monitors: the next one,
   * wrapping to the first; an index that is out of range starts over.
   */
  function NextIndex(idx: nat, count: nat): (next: nat)
    requires count > 0
    ensures next < count
    ensures idx < count ==> next == (idx + 1) % count
    ensures idx >= count ==> next == 0
  {
    if idx < count - 1 then idx + 1 else 0
  }

  /** The selection after `k` left clicks. */
  function NextIndexTimes(idx: nat, count: nat, k: nat): nat
    requires count > 0
  {
    if k == 0 then idx else NextIndex(NextIndexTimes(idx, count, k - 1), count)
  }

  /** Left clicks from an in-range selection step up one monitor at a time. */
  lemma {:induction false} LeftClicksAscend(idx: nat, count: nat, k: nat)
    requires idx + k < count
    ensures NextIndexTimes(idx, count, k) == idx + k
  {
    if k > 0 {
      LeftClicksAscend(idx, count, k - 1);
    }
  }

  /** `a + b` left clicks are `a` left clicks followed by `b` more. */
  lemma {:induction false} LeftClicksCompose(idx: nat, count: nat, a: nat, b: nat)
    requires count > 0
    ensures NextIndexTimes(idx, count, a + b) == NextIndexTimes(NextIndexTimes(idx, count, a), count, b)
  {
    if b > 0 {
      LeftClicksCompose(idx, count, a, b - 1);
    }
  }

  /**
   * Left clicks visit every monitor in turn: after as many left clicks as
   * there are monitors, the same monitor is selected again.
   */
  lemma LeftClicksComeBack(idx: nat, count: nat)
    requires idx < count
    ensures NextIndexTimes(idx, count, count) == idx
  {
    LeftClicksCompose(idx, count, count - idx, idx);
    LeftClicksAscend(idx, count, count - idx - 1);
    assert NextIndexTimes(idx, count, count - idx) == 0;
    LeftClicksAscend(0, count, idx);
  }

  /** Scrolling up on one monitor: one step brighter, unless that would pass 100%. */
  function ScrollUp(m: Monitor, step: u32): (m': Monitor)
    requires step <= MaxStepWidth
    ensures m'.name == m.name && m'.resolution == m.resolution
    ensures m.brightness <= 100 - step ==> m'.brightness == m.brightness + step
    ensures m.brightness > 100 - step ==> m' == m
    ensures m.brightness <= 100 ==> m'.brightness <= 100
  {
    if m.brightness <= 100 - step then SetBrightness(m, step) else m
  }

  /** Scrolling down on one monitor: one step darker, unless that would go below 0. */
  function ScrollDown(m: Monitor, step: u32): (m': Monitor)
    requires step <= MaxStepWidth
    ensures m'.name == m.name && m'.resolution == m.resolution
    ensures m.brightness >= step ==> m'.brightness == m.brightness - step
    ensures m.brightness < step ==> m' == m
    ensures m'.brightness <= m.brightness
  {
    if m.brightness >= step then SetBrightness(m, -(step as int)) else m
  }

  /**
   * The monitors after a click other than a left click: the selected monitor
   * scrolled, when the selection is in range; every other monitor unchanged.
   */
  function Scrolled(ms: seq<Monitor>, idx: nat, button: Button, step: u32): (ms': seq<Monitor>)
    requires step <= MaxStepWidth
    ensures |ms'| == |ms|
    ensures forall k :: 0 <= k < |ms| && k != idx ==> ms'[k] == ms[k]
    ensures idx < |ms| && button == Up ==> ms'[idx] == ScrollUp(ms[idx], step)
    ensures idx < |ms| && button == Down ==> ms'[idx] == ScrollDown(ms[idx], step)
    ensures idx >= |ms| || button == Left || button == Other ==> ms' == ms
  {
    if idx < |ms| then
      match button
      case Up => ms[idx := ScrollUp(ms[idx], step)]
      case Down => ms[idx := ScrollDown(ms[idx], step)]
      case _ => ms
    else ms
  }

  /** A step up that was taken is undone by a step down. */
  lemma ScrollDownUndoesUp(m: Monitor, step: u32)
    requires step <= MaxStepWidth && m.brightness <= 100 - step
    ensures ScrollDown(ScrollUp(m, step), step) == m
  {
  }

  /** A step down that was taken is undone by a step up, within 0..100%. */
  lemma ScrollUpUndoesDown(m: Monitor, step: u32)
    requires step <= MaxStepWidth && step <= m.brightness <= 100
    ensures ScrollUp(ScrollDown(m, step), step) == m
  {
  }

  /**
   * The `i32` sum `brightness as i32 + step` of a scroll up that the guard
   * lets through never overflows.
   */
  lemma ScrollUpSumFitsI32(m: Monitor, step: u32)
    requires step <= MaxStepWidth && m.brightness <= 100 - step
    ensures -0x8000_0000 <= AsI32(m.brightness) + step < 0x8000_0000
  {
  }

  /**
   * The `i32` sum of a scroll down that the guard lets through fits an
   * `i32` when the brightness is below 2^31.
   */
  lemma ScrollDownSumFitsI32(m: Monitor, step: u32)
    requires step <= MaxStepWidth && step <= m.brightness < 0x8000_0000
    ensures -0x8000_0000 <= AsI32(m.brightness) - step < 0x8000_0000
  {
  }

  /**
   * From a brightness of 2^31 up, the guard of a scroll down does not keep
   * the `i32` sum in range: at 2^31 and step 5 it falls below `i32::MIN`.
   */
  lemma ScrollDownSumCanOverflow(m: Monitor)
    requires m.brightness == 0x8000_0000
    ensures m.brightness >= 5 && AsI32(m.brightness) - 5 < -0x8000_0000
  {
  }

  /** Every brightness is a percentage of at most 100. */
  predicate AtMostFull(ms: seq<Monitor>) {
    forall k :: 0 <= k < |ms| ==> ms[k].brightness <= 100
  }

  /** Scrolling never takes a monitor past 100%. */
  lemma ScrollingKeepsAtMostFull(ms: seq<Monitor>, idx: nat, button: Button, step: u32)
    requires step <= MaxStepWidth && AtMostFull(ms)
    ensures AtMostFull(Scrolled(ms, idx, button, step))
  {
    var ms' := Scrolled(ms, idx, button, step);
    forall k | 0 <= k < |ms'|
      ensures ms'[k].brightness <= 100
    {
      if k == idx && button == Up {
        assert ms'[k] == ScrollUp(ms[k], step);
      }
    }
  }

  /**
   * What an update reads from the two commands: the monitors when the active
   * outputs and their metrics are both found, `None` when either comes back
   * empty, or the error. The verbose command is only consulted when there
   * are active outputs.
   */
  function Refresh(listing: Result<string, Error>, verbose: Result<string, Error>,
                   parse: string -> Option<u32>, validPattern: string -> bool): (r: Result<Option<seq<Monitor>>, Error>)
    ensures r.Ok? && r.value.Some? ==> r.value.value != []
    ensures listing.Ok? && ActiveMonitors(listing.value).None? ==> r == Ok(None)
  {
    match listing
    case Err(e) => Err(e)
    case Ok(text) =>
      match ActiveMonitors(text)
      case None => Ok(None)
      case Some(names) =>
        match verbose
        case Err(e) => Err(e)
        case Ok(verboseText) => MonitorMetrics(verboseText, names, parse, validPattern)
  }

  /** A listing of blank lines finds no outputs, whatever the verbose output says. */
  lemma BlankListingFindsNothing(listing: string, verbose: Result<string, Error>,
                                 parse: string -> Option<u32>, validPattern: string -> bool)
    requires forall i :: 0 <= i < |Split(listing, '\n')| ==> AllWhitespace(Split(listing, '\n')[i])
    ensures Refresh(Ok(listing), verbose, parse, validPattern) == Ok(None)
  {
    ActiveMonitorsNoneIff(listing);
  }

  /** The text shown for monitor `m` with the given options and theme icons. */
  function TextFor(resolution: bool, icons: bool, themeIcons: map<string, string>, m: Monitor): string {
    Render(FormatFor(resolution, icons), ValuesOf(m, themeIcons))
  }

  /** The block: the monitors it knows, the one it shows, and the text it shows. */
  class Xrandr {
    var monitors: seq<Monitor>
    var currentIdx: nat
    var text: string
    const icons: bool
    const resolution: bool
    const stepWidth: u32
    const themeIcons: map<string, string>

    /** The step never exceeds the cap the constructor applies. */
    ghost predicate Valid() {
      stepWidth <= MaxStepWidth
    }

    constructor (config: XrandrConfig, themeIcons: map<string, string>)
      ensures Valid()
      ensures stepWidth == ClampStepWidth(config.stepWidth)
      ensures icons == config.icons && resolution == config.resolution && this.themeIcons == themeIcons
      ensures monitors == [] && currentIdx == 0 && text == ""
    {
      var step := config.stepWidth;
      if step > 50 {
        step := 50;
      }
      icons := config.icons;
      resolution := config.resolution;
      stepWidth := step;
      this.themeIcons := themeIcons;
      monitors := [];
      currentIdx := 0;
      text := "";
    }


    /** Shows the selected monitor, if the selection is in range. */
    method Display()
      modifies this`text
      ensures currentIdx < |monitors| ==> text == TextFor(resolution, icons, themeIcons, monitors[currentIdx])
      ensures currentIdx >= |monitors| ==> text == old(text)
    {
      if currentIdx < |monitors| {
        var m := monitors[currentIdx];
        text := TextFor(resolution, icons, themeIcons, m);
      }
    }

    /**
     * Reads the two commands' outputs and, when both find monitors, replaces
     * the list and shows the selection; the selection itself is never
     * adjusted, so it may be out of range for the new list.
     */
    method Update(listing: Result<string, Error>, verbose: Result<string, Error>,
                  parse: string -> Option<u32>, validPattern: string -> bool) returns (r: Result<(), Error>)
      modifies this`monitors, this`text
      ensures r.Err? <==> Refresh(listing, verbose, parse, validPattern).Err?
      ensures r.Err? ==> r.error == Refresh(listing, verbose, parse, validPattern).error
      ensures Refresh(listing, verbose, parse, validPattern).Ok? && Refresh(listing, verbose, parse, validPattern).value.Some? ==>
        monitors == Refresh(listing, verbose, parse, validPattern).value.value &&
        (currentIdx < |monitors| ==> text == TextFor(resolution, icons, themeIcons, monitors[currentIdx])) &&
        (currentIdx >= |monitors| ==> text == old(text))
      ensures Refresh(listing, verbose, parse, validPattern).Err? || Refresh(listing, verbose, parse, validPattern) == Ok(None) ==>
        monitors == old(monitors) && text == old(text)
      ensures old(monitors) != [] ==> monitors != []
    {
      match listing {
        case Err(e) =>
          return Err(e);
        case Ok(listingText) =>
          var am := GetActiveMonitors(listingText);
          if am.Some? {
            match verbose {
              case Err(e) =>
                return Err(e);
              case Ok(verboseText) =>
                var mm := GetMonitorMetrics(verboseText, am.value, parse, validPattern);
                match mm {
                  case Err(e) =>
                    return Err(e);
                  case Ok(None) =>
                  case Ok(Some(ms)) =>
                    monitors := ms;
                    Display();
                }
            }
          }
          return Ok(());
      }
    }

    /**
     * A click on the block: a left click selects the next monitor (on an
     * empty list the index arithmetic underflows, which is reported, not
     * repaired); a scroll steps the selected monitor's brightness within
     * 0..100%; then the selection is shown again. Clicks aimed elsewhere are
     * ignored.
     */
    method Click(e: ClickEvent) returns (r: Result<(), Error>)
      requires Valid()
      modifies this`currentIdx, this`monitors, this`text
      ensures !e.onThisBlock ==>
        r.Ok? && monitors == old(monitors) && currentIdx == old(currentIdx) && text == old(text)
      ensures e.onThisBlock && e.button == Left && old(monitors) == [] ==>
        r == Err(IndexUnderflow) && monitors == old(monitors) && currentIdx == old(currentIdx) && text == old(text)
      ensures e.onThisBlock && e.button == Left && old(monitors) != [] ==>
        r.Ok? && monitors == old(monitors) &&
        currentIdx == NextIndex(old(currentIdx), |monitors|) && text == TextFor(resolution, icons, themeIcons, monitors[currentIdx])
      ensures e.onThisBlock && e.button != Left ==>
        r.Ok? && currentIdx == old(currentIdx) &&
        monitors == Scrolled(old(monitors), currentIdx, e.button, stepWidth) &&
        (currentIdx < |monitors| ==> text == TextFor(resolution, icons, themeIcons, monitors[currentIdx])) &&
        (currentIdx >= |monitors| ==> text == old(text))
    {
      if !e.onThisBlock {
        return Ok(());
      }
      match e.button {
        case Left =>
          if |monitors| == 0 {
            return Err(IndexUnderflow);
          }
          if currentIdx < |monitors| - 1 {
            currentIdx := currentIdx + 1;
          } else {
            currentIdx := 0;
          }
          assert currentIdx == NextIndex(old(currentIdx), |monitors|);
        case Up =>
          if currentIdx < |monitors| {
            var monitor := monitors[currentIdx];
            if monitor.brightness <= 100 - stepWidth {
              monitors := monitors[currentIdx := SetBrightness(monitor, stepWidth)];
            }
          }
          assert monitors == Scrolled(old(monitors), currentIdx, Up, stepWidth);
        case Down =>
          if currentIdx < |monitors| {
            var monitor := monitors[currentIdx];
            if monitor.brightness >= stepWidth {
              monitors := monitors[currentIdx := SetBrightness(monitor, -(stepWidth as int))];
            }
          }
          assert monitors == Scrolled(old(monitors), currentIdx, Down, stepWidth);
        case Other =>
      }
      Display();
      return Ok(());
    }
  }

  /** With neither option, monitor `DP-1` at 60% is shown as `DP-1: 60`. */
  lemma PlainDisplayExample(themeIcons: map<string, string>)
    ensures TextFor(false, false, themeIcons, Monitor("DP-1", 60, "1920x1080")) == "DP-1: 60"
  {
    var m := Monitor("DP-1", 60, "1920x1080");
    PlainText(ValuesOf(m, themeIcons));
    SixtyToString();
    ExampleLiteral();
  }

  // The two facts below are split out so that the solver does not unfold string literals in the example.
  lemma SixtyToString()
    ensures NatToString(60) == "60"
  {
    assert NatToString(6) == "6";
  }

  lemma ExampleLiteral()
    ensures "DP-1" + ": " + "60" == "DP-1: 60"
  {
  }
}
