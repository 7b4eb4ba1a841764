/**
 The `auto-hide` helper (the `<auto-hide>` element or any element with an
 `auto-hide` attribute): makes sure the element has an id and appends a
 script that hides it after a delay, with an optional hover pause and a
 global handle to start, hide or cancel it.
 */
module AutoHide {
  import opened Wrappers
  import opened Html
  import Strings

  /** A C# `int`. */
  type Int32 = x: int | -0x8000_0000 <= x < 0x8000_0000

  /** Unchecked 32-bit arithmetic: the value modulo 2^32, read back as a
      signed `int`. */
  function Wrap32(x: int): (r: Int32)
    ensures (r - x) % 0x1_0000_0000 == 0
    ensures -0x8000_0000 <= x < 0x8000_0000 ==> r == x
  {
    var m := x % 0x1_0000_0000;
    if m < 0x8000_0000 then m else m - 0x1_0000_0000
  }

  /** The bound attributes with their defaults. `pauseOnHover` keeps
      null (None) apart from "": the first pauses on the element itself,
      the second turns the pause off. */
  datatype AutoHideOptions = AutoHideOptions(
    autoHide: bool,
    delayInSeconds: Int32,
    autoStart: bool,
    debug: bool,
    effect: string,
    animationDuration: Int32,
    removeFromDom: bool,
    pauseOnHover: Option<string>)

  const Defaults := AutoHideOptions(true, 5, true, false, "fade", 300, false, None)

  const IdPrefix := "auto-hide-"
  const DefaultClasses := "p-4 rounded-lg border"

  /** The id the script targets: the element's own non-empty id, or a
      generated one made of the prefix and a fresh GUID's 32 hex digits
      (`suffix`, supplied by the caller). */
  function ElementId(attrs: Attrs, suffix: string): (id: string)
    ensures id != ""
    ensures id == (if GetAttr(attrs, "id").Some? && GetAttr(attrs, "id").value != "" then GetAttr(attrs, "id").value
                   else IdPrefix + suffix)
  {
    match GetAttr(attrs, "id")
    case Some(v) => if v != "" then v else IdPrefix + suffix
    case None => IdPrefix + suffix
  }

  /** An existing id is kept; a missing or empty one is generated with the
      `auto-hide-` prefix. */
  lemma IdIsKeptOrGenerated(attrs: Attrs, suffix: string)
    ensures GetAttr(attrs, "id").Some? && GetAttr(attrs, "id").value != "" ==> ElementId(attrs, suffix) == GetAttr(attrs, "id").value
    ensures GetAttr(attrs, "id").None? || GetAttr(attrs, "id") == Some("") ==>
              |ElementId(attrs, suffix)| >= |IdPrefix| && ElementId(attrs, suffix)[..|IdPrefix|] == IdPrefix
  {
  }

  // The hide effect.

  datatype Effect = Fade | SlideUp | Scale

  /** The effect a name selects, compared after lower-casing; an unknown
      name falls back to a fade. */
  function ParseEffect(name: string): Effect {
    var n := Strings.Lower(name);
    if n == "slide-up" then SlideUp
    else if n == "scale" then Scale
    else Fade
  }

  function EffectName(e: Effect): string {
    match e
    case Fade => "fade"
    case SlideUp => "slide-up"
    case Scale => "scale"
  }

  lemma EffectNameRoundTrip(e: Effect)
    ensures ParseEffect(EffectName(e)) == e
  {
    match e
    case Fade => assert Strings.Lower("fade") == "fade";
    case SlideUp => assert Strings.Lower("slide-up") == "slide-up";
    case Scale => assert Strings.Lower("scale") == "scale";
  }

  /** The effect name is matched case-insensitively. */
  lemma EffectIgnoresCase(name: string)
    ensures ParseEffect(name) == ParseEffect(Strings.Lower(name))
  {
    Strings.LowerIdempotent(name);
  }

  const OpacityLine := "        element.style.opacity = '0';"
  const SlideLine := "        element.style.transform = 'translateY(-100%)';"
  const ScaleLine := "        element.style.transform = 'scale(0)';"

  /** The effect a run of effect statements carries out: a fade-out
      alone, or a slide or scale transform followed by the fade-out; any
      other run carries out no effect. */
  function EffectOf(lines: seq<string>): Option<Effect> {
    if lines == [OpacityLine] then Some(Fade)
    else if lines == [SlideLine, OpacityLine] then Some(SlideUp)
    else if lines == [ScaleLine, OpacityLine] then Some(Scale)
    else None
  }

  /** The statements that start the hide: a transform for the slide and
      scale effects, then the fade-out every effect ends with. */
  function EffectLines(name: string): (r: seq<string>)
    ensures 1 <= |r| <= 2 && r[|r| - 1] == OpacityLine
    ensures ParseEffect(name) == SlideUp ==> r[0] == SlideLine
    ensures ParseEffect(name) == Scale ==> r[0] == ScaleLine
    ensures ParseEffect(name) == Fade ==> r == [OpacityLine]
  {
    match ParseEffect(name)
    case Fade => [OpacityLine]
    case SlideUp => [SlideLine, OpacityLine]
    case Scale => [ScaleLine, OpacityLine]
  }

  /** The statements carry out the effect the name selects, and they are
      the only statements that carry it out. */
  lemma EffectLinesReadBack(name: string)
    ensures EffectOf(EffectLines(name)) == Some(ParseEffect(name))
  {
    assert SlideLine[35] != ScaleLine[35];
  }

  /** A run that carries out an effect is the run its name writes. */
  lemma EffectOfOnlyEffectLines(lines: seq<string>)
    requires EffectOf(lines).Some?
    ensures lines == EffectLines(EffectName(EffectOf(lines).value))
  {
    EffectNameRoundTrip(EffectOf(lines).value);
  }

  // The script, segment by segment.

  const ElementPrefix := "    const element = document.getElementById('"
  const ElementSuffix := "');"

  function TargetLine(id: string): string {
    ElementPrefix + id + ElementSuffix
  }

  function Header(id: string): (r: seq<string>)
    ensures |r| == 4 && r[0] == "(function() {" && r[1] == TargetLine(id)
  {
    ["(function() {", TargetLine(id), "    if (!element) return;", ""]
  }

  const LogPrefix := "    const log = (msg) => console.log(`[AutoHide:"
  const LogSuffix := "] ${msg}`);"
  const SilentLog := "    const log = () => {};"

  /** The logger as written: the id placeholder sits in a string that is
      not interpolated, so every element's log lines carry the text
      `{elementId}` instead of the element's id. */
  function LogLineAsWritten(debug: bool): string {
    if debug then LogPrefix + "{elementId}" + LogSuffix else SilentLog
  }

  /** The logger as evidently intended: debug messages are tagged with the
      element's id. */
  function LogLine(id: string, debug: bool): string {
    if debug then LogPrefix + id + LogSuffix else SilentLog
  }

  /** The tag a debug logger puts in front of its messages. */
  function LoggedTag(line: string): Option<string> {
    Strings.Between(line, LogPrefix, LogSuffix)
  }

  /** The corrected logger names the element it belongs to. */
  lemma LogLineNamesElement(id: string)
    ensures LoggedTag(LogLine(id, true)) == Some(id)
  {
    Strings.BetweenReadsBack(LogPrefix, id, LogSuffix);
  }

  /** The logger as written names no element: for the id `box` its tag is
      the literal placeholder. */
  lemma LogLineAsWrittenIgnoresId()
    ensures LoggedTag(LogLineAsWritten(true)) == Some("{elementId}")
    ensures LoggedTag(LogLineAsWritten(true)) != LoggedTag(LogLine("box", true))
  {
    Strings.BetweenReadsBack(LogPrefix, "{elementId}", LogSuffix);
    LogLineNamesElement("box");
  }

  const TransitionPrefix := "    element.style.transition = 'all "
  const TransitionSuffix := "ms ease-in-out';"

  /** The transition every change of style goes through, lasting
      `duration` milliseconds. */
  function TransitionLine(duration: Int32): string {
    TransitionPrefix + Strings.IntToDecimal(duration) + TransitionSuffix
  }

  /** The milliseconds a transition statement lasts, read from its text. */
  function TransitionDuration(line: string): Option<int> {
    match Strings.Between(line, TransitionPrefix, TransitionSuffix)
    case Some(d) => Strings.ParseInt(d)
    case None => None
  }

  /** The transition lasts the configured animation duration. */
  lemma TransitionLineReadsBack(duration: Int32)
    ensures TransitionDuration(TransitionLine(duration)) == Some(duration)
  {
    Strings.BetweenReadsBack(TransitionPrefix, Strings.IntToDecimal(duration), TransitionSuffix);
    Strings.IntDecimalRoundTrip(duration);
  }

  /** The timer and pause state, then the transition style. */
  function TransitionLines(duration: Int32): (r: seq<string>)
    ensures |r| == 7 && r[5] == TransitionLine(duration)
  {
    ["", "    let hideTimer = null;", "    let isPaused = false;", "",
     "    // Add transition styles",
     TransitionLine(duration), ""]
  }

  const RemovePrefix := "        setTimeout(() => element.remove(), "
  const ConcealPrefix := "        setTimeout(() => element.style.display = 'none', "
  const FinishSuffix := ");"

  /** What follows the effect: remove the element, or hide it, once the
      animation has had `duration` milliseconds. */
  function FinishLine(remove: bool, duration: Int32): string {
    (if remove then RemovePrefix else ConcealPrefix) + Strings.IntToDecimal(duration) + FinishSuffix
  }

  /** What a finishing statement does, read back from its text: whether it
      removes the element (rather than hiding it) and after how many
      milliseconds. */
  function Finish(line: string): Option<(bool, int)> {
    match Strings.Between(line, RemovePrefix, FinishSuffix)
    case Some(d) => (match Strings.ParseInt(d) case Some(ms) => Some((true, ms)) case None => None)
    case None =>
      match Strings.Between(line, ConcealPrefix, FinishSuffix)
      case Some(d) => (match Strings.ParseInt(d) case Some(ms) => Some((false, ms)) case None => None)
      case None => None
  }

  /** The finishing statement removes the element exactly when asked to,
      after the animation's duration. */
  lemma FinishLineReadsBack(remove: bool, duration: Int32)
    ensures Finish(FinishLine(remove, duration)) == Some((remove, duration))
  {
    var digits := Strings.IntToDecimal(duration);
    Strings.IntDecimalRoundTrip(duration);
    if remove {
      Strings.BetweenReadsBack(RemovePrefix, digits, FinishSuffix);
    } else {
      Strings.BetweenReadsBack(ConcealPrefix, digits, FinishSuffix);
      var l := FinishLine(remove, duration);
      assert l[33] == ConcealPrefix[33] != RemovePrefix[33];
    }
  }

  function HideLines(effect: string, remove: bool, duration: Int32): (r: seq<string>)
    ensures var n := |EffectLines(effect)|;
            && |r| == 5 + n
            && (forall i | 0 <= i < n :: r[2 + i] == EffectLines(effect)[i])
            && r[2 + n] == FinishLine(remove, duration)
  {
    ["    const hideElement = () => {", "        log('Hiding element');"]
      + EffectLines(effect)
      + [FinishLine(remove, duration), "    };", ""]
  }

  const TimerPrefix := "        hideTimer = setTimeout(hideElement, "
  const TimerSuffix := ");"

  /** The statement arming the timer: the delay in milliseconds, computed
      in 32-bit arithmetic. */
  function TimerLine(delay: Int32): string {
    TimerPrefix + Strings.IntToDecimal(Wrap32(delay * 1000)) + TimerSuffix
  }

  const TimerLogPrefix := "        log('Starting hide timer: "
  const TimerLogSuffix := "s');"

  /** The debug message announcing the timer, in whole seconds. */
  function TimerLogLine(delay: Int32): string {
    TimerLogPrefix + Strings.IntToDecimal(delay) + TimerLogSuffix
  }

  /** The seconds a timer announcement names, read from its text. */
  function AnnouncedDelay(line: string): Option<int> {
    match Strings.Between(line, TimerLogPrefix, TimerLogSuffix)
    case Some(d) => Strings.ParseInt(d)
    case None => None
  }

  /** The announcement names the configured delay in seconds, unwrapped. */
  lemma TimerLogLineReadsBack(delay: Int32)
    ensures AnnouncedDelay(TimerLogLine(delay)) == Some(delay)
  {
    Strings.BetweenReadsBack(TimerLogPrefix, Strings.IntToDecimal(delay), TimerLogSuffix);
    Strings.IntDecimalRoundTrip(delay);
  }

  /** `startTimer`: clears a pending timer, announces the delay, then arms
      the timer. */
  function StartTimerLines(delay: Int32): (r: seq<string>)
    ensures |r| == 6 && r[0] == "    const startTimer = () => {"
    ensures r[1] == "        if (hideTimer) clearTimeout(hideTimer);"
    ensures r[2] == TimerLogLine(delay) && r[3] == TimerLine(delay)
  {
    ["    const startTimer = () => {",
     "        if (hideTimer) clearTimeout(hideTimer);",
     TimerLogLine(delay),
     TimerLine(delay),
     "    };", ""]
  }

  /** The delay, in milliseconds, a timer statement arms. */
  function TimerDelay(line: string): Option<int> {
    match Strings.Between(line, TimerPrefix, TimerSuffix)
    case Some(d) => Strings.ParseInt(d)
    case None => None
  }

  /** The timer arms `delay` seconds as milliseconds, wrapped to 32 bits;
      for delays up to 2147483 seconds that is exactly `delay * 1000`. */
  lemma TimerDelayReadsBack(delay: Int32)
    ensures TimerDelay(TimerLine(delay)) == Some(Wrap32(delay * 1000))
    ensures 0 <= delay <= 2147483 ==> TimerDelay(TimerLine(delay)) == Some(delay * 1000)
  {
    Strings.BetweenReadsBack(TimerPrefix, Strings.IntToDecimal(Wrap32(delay * 1000)), TimerSuffix);
    Strings.IntDecimalRoundTrip(Wrap32(delay * 1000));
  }

  /** A delay above 2147483 seconds overflows: 2147484 seconds arms a
      negative timeout, which fires at once. */
  lemma LongDelayWraps()
    ensures Wrap32(2147484 * 1000) < 0
  {
  }

  const QueryPrefix := "document.querySelector('"
  const QuerySuffix := "')"

  /** What the hover pause listens on: the element itself when no
      selector is given, otherwise the first element matching it. */
  function HoverTarget(pauseOn: Option<string>): (r: string)
    ensures pauseOn.None? || pauseOn == Some("") ==> r == "element"
  {
    match pauseOn
    case None => "element"
    case Some(sel) => if sel == "" then "element" else QueryPrefix + sel + QuerySuffix
  }

  /** A non-empty selector reads back from the hover target. */
  lemma HoverTargetReadsBack(sel: string)
    requires sel != ""
    ensures Strings.Between(HoverTarget(Some(sel)), QueryPrefix, QuerySuffix) == Some(sel)
  {
    Strings.BetweenReadsBack(QueryPrefix, sel, QuerySuffix);
  }

  const HoverPrefix := "    const hoverTarget = "

  /** The hover pause, present unless the selector is the empty string; it
      opens by naming its target. */
  function HoverLines(pauseOn: Option<string>): (r: seq<string>)
    ensures r == [] <==> pauseOn == Some("")
    ensures r != [] ==> |r| == 15 && r[0] == HoverPrefix + HoverTarget(pauseOn) + ";"
  {
    if pauseOn == Some("") then []
    else
      [HoverPrefix + HoverTarget(pauseOn) + ";",
       "    if (hoverTarget) {",
       "        hoverTarget.addEventListener('mouseenter', () => {",
       "            log('Pausing timer (hover)');",
       "            if (hideTimer) clearTimeout(hideTimer);",
       "            isPaused = true;",
       "        });",
       "",
       "        hoverTarget.addEventListener('mouseleave', () => {",
       "            log('Resuming timer');",
       "            isPaused = false;",
       "            startTimer();",
       "        });",
       "    }",
       ""]
  }

  const HandlePrefix := "autoHide_"

  /** The global name of the element's control object: `autoHide_`, then
      the id with each '-' turned into '_'. */
  function HandleName(id: string): (r: string)
    ensures |r| == |HandlePrefix| + |id| && r[..|HandlePrefix|] == HandlePrefix
    ensures r[|HandlePrefix|..] == Strings.ReplaceChar(id, '-', '_')
    ensures '-' !in r[|HandlePrefix|..]
  {
    var tail := Strings.ReplaceChar(id, '-', '_');
    assert (HandlePrefix + tail)[|HandlePrefix|..] == tail;
    HandlePrefix + tail
  }

  /** For an id without '_' the handle gives the id back: turning its '_'
      into '-' after the prefix restores it. */
  lemma HandleNameRecoversId(id: string)
    requires '_' !in id
    ensures Strings.ReplaceChar(HandleName(id)[|HandlePrefix|..], '_', '-') == id
  {
    Strings.ReplaceCharBack(id, '-', '_');
  }

  /** Ids without '_' (such as generated ones, whose GUID part is hex
      digits) never share a handle. */
  lemma HandleNameInjective(a: string, b: string)
    requires '_' !in a && '_' !in b && HandleName(a) == HandleName(b)
    ensures a == b
  {
    HandleNameRecoversId(a);
    HandleNameRecoversId(b);
  }

  /** Distinct ids can share a handle: `a-b` and `a_b` both expose
      `autoHide_a_b`, and the later script overwrites the earlier one. */
  lemma HandlesCanCollide()
    ensures HandleName("a-b") == HandleName("a_b")
  {
  }

  /** The global handle: an object under `window.<handle>` exposing the
      timer's start, the hide itself and a cancel that clears the timer. */
  function HandleLines(id: string): (r: seq<string>)
    ensures |r| == 9 && r[0] == "    window." + HandleName(id) + " = {"
    ensures r[1] == "        start: startTimer," && r[2] == "        hide: hideElement,"
    ensures r[3] == "        cancel: () => {" && r[5] == "            if (hideTimer) clearTimeout(hideTimer);"
  {
    ["    window." + HandleName(id) + " = {",
     "        start: startTimer,",
     "        hide: hideElement,",
     "        cancel: () => {",
     "            log('Timer cancelled');",
     "            if (hideTimer) clearTimeout(hideTimer);",
     "        }",
     "    };",
     ""]
  }

  const AutoStartBlock := ["    // Auto-start", "    log('Auto-starting hide timer');", "    startTimer();"]

  function AutoStartLines(autoStart: bool): seq<string> {
    if autoStart then AutoStartBlock else []
  }

  const Footer := "})();"

  /** Five runs of lines, one after another. */
  function Chain(a: seq<string>, b: seq<string>, c: seq<string>, d: seq<string>, e: seq<string>): (r: seq<string>)
    ensures |r| == |a| + |b| + |c| + |d| + |e|
  {
    a + b + c + d + e
  }

  /** Everything between the logger and the auto-start block: the parts
      that depend neither on the auto-start nor on the debug flag. */
  function Body(o: AutoHideOptions, id: string): seq<string> {
    Chain(TransitionLines(o.animationDuration),
          HideLines(o.effect, o.removeFromDom, o.animationDuration),
          StartTimerLines(o.delayInSeconds),
          HoverLines(o.pauseOnHover),
          HandleLines(id))
  }

  /** A script from its opening lines, its body and its auto-start
      block, closed by the footer. */
  function Assemble(head: seq<string>, body: seq<string>, start: seq<string>): (r: seq<string>)
    ensures |r| == |head| + |body| + |start| + 1 && r[|r| - 1] == Footer
    ensures forall i | 0 <= i < |head| :: r[i] == head[i]
  {
    head + body + start + [Footer]
  }

  /** The script with the given logger line. */
  function ScriptWith(o: AutoHideOptions, id: string, logger: string): seq<string> {
    Assemble(Header(id) + [logger], Body(o, id), AutoStartLines(o.autoStart))
  }

  /** The lines of the auto-hide script as the helper writes them, each
      ended by a new line. */
  function ScriptLines(o: AutoHideOptions, id: string): (r: seq<string>)
    ensures |r| >= 6 && r[0] == "(function() {" && r[1] == TargetLine(id) && r[4] == LogLineAsWritten(o.debug)
    ensures r[|r| - 1] == Footer
  {
    var head := Header(id) + [LogLineAsWritten(o.debug)];
    assert head[1] == TargetLine(id) && head[4] == LogLineAsWritten(o.debug);
    ScriptWith(o, id, LogLineAsWritten(o.debug))
  }

  /** The script as evidently intended: the same, with the logger naming
      the element. */
  function CorrectedScriptLines(o: AutoHideOptions, id: string): seq<string> {
    ScriptWith(o, id, LogLine(id, o.debug))
  }

  /** The id a script looks up, read from its second line. */
  function ScriptTarget(lines: seq<string>): Option<string> {
    if |lines| >= 2 then Strings.Between(lines[1], ElementPrefix, ElementSuffix) else None
  }

  /** The script acts on the element whose id it was given. */
  lemma ScriptTargetsElement(o: AutoHideOptions, id: string)
    ensures ScriptTarget(ScriptLines(o, id)) == Some(id)
  {
    Strings.BetweenReadsBack(ElementPrefix, id, ElementSuffix);
  }

  /** `block` runs in `r` from line `i` on. */
  predicate Runs(r: seq<string>, i: nat, block: seq<string>) {
    i + |block| <= |r| && r[i..i + |block|] == block
  }

  /** Where the blocks of a body sit inside the assembled script, given
      their offsets `i`, `j`, `k`, `l`. */
  lemma BlocksIn(head: seq<string>, a: seq<string>, b: seq<string>, c: seq<string>,
                 d: seq<string>, e: seq<string>, start: seq<string>, i: nat, j: nat, k: nat, l: nat)
    requires i == |head| + |a| && j == i + |b| && k == j + |c| && l == k + |d|
    ensures var r := Assemble(head, Chain(a, b, c, d, e), start);
            Runs(r, i, b) && Runs(r, j, c) && Runs(r, k, d) && Runs(r, l, e) && l + |e| < |r|
  {
    var body := Chain(a, b, c, d, e);
    ChainRuns(a, b, c, d, e);
    InAssembled(head, body, start, |a|, b);
    InAssembled(head, body, start, |a| + |b|, c);
    InAssembled(head, body, start, |a| + |b| + |c|, d);
    InAssembled(head, body, start, |a| + |b| + |c| + |d|, e);
  }

  /** Where the last four of five chained runs sit. */
  lemma ChainRuns(a: seq<string>, b: seq<string>, c: seq<string>, d: seq<string>, e: seq<string>)
    ensures var body := Chain(a, b, c, d, e);
            && Runs(body, |a|, b) && Runs(body, |a| + |b|, c)
            && Runs(body, |a| + |b| + |c|, d) && Runs(body, |a| + |b| + |c| + |d|, e)
  {
    assert Runs(a + b + c + d + e, |a|, b) by {
      RunsTail(a, b);
      RunsExtend(a + b, c, |a|, b);
      RunsExtend(a + b + c, d, |a|, b);
      RunsExtend(a + b + c + d, e, |a|, b);
    }
    assert Runs(a + b + c + d + e, |a| + |b|, c) by {
      RunsTail(a + b, c);
      RunsExtend(a + b + c, d, |a + b|, c);
      RunsExtend(a + b + c + d, e, |a + b|, c);
    }
    assert Runs(a + b + c + d + e, |a| + |b| + |c|, d) by {
      RunsTail(a + b + c, d);
      RunsExtend(a + b + c + d, e, |a + b + c|, d);
    }
    RunsTail(a + b + c + d, e);
  }

  /** A run that ends a sequence runs in it. */
  lemma RunsTail(x: seq<string>, y: seq<string>)
    ensures Runs(x + y, |x|, y)
  {
    assert (x + y)[|x|..|x| + |y|] == y;
  }

  /** A run stays where it is when lines are added after it. */
  lemma RunsExtend(x: seq<string>, y: seq<string>, i: nat, block: seq<string>)
    requires Runs(x, i, block)
    ensures Runs(x + y, i, block)
  {
    assert (x + y)[i..i + |block|] == x[i..i + |block|];
  }

  /** A run moves down by the length of lines added before it. */
  lemma RunsShift(x: seq<string>, y: seq<string>, i: nat, block: seq<string>)
    requires Runs(y, i, block)
    ensures Runs(x + y, |x| + i, block)
  {
    assert (x + y)[|x| + i..|x| + i + |block|] == y[i..i + |block|];
  }

  /** A run of the body runs in the assembled script after the head. */
  lemma InAssembled(head: seq<string>, body: seq<string>, start: seq<string>, i: nat, block: seq<string>)
    requires Runs(body, i, block)
    ensures Runs(Assemble(head, body, start), |head| + i, block)
    ensures |head| + i + |block| < |Assemble(head, body, start)|
  {
    RunsShift(head, body, i, block);
    RunsExtend(head + body, start, |head| + i, block);
    RunsExtend(head + body + start, [Footer], |head| + i, block);
  }

  /** After the header, the logger and the transition set-up, the script
      holds the hide function and then the timer. */
  lemma ScriptHideThenTimer(o: AutoHideOptions, id: string)
    ensures var h := HideLines(o.effect, o.removeFromDom, o.animationDuration);
            && Runs(ScriptLines(o, id), 12, h)
            && Runs(ScriptLines(o, id), 12 + |h|, StartTimerLines(o.delayInSeconds))
  {
    var h := HideLines(o.effect, o.removeFromDom, o.animationDuration);
    var hv := HoverLines(o.pauseOnHover);
    BlocksIn(Header(id) + [LogLineAsWritten(o.debug)], TransitionLines(o.animationDuration),
             h, StartTimerLines(o.delayInSeconds), hv, HandleLines(id), AutoStartLines(o.autoStart),
             12, 12 + |h|, 12 + |h| + 6, 12 + |h| + 6 + |hv|);
  }

  /** After the timer, the script holds the hover pause and then the
      global handle. */
  lemma ScriptHoverThenHandle(o: AutoHideOptions, id: string)
    ensures var h := HideLines(o.effect, o.removeFromDom, o.animationDuration);
            var hv := HoverLines(o.pauseOnHover);
            && Runs(ScriptLines(o, id), 18 + |h|, hv)
            && Runs(ScriptLines(o, id), 18 + |h| + |hv|, HandleLines(id))
  {
    var head := Header(id) + [LogLineAsWritten(o.debug)];
    var a := TransitionLines(o.animationDuration);
    var h := HideLines(o.effect, o.removeFromDom, o.animationDuration);
    var t := StartTimerLines(o.delayInSeconds);
    var hv := HoverLines(o.pauseOnHover);
    assert ScriptLines(o, id) == Assemble(head, Chain(a, h, t, hv, HandleLines(id)), AutoStartLines(o.autoStart));
    assert |head| + |a| + |h| + |t| == 18 + |h|;
    BlocksIn(head, a, h, t, hv, HandleLines(id), AutoStartLines(o.autoStart),
             |head| + |a|, |head| + |a| + |h|, 18 + |h|, 18 + |h| + |hv|);
  }

  /** A line of a block that runs in `r` is a line of `r`. */
  lemma RunsLine(r: seq<string>, i: nat, block: seq<string>, k: nat)
    requires Runs(r, i, block) && k < |block|
    ensures r[i + k] == block[k]
  {
    assert r[i..i + |block|][k] == r[i + k];
  }

  lemma RunsSlice(r: seq<string>, i: nat, block: seq<string>, lo: nat, hi: nat)
    requires Runs(r, i, block) && lo <= hi <= |block|
    ensures r[i + lo..i + hi] == block[lo..hi]
  {
    forall k | 0 <= k < hi - lo ensures r[i + lo..i + hi][k] == block[lo..hi][k] {
      RunsLine(r, i, block, lo + k);
    }
  }

  /** The script arms the timer with the configured delay. */
  lemma ScriptArmsTimer(o: AutoHideOptions, id: string)
    ensures TimerLine(o.delayInSeconds) in ScriptLines(o, id)
    ensures TimerLogLine(o.delayInSeconds) in ScriptLines(o, id)
  {
    ScriptHideThenTimer(o, id);
    var h := HideLines(o.effect, o.removeFromDom, o.animationDuration);
    RunsLine(ScriptLines(o, id), 12 + |h|, StartTimerLines(o.delayInSeconds), 2);
    RunsLine(ScriptLines(o, id), 12 + |h|, StartTimerLines(o.delayInSeconds), 3);
  }

  /** A hide function running from line `i`: its effect statements run
      from `p` to `q`, and the finishing statement is at `q`. */
  lemma HideFunctionAt(r: seq<string>, i: nat, p: nat, q: nat, effect: string, remove: bool, duration: Int32)
    requires Runs(r, i, HideLines(effect, remove, duration))
    requires p == i + 2 && q == p + |EffectLines(effect)|
    ensures q < |r|
    ensures EffectOf(r[p..q]) == Some(ParseEffect(effect))
    ensures Finish(r[q]) == Some((remove, duration))
  {
    var h := HideLines(effect, remove, duration);
    var e := EffectLines(effect);
    assert h[2..2 + |e|] == e;
    RunsSlice(r, i, h, 2, 2 + |e|);
    RunsLine(r, i, h, 2 + |e|);
    assert r[p..q] == e && r[q] == FinishLine(remove, duration);
    EffectLinesReadBack(effect);
    FinishLineReadsBack(remove, duration);
  }

  /** The hide function carries out the selected effect, then removes the
      element exactly when `remove-from-dom` is set, or else hides it,
      after the animation's duration. */
  lemma ScriptHidesAsConfigured(o: AutoHideOptions, id: string)
    ensures var r := ScriptLines(o, id);
            var n := |EffectLines(o.effect)|;
            && 14 + n < |r|
            && EffectOf(r[14..14 + n]) == Some(ParseEffect(o.effect))
            && Finish(r[14 + n]) == Some((o.removeFromDom, o.animationDuration))
  {
    ScriptHideThenTimer(o, id);
    HideFunctionAt(ScriptLines(o, id), 12, 14, 14 + |EffectLines(o.effect)|, o.effect, o.removeFromDom, o.animationDuration);
  }

  /** The first line from `k` on: the hover block's target line when that
      block is there, otherwise the handle line. */
  lemma HoverOrHandleAt(r: seq<string>, k: nat, pauseOn: Option<string>, id: string)
    requires Runs(r, k, HoverLines(pauseOn)) && Runs(r, k + |HoverLines(pauseOn)|, HandleLines(id))
    ensures k < |r|
    ensures pauseOn != Some("") <==> r[k] == HoverPrefix + HoverTarget(pauseOn) + ";"
    ensures pauseOn.None? ==> r[k] == HoverPrefix + "element;"
  {
    var hv := HoverLines(pauseOn);
    if hv != [] {
      RunsLine(r, k, hv, 0);
      assert pauseOn.None? ==> HoverTarget(pauseOn) == "element";
    } else {
      RunsLine(r, k, HandleLines(id), 0);
      assert r[k][4] == 'w' && (HoverPrefix + HoverTarget(pauseOn) + ";")[4] == 'c';
    }
  }

  /** The hover pause is in the script unless the selector is "", and it
      listens on the element when no selector is given. */
  lemma ScriptPausesOnHover(o: AutoHideOptions, id: string)
    ensures var r := ScriptLines(o, id);
            var k := 18 + |HideLines(o.effect, o.removeFromDom, o.animationDuration)|;
            && k < |r|
            && (o.pauseOnHover != Some("") <==> r[k] == HoverPrefix + HoverTarget(o.pauseOnHover) + ";")
            && (o.pauseOnHover.None? ==> r[k] == HoverPrefix + "element;")
  {
    var r := ScriptLines(o, id);
    var hv := HoverLines(o.pauseOnHover);
    var k := 18 + |HideLines(o.effect, o.removeFromDom, o.animationDuration)|;
    ScriptHoverThenHandle(o, id);
    assert Runs(r, k, hv) && Runs(r, k + |hv|, HandleLines(id));
    HoverOrHandleAt(r, k, o.pauseOnHover, id);
  }

  lemma AssembleWithStart(head: seq<string>, body: seq<string>, start: seq<string>)
    ensures var off := Assemble(head, body, []);
            Assemble(head, body, start) == off[..|off| - 1] + start + [Footer]
  {
    var off := Assemble(head, body, []);
    assert off[..|off| - 1] == head + body;
  }

  /** Auto-start on means the three auto-start lines just before the
      closing line; off means no auto-start line at all. Nothing else
      depends on the flag. */
  lemma AutoStartOnlyAddsCall(o: AutoHideOptions, id: string)
    ensures var on := ScriptLines(o.(autoStart := true), id);
            var off := ScriptLines(o.(autoStart := false), id);
            on == off[..|off| - 1] + AutoStartBlock + [Footer]
  {
    AssembleWithStart(Header(id) + [LogLineAsWritten(o.debug)], Body(o, id), AutoStartBlock);
  }

  lemma AssembleWithLogger(h: seq<string>, x: string, y: string, body: seq<string>, start: seq<string>)
    ensures var on := Assemble(h + [x], body, start);
            var off := Assemble(h + [y], body, start);
            && |on| == |off| && on[|h|] == x && off[|h|] == y
            && forall i | 0 <= i < |on| && i != |h| :: on[i] == off[i]
  {
  }

  /** Debug mode changes the logger line and nothing else. */
  lemma DebugOnlyChangesLogger(o: AutoHideOptions, id: string)
    ensures var on := ScriptLines(o.(debug := true), id);
            var off := ScriptLines(o.(debug := false), id);
            && |on| == |off|
            && on[4] == LogLineAsWritten(true) && off[4] == LogLineAsWritten(false)
            && forall i | 0 <= i < |on| && i != 4 :: on[i] == off[i]
  {
    AssembleWithLogger(Header(id), LogLineAsWritten(true), LogLineAsWritten(false), Body(o, id), AutoStartLines(o.autoStart));
  }

  /** The corrected script differs from the written one in the logger line
      only; with debug on, the written logger tags messages with the
      literal `{elementId}` while the corrected one names the element. */
  lemma CorrectedScriptNamesElement(o: AutoHideOptions, id: string)
    ensures var written := ScriptLines(o, id);
            var fixed := CorrectedScriptLines(o, id);
            && |fixed| == |written|
            && (forall i | 0 <= i < |fixed| && i != 4 :: fixed[i] == written[i])
            && (o.debug ==> LoggedTag(written[4]) == Some("{elementId}") && LoggedTag(fixed[4]) == Some(id))
            && (!o.debug ==> fixed == written)
  {
    AssembleWithLogger(Header(id), LogLine(id, o.debug), LogLineAsWritten(o.debug), Body(o, id), AutoStartLines(o.autoStart));
    LogLineAsWrittenIgnoresId();
    LogLineNamesElement(id);
  }

  /** A script that fades its element out and hides it (without removing
      it) the animation's duration later. */
  lemma FadeAndConceal(o: AutoHideOptions, id: string)
    requires ParseEffect(o.effect) == Fade && !o.removeFromDom
    ensures var r := ScriptLines(o, id);
            && |r| > 24 && r[14] == OpacityLine && EffectOf(r[14..15]) == Some(Fade)
            && Finish(r[15]) == Some((false, o.animationDuration))
  {
    var r := ScriptLines(o, id);
    ScriptHidesAsConfigured(o, id);
    assert r[14] == r[14..15][0];
  }

  /** After a fade, a script with the pause on the element itself listens
      on line 24. */
  lemma FadePausesOnElement(o: AutoHideOptions, id: string)
    requires ParseEffect(o.effect) == Fade && o.pauseOnHover.None?
    ensures var r := ScriptLines(o, id);
            |r| > 24 && r[24] == HoverPrefix + "element;"
  {
    assert |HideLines(o.effect, o.removeFromDom, o.animationDuration)| == 6;
    ScriptPausesOnHover(o, id);
  }

  /** With auto-start on, the script ends by starting the timer. */
  lemma ScriptEndsByStarting(o: AutoHideOptions, id: string)
    requires o.autoStart
    ensures var r := ScriptLines(o, id);
            |r| >= 4 && r[|r| - 4..|r| - 1] == AutoStartBlock
  {
    var r := ScriptLines(o, id);
    var off := ScriptLines(o.(autoStart := false), id);
    var x := off[..|off| - 1];
    assert r == x + AutoStartBlock + [Footer] by {
      assert o.(autoStart := true) == o;
      AutoStartOnlyAddsCall(o, id);
    }
    RunsTail(x, AutoStartBlock);
    RunsExtend(x + AutoStartBlock, [Footer], |x|, AutoStartBlock);
  }

  /** With every option at its default the script arms a 5000 ms timer,
      then fades the element out and hides it (without removing it) 300 ms
      later; it pauses while the element is hovered and starts on its own. */
  lemma DefaultScript(id: string)
    ensures var r := ScriptLines(Defaults, id);
            && TimerLine(Defaults.delayInSeconds) in r && TimerDelay(TimerLine(Defaults.delayInSeconds)) == Some(5000)
            && |r| > 24 && r[14] == OpacityLine && EffectOf(r[14..15]) == Some(Fade)
            && Finish(r[15]) == Some((false, 300))
            && r[24] == HoverPrefix + "element;"
            && r[|r| - 4..|r| - 1] == AutoStartBlock
  {
    TimerDelayReadsBack(5);
    EffectNameRoundTrip(Fade);
    ScriptArmsTimer(Defaults, id);
    FadeAndConceal(Defaults, id);
    FadePausesOnElement(Defaults, id);
    ScriptEndsByStarting(Defaults, id);
  }

  /** The element's attributes after processing: the id set, and on an
      `<auto-hide>` element without a class the default classes. */
  function AutoHideAttributes(a: Attrs, id: string, retag: bool): (r: Attrs)
    ensures GetAttr(r, "id") == Some(id)
    ensures retag && !HasAttr(a, "class") ==> GetAttr(r, "class") == Some(DefaultClasses)
    ensures !(retag && !HasAttr(a, "class")) ==> GetAttr(r, "class") == GetAttr(a, "class")
    ensures forall n | Strings.Lower(n) != "id" && Strings.Lower(n) != "class" :: GetAttr(r, n) == GetAttr(a, n)
  {
    var withId := SetAttr(a, "id", id);
    assert Strings.Lower("class") != Strings.Lower("id") by {
      assert Strings.Lower("class")[0] == 'c';
    }
    if retag && !HasAttr(withId, "class") then SetAttr(withId, "class", DefaultClasses) else withId
  }

  /** `AutoHideTagHelper.ProcessAsync`; `suffix` stands for the GUID a
      missing id is made from. */
  function Process(e: Element, o: AutoHideOptions, suffix: string): (r: Element)
    ensures Suppressed(e) || !o.autoHide ==> r == e
    ensures !Suppressed(e) && o.autoHide ==>
              var id := ElementId(e.attrs, suffix);
              var retag := e.tag == Some("auto-hide");
              && r.attrs == AutoHideAttributes(e.attrs, id, retag)
              && r.tag == (if retag then Some("div") else e.tag)
              && r.postContent == e.postContent + [Script(ScriptLines(o, id))]
              && r.content == e.content && r.allAttrs == e.allAttrs && r.child == e.child
              && r.items == e.items && r.suppressedByIf == e.suppressedByIf
  {
    if Suppressed(e) || !o.autoHide then e
    else
      var id := ElementId(e.attrs, suffix);
      var retag := e.tag == Some("auto-hide");
      e.(tag := if retag then Some("div") else e.tag,
         attrs := AutoHideAttributes(e.attrs, id, retag),
         postContent := e.postContent + [Script(ScriptLines(o, id))])
  }

  /** The script appended to an element targets the id the element ends
      up with. */
  lemma ScriptTargetsRenderedId(e: Element, o: AutoHideOptions, suffix: string)
    requires !Suppressed(e) && o.autoHide
    ensures var r := Process(e, o, suffix);
            && |r.postContent| == |e.postContent| + 1
            && r.postContent[|e.postContent|].Script?
            && GetAttr(r.attrs, "id") == ScriptTarget(r.postContent[|e.postContent|].lines)
  {
    ScriptTargetsElement(o, ElementId(e.attrs, suffix));
  }
}
