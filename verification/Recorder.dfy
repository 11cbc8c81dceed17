/**
 The recording loop: a circular table of samples with a trigger and a count of the samples after it.
 Every pass of the loop takes its inputs from a script of the environment.
 */
module Recorder {
  import opened Bytes
  import opened Microphone

  const RING: nat := 23900
  const DETECT_MIN: nat := 1536
  const MARGIN: nat := 11950
  const INITIAL_SAMPLES: nat := 2048
  const PHASES: nat := 10

  /** A sample that is far enough from zero, as 16-bit two's complement, to start the recording. */
  predicate Loud(sound: u16) {
    DETECT_MIN < sound < 0xFFFF - DETECT_MIN
  }

  /** As a signed number: above 1536, or below -1537. */
  lemma LoudIff(sound: u16)
    ensures Loud(sound) <==> Signed(sound, 0x8000) > 1536 || Signed(sound, 0x8000) < -1537
  {
  }

  /** The index of the first loud sample, or the length if there is none. */
  function FirstLoud(heard: seq<u16>): (i: nat)
    ensures i <= |heard| && (i < |heard| ==> Loud(heard[i])) && forall k :: 0 <= k < i ==> !Loud(heard[k])
  {
    if heard == [] then 0
    else
      var i := FirstLoud(heard[..|heard| - 1]);
      if i < |heard| - 1 || Loud(heard[|heard| - 1]) then i else |heard|
  }

  lemma FirstLoudAppend(heard: seq<u16>, sound: u16)
    ensures FirstLoud(heard + [sound])
            == if FirstLoud(heard) < |heard| || Loud(sound) then FirstLoud(heard) else |heard| + 1
  {
    assert (heard + [sound])[..|heard|] == heard;
  }

  /** The sample `back` places from the end; silence before the recording and where it was blanked. */
  function Memory(heard: seq<u16>, blanked: nat, back: nat): (s: u16)
    requires back >= 1
  {
    if back > |heard| || |heard| - back < blanked then 0 else heard[|heard| - back]
  }

  lemma Silence()
    ensures forall back: nat :: back >= 1 ==> Memory([], 0, back) == 0
  {
  }

  /** The last RING samples in the order of time, with silence before the beginning and where blanked. */
  ghost predicate IsWindow(window: seq<u16>, heard: seq<u16>, blanked: nat) {
    |window| == RING && forall k :: 0 <= k < RING ==> window[k] == Memory(heard, blanked, RING - k)
  }

  /**
   In a complete recording all before the middle is quiet, and the trigger is in the middle exactly if it
   was not blanked.
   */
  lemma TriggerInTheMiddle(window: seq<u16>, heard: seq<u16>, blanked: nat)
    requires IsWindow(window, heard, blanked) && |heard| - FirstLoud(heard) == MARGIN
    ensures blanked <= FirstLoud(heard) <==> Loud(window[MARGIN])
    ensures blanked <= FirstLoud(heard) ==> window[MARGIN] == heard[FirstLoud(heard)]
    ensures forall k :: 0 <= k < MARGIN ==> !Loud(window[k])
  {
    assert window[MARGIN] == Memory(heard, blanked, MARGIN);
    forall k | 0 <= k < MARGIN
      ensures !Loud(window[k])
    {
      assert window[k] == Memory(heard, blanked, RING - k);
    }
  }

  /** The last samples of `heard` in the order of time, the first loud one in the middle, only quiet ones before it. */
  ghost predicate IsCapture(window: seq<u16>, heard: seq<u16>) {
    && IsWindow(window, heard, 0) && |heard| - FirstLoud(heard) == MARGIN
    && window[MARGIN] == heard[FirstLoud(heard)] && Loud(window[MARGIN])
    && forall k :: 0 <= k < MARGIN ==> !Loud(window[k])
  }

  /** How many samples ago slot `j` was written, when slot `n` is the next one to be written. */
  function Age(n: nat, j: nat): (back: nat)
    requires n < RING && j < RING
    ensures 1 <= back <= RING
  {
    if j < n then n - j else n + RING - j
  }

  datatype Flag = WaitForName | WaitForCommand
  datatype Detection = InRange | OutOfRange | DistanceError
  datatype Button = NotPressed | Listen | ResetButton | Volume
  /** What waiting for the connection comes to: it is up, it is down until the reset button, or it comes back. */
  datatype Connection = Up | Reset | Restored
  datatype Result = Running | Fragment | Timeout | RecordError | Start | VolumeChange | Cancel | ResetAll

  /**
   The environment of one pass: the runs of the interrupt routine since the last sample was picked, the
   clock, and what its peripheral answers.
   */
  datatype Pass = Pass(runs: seq<seq<Arrival>>, expired: bool, connection: Connection, button: Button, distance: Detection)

  // ---- What a recording is ----

  /** The samples taken in range since the last restart, and what the loop keeps from pass to pass. */
  datatype Log = Log(taken: seq<u16>, blanked: nat, phase: nat, detection: Detection, inRange: bool)

  /** The samples that go to the table: all but the first ones. */
  function Heard(taken: seq<u16>): (h: seq<u16>) {
    if |taken| < INITIAL_SAMPLES then [] else taken[INITIAL_SAMPLES..]
  }

  /** The recording is complete when the margin of samples has followed the first loud one. */
  predicate Complete(heard: seq<u16>) {
    |heard| - FirstLoud(heard) >= MARGIN
  }

  /** A sample goes to the log while the speaker is in range, and otherwise empties it. */
  function AfterSample(log: Log, sound: u16, expired: bool): (r: (Log, Result)) {
    if log.detection == InRange then
      var next := log.(taken := log.taken + [sound], inRange := true);
      if |log.taken| < INITIAL_SAMPLES then (next, Running)
      else if Complete(Heard(next.taken)) then (next, Fragment)
      else (next, if expired then Timeout else Running)
    else
      var next := log.(taken := [], blanked := 0, inRange := false);
      (next, if log.detection == DistanceError then RecordError else if expired then Timeout else Running)
  }

  /** One peripheral has its turn in every pass that brings a sample. */
  function AfterPoll(log: Log, pass: Pass, flag: Flag): (r: (Log, Result))
    ensures r.1 != Fragment
  {
    var next := log.(phase := if log.phase + 1 == PHASES then 0 else log.phase + 1);
    if log.phase == 0 then
      match pass.connection
      case Up => (next, Running)
      case Reset => (log, ResetAll)
      case Restored => (next.(blanked := |Heard(log.taken)|), Running)
    else if log.phase == 2 then
      match pass.button
      case NotPressed => (next, Running)
      case Listen => (log, if flag == WaitForName then Start else Cancel)
      case ResetButton => (log, ResetAll)
      case Volume => (log, VolumeChange)
    else if log.phase == 3 then (next.(detection := pass.distance), Running)
    else (next, Running)
  }

  /** A pass with a sample: the sample, and then the peripheral. */
  function AfterPass(log: Log, sound: u16, pass: Pass, flag: Flag): (r: (Log, Result)) {
    var (next, result) := AfterSample(log, sound, pass.expired);
    if result == Running then AfterPoll(next, pass, flag) else (next, result)
  }

  /** A recording with the microphone's queue and its count of bad sounds in a row. */
  datatype World = World(log: Log, queued: seq<u32>, counter: u32)

  /** A pass: nothing to pick, a broken microphone, or a sample. */
  function AfterOne(w: World, pass: Pass, flag: Flag): (r: (World, Result)) {
    var queued := FedAll(w.queued, pass.runs);
    if queued == [] then (w.(queued := []), Running)
    else
      var sound := Reduce(queued[0]);
      var next := w.(queued := queued[1..], counter := if sound == ERROR_SOUND then (w.counter + 1) % TWO_32 else 0);
      if sound == ERROR_SOUND && next.counter >= MAX_BAD_SOUNDS then (next, RecordError)
      else
        var (log, result) := AfterPass(w.log, sound, pass, flag);
        (next.(log := log), result)
  }

  /** A whole call: pass after pass, to the first result or the end of the script. */
  function AfterAll(w: World, script: seq<Pass>, flag: Flag): (r: (World, Result))
    decreases |script|
  {
    if script == [] then (w, Running)
    else
      var (next, result) := AfterOne(w, script[0], flag);
      if result == Running then AfterAll(next, script[1..], flag) else (next, result)
  }

  predicate IsBroken(w: World, sound: u16) {
    sound == ERROR_SOUND && w.counter >= MAX_BAD_SOUNDS
  }

  /** The sample that the driver hands over in a pass, if there is one and the microphone is not broken. */
  function Handed(w: World, pass: Pass, flag: Flag): (p: seq<u16>) {
    var queued := FedAll(w.queued, pass.runs);
    if queued != [] && !IsBroken(AfterOne(w, pass, flag).0, Reduce(queued[0])) then [Reduce(queued[0])] else []
  }

  /** The samples that the driver hands over in a call, in order. */
  function Picked(w: World, script: seq<Pass>, flag: Flag): (p: seq<u16>)
    decreases |script|
  {
    if script == [] then []
    else
      var (next, result) := AfterOne(w, script[0], flag);
      Handed(w, script[0], flag) + if result == Running then Picked(next, script[1..], flag) else []
  }

  predicate IsSuffix(s: seq<u16>, t: seq<u16>) {
    |s| <= |t| && t[|t| - |s|..] == s
  }

  lemma SuffixMore(s: seq<u16>, t: seq<u16>, more: seq<u16>)
    requires IsSuffix(s, t)
    ensures IsSuffix(s + more, t + more)
  {
  }

  lemma SuffixOfSuffix(r: seq<u16>, s: seq<u16>, t: seq<u16>)
    requires IsSuffix(r, s) && IsSuffix(s, t)
    ensures IsSuffix(r, t)
  {
    assert s[|s| - |r|..] == t[|t| - |s|..][|s| - |r|..];
  }

  lemma Regroup(a: seq<u16>, b: seq<u16>, c: seq<u16>)
    ensures a + b + c == a + (b + c) && a + [] == a && a + b + [] == a + b
  {
  }

  lemma PassTakes(log: Log, sound: u16, pass: Pass, flag: Flag)
    ensures var taken := AfterPass(log, sound, pass, flag).0.taken;
            taken == if log.detection == InRange then log.taken + [sound] else []
  {
    hide Heard, FirstLoud, Complete;
  }

  lemma OnePassTakes(w: World, pass: Pass, flag: Flag)
    ensures var taken := AfterOne(w, pass, flag).0.log.taken;
            && IsSuffix(taken, w.log.taken + Handed(w, pass, flag))
            && (w.log.detection == InRange ==> taken == w.log.taken + Handed(w, pass, flag))
  {
    hide FedAll, Reduce, AfterPass;
    assert w.log.taken + [] == w.log.taken;
    var queued := FedAll(w.queued, pass.runs);
    if queued != [] {
      PassTakes(w.log, Reduce(queued[0]), pass, flag);
    }
  }

  lemma FirstPass(w: World, script: seq<Pass>, flag: Flag)
    requires script != []
    ensures var (next, result) := AfterOne(w, script[0], flag);
            && AfterAll(w, script, flag) == (if result == Running then AfterAll(next, script[1..], flag) else (next, result))
            && Picked(w, script, flag)
               == Handed(w, script[0], flag) + if result == Running then Picked(next, script[1..], flag) else []
  {
    hide AfterOne, Handed;
  }

  /** In every call, what the recording holds are the last samples that were handed over, in order. */
  lemma {:induction false} RecordsWhatWasPicked(w: World, script: seq<Pass>, flag: Flag)
    ensures IsSuffix(AfterAll(w, script, flag).0.log.taken, w.log.taken + Picked(w, script, flag))
    decreases |script|
  {
    if script != [] {
      hide AfterOne, Handed, AfterAll, Picked, IsSuffix;
      var (next, result) := AfterOne(w, script[0], flag);
      var good, rest := Handed(w, script[0], flag), Picked(next, script[1..], flag);
      FirstPass(w, script, flag);
      OnePassTakes(w, script[0], flag);
      Regroup(w.log.taken, good, rest);
      if result == Running {
        RecordsWhatWasPicked(next, script[1..], flag);
        SuffixMore(next.log.taken, w.log.taken + good, rest);
        SuffixOfSuffix(AfterAll(next, script[1..], flag).0.log.taken, next.log.taken + rest, w.log.taken + good + rest);
      } else {
        Regroup(w.log.taken, good, []);
      }
    }
  }

  /** A script in which the connection never drops out and comes back. */
  ghost predicate NeverRestored(script: seq<Pass>) {
    forall i :: 0 <= i < |script| ==> script[i].connection != Restored
  }

  lemma OnePassBlanksNothing(w: World, pass: Pass, flag: Flag)
    requires w.log.blanked == 0 && pass.connection != Restored
    ensures AfterOne(w, pass, flag).0.log.blanked == 0
  {
    hide FedAll, Reduce, Heard, Complete;
  }

  /** Only the return of the connection erases samples; leaving the range does not, it starts again. */
  lemma {:induction false} NothingIsBlanked(w: World, script: seq<Pass>, flag: Flag)
    requires w.log.blanked == 0 && NeverRestored(script)
    ensures AfterAll(w, script, flag).0.log.blanked == 0
    decreases |script|
  {
    if script != [] {
      hide AfterOne, AfterAll, Picked, Handed;
      FirstPass(w, script, flag);
      OnePassBlanksNothing(w, script[0], flag);
      NothingIsBlanked(AfterOne(w, script[0], flag).0, script[1..], flag);
    }
  }

  /**
   The captured window of any call: its samples are the last ones that were handed over, and all before the
   middle is quiet. The trigger is in the middle exactly if it came after the last return of the connection,
   and without such a return the whole window is of real samples, however often the speaker left the range.
   */
  lemma WindowOfCall(w: World, script: seq<Pass>, flag: Flag, window: seq<u16>)
    requires w.log.taken == []
    requires var end := AfterAll(w, script, flag).0.log;
             && |Heard(end.taken)| - FirstLoud(Heard(end.taken)) == MARGIN
             && IsWindow(window, Heard(end.taken), end.blanked)
    ensures var end := AfterAll(w, script, flag).0.log;
            && IsSuffix(end.taken, Picked(w, script, flag))
            && (forall k :: 0 <= k < MARGIN ==> !Loud(window[k]))
            && (Loud(window[MARGIN]) <==> end.blanked <= FirstLoud(Heard(end.taken)))
            && (w.log.blanked == 0 && NeverRestored(script) ==> IsCapture(window, Heard(end.taken)))
  {
    hide AfterAll, Picked, NeverRestored, Heard, FirstLoud, IsWindow, Loud, IsSuffix;
    var end := AfterAll(w, script, flag).0.log;
    RecordsWhatWasPicked(w, script, flag);
    assert [] + Picked(w, script, flag) == Picked(w, script, flag);
    TriggerInTheMiddle(window, Heard(end.taken), end.blanked);
    if w.log.blanked == 0 && NeverRestored(script) {
      NothingIsBlanked(w, script, flag);
    }
  }

  /** A pass that keeps the speaker in range and the connection up. */
  predicate Undisturbed(pass: Pass) {
    pass.distance == InRange && pass.connection != Restored
  }

  lemma OnePassStays(w: World, pass: Pass, flag: Flag)
    requires w.log.detection == InRange && Undisturbed(pass)
    ensures var log := AfterOne(w, pass, flag).0.log; log.detection == InRange && log.blanked == w.log.blanked
  {
    hide FedAll, Reduce, Heard, Complete;
  }

  /** In a call that nothing disturbs, the recording holds every sample that was handed over, none blanked. */
  lemma {:induction false} UndisturbedTakesAll(w: World, script: seq<Pass>, flag: Flag)
    requires w.log.detection == InRange && forall i :: 0 <= i < |script| ==> Undisturbed(script[i])
    ensures AfterAll(w, script, flag).0.log.taken == w.log.taken + Picked(w, script, flag)
    ensures AfterAll(w, script, flag).0.log.blanked == w.log.blanked
    ensures AfterAll(w, script, flag).0.log.detection == InRange
    decreases |script|
  {
    if script == [] {
      Regroup(w.log.taken, [], []);
    } else {
      hide AfterOne, Handed, AfterAll, Picked, Undisturbed;
      var (next, result) := AfterOne(w, script[0], flag);
      var good := Handed(w, script[0], flag);
      FirstPass(w, script, flag);
      OnePassTakes(w, script[0], flag);
      OnePassStays(w, script[0], flag);
      if result == Running {
        UndisturbedTakesAll(next, script[1..], flag);
        Regroup(w.log.taken, good, Picked(next, script[1..], flag));
      } else {
        Regroup(w.log.taken, good, []);
      }
    }
  }

  /** The captured window of a call in which the speaker stays in range too: no sample is missing. */
  lemma CapturedWindow(w: World, script: seq<Pass>, flag: Flag, window: seq<u16>)
    requires w.log.detection == InRange && w.log.taken == [] && w.log.blanked == 0
    requires forall i :: 0 <= i < |script| ==> Undisturbed(script[i])
    requires var end := AfterAll(w, script, flag).0.log;
             && |Heard(end.taken)| - FirstLoud(Heard(end.taken)) == MARGIN
             && IsWindow(window, Heard(end.taken), end.blanked)
    ensures IsCapture(window, Heard(Picked(w, script, flag)))
  {
    hide AfterAll, Picked, Heard, FirstLoud, IsWindow, Loud, IsSuffix, IsCapture;
    WindowOfCall(w, script, flag, window);
    UndisturbedTakesAll(w, script, flag);
    assert [] + Picked(w, script, flag) == Picked(w, script, flag);
  }

  lemma FirstLoudStays(heard: seq<u16>, more: seq<u16>)
    requires FirstLoud(heard) < |heard|
    ensures FirstLoud(heard + more) == FirstLoud(heard)
  {
    assert (heard + more)[FirstLoud(heard)] == heard[FirstLoud(heard)];
    assert forall k :: 0 <= k < FirstLoud(heard) ==> (heard + more)[k] == heard[k];
  }

  /** The trigger has been heard, and it is before the end of what was erased. */
  ghost predicate TriggerErased(log: Log) {
    && log.detection == InRange && INITIAL_SAMPLES <= |log.taken|
    && FirstLoud(Heard(log.taken)) < log.blanked <= |Heard(log.taken)|
  }

  lemma ReturnErases(w: World, pass: Pass, flag: Flag)
    requires w.log.phase == 0 && w.log.detection == InRange && INITIAL_SAMPLES <= |w.log.taken|
    requires FirstLoud(Heard(w.log.taken)) < |Heard(w.log.taken)|
    requires pass.connection == Restored && Handed(w, pass, flag) != [] && AfterOne(w, pass, flag).1 == Running
    ensures TriggerErased(AfterOne(w, pass, flag).0.log)
  {
    hide FedAll, Reduce, FirstLoud, Complete;
    var sound := Reduce(FedAll(w.queued, pass.runs)[0]);
    assert Heard(w.log.taken + [sound]) == Heard(w.log.taken) + [sound];
    FirstLoudStays(Heard(w.log.taken), [sound]);
  }

  /** A return of the connection after the trigger leaves it out of the fragment, if the speaker stays in range. */
  lemma ReturnLosesTrigger(w: World, script: seq<Pass>, flag: Flag, window: seq<u16>)
    requires w.log.phase == 0 && w.log.detection == InRange && INITIAL_SAMPLES <= |w.log.taken|
    requires FirstLoud(Heard(w.log.taken)) < |Heard(w.log.taken)|
    requires script != [] && script[0].connection == Restored && Handed(w, script[0], flag) != []
    requires AfterOne(w, script[0], flag).1 == Running && forall i :: 1 <= i < |script| ==> Undisturbed(script[i])
    requires var end := AfterAll(w, script, flag).0.log;
             && |Heard(end.taken)| - FirstLoud(Heard(end.taken)) == MARGIN
             && IsWindow(window, Heard(end.taken), end.blanked)
    ensures forall k :: 0 <= k <= MARGIN ==> !Loud(window[k])
  {
    hide AfterOne, AfterAll, Picked, Handed, Undisturbed, FirstLoud, IsWindow, Loud;
    ReturnErases(w, script[0], flag);
    FirstPass(w, script, flag);
    var next, rest := AfterOne(w, script[0], flag).0, script[1..];
    UndisturbedTakesAll(next, rest, flag);
    var more := Picked(next, rest, flag);
    assert Heard(next.log.taken + more) == Heard(next.log.taken) + more;
    FirstLoudStays(Heard(next.log.taken), more);
    TriggerInTheMiddle(window, Heard(next.log.taken + more), next.log.blanked);
  }

  // ---- How a call ends ----

  /** What ended a call, in terms of its last pass and of what it left. */
  ghost predicate EndsBy(result: Result, pass: Pass, end: World) {
    match result
    case Running => true
    case Fragment => Complete(Heard(end.log.taken))
    case Timeout => pass.expired && (end.log.detection == InRange ==> |end.log.taken| > INITIAL_SAMPLES)
    case RecordError => end.log.detection == DistanceError || end.counter >= MAX_BAD_SOUNDS
    case Start => pass.button == Listen && end.log.phase == 2
    case Cancel => pass.button == Listen && end.log.phase == 2
    case VolumeChange => pass.button == Volume && end.log.phase == 2
    case ResetAll => if end.log.phase == 2 then pass.button == ResetButton else pass.connection == Reset
  }

  lemma SampleResult(log: Log, sound: u16, expired: bool)
    requires !Complete(Heard(log.taken))
    ensures var (next, result) := AfterSample(log, sound, expired);
            && (result == Fragment <==> Complete(Heard(next.taken)))
            && (result == Timeout ==> expired && (next.detection == InRange ==> |next.taken| > INITIAL_SAMPLES))
            && (result == RecordError ==> next.detection == DistanceError)
            && result in {Running, Fragment, Timeout, RecordError}
  {
  }

  lemma OnePassResult(w: World, pass: Pass, flag: Flag)
    requires !Complete(Heard(w.log.taken))
    ensures var (next, result) := AfterOne(w, pass, flag);
            && (result == Fragment <==> Complete(Heard(next.log.taken))) && EndsBy(result, pass, next)
  {
    hide FedAll, Reduce, AfterSample, Complete, Heard;
    var queued := FedAll(w.queued, pass.runs);
    if queued != [] {
      SampleResult(w.log, Reduce(queued[0]), pass.expired);
    }
  }

  /**
   In every call, a fragment is what the call ends with exactly if the margin after the trigger is full, and
   every other result has its cause in the pass that ends the call: the clock, the buttons, or a fault.
   */
  lemma {:induction false} ResultsHaveCauses(w: World, script: seq<Pass>, flag: Flag)
    requires !Complete(Heard(w.log.taken))
    ensures var (end, result) := AfterAll(w, script, flag);
            && (result == Fragment <==> Complete(Heard(end.log.taken)))
            && (result != Running ==> exists i :: 0 <= i < |script| && EndsBy(result, script[i], end))
    decreases |script|
  {
    if script != [] {
      hide AfterOne, AfterAll, Picked, Handed, Complete, Heard, EndsBy;
      var (next, result) := AfterOne(w, script[0], flag);
      FirstPass(w, script, flag);
      OnePassResult(w, script[0], flag);
      if result == Running {
        ResultsHaveCauses(next, script[1..], flag);
        var end, last := AfterAll(next, script[1..], flag).0, AfterAll(next, script[1..], flag).1;
        if last != Running {
          var i :| 0 <= i < |script[1..]| && EndsBy(last, script[1..][i], end);
          assert script[1..][i] == script[i + 1];
        }
      }
    }
  }

  /** How many samples pass before the buttons are looked at again. */
  function UntilButtons(phase: nat): (n: nat)
    requires phase < PHASES
  {
    if phase <= 2 then 2 - phase else PHASES + 2 - phase
  }

  lemma HeldOnce(w: World, pass: Pass, flag: Flag)
    requires w.log.phase < PHASES && pass.button != NotPressed && AfterOne(w, pass, flag).1 == Running
    ensures var next := AfterOne(w, pass, flag).0;
            && next.log.phase < PHASES
            && UntilButtons(next.log.phase) + |Handed(w, pass, flag)| == UntilButtons(w.log.phase)
  {
    hide FedAll, Reduce, Complete, Heard;
  }

  /** A button that stays pressed ends every call within ten samples. */
  lemma {:induction false} HeldButtonEnds(w: World, script: seq<Pass>, flag: Flag)
    requires w.log.phase < PHASES && forall i :: 0 <= i < |script| ==> script[i].button != NotPressed
    ensures AfterAll(w, script, flag).1 == Running ==> |Picked(w, script, flag)| <= UntilButtons(w.log.phase) < PHASES
    decreases |script|
  {
    if script != [] {
      hide AfterOne, AfterAll, Picked, Handed;
      var (next, result) := AfterOne(w, script[0], flag);
      FirstPass(w, script, flag);
      if result == Running {
        HeldOnce(w, script[0], flag);
        HeldButtonEnds(next, script[1..], flag);
      }
    }
  }

  lemma ExpiredOnce(w: World, pass: Pass, flag: Flag)
    requires pass.expired && AfterOne(w, pass, flag).1 == Running
    ensures var next := AfterOne(w, pass, flag).0;
            Handed(w, pass, flag) != [] ==>
              |next.log.taken| == |w.log.taken| + |Handed(w, pass, flag)| <= INITIAL_SAMPLES
    ensures Handed(w, pass, flag) == [] ==> AfterOne(w, pass, flag).0.log == w.log
  {
    hide FedAll, Reduce, Complete, Heard;
  }

  /** Once the time is up, a call takes at most the samples that it drops at its start. */
  lemma {:induction false} ExpiredTimeEnds(w: World, script: seq<Pass>, flag: Flag)
    requires forall i :: 0 <= i < |script| ==> script[i].expired
    ensures AfterAll(w, script, flag).1 == Running && Picked(w, script, flag) != [] ==>
              |w.log.taken| + |Picked(w, script, flag)| <= INITIAL_SAMPLES
    decreases |script|
  {
    if script != [] {
      hide AfterOne, AfterAll, Picked, Handed;
      var (next, result) := AfterOne(w, script[0], flag);
      FirstPass(w, script, flag);
      if result == Running {
        ExpiredOnce(w, script[0], flag);
        ExpiredTimeEnds(next, script[1..], flag);
      }
    }
  }

  /** How many samples pass before the distance is read again. */
  function UntilSensor(phase: nat): (n: nat)
    requires phase < PHASES
  {
    if phase <= 3 then 3 - phase else PHASES + 3 - phase
  }

  lemma AwayOnce(w: World, pass: Pass, flag: Flag)
    requires w.log.phase < PHASES && pass.distance != InRange && AfterOne(w, pass, flag).1 == Running
    ensures var next := AfterOne(w, pass, flag).0;
            && next.log.phase < PHASES
            && if Handed(w, pass, flag) == [] then next.log == w.log
               else
                 && (w.log.detection != InRange ==> next.log.detection != InRange && next.log.taken == [])
                 && (next.log.detection == InRange ==> UntilSensor(next.log.phase) + 1 == UntilSensor(w.log.phase))
    ensures |Handed(w, pass, flag)| <= if w.log.detection == DistanceError then 0 else 1
  {
    hide FedAll, Reduce, Complete, Heard;
  }

  /**
   When the speaker is away, every call that goes on holds nothing after at most eleven samples, or after the
   first one if that is known already. With an error of the sensor a call ends with its next sample.
   */
  lemma {:induction false} AwayHoldsNothing(w: World, script: seq<Pass>, flag: Flag)
    requires w.log.phase < PHASES && forall i :: 0 <= i < |script| ==> script[i].distance != InRange
    ensures var n := if w.log.detection == InRange then UntilSensor(w.log.phase) + 1 else 0;
            AfterAll(w, script, flag).1 == Running && |Picked(w, script, flag)| > n ==>
              AfterAll(w, script, flag).0.log.taken == []
    ensures AfterAll(w, script, flag).1 == Running && w.log.detection == DistanceError ==> Picked(w, script, flag) == []
    ensures AfterAll(w, script, flag).1 == Running && w.log.detection != InRange && w.log.taken == [] ==>
              AfterAll(w, script, flag).0.log.taken == []
    decreases |script|
  {
    if script != [] {
      hide AfterOne, AfterAll, Picked, Handed;
      var (next, result) := AfterOne(w, script[0], flag);
      FirstPass(w, script, flag);
      if result == Running {
        AwayOnce(w, script[0], flag);
        AwayHoldsNothing(next, script[1..], flag);
      }
    }
  }

  /** The listen button starts only a call that waits for the name, and cancels only another one. */
  lemma {:induction false} FlagDecides(w: World, script: seq<Pass>, flag: Flag)
    ensures AfterAll(w, script, flag).1 == Start ==> flag == WaitForName
    ensures AfterAll(w, script, flag).1 == Cancel ==> flag != WaitForName
    decreases |script|
  {
    hide FedAll, Reduce, Heard, Complete;
    if script != [] {
      FlagDecides(AfterOne(w, script[0], flag).0, script[1..], flag);
    }
  }

  class Recording {
    const mic: Mic
    const table: array<u16>
    var n: nat
    var margin: nat
    var initial: nat
    var phase: nat
    var detection: Detection
    var inRange: bool
    ghost var taken: seq<u16>   // the samples taken in range since the last restart
    ghost var heard: seq<u16>   // those that went to the table
    ghost var blanked: nat      // how many of them a connection loss has erased

    ghost predicate Separate()
      reads this, mic, mic.queue
    {
      mic.queue.fifo != table as object && table.Length >= RING
    }

    /** The table holds the last samples at their places. */
    ghost predicate Holds()
      reads this, table
      requires table.Length >= RING && n < RING
    {
      forall j :: 0 <= j < RING ==> table[j] == Memory(heard, blanked, Age(n, j))
    }

    ghost predicate Counts()
      reads this
    {
      && n < RING && phase < PHASES && initial <= INITIAL_SAMPLES && blanked <= |heard|
      && margin == |heard| - FirstLoud(heard)
      && initial == (if |taken| < INITIAL_SAMPLES then |taken| else INITIAL_SAMPLES)
      && heard == Heard(taken)
    }

    ghost function View(): (log: Log)
      reads this
    {
      Log(taken, blanked, phase, detection, inRange)
    }

    ghost function WorldView(): (w: World)
      requires mic.counter < TWO_32
      reads this, mic, mic.queue
    {
      World(View(), mic.queue.contents, mic.counter)
    }

    /** What every pass keeps. */
    ghost predicate Valid()
      reads this, mic, mic.queue, mic.queue.fifo, table
    {
      && Separate() && mic.Valid() && Counts() && margin < MARGIN && Holds()
      && (!inRange ==> forall j :: 0 <= j < RING ==> table[j] == 0)
    }

    /** The window of a complete recording. */
    ghost predicate IsRecording(window: seq<u16>)
      reads this
    {
      && |Heard(taken)| - FirstLoud(Heard(taken)) == MARGIN && blanked <= |Heard(taken)|
      && IsWindow(window, Heard(taken), blanked)
    }

    /** The zeroing loop over the table. */
    method Blank()
      modifies table
      ensures forall j :: 0 <= j < table.Length ==> table[j] == 0
    {
      for k := 0 to table.Length
        invariant forall j :: 0 <= j < k ==> table[j] == 0
      {
        table[k] := 0;
      }
    }

    /** The state in which a call of Recorder_record() starts. */
    constructor (mic: Mic, size: nat, inRange: bool)
      requires mic.Valid() && size >= RING
      ensures Valid() && this.mic == mic && fresh(table) && View() == Log([], 0, 0, InRange, inRange)
    {
      this.mic := mic;
      table := new u16[size];
      n, margin, initial, phase, detection := 0, 0, 0, 0, InRange;
      this.inRange := inRange;
      taken, heard, blanked := [], [], 0;
      new;
      Blank();
    }

    /** One sample to the table, and the count of samples from the first loud one on. */
    method Store(sound: u16)
      requires table.Length >= RING && Counts() && Holds() && margin < MARGIN && initial == INITIAL_SAMPLES
      modifies this`margin, this`heard, this`taken, table
      ensures Counts() && margin <= MARGIN && heard == old(heard) + [sound] && taken == old(taken) + [sound]
      ensures table[n] == sound && forall j :: 0 <= j < RING && j != n ==> table[j] == old(table[j])
    {
      hide FirstLoud, Memory, Age, Holds;
      table[n] := sound;
      if margin == 0 {
        if sound > DETECT_MIN && sound < 0xFFFF - DETECT_MIN {
          margin := 1;
        }
      } else {
        margin := margin + 1;
      }
      FirstLoudAppend(heard, sound);
      heard, taken := heard + [sound], taken + [sound];
    }

    /** The table after a stored sample, in terms of the slot that follows. */
    lemma Advanced(was: seq<u16>, sound: u16, next: nat)
      requires table.Length >= RING && n < RING && next == (if n + 1 == RING then 0 else n + 1)
      requires heard == was + [sound] && blanked <= |was| && table[n] == sound
      requires forall j :: 0 <= j < RING && j != n ==> table[j] == Memory(was, blanked, Age(n, j))
      ensures forall j :: 0 <= j < RING ==> table[j] == Memory(heard, blanked, Age(next, j))
    {
      forall j | 0 <= j < RING
        ensures table[j] == Memory(heard, blanked, Age(next, j))
      {
        if j != n {
          assert Age(next, j) == Age(n, j) + 1;
        }
      }
    }

    /** The recording in the order of time, as it is copied from the slot after the last one. */
    method Unroll(next: nat) returns (window: seq<u16>)
      requires table.Length >= RING && next < RING
      requires forall j :: 0 <= j < RING ==> table[j] == Memory(heard, blanked, Age(next, j))
      ensures IsWindow(window, heard, blanked)
    {
      window := table[next..RING] + table[..next];
      forall k | 0 <= k < RING
        ensures window[k] == Memory(heard, blanked, RING - k)
      {
        var j := if k < RING - next then next + k else k - (RING - next);
        assert window[k] == table[j] && Age(next, j) == RING - k;
      }
    }

    /** A sample in range: the first ones are dropped, the others stored until the margin is full. */
    method Take(sound: u16, expired: bool) returns (result: Result, window: seq<u16>)
      requires Valid() && detection == InRange
      modifies this`n, this`margin, this`initial, this`inRange, this`taken, this`heard, table
      ensures result == Running ==> Valid()
      ensures heard == Heard(taken) && (View(), result) == AfterSample(old(View()), sound, expired)
      ensures result == Fragment ==> IsRecording(window)
    {
      hide FirstLoud, Memory, Age, IsWindow;
      inRange, window := true, [];
      if initial < INITIAL_SAMPLES {
        initial, taken := initial + 1, taken + [sound];
        return Running, window;
      }
      ghost var was := heard;
      Store(sound);
      var next := if n + 1 == RING then 0 else n + 1;
      Advanced(was, sound, next);
      if margin >= MARGIN {
        window := Unroll(next);
        return Fragment, window;
      }
      if expired {
        return Timeout, window;
      }
      n := next;
      result := Running;
    }

    /** A sample out of range: the recording starts again. */
    method LeaveRange(expired: bool) returns (result: Result)
      requires Valid() && detection != InRange
      modifies this`n, this`margin, this`initial, this`inRange, this`taken, this`heard, this`blanked, table
      ensures result == Running ==> Valid()
      ensures heard == Heard(taken) && (View(), result) == AfterSample(old(View()), 0, expired)
      ensures forall j :: 0 <= j < RING ==> table[j] == 0
    {
      hide FirstLoud, Age, Memory;
      if inRange {
        Blank();
        n, margin, initial := 0, 0, 0;
      }
      inRange := false;
      taken, heard, blanked := [], [], 0;
      if detection == DistanceError {
        return RecordError;
      }
      n, margin, initial := 0, 0, 0;
      Silence();
      result := if expired then Timeout else Running;
    }

    /** The peripheral whose turn it is, and the turn of the next one. */
    method Poll(pass: Pass, flag: Flag) returns (result: Result)
      requires Valid()
      modifies this`phase, this`detection, this`blanked, table
      ensures result == Running ==> Valid()
      ensures (View(), result) == AfterPoll(old(View()), pass, flag)
    {
      hide FirstLoud, Age;
      match phase {
      case 0 =>
        if pass.connection == Reset {
          return ResetAll;
        }
        if pass.connection == Restored {
          Blank();
          blanked := |heard|;
        }
      case 2 =>
        if pass.button == Listen {
          return if flag == WaitForName then Start else Cancel;
        }
        if pass.button == ResetButton {
          return ResetAll;
        }
        if pass.button == Volume {
          return VolumeChange;
        }
      case 3 =>
        detection := pass.distance;
      case _ =>
      }
      phase := phase + 1;
      if phase == PHASES {
        phase := 0;
      }
      result := Running;
    }

    /** The rest of a pass that has a sample. */
    method TakeSample(sound: u16, pass: Pass, flag: Flag) returns (result: Result, window: seq<u16>)
      requires Valid()
      modifies this, table
      ensures result == Running ==> Valid()
      ensures (View(), result) == AfterPass(old(View()), sound, pass, flag)
      ensures result == Fragment ==> IsRecording(window)
    {
      hide Valid, IsRecording, AfterPoll, Heard, Complete;
      window := [];
      if detection == InRange {
        result, window := Take(sound, pass.expired);
      } else {
        result := LeaveRange(pass.expired);
      }
      if result == Running {
        result := Poll(pass, flag);
      }
    }

    /** One pass of the loop. */
    method Step(pass: Pass, flag: Flag) returns (result: Result, window: seq<u16>)
      requires Valid()
      modifies this, mic, mic.queue, mic.queue.fifo, table
      ensures result == Running ==> Valid()
      ensures mic.counter < TWO_32 && (WorldView(), result) == AfterOne(old(WorldView()), pass, flag)
      ensures result == Fragment ==> IsRecording(window)
    {
      hide Valid, IsRecording, FedAll, Reduce, AfterPass;
      CounterFits();
      Interrupt(pass.runs);
      CounterFits();
      var status, sound := Sample();
      CounterFits();
      if status == Full {
        assert false;
      }
      if status == Empty {
        return Running, [];
      }
      if status == MicError {
        return RecordError, [];
      }
      result, window := TakeSample(sound, pass, flag);
    }

    /** The interrupt routine changes nothing that the recording reads. */
    method Interrupt(runs: seq<seq<Arrival>>)
      requires Valid()
      modifies mic`flag, mic.queue`writePtr, mic.queue`size, mic.queue`contents, mic.queue.fifo
      ensures Valid() && mic.queue.contents == FedAll(old(mic.queue.contents), runs)
    {
      hide Counts, Memory, Age;
      mic.Irqs(runs);
    }

    method Sample() returns (status: SampleStatus, sound: u16)
      requires Valid()
      modifies mic, mic.queue`readPtr, mic.queue`size, mic.queue`contents
      ensures Valid() && status != Full
      ensures old(mic.queue.contents) == [] ==>
                status == Empty && mic.queue.contents == [] && mic.counter == old(mic.counter)
      ensures old(mic.queue.contents) != [] ==>
                && mic.queue.contents == old(mic.queue.contents)[1..] && sound == Reduce(old(mic.queue.contents)[0])
                && mic.counter == (if sound == ERROR_SOUND then (old(mic.counter) + 1) % TWO_32 else 0)
                && status == if sound == ERROR_SOUND && mic.counter >= MAX_BAD_SOUNDS then MicError else Ready
    {
      hide Counts, Memory, Age, Reduce;
      status, sound := mic.GetSample(0);
    }

    /** What a fragment says of the samples of its call, which started with `before`. */
    lemma FragmentOfCall(before: World, script: seq<Pass>, flag: Flag, window: seq<u16>)
      requires IsRecording(window) && AfterAll(before, script, flag).0.log == View()
      requires before.log.taken == [] && before.log.blanked == 0 && NeverRestored(script)
      ensures IsSuffix(taken, Picked(before, script, flag)) && IsCapture(window, Heard(taken))
    {
      hide AfterAll, Picked, NeverRestored, Heard, FirstLoud, IsWindow, IsSuffix, IsCapture;
      WindowOfCall(before, script, flag, window);
    }

    /**
     Recorder_record() over any script of passes, to its result or the end of the script: the result and
     all that is left are those of the script, and a fragment is the window of what the script recorded.
     From the state in which a call starts, if the connection does not drop out and come back, a fragment
     holds the last samples that were handed over, with the first loud one in the middle. A call ends with a
     fragment exactly if the margin is full, and every other result has its cause in a pass of the script.
     */
    method Record(script: seq<Pass>, flag: Flag) returns (result: Result, window: seq<u16>)
      requires Valid()
      modifies this, mic, mic.queue, mic.queue.fifo, table
      ensures result == Running ==> Valid()
      ensures mic.counter < TWO_32 && (WorldView(), result) == AfterAll(old(WorldView()), script, flag)
      ensures result == Fragment ==> IsRecording(window)
      ensures result == Fragment && old(taken) == [] && old(blanked) == 0 && NeverRestored(script) ==>
                IsSuffix(taken, Picked(old(WorldView()), script, flag)) && IsCapture(window, Heard(taken))
      ensures result == Fragment <==> Complete(Heard(taken))
      ensures result != Running ==> exists i :: 0 <= i < |script| && EndsBy(result, script[i], WorldView())
    {
      hide Valid, IsRecording, AfterOne, Picked, NeverRestored, IsSuffix, IsCapture, Heard,
        Complete, EndsBy;
      result, window := Running, [];
      CounterFits();
      NotYetComplete();
      ResultsHaveCauses(old(WorldView()), script, flag);
      for i := 0 to |script|
        invariant Valid() && result == Running && mic.counter < TWO_32
        invariant AfterAll(old(WorldView()), script, flag) == AfterAll(WorldView(), script[i..], flag)
      {
        assert script[i..][0] == script[i] && script[i..][1..] == script[i + 1..];
        result, window := Step(script[i], flag);
        if result != Running {
          if result == Fragment && old(taken) == [] && old(blanked) == 0 && NeverRestored(script) {
            FragmentOfCall(old(WorldView()), script, flag, window);
          }
          return;
        }
      }
    }

    lemma NotYetComplete()
      requires Valid()
      ensures !Complete(Heard(taken))
    {
    }

    lemma CounterFits()
      requires Valid()
      ensures mic.counter < TWO_32
    {
    }
  }
}
