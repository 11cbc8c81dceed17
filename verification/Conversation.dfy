/** What a conversation is: the outcomes heard since it began, and the word that silence sends. */
module Talks {
  import opened Bytes
  import opened Wrappers

  type Text = seq<byte>

  /** What one call of get_word() comes to; after silence the radio takes a message or refuses it. */
  datatype Event =
    | Heard(word: Text)
    | Unrecognised
    | NoFragment(radio: bool)
    | Directly
    | CancelCommand
    | ChangeVolume
    | Other

  /** Idle until the name is heard; then the outcomes so far, None for an unrecognised word. */
  datatype Talk = Idle | Session(outcomes: seq<Option<Text>>)

  const MAX_OUTCOMES: nat := 5

  function Name(): (r: Text)
    ensures |r| == 6 && forall i :: 0 <= i < |r| ==> r[i] != 0
  {
    ['s' as int, 'h' as int, 'e' as int, 'i' as int, 'l' as int, 'a' as int]
  }

  predicate IsOutcome(e: Event) {
    e.Heard? || e.Unrecognised?
  }

  function OutcomeOf(e: Event): (o: Option<Text>)
    requires IsOutcome(e)
  {
    if e.Heard? then Some(e.word) else None
  }

  function Last(outcomes: seq<Option<Text>>): (o: Option<Text>) {
    if outcomes == [] then None else outcomes[|outcomes| - 1]
  }

  /** The last outcome is a word that only repeats, or abbreviates, the word just before it. */
  predicate Repeated(outcomes: seq<Option<Text>>) {
    && |outcomes| >= 2
    && Last(outcomes).Some?
    && outcomes[|outcomes| - 2].Some?
    && Last(outcomes).value <= outcomes[|outcomes| - 2].value
  }

  /** The word that silence would send; an empty one is none. */
  function Pending(t: Talk): (w: Option<Text>) {
    if t.Idle? || Repeated(t.outcomes) || Last(t.outcomes) == Some([]) then None else Last(t.outcomes)
  }

  function Next(t: Talk, e: Event): (r: Talk) {
    match e
    case Directly => Session([])
    case CancelCommand => Idle
    case NoFragment(_) => Idle
    case ChangeVolume => t
    case Other => t
    case _ =>
      if t.Idle? then
        if e.Heard? && Name() <= e.word then Session([]) else Idle
      else
        var outcomes := t.outcomes + [OutcomeOf(e)];
        if |outcomes| >= MAX_OUTCOMES then Idle else Session(outcomes)
  }

  /** The state after a run. */
  function After(events: seq<Event>): (t: Talk)
    ensures t.Session? ==> |t.outcomes| < MAX_OUTCOMES
  {
    if events == [] then Idle else Next(After(events[..|events| - 1]), events[|events| - 1])
  }

  /** The words that a run sends, in order: those that were pending when the radio took a message. */
  function Sent(events: seq<Event>): (words: seq<Text>) {
    if events == [] then []
    else
      var init, last := events[..|events| - 1], events[|events| - 1];
      var w := Pending(After(init));
      if last.NoFragment? && last.radio && w.Some? then Sent(init) + [w.value] else Sent(init)
  }

  /** How many sessions of a run ended in silence. */
  function Silences(events: seq<Event>): (n: nat) {
    if events == [] then 0
    else
      var init := events[..|events| - 1];
      Silences(init) + if events[|events| - 1].NoFragment? && After(init).Session? then 1 else 0
  }

  lemma RunAppend(events: seq<Event>, e: Event)
    ensures After(events + [e]) == Next(After(events), e)
    ensures Silences(events + [e]) == Silences(events) + if e.NoFragment? && After(events).Session? then 1 else 0
    ensures Sent(events + [e])
            == if e.NoFragment? && e.radio && Pending(After(events)).Some? then Sent(events) + [Pending(After(events)).value]
               else Sent(events)
  {
    assert (events + [e])[..|events|] == events;
  }

  // ---- What begins a session and what ends it ----

  /** The button begins a session at any time, a word that starts with the name only when the system is idle. */
  predicate Begins(e: Event, idle: bool) {
    e.Directly? || (idle && e.Heard? && Name() <= e.word)
  }

  predicate Stops(e: Event) {
    e.NoFragment? || e.CancelCommand?
  }

  /** Event `k` began a session; nothing has stopped it since, and fewer than five outcomes followed. */
  predicate LastsSince(events: seq<Event>, k: nat) {
    && k < |events| && Begins(events[k], After(events[..k]).Idle?)
    && (forall i :: k < i < |events| ==> !Stops(events[i])) && Outcomes(events[k + 1..]) < MAX_OUTCOMES
  }

  /**
   One event, in any run: an idle system leaves idleness exactly by the button or the name, and a session ends
   exactly by silence, by a cancel, or by its fifth outcome.
   */
  lemma EventDecides(events: seq<Event>, e: Event)
    ensures After(events).Idle? ==> (After(events + [e]).Session? <==> Begins(e, true))
    ensures After(events).Session? ==>
              (After(events + [e]).Idle? <==>
               Stops(e) || (IsOutcome(e) && |After(events).outcomes| == MAX_OUTCOMES - 1))
    ensures Begins(e, After(events).Idle?) ==> After(events + [e]) == Session([])
    ensures e.ChangeVolume? || e.Other? ==> After(events + [e]) == After(events)
    ensures IsOutcome(e) && After(events).Session? && After(events + [e]).Session? ==>
              After(events + [e]).outcomes == After(events).outcomes + [OutcomeOf(e)]
  {
    RunAppend(events, e);
  }

  lemma OutcomesAppend(events: seq<Event>, e: Event)
    ensures Outcomes(events + [e]) == Outcomes(events) + (if IsOutcome(e) then 1 else 0) && Outcomes([]) == 0
  {
    assert (events + [e])[..|events|] == events;
  }

  /** A session that has lasted is on, with at most the outcomes of the run since. */
  lemma {:induction false} StillOn(events: seq<Event>, k: nat)
    requires LastsSince(events, k)
    ensures After(events).Session? && |After(events).outcomes| <= Outcomes(events[k + 1..])
    decreases |events|
  {
    hide After, Next, Outcomes;
    var n := |events| - 1;
    var init, last := events[..n], events[n];
    assert events == init + [last];
    if k == n {
      EventDecides(init, last);
    } else {
      assert init[..k] == events[..k] && events[k + 1..] == init[k + 1..] + [last];
      OutcomesAppend(init[k + 1..], last);
      StillOn(init, k);
      EventDecides(init, last);
      RunAppend(init, last);
      SessionGrows(After(init), last);
    }
  }

  lemma SessionGrows(t: Talk, e: Event)
    requires t.Session? && Next(t, e).Session?
    ensures |Next(t, e).outcomes| <= |t.outcomes| + if IsOutcome(e) then 1 else 0
    ensures !e.Directly? ==> |Next(t, e).outcomes| == |t.outcomes| + if IsOutcome(e) then 1 else 0
  {
  }

  /** A session that is on began somewhere, and its outcomes are those of the run since. */
  lemma {:induction false} BeganAt(events: seq<Event>) returns (k: nat)
    requires After(events).Session?
    ensures LastsSince(events, k) && Outcomes(events[k + 1..]) == |After(events).outcomes|
    decreases |events|
  {
    hide After, Next, Outcomes;
    AfterStep(events);
    var n := |events| - 1;
    var init, last := events[..n], events[n];
    assert events == init + [last];
    EventDecides(init, last);
    if Begins(last, After(init).Idle?) {
      k := n;
      OutcomesAppend([], last);
      assert events[k + 1..] == [];
    } else {
      k := BeganAt(init);
      assert init[..k] == events[..k] && events[k + 1..] == init[k + 1..] + [last];
      OutcomesAppend(init[k + 1..], last);
      RunAppend(init, last);
      SessionGrows(After(init), last);
    }
  }

  /** Over every run: a session is on exactly if one began, with no silence, cancel or fifth outcome since. */
  lemma SessionIff(events: seq<Event>)
    ensures After(events).Session? <==> exists k: nat :: LastsSince(events, k)
  {
    hide After, LastsSince;
    if After(events).Session? {
      var k := BeganAt(events);
    }
    forall k: nat | LastsSince(events, k)
      ensures After(events).Session?
    {
      StillOn(events, k);
    }
  }

  /** Outcomes left until the session ends by itself. */
  function Measure(t: Talk): (n: nat)
    requires t.Session? ==> |t.outcomes| < MAX_OUTCOMES
  {
    if t.Idle? then 0 else MAX_OUTCOMES - |t.outcomes|
  }

  /** Every outcome in a session brings its end closer; only the start of a session moves it away. */
  lemma MeasureDecreases(events: seq<Event>, e: Event)
    ensures After(events).Session? && IsOutcome(e) ==> Measure(Next(After(events), e)) < Measure(After(events))
    ensures !IsOutcome(e) && !e.Directly? ==> Measure(Next(After(events), e)) <= Measure(After(events))
  {
  }

  /** How many outcomes a run has. */
  function Outcomes(events: seq<Event>): (n: nat) {
    if events == [] then 0
    else Outcomes(events[..|events| - 1]) + if IsOutcome(events[|events| - 1]) then 1 else 0
  }

  /** The listen button starts a session only when the system is idle; otherwise it cancels. */
  predicate ButtonStartsIdle(before: seq<Event>, more: seq<Event>) {
    forall k :: 0 <= k < |more| && more[k].Directly? ==> After(before + more[..k]).Idle?
  }

  /** The system is in a session after every part of `more`, up to its first `n` events. */
  predicate StaysOn(before: seq<Event>, more: seq<Event>, n: nat)
    requires n <= |more|
  {
    forall k :: 0 <= k <= n ==> After(before + more[..k]).Session?
  }

  /** From the start of a session, five outcomes at most until the system is idle again. */
  lemma {:induction false} SessionEnds(before: seq<Event>, more: seq<Event>)
    requires After(before) == Session([]) && ButtonStartsIdle(before, more) && Outcomes(more) >= MAX_OUTCOMES
    ensures exists k :: 0 <= k <= |more| && After(before + more[..k]).Idle? && Outcomes(more[..k]) <= MAX_OUTCOMES
  {
    hide After, Outcomes;
    assert before + more[..0] == before;
    if StaysOn(before, more, |more|) {
      StaysShort(before, more);
    } else {
      FirstIdle(before, more, 1);
    }
  }

  lemma {:induction false} StaysShort(before: seq<Event>, more: seq<Event>)
    requires After(before) == Session([]) && ButtonStartsIdle(before, more) && StaysOn(before, more, |more|)
    ensures Outcomes(more) < MAX_OUTCOMES
  {
    hide After, Outcomes;
    OutcomesCount(before, more, |more|);
    assert more[..|more|] == more;
  }

  /** As long as a session lasts, its outcomes are those of the run. */
  lemma {:induction false} OutcomesCount(before: seq<Event>, more: seq<Event>, k: nat)
    requires After(before) == Session([]) && ButtonStartsIdle(before, more) && k <= |more| && StaysOn(before, more, k)
    ensures After(before + more[..k]).Session? && |After(before + more[..k]).outcomes| == Outcomes(more[..k])
  {
    if k == 0 {
      assert before + more[..0] == before;
    } else {
      OutcomesCount(before, more, k - 1);
      OneMore(before, more, k);
    }
  }

  lemma OneMore(before: seq<Event>, more: seq<Event>, k: nat)
    requires 0 < k <= |more|
    ensures After(before + more[..k]) == Next(After(before + more[..k - 1]), more[k - 1])
    ensures Outcomes(more[..k]) == Outcomes(more[..k - 1]) + if IsOutcome(more[k - 1]) then 1 else 0
  {
    hide Next;
    var run := before + more[..k];
    assert run[..|run| - 1] == before + more[..k - 1];
    assert more[..k][..k - 1] == more[..k - 1];
  }

  /** The first idle moment comes at the latest with the fifth outcome. */
  lemma {:induction false} FirstIdle(before: seq<Event>, more: seq<Event>, k: nat)
    requires After(before) == Session([]) && ButtonStartsIdle(before, more) && 0 < k <= |more| + 1
    requires StaysOn(before, more, k - 1) && !StaysOn(before, more, |more|)
    ensures exists i :: 0 <= i <= |more| && After(before + more[..i]).Idle? && Outcomes(more[..i]) <= MAX_OUTCOMES
    decreases |more| - k + 1
  {
    hide After, Outcomes;
    if k <= |more| {
      if After(before + more[..k]).Idle? {
        OutcomesCount(before, more, k - 1);
        OneMore(before, more, k);
      } else {
        FirstIdle(before, more, k + 1);
      }
    }
  }

  // ---- What a sent word was ----

  /** From event `i` to event `j` there is no outcome, and the state stays what it was. */
  predicate Quiet(events: seq<Event>, i: nat, j: nat) {
    && i <= j <= |events|
    && (forall k :: i <= k < j ==> !IsOutcome(events[k]))
    && forall k :: i <= k <= j ==> After(events[..k]) == After(events[..i])
  }

  lemma AfterStep(events: seq<Event>)
    ensures After([]) == Idle
    ensures events != [] ==> After(events) == Next(After(events[..|events| - 1]), events[|events| - 1])
  {
  }

  lemma StepBack(t: Talk, e: Event)
    requires Next(t, e).Session? && Next(t, e).outcomes != []
    ensures if IsOutcome(e) then t.Session? && Next(t, e) == Session(t.outcomes + [OutcomeOf(e)]) else Next(t, e) == t
  {
  }

  /** Where the last outcome of a session was heard. */
  lemma {:induction false} LastOutcomeAt(events: seq<Event>) returns (j: nat)
    requires After(events).Session? && After(events).outcomes != []
    ensures j < |events| && IsOutcome(events[j]) && OutcomeOf(events[j]) == Last(After(events).outcomes)
    ensures After(events[..j]) == Session(After(events).outcomes[..|After(events).outcomes| - 1])
    ensures Quiet(events, j + 1, |events|) && After(events[..j + 1]) == After(events)
  {
    hide After, Next;
    var n := |events|;
    AfterStep(events);
    assert events[..n] == events;
    var init, last := events[..n - 1], events[n - 1];
    StepBack(After(init), last);
    if IsOutcome(last) {
      j := n - 1;
      var outcomes := After(events).outcomes;
      assert outcomes[..|outcomes| - 1] == After(init).outcomes;
    } else {
      j := LastOutcomeAt(init);
      assert init[..j] == events[..j] && init[..j + 1] == events[..j + 1];
      QuietLonger(events, init, j + 1);
    }
  }

  lemma QuietCut(events: seq<Event>, init: seq<Event>, i: nat, j: nat)
    requires init <= events && Quiet(init, i, j)
    ensures Quiet(events, i, j)
  {
    hide After;
    forall k | 0 <= k <= j
      ensures events[..k] == init[..k]
    {
    }
    assert forall k :: i <= k <= j ==> After(events[..k]) == After(init[..k]);
  }

  lemma QuietLonger(events: seq<Event>, init: seq<Event>, i: nat)
    requires init <= events && |events| == |init| + 1 && Quiet(init, i, |init|) && !IsOutcome(events[|init|])
    requires After(events) == After(events[..i])
    ensures Quiet(events, i, |events|)
  {
    hide After;
    QuietCut(events, init, i, |init|);
    assert events[..|events|] == events;
  }

  /** Event `j` is the last outcome of a session, and it is the word `w`. */
  predicate LastHeard(events: seq<Event>, j: nat, w: Text) {
    j < |events| && events[j] == Heard(w) && After(events[..j]).Session? && Quiet(events, j + 1, |events|)
  }

  /**
   Over every run, silence sends a word exactly if it is not empty, the session's last outcome was this
   word, and the outcome before it in the session was not a word that it is a prefix of.
   */
  lemma {:induction false} SentWordIff(events: seq<Event>, w: Text)
    ensures Pending(After(events)) == Some(w) <==>
            && w != [] && After(events).Session?
            && exists j: nat :: LastHeard(events, j, w) && forall i: nat, v :: LastHeard(events[..j], i, v) ==> !(w <= v)
  {
    hide Next, After, Quiet;
    if Pending(After(events)) == Some(w) {
      var j := LastOutcomeAt(events);
      forall i: nat, v | LastHeard(events[..j], i, v)
        ensures !(w <= v)
      {
        HeardIsLast(events[..j], i, v);
      }
      assert LastHeard(events, j, w);
    }
    if w != [] && After(events).Session? {
      forall j: nat | LastHeard(events, j, w) && forall i: nat, v :: LastHeard(events[..j], i, v) ==> !(w <= v)
        ensures Pending(After(events)) == Some(w)
      {
        NotRepeated(events, j, w);
      }
    }
  }

  /** The last word heard is the last outcome. */
  lemma HeardIsLast(events: seq<Event>, j: nat, w: Text)
    requires LastHeard(events, j, w) && After(events).Session?
    ensures After(events) == Session(After(events[..j]).outcomes + [Some(w)])
    ensures Last(After(events).outcomes) == Some(w)
  {
    hide After;
    assert events[..|events|] == events;
    assert After(events[..|events|]) == After(events[..j + 1]);
    AfterStep(events[..j + 1]);
    assert events[..j + 1][..j] == events[..j];
  }

  lemma NotRepeated(events: seq<Event>, j: nat, w: Text)
    requires LastHeard(events, j, w) && After(events).Session? && w != []
    requires forall i: nat, v :: LastHeard(events[..j], i, v) ==> !(w <= v)
    ensures Pending(After(events)) == Some(w)
  {
    hide Next, After, Quiet;
    HeardIsLast(events, j, w);
    var before := After(events[..j]).outcomes;
    if before != [] && Last(before).Some? {
      var i := LastOutcomeAt(events[..j]);
      assert LastHeard(events[..j], i, Last(before).value);
    }
  }
}
