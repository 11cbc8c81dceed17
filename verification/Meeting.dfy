/** The event loop of the application, proved against what a conversation is. */
module Meeting {
  import opened Bytes
  import opened Wrappers
  import opened CStrings
  import opened Pages
  import opened FieldReader
  import opened Talks
  import Microphone
  import Recorder

  datatype State = AtName | AtCommand | AtRetry

  const MAX_RETRIES: nat := 3
  const WORD: nat := 16
  const CR: byte := 13
  const LF: byte := 10

  /**
   What a label can be: at most fifteen characters, none of them a 0 or a line feed.
   */
  predicate IsSpoken(w: Text) {
    |w| <= 15 && forall i :: 0 <= i < |w| ==> w[i] != 0 && w[i] != LF
  }

  predicate IsZero(s: seq<byte>) {
    forall i :: 0 <= i < |s| ==> s[i] == 0
  }

  /** str_clr() of the first `size` bytes. */
  method Clear(s: array<byte>, size: nat)
    requires size <= s.Length
    modifies s
    ensures IsZero(s[..size]) && s[size..] == old(s[size..])
  {
    for n := 0 to size
      invariant (forall i :: 0 <= i < n ==> s[i] == 0) && s[size..] == old(s[size..])
    {
      s[n] := 0;
    }
  }

  /** is_empty_str() of the first `size` bytes. */
  method IsEmpty(s: array<byte>, size: nat) returns (r: bool)
    requires size <= s.Length
    ensures r <==> IsZero(s[..size])
  {
    for n := 0 to size
      invariant forall i :: 0 <= i < n ==> s[i] == 0
    {
      if s[n] != 0 {
        assert s[..size][n] != 0;
        return false;
      }
    }
    r := true;
  }

  /** str_cpy() of a string that ends in the source buffer. */
  method CopyString(from: array<byte>, to: array<byte>, ghost w: Text)
    requires from.Length == WORD <= to.Length && from != to && Holds(from[..], 0, w)
    modifies to
    ensures Holds(to[..], 0, w) && forall i :: |w| < i < to.Length ==> to[i] == old(to[i])
  {
    for n := 0 to WORD
      invariant n <= |w| && (forall i :: 0 <= i < n ==> to[i] == w[i])
      invariant forall i :: n <= i < to.Length ==> to[i] == old(to[i])
    {
      assert n < |w| ==> from[..][0 + n] == w[n] != 0;
      if from[n] == 0 {
        to[n] := 0;
        return;
      }
      to[n] := from[n];
    }
  }

  /** compare() of a word with a buffer. */
  method StartsLike(word: array<byte>, buffer: array<byte>, ghost w: Text) returns (r: bool)
    requires word.Length == WORD <= buffer.Length && Holds(word[..], 0, w)
    ensures r <==> w <= buffer[..]
  {
    HeldIsCString(word[..], w);
    r := Compare(word[..], buffer[..], WORD);
  }

  lemma HeldIsCString(memory: seq<byte>, w: Text)
    requires |memory| == WORD && Holds(memory, 0, w)
    ensures CString(memory, WORD) == w
  {
    assert forall i :: 0 <= i < |w| ==> memory[0 + i] == w[i];
    CStringIs(memory, WORD, w);
  }

  /** compare() of the name with a word. */
  method IsName(word: array<byte>, ghost w: Text) returns (r: bool)
    requires word.Length == WORD && Holds(word[..], 0, w)
    ensures r <==> Name() <= w
  {
    var name := Name() + [0];
    CStringIs(name, WORD, Name());
    r := Compare(name, word[..], WORD);
    PrefixOfHeld(Name(), word[..], w);
  }

  /**
   BLE_send_data(): all up to a line feed or a 0, unless the radio is disconnected or still writing, when
   the message is lost.
   */
  method Message(data: array<byte>, radio: bool, ghost w: Text) returns (sent: bool, message: Text)
    requires data.Length == WORD + 1 && IsSpoken(w)
    requires (forall i :: 0 <= i < |w| ==> data[i] == w[i]) && data[|w|] == CR && data[|w| + 1] == LF
    ensures sent == radio && (sent ==> message == w + [CR, LF])
  {
    message := [];
    if !radio {
      return false, message;
    }
    var n := 0;
    while n < 20
      invariant n <= |w| + 1 && message == (w + [CR, LF])[..n]
    {
      if data[n] == 0 {
        break;
      }
      message := message + [data[n]];
      if data[n] == LF {
        break;
      }
      n := n + 1;
    }
    sent := true;
  }

  /** Silence writes behind the buffer exactly if the pending word has fifteen characters. */
  predicate Overruns(t: Talk) {
    Pending(t).Some? && |Pending(t).value| == 15
  }

  /** Words of at most fourteen characters never do that, in any run. */
  lemma {:induction false} ShortWordsStay(events: seq<Event>)
    requires forall k :: 0 <= k < |events| && events[k].Heard? ==> |events[k].word| <= 14
    ensures !Overruns(After(events))
  {
    if Pending(After(events)).Some? {
      var j := LastOutcomeAt(events);
      assert |events[j].word| <= 14;
    }
  }

  /** A word of fifteen characters does as soon as silence follows it in a new session. */
  lemma LongWordOverruns(before: seq<Event>, w: Text)
    requires After(before) == Session([])
    ensures Overruns(After(before + [Heard(w)])) <==> |w| == 15
  {
    RunAppend(before, Heard(w));
    assert After(before + [Heard(w)]) == Session([] + [Some(w)]);
  }

  // ---- Where the events come from ----

  /**
   One call of get_word(): the recorder's world and the passes it goes through, what the analysis of a
   recorded fragment comes to, and whether the radio takes a message after it.
   */
  datatype Call = Call(world: Recorder.World, script: seq<Recorder.Pass>, analysis: Event, radio: bool)

  /** What the analysis of a fragment can come to: a word, none, or noise. */
  predicate IsAnalysis(e: Event) {
    e.Heard? || e.Unrecognised? || e.Other?
  }

  /** get_word(), from the result of the recorder; None if the loop ends with it or the call has not returned. */
  function GetWord(c: Call, flag: Recorder.Flag): (e: Option<Event>) {
    match Recorder.AfterAll(c.world, c.script, flag).1
    case VolumeChange => Some(ChangeVolume)
    case Start => Some(Directly)
    case Cancel => Some(CancelCommand)
    case Timeout => Some(NoFragment(c.radio))
    case Fragment => Some(c.analysis)
    case _ => None
  }

  /** The flag that the loop passes to the recorder. */
  function FlagOf(t: Talk): (flag: Recorder.Flag) {
    if t.Idle? then Recorder.WaitForName else Recorder.WaitForCommand
  }

  /** The events of a run of calls, each made with the flag of the conversation so far. */
  function EventsOf(calls: seq<Call>): (events: seq<Event>) {
    if calls == [] then []
    else
      var init := EventsOf(calls[..|calls| - 1]);
      match GetWord(calls[|calls| - 1], FlagOf(After(init)))
      case None => init
      case Some(e) => init + [e]
  }

  predicate AreCalls(calls: seq<Call>) {
    forall k :: 0 <= k < |calls| ==> IsAnalysis(calls[k].analysis)
  }

  lemma DirectlyMeansIdle(c: Call, t: Talk)
    requires IsAnalysis(c.analysis) && GetWord(c, FlagOf(t)) == Some(Directly)
    ensures t.Idle?
  {
    hide Recorder.AfterAll;
    Recorder.FlagDecides(c.world, c.script, FlagOf(t));
  }

  /** In every run of calls the listen button starts a session only when the system is idle. */
  lemma {:induction false} ButtonIsSafe(calls: seq<Call>, k: nat)
    requires AreCalls(calls) && k < |EventsOf(calls)| && EventsOf(calls)[k].Directly?
    ensures After(EventsOf(calls)[..k]).Idle?
  {
    hide GetWord, After;
    var init := calls[..|calls| - 1];
    var events, last := EventsOf(init), calls[|calls| - 1];
    if k < |events| {
      ButtonIsSafe(init, k);
      assert EventsOf(calls)[..k] == events[..k];
    } else {
      DirectlyMeansIdle(last, After(events));
      assert EventsOf(calls)[..k] == events;
    }
  }

  /**
   Every run of calls: once a session has begun, at most five outcomes pass before the system is idle
   again. Nothing is assumed about the button.
   */
  lemma {:induction false} EverySessionEnds(calls: seq<Call>, n: nat)
    requires AreCalls(calls) && n <= |EventsOf(calls)|
    requires After(EventsOf(calls)[..n]) == Session([]) && Outcomes(EventsOf(calls)[n..]) >= MAX_OUTCOMES
    ensures exists k :: n <= k <= |EventsOf(calls)| && After(EventsOf(calls)[..k]).Idle?
                        && Outcomes(EventsOf(calls)[n..k]) <= MAX_OUTCOMES
  {
    hide EventsOf, After, Outcomes;
    var events := EventsOf(calls);
    var before, more := events[..n], events[n..];
    forall k | 0 <= k < |more| && more[k].Directly?
      ensures After(before + more[..k]).Idle?
    {
      ButtonIsSafe(calls, n + k);
      assert before + more[..k] == events[..n + k];
    }
    SessionEnds(before, more);
    var k :| 0 <= k <= |more| && After(before + more[..k]).Idle? && Outcomes(more[..k]) <= MAX_OUTCOMES;
    assert before + more[..k] == events[..n + k] && more[..k] == events[n..n + k];
  }

  /**
   What a call comes to: the analysis exactly if the recording has filled its margin, and silence only if the
   time was up in some pass; the volume and the cancel are buttons.
   */
  lemma CallDecides(c: Call, flag: Recorder.Flag)
    requires IsAnalysis(c.analysis) && !Recorder.Complete(Recorder.Heard(c.world.log.taken))
    ensures var end := Recorder.AfterAll(c.world, c.script, flag).0;
            && (GetWord(c, flag) == Some(c.analysis) <==> Recorder.Complete(Recorder.Heard(end.log.taken)))
            && (GetWord(c, flag) == Some(NoFragment(c.radio)) ==>
                  exists i :: 0 <= i < |c.script| && c.script[i].expired)
            && (GetWord(c, flag) in {Some(CancelCommand), Some(Directly)} ==>
                  exists i :: 0 <= i < |c.script| && c.script[i].button == Recorder.Listen)
            && (GetWord(c, flag) == Some(ChangeVolume) ==>
                  exists i :: 0 <= i < |c.script| && c.script[i].button == Recorder.Volume)
  {
    hide Recorder.AfterAll, Recorder.Complete, Recorder.Heard;
    Recorder.ResultsHaveCauses(c.world, c.script, flag);
    var end, result := Recorder.AfterAll(c.world, c.script, flag).0, Recorder.AfterAll(c.world, c.script, flag).1;
    if result != Recorder.Running {
      var i :| 0 <= i < |c.script| && Recorder.EndsBy(result, c.script[i], end);
    }
  }

  /** A pass in which the time is up and nothing else happens. */
  predicate OnlyTime(pass: Recorder.Pass) {
    && pass.expired && pass.button == Recorder.NotPressed
    && pass.connection == Recorder.Up && pass.distance == Recorder.InRange
  }

  /**
   When the time is up and nothing else happens, a call comes to silence or to a fragment with the first sample
   after those that are dropped, unless the microphone is broken.
   */
  lemma TimeUpIsSilence(c: Call, flag: Recorder.Flag)
    requires !Recorder.Complete(Recorder.Heard(c.world.log.taken)) && c.world.log.detection == Recorder.InRange
    requires forall i :: 0 <= i < |c.script| ==> OnlyTime(c.script[i])
    requires var picked := Recorder.Picked(c.world, c.script, flag);
             picked != [] && |c.world.log.taken| + |picked| > Recorder.INITIAL_SAMPLES
    requires Recorder.AfterAll(c.world, c.script, flag).0.counter < Microphone.MAX_BAD_SOUNDS
    ensures GetWord(c, flag) in {Some(c.analysis), Some(NoFragment(c.radio))}
  {
    hide Recorder.AfterAll, Recorder.Complete, Recorder.Heard, Recorder.Picked;
    Recorder.ResultsHaveCauses(c.world, c.script, flag);
    Recorder.ExpiredTimeEnds(c.world, c.script, flag);
    Recorder.UndisturbedTakesAll(c.world, c.script, flag);
    var end, result := Recorder.AfterAll(c.world, c.script, flag).0, Recorder.AfterAll(c.world, c.script, flag).1;
    var i :| 0 <= i < |c.script| && Recorder.EndsBy(result, c.script[i], end);
    assert OnlyTime(c.script[i]);
  }

  /** A pass in which one button is held and nothing else happens. */
  predicate OnlyButton(pass: Recorder.Pass, button: Recorder.Button) {
    && !pass.expired && pass.button == button
    && pass.connection == Recorder.Up && pass.distance == Recorder.InRange
  }

  /** What a button means to the conversation. */
  function Meant(button: Recorder.Button, flag: Recorder.Flag): (e: Event) {
    if button == Recorder.Volume then ChangeVolume
    else if flag == Recorder.WaitForName then Directly else CancelCommand
  }

  /**
   A button that is held while nothing else happens is what a call comes to after ten samples at most, unless
   it comes to a fragment or the microphone is broken.
   */
  lemma HeldButtonIsHeard(c: Call, flag: Recorder.Flag, button: Recorder.Button)
    requires button == Recorder.Listen || button == Recorder.Volume
    requires !Recorder.Complete(Recorder.Heard(c.world.log.taken)) && c.world.log.detection == Recorder.InRange
    requires c.world.log.phase < Recorder.PHASES
    requires forall i :: 0 <= i < |c.script| ==> OnlyButton(c.script[i], button)
    requires |Recorder.Picked(c.world, c.script, flag)| >= Recorder.PHASES
    requires Recorder.AfterAll(c.world, c.script, flag).0.counter < Microphone.MAX_BAD_SOUNDS
    ensures GetWord(c, flag) in {Some(c.analysis), Some(Meant(button, flag))}
  {
    hide Recorder.AfterAll, Recorder.Complete, Recorder.Heard, Recorder.Picked;
    Recorder.ResultsHaveCauses(c.world, c.script, flag);
    Recorder.HeldButtonEnds(c.world, c.script, flag);
    Recorder.UndisturbedTakesAll(c.world, c.script, flag);
    Recorder.FlagDecides(c.world, c.script, flag);
    var end, result := Recorder.AfterAll(c.world, c.script, flag).0, Recorder.AfterAll(c.world, c.script, flag).1;
    var i :| 0 <= i < |c.script| && Recorder.EndsBy(result, c.script[i], end);
    assert OnlyButton(c.script[i], button);
  }

  lemma GetsWhatWasHeard(c: Call, flag: Recorder.Flag)
    ensures GetWord(c, flag).Some? && GetWord(c, flag).value.Heard? ==> GetWord(c, flag).value == c.analysis
  {
    hide Recorder.AfterAll;
  }

  class App {
    const word: array<byte>
    const buffer: array<byte>   // the sixteen bytes of the source, and the one that lies behind them
    var state: State
    var retry: nat
    var flag: Recorder.Flag
    var same: bool
    var transactions: u32
    var out: seq<Text>          // the messages handed to the radio
    ghost var events: seq<Event>

    ghost predicate Separate() {
      word.Length == WORD && buffer.Length == WORD + 1 && word != buffer
    }

    /** What the buffer and the repetition flag hold for the outcomes of a session. */
    ghost predicate Shows(outcomes: seq<Option<Text>>)
      requires buffer.Length == WORD + 1
      reads this`same, buffer
    {
      match Last(outcomes)
      case None => IsZero(buffer[..WORD])
      case Some(w) =>
        IsSpoken(w) && Holds(buffer[..], 0, w) && if w == [] then IsZero(buffer[..WORD]) else same == Repeated(outcomes)
    }

    /** The variables of the loop say which conversation is going on. */
    ghost predicate Agrees(t: Talk)
      requires buffer.Length == WORD + 1
      reads this`state, this`retry, this`flag, this`same, buffer
    {
      && (state == AtName <==> t.Idle?) && (flag == Recorder.WaitForName <==> t.Idle?) && retry <= MAX_RETRIES
      && (t.Idle? ==> retry == 0)
      && (t.Session? ==>
            && |t.outcomes| < MAX_OUTCOMES && Shows(t.outcomes)
            && if t.outcomes == [] then state == AtCommand && retry == 0 && !same
               else state == AtRetry && |t.outcomes| == retry + 1)
    }

    /** The messages are the sent words with their line ends. */
    ghost predicate Transmitted(words: seq<Text>)
      reads this`out
    {
      |out| == |words| && forall k :: 0 <= k < |words| ==> out[k] == words[k] + [CR, LF]
    }

    ghost predicate Valid()
      reads this, buffer
    {
      Separate() && Agrees(After(events)) && Transmitted(Sent(events)) && transactions == Silences(events) % TWO_32
    }

    constructor ()
      ensures Valid() && events == [] && out == [] && fresh(word) && fresh(buffer)
    {
      word, buffer := new byte[WORD], new byte[WORD + 1];
      state, retry, flag, same, transactions, out, events := AtName, 0, Recorder.WaitForName, false, 0, [], [];
      new;
      Clear(buffer, WORD);
      Clear(word, WORD);
    }

    /** A new session. */
    method Begin()
      requires Separate()
      modifies this`state, this`retry, this`flag, this`same, buffer
      ensures Agrees(Session([])) && buffer[WORD] == old(buffer[WORD])
    {
      retry, state, flag, same := 0, AtCommand, Recorder.WaitForCommand, false;
      Clear(buffer, WORD);
    }

    /** The end of a session, whatever the buffer holds. */
    method End()
      requires Separate()
      modifies this`state, this`retry, this`flag
      ensures Agrees(Idle)
    {
      state, retry, flag := AtName, 0, Recorder.WaitForName;
    }

    /** A recognised word while a word is to be confirmed. */
    method Retry(w: Text, ghost t: Talk)
      requires Separate() && Agrees(t) && state == AtRetry && IsSpoken(w) && Holds(word[..], 0, w)
      modifies this`state, this`retry, this`flag, this`same, buffer
      ensures Agrees(Next(t, Heard(w))) && buffer[WORD] == old(buffer[WORD])
    {
      if retry == MAX_RETRIES {
        End();
        CopyString(word, buffer, w);
        return;
      }
      var again := StartsLike(word, buffer, w);
      if w != [] {
        RepeatsIff(w, t.outcomes);
      }
      if again {
        Clear(buffer, WORD);
      }
      same := again;
      retry, state := retry + 1, AtRetry;
      CopyString(word, buffer, w);
    }

    /** The buffer starts with the new word exactly if the new word repeats the last one. */
    lemma RepeatsIff(w: Text, outcomes: seq<Option<Text>>)
      requires outcomes != [] && buffer.Length == WORD + 1 && Shows(outcomes) && IsSpoken(w) && w != []
      ensures w <= buffer[..] <==> Repeated(outcomes + [Some(w)])
    {
      match Last(outcomes)
      case None =>
        assert buffer[..WORD][0] == 0;
      case Some(v) =>
        PrefixOfHeld(w, buffer[..], v);
    }

    /** The branch of a recognised word. */
    method OnHeard(w: Text, ghost t: Talk)
      requires Separate() && Agrees(t) && IsSpoken(w) && Holds(word[..], 0, w)
      modifies this`state, this`retry, this`flag, this`same, buffer
      ensures Agrees(Next(t, Heard(w))) && buffer[WORD] == old(buffer[WORD])
    {
      hide Holds;
      var name := IsName(word, w);
      if name && state == AtName {
        Begin();
      } else if state == AtRetry {
        Retry(w, t);
      } else if state == AtCommand {
        state := AtRetry;
        CopyString(word, buffer, w);
      }
    }

    /** The branch of an unrecognised word. */
    method OnUnrecognised(ghost t: Talk)
      requires Separate() && Agrees(t)
      modifies this`state, this`retry, this`flag, this`same, buffer
      ensures Agrees(Next(t, Unrecognised)) && buffer[WORD] == old(buffer[WORD])
    {
      if state != AtName {
        Clear(buffer, WORD);
        if state == AtCommand {
          retry, state, same := 0, AtRetry, false;
          Clear(buffer, WORD);
        } else if retry == MAX_RETRIES {
          End();
        } else {
          retry := retry + 1;
        }
      }
    }

    /**
     The line ends behind the word, the message, and the cleared buffer. The line feed of a word of fifteen
     characters lands behind the sixteen bytes of the buffer.
     */
    method Send(radio: bool, ghost w: Text)
      requires Separate() && IsSpoken(w) && Holds(buffer[..], 0, w)
      modifies this`out, buffer
      ensures out == old(out) + (if radio then [w + [CR, LF]] else []) && IsZero(buffer[..WORD])
      ensures buffer[WORD] == if |w| == 15 then LF else old(buffer[WORD])
    {
      var n := 0;
      while n < 19
        invariant n <= |w| && (forall i :: 0 <= i < |w| ==> buffer[i] == w[i])
        invariant buffer[|w|] == 0 && buffer[WORD] == old(buffer[WORD])
      {
        if buffer[n] == 0 {
          buffer[n], buffer[n + 1] := CR, LF;
          break;
        }
        n := n + 1;
      }
      var sent, message := Message(buffer, radio, w);
      if sent {
        out := out + [message];
      }
      Clear(buffer, WORD);
    }

    /** The branch of silence. */
    method OnSilence(radio: bool, ghost t: Talk)
      requires Separate() && Agrees(t)
      modifies this`state, this`retry, this`flag, this`transactions, this`out, buffer
      ensures Agrees(Idle)
      ensures transactions == if t.Session? then (old(transactions) + 1) % TWO_32 else old(transactions)
      ensures out == old(out) + if radio && Pending(t).Some? then [Pending(t).value + [CR, LF]] else []
      ensures buffer[WORD] == if Overruns(t) then LF else old(buffer[WORD])
    {
      if state == AtName {
        return;
      }
      var empty := IsEmpty(buffer, WORD);
      WordIsNotZero(t.outcomes);
      if !empty && !same {
        Send(radio, Last(t.outcomes).value);
      }
      transactions := (transactions + 1) % TWO_32;
      End();
    }

    lemma WordIsNotZero(outcomes: seq<Option<Text>>)
      requires buffer.Length == WORD + 1 && Shows(outcomes)
      ensures IsZero(buffer[..WORD]) <==> Last(outcomes).None? || Last(outcomes) == Some([])
    {
      if Last(outcomes).Some? && Last(outcomes).value != [] {
        assert buffer[..WORD][0] == buffer[..][0 + 0] == Last(outcomes).value[0];
      }
    }

    /** The word that get_word() leaves, closed with a 0; the bytes behind it stay. */
    method TakeWord(w: Text)
      requires word.Length == WORD && IsSpoken(w)
      modifies word
      ensures Holds(word[..], 0, w)
    {
      for i := 0 to |w|
        invariant forall k :: 0 <= k < i ==> word[k] == w[k]
      {
        word[i] := w[i];
      }
      word[|w|] := 0;
    }

    /** The branches of the loop, by what get_word() returned. */
    method Branch(e: Event, ghost t: Talk)
      requires Separate() && Agrees(t) && (e.Heard? ==> IsSpoken(e.word))
      modifies this`state, this`retry, this`flag, this`same, this`transactions, this`out, word, buffer
      ensures Agrees(Next(t, e))
      ensures transactions
              == if e.NoFragment? && t.Session? then (old(transactions) + 1) % TWO_32 else old(transactions)
      ensures out
              == old(out) + if e.NoFragment? && e.radio && Pending(t).Some? then [Pending(t).value + [CR, LF]] else []
      ensures buffer[WORD] == if e.NoFragment? && Overruns(t) then LF else old(buffer[WORD])
    {
      match e {
        case Heard(w) =>
          TakeWord(w);
          OnHeard(w, t);
        case Unrecognised =>
          OnUnrecognised(t);
        case NoFragment(radio) =>
          OnSilence(radio, t);
        case Directly =>
          Begin();
        case CancelCommand =>
          End();
        case ChangeVolume =>
        case Other =>
      }
      assert !e.NoFragment? ==> out == old(out) + [];
    }

    /** The state is that of the conversation, and the retries count its outcomes. */
    lemma StateSaysTalk()
      requires Valid()
      ensures state == AtName <==> After(events).Idle?
      ensures After(events).Session? ==>
                (|After(events).outcomes| == MAX_OUTCOMES - 1 <==> state == AtRetry && retry == MAX_RETRIES)
    {
      hide After, Shows, Sent, Silences;
    }

    /** One pass of the event loop. */
    method Handle(e: Event)
      requires Valid() && (e.Heard? ==> IsSpoken(e.word))
      modifies this, word, buffer
      ensures Valid() && events == old(events) + [e]
      ensures buffer[WORD] == if e.NoFragment? && Overruns(After(old(events))) then LF else old(buffer[WORD])
      ensures old(state) == AtName ==> (state != AtName <==> e.Directly? || (e.Heard? && Name() <= e.word))
      ensures old(state) != AtName ==>
                (state == AtName <==>
                 Stops(e) || (IsOutcome(e) && old(state) == AtRetry && old(retry) == MAX_RETRIES))
    {
      hide Agrees, Next, Pending, After, Sent, Silences;
      ghost var t, words := After(events), Sent(events);
      StateSaysTalk();
      Branch(e, t);
      RunAppend(events, e);
      EventDecides(events, e);
      events := events + [e];
      StateSaysTalk();
    }

    /**
     The event loop over any run: what it has sent is what the conversation says, and it waits for more than
     the name exactly if a session has begun that nothing has ended since.
     */
    method Run(script: seq<Event>)
      requires Valid() && forall k :: 0 <= k < |script| && script[k].Heard? ==> IsSpoken(script[k].word)
      modifies this, word, buffer
      ensures Valid() && events == old(events) + script
      ensures state != AtName <==> exists k: nat :: LastsSince(events, k)
    {
      hide Valid, LastsSince;
      for i := 0 to |script|
        invariant Valid() && events == old(events) + script[..i]
      {
        Handle(script[i]);
        assert script[..i + 1] == script[..i] + [script[i]];
      }
      assert script[..|script|] == script;
      StateSaysTalk();
      SessionIff(events);
    }

    /** The event loop from its start, over any run of calls of get_word() with its own flag. */
    method Converse(calls: seq<Call>)
      requires Valid() && events == [] && AreCalls(calls)
      requires forall k :: 0 <= k < |calls| && calls[k].analysis.Heard? ==> IsSpoken(calls[k].analysis.word)
      modifies this, word, buffer
      ensures Valid() && events == EventsOf(calls)
    {
      hide Valid, GetWord, After, IsSpoken;
      for i := 0 to |calls|
        invariant Valid() && events == EventsOf(calls[..i])
      {
        FlagSaysIdle();
        assert flag == FlagOf(After(events));
        assert calls[..i + 1][..i] == calls[..i];
        var e := GetWord(calls[i], flag);
        if e.Some? {
          GetsWhatWasHeard(calls[i], flag);
          Handle(e.value);
        }
      }
      assert calls[..|calls|] == calls;
    }

    /** The recorder's flag asks for the name exactly when the system is idle. */
    lemma FlagSaysIdle()
      requires Valid()
      ensures flag == Recorder.WaitForName <==> After(events).Idle?
      ensures flag == FlagOf(After(events))
      ensures retry <= MAX_RETRIES && (state != AtRetry ==> retry == 0)
    {
    }
  }
}
