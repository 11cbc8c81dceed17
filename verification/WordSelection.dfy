/** The comparer's verdict on one base of recordings. */
module Comparer {
  import opened Bytes

  const REGISTERS: nat := 8
  const MAX_DELTA: nat := 0xFF_FFFF

  /** What the comparer's registers say about the best matches: the recording's class and its distance. */
  function ClassOf(w: u32): (c: nat) {
    w / 0x100_0000 % 16
  }

  function DeltaOf(w: u32): (d: nat)
    ensures d <= MAX_DELTA
  {
    w % 0x100_0000
  }

  /** The distances of those matches that have the decided class, best first. */
  function Matching(words: seq<u32>, decision: nat): (m: seq<nat>)
    ensures |m| <= |words| && forall i :: 0 <= i < |m| ==> m[i] <= MAX_DELTA
  {
    if words == [] then []
    else
      var w := words[|words| - 1];
      Matching(words[..|words| - 1], decision) + if ClassOf(w) == decision then [DeltaOf(w)] else []
  }

  function Total(m: seq<nat>): (n: nat) {
    if m == [] then 0 else Total(m[..|m| - 1]) + m[|m| - 1]
  }

  /** The last distance, 0 if there is none. */
  function Last(m: seq<nat>): (n: nat) {
    if m == [] then 0 else m[|m| - 1]
  }

  /** `m` filled up to eight values with its last one. */
  function Filled(m: seq<nat>): (r: seq<nat>)
    requires |m| <= REGISTERS
    ensures |r| == REGISTERS && m <= r && forall i :: |m| <= i < REGISTERS ==> r[i] == Last(m)
    decreases REGISTERS - |m|
  {
    if |m| == REGISTERS then m else Filled(m + [Last(m)])
  }

  lemma {:induction false} TotalIsBounded(m: seq<nat>, bound: nat)
    requires forall i :: 0 <= i < |m| ==> m[i] <= bound
    ensures Total(m) <= |m| * bound
  {
    if m != [] {
      TotalIsBounded(m[..|m| - 1], bound);
    }
  }

  lemma TotalAppend(m: seq<nat>, x: nat)
    ensures Total(m + [x]) == Total(m) + x
  {
    assert (m + [x])[..|m|] == m;
  }

  /** The loop over the registers. Its sums of at most eight 24-bit values fit the 32-bit accumulator. */
  method CountMatches(words: seq<u32>, decision: nat) returns (diff: nat, number: nat, last: nat)
    requires |words| == REGISTERS
    ensures diff == Total(Matching(words, decision)) && number == |Matching(words, decision)|
    ensures number < REGISTERS ==> last == Last(Matching(words, decision))
  {
    hide Total, ClassOf, DeltaOf;
    diff, number, last := 0, 0, 0;
    NoTotal();
    for n := 0 to REGISTERS
      invariant diff == Total(Matching(words[..n], decision)) && number == |Matching(words[..n], decision)|
      invariant last == Last(Matching(words[..n], decision))
    {
      ghost var before, now := Matching(words[..n], decision), Matching(words[..n + 1], decision);
      assert words[..n + 1][..n] == words[..n];
      assert now == before + if ClassOf(words[n]) == decision then [DeltaOf(words[n])] else [];
      TotalAppend(before, DeltaOf(words[n]));
      if ClassOf(words[n]) == decision {
        AddsWithoutWrap(now);
        diff := (diff + DeltaOf(words[n])) % TWO_32;
        number := number + 1;
        if number == REGISTERS {
          assert words[..n + 1] == words;
          return;
        }
        last := DeltaOf(words[n]);
      } else {
        assert now == before;
      }
    }
    assert words[..REGISTERS] == words;
  }

  lemma NoTotal()
    ensures Total([]) == 0
  {
  }

  lemma AddsWithoutWrap(m: seq<nat>)
    requires |m| <= REGISTERS && forall i :: 0 <= i < |m| ==> m[i] <= MAX_DELTA
    ensures Total(m) <= REGISTERS * MAX_DELTA < TWO_32
  {
    TotalIsBounded(m, MAX_DELTA);
  }

  lemma FilledStep(m: seq<nat>)
    requires |m| < REGISTERS
    ensures Filled(m) == Filled(m + [Last(m)]) && Last(m + [Last(m)]) == Last(m)
    ensures Total(m + [Last(m)]) == Total(m) + Last(m)
  {
    TotalAppend(m, Last(m));
  }

  /** The distances of the decided class, the last one counting for all that are missing. */
  function Difference(words: seq<u32>, decision: nat): (d: nat)
    requires |words| == REGISTERS
  {
    Total(Filled(Matching(words, decision)))
  }

  // ---- What the registers hold ----

  /** A match that the comparer found: the card it was on, the recording's class, and its distance. */
  datatype Match = Match(card: nat, spect: nat, distance: nat)

  /** A match as a register holds it: the distance in the low 24 bits, the class above it, the card on top. */
  ghost predicate IsRegister(w: u32, m: Match) {
    m.spect < 16 && m.distance <= MAX_DELTA && w == m.card * 0x1000_0000 + m.spect * 0x100_0000 + m.distance
  }

  ghost predicate AreRegisters(words: seq<u32>, matches: seq<Match>) {
    |words| == |matches| && forall i :: 0 <= i < |words| ==> IsRegister(words[i], matches[i])
  }

  /** The distances of the matches of one class, added up. */
  function Sum(matches: seq<Match>, spect: nat): (n: nat) {
    if matches == [] then 0
    else (if matches[0].spect == spect then matches[0].distance else 0) + Sum(matches[1..], spect)
  }

  function Count(matches: seq<Match>, spect: nat): (n: nat)
    ensures n <= |matches|
  {
    if matches == [] then 0 else (if matches[0].spect == spect then 1 else 0) + Count(matches[1..], spect)
  }

  /** Match `j` is the last one of its class. */
  predicate IsLast(matches: seq<Match>, spect: nat, j: nat) {
    && j < |matches| && matches[j].spect == spect
    && forall i :: j < i < |matches| ==> matches[i].spect != spect
  }

  /** The distances of one class, and the distance of its last match once more for every match missing to eight. */
  ghost predicate IsScore(score: nat, matches: seq<Match>, spect: nat)
    requires |matches| == REGISTERS
  {
    && (Count(matches, spect) == 0 ==> score == 0)
    && forall j: nat :: IsLast(matches, spect, j) ==>
                          score == Sum(matches, spect) + (REGISTERS - Count(matches, spect)) * matches[j].distance
  }

  lemma RegisterFields(w: u32, m: Match)
    requires IsRegister(w, m)
    ensures ClassOf(w) == m.spect && DeltaOf(w) == m.distance
  {
    var high := m.card * 16 + m.spect;
    assert w == high * 0x100_0000 + m.distance;
    assert w / 0x100_0000 == high;
  }

  lemma {:induction false} SumOfInit(matches: seq<Match>, spect: nat)
    requires matches != []
    ensures var init, last := matches[..|matches| - 1], matches[|matches| - 1];
            && Sum(matches, spect) == Sum(init, spect) + (if last.spect == spect then last.distance else 0)
            && Count(matches, spect) == Count(init, spect) + (if last.spect == spect then 1 else 0)
  {
    if |matches| > 1 {
      SumOfInit(matches[1..], spect);
      assert matches[1..][..|matches| - 2] == matches[..|matches| - 1][1..];
    }
  }

  /** The row of distances that the loop makes of the registers is that of the matches. */
  lemma {:induction false} MatchingOfMatches(words: seq<u32>, matches: seq<Match>, spect: nat)
    requires AreRegisters(words, matches)
    ensures var m := Matching(words, spect);
            && Total(m) == Sum(matches, spect) && |m| == Count(matches, spect)
            && forall j: nat :: IsLast(matches, spect, j) ==> |m| > 0 && Last(m) == matches[j].distance
  {
    hide IsRegister, Total, Sum, Count;
    if words == [] {
      NoTotal();
      NoSum(spect);
    } else {
      var n := |words| - 1;
      var w, m := words[n], matches[n];
      MatchingOfMatches(words[..n], matches[..n], spect);
      RegisterFields(w, m);
      SumOfInit(matches, spect);
      TotalAppend(Matching(words[..n], spect), m.distance);
      forall j: nat | IsLast(matches, spect, j) && j < n
        ensures IsLast(matches[..n], spect, j)
      {
      }
      assert Matching(words[..n], spect) + [] == Matching(words[..n], spect);
    }
  }

  lemma SameLength(words: seq<u32>, matches: seq<Match>)
    requires AreRegisters(words, matches)
    ensures |words| == |matches|
  {
  }

  lemma NoSum(spect: nat)
    ensures Sum([], spect) == 0 && Count([], spect) == 0
  {
  }

  /** Filling up to eight adds the last distance once for every value missing. */
  lemma {:induction false} TotalOfFilled(m: seq<nat>)
    requires |m| <= REGISTERS
    ensures Total(Filled(m)) == Total(m) + (REGISTERS - |m|) * Last(m)
    decreases REGISTERS - |m|
  {
    hide Total;
    if |m| < REGISTERS {
      FilledStep(m);
      TotalOfFilled(m + [Last(m)]);
    }
  }

  /** The difference of eight registers in terms of the matches that they hold. */
  lemma DifferenceIsScore(words: seq<u32>, matches: seq<Match>, spect: nat)
    requires |words| == REGISTERS && AreRegisters(words, matches)
    ensures IsScore(Difference(words, spect), matches, spect)
  {
    hide Matching, Filled, Sum, Count, IsRegister, IsLast, Total;
    MatchingOfMatches(words, matches, spect);
    TotalOfFilled(Matching(words, spect));
    NoTotal();
  }

  /** count_diffrence(). The result leaves room below the largest 32-bit value. */
  method CountDifference(words: seq<u32>, decision: nat) returns (diff: nat)
    requires |words| == REGISTERS
    ensures diff == Difference(words, decision) <= REGISTERS * MAX_DELTA < TWO_32 - 1
    ensures forall matches :: AreRegisters(words, matches) ==> IsScore(diff, matches, decision)
  {
    hide Matching, Total, Filled, IsScore, AreRegisters;
    forall matches | AreRegisters(words, matches)
      ensures |matches| == REGISTERS && IsScore(Difference(words, decision), matches, decision)
    {
      assert |matches| == REGISTERS by {
        SameLength(words, matches);
      }
      DifferenceIsScore(words, matches, decision);
    }
    var number, last;
    diff, number, last := CountMatches(words, decision);
    ghost var m := Matching(words, decision);
    while number < REGISTERS
      invariant number == |m| <= REGISTERS && diff == Total(m) && (number < REGISTERS ==> last == Last(m))
      invariant Filled(m) == Filled(Matching(words, decision))
      invariant forall i :: 0 <= i < |m| ==> m[i] <= MAX_DELTA
    {
      FilledStep(m);
      m := m + [last];
      AddsWithoutWrap(m);
      number := number + 1;
      diff := (diff + last) % TWO_32;
    }
    FullIsFilled(m);
    AddsWithoutWrap(m);
  }

  lemma FullIsFilled(m: seq<nat>)
    requires |m| == REGISTERS
    ensures Filled(m) == m
  {
  }

  /** How the comparer answers: it stops in an error, or it finishes with its result registers. */
  datatype Reply =
    | DiskFault | Removed | Overflow
    | Finished(result: u32, words: seq<u32>)

  datatype AiState = AiOk | AiDiskError | AiCantDetect | AiNoDisk | AiOverflow

  predicate IsReply(r: Reply) {
    r.Finished? ==> |r.words| == REGISTERS
  }

  function StateOf(r: Reply): (s: AiState)
    ensures s == AiOk <==> r.Finished? && r.result < 8
  {
    match r
    case DiskFault => AiDiskError
    case Removed => AiNoDisk
    case Overflow => AiOverflow
    case Finished(result, _) => if result < 8 then AiOk else AiCantDetect
  }

  /** The score of a reply that is OK. */
  function ScoreOf(r: Reply): (s: nat)
    requires IsReply(r) && StateOf(r) == AiOk
  {
    Difference(r.words, r.result)
  }

  lemma ScoreIsBounded(r: Reply)
    requires IsReply(r) && StateOf(r) == AiOk
    ensures ScoreOf(r) <= REGISTERS * MAX_DELTA < TWO_32 - 1
  {
    hide Total, Matching;
    var m := Matching(r.words, r.result);
    assert forall i :: 0 <= i < |m| ==> m[i] <= MAX_DELTA;
    AddsWithoutWrap(Filled(m));
  }

  /** The score of a reply is that of the matches in its registers, for the class that the comparer decided on. */
  lemma ScoreOfMatches(r: Reply, matches: seq<Match>)
    requires IsReply(r) && StateOf(r) == AiOk && AreRegisters(r.words, matches)
    ensures IsScore(ScoreOf(r), matches, r.result)
  {
    hide Difference, IsScore;
    DifferenceIsScore(r.words, matches, r.result);
  }

  /** The result part of AI_compare(): state, decision and difference, which a fault leaves as they were. */
  method Compare(r: Reply, decision0: nat, difference0: nat)
    returns (state: AiState, decision: nat, difference: nat)
    requires IsReply(r)
    ensures state == StateOf(r)
    ensures state == AiOk ==> decision == r.result && difference == ScoreOf(r)
    ensures state == AiOk ==>
              forall matches :: AreRegisters(r.words, matches) ==> IsScore(difference, matches, r.result)
    ensures state == AiCantDetect ==> decision == 0 && difference == 0
    ensures state != AiOk && state != AiCantDetect ==> decision == decision0 && difference == difference0
  {
    hide Difference, IsScore;
    decision, difference := decision0, difference0;
    match r
    case DiskFault => state := AiDiskError;
    case Removed => state := AiNoDisk;
    case Overflow => state := AiOverflow;
    case Finished(result, words) =>
      if result < 8 {
        difference := CountDifference(words, result);
        decision, state := result, AiOk;
      } else {
        decision, difference, state := 0, 0, AiCantDetect;
      }
  }
}

/** From the comparer's verdicts on all bases to the label of the best one. */
module WordSelection {
  import opened Bytes
  import NameCodec
  import opened Pages
  import opened Database
  import opened DatabaseReader
  import opened Comparer

  /** How many classes the first `n` bases have: where the classes of base `n` begin. */
  function Offset(classes: seq<nat>, n: nat): (r: nat)
    requires n <= |classes|
  {
    if n == 0 then 0 else Offset(classes, n - 1) + classes[n - 1]
  }

  /** The arrays that the scores of the bases are kept in. */
  datatype Scores = Scores(states: seq<AiState>, scores: seq<nat>, decisions: seq<nat>, classes: seq<nat>)

  predicate IsScores(v: Scores) {
    |v.states| == |v.scores| == |v.decisions| == |v.classes|
  }

  /** Base `b` is OK, no OK base scores lower, and none before it scores as low. */
  predicate IsBest(v: Scores, b: nat, n: nat)
    requires IsScores(v) && n <= |v.states|
  {
    && b < n && v.states[b] == AiOk
    && forall k :: 0 <= k < n && v.states[k] == AiOk ==>
                     v.scores[b] <= v.scores[k] && (k < b ==> v.scores[b] < v.scores[k])
  }

  /** The best base is unique. */
  lemma BestIsUnique(v: Scores, a: nat, b: nat)
    requires IsScores(v) && IsBest(v, a, |v.states|) && IsBest(v, b, |v.states|)
    ensures a == b
  {
  }

  /** selectBestSuit(): the decision of the first OK base with the lowest score, counted over all bases. */
  method SelectBestSuit(v: Scores) returns (dec: nat)
    requires IsScores(v)
    requires forall k :: 0 <= k < |v.states| && v.states[k] == AiOk ==> v.scores[k] < TWO_32 - 1
    ensures forall b: nat :: IsBest(v, b, |v.states|) ==> dec == (v.decisions[b] + Offset(v.classes, b)) % TWO_32
    ensures (forall k :: 0 <= k < |v.states| ==> v.states[k] != AiOk) ==> dec == 0
  {
    var min, offset := TWO_32 - 1, 0;
    ghost var best: nat := 0;
    dec := 0;
    for n := 0 to |v.states|
      invariant offset == Offset(v.classes, n) % TWO_32
      invariant if min == TWO_32 - 1
                then dec == 0 && forall k :: 0 <= k < n ==> v.states[k] != AiOk
                else && IsBest(v, best, n) && min == v.scores[best] < TWO_32 - 1
                     && dec == (v.decisions[best] + Offset(v.classes, best)) % TWO_32
    {
      if v.states[n] == AiOk {
        if min > v.scores[n] {
          min := v.scores[n];
          dec := (v.decisions[n] + offset) % TWO_32;
          best := n;
        }
      }
      offset := (offset + v.classes[n]) % TWO_32;
    }
    forall b: nat | IsBest(v, b, |v.states|)
      ensures dec == (v.decisions[b] + Offset(v.classes, b)) % TWO_32
    {
      BestIsUnique(v, best, b);
    }
  }

  // ---- The same in terms of the comparer's replies and the page's records ----

  predicate AreReplies(replies: seq<Reply>) {
    |replies| == BASES && forall i :: 0 <= i < BASES ==> IsReply(replies[i])
  }

  predicate IsOk(r: Reply) {
    StateOf(r) == AiOk
  }

  /** A reply that ends the search with a disk error. */
  predicate IsFault(r: Reply) {
    StateOf(r) == AiDiskError || StateOf(r) == AiNoDisk
  }

  predicate AnyOk(replies: seq<Reply>, n: nat)
    requires n <= |replies|
  {
    exists k :: 0 <= k < n && IsOk(replies[k])
  }

  predicate AnyFault(replies: seq<Reply>, n: nat)
    requires n <= |replies|
  {
    exists k :: 0 <= k < n && IsFault(replies[k])
  }

  predicate AnyCantDetect(replies: seq<Reply>, n: nat)
    requires n <= |replies|
  {
    exists k :: 0 <= k < n && StateOf(replies[k]) == AiCantDetect
  }

  /** The first of the first `n` replies with the lowest score among those that are OK. */
  function BestReply(replies: seq<Reply>, n: nat): (b: nat)
    requires AreReplies(replies) && n <= BASES && AnyOk(replies, n)
    ensures b < n && IsOk(replies[b])
    ensures forall k :: 0 <= k < n && IsOk(replies[k]) ==>
                          && ScoreOf(replies[b]) <= ScoreOf(replies[k])
                          && (k < b ==> ScoreOf(replies[b]) < ScoreOf(replies[k]))
  {
    hide Difference, Matching;
    if !AnyOk(replies, n - 1) then n - 1
    else
      var b := BestReply(replies, n - 1);
      if IsOk(replies[n - 1]) && ScoreOf(replies[n - 1]) < ScoreOf(replies[b]) then n - 1 else b
  }

  /** Where the classes of base `b` begin. */
  function ClassesBefore(bases: seq<Base>, b: nat): (r: nat)
    requires b <= |bases|
  {
    if b == 0 then 0 else ClassesBefore(bases, b - 1) + bases[b - 1].classes as nat
  }

  /** The slot of the chosen label, as the firmware's 8-bit word decision. */
  function Slot(replies: seq<Reply>, bases: seq<Base>): (s: nat)
    requires AreReplies(replies) && |bases| <= BASES && AnyOk(replies, |bases|)
  {
    var b := BestReply(replies, |bases|);
    (replies[b].result + ClassesBefore(bases, b)) % TWO_32 % 256
  }

  lemma {:induction false} ClassesSplit(bases: seq<Base>, b: nat)
    requires b <= |bases|
    ensures Classes(bases) == ClassesBefore(bases, b) + Classes(bases[b..])
  {
    if b != 0 {
      ClassesSplit(bases, b - 1);
      assert bases[b - 1..][1..] == bases[b..];
    } else {
      assert bases[0..] == bases;
    }
  }

  lemma FirstClasses(bases: seq<Base>)
    requires bases != []
    ensures Classes(bases) >= bases[0].classes as nat
  {
  }

  /** With a decision below its base's class count, the slot is the place of that class among all classes. */
  lemma {:induction false} SlotIsLabel(replies: seq<Reply>, bases: seq<Base>)
    requires AreReplies(replies) && |bases| <= BASES && AnyOk(replies, |bases|) && Classes(bases) <= MAX_DECISIONS
    requires var b := BestReply(replies, |bases|); replies[b].result < bases[b].classes as int
    ensures var b := BestReply(replies, |bases|);
            Slot(replies, bases) == ClassesBefore(bases, b) + replies[b].result < Classes(bases)
  {
    hide BestReply, ScoreOf, AnyOk, Classes, ClassesBefore;
    var b := BestReply(replies, |bases|);
    ClassesSplit(bases, b);
    FirstClasses(bases[b..]);
  }

  // ---- ai_group_analyse() ----

  /** What the state arrays hold after the comparer has answered for the first `n` bases. */
  ghost predicate Judged(v: Scores, replies: seq<Reply>, n: nat)
    requires AreReplies(replies)
  {
    && IsScores(v) && n <= |v.states| && n <= BASES
    && (forall k :: 0 <= k < n ==> v.states[k] == StateOf(replies[k]))
    && forall k :: 0 <= k < n && v.states[k] == AiOk ==>
                     v.decisions[k] == replies[k].result && v.scores[k] == ScoreOf(replies[k])
  }

  /** The loop over the bases; it ends at the first disk error. */
  method JudgeBases(replies: seq<Reply>, size: nat, states: array<AiState>, scores: array<nat>, decisions: array<nat>,
                    ghost classes: seq<nat>)
    returns (fault: bool)
    requires AreReplies(replies) && size <= BASES && scores != decisions
    requires states.Length == scores.Length == decisions.Length == |classes| == BASES
    modifies states, scores, decisions
    ensures fault <==> AnyFault(replies, size)
    ensures !fault ==> Judged(Scores(states[..], scores[..], decisions[..], classes), replies, size)
  {
    hide ScoreOf;
    var difference: nat := 0;
    for n := 0 to size
      invariant !AnyFault(replies, n)
      invariant Judged(Scores(states[..], scores[..], decisions[..], classes), replies, n)
    {
      states[n], decisions[n], difference := Compare(replies[n], decisions[n], difference);
      scores[n] := difference;
      if states[n] == AiDiskError || states[n] == AiNoDisk {
        assert IsFault(replies[n]);
        return true;
      }
    }
    fault := false;
  }

  /** isDetected() and isNotDetected(): some base is in the given state. */
  method AnyState(states: seq<AiState>, wanted: AiState, ghost replies: seq<Reply>) returns (r: bool)
    requires |states| <= |replies| && forall k :: 0 <= k < |states| ==> states[k] == StateOf(replies[k])
    ensures r <==> exists k :: 0 <= k < |states| && StateOf(replies[k]) == wanted
  {
    for n := 0 to |states|
      invariant forall k :: 0 <= k < n ==> StateOf(replies[k]) != wanted
    {
      if states[n] == wanted {
        assert StateOf(replies[n]) == wanted;
        return true;
      }
    }
    r := false;
  }

  /** The best base of the arrays is the best reply. */
  lemma JudgedBest(v: Scores, replies: seq<Reply>, n: nat)
    requires AreReplies(replies) && IsScores(v) && n == |v.states| <= BASES && Judged(v, replies, n)
    requires AnyOk(replies, n)
    ensures IsBest(v, BestReply(replies, n), n)
    ensures v.decisions[BestReply(replies, n)] == replies[BestReply(replies, n)].result
  {
    hide ScoreOf, BestReply;
    var b := BestReply(replies, n);
    forall k | 0 <= k < n && v.states[k] == AiOk
      ensures v.scores[b] <= v.scores[k] && (k < b ==> v.scores[b] < v.scores[k])
    {
      assert IsOk(replies[k]);
    }
  }

  lemma JudgedIsBounded(v: Scores, replies: seq<Reply>, n: nat)
    requires AreReplies(replies) && IsScores(v) && n == |v.states| <= BASES && Judged(v, replies, n)
    ensures forall k :: 0 <= k < n && v.states[k] == AiOk ==> v.scores[k] < TWO_32 - 1
  {
    hide ScoreOf;
    forall k | 0 <= k < n && v.states[k] == AiOk
      ensures v.scores[k] < TWO_32 - 1
    {
      ScoreIsBounded(replies[k]);
    }
  }

  lemma {:induction false} OffsetsAgree(classes: seq<nat>, bases: seq<Base>, b: nat)
    requires b <= |classes| && b <= |bases| && forall k :: 0 <= k < b ==> classes[k] == bases[k].classes as nat
    ensures Offset(classes, b) == ClassesBefore(bases, b)
  {
    if b != 0 {
      OffsetsAgree(classes, bases, b - 1);
    }
  }

  /** selectBestSuit() on the filled arrays, cut to the 8 bits of a word decision. */
  method ChooseSlot(v: Scores, ghost replies: seq<Reply>, ghost bases: seq<Base>) returns (slot: nat)
    requires AreReplies(replies) && IsScores(v) && |bases| == |v.states| <= BASES && Judged(v, replies, |bases|)
    requires AnyOk(replies, |bases|) && forall k :: 0 <= k < |bases| ==> v.classes[k] == bases[k].classes as nat
    ensures slot == Slot(replies, bases)
  {
    hide ScoreOf, BestReply, Offset, ClassesBefore, Judged, IsBest;
    JudgedIsBounded(v, replies, |bases|);
    JudgedBest(v, replies, |bases|);
    var dec := SelectBestSuit(v);
    OffsetsAgree(v.classes, bases, BestReply(replies, |bases|));
    slot := dec % 256;
  }

  /** A string ends at the first 0. */
  lemma HeldLength(memory: seq<byte>, text: seq<byte>, n: nat)
    requires Holds(memory, 0, text) && n < |memory| && memory[n] == 0 && forall k :: 0 <= k < n ==> memory[k] != 0
    ensures |text| == n
  {
    forall i | 0 <= i < |text|
      ensures memory[i] != 0
    {
      assert memory[0 + i] == text[i];
    }
  }

  /** The loop that copies a label with its closing 0; it fails on sixteen bytes without a 0. */
  method CopyLabel(textWord: seq<byte>, word: array<byte>, ghost text: seq<byte>) returns (ok: bool)
    requires |textWord| >= 16 && word.Length == 16
    modifies word
    ensures Holds(textWord, 0, text) && |text| < 16 ==> ok && Holds(word[..], 0, text)
    ensures ok ==> 0 in word[..]
  {
    for pos := 0 to 16
      invariant forall k :: 0 <= k < pos ==> word[k] == textWord[k] && textWord[k] != 0
    {
      word[pos] := textWord[pos];
      if textWord[pos] == 0 {
        if Holds(textWord, 0, text) {
          HeldLength(textWord, text, pos);
        }
        assert word[..][pos] == 0;
        return true;
      }
    }
    ok := false;
  }

  /** The label in its slot of the buffer, as the slot's sixteen bytes. */
  lemma HeldInSlot(buffer: seq<byte>, slot: nat, text: seq<byte>)
    requires 16 * slot + 16 <= |buffer| && |text| < 16 && Holds(buffer, 16 * slot, text)
    ensures Holds(buffer[16 * slot..16 * slot + 16], 0, text)
  {
    var cut := buffer[16 * slot..16 * slot + 16];
    assert forall i :: 0 <= i < 16 ==> cut[i] == buffer[16 * slot + i];
  }

  /** What the walk over the labels and the comparer's replies decide together. */
  datatype Outcome = Stopped(status: DetectorStatus) | Chosen(slot: nat)

  /** The outcome of ai_group_analyse() on a page, up to the copying of the word. */
  function OutcomeOf(start: u32, loaded: bool, read: seq<byte>, replies: seq<Reply>): (o: Outcome)
    requires |read| > PAGE_SIZE && AreReplies(replies)
  {
    var w, l := ScanBases(read, LIST_START, BASES), ScanLinkers(read, LIST_START, 0, 0);
    if DatabaseStatus(start, loaded, read) != DetectorOk || !w.Walked? || |w.items| > BASES then
      Stopped(DatabaseStatus(start, loaded, read))
    else if AnyFault(replies, |w.items|) then Stopped(DiskError)
    else if !LinkersOk(l) then Stopped(FileError)
    else if AnyOk(replies, |w.items|) then
      if Slot(replies, w.items) > Classes(w.items) then Stopped(FileError) else Chosen(Slot(replies, w.items))
    else if AnyCantDetect(replies, |w.items|) then Stopped(CantDetect)
    else Stopped(BadConfig)
  }

  /**
   The tail of ai_group_analyse(), on accepted tables and judged bases. `stray` are the bytes that a
   pointer which was never set happens to lead to.
   */
  method PickWord(v: Scores, buffer: seq<byte>, linkers: array<nat>, stray: seq<byte>, decisions: nat, word: array<byte>,
                  ghost replies: seq<Reply>, ghost bases: seq<Base>, ghost labels: seq<Label>)
    returns (status: DetectorStatus)
    requires AreReplies(replies) && IsScores(v) && |bases| == |v.states| <= BASES && Judged(v, replies, |bases|)
    requires forall k :: 0 <= k < |bases| ==> v.classes[k] == bases[k].classes as nat
    requires |buffer| == 16 * MAX_DECISIONS && linkers.Length >= LABEL_SLOTS && |stray| == 16 && word.Length == 16
    requires forall n :: 0 <= n < LABEL_SLOTS ==> linkers[n] == 16 * n
    requires HasLabels(buffer, labels) && decisions <= |labels|
    requires word != linkers as object
    modifies word
    ensures AnyOk(replies, |bases|) ==>
              if Slot(replies, bases) > decisions then status == FileError
              else if Slot(replies, bases) < |labels| && Slot(replies, bases) < LABEL_SLOTS
              then status == DetectorOk && Holds(word[..], 0, labels[Slot(replies, bases)])
              else status == FileError || (status == DetectorOk && 0 in word[..])
    ensures !AnyOk(replies, |bases|) ==>
              status == if AnyCantDetect(replies, |bases|) then CantDetect else BadConfig
  {
    hide Slot, BestReply, ScoreOf, Holds;
    var detected := AnyState(v.states, AiOk, replies);
    if detected {
      var slot := ChooseSlot(v, replies, bases);
      if slot > decisions {
        return FileError;
      }
      var textWord := stray;
      if slot < LABEL_SLOTS {
        textWord := buffer[linkers[slot]..linkers[slot] + 16];
      }
      ghost var text := if slot < |labels| then labels[slot] else [];
      if slot < |labels| && slot < LABEL_SLOTS {
        HeldInSlot(buffer, slot, text);
      }
      var ok := CopyLabel(textWord, word, text);
      return if ok then DetectorOk else FileError;
    }
    var notDetected := AnyState(v.states, AiCantDetect, replies);
    status := if notDetected then CantDetect else BadConfig;
  }

  /** The comparer's verdicts on the bases of the tables. */
  method JudgeTables(replies: seq<Reply>, t: BaseTables, size: nat, ghost bases: seq<Base>) returns (fault: bool, v: Scores)
    requires AreReplies(replies) && t.Valid() && size == |bases| <= BASES && t.HasBases(bases)
    ensures fault <==> AnyFault(replies, size)
    ensures !fault ==> IsScores(v) && |v.states| == size && Judged(v, replies, size)
    ensures !fault ==> forall k :: 0 <= k < size ==> v.classes[k] == bases[k].classes as nat
  {
    hide ScoreOf, StateOf, AnyFault;
    var states, scores, decisions := new AiState[BASES], new nat[BASES], new nat[BASES];
    fault := JudgeBases(replies, size, states, scores, decisions, t.spectsInBase[..]);
    v := Scores(states[..size], scores[..size], decisions[..size], t.spectsInBase[..size]);
  }

  /** The label walk never counts fewer classes than the base walk. */
  lemma EnoughLabels(read: seq<byte>, room: nat)
    requires room == BASES && ScanBases(read, LIST_START, room).Walked?
    requires LinkersOk(ScanLinkers(read, LIST_START, 0, 0))
    ensures Classes(ScanBases(read, LIST_START, room).items) <= |ScanLinkers(read, LIST_START, 0, 0).labels|
  {
    hide ScanBases, ScanLinkers, Classes;
    WalksMeet(read, LIST_START, 0, 0);
    var w := ScanBases(read, LIST_START, room);
    LinkersGrow(read, w.end, |w.items|, Classes(w.items));
  }

  lemma {:induction false} LinkersGrow(read: seq<byte>, p: nat, seen: nat, classes: nat)
    requires ScanLinkers(read, p, seen, classes).Linked?
    ensures classes <= ScanLinkers(read, p, seen, classes).classes
    decreases |read| - p
  {
    hide NameCodec.Decode;
    if read[p] == 'B' as int {
      LinkersGrow(read, p + 23, seen + 1, classes + read[p + 21] as nat);
    } else if read[p] == 'L' as int {
      LinkersGrow(read, p + LABEL_RECORD, seen, classes);
    }
  }

  /** What the caller relies on: the walks stay in the loaded memory. */
  predicate InMemory(read: seq<byte>) {
    ScanBases(read, LIST_START, BASES) != Walk.OffPage && ScanLinkers(read, LIST_START, 0, 0) != Outside
  }

  /**
   ai_group_analyse(). The word is the label in the chosen slot when that slot is one of the sixteen
   prepared ones and below the number of labels; a slot equal to that number passes the source's check as
   well, and then the word is whatever lies there.
   */
  method Analyse(start: u32, loaded: bool, read: seq<byte>, replies: seq<Reply>, stray: seq<byte>, word: array<byte>)
    returns (status: DetectorStatus)
    requires |read| > PAGE_SIZE && |stray| == 16 && word.Length == 16 && AreReplies(replies) && InMemory(read)
    modifies word
    ensures match OutcomeOf(start, loaded, read, replies)
            case Stopped(s) => status == s
            case Chosen(slot) =>
              var labels := ScanLinkers(read, LIST_START, 0, 0).labels;
              if slot < |labels| && slot < LABEL_SLOTS then status == DetectorOk && Holds(word[..], 0, labels[slot])
              else status == FileError || (status == DetectorOk && 0 in word[..])
  {
    hide ScanBases, ScanLinkers, Classes, Slot, Judged, HasLabels, Holds, AnyOk, AnyFault, AnyCantDetect, AreReplies,
      DatabaseStatus, BaseTables.HasBases, BaseTables.Valid;
    var buffer, linkers := new byte[16 * MAX_DECISIONS], new nat[MAX_DECISIONS];
    MakeLinkerTable(linkers);
    var t := new BaseTables();
    var size, total;
    status, size, total := ReadDatabase(start, loaded, read, t);
    if status != DetectorOk {
      return;
    }
    ghost var bases := ScanBases(read, LIST_START, BASES).items;
    var fault, v := JudgeTables(replies, t, size, bases);
    if fault {
      return DiskError;
    }
    var ok := LoadLinkerList(read, buffer, linkers);
    if !ok {
      return FileError;
    }
    ghost var labels := ScanLinkers(read, LIST_START, 0, 0).labels;
    EnoughLabels(read, BASES);
    status := PickWord(v, buffer[..], linkers, stray, total, word, replies, bases, labels);
  }

  // ---- From the inputs to the word ----

  /** A start block that readDatabase() accepts. */
  predicate IsStart(start: u32) {
    start * 16 % TWO_32 < 0xFFFF
  }

  /** A database that the firmware accepts, as the script writes it. */
  predicate IsDatabaseOf(page: seq<byte>, bases: seq<Base>, labels: seq<Label>) {
    && Fits(bases, labels) && page == Page(bases, labels)
    && |bases| <= BASES && AllLoadable(bases) && Classes(bases) == |labels| <= MAX_DECISIONS
  }

  /** The place of the best base's decision among all classes. */
  function Place(bases: seq<Base>, replies: seq<Reply>, b: nat): (p: nat)
    requires AreReplies(replies) && b < |bases| <= BASES && IsOk(replies[b])
  {
    ClassesBefore(bases, b) + replies[b].result
  }

  lemma {:induction false} PlaceIsSmall(bases: seq<Base>, replies: seq<Reply>, b: nat)
    requires AreReplies(replies) && b < |bases| <= BASES && IsOk(replies[b]) && Classes(bases) <= MAX_DECISIONS
    ensures Place(bases, replies, b) < 256
  {
    hide Classes, ClassesBefore;
    ClassesSplit(bases, b);
  }

  /** What the firmware makes of a written database and the comparer's replies, when no base fails. */
  lemma {:induction false} OutcomeOnWritten(start: u32, page: seq<byte>, bases: seq<Base>, labels: seq<Label>,
                                            replies: seq<Reply>, b: nat)
    requires IsStart(start) && IsDatabaseOf(page, bases, labels)
    requires AreReplies(replies) && !AnyFault(replies, |bases|) && AnyOk(replies, |bases|)
    requires b == BestReply(replies, |bases|)
    ensures |page| > PAGE_SIZE && InMemory(page) && Accepted(page)
    ensures ScanBases(page, LIST_START, BASES).Walked? && ScanBases(page, LIST_START, BASES).items == bases
    ensures ScanLinkers(page, LIST_START, 0, 0) == Linked(labels, |labels|)
    ensures OutcomeOf(start, true, page, replies)
            == if Place(bases, replies, b) > |labels| then Stopped(FileError) else Chosen(Place(bases, replies, b))
  {
    hide Page, BestReply, Classes, ClassesBefore, AnyOk, AnyFault, ScanBases, ScanLinkers, IsDatabase, IsProper,
      ChecksumMatches, AllLoadable;
    DatabaseRoundTrip(bases, labels);
    PlaceIsSmall(bases, replies, b);
  }

  /** The database is not where the firmware looks, or the disk fails: before the page or at one of the bases. */
  predicate DiskFails(loaded: bool, replies: seq<Reply>, n: nat)
    requires n <= |replies|
  {
    !loaded || exists k :: 0 <= k < n && (replies[k].DiskFault? || replies[k].Removed?)
  }

  /** The comparer finished some base with one of its eight classes. */
  predicate SomeDecided(replies: seq<Reply>, n: nat)
    requires n <= |replies|
  {
    exists k :: 0 <= k < n && replies[k].Finished? && replies[k].result < 8
  }

  /** The status for a written database, whatever the comparer answers. */
  lemma {:induction false} StatusOnWritten(start: u32, loaded: bool, page: seq<byte>, bases: seq<Base>,
                                           labels: seq<Label>, replies: seq<Reply>)
    requires IsDatabaseOf(page, bases, labels) && AreReplies(replies)
    ensures |page| > PAGE_SIZE
    ensures var o, n := OutcomeOf(start, loaded, page, replies), |bases|;
            if !IsStart(start) then o == Stopped(FileError)
            else if DiskFails(loaded, replies, n) then o == Stopped(DiskError)
            else if SomeDecided(replies, n) then o.Chosen? || o == Stopped(FileError)
            else if exists k :: 0 <= k < n && replies[k].Finished? then o == Stopped(CantDetect)
            else o == Stopped(BadConfig)
  {
    hide Page, BestReply, Classes, Slot, ScanBases, ScanLinkers, IsDatabase, IsProper, ChecksumMatches, AllLoadable;
    DatabaseRoundTrip(bases, labels);
    var n := |bases|;
    assert AnyFault(replies, n) <==> DiskFails(true, replies, n) by {
      FaultIff(replies, n);
    }
    assert AnyOk(replies, n) <==> SomeDecided(replies, n) by {
      DecidedIff(replies, n);
    }
    if !AnyOk(replies, n) {
      FinishedIff(replies, n);
    }
  }

  lemma FaultIff(replies: seq<Reply>, n: nat)
    requires n <= |replies|
    ensures AnyFault(replies, n) <==> DiskFails(true, replies, n)
  {
    if AnyFault(replies, n) {
      var k :| 0 <= k < n && IsFault(replies[k]);
    }
    if DiskFails(true, replies, n) {
      var k :| 0 <= k < n && (replies[k].DiskFault? || replies[k].Removed?);
      assert IsFault(replies[k]);
    }
  }

  lemma DecidedIff(replies: seq<Reply>, n: nat)
    requires n <= |replies|
    ensures AnyOk(replies, n) <==> SomeDecided(replies, n)
  {
    if SomeDecided(replies, n) {
      var k :| 0 <= k < n && replies[k].Finished? && replies[k].result < 8;
      assert IsOk(replies[k]);
    }
    if AnyOk(replies, n) {
      var k :| 0 <= k < n && IsOk(replies[k]);
      assert replies[k].Finished? && replies[k].result < 8;
    }
  }

  lemma FinishedIff(replies: seq<Reply>, n: nat)
    requires n <= |replies| && !AnyOk(replies, n)
    ensures AnyCantDetect(replies, n) <==> exists k :: 0 <= k < n && replies[k].Finished?
  {
    forall k | 0 <= k < n && replies[k].Finished?
      ensures StateOf(replies[k]) == AiCantDetect
    {
      assert !IsOk(replies[k]);
    }
    if AnyCantDetect(replies, n) {
      var k :| 0 <= k < n && StateOf(replies[k]) == AiCantDetect;
      assert replies[k].Finished?;
    }
  }

  lemma NoFaultBefore(replies: seq<Reply>, n: nat)
    requires n <= |replies| && !AnyFault(replies, |replies|)
    ensures !AnyFault(replies, n)
  {
  }

  /** A database that is not accepted is a file error, unless the disk fails. */
  lemma {:induction false} RefusedIsFileError(start: u32, page: seq<byte>, replies: seq<Reply>)
    requires |page| > PAGE_SIZE && AreReplies(replies) && !Accepted(page) && !DiskFails(true, replies, BASES)
    ensures OutcomeOf(start, true, page, replies) == Stopped(FileError)
  {
    hide ScanBases, ScanLinkers, IsDatabase, IsProper, ChecksumMatches, Classes, Slot;
    FaultIff(replies, BASES);
    var w := ScanBases(page, LIST_START, BASES);
    if w.Walked? {
      WalksMeet(page, LIST_START, 0, 0);
      NoFaultBefore(replies, |w.items|);
    }
  }

  /**
   With the best base's decision below its class count, the slot is the place of that class among all
   classes, and the label that the script wrote at that place is among the labels read.
   */
  lemma {:induction false} ChosenLabel(start: u32, page: seq<byte>, bases: seq<Base>, labels: seq<Label>,
                                       replies: seq<Reply>, b: nat)
    requires IsStart(start) && IsDatabaseOf(page, bases, labels)
    requires AreReplies(replies) && !AnyFault(replies, |bases|) && AnyOk(replies, |bases|)
    requires b == BestReply(replies, |bases|) && replies[b].result < bases[b].classes as int
    ensures |page| > PAGE_SIZE && InMemory(page) && Accepted(page)
    ensures ScanBases(page, LIST_START, BASES).Walked? && ScanBases(page, LIST_START, BASES).items == bases
    ensures Place(bases, replies, b) < |labels|
    ensures OutcomeOf(start, true, page, replies) == Chosen(Place(bases, replies, b))
    ensures ScanLinkers(page, LIST_START, 0, 0) == Linked(labels, |labels|)
  {
    hide IsDatabaseOf, BestReply, Classes, ClassesBefore, AnyOk, AnyFault, ScanBases, ScanLinkers, OutcomeOf, Place,
      InMemory, Accepted;
    OutcomeOnWritten(start, page, bases, labels, replies, b);
    DatabaseOf(page, bases, labels);
    PlaceIn(bases, replies, b);
  }

  /**
   End to end on a written database: the word is the label of the class that the best base decided for, if
   the decision is below the base's class count and the label is one of the sixteen that have a slot. A
   decision that leads beyond the labels fails.
   */
  method WordOfWritten(start: u32, page: seq<byte>, replies: seq<Reply>, stray: seq<byte>, word: array<byte>,
                       ghost bases: seq<Base>, ghost labels: seq<Label>, ghost b: nat)
    returns (status: DetectorStatus)
    requires IsStart(start) && IsDatabaseOf(page, bases, labels) && |stray| == 16 && word.Length == 16
    requires AreReplies(replies) && !AnyFault(replies, |bases|) && AnyOk(replies, |bases|)
    requires b == BestReply(replies, |bases|)
    modifies word
    ensures replies[b].result < bases[b].classes as int ==> Place(bases, replies, b) < |labels|
    ensures replies[b].result < bases[b].classes as int && Place(bases, replies, b) < LABEL_SLOTS ==>
              status == DetectorOk && Holds(word[..], 0, labels[Place(bases, replies, b)])
    ensures Place(bases, replies, b) > |labels| ==> status == FileError
  {
    hide IsDatabaseOf, BestReply, Classes, ClassesBefore, AnyOk, AnyFault, ScanBases, ScanLinkers, OutcomeOf, Place,
      InMemory, Accepted, Holds;
    DatabaseOf(page, bases, labels);
    OutcomeOnWritten(start, page, bases, labels, replies, b);
    if replies[b].result < bases[b].classes as int {
      ChosenLabel(start, page, bases, labels, replies, b);
    }
    status := Analyse(start, true, page, replies, stray, word);
  }

  lemma DatabaseOf(page: seq<byte>, bases: seq<Base>, labels: seq<Label>)
    requires IsDatabaseOf(page, bases, labels)
    ensures |bases| <= BASES && Classes(bases) == |labels| <= MAX_DECISIONS
  {
  }

  /** The place is one of the base's own classes exactly if the decision is below the class count. */
  lemma {:induction false} PlaceIn(bases: seq<Base>, replies: seq<Reply>, b: nat)
    requires AreReplies(replies) && b < |bases| <= BASES && IsOk(replies[b])
    ensures ClassesBefore(bases, b) <= Place(bases, replies, b)
    ensures Place(bases, replies, b) < ClassesBefore(bases, b + 1) <==> replies[b].result < bases[b].classes as int
    ensures ClassesBefore(bases, b + 1) <= Classes(bases)
  {
    hide Classes;
    ClassesSplit(bases, b + 1);
  }

  /**
   The slot that ai_group_analyse() chooses is that of a class of the best base exactly if the base's decision
   is below its class count; otherwise it is that of a later base's class, or the one behind the last label,
   or the call fails.
   */
  lemma {:induction false} WordIsOwnLabelIff(start: u32, page: seq<byte>, bases: seq<Base>, labels: seq<Label>,
                                             replies: seq<Reply>, b: nat)
    requires IsStart(start) && IsDatabaseOf(page, bases, labels)
    requires AreReplies(replies) && !AnyFault(replies, |bases|) && AnyOk(replies, |bases|)
    requires b == BestReply(replies, |bases|)
    ensures |page| > PAGE_SIZE
    ensures var o := OutcomeOf(start, true, page, replies);
            && (replies[b].result < bases[b].classes as int <==>
                o.Chosen? && ClassesBefore(bases, b) <= o.slot < ClassesBefore(bases, b + 1))
            && (o.Chosen? ==> o.slot <= |labels|)
  {
    hide IsDatabaseOf, BestReply, Classes, ClassesBefore, AnyOk, AnyFault, ScanBases, ScanLinkers, OutcomeOf, Place,
      InMemory, Accepted;
    OutcomeOnWritten(start, page, bases, labels, replies, b);
    DatabaseOf(page, bases, labels);
    PlaceIn(bases, replies, b);
  }

  lemma SmallDatabase(base: Base, name: Label)
    requires IsBase(base) && Loadable(base) && base.classes == 1 && IsLabel(name)
    ensures IsDatabaseOf(Page([base], [name]), [base], [name])
  {
    hide Page, IsBase, IsLabel, Loadable;
    assert Classes([base]) == 1 + Classes([]);
  }

  /** One base with one class and one label: the decision 1 passes the check, and its slot holds no label. */
  lemma {:induction false} SlotBehindTheLabels(start: u32, base: Base, name: Label, replies: seq<Reply>)
    requires IsStart(start) && IsBase(base) && Loadable(base) && base.classes == 1 && IsLabel(name)
    requires AreReplies(replies) && replies[0].Finished? && replies[0].result == 1
    ensures |Page([base], [name])| > PAGE_SIZE
    ensures OutcomeOf(start, true, Page([base], [name]), replies) == Chosen(1)
  {
    hide IsDatabaseOf, BestReply, Classes, ScanBases, ScanLinkers, OutcomeOf, InMemory, Accepted, Page;
    SmallDatabase(base, name);
    assert IsOk(replies[0]);
    OutcomeOnWritten(start, Page([base], [name]), [base], [name], replies, 0);
  }
}
