/** The line buffer of an aggregated atomic: the lanes of a group that hit one line are applied either one per
    cycle in ascending order, or in rounds that apply every lane whose word no lower remaining lane still has
    to update. The atomic operator is arbitrary. */
module AmoLine {
  import opened Words

  /** Word offsets and operands of the lanes; the operator is any function of old word and operand. */
  datatype Group = Group(off: seq<nat>, data: seq<word>, op: (word, word) -> word, words: nat)
  {
    ghost predicate Valid() {
      |off| == |data| && forall l | 0 <= l < |off| :: off[l] < words
    }

    predicate Hits(left: set<nat>, l: nat, w: nat) {
      l in left && l < |off| && off[l] == w
    }
  }

  ghost predicate Lanes(g: Group, left: set<nat>) {
    forall l | l in left :: l < |g.off|
  }

  /** Word w after the lanes below n that are in `left` and hit it have been applied in ascending order. */
  ghost function WordAfter(g: Group, line: seq<word>, left: set<nat>, w: nat, n: nat): word
    requires g.Valid() && |line| == g.words && w < g.words && n <= |g.off|
  {
    if n == 0 then line[w]
    else
      var before := WordAfter(g, line, left, w, n - 1);
      if g.Hits(left, n - 1, w) then g.op(before, g.data[n - 1]) else before
  }

  /** The outcome of running the lanes one after another: every lane gets the word as the lower lanes left it. */
  ghost predicate SerialOutcome(g: Group, line: seq<word>, left: set<nat>, line': seq<word>, seen: map<nat, word>,
                                touched: set<nat>)
    requires g.Valid() && |line| == g.words && Lanes(g, left)
  {
    && |line'| == g.words
    && (forall w: nat | w < g.words :: line'[w] == WordAfter(g, line, left, w, |g.off|))
    && seen.Keys == left
    && (forall l | l in left :: seen[l] == WordAfter(g, line, left, g.off[l], l))
    && touched == set l | l in left :: g.off[l]
  }

  // ----- one round -----

  /** The lanes a parallel round applies. */
  function RoundLanes(g: Group, left: set<nat>): set<nat>
    requires g.Valid() && Lanes(g, left)
  {
    set l | l in left && forall j | j in left && j < l :: g.off[j] != g.off[l]
  }

  /** No lane of `left` below n hits w: the word is untouched so far. */
  lemma {:induction false} Untouched(g: Group, line: seq<word>, left: set<nat>, w: nat, n: nat)
    requires g.Valid() && |line| == g.words && w < g.words && n <= |g.off|
    requires forall l: nat | l < n :: !g.Hits(left, l, w)
    ensures WordAfter(g, line, left, w, n) == line[w]
  {
    if n > 0 {
      Untouched(g, line, left, w, n - 1);
    }
  }

  /** Doing the first hit of w now or in its turn makes no difference to anything above it. */
  lemma {:induction false} RoundKeepsWord(g: Group, line: seq<word>, line': seq<word>, left: set<nat>, left': set<nat>,
                                          w: nat, first: nat, n: nat)
    requires g.Valid() && |line| == |line'| == g.words && w < g.words && first < n <= |g.off|
    requires g.Hits(left, first, w) && forall j: nat | j < first :: !g.Hits(left, j, w)
    requires line'[w] == g.op(line[w], g.data[first])
    requires forall j: nat :: g.Hits(left', j, w) <==> g.Hits(left, j, w) && j != first
    ensures WordAfter(g, line', left', w, n) == WordAfter(g, line, left, w, n)
    decreases n
  {
    if n == first + 1 {
      Untouched(g, line, left, w, first);
      Untouched(g, line', left', w, n);
    } else {
      RoundKeepsWord(g, line, line', left, left', w, first, n - 1);
    }
  }

  lemma {:induction false} SameWord(g: Group, line: seq<word>, line': seq<word>, left: set<nat>, left': set<nat>, w: nat, n: nat)
    requires g.Valid() && |line| == |line'| == g.words && w < g.words && n <= |g.off|
    requires line'[w] == line[w] && forall j: nat :: g.Hits(left', j, w) <==> g.Hits(left, j, w)
    ensures WordAfter(g, line', left', w, n) == WordAfter(g, line, left, w, n)
    decreases n
  {
    if n > 0 {
      SameWord(g, line, line', left, left', w, n - 1);
    }
  }

  /** The lowest remaining lane on a word is in the round, and it is the only one. */
  lemma {:induction false} FirstHit(g: Group, left: set<nat>, w: nat, n: nat) returns (first: nat)
    requires g.Valid() && Lanes(g, left) && g.Hits(left, n, w)
    ensures first <= n && g.Hits(left, first, w) && forall j: nat | j < first :: !g.Hits(left, j, w)
    ensures forall l | l in RoundLanes(g, left) && g.off[l] == w :: l == first
    ensures first in RoundLanes(g, left)
    decreases n
  {
    if j: nat :| j < n && g.Hits(left, j, w) {
      first := FirstHit(g, left, w, j);
    } else {
      first := n;
      forall j | j in left && j < first
        ensures g.off[j] != w
      {
        assert !g.Hits(left, j, w);
      }
      forall l | l in RoundLanes(g, left) && g.off[l] == w
        ensures l == first
      {
        assert g.Hits(left, l, w);
      }
    }
  }

  /** What a set of applied lanes must satisfy to be a sound step: at most one per word, always the lowest. */
  ghost predicate SoundRound(g: Group, left: set<nat>, round: set<nat>)
    requires g.Valid() && Lanes(g, left)
  {
    round <= left && forall l, j | l in round && j in left && g.off[j] == g.off[l] :: l <= j
  }

  /** The line after a round: each applied lane updates its own word. */
  ghost predicate RoundLine(g: Group, line: seq<word>, round: set<nat>, line': seq<word>)
    requires g.Valid() && |line| == g.words && Lanes(g, round)
  {
    && |line'| == g.words
    && (forall l | l in round :: line'[g.off[l]] == g.op(line[g.off[l]], g.data[l]))
    && (forall w: nat | w < g.words && (forall l | l in round :: g.off[l] != w) :: line'[w] == line[w])
  }

  /** A sound round followed by the serial outcome of the rest is the serial outcome of all. */
  lemma RoundThenSerial(g: Group, line: seq<word>, left: set<nat>, round: set<nat>, line': seq<word>)
    requires g.Valid() && |line| == g.words && Lanes(g, left)
    requires SoundRound(g, left, round) && RoundLine(g, line, round, line')
    ensures forall w: nat | w < g.words :: WordAfter(g, line', left - round, w, |g.off|) == WordAfter(g, line, left, w, |g.off|)
    ensures forall l | l in left - round :: WordAfter(g, line', left - round, g.off[l], l) == WordAfter(g, line, left, g.off[l], l)
    ensures forall l | l in round :: line[g.off[l]] == WordAfter(g, line, left, g.off[l], l)
  {
    forall w: nat, n: nat | w < g.words && n <= |g.off|
      ensures (n == |g.off| || g.Hits(left - round, n, w)) ==>
                WordAfter(g, line', left - round, w, n) == WordAfter(g, line, left, w, n)
    {
      if n == |g.off| || g.Hits(left - round, n, w) {
        RoundWord(g, line, left, round, line', w, n);
      }
    }
    forall l | l in left - round
      ensures WordAfter(g, line', left - round, g.off[l], l) == WordAfter(g, line, left, g.off[l], l)
    {
      assert g.Hits(left - round, l, g.off[l]);
    }
    forall l | l in round
      ensures line[g.off[l]] == WordAfter(g, line, left, g.off[l], l)
    {
      Untouched(g, line, left, g.off[l], l);
    }
  }

  lemma RoundWord(g: Group, line: seq<word>, left: set<nat>, round: set<nat>, line': seq<word>, w: nat, n: nat)
    requires g.Valid() && |line| == g.words && Lanes(g, left) && w < g.words && n <= |g.off|
    requires SoundRound(g, left, round) && RoundLine(g, line, round, line')
    requires n == |g.off| || g.Hits(left - round, n, w)
    ensures WordAfter(g, line', left - round, w, n) == WordAfter(g, line, left, w, n)
  {
    if first :| first in round && g.off[first] == w {
      RoundKeepsWord(g, line, line', left, left - round, w, first, n);
    } else {
      SameWord(g, line, line', left, left - round, w, n);
    }
  }

  // ----- counting rounds -----

  ghost function HitsOn(g: Group, left: set<nat>, w: nat): set<nat>
    requires g.Valid() && Lanes(g, left)
  {
    set l | l in left && g.off[l] == w
  }

  /** k is the largest number of remaining lanes that share a word. */
  ghost predicate MostHits(g: Group, left: set<nat>, k: nat)
    requires g.Valid() && Lanes(g, left)
  {
    && (forall w: nat :: |HitsOn(g, left, w)| <= k)
    && (left != {} ==> exists w: nat :: |HitsOn(g, left, w)| == k)
    && (left == {} ==> k == 0)
  }

  /** A parallel round takes one lane off every word that still has any. */
  lemma RoundTakesOne(g: Group, left: set<nat>, w: nat)
    requires g.Valid() && Lanes(g, left)
    ensures Lanes(g, left - RoundLanes(g, left))
    ensures |HitsOn(g, left - RoundLanes(g, left), w)| ==
            if HitsOn(g, left, w) == {} then 0 else |HitsOn(g, left, w)| - 1
  {
    var rest := left - RoundLanes(g, left);
    if l :| l in HitsOn(g, left, w) {
      var first := FirstHit(g, left, w, l);
      assert HitsOn(g, rest, w) == HitsOn(g, left, w) - {first};
    } else {
      assert HitsOn(g, rest, w) <= HitsOn(g, left, w);
    }
  }

  /** One round brings the maximum down by one. */
  lemma MostHitsStep(g: Group, left: set<nat>, k: nat)
    requires g.Valid() && Lanes(g, left) && left != {}
    ensures Lanes(g, left - RoundLanes(g, left))
    ensures MostHits(g, left - RoundLanes(g, left), k) ==> MostHits(g, left, k + 1)
  {
    var rest := left - RoundLanes(g, left);
    if MostHits(g, rest, k) {
      forall w: nat
        ensures |HitsOn(g, left, w)| <= k + 1
      {
        RoundTakesOne(g, left, w);
      }
      var l :| l in left;
      var w: nat;
      if rest != {} {
        w :| |HitsOn(g, rest, w)| == k;
        if HitsOn(g, left, w) == {} {
          // k is 0 although lanes remain: some word of a remaining lane has more
          var m :| m in rest;
          assert m in HitsOn(g, rest, g.off[m]);
          assert |HitsOn(g, rest, g.off[m])| > 0;
        }
      } else {
        w := g.off[l];
        assert l in HitsOn(g, left, w);
      }
      RoundTakesOne(g, left, w);
      assert |HitsOn(g, left, w)| == k + 1;
    }
  }

  // ----- the two schedules -----

  /** The old words the round's lanes read. */
  function ReadBack(g: Group, line: seq<word>, round: set<nat>, seen: map<nat, word>): (r: map<nat, word>)
    requires g.Valid() && |line| == g.words && Lanes(g, round)
    ensures r.Keys == seen.Keys + round
    ensures forall l | l in round :: r[l] == line[g.off[l]]
    ensures forall l | l in seen && l !in round :: r[l] == seen[l]
  {
    seen + map l | l in round :: line[g.off[l]]
  }

  function Touch(g: Group, round: set<nat>, touched: set<nat>): set<nat>
    requires g.Valid() && Lanes(g, round)
  {
    touched + set l | l in round :: g.off[l]
  }

  /** The new word w of a round. */
  function RoundWordValue(g: Group, line: seq<word>, round: set<nat>, w: nat): word
    requires g.Valid() && |line| == g.words && w < g.words && Lanes(g, round)
  {
    if exists l :: l in round && g.off[l] == w
    then var l := Lowest(g, round, w); g.op(line[w], g.data[l])
    else line[w]
  }

  function Lowest(g: Group, round: set<nat>, w: nat): (l: nat)
    requires g.Valid() && Lanes(g, round) && exists l :: l in round && g.off[l] == w
    ensures l in round && g.off[l] == w
    ensures forall j | j in round && g.off[j] == w :: l <= j
  {
    LowestExists(g, round, w);
    var l :| l in round && g.off[l] == w && forall j | j in round && g.off[j] == w :: l <= j;
    l
  }

  lemma LowestExists(g: Group, round: set<nat>, w: nat)
    requires g.Valid() && Lanes(g, round) && exists l :: l in round && g.off[l] == w
    ensures exists l :: l in round && g.off[l] == w && forall j | j in round && g.off[j] == w :: l <= j
  {
    var l :| l in round && g.off[l] == w;
    assert g.Hits(round, l, w);
    var first := FirstHit(g, round, w, l);
    forall j | j in round && g.off[j] == w
      ensures first <= j
    {
      assert g.Hits(round, j, w);
    }
  }

  /** One cycle, in place: the words of the round's lanes are replaced. */
  method ApplyRound(g: Group, line: array<word>, left: set<nat>, round: set<nat>)
    requires g.Valid() && line.Length == g.words && Lanes(g, left) && SoundRound(g, left, round)
    modifies line
    ensures RoundLine(g, old(line[..]), round, line[..])
  {
    for w := 0 to line.Length
      invariant forall i | 0 <= i < w :: line[i] == RoundWordValue(g, old(line[..]), round, i)
      invariant forall i | w <= i < line.Length :: line[i] == old(line[i])
    {
      if exists l :: l in round && g.off[l] == w {
        var l := Lowest(g, round, w);
        line[w] := g.op(line[w], g.data[l]);
      }
    }
  }

  /** The parallel schedule (APAR = 1): the serial outcome, in as many cycles as the most lanes on one word. */
  method ParallelRounds(g: Group, line: array<word>, group: set<nat>)
    returns (seen: map<nat, word>, touched: set<nat>, rounds: nat)
    requires g.Valid() && line.Length == g.words && Lanes(g, group)
    modifies line
    ensures SerialOutcome(g, old(line[..]), group, line[..], seen, touched)
    ensures MostHits(g, group, rounds)
  {
    hide SerialOutcome, WordAfter, MostHits, RoundLine;
    seen, touched, rounds := map[], {}, 0;
    var left := group;
    ProgressStart(g, line[..], group);
    while left != {}
      invariant left <= group
      invariant InProgress(g, old(line[..]), group, line[..], left, seen, touched)
      invariant forall k: nat :: MostHits(g, left, k) ==> MostHits(g, group, k + rounds)
      decreases left
    {
      var round := RoundLanes(g, left);
      RoundIsSound(g, left);
      RoundNotEmpty(g, left);
      ghost var before := line[..];
      ProgressStep(g, old(line[..]), group, before, left, round, seen, touched);
      seen := ReadBack(g, line[..], round, seen);
      touched := Touch(g, round, touched);
      ApplyRound(g, line, left, round);
      forall k: nat
        ensures MostHits(g, left - round, k) ==> MostHits(g, group, k + (rounds + 1))
      {
        MostHitsStep(g, left, k);
      }
      left := left - round;
      rounds := rounds + 1;
    }
    ProgressDone(g, old(line[..]), group, line[..], left, seen, touched);
    NoHits(g, left);
  }

  lemma NoHits(g: Group, left: set<nat>)
    requires g.Valid() && left == {}
    ensures MostHits(g, left, 0)
  {
  }

  lemma RoundIsSound(g: Group, left: set<nat>)
    requires g.Valid() && Lanes(g, left)
    ensures RoundLanes(g, left) <= left && SoundRound(g, left, RoundLanes(g, left))
  {
  }

  lemma RoundNotEmpty(g: Group, left: set<nat>)
    requires g.Valid() && Lanes(g, left) && left != {}
    ensures RoundLanes(g, left) != {}
  {
    var l :| l in left;
    assert g.Hits(left, l, g.off[l]);
    var first := FirstHit(g, left, g.off[l], l);
  }

  /** The serial schedule (APAR = 0): the lowest remaining lane each cycle. */
  method SerialRounds(g: Group, line: array<word>, group: set<nat>)
    returns (seen: map<nat, word>, touched: set<nat>, cycles: nat)
    requires g.Valid() && line.Length == g.words && Lanes(g, group)
    modifies line
    ensures SerialOutcome(g, old(line[..]), group, line[..], seen, touched)
    ensures cycles == |group|
  {
    hide SerialOutcome, WordAfter, RoundLine, InProgress;
    seen, touched, cycles := map[], {}, 0;
    var left := group;
    ProgressStart(g, line[..], group);
    for lane := 0 to |g.off|
      invariant left == set l | l in group && l >= lane
      invariant InProgress(g, old(line[..]), group, line[..], left, seen, touched)
      invariant cycles == |group| - |left|
    {
      var next := set l | l in group && l >= lane + 1;
      if lane in left {
        assert next == left - {lane};
        ProgressStep(g, old(line[..]), group, line[..], left, {lane}, seen, touched);
        seen := ReadBack(g, line[..], {lane}, seen);
        touched := Touch(g, {lane}, touched);
        ApplyRound(g, line, left, {lane});
        cycles := cycles + 1;
      }
      assert lane !in left ==> next == left;
      left := next;
    }
    assert left == {};
    ProgressDone(g, old(line[..]), group, line[..], left, seen, touched);
  }

  /** Applying the remaining lanes serially from here gives the serial outcome of the whole group; the lanes
      already applied have their old words. */
  ghost predicate InProgress(g: Group, line0: seq<word>, group: set<nat>, line: seq<word>, left: set<nat>,
                             seen: map<nat, word>, touched: set<nat>)
  {
    && g.Valid() && |line0| == |line| == g.words && Lanes(g, group) && left <= group
    && (forall w: nat | w < g.words :: WordAfter(g, line, left, w, |g.off|) == WordAfter(g, line0, group, w, |g.off|))
    && (forall l | l in left :: WordAfter(g, line, left, g.off[l], l) == WordAfter(g, line0, group, g.off[l], l))
    && seen.Keys == group - left
    && (forall l | l in group - left :: seen[l] == WordAfter(g, line0, group, g.off[l], l))
    && touched == set l | l in group - left :: g.off[l]
  }

  lemma ProgressStart(g: Group, line: seq<word>, group: set<nat>)
    requires g.Valid() && |line| == g.words && Lanes(g, group)
    ensures InProgress(g, line, group, line, group, map[], {})
  {
  }

  /** Whatever line a sound round leaves, the schedule is one round further. */
  lemma ProgressStep(g: Group, line0: seq<word>, group: set<nat>, line: seq<word>, left: set<nat>, round: set<nat>,
                     seen: map<nat, word>, touched: set<nat>)
    requires InProgress(g, line0, group, line, left, seen, touched) && SoundRound(g, left, round)
    ensures forall line' | RoundLine(g, line, round, line') ::
              InProgress(g, line0, group, line', left - round, ReadBack(g, line, round, seen), Touch(g, round, touched))
  {
    forall line' | RoundLine(g, line, round, line')
      ensures InProgress(g, line0, group, line', left - round, ReadBack(g, line, round, seen), Touch(g, round, touched))
    {
      RoundThenSerial(g, line, left, round, line');
    }
  }

  lemma ProgressDone(g: Group, line0: seq<word>, group: set<nat>, line: seq<word>, left: set<nat>,
                     seen: map<nat, word>, touched: set<nat>)
    requires InProgress(g, line0, group, line, left, seen, touched) && left == {}
    ensures SerialOutcome(g, line0, group, line, seen, touched)
  {
    forall w: nat | w < g.words
      ensures line[w] == WordAfter(g, line, left, w, |g.off|)
    {
      Untouched(g, line, left, w, |g.off|);
    }
    assert group - left == group;
  }

  /** The two schedules leave the same line, the same old words and the same byte enables. */
  lemma OutcomeUnique(g: Group, line: seq<word>, left: set<nat>, a: seq<word>, s: map<nat, word>, t: set<nat>,
                      b: seq<word>, s': map<nat, word>, t': set<nat>)
    requires g.Valid() && |line| == g.words && Lanes(g, left)
    requires SerialOutcome(g, line, left, a, s, t) && SerialOutcome(g, line, left, b, s', t')
    ensures a == b && s == s' && t == t'
  {
  }
}
