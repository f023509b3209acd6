/**
  The per-simulation kernel of Euler253.cpp and Euler253Random123.cpp: the pieces 1 .. n of
  a caterpillar are placed in a shuffled order, and after each placement the number of
  segments (maximal runs of consecutive placed pieces) is updated from the two neighbours of
  the new piece; the simulation reports the largest number of segments seen. The Random123
  variant shuffles with Fisher-Yates, taking one random word per position.
 */
module Segments {

  // ---------------------------------------------------------------------------
  // Runs of placed pieces

  /** Slot `i` holds a placed piece whose left neighbour is not placed: a run begins here. */
  predicate StartsRun(s: seq<bool>, i: int)
    requires 0 <= i < |s|
  {
    s[i] && (i == 0 || !s[i - 1])
  }

  /** The number of runs beginning in slots 0 .. k - 1. */
  function Starts(s: seq<bool>, k: nat): nat
    requires k <= |s|
  {
    if k == 0 then 0 else Starts(s, k - 1) + (if StartsRun(s, k - 1) then 1 else 0)
  }

  /** The number of maximal runs of placed slots. */
  function RunCount(s: seq<bool>): nat {
    Starts(s, |s|)
  }

  /** How a run start in slot `i` differs between `s` and `t`. */
  function StartChange(s: seq<bool>, t: seq<bool>, i: int): int
    requires |s| == |t|
  {
    if 0 <= i < |s| then (if StartsRun(t, i) then 1 else 0) - (if StartsRun(s, i) then 1 else 0) else 0
  }

  /** When `s` and `t` have the same run starts except in slots p and p + 1, their counts
      differ by the changes there. */
  lemma {:induction false} StartsChange(s: seq<bool>, t: seq<bool>, p: nat, k: nat)
    requires |s| == |t| && k <= |s|
    requires forall i :: 0 <= i < |s| && i != p && i != p + 1 ==> StartsRun(s, i) == StartsRun(t, i)
    ensures Starts(t, k) - Starts(s, k) ==
      (if p < k then StartChange(s, t, p) else 0) + (if p + 1 < k then StartChange(s, t, p + 1) else 0)
  {
    if k > 0 {
      StartsChange(s, t, p, k - 1);
    }
  }

  /** The change in the segment count the source applies for the two neighbours of a newly
      placed piece: one fewer when both are placed, one more when neither is. */
  function Delta(left: bool, right: bool): int {
    if left && right then -1 else if !left && !right then 1 else 0
  }

  /** Placing a piece in an empty slot changes the number of runs by exactly
      `Delta(left neighbour, right neighbour)`; a slot past the end counts as empty. */
  lemma PlaceDelta(s: seq<bool>, p: nat)
    requires 1 <= p < |s| && !s[p]
    ensures RunCount(s[p := true]) == RunCount(s) + Delta(s[p - 1], p + 1 < |s| && s[p + 1])
  {
    var t := s[p := true];
    forall i | 0 <= i < |s| && i != p && i != p + 1
      ensures StartsRun(s, i) == StartsRun(t, i)
    {
      if i > 0 {
        assert t[i - 1] == s[i - 1];
      }
    }
    StartsChange(s, t, p, |s|);
  }

  /** Slots 1 .. n placed and nothing else form one run (none when n is 0). */
  lemma {:induction false} BlockRuns(s: seq<bool>, n: nat, k: nat)
    requires |s| >= n + 1 && k <= |s|
    requires forall i :: 0 <= i < |s| ==> s[i] == (1 <= i <= n)
    ensures Starts(s, k) == if n >= 1 && k >= 2 then 1 else 0
  {
    if k > 0 {
      BlockRuns(s, n, k - 1);
    }
  }

  // ---------------------------------------------------------------------------
  // The segment-counting loop, as written

  datatype Tally = Tally(segments: int, maxSegments: int)

  function Max(a: int, b: int): int {
    if a >= b then a else b
  }

  /** The value read at `placed[i]`. A read past the end of the vector is undefined in the
      source; it returns whatever `beyond` says. */
  function ReadSlot(placed: seq<bool>, i: nat, beyond: bool): bool {
    if i < |placed| then placed[i] else beyond
  }

  /** One pass of the loop body: mark the piece placed, then adjust the segment count from
      its neighbours and the maximum from the new count. */
  function Place(placed: seq<bool>, t: Tally, piece: nat, beyond: bool): (seq<bool>, Tally)
    requires 1 <= piece < |placed|
  {
    var placed' := placed[piece := true];
    var left, right := placed'[piece - 1], ReadSlot(placed', piece + 1, beyond);
    var segments := if left && right then t.segments - 1 else if !left && !right then t.segments + 1 else t.segments;
    (placed', Tally(segments, Max(t.maxSegments, segments)))
  }

  /** Every piece names a slot of `placed` other than slot 0. */
  predicate InSlots(pieces: seq<int>, size: nat) {
    forall k :: 0 <= k < |pieces| ==> 1 <= pieces[k] < size
  }

  /** The loop over the remaining pieces. */
  function Play(pieces: seq<int>, placed: seq<bool>, t: Tally, beyond: bool): Tally
    requires InSlots(pieces, |placed|)
    decreases |pieces|
  {
    if pieces == [] then t
    else
      var next := Place(placed, t, pieces[0], beyond);
      Play(pieces[1..], next.0, next.1, beyond)
  }

  function Unplaced(size: nat): (s: seq<bool>)
    ensures |s| == size && forall i :: 0 <= i < size ==> !s[i]
  {
    seq(size, i => false)
  }

  /** One simulation as written: `placed` has n + 1 slots, so placing piece n reads slot
      n + 1, which does not exist. */
  function SimulateAsWritten(pieces: seq<int>, n: nat, beyond: bool): Tally
    requires InSlots(pieces, n + 1)
  {
    Play(pieces, Unplaced(n + 1), Tally(0, 0), beyond)
  }

  // ---------------------------------------------------------------------------
  // What the loop is meant to compute

  /** The slots after placing `pieces` one after another. */
  function PlaceAll(placed: seq<bool>, pieces: seq<int>): (r: seq<bool>)
    requires InSlots(pieces, |placed|)
    ensures |r| == |placed|
    decreases |pieces|
  {
    if pieces == [] then placed else PlaceAll(placed[pieces[0] := true], pieces[1..])
  }

  /** The largest number of runs after some non-empty prefix of `pieces` is placed; 0 when
      there are no pieces. */
  function Peak(pieces: seq<int>, placed: seq<bool>): nat
    requires InSlots(pieces, |placed|)
    decreases |pieces|
  {
    if pieces == [] then 0
    else
      var placed' := placed[pieces[0] := true];
      var here, later := RunCount(placed'), Peak(pieces[1..], placed');
      if here >= later then here else later
  }

  predicate Distinct(pieces: seq<int>) {
    forall k, l :: 0 <= k < l < |pieces| ==> pieces[k] != pieces[l]
  }

  /** A slot is placed after `PlaceAll` exactly when it was placed before or is one of the
      pieces. */
  lemma {:induction false} PlaceAllSpec(placed: seq<bool>, pieces: seq<int>, i: nat)
    requires InSlots(pieces, |placed|) && i < |placed|
    ensures PlaceAll(placed, pieces)[i] == (placed[i] || i in pieces)
    decreases |pieces|
  {
    if pieces != [] {
      PlaceAllSpec(placed[pieces[0] := true], pieces[1..], i);
      assert i in pieces <==> i == pieces[0] || i in pieces[1..];
    }
  }

  /** As long as the read past the end returns "not placed" (or never happens), the loop
      keeps the segment count equal to the number of runs and the maximum equal to the peak
      of the run counts. */
  lemma {:induction false} PlayTracksRuns(pieces: seq<int>, placed: seq<bool>, t: Tally, beyond: bool)
    requires InSlots(pieces, |placed|) && Distinct(pieces)
    requires forall k :: 0 <= k < |pieces| ==> !placed[pieces[k]]
    requires beyond ==> forall k :: 0 <= k < |pieces| ==> pieces[k] + 1 < |placed|
    requires t.segments == RunCount(placed) && t.maxSegments >= 0
    ensures Play(pieces, placed, t, beyond) ==
      Tally(RunCount(PlaceAll(placed, pieces)), Max(t.maxSegments, Peak(pieces, placed)))
    decreases |pieces|
  {
    if pieces != [] {
      var p := pieces[0];
      var placed' := placed[p := true];
      PlaceDelta(placed, p);
      assert ReadSlot(placed', p + 1, beyond) == (p + 1 < |placed| && placed[p + 1]);
      var next := Place(placed, t, p, beyond);
      assert next.0 == placed';
      assert next.1.segments == RunCount(placed');
      var rest := pieces[1..];
      forall k | 0 <= k < |rest|
        ensures !placed'[rest[k]]
      {
        assert rest[k] == pieces[k + 1] != p;
      }
      PlayTracksRuns(rest, placed', next.1, beyond);
    }
  }

  // ---------------------------------------------------------------------------
  // Permutations of 1 .. n

  /** `std::iota(pieces.begin(), pieces.end(), 1)`: the pieces 1 .. n in order. */
  function Iota(n: nat): (s: seq<int>)
    ensures |s| == n && forall i :: 0 <= i < n ==> s[i] == i + 1
  {
    seq(n, i => i + 1)
  }

  lemma {:induction false} IotaCount(n: nat, v: int)
    ensures multiset(Iota(n))[v] == if 1 <= v <= n then 1 else 0
  {
    if n > 0 {
      IotaCount(n - 1, v);
      assert Iota(n) == Iota(n - 1) + [n];
    }
  }

  /** `pieces` is an ordering of 1 .. n. */
  predicate IsPermutation(pieces: seq<int>, n: nat) {
    multiset(pieces) == multiset(Iota(n))
  }

  lemma TwiceCounted(pieces: seq<int>, k: nat, l: nat)
    requires k < l < |pieces| && pieces[k] == pieces[l]
    ensures multiset(pieces)[pieces[l]] >= 2
  {
    var v := pieces[l];
    assert pieces == pieces[..l] + [v] + pieces[l + 1..];
    assert pieces[..l][k] == v;
    assert v in multiset(pieces[..l]);
  }

  /** An ordering of 1 .. n has n entries, each in 1 .. n, no two alike, and every piece
      1 .. n among them. */
  lemma PermutationFacts(pieces: seq<int>, n: nat)
    requires IsPermutation(pieces, n)
    ensures |pieces| == n && InSlots(pieces, n + 1) && Distinct(pieces)
    ensures forall v :: 1 <= v <= n ==> v in pieces
  {
    assert |multiset(pieces)| == |multiset(Iota(n))|;
    forall k | 0 <= k < |pieces|
      ensures 1 <= pieces[k] <= n
    {
      assert pieces[k] in multiset(pieces);
      IotaCount(n, pieces[k]);
    }
    forall k, l | 0 <= k < l < |pieces|
      ensures pieces[k] != pieces[l]
    {
      if pieces[k] == pieces[l] {
        TwiceCounted(pieces, k, l);
        IotaCount(n, pieces[l]);
      }
    }
    forall v | 1 <= v <= n
      ensures v in pieces
    {
      IotaCount(n, v);
      assert v in multiset(pieces);
    }
  }

  /** Once every piece of an ordering of 1 .. n is placed, slots 1 .. n are placed and the
      rest are not. */
  lemma AllPlaced(pieces: seq<int>, n: nat, size: nat)
    requires IsPermutation(pieces, n) && size >= n + 1
    ensures InSlots(pieces, size)
    ensures forall i :: 0 <= i < size ==> PlaceAll(Unplaced(size), pieces)[i] == (1 <= i <= n)
    ensures RunCount(PlaceAll(Unplaced(size), pieces)) == if n >= 1 then 1 else 0
  {
    PermutationFacts(pieces, n);
    var s := PlaceAll(Unplaced(size), pieces);
    forall i | 0 <= i < size
      ensures s[i] == (1 <= i <= n)
    {
      PlaceAllSpec(Unplaced(size), pieces, i);
    }
    BlockRuns(s, n, size);
  }

  // ---------------------------------------------------------------------------
  // The as-written loop against the intended counts

  /** When the read past the end returns "not placed", the as-written simulation ends with
      one segment and reports the peak number of runs. */
  lemma AsWrittenWithClearSlot(pieces: seq<int>, n: nat)
    requires IsPermutation(pieces, n)
    ensures InSlots(pieces, n + 1) && InSlots(pieces, n + 2)
    ensures SimulateAsWritten(pieces, n, false) == Tally(if n >= 1 then 1 else 0, Peak(pieces, Unplaced(n + 1)))
    ensures Peak(pieces, Unplaced(n + 1)) == Peak(pieces, Unplaced(n + 2))
  {
    PermutationFacts(pieces, n);
    AllPlaced(pieces, n, n + 1);
    BlockRuns(Unplaced(n + 1), 0, n + 1);
    PlayTracksRuns(pieces, Unplaced(n + 1), Tally(0, 0), false);
    assert Unplaced(n + 2) == Unplaced(n + 1) + [false];
    PeakPadded(pieces, Unplaced(n + 1));
  }

  /** An empty slot added past the end starts no run and changes no earlier run start. */
  lemma {:induction false} StartsPadded(s: seq<bool>, k: nat)
    requires k <= |s|
    ensures Starts(s + [false], k) == Starts(s, k)
  {
    if k > 0 {
      StartsPadded(s, k - 1);
      assert (s + [false])[k - 1] == s[k - 1];
      if k > 1 {
        assert (s + [false])[k - 2] == s[k - 2];
      }
    }
  }

  /** An extra never-placed slot past the end changes neither the run count after any
      prefix of the pieces nor their peak. */
  lemma {:induction false} PeakPadded(pieces: seq<int>, s: seq<bool>)
    requires InSlots(pieces, |s|)
    ensures InSlots(pieces, |s| + 1)
    ensures RunCount(s + [false]) == RunCount(s)
    ensures Peak(pieces, s + [false]) == Peak(pieces, s)
    decreases |pieces|
  {
    StartsPadded(s, |s|);
    if pieces != [] {
      var s' := s[pieces[0] := true];
      assert (s + [false])[pieces[0] := true] == s' + [false];
      StartsPadded(s', |s'|);
      PeakPadded(pieces[1..], s');
    }
  }

  /** When the read past the end returns "placed", a single piece is taken to touch a run that
      is not there: the simulation of one piece reports no segments at all. */
  lemma AsWrittenStraySlotCounterexample()
    ensures IsPermutation([1], 1)
    ensures SimulateAsWritten([1], 1, true) == Tally(0, 0)
    ensures RunCount(PlaceAll(Unplaced(3), [1])) == 1
  {
    assert Iota(1) == [1];
    AllPlaced([1], 1, 3);
  }

  // ---------------------------------------------------------------------------
  // The intended loop, with slot n + 1 allocated

  lemma {:induction false} PlaceAllSnoc(placed: seq<bool>, pieces: seq<int>, p: int)
    requires InSlots(pieces, |placed|) && 1 <= p < |placed|
    ensures InSlots(pieces + [p], |placed|)
    ensures PlaceAll(placed, pieces + [p]) == PlaceAll(placed, pieces)[p := true]
    decreases |pieces|
  {
    if pieces == [] {
      assert [p][1..] == [];
    } else {
      assert (pieces + [p])[1..] == pieces[1..] + [p];
      PlaceAllSnoc(placed[pieces[0] := true], pieces[1..], p);
    }
  }

  lemma {:induction false} PeakSnoc(placed: seq<bool>, pieces: seq<int>, p: int)
    requires InSlots(pieces, |placed|) && 1 <= p < |placed|
    ensures InSlots(pieces + [p], |placed|)
    ensures Peak(pieces + [p], placed) == Max(Peak(pieces, placed), RunCount(PlaceAll(placed, pieces + [p])))
    decreases |pieces|
  {
    if pieces == [] {
      assert [p][1..] == [];
    } else {
      assert (pieces + [p])[1..] == pieces[1..] + [p];
      PeakSnoc(placed[pieces[0] := true], pieces[1..], p);
    }
  }

  /** The peak is at least the run count after every non-empty prefix. */
  lemma {:induction false} PeakBounds(pieces: seq<int>, placed: seq<bool>, k: nat)
    requires InSlots(pieces, |placed|) && 1 <= k <= |pieces|
    ensures RunCount(PlaceAll(placed, pieces[..k])) <= Peak(pieces, placed)
    decreases |pieces|
  {
    if k > 1 {
      assert pieces[..k][1..] == pieces[1..][..k - 1];
      PeakBounds(pieces[1..], placed[pieces[0] := true], k - 1);
    } else {
      assert pieces[..1][1..] == [];
    }
  }

  /** ... and it is the run count after one of them. */
  lemma {:induction false} PeakAttained(pieces: seq<int>, placed: seq<bool>) returns (k: nat)
    requires InSlots(pieces, |placed|) && pieces != []
    ensures 1 <= k <= |pieces| && RunCount(PlaceAll(placed, pieces[..k])) == Peak(pieces, placed)
    decreases |pieces|
  {
    var placed' := placed[pieces[0] := true];
    assert pieces[..1][1..] == [];
    if |pieces| == 1 || RunCount(placed') >= Peak(pieces[1..], placed') {
      k := 1;
    } else {
      var k' := PeakAttained(pieces[1..], placed');
      k := k' + 1;
      assert pieces[..k][1..] == pieces[1..][..k'];
    }
  }

  /** The segment-counting loop with `placed` given n + 2 slots, so that the right neighbour
      of piece n is a real, never placed slot. It keeps `segments` equal to the number of runs
      and `max_segments` equal to their peak; a permutation ends as one segment. */
  method CountSegments(pieces: seq<int>, n: nat) returns (segments: int, maxSegments: int)
    requires IsPermutation(pieces, n)
    ensures segments == if n >= 1 then 1 else 0
    ensures InSlots(pieces, n + 2) && maxSegments == Peak(pieces, Unplaced(n + 2))
    ensures maxSegments >= segments
  {
    PermutationFacts(pieces, n);
    AllPlaced(pieces, n, n + 2);
    BlockRuns(Unplaced(n + 2), 0, n + 2);
    var placed := Unplaced(n + 2);
    segments, maxSegments := 0, 0;
    var j := 0;
    while j < |pieces|
      invariant 0 <= j <= |pieces|
      invariant placed == PlaceAll(Unplaced(n + 2), pieces[..j])
      invariant segments == RunCount(placed)
      invariant maxSegments == Peak(pieces[..j], Unplaced(n + 2))
      invariant maxSegments >= segments
    {
      var piece := pieces[j];
      assert pieces[..j + 1] == pieces[..j] + [piece];
      PlaceAllSpec(Unplaced(n + 2), pieces[..j], piece);
      assert piece !in pieces[..j];
      PlaceDelta(placed, piece);
      PlaceAllSnoc(Unplaced(n + 2), pieces[..j], piece);
      PeakSnoc(Unplaced(n + 2), pieces[..j], piece);
      placed := placed[piece := true];
      if placed[piece - 1] && placed[piece + 1] {
        segments := segments - 1;
      } else if !placed[piece - 1] && !placed[piece + 1] {
        segments := segments + 1;
      }
      maxSegments := Max(maxSegments, segments);
      j := j + 1;
    }
    assert pieces[..j] == pieces;
  }

  // ---------------------------------------------------------------------------
  // The Fisher-Yates shuffle of Euler253Random123.cpp

  /** `r[0] % (j + 1)`: the swap partner of position j, whatever the random word. */
  function RandIndex(word: nat, j: nat): (k: nat)
    ensures k <= j
  {
    word % (j + 1)
  }

  function Swap(s: seq<int>, i: nat, j: nat): (r: seq<int>)
    requires i < |s| && j < |s|
    ensures |r| == |s|
  {
    s[i := s[j]][j := s[i]]
  }

  /** A swap keeps the same pieces. */
  lemma SwapPermutes(s: seq<int>, i: nat, j: nat)
    requires i < |s| && j < |s|
    ensures multiset(Swap(s, i, j)) == multiset(s)
  {
    var t := s[i := s[j]];
    assert multiset(t) == multiset(s) - multiset{s[i]} + multiset{s[j]};
    assert multiset(t[j := s[i]]) == multiset(t) - multiset{t[j]} + multiset{s[i]};
  }

  /** One simulation's shuffle: reset the pieces to 1 .. n, then for j = n - 1 down to 1 swap
      position j with position `word(j) % (j + 1)`. The random words are an arbitrary
      oracle; whatever they are, the result is an ordering of 1 .. n. */
  method Shuffle(n: nat, word: nat -> nat) returns (pieces: seq<int>)
    ensures IsPermutation(pieces, n)
  {
    pieces := Iota(n);
    var j := n - 1;
    while j > 0
      invariant |pieces| == n && j < n
      invariant IsPermutation(pieces, n)
    {
      var k := RandIndex(word(j), j);
      SwapPermutes(pieces, j, k);
      pieces := Swap(pieces, j, k);
      j := j - 1;
    }
  }

  /** One simulation of Euler253Random123.cpp with the intended slot count: shuffle, then
      count; the result is the peak number of segments of the shuffled order. */
  method Simulate(n: nat, word: nat -> nat) returns (pieces: seq<int>, maxSegments: int)
    ensures IsPermutation(pieces, n) && InSlots(pieces, n + 2)
    ensures maxSegments == Peak(pieces, Unplaced(n + 2))
    ensures n >= 1 ==> maxSegments >= 1
  {
    pieces := Shuffle(n, word);
    var segments;
    segments, maxSegments := CountSegments(pieces, n);
  }
}
