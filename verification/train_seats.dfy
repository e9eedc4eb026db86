/** The train-seating puzzle (`TrainSeats.py`): seat `n` passengers one at a
    time in a row of `n` seats, each as far as possible from the occupied
    seats and the ends of the train, then in the largest stretch of empty
    seats, then at the lowest index. Two of the file's generators are
    modelled: the brute-force scan and the heap of gaps. */
module TrainSeats {

  /** The seating orders both generators produce: every seat exactly once. */
  predicate IsPermutation(order: seq<int>, n: nat)
  {
    |order| == n &&
    (forall i :: 0 <= i < n ==> 0 <= order[i] < n) &&
    (forall i, j :: 0 <= i < j < n ==> order[i] != order[j])
  }

  /** Seats taken by a partial order, as the brute force's `seats` list. */
  function Occupied(n: nat, placed: seq<int>): (r: seq<bool>)
    ensures |r| == n && forall x :: 0 <= x < n ==> (r[x] <==> x in placed)
  {
    seq(n, x requires 0 <= x < n => x in placed)
  }

  /** Taking seat `s` marks that one seat in the list and no other, as the
      brute force's `seats[best_seat] = True` does. */
  lemma OccupiedTake(n: nat, placed: seq<int>, s: int)
    requires 0 <= s < n
    ensures Occupied(n, placed + [s]) == Occupied(n, placed)[s := true]
  {
    var a, b := Occupied(n, placed + [s]), Occupied(n, placed)[s := true];
    forall x | 0 <= x < n ensures a[x] == b[x] {
      assert x in placed + [s] <==> x in placed || x == s;
    }
  }

  /** Fewer than `n` distinct seats leave one of the `n` seats free. */
  lemma {:induction false} FreeSeatExists(n: nat, placed: seq<int>)
    requires |placed| < n
    requires forall i :: 0 <= i < |placed| ==> 0 <= placed[i] < n
    requires forall i, j :: 0 <= i < j < |placed| ==> placed[i] != placed[j]
    ensures exists x :: 0 <= x < n && x !in placed
  {
    if n - 1 in placed {
      var j :| 0 <= j < |placed| && placed[j] == n - 1;
      var rest := placed[..j] + placed[j + 1..];
      assert forall i :: 0 <= i < |rest| ==> rest[i] == (if i < j then placed[i] else placed[i + 1]);
      FreeSeatExists(n - 1, rest);
      var x :| 0 <= x < n - 1 && x !in rest;
      forall i | 0 <= i < |placed| ensures placed[i] != x {
        if i < j { assert rest[i] == placed[i]; } else if i > j { assert rest[i - 1] == placed[i]; }
      }
      assert 0 <= x < n && x !in placed;
    }
  }

  // The brute force.

  /** The run of empty seats immediately left of seat `s`, up to an occupied
      seat or the end of the train. */
  function EmptyLeft(seats: seq<bool>, s: int): (r: nat)
    requires 0 <= s <= |seats|
    ensures r <= s
    decreases s
  {
    if s == 0 || seats[s - 1] then 0 else 1 + EmptyLeft(seats, s - 1)
  }

  /** The run is empty and ends at an occupied seat or the front. */
  lemma {:induction false} EmptyLeftSpec(seats: seq<bool>, s: int)
    requires 0 <= s <= |seats|
    ensures var r := EmptyLeft(seats, s);
      (forall k :: s - r <= k < s ==> !seats[k]) && (r < s ==> seats[s - r - 1])
    decreases s
  {
    if s > 0 && !seats[s - 1] {
      EmptyLeftSpec(seats, s - 1);
    }
  }

  /** The run of empty seats immediately right of seat `s`. */
  function EmptyRight(seats: seq<bool>, s: int): (r: nat)
    requires -1 <= s < |seats|
    ensures s + r < |seats|
    decreases |seats| - s
  {
    if s + 1 == |seats| || seats[s + 1] then 0 else 1 + EmptyRight(seats, s + 1)
  }

  /** The run is empty and ends at an occupied seat or the back. */
  lemma {:induction false} EmptyRightSpec(seats: seq<bool>, s: int)
    requires -1 <= s < |seats|
    ensures var r := EmptyRight(seats, s);
      (forall k :: s < k <= s + r ==> !seats[k]) && (s + r + 1 < |seats| ==> seats[s + r + 1])
    decreases |seats| - s
  {
    if s + 1 < |seats| && !seats[s + 1] {
      EmptyRightSpec(seats, s + 1);
    }
  }

  /** A run bounded by an occupied seat or the end is the run. */
  lemma {:induction false} RunLeft(seats: seq<bool>, s: int, m: int)
    requires 0 <= m <= s <= |seats|
    requires forall k :: s - m <= k < s ==> !seats[k]
    requires m == s || seats[s - m - 1]
    ensures EmptyLeft(seats, s) == m
    decreases m
  {
    if m > 0 {
      assert !seats[s - 1];
      RunLeft(seats, s - 1, m - 1);
    }
  }

  lemma {:induction false} RunRight(seats: seq<bool>, s: int, m: int)
    requires -1 <= s && 0 <= m && s + m < |seats|
    requires forall k :: s < k <= s + m ==> !seats[k]
    requires s + m + 1 == |seats| || seats[s + m + 1]
    ensures EmptyRight(seats, s) == m
    decreases m
  {
    if m > 0 {
      assert !seats[s + 1];
      RunRight(seats, s + 1, m - 1);
    }
  }

  /** `(distance to the closest occupied seat or end, size of the gap)`,
      compared as a Python tuple. */
  datatype Score = Score(distance: int, gap: int)

  const NoScore := Score(-1, -1)

  predicate Greater(a: Score, b: Score)
  {
    a.distance > b.distance || (a.distance == b.distance && a.gap > b.gap)
  }

  function Min(a: int, b: int): int
  {
    if a <= b then a else b
  }

  function SeatScore(seats: seq<bool>, s: int): (r: Score)
    requires 0 <= s < |seats|
  {
    var left, right := EmptyLeft(seats, s), EmptyRight(seats, s);
    Score(Min(left, right), left + right)
  }

  /** The seat the puzzle's rules pick: free, with no free seat scoring
      higher, and every free seat of lower index scoring strictly lower. */
  predicate IsChoice(seats: seq<bool>, s: int)
  {
    0 <= s < |seats| && !seats[s] &&
    (forall q {:trigger SeatScore(seats, q)} :: 0 <= q < |seats| && !seats[q] ==> !Greater(SeatScore(seats, q), SeatScore(seats, s))) &&
    (forall q {:trigger SeatScore(seats, q)} :: 0 <= q < s && !seats[q] ==> Greater(SeatScore(seats, s), SeatScore(seats, q)))
  }

  /** The rules leave no choice: at most one seat satisfies them. */
  lemma ChoiceUnique(seats: seq<bool>, s: int, t: int)
    requires IsChoice(seats, s) && IsChoice(seats, t)
    ensures s == t
  {
    assert !Greater(SeatScore(seats, t), SeatScore(seats, s));
    assert !Greater(SeatScore(seats, s), SeatScore(seats, t));
  }

  /** The scans for one free candidate seat: walk left, then right, to the
      nearest occupied seat or the end of the train. */
  method ScanScore(seats: seq<bool>, p: int) returns (score: Score)
    requires 0 <= p < |seats| && !seats[p]
    ensures score == SeatScore(seats, p)
  {
    var left, right := p, p;
    while left >= 0 && !seats[left]
      invariant -1 <= left <= p
      invariant forall k :: left < k <= p ==> !seats[k]
    {
      left := left - 1;
    }
    while right < |seats| && !seats[right]
      invariant p <= right <= |seats|
      invariant forall k :: p <= k < right ==> !seats[k]
    {
      right := right + 1;
    }
    var emptyLeft, emptyRight := p - left - 1, right - p - 1;
    RunLeft(seats, p, emptyLeft);
    RunRight(seats, p, emptyRight);
    score := Score(Min(emptyLeft, emptyRight), emptyLeft + emptyRight);
  }

  /** One round of `bruteForceSeatingGenerator`: score every free seat and
      keep the first with the largest score. `-1` when every seat is taken. */
  method ChooseSeat(seats: seq<bool>) returns (best: int)
    ensures best == -1 <==> forall q :: 0 <= q < |seats| ==> seats[q]
    ensures best != -1 ==> IsChoice(seats, best)
  {
    best := -1;
    var bestScore := NoScore;
    var p := 0;
    while p < |seats|
      invariant 0 <= p <= |seats|
      invariant best == -1 <==> forall q :: 0 <= q < p ==> seats[q]
      invariant best == -1 ==> bestScore == NoScore
      invariant best != -1 ==> 0 <= best < p && !seats[best] && bestScore == SeatScore(seats, best)
      invariant best != -1 ==> forall q {:trigger SeatScore(seats, q)} :: 0 <= q < p && !seats[q] ==> !Greater(SeatScore(seats, q), bestScore)
      invariant best != -1 ==> forall q {:trigger SeatScore(seats, q)} :: 0 <= q < best && !seats[q] ==> Greater(bestScore, SeatScore(seats, q))
    {
      if !seats[p] {
        var score := ScanScore(seats, p);
        if Greater(score, bestScore) {
          best, bestScore := p, score;
        }
      }
      p := p + 1;
    }
  }

  /** What the brute force yields: `n` seats, each the rules' choice given
      the seats taken before it. */
  predicate BruteSpec(n: nat, order: seq<int>)
  {
    |order| == n && forall i :: 0 <= i < n ==> IsChoice(Occupied(n, order[..i]), order[i])
  }

  /** `bruteForceSeatingSequence`. */
  method BruteForceSeating(n: nat) returns (order: seq<int>)
    ensures BruteSpec(n, order)
    ensures IsPermutation(order, n)
  {
    var seats := seq(n, _ => false);
    order := [];
    while |order| < n
      invariant |order| <= n
      invariant seats == Occupied(n, order)
      invariant forall i :: 0 <= i < |order| ==> 0 <= order[i] < n
      invariant forall i, j :: 0 <= i < j < |order| ==> order[i] != order[j]
      invariant forall i :: 0 <= i < |order| ==> IsChoice(Occupied(n, order[..i]), order[i])
    {
      FreeSeatExists(n, order);
      var best := ChooseSeat(seats);
      seats := seats[best := true];
      var next := order + [best];
      assert forall i :: 0 <= i <= |order| ==> next[..i] == order[..i];
      OccupiedTake(n, order, best);
      order := next;
    }
  }

  /** The rules determine the whole order. */
  lemma BruteSpecUnique(n: nat, a: seq<int>, b: seq<int>)
    requires BruteSpec(n, a) && BruteSpec(n, b)
    ensures a == b
  {
    SamePrefix(n, a, b, n);
    assert a == a[..n] && b == b[..n];
  }

  lemma {:induction false} SamePrefix(n: nat, a: seq<int>, b: seq<int>, i: nat)
    requires BruteSpec(n, a) && BruteSpec(n, b) && i <= n
    ensures a[..i] == b[..i]
  {
    if i > 0 {
      SamePrefix(n, a, b, i - 1);
      ChoiceUnique(Occupied(n, a[..i - 1]), a[i - 1], b[i - 1]);
      assert a[..i] == a[..i - 1] + [a[i - 1]] && b[..i] == b[..i - 1] + [b[i - 1]];
    }
  }

  // The heap of gaps.

  /** An open stretch of free seats strictly between `l` and `r`. */
  datatype Gap = Gap(l: int, r: int)

  function Size(g: Gap): int
  {
    g.r - 1 - g.l
  }

  predicate Inside(g: Gap, x: int)
  {
    g.l < x < g.r
  }

  /** `heappop` on `(-size, l, r)` tuples: the biggest gap, leftmost first. */
  predicate NotAfter(a: Gap, b: Gap)
  {
    Size(a) > Size(b) || (Size(a) == Size(b) && (a.l < b.l || (a.l == b.l && a.r <= b.r)))
  }

  function MinFrom(gaps: seq<Gap>, i: nat): (m: nat)
    requires i < |gaps|
    ensures i <= m < |gaps|
    decreases |gaps| - i
  {
    if i + 1 == |gaps| then i
    else
      var m := MinFrom(gaps, i + 1);
      if NotAfter(gaps[i], gaps[m]) then i else m
  }

  /** The entry found comes no later in heap order than any other. */
  lemma {:induction false} MinFromSpec(gaps: seq<Gap>, i: nat)
    requires i < |gaps|
    ensures forall j :: i <= j < |gaps| ==> NotAfter(gaps[MinFrom(gaps, i)], gaps[j])
    decreases |gaps| - i
  {
    if i + 1 < |gaps| {
      MinFromSpec(gaps, i + 1);
    }
  }

  /** Seating in the middle of a gap, rounded down, and the two gaps left. */
  function Split(g: Gap): (r: (int, Gap, Gap))
    ensures r.1 == Gap(g.l, r.0) && r.2 == Gap(r.0, g.r)
    ensures Size(r.1) + Size(r.2) == Size(g) - 1
    ensures Size(g) >= 1 ==> g.l < r.0 < g.r
    ensures Size(g) >= 0 ==> 0 <= Size(r.2) - Size(r.1) <= 1
  {
    var s := (g.l + g.r) / 2;
    (s, Gap(g.l, s), Gap(s, g.r))
  }

  /** The heap without its popped entry. */
  function RemoveAt(gaps: seq<Gap>, m: nat): (r: seq<Gap>)
    requires m < |gaps|
    ensures |r| == |gaps| - 1
    ensures forall i :: 0 <= i < |r| ==> r[i] == gaps[if i < m then i else i + 1]
  {
    gaps[..m] + gaps[m + 1..]
  }

  /** One round of `heapSeatingGenerator`: pop the first gap, seat in its
      middle, push both halves, including empty ones. */
  function HeapStep(gaps: seq<Gap>): (r: (int, seq<Gap>))
    requires |gaps| > 0
    ensures |r.1| == |gaps| + 1
  {
    var m := MinFrom(gaps, 0);
    var (s, left, right) := Split(gaps[m]);
    (s, RemoveAt(gaps, m) + [left, right])
  }

  /** `k` rounds of the heap; each round seats one passenger, the first in
      the middle of a biggest gap. */
  function HeapRun(gaps: seq<Gap>, k: nat): (r: seq<int>)
    requires |gaps| > 0
    ensures |r| == k
    ensures k >= 1 ==> exists j :: 0 <= j < |gaps| && r[0] == (gaps[j].l + gaps[j].r) / 2 &&
                                 (forall i :: 0 <= i < |gaps| ==> Size(gaps[j]) >= Size(gaps[i]))
    decreases k
  {
    if k == 0 then []
    else
      var (s, rest) := HeapStep(gaps);
      MinFromSpec(gaps, 0);
      [s] + HeapRun(rest, k - 1)
  }

  /** `heapSeatingSequence`: start from the single gap `(-1, n)` of size `n`. */
  function HeapSeating(n: nat): (r: seq<int>)
    ensures |r| == n
  {
    HeapRun([Gap(-1, n)], n)
  }

  /** Some gap holds seat `x`. */
  predicate Covered(gaps: seq<Gap>, x: int)
  {
    exists k :: 0 <= k < |gaps| && Inside(gaps[k], x)
  }

  /** No seat lies in two gaps. */
  ghost predicate Disjoint(gaps: seq<Gap>)
  {
    forall i, j, x :: 0 <= i < |gaps| && 0 <= j < |gaps| && i != j && Inside(gaps[i], x) ==> !Inside(gaps[j], x)
  }

  /** Every gap lies within the train, and each end is a taken seat or an
      end of the train. */
  ghost predicate GapsBounded(n: nat, gaps: seq<Gap>, seated: seq<int>)
  {
    (forall k :: 0 <= k < |gaps| ==> -1 <= gaps[k].l < gaps[k].r <= n) &&
    (forall k :: 0 <= k < |gaps| ==> (gaps[k].l == -1 || gaps[k].l in seated) && (gaps[k].r == n || gaps[k].r in seated))
  }

  /** The heap's state: bounded gaps, distinct seats taken, a seat free
      exactly when some gap holds it, and no seat in two gaps. */
  ghost predicate HeapInv(n: nat, gaps: seq<Gap>, seated: seq<int>)
  {
    GapsBounded(n, gaps, seated) &&
    (forall i :: 0 <= i < |seated| ==> 0 <= seated[i] < n) &&
    (forall i, j :: 0 <= i < j < |seated| ==> seated[i] != seated[j]) &&
    (forall x :: 0 <= x < n ==> (x in seated <==> !Covered(gaps, x))) &&
    Disjoint(gaps)
  }

  /** Splitting a gap at a seat that is then taken keeps the gaps bounded. */
  lemma SplitBounded(n: nat, gaps: seq<Gap>, seated: seq<int>, m: nat, s: int)
    requires GapsBounded(n, gaps, seated) && m < |gaps| && Inside(gaps[m], s)
    ensures GapsBounded(n, RemoveAt(gaps, m) + [Gap(gaps[m].l, s), Gap(s, gaps[m].r)], seated + [s])
  {
    var others := RemoveAt(gaps, m);
    var rest := others + [Gap(gaps[m].l, s), Gap(s, gaps[m].r)];
    forall j | 0 <= j < |rest|
      ensures -1 <= rest[j].l < rest[j].r <= n
      ensures (rest[j].l == -1 || rest[j].l in seated + [s]) && (rest[j].r == n || rest[j].r in seated + [s])
    {
      if j < |others| {
        assert rest[j] == gaps[if j < m then j else j + 1];
      }
    }
  }

  /** The two halves of a split gap together hold the gap's other seats. */
  lemma PiecesCover(gaps: seq<Gap>, m: nat, s: int, x: int)
    requires m < |gaps| && Inside(gaps[m], s) && x != s
    ensures Covered(RemoveAt(gaps, m) + [Gap(gaps[m].l, s), Gap(s, gaps[m].r)], x) <==> Covered(gaps, x)
  {
    var others := RemoveAt(gaps, m);
    var rest := others + [Gap(gaps[m].l, s), Gap(s, gaps[m].r)];
    if Covered(gaps, x) {
      var k :| 0 <= k < |gaps| && Inside(gaps[k], x);
      if k < m {
        assert Inside(rest[k], x);
      } else if k > m {
        assert Inside(rest[k - 1], x);
      } else if x < s {
        assert Inside(rest[|others|], x);
      } else {
        assert Inside(rest[|others| + 1], x);
      }
    }
    if Covered(rest, x) {
      var j :| 0 <= j < |rest| && Inside(rest[j], x);
      if j < |others| {
        assert Inside(gaps[if j < m then j else j + 1], x);
      } else {
        assert Inside(gaps[m], x);
      }
    }
  }

  /** The seat taken from a gap is in no gap afterwards. */
  lemma SeatUncovered(gaps: seq<Gap>, m: nat, s: int)
    requires m < |gaps| && Inside(gaps[m], s) && Disjoint(gaps)
    ensures !Covered(RemoveAt(gaps, m) + [Gap(gaps[m].l, s), Gap(s, gaps[m].r)], s)
  {
    var others := RemoveAt(gaps, m);
    var rest := others + [Gap(gaps[m].l, s), Gap(s, gaps[m].r)];
    forall j | 0 <= j < |rest| ensures !Inside(rest[j], s) {
      if j < |others| {
        var k := if j < m then j else j + 1;
        assert rest[j] == gaps[k] && k != m;
      }
    }
  }

  /** Splitting a gap keeps the gaps disjoint. */
  lemma SplitDisjoint(gaps: seq<Gap>, m: nat, s: int)
    requires m < |gaps| && Inside(gaps[m], s) && Disjoint(gaps)
    ensures Disjoint(RemoveAt(gaps, m) + [Gap(gaps[m].l, s), Gap(s, gaps[m].r)])
  {
    var others := RemoveAt(gaps, m);
    var rest := others + [Gap(gaps[m].l, s), Gap(s, gaps[m].r)];
    forall i, j, y | 0 <= i < |rest| && 0 <= j < |rest| && i != j && Inside(rest[i], y)
      ensures !Inside(rest[j], y)
    {
      var gi := if i < |others| then (if i < m then i else i + 1) else m;
      var gj := if j < |others| then (if j < m then j else j + 1) else m;
      assert Inside(gaps[gi], y);
      assert forall z :: Inside(rest[j], z) ==> Inside(gaps[gj], z);
    }
  }

  /** While seats are left, the popped gap holds one. */
  lemma PopNonEmpty(n: nat, gaps: seq<Gap>, seated: seq<int>)
    requires |gaps| > 0 && HeapInv(n, gaps, seated) && |seated| < n
    ensures Size(gaps[MinFrom(gaps, 0)]) >= 1
  {
    FreeSeatExists(n, seated);
    var x :| 0 <= x < n && x !in seated;
    var k :| 0 <= k < |gaps| && Inside(gaps[k], x);
    MinFromSpec(gaps, 0);
    assert NotAfter(gaps[MinFrom(gaps, 0)], gaps[k]);
  }

  /** A step pops a non-empty gap while seats are left, so it seats a new
      passenger inside the train and keeps the state consistent. */
  lemma HeapStepInv(n: nat, gaps: seq<Gap>, seated: seq<int>)
    requires |gaps| > 0 && HeapInv(n, gaps, seated) && |seated| < n
    ensures var (s, rest) := HeapStep(gaps);
      0 <= s < n && s !in seated && HeapInv(n, rest, seated + [s])
  {
    PopNonEmpty(n, gaps, seated);
    var m := MinFrom(gaps, 0);
    var g := gaps[m];
    var (s, left, right) := Split(g);
    var rest := RemoveAt(gaps, m) + [left, right];
    assert HeapStep(gaps) == (s, rest);
    assert Covered(gaps, s);
    SeatUncovered(gaps, m, s);
    SplitDisjoint(gaps, m, s);
    SplitBounded(n, gaps, seated, m, s);
    var seated' := seated + [s];
    forall y | 0 <= y < n && y != s ensures y in seated' <==> !Covered(rest, y) {
      PiecesCover(gaps, m, s, y);
    }
  }

  lemma InvPermutation(n: nat, gaps: seq<Gap>, seated: seq<int>)
    requires HeapInv(n, gaps, seated) && |seated| == n
    ensures IsPermutation(seated, n)
  {
  }

  lemma PermutationAssoc(a: seq<int>, x: int, t: seq<int>, n: nat)
    requires IsPermutation((a + [x]) + t, n)
    ensures IsPermutation(a + ([x] + t), n)
  {
    assert (a + [x]) + t == a + ([x] + t);
  }

  lemma {:induction false} HeapRunPermutation(n: nat, gaps: seq<Gap>, seated: seq<int>, k: nat)
    requires |gaps| > 0 && HeapInv(n, gaps, seated) && |seated| + k == n
    ensures IsPermutation(seated + HeapRun(gaps, k), n)
    decreases k
  {
    if k == 0 {
      assert seated + HeapRun(gaps, k) == seated;
      InvPermutation(n, gaps, seated);
    } else {
      var step := HeapStep(gaps);
      var s, rest := step.0, step.1;
      HeapStepInv(n, gaps, seated);
      assert |rest| > 0;
      HeapRunPermutation(n, rest, seated + [s], k - 1);
      var tail := HeapRun(rest, k - 1);
      assert HeapRun(gaps, k) == [s] + tail;
      PermutationAssoc(seated, s, tail, n);
    }
  }

  /** The heap version seats every passenger exactly once. */
  lemma HeapSeatingPermutation(n: nat)
    ensures IsPermutation(HeapSeating(n), n)
  {
    HeapInvInitial(n);
    HeapRunPermutation(n, [Gap(-1, n)], [], n);
    assert [] + HeapRun([Gap(-1, n)], n) == HeapSeating(n);
  }

  // The heap follows the rules.

  /** The score of seat `q` when the gap `h` around it is all that is free
      nearby. */
  function InGap(h: Gap, q: int): Score
  {
    Score(Min(q - h.l - 1, h.r - q - 1), h.r - h.l - 2)
  }

  /** `gaps` describes the free seats of `seats`: each gap is a run of free
      seats bounded by taken seats or the ends, every free seat lies in a gap,
      and no seat in two. */
  ghost predicate GapsOf(seats: seq<bool>, gaps: seq<Gap>)
  {
    (forall k :: 0 <= k < |gaps| ==> -1 <= gaps[k].l < gaps[k].r <= |seats|) &&
    (forall k :: 0 <= k < |gaps| ==> (gaps[k].l == -1 || seats[gaps[k].l]) && (gaps[k].r == |seats| || seats[gaps[k].r])) &&
    (forall k, x :: 0 <= k < |gaps| && Inside(gaps[k], x) ==> !seats[x]) &&
    (forall x :: 0 <= x < |seats| && !seats[x] ==> Covered(gaps, x)) &&
    Disjoint(gaps)
  }

  /** A free seat's score depends only on the gap that holds it. */
  lemma GapScore(seats: seq<bool>, gaps: seq<Gap>, k: nat, q: int)
    requires GapsOf(seats, gaps) && k < |gaps| && Inside(gaps[k], q)
    ensures 0 <= q < |seats|
    ensures SeatScore(seats, q) == InGap(gaps[k], q)
  {
    var h := gaps[k];
    assert forall x :: h.l < x < h.r ==> !seats[x] by {
      forall x | h.l < x < h.r ensures !seats[x] {
        assert Inside(gaps[k], x);
      }
    }
    RunLeft(seats, q, q - h.l - 1);
    RunRight(seats, q, h.r - q - 1);
  }

  /** The middle seat of a gap scores at least as well as any seat of a gap no
      larger, strictly better than any seat of a smaller gap, and strictly
      better than the seats to its left. */
  lemma MiddleBest(g: Gap, h: Gap, q: int)
    requires Size(g) >= 1 && Inside(h, q) && Size(h) <= Size(g)
    ensures !Greater(InGap(h, q), InGap(g, Split(g).0))
    ensures Size(h) < Size(g) ==> Greater(InGap(g, Split(g).0), InGap(h, q))
    ensures h == g && q < Split(g).0 ==> Greater(InGap(g, Split(g).0), InGap(h, q))
  {
    var s := Split(g).0;
    assert 2 * InGap(g, s).distance <= Size(g) - 1 <= 2 * InGap(g, s).distance + 1;
    assert 2 * InGap(h, q).distance <= Size(h) - 1;
  }

  /** Of two equally large gaps that share no seat, the one the heap orders
      first lies wholly to the left. */
  lemma SameSizeRight(g: Gap, h: Gap, q: int)
    requires Size(g) >= 1 && NotAfter(g, h) && Size(h) == Size(g) && Inside(h, q)
    requires !Inside(g, h.l + 1)
    ensures q > Split(g).0
  {
  }

  /** No free seat beats the middle of the largest, leftmost gap, and every
      free seat left of it scores strictly lower. */
  lemma MiddleBeats(seats: seq<bool>, gaps: seq<Gap>, m: nat, q: int)
    requires GapsOf(seats, gaps) && m < |gaps| && Size(gaps[m]) >= 1
    requires forall k :: 0 <= k < |gaps| ==> NotAfter(gaps[m], gaps[k])
    requires 0 <= q < |seats| && !seats[q]
    ensures 0 <= Split(gaps[m]).0 < |seats|
    ensures !Greater(SeatScore(seats, q), SeatScore(seats, Split(gaps[m]).0))
    ensures q < Split(gaps[m]).0 ==> Greater(SeatScore(seats, Split(gaps[m]).0), SeatScore(seats, q))
  {
    var g := gaps[m];
    var s := Split(g).0;
    GapScore(seats, gaps, m, s);
    assert Covered(gaps, q);
    var k :| 0 <= k < |gaps| && Inside(gaps[k], q);
    var h := gaps[k];
    GapScore(seats, gaps, k, q);
    assert NotAfter(g, h);
    MiddleBest(g, h, q);
    if k != m && Size(h) == Size(g) {
      assert Inside(h, h.l + 1);
      assert !Inside(g, h.l + 1);
      SameSizeRight(g, h, q);
    }
  }

  /** The rules pick the middle of the largest gap, the leftmost one among
      equals. */
  lemma GapChoice(seats: seq<bool>, gaps: seq<Gap>, m: nat)
    requires GapsOf(seats, gaps) && m < |gaps| && Size(gaps[m]) >= 1
    requires forall k :: 0 <= k < |gaps| ==> NotAfter(gaps[m], gaps[k])
    ensures IsChoice(seats, Split(gaps[m]).0)
  {
    var s := Split(gaps[m]).0;
    GapScore(seats, gaps, m, s);
    forall q | 0 <= q < |seats| && !seats[q]
      ensures !Greater(SeatScore(seats, q), SeatScore(seats, s))
      ensures q < s ==> Greater(SeatScore(seats, s), SeatScore(seats, q))
    {
      MiddleBeats(seats, gaps, m, q);
    }
  }

  /** The heap's gaps describe the seats it has taken. */
  lemma HeapGaps(n: nat, gaps: seq<Gap>, seated: seq<int>)
    requires HeapInv(n, gaps, seated)
    ensures GapsOf(Occupied(n, seated), gaps)
  {
    var seats := Occupied(n, seated);
    forall k, x | 0 <= k < |gaps| && Inside(gaps[k], x) ensures !seats[x] {
      assert Covered(gaps, x);
    }
  }

  /** The seat a heap step takes is the rules' choice for the seats taken so
      far. */
  lemma HeapChoice(n: nat, gaps: seq<Gap>, seated: seq<int>)
    requires |gaps| > 0 && HeapInv(n, gaps, seated) && |seated| < n
    ensures IsChoice(Occupied(n, seated), HeapStep(gaps).0)
  {
    PopNonEmpty(n, gaps, seated);
    MinFromSpec(gaps, 0);
    HeapGaps(n, gaps, seated);
    GapChoice(Occupied(n, seated), gaps, MinFrom(gaps, 0));
  }

  /** Each seat of `run` is the rules' choice once `seated` and the seats
      before it in `run` are taken. */
  ghost predicate FollowsRules(n: nat, seated: seq<int>, run: seq<int>)
  {
    forall i :: 0 <= i < |run| ==> IsChoice(Occupied(n, seated + run[..i]), run[i])
  }

  lemma FollowsRulesCons(n: nat, seated: seq<int>, s: int, tail: seq<int>)
    requires IsChoice(Occupied(n, seated), s) && FollowsRules(n, seated + [s], tail)
    ensures FollowsRules(n, seated, [s] + tail)
  {
    var run := [s] + tail;
    forall i | 0 <= i < |run| ensures IsChoice(Occupied(n, seated + run[..i]), run[i]) {
      if i == 0 {
        assert seated + run[..0] == seated;
      } else {
        assert seated + run[..i] == (seated + [s]) + tail[..i - 1];
        assert run[i] == tail[i - 1];
      }
    }
  }

  /** The heap run from a consistent state follows the rules at every step. */
  lemma {:induction false} HeapRunFollowsRules(n: nat, gaps: seq<Gap>, seated: seq<int>, k: nat)
    requires |gaps| > 0 && HeapInv(n, gaps, seated) && |seated| + k == n
    ensures FollowsRules(n, seated, HeapRun(gaps, k))
    decreases k
  {
    if k > 0 {
      var (s, rest) := HeapStep(gaps);
      HeapChoice(n, gaps, seated);
      HeapStepInv(n, gaps, seated);
      HeapRunFollowsRules(n, rest, seated + [s], k - 1);
      var tail := HeapRun(rest, k - 1);
      assert HeapRun(gaps, k) == [s] + tail;
      FollowsRulesCons(n, seated, s, tail);
    }
  }

  /** The heap version seats everyone exactly as the rules say, so it agrees
      with the brute force for every train length. */
  lemma HeapFollowsRules(n: nat)
    ensures BruteSpec(n, HeapSeating(n))
  {
    HeapInvInitial(n);
    HeapRunFollowsRules(n, [Gap(-1, n)], [], n);
    var run := HeapSeating(n);
    forall i | 0 <= i < n ensures IsChoice(Occupied(n, run[..i]), run[i]) {
      assert [] + run[..i] == run[..i];
    }
  }

  lemma HeapInvInitial(n: nat)
    ensures HeapInv(n, [Gap(-1, n)], [])
  {
    var gaps := [Gap(-1, n)];
    forall x | 0 <= x < n ensures Covered(gaps, x) {
      assert Inside(gaps[0], x);
    }
  }

  /** `compare_results`: the brute force and the heap produce the same order. */
  lemma BruteForceMatchesHeap(n: nat, order: seq<int>)
    requires BruteSpec(n, order)
    ensures order == HeapSeating(n)
  {
    HeapFollowsRules(n);
    BruteSpecUnique(n, order, HeapSeating(n));
  }
}
