/** The eight-seat train that `TrainSeats.py` prints and checks: both
    generators seat passengers in the order 3, 5, 1, 6, 0, 2, 4, 7. Each step
    is justified by the free gaps at that point, listed left to right. */
module TrainOfEight {
  import opened TrainSeats

  const EightOrder: seq<int> := [3, 5, 1, 6, 0, 2, 4, 7]

  /** Gaps listed left to right share no seat. */
  lemma OrderedDisjoint(gaps: seq<Gap>)
    requires forall i, j :: 0 <= i < j < |gaps| ==> gaps[i].r <= gaps[j].l + 1
    ensures Disjoint(gaps)
  {
  }

  /** A gap lies in the train, is bounded by a taken seat or an end on each
      side, and holds no taken seat. */
  ghost predicate GapPlaced(taken: seq<int>, g: Gap)
  {
    -1 <= g.l < g.r <= 8 &&
    (g.l == -1 || g.l in taken) && (g.r == 8 || g.r in taken) &&
    forall i :: 0 <= i < |taken| ==> !Inside(g, taken[i])
  }

  /** `gaps` are placed gaps, listed left to right. */
  ghost predicate Placed(taken: seq<int>, gaps: seq<Gap>)
  {
    (forall k :: 0 <= k < |gaps| ==> GapPlaced(taken, gaps[k])) &&
    (forall i, j :: 0 <= i < j < |gaps| ==> gaps[i].r <= gaps[j].l + 1)
  }

  /** Every free seat lies in one of `gaps`. */
  ghost predicate Covers(taken: seq<int>, gaps: seq<Gap>)
  {
    forall x :: 0 <= x < 8 && x !in taken ==> Covered(gaps, x)
  }

  /** Step `i` of the order is the rules' choice when `gaps` are the free gaps
      after the first `i` passengers and `gaps[m]` the largest, leftmost. */
  lemma EightStep(i: nat, taken: seq<int>, gaps: seq<Gap>, m: nat)
    requires i < 8 && taken == EightOrder[..i]
    requires m < |gaps| && Size(gaps[m]) >= 1 && Split(gaps[m]).0 == EightOrder[i]
    requires forall k :: 0 <= k < |gaps| ==> NotAfter(gaps[m], gaps[k])
    requires Placed(taken, gaps) && Covers(taken, gaps)
    ensures IsChoice(Occupied(8, EightOrder[..i]), EightOrder[i])
  {
    OrderedDisjoint(gaps);
    assert forall k, x :: 0 <= k < |gaps| && Inside(gaps[k], x) ==> x !in taken;
    GapChoice(Occupied(8, taken), gaps, m);
  }

  lemma Cover0(taken: seq<int>, gaps: seq<Gap>)
    requires taken == [] && gaps == [Gap(-1, 8)]
    ensures Covers(taken, gaps)
  {
    forall x | 0 <= x < 8 && x !in taken ensures Covered(gaps, x) {
      if -1 < x < 8 { assert Inside(gaps[0], x); }
    }
  }

  lemma Placed0(taken: seq<int>, gaps: seq<Gap>)
    requires taken == [] && gaps == [Gap(-1, 8)]
    ensures Placed(taken, gaps)
  {
    assert GapPlaced(taken, Gap(-1, 8));
  }

  lemma Choice0()
    ensures IsChoice(Occupied(8, EightOrder[..0]), EightOrder[0])
  {
    var taken := [];
    var gaps := [Gap(-1, 8)];
    assert EightOrder[..0] == taken;
    Cover0(taken, gaps);
    Placed0(taken, gaps);
    EightStep(0, taken, gaps, 0);
  }

  lemma Cover1(taken: seq<int>, gaps: seq<Gap>)
    requires taken == [3] && gaps == [Gap(-1, 3), Gap(3, 8)]
    ensures Covers(taken, gaps)
  {
    forall x | 0 <= x < 8 && x !in taken ensures Covered(gaps, x) {
      if -1 < x < 3 { assert Inside(gaps[0], x); }
      else if 3 < x < 8 { assert Inside(gaps[1], x); }
    }
  }

  lemma Placed1(taken: seq<int>, gaps: seq<Gap>)
    requires taken == [3] && gaps == [Gap(-1, 3), Gap(3, 8)]
    ensures Placed(taken, gaps)
  {
    assert GapPlaced(taken, Gap(-1, 3));
    assert GapPlaced(taken, Gap(3, 8));
  }

  lemma Choice1()
    ensures IsChoice(Occupied(8, EightOrder[..1]), EightOrder[1])
  {
    var taken := [3];
    var gaps := [Gap(-1, 3), Gap(3, 8)];
    assert EightOrder[..1] == taken;
    Cover1(taken, gaps);
    Placed1(taken, gaps);
    EightStep(1, taken, gaps, 1);
  }

  lemma Cover2(taken: seq<int>, gaps: seq<Gap>)
    requires taken == [3, 5] && gaps == [Gap(-1, 3), Gap(3, 5), Gap(5, 8)]
    ensures Covers(taken, gaps)
  {
    forall x | 0 <= x < 8 && x !in taken ensures Covered(gaps, x) {
      if -1 < x < 3 { assert Inside(gaps[0], x); }
      else if 3 < x < 5 { assert Inside(gaps[1], x); }
      else if 5 < x < 8 { assert Inside(gaps[2], x); }
    }
  }

  lemma Placed2(taken: seq<int>, gaps: seq<Gap>)
    requires taken == [3, 5] && gaps == [Gap(-1, 3), Gap(3, 5), Gap(5, 8)]
    ensures Placed(taken, gaps)
  {
    assert GapPlaced(taken, Gap(-1, 3));
    assert GapPlaced(taken, Gap(3, 5));
    assert GapPlaced(taken, Gap(5, 8));
  }

  lemma Choice2()
    ensures IsChoice(Occupied(8, EightOrder[..2]), EightOrder[2])
  {
    var taken := [3, 5];
    var gaps := [Gap(-1, 3), Gap(3, 5), Gap(5, 8)];
    assert EightOrder[..2] == taken;
    Cover2(taken, gaps);
    Placed2(taken, gaps);
    EightStep(2, taken, gaps, 0);
  }

  lemma Cover3(taken: seq<int>, gaps: seq<Gap>)
    requires taken == [3, 5, 1] && gaps == [Gap(-1, 1), Gap(1, 3), Gap(3, 5), Gap(5, 8)]
    ensures Covers(taken, gaps)
  {
    forall x | 0 <= x < 8 && x !in taken ensures Covered(gaps, x) {
      if -1 < x < 1 { assert Inside(gaps[0], x); }
      else if 1 < x < 3 { assert Inside(gaps[1], x); }
      else if 3 < x < 5 { assert Inside(gaps[2], x); }
      else if 5 < x < 8 { assert Inside(gaps[3], x); }
    }
  }

  lemma Placed3(taken: seq<int>, gaps: seq<Gap>)
    requires taken == [3, 5, 1] && gaps == [Gap(-1, 1), Gap(1, 3), Gap(3, 5), Gap(5, 8)]
    ensures Placed(taken, gaps)
  {
    assert GapPlaced(taken, Gap(-1, 1));
    assert GapPlaced(taken, Gap(1, 3));
    assert GapPlaced(taken, Gap(3, 5));
    assert GapPlaced(taken, Gap(5, 8));
  }

  lemma Choice3()
    ensures IsChoice(Occupied(8, EightOrder[..3]), EightOrder[3])
  {
    var taken := [3, 5, 1];
    var gaps := [Gap(-1, 1), Gap(1, 3), Gap(3, 5), Gap(5, 8)];
    assert EightOrder[..3] == taken;
    Cover3(taken, gaps);
    Placed3(taken, gaps);
    EightStep(3, taken, gaps, 3);
  }

  lemma Cover4(taken: seq<int>, gaps: seq<Gap>)
    requires taken == [3, 5, 1, 6] && gaps == [Gap(-1, 1), Gap(1, 3), Gap(3, 5), Gap(6, 8)]
    ensures Covers(taken, gaps)
  {
    forall x | 0 <= x < 8 && x !in taken ensures Covered(gaps, x) {
      if -1 < x < 1 { assert Inside(gaps[0], x); }
      else if 1 < x < 3 { assert Inside(gaps[1], x); }
      else if 3 < x < 5 { assert Inside(gaps[2], x); }
      else if 6 < x < 8 { assert Inside(gaps[3], x); }
    }
  }

  lemma Placed4(taken: seq<int>, gaps: seq<Gap>)
    requires taken == [3, 5, 1, 6] && gaps == [Gap(-1, 1), Gap(1, 3), Gap(3, 5), Gap(6, 8)]
    ensures Placed(taken, gaps)
  {
    assert GapPlaced(taken, Gap(-1, 1));
    assert GapPlaced(taken, Gap(1, 3));
    assert GapPlaced(taken, Gap(3, 5));
    assert GapPlaced(taken, Gap(6, 8));
  }

  lemma Choice4()
    ensures IsChoice(Occupied(8, EightOrder[..4]), EightOrder[4])
  {
    var taken := [3, 5, 1, 6];
    var gaps := [Gap(-1, 1), Gap(1, 3), Gap(3, 5), Gap(6, 8)];
    assert EightOrder[..4] == taken;
    Cover4(taken, gaps);
    Placed4(taken, gaps);
    EightStep(4, taken, gaps, 0);
  }

  lemma Cover5(taken: seq<int>, gaps: seq<Gap>)
    requires taken == [3, 5, 1, 6, 0] && gaps == [Gap(1, 3), Gap(3, 5), Gap(6, 8)]
    ensures Covers(taken, gaps)
  {
    forall x | 0 <= x < 8 && x !in taken ensures Covered(gaps, x) {
      if 1 < x < 3 { assert Inside(gaps[0], x); }
      else if 3 < x < 5 { assert Inside(gaps[1], x); }
      else if 6 < x < 8 { assert Inside(gaps[2], x); }
    }
  }

  lemma Placed5(taken: seq<int>, gaps: seq<Gap>)
    requires taken == [3, 5, 1, 6, 0] && gaps == [Gap(1, 3), Gap(3, 5), Gap(6, 8)]
    ensures Placed(taken, gaps)
  {
    assert GapPlaced(taken, Gap(1, 3));
    assert GapPlaced(taken, Gap(3, 5));
    assert GapPlaced(taken, Gap(6, 8));
  }

  lemma Choice5()
    ensures IsChoice(Occupied(8, EightOrder[..5]), EightOrder[5])
  {
    var taken := [3, 5, 1, 6, 0];
    var gaps := [Gap(1, 3), Gap(3, 5), Gap(6, 8)];
    assert EightOrder[..5] == taken;
    Cover5(taken, gaps);
    Placed5(taken, gaps);
    EightStep(5, taken, gaps, 0);
  }

  lemma Cover6(taken: seq<int>, gaps: seq<Gap>)
    requires taken == [3, 5, 1, 6, 0, 2] && gaps == [Gap(3, 5), Gap(6, 8)]
    ensures Covers(taken, gaps)
  {
    forall x | 0 <= x < 8 && x !in taken ensures Covered(gaps, x) {
      if 3 < x < 5 { assert Inside(gaps[0], x); }
      else if 6 < x < 8 { assert Inside(gaps[1], x); }
    }
  }

  lemma Placed6(taken: seq<int>, gaps: seq<Gap>)
    requires taken == [3, 5, 1, 6, 0, 2] && gaps == [Gap(3, 5), Gap(6, 8)]
    ensures Placed(taken, gaps)
  {
    assert GapPlaced(taken, Gap(3, 5));
    assert GapPlaced(taken, Gap(6, 8));
  }

  lemma Choice6()
    ensures IsChoice(Occupied(8, EightOrder[..6]), EightOrder[6])
  {
    var taken := [3, 5, 1, 6, 0, 2];
    var gaps := [Gap(3, 5), Gap(6, 8)];
    assert EightOrder[..6] == taken;
    Cover6(taken, gaps);
    Placed6(taken, gaps);
    EightStep(6, taken, gaps, 0);
  }

  lemma Cover7(taken: seq<int>, gaps: seq<Gap>)
    requires taken == [3, 5, 1, 6, 0, 2, 4] && gaps == [Gap(6, 8)]
    ensures Covers(taken, gaps)
  {
    forall x | 0 <= x < 8 && x !in taken ensures Covered(gaps, x) {
      if 6 < x < 8 { assert Inside(gaps[0], x); }
    }
  }

  lemma Placed7(taken: seq<int>, gaps: seq<Gap>)
    requires taken == [3, 5, 1, 6, 0, 2, 4] && gaps == [Gap(6, 8)]
    ensures Placed(taken, gaps)
  {
    assert GapPlaced(taken, Gap(6, 8));
  }

  lemma Choice7()
    ensures IsChoice(Occupied(8, EightOrder[..7]), EightOrder[7])
  {
    var taken := [3, 5, 1, 6, 0, 2, 4];
    var gaps := [Gap(6, 8)];
    assert EightOrder[..7] == taken;
    Cover7(taken, gaps);
    Placed7(taken, gaps);
    EightStep(7, taken, gaps, 0);
  }

  /** 3, 5, 1, 6, 0, 2, 4, 7 follows the rules. */
  lemma EightFollowsRules()
    ensures BruteSpec(8, EightOrder)
  {
    Choice0(); Choice1(); Choice2(); Choice3(); Choice4(); Choice5(); Choice6(); Choice7();
  }

  /** The module's self-check for eight seats: the brute force yields exactly
      3, 5, 1, 6, 0, 2, 4, 7, and so does the heap. */
  lemma EightSeats(order: seq<int>)
    requires BruteSpec(8, order)
    ensures order == EightOrder && HeapSeating(8) == EightOrder
  {
    EightFollowsRules();
    BruteSpecUnique(8, order, EightOrder);
    BruteForceMatchesHeap(8, order);
  }
}
