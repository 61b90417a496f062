/**
 Two node names whose virtual points meet, and what that does to the ring: it then depends on the order of
 the changes and not on the membership alone.
 */
module RingCollision {
  import opened RingHash
  import opened HashValues
  import opened HashRings

  /** The bytes of "adyu" and of "hooi". */
  const NODE_A: Node := [97, 100, 121, 117]
  const NODE_B: Node := [104, 111, 111, 105]

  // ---------- the two virtual names ----------

  /** The virtual name "adyu:2", and the states of the hash over it. */
  const NAME_A: Bytes := [97, 100, 121, 117, 58, 50]
  const STATES_A: seq<Word> := [2166136261, 3826002220, 1193606232, 540600307, 1066694642, 3736637400, 2257227102]

  lemma StepA0(signedChar: bool)
    ensures LeadsTo(signedChar, STATES_A[0], NAME_A[0], STATES_A[1])
  {
    Leads(signedChar, 2166136261, 97, 3826002220, 8461469, 12, 5, 6, 1, 8461672);
  }

  lemma StepA1(signedChar: bool)
    ensures LeadsTo(signedChar, STATES_A[1], NAME_A[1], STATES_A[2])
  {
    Leads(signedChar, 3826002220, 100, 1193606232, 14945321, 2, 12, 6, 4, 14945680);
  }

  lemma StepA2(signedChar: bool)
    ensures LeadsTo(signedChar, STATES_A[2], NAME_A[2], STATES_A[3])
  {
    Leads(signedChar, 1193606232, 121, 540600307, 4662524, 5, 8, 7, 9, 4662636);
  }

  lemma StepA3(signedChar: bool)
    ensures LeadsTo(signedChar, STATES_A[3], NAME_A[3], STATES_A[4])
  {
    Leads(signedChar, 540600307, 117, 1066694642, 2111719, 15, 3, 7, 5, 2111770);
  }

  lemma StepA4(signedChar: bool)
    ensures LeadsTo(signedChar, STATES_A[4], NAME_A[4], STATES_A[5])
  {
    Leads(signedChar, 1066694642, 58, 3736637400, 4166775, 15, 2, 3, 10, 4166875);
  }

  lemma StepA5(signedChar: bool)
    ensures LeadsTo(signedChar, STATES_A[5], NAME_A[5], STATES_A[6])
  {
    Leads(signedChar, 3736637400, 50, 2257227102, 14596239, 13, 8, 3, 2, 14596590);
  }

  lemma StatesA(signedChar: bool)
    ensures forall i :: 0 <= i < 6 ==> LeadsTo(signedChar, STATES_A[i], NAME_A[i], STATES_A[i+1])
  {
    StepA0(signedChar);
    StepA1(signedChar);
    StepA2(signedChar);
    StepA3(signedChar);
    StepA4(signedChar);
    StepA5(signedChar);
  }

  /** The virtual name "hooi:0", and the states of the hash over it. */
  const NAME_B: Bytes := [104, 111, 111, 105, 58, 48]
  const STATES_B: seq<Word> := [2166136261, 3977000791, 1648028968, 3921905349, 2865561796, 3736637402, 2257227102]

  lemma StepB0(signedChar: bool)
    ensures LeadsTo(signedChar, STATES_B[0], NAME_B[0], STATES_B[1])
  {
    Leads(signedChar, 2166136261, 104, 3977000791, 8461469, 12, 5, 6, 8, 8461672);
  }

  lemma StepB1(signedChar: bool)
    ensures LeadsTo(signedChar, STATES_B[1], NAME_B[1], STATES_B[2])
  {
    Leads(signedChar, 3977000791, 111, 1648028968, 15535159, 5, 7, 6, 15, 15535532);
  }

  lemma StepB2(signedChar: bool)
    ensures LeadsTo(signedChar, STATES_B[2], NAME_B[2], STATES_B[3])
  {
    Leads(signedChar, 1648028968, 111, 3921905349, 6437613, 2, 8, 6, 15, 6437767);
  }

  lemma StepB3(signedChar: bool)
    ensures LeadsTo(signedChar, STATES_B[3], NAME_B[3], STATES_B[4])
  {
    Leads(signedChar, 3921905349, 105, 2865561796, 15319942, 12, 5, 6, 9, 15320310);
  }

  lemma StepB4(signedChar: bool)
    ensures LeadsTo(signedChar, STATES_B[4], NAME_B[4], STATES_B[5])
  {
    Leads(signedChar, 2865561796, 58, 3736637402, 11193600, 12, 4, 3, 10, 11193869);
  }

  lemma StepB5(signedChar: bool)
    ensures LeadsTo(signedChar, STATES_B[5], NAME_B[5], STATES_B[6])
  {
    Leads(signedChar, 3736637402, 48, 2257227102, 14596239, 13, 10, 3, 0, 14596590);
  }

  lemma StatesB(signedChar: bool)
    ensures forall i :: 0 <= i < 6 ==> LeadsTo(signedChar, STATES_B[i], NAME_B[i], STATES_B[i+1])
  {
    StepB0(signedChar);
    StepB1(signedChar);
    StepB2(signedChar);
    StepB3(signedChar);
    StepB4(signedChar);
    StepB5(signedChar);
  }

  /** Point 2 of adyu is point 0 of hooi. */
  lemma PointsMeet(signedChar: bool)
    ensures Point(signedChar, NODE_A, 2) == Point(signedChar, NODE_B, 0)
  {
    StatesA(signedChar);
    StatesB(signedChar);
    FoldOf(signedChar, NAME_A, STATES_A);
    FoldOf(signedChar, NAME_B, STATES_B);
    NameBytes();
  }

  lemma NameBytes()
    ensures VirtualName(NODE_A, 2) == NAME_A && VirtualName(NODE_B, 0) == NAME_B
  {
  }

  // ---------- the ring of colliding nodes ----------

  /** With the hash of the ring there are such nodes: the ring is not a function of the membership of adyu and hooi. */
  lemma RingOfCollidingNodesDependsOnOrder(signedChar: bool)
    ensures var points, ab, ba := PointsOf(signedChar), [Join(NODE_A), Join(NODE_B)], [Join(NODE_B), Join(NODE_A)];
      Members(ab) == Members(ba) && RingAfter(points, ab) != RingAfter(points, ba)
  {
    PointsMeet(signedChar);
    assert NODE_A[0] != NODE_B[0];
    OrderMatters(PointsOf(signedChar), NODE_A, NODE_B, Point(signedChar, NODE_A, 2));
  }
}
