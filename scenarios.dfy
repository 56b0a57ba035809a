/** Concrete runs of the store: the fixed sequence of calls of the demo
    driver, and small cases of the effect scan. */
module Scenarios {
  import opened Antennas
  import opened Interference

  /** The six inserts of the demo driver, in call order. */
  const DriverInserts: seq<Antenna> :=
    [Antenna('A', 2, 3), Antenna('A', 3, 3), Antenna('A', 6, 3),
     Antenna('B', 4, 5), Antenna('A', 1, 6), Antenna('C', 7, 8)]

  /** The list after the six inserts. */
  const DriverList: seq<Antenna> :=
    [Antenna('A', 1, 6), Antenna('A', 2, 3), Antenna('A', 3, 3),
     Antenna('B', 4, 5), Antenna('A', 6, 3), Antenna('C', 7, 8)]

  /** The list after removing the antenna at (2, 3). */
  const DriverAfterRemove: seq<Antenna> :=
    [Antenna('A', 1, 6), Antenna('A', 3, 3), Antenna('B', 4, 5),
     Antenna('A', 6, 3), Antenna('C', 7, 8)]

  lemma DriverFourth(s3: seq<Antenna>, a: Antenna)
    requires s3 == DriverInserts[..3] && a == DriverInserts[3]
    ensures Inserted(s3, a) == [s3[0], s3[1], a, s3[2]]
  {
    assert InsertPos(s3, a) == 2;
    assert s3[..2] + [a] + s3[2..] == [s3[0], s3[1], a, s3[2]];
  }

  lemma DriverFifth(s4: seq<Antenna>, a: Antenna)
    requires s4 == [DriverInserts[0], DriverInserts[1], DriverInserts[3], DriverInserts[2]]
    requires a == DriverInserts[4]
    ensures Inserted(s4, a) == [a] + s4
  {
  }

  lemma DriverSixth(s5: seq<Antenna>, a: Antenna)
    requires s5 == [DriverInserts[4], DriverInserts[0], DriverInserts[1], DriverInserts[3], DriverInserts[2]]
    requires a == DriverInserts[5]
    ensures Inserted(s5, a) == s5 + [a] == DriverList
  {
    InsertedAtEnd(s5, a);
  }

  /** The demo driver's six inserts on an empty grid: the first three arrive
      in order, the fourth lands between them, the fifth becomes the new head
      and the sixth lands at the tail. */
  lemma DriverBuild()
    ensures InsertAll(DriverInserts) == DriverList
  {
    var cs := DriverInserts;
    var s3 := cs[..3];
    InsertAllIncreasing(s3);
    assert cs[..4] == s3 + [cs[3]];
    InsertAllSnoc(s3, cs[3]);
    DriverFourth(s3, cs[3]);
    var s4 := [cs[0], cs[1], cs[3], cs[2]];
    assert cs[..5] == cs[..4] + [cs[4]];
    InsertAllSnoc(cs[..4], cs[4]);
    DriverFifth(s4, cs[4]);
    var s5 := [cs[4]] + s4;
    assert cs == cs[..5] + [cs[5]];
    InsertAllSnoc(cs[..5], cs[5]);
    DriverSixth(s5, cs[5]);
  }

  /** The driver's removal at (2, 3) unlinks the second record. */
  lemma DriverRemoval()
    ensures Removed(DriverList, 2, 3) == DriverAfterRemove
  {
    assert FirstAt(DriverList, 2, 3) == 1;
  }

  /** After the driver's removal no two antennas pass the pair test, so the
      scan finds no harmful effect. */
  lemma DriverEffects()
    ensures Effects([Antenna('A', 1, 6), Antenna('A', 3, 3), Antenna('B', 4, 5),
                     Antenna('A', 6, 3), Antenna('C', 7, 8)]) == []
  {
    var s := [Antenna('A', 1, 6), Antenna('A', 3, 3), Antenna('B', 4, 5),
              Antenna('A', 6, 3), Antenna('C', 7, 8)];
    EffectsEmpty(s);
  }

  /** Two antennas of one frequency two columns apart: one effect, between them. */
  lemma NeighbourPairEffect(f: char, x: int, y: int)
    ensures Effects([Antenna(f, x, y), Antenna(f, x, y + 2)]) == [Point(x, y + 1)]
  {
    var a0, a1 := Antenna(f, x, y), Antenna(f, x, y + 2);
    var s := [a0, a1];
    assert Midpoint(a0, a1) == Point(x, y + 1) && Midpoint(a1, a0) == Point(x, y + 1);
    assert Table(s, 0, 1) == [];
    assert Table(s, 0, 2) == [Point(x, y + 1)];
    assert Table(s, 1, 1) == [Point(x, y + 1)];
    assert Table(s, 1, 2) == [Point(x, y + 1)];
    assert Effects(s) == Table(s, 1, 2);
  }

  /** Two antennas four rows apart also give an effect: the scan accepts any
      even distance, not only a distance of two. */
  lemma FarPairEffect(f: char, x: int, y: int)
    ensures Effects([Antenna(f, x, y), Antenna(f, x + 4, y)]) == [Point(x + 2, y)]
  {
    var a0, a1 := Antenna(f, x, y), Antenna(f, x + 4, y);
    var s := [a0, a1];
    assert Midpoint(a0, a1) == Point(x + 2, y) && Midpoint(a1, a0) == Point(x + 2, y);
    assert Table(s, 0, 1) == [];
    assert Table(s, 0, 2) == [Point(x + 2, y)];
    assert Table(s, 1, 1) == [Point(x + 2, y)];
    assert Table(s, 1, 2) == [Point(x + 2, y)];
    assert Effects(s) == Table(s, 1, 2);
  }
}
