/** deduzirEfeitosNefastos and efeitoExiste: every ordered pair of distinct
    nodes with the same frequency that share a row or a column at an even
    distance produces its midpoint as a harmful-effect location; the
    locations are collected in a table, each one once, in the order the
    nested scan first finds them. */
module Interference {
  import opened Antennas

  /** One row of the table `efeitos`: a location (x, y). */
  datatype Point = Point(x: int, y: int)

  /** The number of rows of `efeitos`. */
  const TableCapacity: nat := 100

  /** The pair test of the scan: same frequency, same x or same y, and the
      other coordinate differs by an even amount (a zero distance counts as
      even). Dafny's `%` agrees with C's `abs(d) % 2 == 0` on evenness. */
  predicate Aligned(a1: Antenna, a2: Antenna)
  {
    var dx, dy := a2.x - a1.x, a2.y - a1.y;
    a1.freq == a2.freq && ((dx == 0 && dy % 2 == 0) || (dy == 0 && dx % 2 == 0))
  }

  /** The location the scan records for an aligned pair: a1 moved half way
      towards a2. Both halves are of even numbers, so C's truncating `/`
      and Dafny's `/` give the same value. */
  function Midpoint(a1: Antenna, a2: Antenna): Point
  {
    Point(a1.x + (a2.x - a1.x) / 2, a1.y + (a2.y - a1.y) / 2)
  }

  /** The pair of nodes at indices `a` and `b` yields location `p`. Nodes
      at different indices are different nodes, as in the pointer test
      `a1 != a2`. */
  predicate YieldsAt(s: seq<Antenna>, a: int, b: int, p: Point)
  {
    0 <= a < |s| && 0 <= b < |s| && a != b && Aligned(s[a], s[b]) && Midpoint(s[a], s[b]) == p
  }

  /** `p` is a harmful-effect location of the list. */
  predicate IsEffect(s: seq<Antenna>, p: Point)
  {
    exists a, b :: 0 <= a < |s| && 0 <= b < |s| && YieldsAt(s, a, b, p)
  }

  /** No location appears twice. */
  predicate Distinct(t: seq<Point>)
  {
    forall i, j :: 0 <= i < j < |t| ==> t[i] != t[j]
  }

  /** The table after the scan has looked at the pair (a1, a2) = (s[i], s[j]). */
  function Visit(s: seq<Antenna>, t: seq<Point>, i: nat, j: nat): seq<Point>
    requires i < |s| && j < |s|
  {
    if i != j && Aligned(s[i], s[j]) && Midpoint(s[i], s[j]) !in t
    then t + [Midpoint(s[i], s[j])]
    else t
  }

  /** The table once the scan has looked at every pair before (i, j) in
      row-major order: all pairs with a first index below i, and the pairs
      (i, b) with b below j. */
  function Table(s: seq<Antenna>, i: nat, j: nat): seq<Point>
    requires i <= |s| && j <= |s| && (i == |s| ==> j == 0)
    decreases i, j
  {
    if j > 0 then Visit(s, Table(s, i, j - 1), i, j - 1)
    else if i > 0 then Table(s, i - 1, |s|)
    else []
  }

  /** The table after the whole scan. */
  function Effects(s: seq<Antenna>): seq<Point>
  {
    Table(s, |s|, 0)
  }

  /** The pair (a, b) comes before (i, j) in the scan order. */
  predicate Before(a: int, b: int, i: int, j: int)
  {
    a < i || (a == i && b < j)
  }

  /** The table never holds a location twice. */
  lemma {:induction false} TableDistinct(s: seq<Antenna>, i: nat, j: nat)
    requires i <= |s| && j <= |s| && (i == |s| ==> j == 0)
    ensures Distinct(Table(s, i, j))
    decreases i, j
  {
    if j > 0 {
      TableDistinct(s, i, j - 1);
    } else if i > 0 {
      TableDistinct(s, i - 1, |s|);
    }
  }

  /** The table holds exactly the locations yielded by the pairs scanned so far. */
  lemma {:induction false} TableMembers(s: seq<Antenna>, i: nat, j: nat, p: Point)
    requires i <= |s| && j <= |s| && (i == |s| ==> j == 0)
    ensures p in Table(s, i, j) <==> exists a, b :: Before(a, b, i, j) && YieldsAt(s, a, b, p)
    decreases i, j
  {
    if j > 0 {
      TableMembers(s, i, j - 1, p);
      if YieldsAt(s, i, j - 1, p) {
        assert Before(i, j - 1, i, j);
      }
      if exists a, b :: Before(a, b, i, j) && YieldsAt(s, a, b, p) {
        var a, b :| Before(a, b, i, j) && YieldsAt(s, a, b, p);
        if a == i && b == j - 1 {
          assert p in Table(s, i, j);
        } else {
          assert Before(a, b, i, j - 1);
        }
      }
    } else if i > 0 {
      TableMembers(s, i - 1, |s|, p);
      if exists a, b :: Before(a, b, i, j) && YieldsAt(s, a, b, p) {
        var a, b :| Before(a, b, i, j) && YieldsAt(s, a, b, p);
        assert Before(a, b, i - 1, |s|);
      }
      if exists a, b :: Before(a, b, i - 1, |s|) && YieldsAt(s, a, b, p) {
        var a, b :| Before(a, b, i - 1, |s|) && YieldsAt(s, a, b, p);
        assert Before(a, b, i, j);
      }
    }
  }

  /** The scan only appends: the table at any point is a prefix of the final
      table, so the final table lists the locations in the order the scan
      first finds them. */
  lemma {:induction false} TablePrefix(s: seq<Antenna>, i: nat, j: nat)
    requires i <= |s| && j <= |s| && (i == |s| ==> j == 0)
    ensures Table(s, i, j) <= Effects(s)
    decreases |s| - i, |s| - j
  {
    if i < |s| {
      if j < |s| {
        TablePrefix(s, i, j + 1);
      } else {
        TablePrefix(s, i + 1, 0);
      }
    }
  }

  /** The final table is exact and free of repeats: a location is in it iff
      some pair of distinct same-frequency nodes yields it. */
  lemma EffectsExact(s: seq<Antenna>)
    ensures Distinct(Effects(s))
    ensures forall p :: p in Effects(s) <==> IsEffect(s, p)
  {
    TableDistinct(s, |s|, 0);
    forall p
      ensures p in Effects(s) <==> IsEffect(s, p)
    {
      TableMembers(s, |s|, 0, p);
      if IsEffect(s, p) {
        var a, b :| 0 <= a < |s| && 0 <= b < |s| && YieldsAt(s, a, b, p);
        assert Before(a, b, |s|, 0);
      }
    }
  }

  /** The scan reports "no harmful effect" (an empty table) exactly when no
      two distinct nodes pass the pair test. */
  lemma EffectsEmpty(s: seq<Antenna>)
    ensures Effects(s) == [] <==>
            forall a, b :: 0 <= a < |s| && 0 <= b < |s| && a != b ==> !Aligned(s[a], s[b])
  {
    EffectsExact(s);
    if Effects(s) != [] {
      assert IsEffect(s, Effects(s)[0]);
    }
    if exists a, b :: 0 <= a < |s| && 0 <= b < |s| && a != b && Aligned(s[a], s[b]) {
      var a, b :| 0 <= a < |s| && 0 <= b < |s| && a != b && Aligned(s[a], s[b]);
      assert YieldsAt(s, a, b, Midpoint(s[a], s[b]));
      assert Midpoint(s[a], s[b]) in Effects(s);
    }
  }

  /** efeitoExiste: whether (x, y) is among the first `total` rows of the table. */
  method EffectExists(efeitos: seq<Point>, total: int, x: int, y: int) returns (found: bool)
    requires total <= |efeitos|
    ensures found <==> exists i :: 0 <= i < total && efeitos[i] == Point(x, y)
  {
    var i := 0;
    while i < total
      invariant 0 <= i && (i == 0 || i <= total)
      invariant forall k :: 0 <= k < i ==> efeitos[k] != Point(x, y)
    {
      if efeitos[i].x == x && efeitos[i].y == y {
        return true;
      }
      i := i + 1;
    }
    return false;
  }

  /** deduzirEfeitosNefastos as written: the table is an array of
      TableCapacity rows and nothing checks that a new row still fits. The
      model stops with `overflow` at the write that would fall outside the
      array; that happens exactly when the list has more than TableCapacity
      distinct effect locations. */
  method DeduceEffectsFixed(s: seq<Antenna>) returns (efeitos: array<Point>, total: nat, overflow: bool)
    ensures efeitos.Length == TableCapacity && total <= TableCapacity
    ensures overflow <==> TableCapacity < |Effects(s)|
    ensures !overflow ==> efeitos[..total] == Effects(s)
    ensures overflow ==> total == TableCapacity && efeitos[..] == Effects(s)[..TableCapacity]
  {
    efeitos := new Point[TableCapacity];
    total := 0;
    overflow := false;
    var i := 0;
    while i < |s|
      invariant 0 <= i <= |s|
      invariant efeitos.Length == TableCapacity && total <= TableCapacity
      invariant efeitos[..total] == Table(s, i, 0)
    {
      var j := 0;
      while j < |s|
        invariant 0 <= j <= |s|
        invariant efeitos.Length == TableCapacity && total <= TableCapacity
        invariant efeitos[..total] == Table(s, i, j)
      {
        if i != j && s[i].freq == s[j].freq {
          var dx := s[j].x - s[i].x;
          var dy := s[j].y - s[i].y;
          if (dx == 0 && dy % 2 == 0) || (dy == 0 && dx % 2 == 0) {
            var meio := Point(s[i].x + dx / 2, s[i].y + dy / 2);
            var known := EffectExists(efeitos[..], total, meio.x, meio.y);
            assert known <==> meio in Table(s, i, j);
            if !known {
              ghost var before := efeitos[..total];
              assert Table(s, i, j + 1) == before + [meio];
              if total == TableCapacity {
                assert efeitos[..] == before;
                TablePrefix(s, i, j + 1);
                overflow := true;
                return;
              }
              efeitos[total] := meio;
              assert efeitos[..total + 1] == before + [meio];
              total := total + 1;
            }
          }
        }
        j := j + 1;
      }
      i := i + 1;
    }
  }

  /** deduzirEfeitosNefastos with a table that grows as needed: the locations
      it returns are exactly the effect locations of the list, each once, in
      the order of the scan. */
  method DeduceEffects(s: seq<Antenna>) returns (efeitos: seq<Point>)
    ensures efeitos == Effects(s)
    ensures Distinct(efeitos)
    ensures forall p :: p in efeitos <==> IsEffect(s, p)
  {
    efeitos := [];
    var i := 0;
    while i < |s|
      invariant 0 <= i <= |s|
      invariant efeitos == Table(s, i, 0)
    {
      var j := 0;
      while j < |s|
        invariant 0 <= j <= |s|
        invariant efeitos == Table(s, i, j)
      {
        if i != j && s[i].freq == s[j].freq {
          var dx := s[j].x - s[i].x;
          var dy := s[j].y - s[i].y;
          if (dx == 0 && dy % 2 == 0) || (dy == 0 && dx % 2 == 0) {
            var meio := Point(s[i].x + dx / 2, s[i].y + dy / 2);
            var known := EffectExists(efeitos, |efeitos|, meio.x, meio.y);
            if !known {
              efeitos := efeitos + [meio];
            }
          }
        }
        j := j + 1;
      }
      i := i + 1;
    }
    EffectsExact(s);
  }

  /** A row of `n` antennas of one frequency, two columns apart. */
  function EvenRow(n: nat): (s: seq<Antenna>)
    ensures |s| == n
  {
    seq(n, k => Antenna('a', 1, 2 * k))
  }

  /** A list without repeats that holds the n locations (1, 1), (1, 3), ...,
      (1, 2n - 1) has at least n entries. */
  lemma {:induction false} OddColumnsCount(t: seq<Point>, n: nat)
    requires Distinct(t)
    requires forall k :: 0 <= k < n ==> Point(1, 2 * k + 1) in t
    ensures n <= |t|
  {
    if n > 0 {
      var q := Point(1, 2 * (n - 1) + 1);
      var i :| 0 <= i < |t| && t[i] == q;
      var rest := t[..i] + t[i + 1..];
      assert forall m :: 0 <= m < |rest| ==> rest[m] == t[if m < i then m else m + 1];
      forall k | 0 <= k < n - 1
        ensures Point(1, 2 * k + 1) in rest
      {
        var m :| 0 <= m < |t| && t[m] == Point(1, 2 * k + 1);
        assert m != i;
        if m < i {
          assert rest[m] == t[m];
        } else {
          assert rest[m - 1] == t[m];
        }
      }
      OddColumnsCount(rest, n - 1);
    }
  }

  /** The table of TableCapacity rows is too small for some lists: a row of
      TableCapacity + 2 antennas has TableCapacity + 1 effect locations, the
      midpoints of its neighbouring pairs, so the scan writes one row past
      the end of `efeitos`. */
  lemma FixedTableOverflows()
    ensures TableCapacity < |Effects(EvenRow(TableCapacity + 2))|
  {
    var s := EvenRow(TableCapacity + 2);
    EffectsExact(s);
    forall k | 0 <= k < TableCapacity + 1
      ensures Point(1, 2 * k + 1) in Effects(s)
    {
      assert YieldsAt(s, k, k + 1, Point(1, 2 * k + 1));
    }
    OddColumnsCount(Effects(s), TableCapacity + 1);
  }
}
