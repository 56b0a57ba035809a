/** The antenna store of funcoes.c: a singly linked list of antenna records,
    kept in ascending (x, y) order, where inserting refuses an exact duplicate
    and removing unlinks the first record found at a position.

    The list is modelled by the sequence of its records in link order; every
    relinking of `prox` pointers becomes a reassignment of that sequence. */
module Antennas {

  datatype Option<T> = None | Some(value: T)

  /** One record of the list (the `Antena` struct without its link). */
  datatype Antenna = Antenna(freq: char, x: int, y: int)

  /** Strict lexicographic order on positions: x (the row) first, then y. */
  predicate LessXY(a: Antenna, b: Antenna)
  {
    a.x < b.x || (a.x == b.x && a.y < b.y)
  }

  /** The record sits at position (x, y), whatever its frequency. */
  predicate At(a: Antenna, x: int, y: int)
  {
    a.x == x && a.y == y
  }

  /** Non-decreasing in (x, y): no record is below one that comes before it. */
  predicate Sorted(s: seq<Antenna>)
  {
    forall i, j :: 0 <= i < j < |s| ==> !LessXY(s[j], s[i])
  }

  /** No two records share frequency, x and y. */
  predicate Unique(s: seq<Antenna>)
  {
    forall i, j :: 0 <= i < j < |s| ==> s[i] != s[j]
  }

  /** Strictly increasing in (x, y); implies both Sorted and Unique. */
  predicate Increasing(s: seq<Antenna>)
  {
    forall i, j :: 0 <= i < j < |s| ==> LessXY(s[i], s[j])
  }

  // ---------------------------------------------------------------------------
  // Insertion
  // ---------------------------------------------------------------------------

  /** Where the ordering walk of the insert stops: the first record that is
      not below `a`, or the end of the list. */
  function InsertPos(s: seq<Antenna>, a: Antenna): (k: nat)
    ensures k <= |s|
    ensures forall j :: 0 <= j < k ==> LessXY(s[j], a)
    ensures k < |s| ==> !LessXY(s[k], a)
  {
    if s == [] || !LessXY(s[0], a) then 0 else 1 + InsertPos(s[1..], a)
  }

  /** Whether inserting `a` links a new node: it is not an exact duplicate,
      and the head (if any) is not at the same position with another
      frequency (in that case the walk never moves and the node is dropped). */
  predicate Links(s: seq<Antenna>, a: Antenna)
  {
    a !in s && (s == [] || !At(s[0], a.x, a.y))
  }

  /** The list `inserirAntena` returns. */
  function Inserted(s: seq<Antenna>, a: Antenna): (r: seq<Antenna>)
    ensures |r| == if Links(s, a) then |s| + 1 else |s|
  {
    if s == [] then [a]
    else if a in s then s
    else if LessXY(a, s[0]) then [a] + s
    else
      var k := InsertPos(s, a);
      if k == 0 then s else s[..k] + [a] + s[k..]
  }

  /** The contents after an insert: one more copy of `a` exactly when the
      node is linked, otherwise the same records. */
  lemma InsertedContents(s: seq<Antenna>, a: Antenna)
    ensures multiset(Inserted(s, a)) ==
            if Links(s, a) then multiset(s) + multiset{a} else multiset(s)
  {
    if s != [] && a !in s && !LessXY(a, s[0]) {
      var k := InsertPos(s, a);
      if k > 0 {
        assert s == s[..k] + s[k..];
      }
    }
  }

  /** An exact duplicate is refused: the list comes back unchanged. */
  lemma InsertedRejectsDuplicate(s: seq<Antenna>, a: Antenna)
    requires a in s
    ensures Inserted(s, a) == s
  {
  }

  /** The head quirk: a head at the candidate's position with another
      frequency leaves the list unchanged. */
  lemma InsertedHeadQuirk(s: seq<Antenna>, a: Antenna)
    requires s != [] && At(s[0], a.x, a.y)
    ensures Inserted(s, a) == s
  {
  }

  /** When the node is linked it sits right before the first record that is
      not below it: every record before it is below it, the one after it is
      not, and taking it out gives back the old list in the old order. */
  lemma InsertedPlacement(s: seq<Antenna>, a: Antenna)
    requires Links(s, a)
    ensures var r, k := Inserted(s, a), InsertPos(s, a);
            k < |r| && r[k] == a && r[..k] + r[k + 1..] == s &&
            (forall j :: 0 <= j < k ==> LessXY(r[j], a)) &&
            (k + 1 < |r| ==> !LessXY(r[k + 1], a))
  {
    var r, k := Inserted(s, a), InsertPos(s, a);
    InsertedIndex(s, a);
    assert r[..k] == s[..k];
    assert r[k + 1..] == s[k..];
    assert s == s[..k] + s[k..];
  }

  /** Where each record of `Inserted(s, a)` comes from when `a` is linked in:
      the records before the insert position, then `a`, then the rest of `s`. */
  lemma InsertedIndex(s: seq<Antenna>, a: Antenna)
    requires Links(s, a)
    ensures var r, k := Inserted(s, a), InsertPos(s, a);
            |r| == |s| + 1 && k <= |s| && r[k] == a &&
            (forall m :: 0 <= m < k ==> r[m] == s[m]) &&
            (forall m :: k < m < |r| ==> r[m] == s[m - 1])
  {
    var r, k := Inserted(s, a), InsertPos(s, a);
    if s == [] {
    } else if LessXY(a, s[0]) {
      assert k == 0;
      assert r == [a] + s;
    } else {
      assert k > 0;
      assert r == s[..k] + [a] + s[k..];
    }
  }

  /** In a sorted list nothing from the insert position on lies before `a`. */
  lemma InsertPosSorted(s: seq<Antenna>, a: Antenna)
    requires Sorted(s)
    ensures forall j :: InsertPos(s, a) <= j < |s| ==> !LessXY(s[j], a)
  {
    var k := InsertPos(s, a);
    forall j | k <= j < |s|
      ensures !LessXY(s[j], a)
    {
      assert !LessXY(s[k], a);
      if j > k {
        assert !LessXY(s[j], s[k]);
      }
    }
  }

  /** Inserting keeps a sorted list sorted. */
  lemma InsertedSorted(s: seq<Antenna>, a: Antenna)
    requires Sorted(s)
    ensures Sorted(Inserted(s, a))
  {
    if Links(s, a) {
      var r, k := Inserted(s, a), InsertPos(s, a);
      InsertedIndex(s, a);
      InsertPosSorted(s, a);
      forall i, j | 0 <= i < j < |r|
        ensures !LessXY(r[j], r[i])
      {
        if j < k {
          assert r[i] == s[i] && r[j] == s[j];
        } else if j == k {
          assert r[i] == s[i];
        } else if i == k {
          assert r[j] == s[j - 1];
        } else if i < k {
          assert r[i] == s[i] && r[j] == s[j - 1];
        } else {
          assert r[i] == s[i - 1] && r[j] == s[j - 1];
        }
      }
    }
  }

  /** Inserting never creates two records with the same frequency and position. */
  lemma InsertedUnique(s: seq<Antenna>, a: Antenna)
    requires Unique(s)
    ensures Unique(Inserted(s, a))
  {
    if Links(s, a) {
      var r, k := Inserted(s, a), InsertPos(s, a);
      InsertedIndex(s, a);
      forall i, j | 0 <= i < j < |r|
        ensures r[i] != r[j]
      {
        if j < k {
          assert r[i] == s[i] && r[j] == s[j];
        } else if j == k {
          assert r[i] == s[i];
        } else if i == k {
          assert r[j] == s[j - 1];
        } else if i < k {
          assert r[i] == s[i] && r[j] == s[j - 1];
        } else {
          assert r[i] == s[i - 1] && r[j] == s[j - 1];
        }
      }
    }
  }

  /** A record above everything in the list is appended at the tail. */
  lemma InsertedAtEnd(s: seq<Antenna>, a: Antenna)
    requires forall j :: 0 <= j < |s| ==> LessXY(s[j], a)
    ensures Inserted(s, a) == s + [a]
  {
    if s != [] {
      assert forall j :: 0 <= j < |s| ==> s[j] != a;
      assert InsertPos(s, a) == |s|;
    }
  }

  /** The list built by inserting `cs` one after the other into an empty list. */
  function InsertAll(cs: seq<Antenna>): seq<Antenna>
  {
    if cs == [] then [] else Inserted(InsertAll(cs[..|cs| - 1]), cs[|cs| - 1])
  }

  lemma InsertAllSnoc(done: seq<Antenna>, a: Antenna)
    ensures InsertAll(done + [a]) == Inserted(InsertAll(done), a)
  {
    assert (done + [a])[..|done|] == done;
  }

  /** Whatever is inserted, in whatever order, the list stays sorted by (x, y)
      and free of duplicate records. */
  lemma {:induction false} InsertAllValid(cs: seq<Antenna>)
    ensures Sorted(InsertAll(cs)) && Unique(InsertAll(cs))
  {
    if cs != [] {
      InsertAllValid(cs[..|cs| - 1]);
      InsertedSorted(InsertAll(cs[..|cs| - 1]), cs[|cs| - 1]);
      InsertedUnique(InsertAll(cs[..|cs| - 1]), cs[|cs| - 1]);
    }
  }

  /** Records that arrive in strictly increasing (x, y) order are all kept,
      in arrival order. */
  lemma {:induction false} InsertAllIncreasing(cs: seq<Antenna>)
    requires Increasing(cs)
    ensures InsertAll(cs) == cs
  {
    if cs != [] {
      var init := cs[..|cs| - 1];
      InsertAllIncreasing(init);
      InsertedAtEnd(init, cs[|cs| - 1]);
    }
  }

  // ---------------------------------------------------------------------------
  // Removal
  // ---------------------------------------------------------------------------

  /** Where the removal walk stops: the first record at (x, y), or the end. */
  function FirstAt(s: seq<Antenna>, x: int, y: int): (i: nat)
    ensures i <= |s|
    ensures forall j :: 0 <= j < i ==> !At(s[j], x, y)
    ensures i < |s| ==> At(s[i], x, y)
  {
    if s == [] || At(s[0], x, y) then 0 else 1 + FirstAt(s[1..], x, y)
  }

  /** Some record of the list sits at (x, y). */
  predicate HasAt(s: seq<Antenna>, x: int, y: int)
  {
    exists j :: 0 <= j < |s| && At(s[j], x, y)
  }

  /** The list `removerAntena` returns. */
  function Removed(s: seq<Antenna>, x: int, y: int): (r: seq<Antenna>)
    ensures |r| == if HasAt(s, x, y) then |s| - 1 else |s|
  {
    var i := FirstAt(s, x, y);
    if i == |s| then s else s[..i] + s[i + 1..]
  }

  /** Removal unlinks exactly the first record at (x, y), whatever its
      frequency, and keeps the others in order; with no record there the
      list is unchanged. */
  lemma RemovedExactlyFirst(s: seq<Antenna>, x: int, y: int)
    ensures !HasAt(s, x, y) ==> Removed(s, x, y) == s
    ensures forall i :: 0 <= i < |s| && At(s[i], x, y) &&
                        (forall j :: 0 <= j < i ==> !At(s[j], x, y)) ==>
                        Removed(s, x, y) == s[..i] + s[i + 1..]
  {
    var k := FirstAt(s, x, y);
    forall i | 0 <= i < |s| && At(s[i], x, y) && (forall j :: 0 <= j < i ==> !At(s[j], x, y))
      ensures Removed(s, x, y) == s[..i] + s[i + 1..]
    {
      assert k == i;
    }
  }

  /** The contents after a removal: one copy of the removed record fewer. */
  lemma RemovedContents(s: seq<Antenna>, x: int, y: int)
    requires HasAt(s, x, y)
    ensures var i := FirstAt(s, x, y);
            i < |s| && multiset(Removed(s, x, y)) + multiset{s[i]} == multiset(s)
  {
    var i := FirstAt(s, x, y);
    var j :| 0 <= j < |s| && At(s[j], x, y);
    assert i <= j;
    DropContents(s, i);
    assert Removed(s, x, y) == s[..i] + s[i + 1..];
  }

  lemma DropContents(s: seq<Antenna>, i: nat)
    requires i < |s|
    ensures multiset(s[..i] + s[i + 1..]) + multiset{s[i]} == multiset(s)
  {
    var before, after := s[..i], s[i + 1..];
    assert s == before + ([s[i]] + after);
  }

  /** Removing one element from a sorted list of unique records keeps it so. */
  lemma DropValid(s: seq<Antenna>, i: nat)
    requires i < |s|
    ensures Sorted(s) ==> Sorted(s[..i] + s[i + 1..])
    ensures Unique(s) ==> Unique(s[..i] + s[i + 1..])
  {
    var r := s[..i] + s[i + 1..];
    assert forall j :: 0 <= j < |r| ==> r[j] == s[if j < i then j else j + 1];
  }

  /** Removal keeps the list sorted and free of duplicates. */
  lemma RemovedValid(s: seq<Antenna>, x: int, y: int)
    requires Sorted(s) && Unique(s)
    ensures Sorted(Removed(s, x, y)) && Unique(Removed(s, x, y))
  {
    var i := FirstAt(s, x, y);
    if i < |s| {
      DropValid(s, i);
    }
  }

  // ---------------------------------------------------------------------------
  // The list object
  // ---------------------------------------------------------------------------

  /** The linked list, observed through the records in link order. */
  class AntennaList {
    var nodes: seq<Antenna>

    /** What every list built by Insert and Remove satisfies. */
    ghost predicate Valid()
      reads this
    {
      Sorted(nodes) && Unique(nodes)
    }

    /** The empty list (a NULL head). */
    constructor ()
      ensures nodes == [] && Valid()
    {
      nodes := [];
    }

    /** inserirAntena: refuse an exact duplicate, otherwise splice the new
        record in before the first one that is not below it. */
    method Insert(freq: char, x: int, y: int)
      modifies this
      ensures nodes == Inserted(old(nodes), Antenna(freq, x, y))
      ensures old(Valid()) ==> Valid()
    {
      var nova := Antenna(freq, x, y);
      if Valid() {
        InsertedSorted(nodes, nova);
        InsertedUnique(nodes, nova);
      }
      if nodes == [] {
        nodes := [nova];
        return;
      }
      // look for a record with the same frequency and position
      var aux := 0;
      while aux < |nodes|
        invariant 0 <= aux <= |nodes|
        invariant forall j :: 0 <= j < aux ==> nodes[j] != nova
      {
        if nodes[aux].freq == freq && nodes[aux].x == x && nodes[aux].y == y {
          return;
        }
        aux := aux + 1;
      }
      // a new head
      if nodes[0].x > x || (nodes[0].x == x && nodes[0].y > y) {
        nodes := [nova] + nodes;
        return;
      }
      // walk to the first record that is not below the new one
      var anterior: Option<nat> := None;
      aux := 0;
      while aux < |nodes| && (nodes[aux].x < x || (nodes[aux].x == x && nodes[aux].y < y))
        invariant 0 <= aux <= |nodes|
        invariant anterior == if aux == 0 then None else Some(aux - 1)
        invariant forall j :: 0 <= j < aux ==> LessXY(nodes[j], nova)
      {
        anterior := Some(aux);
        aux := aux + 1;
      }
      assert aux == InsertPos(nodes, nova);
      // with no predecessor the node is never reachable from the head
      if anterior.Some? {
        nodes := nodes[..aux] + [nova] + nodes[aux..];
      }
    }

    /** removerAntena: unlink the first record at (x, y), if there is one. */
    method Remove(x: int, y: int)
      modifies this
      ensures nodes == Removed(old(nodes), x, y)
      ensures old(Valid()) ==> Valid()
    {
      if Valid() {
        RemovedValid(nodes, x, y);
      }
      var atual := 0;
      while atual < |nodes|
        invariant 0 <= atual <= |nodes|
        invariant forall j :: 0 <= j < atual ==> !At(nodes[j], x, y)
      {
        if nodes[atual].x == x && nodes[atual].y == y {
          assert atual == FirstAt(nodes, x, y);
          nodes := nodes[..atual] + nodes[atual + 1..];
          return;
        }
        atual := atual + 1;
      }
      assert FirstAt(nodes, x, y) == |nodes|;
    }

    /** libertarMemoria: drop the records one by one from the head. */
    method Free()
      modifies this
      ensures nodes == []
    {
      while nodes != []
        decreases |nodes|
      {
        nodes := nodes[1..];
      }
    }
  }
}
