/** Parent links followed by name, as groups and cloned zones are in a document: walks, their ends and their lengths. */
module Forest {
  import opened Bytes

  type Id = string

  datatype Node = Node(id: Id, up: Option<Id>)

  /** The first node of a name, as `iter().find` returns it. */
  function Find(nodes: seq<Node>, id: Id): (r: Option<Node>)
    ensures r.Some? ==> r.value in nodes && r.value.id == id
    ensures r.None? ==> forall n :: n in nodes ==> n.id != id
  {
    if nodes == [] then None else if nodes[0].id == id then Some(nodes[0]) else Find(nodes[1..], id)
  }

  /** Of several nodes of one name, the first counts. */
  lemma {:induction false} FindsFirst(nodes: seq<Node>, i: nat)
    requires i < |nodes| && forall j :: 0 <= j < i ==> nodes[j].id != nodes[i].id
    ensures Find(nodes, nodes[i].id) == Some(nodes[i])
  {
    if i > 0 {
      FindsFirst(nodes[1..], i - 1);
    }
  }

  function Up(nodes: seq<Node>, id: Id): (r: Option<Id>) {
    var n := Find(nodes, id);
    if n.None? then None else n.value.up
  }

  /** Where `n` parent links from `start` lead. */
  function Walk(nodes: seq<Node>, start: Option<Id>, n: nat): (r: Option<Id>) {
    if n == 0 then start
    else
      var before := Walk(nodes, start, n - 1);
      if before.None? then None else Up(nodes, before.value)
  }

  /** The chain of parents is finite. */
  ghost predicate Ends(nodes: seq<Node>, start: Option<Id>) {
    exists n: nat :: Walk(nodes, start, n).None?
  }

  lemma {:induction false} WalkOn(nodes: seq<Node>, start: Option<Id>, n: nat, k: nat)
    ensures Walk(nodes, start, n + k) == Walk(nodes, Walk(nodes, start, n), k)
  {
    hide Up;
    if k > 0 {
      WalkOn(nodes, start, n, k - 1);
      assert n + k - 1 == n + (k - 1);
    }
  }

  lemma {:induction false} StaysEnded(nodes: seq<Node>, start: Option<Id>, n: nat, m: nat)
    requires n <= m && Walk(nodes, start, n).None?
    ensures Walk(nodes, start, m).None?
    decreases m
  {
    if n < m {
      StaysEnded(nodes, start, n, m - 1);
    }
  }

  /** A walk that comes back never ends. */
  lemma {:induction false} Repeats(nodes: seq<Node>, start: Option<Id>, i: nat, p: nat, k: nat)
    requires p > 0 && Walk(nodes, start, i).Some? && Walk(nodes, start, i + p) == Walk(nodes, start, i)
    ensures Walk(nodes, start, i + k).Some?
    decreases k
  {
    hide Walk;
    if k <= p {
      if Walk(nodes, start, i + k).None? {
        StaysEnded(nodes, start, i + k, i + p);
      }
    } else {
      Repeats(nodes, start, i, p, k - p);
      WalkOn(nodes, start, i, k - p);
      WalkOn(nodes, start, i + p, k - p);
      assert i + p + (k - p) == i + k;
    }
  }

  lemma Distinct(nodes: seq<Node>, start: Option<Id>, i: nat, j: nat)
    requires Ends(nodes, start) && i < j && Walk(nodes, start, j).Some?
    ensures Walk(nodes, start, i) != Walk(nodes, start, j)
  {
    hide Walk;
    if Walk(nodes, start, i) == Walk(nodes, start, j) {
      var n: nat :| Walk(nodes, start, n).None?;
      assert i + (j - i) == j;
      Repeats(nodes, start, i, j - i, n);
      StaysEnded(nodes, start, n, i + n);
    }
  }

  function Ids(nodes: seq<Node>): (r: set<Id>) {
    set n | n in nodes :: n.id
  }

  lemma {:induction false} FewIds(nodes: seq<Node>)
    ensures |Ids(nodes)| <= |nodes|
  {
    if nodes != [] {
      FewIds(nodes[1..]);
      assert Ids(nodes) == {nodes[0].id} + Ids(nodes[1..]);
    }
  }

  /** The names met in the first `k` positions. */
  function Met(nodes: seq<Node>, start: Option<Id>, k: nat): (r: set<Id>) {
    if k == 0 then {}
    else Met(nodes, start, k - 1) +
         (if Walk(nodes, start, k - 1).Some? then {Walk(nodes, start, k - 1).value} else {})
  }

  lemma {:induction false} MetBefore(nodes: seq<Node>, start: Option<Id>, k: nat, id: Id)
    requires id in Met(nodes, start, k)
    ensures exists i: nat :: i < k && Walk(nodes, start, i) == Some(id)
  {
    hide Walk;
    if id in Met(nodes, start, k - 1) {
      MetBefore(nodes, start, k - 1, id);
    } else {
      assert Walk(nodes, start, k - 1) == Some(id);
    }
  }

  lemma KnownChild(nodes: seq<Node>, start: Option<Id>, k: nat)
    requires Walk(nodes, start, k + 1).Some?
    ensures Walk(nodes, start, k).Some? && Walk(nodes, start, k).value in Ids(nodes)
  {
    hide Find;
    assert Find(nodes, Walk(nodes, start, k).value).Some?;
  }

  /** The first `k` positions hold different names. */
  ghost predicate NoRepeat(nodes: seq<Node>, start: Option<Id>, k: nat) {
    forall i: nat, j: nat :: i < j < k ==> Walk(nodes, start, i) != Walk(nodes, start, j)
  }

  /** The first `k` positions hold names of nodes. */
  ghost predicate Known(nodes: seq<Node>, start: Option<Id>, k: nat) {
    forall i: nat :: i < k ==> Walk(nodes, start, i).Some? && Walk(nodes, start, i).value in Ids(nodes)
  }

  lemma {:induction false} KnownBefore(nodes: seq<Node>, start: Option<Id>, k: nat)
    requires Walk(nodes, start, k).Some?
    ensures Known(nodes, start, k)
  {
    hide Walk, Ids;
    if k > 0 {
      KnownChild(nodes, start, k - 1);
      KnownBefore(nodes, start, k - 1);
    }
  }

  lemma {:induction false} MetSize(nodes: seq<Node>, start: Option<Id>, k: nat)
    requires NoRepeat(nodes, start, k) && Known(nodes, start, k)
    ensures |Met(nodes, start, k)| == k && Met(nodes, start, k) <= Ids(nodes)
  {
    hide Walk, Ids;
    if k > 0 {
      MetSize(nodes, start, k - 1);
      NewName(nodes, start, k - 1);
      var last := Walk(nodes, start, k - 1).value;
      assert Met(nodes, start, k) == Met(nodes, start, k - 1) + {last};
    }
  }

  lemma NewName(nodes: seq<Node>, start: Option<Id>, k: nat)
    requires NoRepeat(nodes, start, k + 1) && Walk(nodes, start, k).Some?
    ensures Walk(nodes, start, k).value !in Met(nodes, start, k)
  {
    hide Walk, Met;
    if Walk(nodes, start, k).value in Met(nodes, start, k) {
      MetBefore(nodes, start, k, Walk(nodes, start, k).value);
    }
  }

  /** Pigeonhole: different names of nodes are no more than the nodes. */
  lemma Bounded(nodes: seq<Node>, start: Option<Id>, k: nat)
    requires NoRepeat(nodes, start, k) && Known(nodes, start, k)
    ensures k <= |nodes|
  {
    hide Walk, Met, Ids, NoRepeat, Known;
    MetSize(nodes, start, k);
    FewIds(nodes);
    SubsetSize(Met(nodes, start, k), Ids(nodes));
  }

  lemma NoRepeatIfEnds(nodes: seq<Node>, start: Option<Id>, k: nat)
    requires Ends(nodes, start) && (k > 0 ==> Walk(nodes, start, k - 1).Some?)
    ensures NoRepeat(nodes, start, k)
  {
    hide Walk, Ends;
    forall i: nat, j: nat | i < j < k ensures Walk(nodes, start, i) != Walk(nodes, start, j) {
      if Walk(nodes, start, j).None? {
        StaysEnded(nodes, start, j, k - 1);
      }
      Distinct(nodes, start, i, j);
    }
  }

  ghost predicate Hits(nodes: seq<Node>, start: Option<Id>, hits: set<Id>, n: nat) {
    Walk(nodes, start, n).Some? && Walk(nodes, start, n).value in hits
  }

  /** The first hit at or after position `lo`, which is 0 or 1, comes before the walk repeats itself, cyclic or not. */
  lemma {:induction false} FirstHit(nodes: seq<Node>, start: Option<Id>, hits: set<Id>, lo: nat,
                                    n: nat) returns (m: nat)
    requires lo <= 1 && lo <= n && Hits(nodes, start, hits, n)
    ensures lo <= m <= n && Hits(nodes, start, hits, m)
    ensures forall j: nat :: lo <= j < m ==> !Hits(nodes, start, hits, j)
    ensures NoRepeat(nodes, start, m) && (lo == 0 ==> NoRepeat(nodes, start, m + 1))
    decreases n
  {
    hide Walk;
    if j: nat :| lo <= j < n && Hits(nodes, start, hits, j) {
      m := FirstHit(nodes, start, hits, lo, j);
    } else {
      m := n;
      forall i: nat, j: nat | i < j <= m && (j < m || lo == 0) ensures Walk(nodes, start, i) != Walk(nodes, start, j) {
        if Walk(nodes, start, i) == Walk(nodes, start, j) {
          WalkOn(nodes, start, i, m - j);
          WalkOn(nodes, start, j, m - j);
          assert j + (m - j) == m;
          assert !Hits(nodes, start, hits, i + (m - j));
        }
      }
    }
  }

  /** A finite chain is no longer than the list of nodes: iteration bounds of that length are never reached. */
  lemma ShortWalk(nodes: seq<Node>, start: Option<Id>)
    requires Ends(nodes, start)
    ensures Walk(nodes, start, |nodes| + 1).None?
  {
    hide Walk, Ends, NoRepeat, Known;
    var k := |nodes| + 1;
    if Walk(nodes, start, k).Some? {
      KnownBefore(nodes, start, k);
      KnownChild(nodes, start, k - 1);
      NoRepeatIfEnds(nodes, start, k);
      Bounded(nodes, start, k);
    }
  }

  lemma {:induction false} SubsetSize(a: set<Id>, b: set<Id>)
    requires a <= b
    ensures |a| <= |b|
  {
    if a != {} {
      var x :| x in a;
      SubsetSize(a - {x}, b - {x});
    }
  }

  /** From a node that is on no cycle and has a name of its own, at most the other nodes are above it. */
  lemma FewAncestors(nodes: seq<Node>, id: Id)
    requires Ends(nodes, Some(id))
    ensures Walk(nodes, Up(nodes, id), |nodes|).None?
  {
    hide Walk, Ends;
    ShortWalk(nodes, Some(id));
    WalkOn(nodes, Some(id), 1, |nodes|);
    assert Walk(nodes, Some(id), 1) == Up(nodes, id) by { NothingMet(nodes, id); NextStep(nodes, id, 0); }
    assert 1 + |nodes| == |nodes| + 1;
  }

  /** The validator's cycle check: follow the parents, remembering every name. */
  method Cyclic(nodes: seq<Node>, start: Id) returns (cyclic: bool)
    ensures cyclic <==> !Ends(nodes, Some(start))
  {
    hide Walk, Met, Ids, Up;
    var seen := {};
    var next := Some(start);
    ghost var n: nat := 0;
    NothingMet(nodes, start);
    while next.Some?
      invariant next == Walk(nodes, Some(start), n) && seen == Met(nodes, Some(start), n)
      decreases next.Some?, |Ids(nodes) - seen|
    {
      if next.value in seen {
        MetBefore(nodes, Some(start), n, next.value);
        NeverEnds(nodes, start, n);
        return true;
      }
      ghost var before := Ids(nodes) - seen;
      NextStep(nodes, start, n);
      seen := seen + {next.value};
      if next.value in Ids(nodes) {
        assert Ids(nodes) - seen == before - {next.value};
      }
      next := Up(nodes, next.value);
      n := n + 1;
    }
    return false;
  }

  lemma NothingMet(nodes: seq<Node>, start: Id)
    ensures Walk(nodes, Some(start), 0) == Some(start) && Met(nodes, Some(start), 0) == {}
  {
  }

  lemma NextStep(nodes: seq<Node>, start: Id, n: nat)
    requires Walk(nodes, Some(start), n).Some?
    ensures var at := Walk(nodes, Some(start), n).value;
            && Walk(nodes, Some(start), n + 1) == Up(nodes, at)
            && Met(nodes, Some(start), n + 1) == Met(nodes, Some(start), n) + {at}
            && (Up(nodes, at).Some? ==> at in Ids(nodes))
  {
    hide Find;
    assert Met(nodes, Some(start), n + 1) == Met(nodes, Some(start), n + 1 - 1) + {Walk(nodes, Some(start), n).value};
  }

  lemma NeverEnds(nodes: seq<Node>, start: Id, n: nat)
    requires Walk(nodes, Some(start), n).Some?
    requires exists i: nat :: i < n && Walk(nodes, Some(start), i) == Walk(nodes, Some(start), n)
    ensures !Ends(nodes, Some(start))
  {
    hide Walk;
    if Ends(nodes, Some(start)) {
      var i: nat :| i < n && Walk(nodes, Some(start), i) == Walk(nodes, Some(start), n);
      Distinct(nodes, Some(start), i, n);
    }
  }
}
