/** `build_tree`: records are placed under the most recent record one level up.
    Records sit in an array and refer to their children by position, so that a
    record appended to a parent's list and later given children of its own is
    the same record in both places, as the shared dictionaries are. */
module TreeBuilder {
  import opened Wrappers
  import opened LineParser

  /** `s.count(c)`. */
  function CountChar(s: string, c: char): nat
  {
    if s == [] then 0 else CountChar(s[..|s| - 1], c) + (if s[|s| - 1] == c then 1 else 0)
  }

  /** A character occurs in a string exactly when its count is positive, and
      never more often than the string is long. */
  lemma {:induction false} CountCharBounds(s: string, c: char)
    ensures CountChar(s, c) <= |s|
    ensures CountChar(s, c) == 0 <==> c !in s
  {
    if s != [] {
      CountCharBounds(s[..|s| - 1], c);
      assert s == s[..|s| - 1] + [s[|s| - 1]];
    }
  }

  /** The level of an id: the number of dots minus one, so `1.` is level 0, `1.1.` is level 1
      and an id without any dot, such as `1`, is level -1. */
  function Level(id: string): int
  {
    CountChar(id, '.') - 1
  }

  /** A level is at least -1 and below the length of the id, and it is -1
      exactly when the id has no dot. */
  lemma LevelRange(id: string)
    ensures -1 <= Level(id) < |id|
    ensures Level(id) == -1 <==> '.' !in id
  {
    CountCharBounds(id, '.');
  }

  /** The level of every record, in order. */
  function Levels(rs: seq<Record>): (lv: seq<int>)
    ensures |lv| == |rs|
    ensures forall i :: 0 <= i < |rs| ==> lv[i] == Level(rs[i].id)
  {
    if rs == [] then [] else Levels(rs[..|rs| - 1]) + [Level(rs[|rs| - 1].id)]
  }

  /** `parent_map` once the first `m` records have been reached: each of them
      was stored under its own level, later ones overwriting earlier ones. */
  function FrontierMap(lv: seq<int>, m: nat): map<int, nat>
    requires m <= |lv|
  {
    if m == 0 then map[] else FrontierMap(lv, m - 1)[lv[m - 1] := m - 1]
  }

  /** `parent_map[k]` is the last record reached so far at level `k`, and there is
      no entry for a level no record has had yet. */
  lemma {:induction false} FrontierLatest(lv: seq<int>, m: nat, k: int)
    requires m <= |lv|
    ensures k in FrontierMap(lv, m) ==>
      var i := FrontierMap(lv, m)[k];
      i < m && lv[i] == k && forall x :: i < x < m ==> lv[x] != k
    ensures k !in FrontierMap(lv, m) ==> forall x :: 0 <= x < m ==> lv[x] != k
  {
    if m > 0 {
      FrontierLatest(lv, m - 1, k);
    }
  }

  /** The parent of record `j`: a record at level 0 has no parent; any other record goes under
      whatever `parent_map` holds one level up when it is reached. */
  function ParentOf(lv: seq<int>, j: nat): (r: Option<nat>)
    requires j < |lv|
    ensures r.None? ==> lv[j] == 0 || forall i :: 0 <= i < j ==> lv[i] != lv[j] - 1
    ensures r.Some? ==> lv[j] != 0 && r.value < j && lv[r.value] == lv[j] - 1
    ensures r.Some? ==> forall i :: r.value < i < j ==> lv[i] != lv[j] - 1
  {
    var m := FrontierMap(lv, j);
    FrontierLatest(lv, j, lv[j] - 1);
    if lv[j] != 0 && lv[j] - 1 in m then Some(m[lv[j] - 1]) else None
  }

  /** The positions of the level-0 records among the first `m`: the list `tree`. */
  function Roots(lv: seq<int>, m: nat): (r: seq<nat>)
    requires m <= |lv|
    ensures forall a :: 0 <= a < |r| ==> r[a] < m && lv[r[a]] == 0
  {
    if m == 0 then []
    else
      var last: nat := m - 1;
      var rest := Roots(lv, last);
      rest + (if lv[last] == 0 then [last] else [])
  }

  /** The positions appended to the children of record `p` while the first `m`
      records are placed. */
  function Attached(lv: seq<int>, p: nat, m: nat): (r: seq<nat>)
    requires m <= |lv|
    ensures forall a :: 0 <= a < |r| ==> r[a] < m && ParentOf(lv, r[a]) == Some(p)
  {
    if m == 0 then []
    else
      var last: nat := m - 1;
      var rest := Attached(lv, p, last);
      rest + (if ParentOf(lv, last) == Some(p) then [last] else [])
  }

  /** The records once the first `m` have been placed: record `m - 1` is
      appended to the children of its parent, if it has one. */
  function Placed(rs: seq<Record>, lv: seq<int>, m: nat): (r: seq<Record>)
    requires |lv| == |rs| && m <= |rs|
    ensures |r| == |rs|
    ensures forall i :: 0 <= i < |rs| ==> r[i].id == rs[i].id
  {
    if m == 0 then rs
    else
      var prev := Placed(rs, lv, m - 1);
      match ParentOf(lv, m - 1)
      case None => prev
      case Some(p) => prev[p := prev[p].(children := prev[p].children + [m - 1])]
  }

  /** Once the first `m` records are placed, each record has kept its fields and
      gained, after the children it came with, exactly the records placed under
      it, in order. */
  lemma {:induction false} PlacedAt(rs: seq<Record>, lv: seq<int>, m: nat, i: nat)
    requires |lv| == |rs| && m <= |rs| && i < |rs|
    ensures Placed(rs, lv, m)[i] == rs[i].(children := rs[i].children + Attached(lv, i, m))
  {
    if m == 0 {
      assert rs[i].children + [] == rs[i].children;
    } else {
      var prev := Placed(rs, lv, m - 1);
      PlacedAt(rs, lv, m - 1, i);
      AttachedStep(lv, i, m - 1);
      if ParentOf(lv, m - 1) == Some(i) {
        assert Placed(rs, lv, m)[i] == prev[i].(children := prev[i].children + [m - 1]);
        Append3(rs[i].children, Attached(lv, i, m - 1), [m - 1]);
      } else {
        assert Placed(rs, lv, m)[i] == prev[i];
        assert Attached(lv, i, m - 1) + [] == Attached(lv, i, m - 1);
      }
    }
  }

  /** Records that start without children end with exactly the records placed
      under them, in the order they were reached. */
  lemma PlacedFromFresh(rs: seq<Record>)
    requires forall i :: 0 <= i < |rs| ==> rs[i].children == []
    ensures forall i :: 0 <= i < |rs| ==>
      Placed(rs, Levels(rs), |rs|)[i] == rs[i].(children := Attached(Levels(rs), i, |rs|))
  {
    forall i | 0 <= i < |rs|
      ensures Placed(rs, Levels(rs), |rs|)[i] == rs[i].(children := Attached(Levels(rs), i, |rs|))
    {
      PlacedAt(rs, Levels(rs), |rs|, i);
      assert [] + Attached(Levels(rs), i, |rs|) == Attached(Levels(rs), i, |rs|);
    }
  }

  /** `build_tree`, in place: each record's children grow by the records placed
      under it, in order, and the result lists the level-0 records, in order. */
  method BuildTree(nodes: array<Record>) returns (tree: seq<nat>)
    modifies nodes
    ensures tree == Roots(Levels(old(nodes[..])), nodes.Length)
    ensures nodes[..] == Placed(old(nodes[..]), Levels(old(nodes[..])), nodes.Length)
  {
    ghost var orig := nodes[..];
    ghost var lv := Levels(orig);
    tree := [];
    var parentMap: map<int, nat> := map[];
    for j := 0 to nodes.Length
      invariant tree == Roots(lv, j)
      invariant parentMap == FrontierMap(lv, j)
      invariant nodes[..] == Placed(orig, lv, j)
    {
      var level := Level(nodes[j].id);
      assert level == lv[j];
      RootsStep(lv, j);
      FrontierStep(lv, j);
      if level == 0 {
        tree := tree + [j];
      } else {
        var parentLevel := level - 1;
        if parentLevel in parentMap {
          var p := parentMap[parentLevel];
          assert ParentOf(lv, j) == Some(p);
          AppendChild(nodes, p, j);
        }
      }
      parentMap := parentMap[level := j];
    }
  }

  /** Appends position `j` to the children of record `p`; nothing else changes. */
  method AppendChild(nodes: array<Record>, p: nat, j: nat)
    requires p < nodes.Length
    modifies nodes
    ensures nodes[..] == old(nodes[..])[p := old(nodes[p]).(children := old(nodes[p]).children + [j])]
  {
    nodes[p] := nodes[p].(children := nodes[p].children + [j]);
  }

  lemma FrontierStep(lv: seq<int>, j: nat)
    requires j < |lv|
    ensures FrontierMap(lv, j + 1) == FrontierMap(lv, j)[lv[j] := j]
  {
  }

  lemma RootsStep(lv: seq<int>, j: nat)
    requires j < |lv|
    ensures lv[j] == 0 ==> Roots(lv, j + 1) == Roots(lv, j) + [j]
    ensures lv[j] != 0 ==> Roots(lv, j + 1) == Roots(lv, j)
  {
    assert Roots(lv, j) + [] == Roots(lv, j);
  }

  lemma Append3(a: seq<nat>, b: seq<nat>, c: seq<nat>)
    ensures a + b + c == a + (b + c)
  {
  }

  lemma AttachedStep(lv: seq<int>, p: nat, j: nat)
    requires j < |lv|
    ensures Attached(lv, p, j + 1) == Attached(lv, p, j) + (if ParentOf(lv, j) == Some(p) then [j] else [])
  {
  }

  /** `tree` lists the level-0 records in the order they were reached. */
  lemma {:induction false} RootsOrdered(lv: seq<int>, m: nat, a: nat, b: nat)
    requires m <= |lv| && a < b < |Roots(lv, m)|
    ensures Roots(lv, m)[a] < Roots(lv, m)[b]
  {
    if b < |Roots(lv, m - 1)| {
      RootsOrdered(lv, m - 1, a, b);
    }
  }

  /** A record is in `tree` exactly when its level is 0. */
  lemma {:induction false} RootsComplete(lv: seq<int>, m: nat, j: nat)
    requires j < m <= |lv|
    ensures j in Roots(lv, m) <==> lv[j] == 0
  {
    if j < m - 1 {
      RootsComplete(lv, m - 1, j);
    }
  }

  /** The children a record gains are in the order they were reached. */
  lemma {:induction false} AttachedOrdered(lv: seq<int>, p: nat, m: nat, a: nat, b: nat)
    requires m <= |lv| && a < b < |Attached(lv, p, m)|
    ensures Attached(lv, p, m)[a] < Attached(lv, p, m)[b]
  {
    if b < |Attached(lv, p, m - 1)| {
      AttachedOrdered(lv, p, m - 1, a, b);
    }
  }

  /** A record gains as a child exactly the records whose parent it is. */
  lemma {:induction false} AttachedComplete(lv: seq<int>, p: nat, m: nat, j: nat)
    requires j < m <= |lv|
    ensures j in Attached(lv, p, m) <==> ParentOf(lv, j) == Some(p)
  {
    if j < m - 1 {
      AttachedComplete(lv, p, m - 1, j);
    }
  }

  /** Every record ends up in at most one place: it is a root, or the child of
      its one parent, or, when no parent is found, nowhere in the tree. */
  lemma PlacedOnce(lv: seq<int>, j: nat, p: nat, q: nat)
    requires j < |lv|
    ensures j in Roots(lv, |lv|) ==> j !in Attached(lv, p, |lv|)
    ensures j in Attached(lv, p, |lv|) && j in Attached(lv, q, |lv|) ==> p == q
  {
    RootsComplete(lv, |lv|, j);
    AttachedComplete(lv, p, |lv|, j);
    AttachedComplete(lv, q, |lv|, j);
  }

  /** An id without a dot is level -1: no record is one level above it and none
      is level 0, so it is dropped from the tree. */
  lemma DotlessDropped(rs: seq<Record>, j: nat, p: nat)
    requires j < |rs| && '.' !in rs[j].id
    ensures Levels(rs)[j] == -1
    ensures j !in Roots(Levels(rs), |rs|) && j !in Attached(Levels(rs), p, |rs|)
  {
    var lv := Levels(rs);
    CountCharBounds(rs[j].id, '.');
    RootsComplete(lv, |rs|, j);
    AttachedComplete(lv, p, |rs|, j);
    match ParentOf(lv, j)
    case None =>
    case Some(_) =>
      assert false;
  }

  /** `1.`, `1.1.`, `2.`, `2.1.1.`: the last record goes under `1.1.`, the latest
      level-1 record, although `2.` has been reached since. */
  lemma StaleParent()
    ensures ParentOf([0, 1, 0, 2], 3) == Some(1)
  {
    var lv := [0, 1, 0, 2];
    FrontierStep(lv, 0);
    FrontierStep(lv, 1);
    FrontierStep(lv, 2);
  }

  /** `1.`, `1.1.1.`: a record two levels below the last one has no parent. */
  lemma LevelGapDropped()
    ensures ParentOf([0, 2], 1) == None
  {
  }

  /** The dot count gives the levels of the ids used in the examples below. */
  lemma LevelExamples()
    ensures Level("1.") == 0 && Level("1.1.") == 1 && Level("1") == -1 && Level("1.1") == 0
    ensures Level("2.") == 0 && Level("2.1.1.") == 2 && Level("1.1.1.") == 2
    ensures Level("1.2") == 0 && Level("1.1.1") == 1
  {
    assert "1."[..1] == "1" && "1"[..0] == [];
    assert "1.1."[..3] == "1.1" && "1.1"[..2] == "1.";
    assert "2."[..1] == "2" && "2"[..0] == [];
    assert "2.1.1."[..5] == "2.1.1" && "2.1.1"[..4] == "2.1." && "2.1."[..3] == "2.1";
    assert "2.1"[..2] == "2.";
    assert "1.1.1."[..5] == "1.1.1" && "1.1.1"[..4] == "1.1.";
    assert "1.2"[..2] == "1.";
  }

  /** A record is a root exactly when its id holds exactly one dot. */
  lemma RootIffOneDot(rs: seq<Record>, j: nat)
    requires j < |rs|
    ensures j in Roots(Levels(rs), |rs|) <==> CountChar(rs[j].id, '.') == 1
  {
    RootsComplete(Levels(rs), |rs|, j);
  }

  /** Ids written without a trailing dot, `1`, `1.1`, `1.2`, `1.1.1`, are levels
      -1, 0, 0 and 1: `1` is dropped, `1.1` and `1.2` are the roots, and `1.1.1`
      goes under `1.2`, the latest level-0 record. */
  lemma DotSeparatedIds()
    ensures Roots([-1, 0, 0, 1], 4) == [1, 2]
    ensures ParentOf([-1, 0, 0, 1], 0) == None
    ensures ParentOf([-1, 0, 0, 1], 3) == Some(2)
  {
    var lv := [-1, 0, 0, 1];
    FrontierStep(lv, 0);
    FrontierStep(lv, 1);
    FrontierStep(lv, 2);
  }
}
