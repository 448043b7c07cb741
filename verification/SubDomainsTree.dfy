/** The tree of domain labels behind `||domain` rules, pruned as rules are inserted. */
module SubDomainsTree {
  import opened Text

  /** A domain as its labels from the right: `a.b.com` is `["com", "b", "a"]`. */
  type Path = seq<string>

  datatype DomainPart = DomainPart(included: bool, children: map<string, DomainPart>)

  type Level = map<string, DomainPart>

  /** What the walk of `contains` answers, as a recursion. */
  predicate Covers(m: Level, q: Path)
    decreases |q|
  {
    q != [] && q[0] in m && (m[q[0]].included || Covers(m[q[0]].children, q[1..]))
  }

  function EntryOf(m: Level, part: string): DomainPart {
    if part in m then m[part] else DomainPart(false, map[])
  }

  /** What one insertion leaves: an included node on the way stops it with no change; else the
      last node is included and loses its children. */
  function Inserted(m: Level, path: Path): Level
    decreases |path|
  {
    if path == [] then m
    else if |path| == 1 then
      if path[0] in m && m[path[0]].included then m else m[path[0] := DomainPart(true, map[])]
    else
      var entry := EntryOf(m, path[0]);
      if entry.included then m
      else m[path[0] := DomainPart(false, Inserted(entry.children, path[1..]))]
  }

  function InsertAll(paths: seq<Path>): Level {
    if paths == [] then map[] else Inserted(InsertAll(paths[..|paths| - 1]), paths[|paths| - 1])
  }

  /** Included nodes have no children, and childless nodes are included. */
  ghost predicate PrunedPart(part: DomainPart) {
    && (part.included <==> part.children == map[])
    && forall l :: l in part.children ==> PrunedPart(part.children[l])
  }

  ghost predicate Pruned(m: Level) {
    forall l :: l in m ==> PrunedPart(m[l])
  }

  lemma PrefixTail(p: Path, q: Path)
    requires p != [] && q != []
    ensures p <= q <==> p[0] == q[0] && p[1..] <= q[1..]
  {
  }

  lemma {:induction false} InsertedCovers(m: Level, path: Path, q: Path)
    requires path != []
    ensures Covers(Inserted(m, path), q) <==> Covers(m, q) || path <= q
    decreases |path|
  {
    if q != [] {
      PrefixTail(path, q);
      if |path| > 1 && q[0] == path[0] && !EntryOf(m, path[0]).included {
        InsertedCovers(EntryOf(m, path[0]).children, path[1..], q[1..]);
      }
    }
  }

  lemma {:induction false} InsertedPruned(m: Level, path: Path)
    requires path != [] && Pruned(m)
    ensures Pruned(Inserted(m, path)) && Inserted(m, path) != map[]
    decreases |path|
  {
    if |path| > 1 && !EntryOf(m, path[0]).included {
      InsertedPruned(EntryOf(m, path[0]).children, path[1..]);
    }
    assert path[0] in Inserted(m, path);
  }

  lemma {:induction false} InsertAllPruned(paths: seq<Path>)
    requires forall i :: 0 <= i < |paths| ==> paths[i] != []
    ensures Pruned(InsertAll(paths))
    ensures InsertAll(paths) == map[] <==> paths == []
  {
    if paths != [] {
      InsertAllPruned(paths[..|paths| - 1]);
      InsertedPruned(InsertAll(paths[..|paths| - 1]), paths[|paths| - 1]);
    }
  }

  ghost predicate SomeRuleIsPrefix(paths: seq<Path>, q: Path) {
    exists k :: 0 <= k < |paths| && paths[k] <= q
  }

  /** After any insertions a path is covered exactly when some inserted path is a prefix of it:
      the early return and the pruning lose nothing and add nothing. */
  lemma {:induction false} CoversIffSomeRule(paths: seq<Path>, q: Path)
    requires forall i :: 0 <= i < |paths| ==> paths[i] != []
    ensures Covers(InsertAll(paths), q) <==> SomeRuleIsPrefix(paths, q)
  {
    if paths != [] {
      var init, last := paths[..|paths| - 1], paths[|paths| - 1];
      CoversIffSomeRule(init, q);
      InsertedCovers(InsertAll(init), last, q);
      if SomeRuleIsPrefix(init, q) {
        var k :| 0 <= k < |init| && init[k] <= q;
        assert paths[k] <= q;
      }
    }
  }

  /** The paths that lead to included nodes. */
  ghost predicate IncludedAt(m: Level, p: Path)
    decreases |p|
  {
    p != [] && p[0] in m && if |p| == 1 then m[p[0]].included else IncludedAt(m[p[0]].children, p[1..])
  }

  ghost predicate ShortestCovered(m: Level, p: Path) {
    Covers(m, p) && forall q :: Covers(m, q) && q <= p ==> q == p
  }

  /** In a pruned tree the included nodes are the shortest covered paths. */
  lemma {:induction false} IncludedIffShortestCovered(m: Level, p: Path)
    requires Pruned(m)
    ensures IncludedAt(m, p) <==> ShortestCovered(m, p)
    decreases |p|
  {
    if p == [] || p[0] !in m {
    } else if |p| == 1 {
      assert !Covers(m[p[0]].children, p[1..]);
      forall q | Covers(m, q) && q <= p
        ensures q == p
      {
        assert |q| == 1;
      }
    } else if m[p[0]].included {
      assert PrunedPart(m[p[0]]);
      assert Covers(m, p[..1]) && p[..1] <= p;
    } else {
      var below := m[p[0]].children;
      IncludedIffShortestCovered(below, p[1..]);
      if ShortestCovered(below, p[1..]) {
        forall q | Covers(m, q) && q <= p
          ensures q == p
        {
          PrefixTail(q, p);
          assert Covers(below, q[1..]);
          assert q == [q[0]] + q[1..] && p == [p[0]] + p[1..];
        }
      }
      if ShortestCovered(m, p) {
        forall q | Covers(below, q) && q <= p[1..]
          ensures q == p[1..]
        {
          var longer := [p[0]] + q;
          assert longer[1..] == q;
          PrefixTail(longer, p);
          assert Covers(m, longer);
        }
      }
    }
  }

  /** So the included nodes are exactly the minimal inserted rules. */
  lemma IncludedIffMinimalRule(paths: seq<Path>, p: Path)
    requires forall i :: 0 <= i < |paths| ==> paths[i] != []
    ensures IncludedAt(InsertAll(paths), p)
       <==> p in paths && forall r :: r in paths && r <= p ==> r == p
  {
    hide InsertAll, IncludedAt, Covers;
    InsertAllPruned(paths);
    IncludedIffShortestCovered(InsertAll(paths), p);
    forall q
      ensures Covers(InsertAll(paths), q) <==> SomeRuleIsPrefix(paths, q)
    {
      CoversIffSomeRule(paths, q);
    }
    if IncludedAt(InsertAll(paths), p) {
      forall k | 0 <= k < |paths| && paths[k] <= p
        ensures paths[k] == p
      {
        assert paths[k] <= paths[k];
        assert SomeRuleIsPrefix(paths, paths[k]);
        assert Covers(InsertAll(paths), paths[k]);
      }
    }
    if p in paths && forall r :: r in paths && r <= p ==> r == p {
      assert p <= p;
      forall q | q <= p && Covers(InsertAll(paths), q)
        ensures q == p
      {
        var j :| 0 <= j < |paths| && paths[j] <= q;
        assert paths[j] in paths && paths[j] <= p;
      }
    }
  }

  // ----- The tree updated step by step

  /** The levels on the way down, put back around a new innermost node. */
  ghost function Plug(trail: seq<Level>, path: Path, part: DomainPart): Level
    requires |trail| == |path| >= 1
  {
    var last := |trail| - 1;
    var level := trail[last][path[last] := part];
    if last == 0 then level else Plug(trail[..last], path[..last], DomainPart(false, level))
  }

  ghost function PlugLevel(trail: seq<Level>, path: Path, level: Level): Level
    requires |trail| == |path|
  {
    if trail == [] then level else Plug(trail, path, DomainPart(false, level))
  }

  lemma PlugStep(trail: seq<Level>, path: Path, i: nat, current: Level, part: DomainPart)
    requires |trail| == i < |path|
    ensures Plug(trail + [current], path[..i + 1], part) == PlugLevel(trail, path[..i], current[path[i] := part])
  {
    assert (trail + [current])[..i] == trail && path[..i + 1][..i] == path[..i];
  }

  /** The walk down: the levels met, or the news that an included node covers the path. */
  method Descend(levels: Level, parts: seq<string>) returns (trail: seq<Level>, stopped: bool)
    requires parts != []
    ensures stopped ==> Inserted(levels, LowerAll(parts)) == levels
    ensures !stopped ==>
              && |trail| == |parts|
              && Inserted(levels, LowerAll(parts)) == Plug(trail, LowerAll(parts), DomainPart(true, map[]))
  {
    ghost var path := LowerAll(parts);
    ghost var goal := Inserted(levels, path);
    ghost var grown := false;
    trail := [];
    var current := levels;
    assert path[0..] == path;
    for i := 0 to |parts|
      invariant |trail| == i
      invariant i < |parts| ==> goal == PlugLevel(trail, path[..i], Inserted(current, path[i..]))
      invariant i < |parts| ==> if grown then current == map[] else PlugLevel(trail, path[..i], current) == levels
      invariant i == |parts| ==> goal == Plug(trail, path, DomainPart(true, map[]))
    {
      var part := Lower(parts[i]);
      var entry := if part in current then current[part] else DomainPart(false, map[]);
      if entry.included {
        return trail, true;
      }
      assert path[i..][1..] == path[i + 1..] && path[..|parts|] == path;
      PlugStep(trail, path, i, current, DomainPart(true, map[]));
      PlugStep(trail, path, i, current, DomainPart(false, Inserted(entry.children, path[i + 1..])));
      PlugStep(trail, path, i, current, entry);
      assert part in current ==> current[part := entry] == current;
      grown := part !in current;
      trail := trail + [current];
      current := entry.children;
    }
    stopped := false;
  }

  /** The way back up, around the node just included. */
  method Rebuild(trail: seq<Level>, parts: seq<string>) returns (levels: Level)
    requires |trail| == |parts| >= 1
    ensures levels == Plug(trail, LowerAll(parts), DomainPart(true, map[]))
  {
    ghost var path := LowerAll(parts);
    var node := DomainPart(true, map[]);
    var i := |parts|;
    assert trail[..i] == trail && path[..i] == path;
    while i > 1
      invariant 1 <= i <= |parts|
      invariant Plug(trail, path, DomainPart(true, map[])) == Plug(trail[..i], path[..i], node)
    {
      i := i - 1;
      assert trail[..i + 1][..i] == trail[..i] && path[..i + 1][..i] == path[..i];
      node := DomainPart(false, trail[i][Lower(parts[i]) := node]);
    }
    levels := trail[0][Lower(parts[0]) := node];
  }

  class DomainTree {
    var levels: Level
    /** The rules inserted so far, as lowercased paths. */
    ghost var rules: seq<Path>

    ghost predicate Valid()
      reads this
    {
      && (forall i :: 0 <= i < |rules| ==> rules[i] != [])
      && levels == InsertAll(rules)
    }

    constructor ()
      ensures Valid() && rules == []
    {
      levels, rules := map[], [];
    }

    method Insert(value: string)
      requires Valid()
      modifies this
      ensures Valid()
      ensures rules == old(rules) + [LowerAll(RSplit(value, '.'))]
    {
      var parts := RSplit(value, '.');
      ghost var path := LowerAll(parts);
      assert (rules + [path])[..|rules|] == rules;
      rules := rules + [path];
      var trail, stopped := Descend(levels, parts);
      if !stopped {
        levels := Rebuild(trail, parts);
      }
    }

    method Contains(value: string) returns (r: bool)
      requires Valid()
      ensures r <==> exists k :: 0 <= k < |rules| && rules[k] <= RSplit(value, '.')
    {
      var parts := RSplit(value, '.');
      CoversIffSomeRule(rules, parts);
      var current := levels;
      for i := 0 to |parts|
        invariant Covers(levels, parts) == Covers(current, parts[i..])
      {
        if parts[i] in current {
          var el := current[parts[i]];
          if el.included {
            return true;
          }
          current := el.children;
        } else {
          break;
        }
      }
      return false;
    }

    method IsEmpty() returns (r: bool)
      requires Valid()
      ensures r <==> rules == []
    {
      InsertAllPruned(rules);
      r := levels == map[];
    }
  }
}
