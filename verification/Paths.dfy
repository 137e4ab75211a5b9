/** Finite sets of paths through a tree, a path being the positions of the children taken. */
module Paths {

  /** Entering child `i` first. */
  lemma Prefixed(i: nat, paths: set<seq<nat>>) returns (longer: set<seq<nat>>)
    ensures forall path :: path in longer <==> path != [] && path[0] == i && path[1..] in paths
    ensures |longer| == |paths|
    decreases |paths|
  {
    if paths == {} {
      longer := {};
    } else {
      var p :| p in paths;
      var rest := Prefixed(i, paths - {p});
      longer := rest + {[i] + p};
      forall path: seq<nat> | path != [] && path[0] == i && path[1..] == p
        ensures path == [i] + p
      {
      }
      assert ([i] + p)[1..] == p;
    }
  }

  /** The same paths when another sibling comes first. */
  lemma Shifted(paths: set<seq<nat>>) returns (later: set<seq<nat>>)
    requires forall path :: path in paths ==> path != []
    ensures forall path :: path in later <==> path != [] && path[0] > 0 && [path[0] - 1] + path[1..] in paths
    ensures |later| == |paths|
    decreases |paths|
  {
    if paths == {} {
      later := {};
    } else {
      var p :| p in paths;
      var rest := Shifted(paths - {p});
      var p' := [p[0] + 1] + p[1..];
      assert p'[1..] == p[1..] && [p'[0] - 1] + p'[1..] == p;
      later := rest + {p'};
      forall path: seq<nat> | path != [] && path[0] > 0 && [path[0] - 1] + path[1..] == p
        ensures path == p'
      {
        assert ([path[0] - 1] + path[1..])[0] == p[0];
        assert ([path[0] - 1] + path[1..])[1..] == path[1..];
        assert path == [path[0]] + path[1..];
      }
    }
  }

  /** The paths of a forest: to the first root or not, below it, and from its later siblings. */
  lemma JoinPaths(own: bool, below: set<seq<nat>>, rest: set<seq<nat>>) returns (paths: set<seq<nat>>)
    requires [] !in below && [] !in rest
    ensures forall path :: path in paths <==>
              path != [] && if path[0] > 0 then [path[0] - 1] + path[1..] in rest
                            else if |path| == 1 then own else path[1..] in below
    ensures |paths| == (if own then 1 else 0) + |below| + |rest|
  {
    var deeper := Prefixed(0, below);
    var later := Shifted(rest);
    assert deeper !! later && |deeper + later| == |below| + |rest|;
    paths := deeper + later;
    forall path: seq<nat> | |path| == 1
      ensures path !in deeper && (path[0] == 0 ==> path == [0])
    {
      assert path[1..] == [];
    }
    if own {
      assert |paths + {[0]}| == |paths| + 1;
      paths := paths + {[0]};
    }
  }
}
