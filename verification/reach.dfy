/** Reachability between the original blocks is the same before and after
    the pass: an inserted block only lengthens a route by one hop.
 */
module CriticalReach {
  import opened Cfg
  import opened Critical
  import opened CriticalProperties

  /** `y` is a successor of block `x`. */
  ghost predicate Edge(f: Func, x: nat, y: nat)
  {
    x < |f.blocks| && y in f.blocks[x].succs
  }

  /** `p` is a non-empty walk along successor edges. */
  ghost predicate IsPath(f: Func, p: seq<nat>)
  {
    |p| >= 1 && forall k :: 0 <= k < |p| - 1 ==> Edge(f, p[k], p[k + 1])
  }

  /** Some walk leads from `x` to `y` (every block reaches itself). */
  ghost predicate Reaches(f: Func, x: nat, y: nat)
  {
    exists p :: IsPath(f, p) && p[0] == x && p[|p| - 1] == y
  }

  /** Every edge between original blocks survives the pass, directly or
      through the block inserted on it. */
  lemma EdgeLifted(f0: Func, x: nat, y: nat)
    requires WellFormed(f0) && Edge(f0, x, y)
    ensures var r := CriticalPass(f0);
      Edge(r, x, y) ||
      exists d :: |f0.blocks| <= d < |r.blocks| && Edge(r, x, d) && Edge(r, d, y)
  {
    var r := CriticalPass(f0);
    var k :| 0 <= k < |f0.blocks[x].succs| && f0.blocks[x].succs[k] == y;
    SuccSlotRouted(f0, x, k);
    var t := r.blocks[x].succs[k];
    assert t in r.blocks[x].succs;
    if t != y {
      assert r.blocks[t].succs == [y];
      assert Edge(r, t, y);
    }
  }

  /** A walk of the input between original blocks becomes a walk of the
      result with the same ends. */
  lemma {:induction false} LiftPath(f0: Func, p: seq<nat>) returns (q: seq<nat>)
    requires WellFormed(f0) && IsPath(f0, p) && p[0] < |f0.blocks|
    ensures IsPath(CriticalPass(f0), q) && q[0] == p[0] && q[|q| - 1] == p[|p| - 1]
    decreases |p|
  {
    var r := CriticalPass(f0);
    if |p| == 1 {
      q := p;
    } else {
      assert Edge(f0, p[0], p[1]);
      assert IsPath(f0, p[1..]);
      assert p[1] < |f0.blocks| by {
        var k :| 0 <= k < |f0.blocks[p[0]].succs| && f0.blocks[p[0]].succs[k] == p[1];
      }
      var q' := LiftPath(f0, p[1..]);
      EdgeLifted(f0, p[0], p[1]);
      if Edge(r, p[0], p[1]) {
        q := [p[0]] + q';
      } else {
        var d :| |f0.blocks| <= d < |r.blocks| && Edge(r, p[0], d) && Edge(r, d, p[1]);
        q := [p[0], d] + q';
      }
      assert forall k :: 0 <= k < |q'| - 1 ==> Edge(r, q'[k], q'[k + 1]);
    }
  }

  /** After the pass, an edge out of an original block either leads to an
      original block, and was an edge before, or leads to an inserted block
      whose only successor was that block's target before. */
  lemma EdgeProjected(f0: Func, u: nat, v: nat)
    requires WellFormed(f0) && u < |f0.blocks| && Edge(CriticalPass(f0), u, v)
    ensures var r := CriticalPass(f0);
      (v < |f0.blocks| ==> Edge(f0, u, v)) &&
      (v >= |f0.blocks| ==> v < |r.blocks| && |r.blocks[v].succs| == 1 &&
                            Edge(f0, u, r.blocks[v].succs[0]))
  {
    var r := CriticalPass(f0);
    OriginalBlocksKept(f0);
    var k :| 0 <= k < |r.blocks[u].succs| && r.blocks[u].succs[k] == v;
    SuccSlotRouted(f0, u, k);
    assert f0.blocks[u].succs[k] in f0.blocks[u].succs;
    assert f0.blocks[u].succs[k] < |f0.blocks|;
  }

  /** A walk of the result between original blocks becomes a walk of the
      input with the same ends. */
  lemma {:induction false} ProjectPath(f0: Func, q: seq<nat>) returns (p: seq<nat>)
    requires WellFormed(f0) && IsPath(CriticalPass(f0), q)
    requires q[0] < |f0.blocks| && q[|q| - 1] < |f0.blocks|
    ensures IsPath(f0, p) && p[0] == q[0] && p[|p| - 1] == q[|q| - 1]
    decreases |q|
  {
    var r := CriticalPass(f0);
    if |q| == 1 {
      p := q;
    } else {
      assert Edge(r, q[0], q[1]);
      EdgeProjected(f0, q[0], q[1]);
      if q[1] < |f0.blocks| {
        assert IsPath(r, q[1..]);
        var p' := ProjectPath(f0, q[1..]);
        p := [q[0]] + p';
        assert forall k :: 0 <= k < |p'| - 1 ==> Edge(f0, p'[k], p'[k + 1]);
      } else {
        assert |q| >= 3;
        assert Edge(r, q[1], q[2]);
        assert q[2] == r.blocks[q[1]].succs[0];
        assert IsPath(r, q[2..]);
        assert q[2] < |f0.blocks| by {
          assert Edge(f0, q[0], q[2]);
          var k :| 0 <= k < |f0.blocks[q[0]].succs| && f0.blocks[q[0]].succs[k] == q[2];
        }
        var p' := ProjectPath(f0, q[2..]);
        p := [q[0]] + p';
        assert forall k :: 0 <= k < |p'| - 1 ==> Edge(f0, p'[k], p'[k + 1]);
      }
    }
  }

  /** Between original blocks, reachability before and after the pass is
      the same. */
  lemma ReachabilityPreserved(f0: Func, x: nat, y: nat)
    requires WellFormed(f0) && x < |f0.blocks| && y < |f0.blocks|
    ensures Reaches(f0, x, y) <==> Reaches(CriticalPass(f0), x, y)
  {
    var r := CriticalPass(f0);
    if Reaches(f0, x, y) {
      var p :| IsPath(f0, p) && p[0] == x && p[|p| - 1] == y;
      var q := LiftPath(f0, p);
    }
    if Reaches(r, x, y) {
      var q :| IsPath(r, q) && q[0] == x && q[|q| - 1] == y;
      var p := ProjectPath(f0, q);
    }
  }
}
