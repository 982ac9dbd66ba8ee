/** The workspaces one server keeps open, most recently used first, and the one it serves by default. */
module GraphCache {
  import opened Order

  /** An open workspace, known by its identity; two may have had the same root. */
  class Graph {
    const root: string

    constructor (root: string)
      ensures this.root == root
    {
      this.root := root;
    }
  }

  class Cache {
    const max: int
    // A directory reduced to one spelling: absolute, with symlinks followed.
    const resolve: string -> string
    var open: seq<Graph>
    // When each graph was last added or looked up, and which have been evicted.
    ghost var used: map<Graph, nat>
    ghost var clock: nat
    ghost var evicted: set<Graph>

    constructor (max: int, resolve: string -> string)
      ensures this.max == max && this.resolve == resolve && open == [] && evicted == {} && Valid()
    {
      this.max, this.resolve, open := max, resolve, [];
      used, clock, evicted := map[], 0, {};
    }

    predicate SameDir(a: string, b: string) {
      resolve(a) == resolve(b)
    }

    ghost predicate Valid()
      reads this
    {
      && Ordered(open, used) && OneEach(open)
      && (forall g :: g in open ==> used[g] < clock && g !in evicted)
      && (forall g :: g in evicted ==> g in used)
    }

    /** Most recently used first, which also makes them distinct. */
    static ghost predicate Ordered(open: seq<Graph>, used: map<Graph, nat>) {
      && (forall g :: g in open ==> g in used)
      && forall i, j :: 0 <= i < j < |open| ==> used[open[i]] > used[open[j]]
    }

    static lemma FirstTwoDiffer(open: seq<Graph>, used: map<Graph, nat>)
      requires Ordered(open, used) && |open| >= 2
      ensures open[0] != open[1] && open[0] in open && open[1] in open
    {
    }

    ghost predicate OneEach(open: seq<Graph>) {
      forall i, j :: 0 <= i < j < |open| ==> !SameDir(open[i].root, open[j].root)
    }

    /** Where what is now at k of the list was, before the graph at i moved to its front. */
    function From(i: nat, k: nat): nat {
      if k == 0 then i else if k <= i then k - 1 else k
    }

    lemma Moved(i: nat, moved: seq<Graph>)
      requires Valid() && i < |open| && moved == [open[i]] + open[..i] + open[i + 1..]
      ensures Ordered(moved, used[open[i] := clock]) && OneEach(moved)
      ensures forall g :: g in moved <==> g in open
    {
      assert forall k :: 0 <= k < |open| ==> moved[k] == open[From(i, k)];
      SameElements(i, moved);
      MovedIsOrdered(i, moved, used[open[i] := clock]);
    }

    lemma MovedIsOrdered(i: nat, moved: seq<Graph>, now: map<Graph, nat>)
      requires Valid() && i < |open| == |moved| && forall k :: 0 <= k < |open| ==> moved[k] == open[From(i, k)]
      requires now == used[open[i] := clock] && forall g :: g in moved <==> g in open
      ensures Ordered(moved, now) && OneEach(moved)
    {
    }

    lemma SameElements(i: nat, moved: seq<Graph>)
      requires i < |open| == |moved| && forall k :: 0 <= k < |open| ==> moved[k] == open[From(i, k)]
      ensures forall g :: g in moved <==> g in open
    {
      forall g | g in open ensures g in moved {
        var k :| 0 <= k < |open| && open[k] == g;
        var to := if k < i then k + 1 else if k == i then 0 else k;
        assert From(i, to) == k && moved[to] == g;
      }
    }

    lemma Without(v: nat, out: seq<Graph>, keep: Graph)
      requires Valid() && v < |open| && out == open[..v] + open[v + 1..]
      requires forall k :: v < k < |open| ==> open[k] == keep
      ensures Ordered(out, used) && OneEach(out)
      ensures forall g :: g in open <==> g in out || g == open[v]
      ensures open[v] !in out
      ensures forall g :: g in out && g != keep ==> used[open[v]] < used[g]
    {
    }

    /** Graph i first, the others in their order. */
    method Touch(i: nat)
      requires Valid() && i < |open|
      modifies this`open, this`used, this`clock
      ensures Valid()
      ensures open == [old(open)[i]] + old(open)[..i] + old(open)[i + 1..]
      ensures forall g :: g in open <==> g in old(open)
      ensures used == old(used)[old(open)[i] := old(clock)] && clock == old(clock) + 1
    {
      Moved(i, [open[i]] + open[..i] + open[i + 1..]);
      used, clock := used[open[i] := clock], clock + 1;
      if i > 0 {
        open := [open[i]] + open[..i] + open[i + 1..];
      } else {
        assert open == [open[0]] + open[..0] + open[1..];
      }
    }

    /** The open graph of a directory, marked most recently used. */
    method Lookup(root: string) returns (hit: Option<Graph>)
      requires Valid()
      modifies this`open, this`used, this`clock
      ensures Valid()
      ensures hit == None <==> forall g :: g in old(open) ==> resolve(g.root) != resolve(root)
      ensures hit == None ==> open == old(open) && used == old(used)
      ensures hit != None ==>
                && hit.value in old(open) && resolve(hit.value.root) == resolve(root)
                && open != [] && open[0] == hit.value
                && (forall g :: g in open <==> g in old(open)) && |open| == |old(open)|
                && used == old(used)[hit.value := old(clock)]
    {
      var i := 0;
      while i < |open|
        invariant 0 <= i <= |open|
        invariant forall k :: 0 <= k < i ==> !SameDir(open[k].root, root)
        invariant Valid() && open == old(open) && used == old(used) && clock == old(clock)
      {
        if SameDir(open[i].root, root) {
          var g := open[i];
          Touch(i);
          return Some(g);
        }
        i := i + 1;
      }
      return None;
    }

    method Add(g: Graph)
      requires Valid() && g !in used && forall h :: h in open ==> !SameDir(h.root, g.root)
      modifies this`open, this`used, this`clock
      ensures Valid()
      ensures open == [g] + old(open) && used == old(used)[g := old(clock)]
    {
      open := [g] + open;
      used, clock := used[g := clock], clock + 1;
    }

    /** The last graph that is not keep. */
    method Victim(keep: Graph) returns (victim: int)
      requires forall i, j :: 0 <= i < j < |open| ==> open[i] != open[j]
      ensures -1 <= victim < |open|
      ensures victim >= 0 ==> open[victim] != keep
      ensures victim < 0 ==> |open| <= 1
      ensures forall k :: victim < k < |open| ==> open[k] == keep
    {
      victim := |open| - 1;
      ghost var n := |open| - 1;
      while victim >= 0 && open[victim] == keep
        invariant -1 <= victim <= n && (victim < n ==> victim == n - 1 && open[n] == keep)
        invariant forall k :: victim < k < |open| ==> open[k] == keep
      {
        victim := victim - 1;
      }
    }

    /** Drops least recently used graphs, never keep, until the cache is within its bound. What goes was
        used before everything but keep that stays. */
    method Evict(keep: Graph) returns (dropped: seq<Graph>)
      requires Valid()
      modifies this`open, this`evicted
      ensures Valid()
      ensures forall g :: g in old(open) <==> g in open || g in dropped
      ensures forall g :: g in dropped ==> g != keep && g !in open && g !in old(evicted)
      ensures forall i, j :: 0 <= i < j < |dropped| ==> dropped[i] != dropped[j]
      ensures forall d, g :: d in dropped && g in open && g != keep ==> used[d] < used[g]
      ensures |open| + |dropped| == |old(open)|
      ensures |open| <= max || (|open| <= 1 && forall g :: g in open ==> g == keep)
      ensures dropped != [] ==> |open| >= max
      ensures evicted == old(evicted) + set g | g in dropped
    {
      dropped := [];
      while |open| > max
        invariant Valid() && |open| + |dropped| == |old(open)|
        invariant forall g :: g in old(open) <==> g in open || g in dropped
        invariant forall g :: g in dropped ==> g != keep && g !in open && g !in old(evicted)
        invariant forall i, j :: 0 <= i < j < |dropped| ==> dropped[i] != dropped[j]
        invariant forall d, g :: d in dropped && g in open && g != keep ==> used[d] < used[g]
        invariant dropped != [] ==> |open| >= max
        invariant evicted == old(evicted) + set g | g in dropped
        decreases |open|
      {
        var victim := Victim(keep);
        if victim < 0 {
          break;
        }
        var d := open[victim];
        Without(victim, open[..victim] + open[victim + 1..], keep);
        dropped := dropped + [d];
        open := open[..victim] + open[victim + 1..];
        evicted := evicted + {d};
      }
    }
  }

  datatype SwitchResult = NoWorktrees | Described | NotAWorktree | AlreadyServing | CannotOpen | Switched

  class Session {
    const cache: Cache
    var graph: Graph
    var workspaceDeclared: bool

    constructor (cache: Cache, graph: Graph)
      requires cache.Valid() && cache.max >= 1 && cache.open == [graph]
      ensures this.cache == cache && this.graph == graph && !workspaceDeclared && Valid()
    {
      this.cache, this.graph, workspaceDeclared := cache, graph, false;
    }

    /** The cache is within its bound and, when the bound leaves room for a second graph, holds the
        default one. */
    ghost predicate Valid()
      reads this, cache
    {
      && cache.Valid() && 1 <= |cache.open| <= cache.max
      && graph in cache.used
      && (cache.max >= 2 ==> graph in cache.open)
    }

    /** git's spelling of a worktree. */
    method FindWorktree(list: seq<string>, target: string) returns (found: Option<string>)
      ensures found == None <==> forall w :: w in list ==> !cache.SameDir(w, target)
      ensures found != None ==> found.value in list && cache.SameDir(found.value, target)
    {
      var i := 0;
      while i < |list|
        invariant 0 <= i <= |list| && forall k :: 0 <= k < i ==> !cache.SameDir(list[k], target)
      {
        if cache.SameDir(list[i], target) {
          return Some(list[i]);
        }
        i := i + 1;
      }
      return None;
    }

    /** Of the graphs that were open, these were evicted and the others stay: the least recently used
        but for keep. */
    ghost predicate Evicted(before: seq<Graph>, dropped: seq<Graph>, keep: Graph)
      reads cache
    {
      && (forall g :: g in before ==> g in cache.open || g in dropped)
      && (forall g :: g in cache.open ==> g in before)
      && (forall d :: d in dropped ==> d in before && d != keep && d !in cache.open && d in cache.evicted)
      && (forall d :: d in dropped + cache.open ==> d in cache.used)
      && forall d, g :: d in dropped && g in cache.open && g != keep ==> cache.used[d] < cache.used[g]
    }

    ghost predicate IsOpen(open: seq<Graph>, target: string) {
      exists g :: g in open && cache.SameDir(g.root, target)
    }

    ghost predicate IsWorktree(worktrees: Option<seq<string>>, target: string) {
      worktrees != None && exists w :: w in worktrees.value && cache.SameDir(w, target)
    }

    /** Opens a graph and makes room for it. The new graph itself is what goes when the bound is 1 and
        the default one is open. */
    method OpenGraph(root: string, opens: bool) returns (made: Option<Graph>, ghost dropped: seq<Graph>)
      requires Valid() && forall h :: h in cache.open ==> !cache.SameDir(h.root, root)
      modifies cache`open, cache`used, cache`clock, cache`evicted
      ensures Valid()
      ensures made != None <==> opens
      ensures made == None ==> cache.open == old(cache.open) && cache.evicted == old(cache.evicted)
      ensures made != None ==>
                && fresh(made.value) && made.value.root == root && made.value in cache.used
                && (made.value in cache.open <==> made.value !in cache.evicted)
                && (made.value in cache.open <==> cache.max >= 2 || graph !in old(cache.open))
      ensures cache.evicted == old(cache.evicted) + set d | d in dropped
      ensures if made == None then dropped == [] else Evicted([made.value] + old(cache.open), dropped, graph)
    {
      dropped := [];
      if !opens {
        return None, [];
      }
      var g := new Graph(root);
      cache.Add(g);
      ghost var before := cache.open;
      assert g in before && (graph in before <==> graph in old(cache.open));
      assert forall h :: h in before && h != g ==> cache.used[h] < cache.used[g];
      var gone := cache.Evict(graph);
      NewestStaysIff(before, gone, g);
      made, dropped := Some(g), gone;
    }

    /** Whether the newest graph outlives an eviction that keeps the default one. */
    lemma NewestStaysIff(before: seq<Graph>, dropped: seq<Graph>, g: Graph)
      requires cache.Valid() && 1 <= cache.max && |cache.open| <= cache.max
      requires g in before && g != graph && |before| == |cache.open| + |dropped|
                && (dropped != [] ==> |cache.open| >= cache.max)
      requires forall h :: h in before <==> h in cache.open || h in dropped
      requires g in cache.used && forall h :: h in before ==>
                h in cache.used && (h != g ==> cache.used[h] < cache.used[g])
      requires forall d :: d in dropped ==> d != graph && d !in cache.open
      requires forall d, h :: d in dropped && h in cache.open && h != graph ==> cache.used[d] < cache.used[h]
      ensures g in cache.open <==> cache.max >= 2 || graph !in before
      ensures 1 <= |cache.open| && (cache.max >= 2 && graph in before ==> graph in cache.open)
    {
      if |cache.open| >= 2 {
        Cache.FirstTwoDiffer(cache.open, cache.used);
      }
      assert |cache.open| >= 1 ==> cache.open[0] in cache.open;
    }

    /** The graph of a worktree of this repository, opened if need be. None is a refusal or a failure,
        which changes nothing but how recently a graph was used. */
    method GraphForRoot(target: string, worktrees: Option<seq<string>>, opens: bool)
      returns (found: Option<Graph>, ghost dropped: seq<Graph>)
      requires Valid()
      modifies cache`open, cache`used, cache`clock, cache`evicted
      ensures Valid() && cache.evicted == old(cache.evicted) + set d | d in dropped
      ensures if found == None || found.value in old(cache.open)
              then dropped == [] && forall g :: g in cache.open <==> g in old(cache.open)
              else Evicted([found.value] + old(cache.open), dropped, graph)
      ensures found != None ==> cache.SameDir(found.value.root, target) && found.value in cache.used
      ensures found != None ==>
                || found.value in old(cache.open)
                || (fresh(found.value) && worktrees != None && found.value.root in worktrees.value)
      ensures found != None ==>
                (found.value in cache.open <==>
                  found.value in old(cache.open) || cache.max >= 2 || graph !in old(cache.open))
      ensures found != None && found.value !in cache.open ==> found.value in cache.evicted
      ensures found == None ==> cache.open == old(cache.open) && cache.evicted == old(cache.evicted)
      ensures found == None <==> !IsOpen(old(cache.open), target) && !(opens && IsWorktree(worktrees, target))
      ensures IsOpen(old(cache.open), target) ==> found.value in old(cache.open)
    {
      dropped := [];
      found := cache.Lookup(target);
      if found == None {
        if worktrees == None {
          return None, [];
        }
        var worktree := FindWorktree(worktrees.value, target);
        if worktree == None {
          return None, [];
        }
        found := cache.Lookup(worktree.value);
        if found == None {
          found, dropped := OpenGraph(worktree.value, opens);
        }
      }
    }

    /** The graph one tool call acts in: the default one unless the call names another root. */
    method GraphForCall(target: string, worktrees: Option<seq<string>>, opens: bool)
      returns (found: Option<Graph>, ghost dropped: seq<Graph>)
      requires Valid()
      modifies cache`open, cache`used, cache`clock, cache`evicted
      ensures Valid() && cache.evicted == old(cache.evicted) + set d | d in dropped
      ensures dropped != [] ==> found != None && Evicted([found.value] + old(cache.open), dropped, graph)
      ensures target == "" || cache.SameDir(target, graph.root) ==>
                found == Some(graph) && cache.open == old(cache.open)
      ensures found == None <==>
                && target != "" && !cache.SameDir(target, graph.root)
                && !IsOpen(old(cache.open), target) && !(opens && IsWorktree(worktrees, target))
      ensures found != None && target != "" ==> cache.SameDir(found.value.root, target)
      ensures found != None && cache.max >= 2 ==> found.value in cache.open
    {
      if target == "" || cache.SameDir(target, graph.root) {
        return Some(graph), [];
      }
      found, dropped := GraphForRoot(target, worktrees, opens);
    }

    /** Makes another worktree the default. listed is what git lists now, relisted what it lists when
        the graph is opened, opens whether that works. A failure leaves the default as it was; a switch
        that opens a graph under a bound of 1 serves one that the same call evicted. */
    method SwitchWorkspace(target: string, listed: Option<seq<string>>, relisted: Option<seq<string>>, opens: bool)
      returns (result: SwitchResult, ghost dropped: seq<Graph>)
      requires Valid()
      modifies this, cache`open, cache`used, cache`clock, cache`evicted
      ensures Valid() && cache.evicted == old(cache.evicted) + set d | d in dropped
      ensures if result.Switched? && graph !in old(cache.open)
              then Evicted([graph] + old(cache.open), dropped, old(graph)) else dropped == []
      ensures result.NoWorktrees? <==> listed == None
      ensures result.Described? <==> listed != None && target == ""
      ensures result.NotAWorktree? <==> listed != None && target != "" && !IsWorktree(listed, target)
      ensures result.AlreadyServing? || result.CannotOpen? || result.Switched? <==>
                target != "" && IsWorktree(listed, target)
      ensures result.AlreadyServing? <==>
                target != "" && IsWorktree(listed, target) && cache.SameDir(old(graph).root, target)
      ensures result.Switched? <==>
                && target != "" && IsWorktree(listed, target) && !cache.SameDir(old(graph).root, target)
                && (IsOpen(old(cache.open), target) || (opens && IsWorktree(relisted, target)))
      ensures result.CannotOpen? ==> !IsOpen(old(cache.open), target) && !(opens && IsWorktree(relisted, target))
      ensures !result.Switched? ==> graph == old(graph) && cache.open == old(cache.open)
      ensures result.Switched? ==>
                cache.SameDir(graph.root, target) && !cache.SameDir(old(graph).root, target) && workspaceDeclared
      ensures !result.Switched? && !result.AlreadyServing? ==> workspaceDeclared == old(workspaceDeclared)
      ensures result.AlreadyServing? ==> cache.SameDir(graph.root, target) && workspaceDeclared
      ensures result.Switched? ==>
                (graph in cache.open <==> graph in old(cache.open) || cache.max >= 2 || old(graph) !in old(cache.open))
      ensures result.Switched? && graph !in cache.open ==> graph in cache.evicted
      ensures result.Switched? && cache.max >= 2 ==> old(graph) in cache.open
    {
      if listed == None {
        return NoWorktrees, [];
      }
      if target == "" {
        return Described, [];
      }
      var worktree := FindWorktree(listed.value, target);
      if worktree == None {
        return NotAWorktree, [];
      }
      if cache.SameDir(worktree.value, graph.root) {
        workspaceDeclared := true;
        return AlreadyServing, [];
      }
      var next;
      next, dropped := GraphForRoot(worktree.value, relisted, opens);
      if next == None {
        return CannotOpen, [];
      }
      graph, workspaceDeclared := next.value, true;
      result := Switched;
    }
  }

  method NewSession(max: int, resolve: string -> string, root: string) returns (session: Session)
    requires max >= 1
    ensures fresh(session) && fresh(session.cache) && session.Valid()
    ensures session.cache.max == max && session.cache.resolve == resolve
    ensures session.cache.open == [session.graph] && session.graph.root == root
  {
    var cache := new Cache(max, resolve);
    var g := new Graph(root);
    cache.Add(g);
    session := new Session(cache, g);
  }

  /** A session with a bound of 1, switched to another worktree: what it then serves is evicted. */
  method SwitchWithABoundOfOne(resolve: string -> string, root: string, other: string)
    returns (session: Session, result: SwitchResult, ghost first: Graph)
    requires other != "" && resolve(root) != resolve(other)
    ensures session.cache.max == 1 && result.Switched? && resolve(session.graph.root) == resolve(other)
    ensures session.graph !in session.cache.open && session.graph in session.cache.evicted
    ensures first.root == root && first in session.cache.open
  {
    session := NewSession(1, resolve, root);
    first := session.graph;
    assert first in session.cache.open && !session.cache.SameDir(root, other);
    assert other in [other] && session.cache.SameDir(other, other);
    ghost var dropped;
    result, dropped := session.SwitchWorkspace(other, Some([other]), Some([other]), true);
  }
}
