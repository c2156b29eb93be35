/** The load order of the ns-3 libraries, bindings/python/ns__init__.py: libraries are put into
    numbered steps, each step holding those whose dependencies all lie in earlier steps. */
module DependencyOrder {
  import opened Collections

  type Library = string

  /** What each library links to. A name that is linked to but is not a key is missing. */
  type Dependencies = map<Library, seq<Library>>

  // ---- Levels: what can be loaded within k steps ----

  ghost predicate Ready(deps: Dependencies, loaded: set<Library>, m: Library)
    requires m in deps
  {
    forall d | d in deps[m] :: d in loaded
  }

  ghost function Level(deps: Dependencies, k: nat): set<Library> {
    if k == 0 then {} else set m | m in deps.Keys && Ready(deps, Level(deps, k - 1), m)
  }

  lemma {:induction false} LevelsGrow(deps: Dependencies, j: nat, k: nat)
    requires j <= k
    ensures Level(deps, j) <= Level(deps, k)
    decreases j
  {
    if j > 0 {
      LevelsGrow(deps, j - 1, k - 1);
    }
  }

  /** A step that loads nothing is followed only by steps that load nothing. */
  lemma {:induction false} StuckForever(deps: Dependencies, k: nat, n: nat)
    requires Level(deps, k + 1) == Level(deps, k) && k <= n
    ensures Level(deps, n) == Level(deps, k)
    decreases n
  {
    if k < n {
      StuckForever(deps, k, n - 1);
    }
  }

  // ---- Dependency chains ----

  /** A sequence of libraries in which each is a key that depends on the next. */
  ghost predicate IsChain(deps: Dependencies, p: seq<Library>) {
    && p != []
    && forall i | 0 <= i < |p| - 1 :: p[i] in deps && p[i + 1] in deps[p[i]]
  }

  /** A chain of k dependencies starts at m. */
  ghost predicate HasChain(deps: Dependencies, m: Library, k: nat) {
    exists p :: IsChain(deps, p) && p[0] == m && |p| == k + 1
  }

  ghost predicate ReachesMissing(deps: Dependencies, m: Library) {
    exists p :: IsChain(deps, p) && p[0] == m && p[|p| - 1] !in deps
  }

  /** Some chain from m comes back to a library it has visited. */
  ghost predicate ReachesCycle(deps: Dependencies, m: Library) {
    exists p :: IsChain(deps, p) && p[0] == m && !Distinct(p)
  }

  /** Every dependency is a key. */
  ghost predicate Closed(deps: Dependencies) {
    forall m, d | m in deps && d in deps[m] :: d in deps
  }

  lemma ChainStep(deps: Dependencies, m: Library, k: nat)
    ensures HasChain(deps, m, k + 1) <==> m in deps && exists d :: d in deps[m] && HasChain(deps, d, k)
  {
    if p :| IsChain(deps, p) && p[0] == m && |p| == k + 2 {
      forall i | 0 <= i < |p[1..]| - 1 ensures p[1..][i] in deps && p[1..][i + 1] in deps[p[1..][i]] {
        assert p[i + 1] in deps && p[i + 2] in deps[p[i + 1]];
      }
      assert IsChain(deps, p[1..]);
      assert p[1] in deps[m] && HasChain(deps, p[1], k);
    }
    if m in deps {
      if d :| d in deps[m] && HasChain(deps, d, k) {
        var q :| IsChain(deps, q) && q[0] == d && |q| == k + 1;
        assert IsChain(deps, [m] + q);
      }
    }
  }

  /** With no missing libraries, what k steps can load is what has no chain of k dependencies. */
  lemma {:induction false} LevelByChains(deps: Dependencies, m: Library, k: nat)
    requires Closed(deps) && m in deps
    ensures m in Level(deps, k) <==> !HasChain(deps, m, k)
    decreases k
  {
    if k == 0 {
      assert IsChain(deps, [m]);
    } else {
      ChainStep(deps, m, k - 1);
      forall d | d in deps[m] ensures d in Level(deps, k - 1) <==> !HasChain(deps, d, k - 1) {
        LevelByChains(deps, d, k - 1);
      }
    }
  }

  lemma FirstLevelIsLongestChain(deps: Dependencies, m: Library, k: nat)
    requires Closed(deps) && m in deps
    ensures m in Level(deps, k + 1) - Level(deps, k) <==>
            HasChain(deps, m, k) && forall n | n > k :: !HasChain(deps, m, n)
  {
    LevelByChains(deps, m, k);
    forall n | n > k ensures m in Level(deps, n) <==> !HasChain(deps, m, n) {
      LevelByChains(deps, m, n);
    }
    forall n | n > k ensures Level(deps, k + 1) <= Level(deps, n) {
      LevelsGrow(deps, k + 1, n);
    }
  }

  // ---- What never loads ----

  /** The first number of steps that loads a library. */
  ghost function Rank(deps: Dependencies, m: Library, k: nat): (r: nat)
    requires m in Level(deps, k)
    ensures 0 < r <= k && m in Level(deps, r) && m !in Level(deps, r - 1)
  {
    if m in Level(deps, k - 1) then Rank(deps, m, k - 1) else k
  }

  /** Along a chain from a library that loads, every library is a key, loads, and loads earlier. */
  lemma {:induction false} ChainDescends(deps: Dependencies, p: seq<Library>, k: nat, i: nat)
    requires IsChain(deps, p) && p[0] in Level(deps, k) && i < |p|
    ensures p[i] in deps && p[i] in Level(deps, k)
    ensures forall h | 0 <= h < i :: p[h] in Level(deps, k) && Rank(deps, p[i], k) < Rank(deps, p[h], k)
    decreases i
  {
    if i > 0 {
      ChainDescends(deps, p, k, i - 1);
      DependencyLoadsEarlier(deps, p[i - 1], p[i], k);
      forall h | 0 <= h < i ensures p[h] in Level(deps, k) && Rank(deps, p[i], k) < Rank(deps, p[h], k) {
      }
    }
  }

  lemma DependencyLoadsEarlier(deps: Dependencies, m: Library, d: Library, k: nat)
    requires m in Level(deps, k) && m in deps && d in deps[m]
    ensures d in deps && d in Level(deps, k)
    ensures Rank(deps, d, k) < Rank(deps, m, k)
  {
    var r := Rank(deps, m, k);
    assert d in Level(deps, r - 1);
    LevelsGrow(deps, r - 1, k);
    if Rank(deps, d, k) > r - 1 {
      LevelsGrow(deps, r - 1, Rank(deps, d, k) - 1);
    }
  }

  /** From a library that the fixed level does not hold, chains of unloaded libraries go on until
      they meet a missing one. */
  lemma {:induction false} UnloadedChain(deps: Dependencies, m: Library, k: nat, n: nat) returns (p: seq<Library>)
    requires Level(deps, k + 1) == Level(deps, k) && m in deps && m !in Level(deps, k)
    ensures IsChain(deps, p) && p[0] == m
    ensures p[|p| - 1] !in deps || (|p| == n + 1 && forall x | x in p :: x in deps)
    decreases n
  {
    if n == 0 {
      return [m];
    }
    var d :| d in deps[m] && d !in Level(deps, k);
    if d !in deps {
      return [m, d];
    }
    var q := UnloadedChain(deps, d, k, n - 1);
    p := [m] + q;
    assert forall i | 0 <= i < |q| :: p[i + 1] == q[i];
  }

  /** The libraries that never load are exactly those that reach a cycle or a missing library. */
  lemma LoadsIffGrounded(deps: Dependencies, m: Library, k: nat)
    requires m in deps && Level(deps, k + 1) == Level(deps, k)
    ensures m in Level(deps, k) <==> !ReachesMissing(deps, m) && !ReachesCycle(deps, m)
  {
    if m in Level(deps, k) {
      forall p | IsChain(deps, p) && p[0] == m ensures p[|p| - 1] in deps && Distinct(p) {
        ChainDescends(deps, p, k, |p| - 1);
        forall i, j | 0 <= i < j < |p| ensures p[i] != p[j] {
          ChainDescends(deps, p, k, j);
        }
      }
    } else {
      var p := UnloadedChain(deps, m, k, |deps.Keys|);
      if p[|p| - 1] in deps && Distinct(p) {
        DistinctCardinality(p);
        SubsetCardinality(Elements(p), deps.Keys);
        assert false;
      }
    }
  }

  // ---- The lists the algorithm keeps ----

  /** The libraries of a list that lie in a set, in list order. */
  ghost function Select(list: seq<Library>, keep: set<Library>): seq<Library> {
    if list == [] then []
    else
      var selected, last := Select(list[..|list| - 1], keep), list[|list| - 1];
      if last in keep then selected + [last] else selected
  }

  function RemoveFirst(list: seq<Library>, m: Library): seq<Library> {
    if list == [] then []
    else if list[0] == m then list[1..]
    else [list[0]] + RemoveFirst(list[1..], m)
  }

  lemma ElementsAppend(a: seq<Library>, b: seq<Library>)
    ensures Elements(a + b) == Elements(a) + Elements(b)
  {
  }

  lemma DistinctAppend(a: seq<Library>, b: seq<Library>)
    requires Distinct(a) && Distinct(b) && Elements(a) !! Elements(b)
    ensures Distinct(a + b)
  {
    forall i, j | 0 <= i < |a| && 0 <= j < |b| ensures a[i] != b[j] {
      assert a[i] in Elements(a) && b[j] in Elements(b);
    }
  }

  lemma {:induction false} SelectElements(list: seq<Library>, keep: set<Library>)
    ensures Elements(Select(list, keep)) == Elements(list) * keep
    ensures Distinct(list) ==> Distinct(Select(list, keep))
  {
    if list != [] {
      var k := |list| - 1;
      SelectElements(list[..k], keep);
      var init, last := list[..k], [list[k]];
      assert list == init + last;
      ElementsAppend(init, last);
      ElementsAppend(Select(init, keep), last);
      if Distinct(list) {
        assert list[k] !in list[..k];
        assert list[k] !in Elements(Select(list[..k], keep));
        DistinctAppend(Select(init, keep), last);
      }
    }
  }

  lemma {:induction false} SelectSelect(list: seq<Library>, a: set<Library>, b: set<Library>)
    ensures Select(Select(list, a), b) == Select(list, a * b)
  {
    if list != [] {
      var k := |list| - 1;
      var inner := Select(list[..k], a);
      SelectSelect(list[..k], a, b);
      assert (inner + [list[k]])[..|inner|] == inner;
    }
  }

  lemma {:induction false} SelectAgree(list: seq<Library>, a: set<Library>, b: set<Library>)
    requires forall m | m in list :: m in a <==> m in b
    ensures Select(list, a) == Select(list, b)
  {
    if list != [] {
      SelectAgree(list[..|list| - 1], a, b);
    }
  }

  lemma {:induction false} RemoveFirstAppend(list: seq<Library>, last: Library, m: Library)
    ensures RemoveFirst(list + [last], m) ==
            if m in list then RemoveFirst(list, m) + [last] else if last == m then list else list + [last]
  {
    if list != [] {
      assert (list + [last])[1..] == list[1..] + [last];
      assert list == [list[0]] + list[1..];
      if list[0] != m {
        RemoveFirstAppend(list[1..], last, m);
      }
    }
  }

  /** Removing a library from a selection without repetitions is selecting without it. */
  lemma {:induction false} RemoveSelected(list: seq<Library>, keep: set<Library>, m: Library)
    requires Distinct(list)
    ensures RemoveFirst(Select(list, keep), m) == Select(list, keep - {m})
  {
    if list != [] {
      var k := |list| - 1;
      var rest := Select(list[..k], keep);
      RemoveSelected(list[..k], keep, m);
      SelectElements(list[..k], keep);
      assert m in rest <==> m in Elements(rest);
      if list[k] in keep {
        RemoveFirstAppend(rest, list[k], m);
        if list[k] == m {
          assert list[k] !in list[..k];
          SelectAgree(list[..k], keep, keep - {m});
        } else if m !in rest {
          assert forall x | x in list[..k] :: x in keep <==> x in keep - {m} by {
            assert m !in Elements(list[..k]) * keep;
          }
          SelectAgree(list[..k], keep, keep - {m});
        }
      }
    }
  }

  // ---- The order ----

  /** The libraries of steps 0 to n - 1, step after step, each step in the order of the keys. */
  ghost function Order(deps: Dependencies, keys: seq<Library>, n: nat): seq<Library> {
    if n == 0 then [] else Order(deps, keys, n - 1) + Select(keys, Level(deps, n) - Level(deps, n - 1))
  }

  ghost predicate Lists(keys: seq<Library>, deps: Dependencies) {
    Distinct(keys) && Elements(keys) == deps.Keys
  }

  lemma LevelMembers(deps: Dependencies, n: nat, m: Library)
    requires n > 0 && m in Level(deps, n)
    ensures m in deps && forall d | d in deps[m] :: d in Level(deps, n - 1)
  {
  }

  lemma {:induction false} LevelsAreKeys(deps: Dependencies, n: nat)
    ensures Level(deps, n) <= deps.Keys
  {
  }

  lemma {:induction false} OrderElements(deps: Dependencies, keys: seq<Library>, n: nat)
    requires Lists(keys, deps)
    ensures Elements(Order(deps, keys, n)) == Level(deps, n) && Distinct(Order(deps, keys, n))
  {
    if n > 0 {
      OrderElements(deps, keys, n - 1);
      LevelsGrow(deps, n - 1, n);
      LevelsAreKeys(deps, n);
      SelectElements(keys, Level(deps, n) - Level(deps, n - 1));
      var before, step := Order(deps, keys, n - 1), Select(keys, Level(deps, n) - Level(deps, n - 1));
      DistinctAppend(before, step);
      assert Elements(before + step) == Elements(before) + Elements(step);
    }
  }

  /** In the order, every dependency of a library comes strictly earlier. */
  lemma {:induction false} DependenciesComeEarlier(deps: Dependencies, keys: seq<Library>, n: nat, i: nat)
    requires Lists(keys, deps) && i < |Order(deps, keys, n)|
    ensures Order(deps, keys, n)[i] in deps
    ensures forall d | d in deps[Order(deps, keys, n)[i]] :: d in Order(deps, keys, n)[..i]
    decreases n
  {
    hide Ready, Select, Distinct;
    var before, step := Order(deps, keys, n - 1), Select(keys, Level(deps, n) - Level(deps, n - 1));
    if i < |before| {
      DependenciesComeEarlier(deps, keys, n - 1, i);
      assert Order(deps, keys, n)[..i] == before[..i];
    } else {
      var m := step[i - |before|];
      SelectElements(keys, Level(deps, n) - Level(deps, n - 1));
      assert m in Elements(step);
      OrderElements(deps, keys, n - 1);
      LevelMembers(deps, n, m);
      forall d | d in deps[m] ensures d in Order(deps, keys, n)[..i] {
        assert d in Elements(before);
        var j :| 0 <= j < |before| && before[j] == d;
        assert Order(deps, keys, n)[..i][j] == d;
      }
    }
  }

  /** With no missing libraries, step k holds exactly the libraries whose longest dependency chain has k
      dependencies. */
  lemma StepIsLongestChain(deps: Dependencies, keys: seq<Library>, m: Library, k: nat)
    requires Lists(keys, deps) && Closed(deps)
    ensures m in Select(keys, Level(deps, k + 1) - Level(deps, k)) <==>
            m in deps && HasChain(deps, m, k) && forall n | n > k :: !HasChain(deps, m, n)
  {
    var step := Select(keys, Level(deps, k + 1) - Level(deps, k));
    SelectElements(keys, Level(deps, k + 1) - Level(deps, k));
    assert m in step <==> m in Elements(step);
    if m in deps {
      FirstLevelIsLongestChain(deps, m, k);
    }
  }

  /** A step either loads something, and then fewer libraries are pending, or it changes nothing and no later
      step changes anything either. */
  lemma StepShrinksPendingOrIsStuck(deps: Dependencies, keys: seq<Library>, n: nat)
    requires Lists(keys, deps)
    ensures var pending, next := Select(keys, deps.Keys - Level(deps, n)), Select(keys, deps.Keys - Level(deps, n + 1));
            |next| < |pending| || forall m: nat | m >= n :: Level(deps, m) == Level(deps, n)
  {
    hide Select, Lists, Level;
    var before, after := deps.Keys - Level(deps, n), deps.Keys - Level(deps, n + 1);
    PendingCount(deps, keys, n);
    PendingCount(deps, keys, n + 1);
    LevelsGrow(deps, n, n + 1);
    SubsetCardinality(after, before);
    if after == before {
      LevelsAreKeys(deps, n);
      LevelsAreKeys(deps, n + 1);
      assert Level(deps, n) == deps.Keys - before && Level(deps, n + 1) == deps.Keys - after;
      forall m: nat | m >= n ensures Level(deps, m) == Level(deps, n) {
        StuckForever(deps, n, m);
      }
    }
  }

  lemma PendingCount(deps: Dependencies, keys: seq<Library>, n: nat)
    requires Lists(keys, deps)
    ensures |Select(keys, deps.Keys - Level(deps, n))| == |deps.Keys - Level(deps, n)|
  {
    SelectElements(keys, deps.Keys - Level(deps, n));
    DistinctCardinality(Select(keys, deps.Keys - Level(deps, n)));
    assert deps.Keys * (deps.Keys - Level(deps, n)) == deps.Keys - Level(deps, n);
  }

  /** How a sort ends: all libraries loaded, or a step that can load nothing while some are pending,
      after which the recursion of the source never returns. */
  datatype Outcome = Finished | Stuck

  class Loader {
    const deps: Dependencies
    var pending: seq<Library>
    var current: seq<Library>
    var steps: map<nat, seq<Library>>

    constructor (deps: Dependencies, keys: seq<Library>)
      ensures this.deps == deps && pending == keys && current == [] && steps == map[]
    {
      this.deps := deps;
      pending, current, steps := keys, [], map[];
    }

    /** The state of the lists when step n begins. */
    ghost predicate AtStep(keys: seq<Library>, n: nat)
      reads this
    {
      && Lists(keys, deps)
      && pending == Select(keys, deps.Keys - Level(deps, n))
      && current == Order(deps, keys, n)
      && (forall i: nat :: i in steps <==> i < n)
      && forall i: nat | i < n :: steps[i] == Select(keys, Level(deps, i + 1) - Level(deps, i))
    }

    method ModulesThatCanBeLoaded() returns (modules: seq<Library>)
      requires forall m | m in pending :: m in deps
      ensures modules == Select(pending, set m | m in deps.Keys && Ready(deps, Elements(current), m))
    {
      ghost var ready := set m | m in deps.Keys && Ready(deps, Elements(current), m);
      modules := [];
      for i := 0 to |pending|
        invariant modules == Select(pending[..i], ready)
      {
        var pendingModule := pending[i];
        var canBeLoaded := true;
        for j := 0 to |deps[pendingModule]|
          invariant canBeLoaded
          invariant forall h | 0 <= h < j :: deps[pendingModule][h] in current
        {
          if deps[pendingModule][j] !in current {
            assert deps[pendingModule][j] in deps[pendingModule] && deps[pendingModule][j] !in Elements(current);
            canBeLoaded := false;
            break;
          }
        }
        assert canBeLoaded <==> pendingModule in ready;
        assert pending[..i + 1][..i] == pending[..i];
        if canBeLoaded {
          modules := modules + [pendingModule];
        }
      }
      assert pending[..|pending|] == pending;
    }

    /** Runs the steps from `stepNumber` on. The source adds an empty step and calls itself with the same
        lists when nothing can be loaded; here that call is the outcome `Stuck`. */
    method DependencyOrder(ghost keys: seq<Library>, stepNumber: nat) returns (outcome: Outcome, count: nat)
      requires AtStep(keys, stepNumber)
      modifies this`pending, this`current, this`steps
      ensures AtStep(keys, count)
      ensures outcome == Finished ==> pending == []
      ensures outcome == Stuck ==> pending != [] && count > 0 && Level(deps, count) == Level(deps, count - 1)
      decreases deps.Keys - Level(deps, stepNumber)
    {
      hide Level, Order, Select, Lists, Ready;
      if |pending| == 0 {
        return Finished, stepNumber;
      }
      if stepNumber !in steps {
        steps := steps[stepNumber := []];
      }
      ghost var level := Level(deps, stepNumber);
      LoadableIsNextStep(deps, keys, stepNumber);
      var modules := ModulesThatCanBeLoaded();
      assert Elements(modules[..0]) == {} && deps.Keys - level - {} == deps.Keys - level;
      for i := 0 to |modules|
        invariant pending == Select(keys, deps.Keys - level - Elements(modules[..i]))
        invariant current == Order(deps, keys, stepNumber) + modules[..i]
        invariant steps == old(steps)[stepNumber := modules[..i]]
      {
        var m := modules[i];
        steps := steps[stepNumber := steps[stepNumber] + [m]];
        ListsAreDistinct(keys, deps);
        RemoveSelected(keys, deps.Keys - level - Elements(modules[..i]), m);
        pending := RemoveFirst(pending, m);
        current := current + [m];
        assert modules[..i + 1] == modules[..i] + [m];
        assert deps.Keys - level - Elements(modules[..i + 1]) == deps.Keys - level - Elements(modules[..i]) - {m};
      }
      assert modules[..|modules|] == modules;
      assert modules != [] ==> modules[0] in Elements(modules);
      OrderStep(deps, keys, stepNumber);
      LevelsAreKeys(deps, stepNumber + 1);
      if modules == [] {
        assert Elements(modules) == {};
        return Stuck, stepNumber + 1;
      }
      outcome, count := DependencyOrder(keys, stepNumber + 1);
    }
  }

  lemma OrderStep(deps: Dependencies, keys: seq<Library>, n: nat)
    ensures Order(deps, keys, n + 1) == Order(deps, keys, n) + Select(keys, Level(deps, n + 1) - Level(deps, n))
    ensures Level(deps, n) <= Level(deps, n + 1)
  {
    LevelsGrow(deps, n, n + 1);
  }

  lemma StartsAtStepZero(deps: Dependencies, keys: seq<Library>)
    requires Lists(keys, deps)
    ensures Select(keys, deps.Keys - Level(deps, 0)) == keys && Order(deps, keys, 0) == []
  {
    SelectAll(keys, deps.Keys - Level(deps, 0));
  }

  lemma {:induction false} SelectAll(list: seq<Library>, keep: set<Library>)
    requires forall m | m in list :: m in keep
    ensures Select(list, keep) == list
  {
    if list != [] {
      SelectAll(list[..|list| - 1], keep);
    }
  }

  lemma ListsAreDistinct(keys: seq<Library>, deps: Dependencies)
    requires Lists(keys, deps)
    ensures Distinct(keys)
  {
  }

  lemma LoadableIsNextStep(deps: Dependencies, keys: seq<Library>, n: nat)
    requires Lists(keys, deps)
    ensures var pending := Select(keys, deps.Keys - Level(deps, n));
            var ready := set m | m in deps.Keys && Ready(deps, Elements(Order(deps, keys, n)), m);
            var step := Level(deps, n + 1) - Level(deps, n);
            && (forall m | m in pending :: m in deps)
            && Select(pending, ready) == Select(keys, step)
            && Elements(Select(keys, step)) == step
            && deps.Keys - Level(deps, n) - step == deps.Keys - Level(deps, n + 1)
  {
    var pending := Select(keys, deps.Keys - Level(deps, n));
    var step := Level(deps, n + 1) - Level(deps, n);
    SelectElements(keys, deps.Keys - Level(deps, n));
    forall m | m in pending ensures m in deps {
      assert m in Elements(pending);
    }
    OrderElements(deps, keys, n);
    LevelsGrow(deps, n, n + 1);
    SelectSelect(keys, deps.Keys - Level(deps, n), Level(deps, n + 1));
    assert (deps.Keys - Level(deps, n)) * Level(deps, n + 1) == step;
    SelectElements(keys, step);
  }

  /** Each library of the list comes strictly after all its dependencies. */
  ghost predicate DependenciesFirst(deps: Dependencies, list: seq<Library>) {
    forall i | 0 <= i < |list| :: list[i] in deps && forall d | d in deps[list[i]] :: d in list[..i]
  }

  /** What a finished sort promises: a permutation of the keys, dependencies strictly first. */
  lemma OrderIsTopological(deps: Dependencies, keys: seq<Library>, n: nat)
    requires Lists(keys, deps) && Level(deps, n) == deps.Keys
    ensures var sorted := Order(deps, keys, n);
            multiset(sorted) == multiset(keys) && DependenciesFirst(deps, sorted)
  {
    var sorted := Order(deps, keys, n);
    OrderElements(deps, keys, n);
    DistinctMultiset(sorted);
    DistinctMultiset(keys);
    forall m ensures m in sorted <==> m in keys {
      assert m in sorted <==> m in Elements(sorted);
      assert m in keys <==> m in Elements(keys);
    }
    assert multiset(sorted) == multiset(keys);
    forall i | 0 <= i < |sorted| ensures sorted[i] in deps && forall d | d in deps[sorted[i]] :: d in sorted[..i] {
      DependenciesComeEarlier(deps, keys, n, i);
    }
  }

  lemma {:induction false} DistinctMultiset(s: seq<Library>)
    requires Distinct(s)
    ensures forall m :: multiset(s)[m] == if m in s then 1 else 0
  {
    if s != [] {
      var k := |s| - 1;
      DistinctMultiset(s[..k]);
      assert s == s[..k] + [s[k]];
    }
  }

  /** The libraries a run leaves pending are exactly those that reach a cycle or a missing library, and
      it leaves none exactly when there are none. */
  lemma PendingIsUngrounded(deps: Dependencies, keys: seq<Library>, n: nat, m: Library)
    requires Lists(keys, deps) && Level(deps, n + 1) == Level(deps, n)
    ensures m in Select(keys, deps.Keys - Level(deps, n)) <==>
            m in deps && (ReachesMissing(deps, m) || ReachesCycle(deps, m))
  {
    var pending := Select(keys, deps.Keys - Level(deps, n));
    SelectElements(keys, deps.Keys - Level(deps, n));
    assert m in pending <==> m in Elements(pending);
    if m in deps {
      LoadsIffGrounded(deps, m, n);
    }
  }

  // ---- The order of a finished sort ----

  ghost predicate KeyBefore(keys: seq<Library>, a: Library, b: Library) {
    exists p, q :: 0 <= p < q < |keys| && keys[p] == a && keys[q] == b
  }

  /** Every chain length from a is one from b; when they have the same lengths, a is the earlier key. */
  ghost predicate ComesBefore(deps: Dependencies, keys: seq<Library>, a: Library, b: Library) {
    && (forall k :: HasChain(deps, a, k) ==> HasChain(deps, b, k))
    && ((exists k :: HasChain(deps, b, k) && !HasChain(deps, a, k)) || KeyBefore(keys, a, b))
  }

  /** Libraries with shorter longest chains come first, and those with equally long ones in the order of the keys. */
  ghost predicate SortedByChains(deps: Dependencies, keys: seq<Library>, list: seq<Library>) {
    forall i, j | 0 <= i < j < |list| :: ComesBefore(deps, keys, list[i], list[j])
  }

  lemma {:induction false} SelectKeepsOrder(list: seq<Library>, keep: set<Library>, i: nat, j: nat)
    requires i < j < |Select(list, keep)|
    ensures KeyBefore(list, Select(list, keep)[i], Select(list, keep)[j])
  {
    var k := |list| - 1;
    var rest := Select(list[..k], keep);
    if j < |rest| {
      SelectKeepsOrder(list[..k], keep, i, j);
      var p, q :| 0 <= p < q < k && list[..k][p] == rest[i] && list[..k][q] == rest[j];
      assert list[p] == rest[i] && list[q] == rest[j];
    } else {
      SelectElements(list[..k], keep);
      assert rest[i] in Elements(rest);
      var p :| 0 <= p < k && list[..k][p] == rest[i];
      assert list[p] == rest[i];
    }
  }

  /** In the order, a library of an earlier step comes first, and within a step the earlier key. */
  lemma {:induction false} OrderByLevels(deps: Dependencies, keys: seq<Library>, n: nat, i: nat, j: nat)
    requires Lists(keys, deps) && i < j < |Order(deps, keys, n)|
    ensures var a, b := Order(deps, keys, n)[i], Order(deps, keys, n)[j];
            && (forall k: nat :: b in Level(deps, k) ==> a in Level(deps, k))
            && ((exists k: nat :: a in Level(deps, k) && b !in Level(deps, k)) || KeyBefore(keys, a, b))
    decreases n
  {
    hide Select, KeyBefore, Lists, Level;
    var step := Level(deps, n) - Level(deps, n - 1);
    var before, last := Order(deps, keys, n - 1), Select(keys, step);
    var a, b := Order(deps, keys, n)[i], Order(deps, keys, n)[j];
    if j < |before| {
      OrderByLevels(deps, keys, n - 1, i, j);
    } else {
      OrderElements(deps, keys, n - 1);
      SelectElements(keys, step);
      assert b in Elements(last);
      if i < |before| {
        assert a in Elements(before);
      } else {
        assert a in Elements(last);
        SelectKeepsOrder(keys, step, i - |before|, j - |before|);
      }
      forall k: nat | b in Level(deps, k) ensures a in Level(deps, k) {
        if k < n {
          LevelsGrow(deps, k, n - 1);
        } else {
          LevelsGrow(deps, n - 1, k);
          LevelsGrow(deps, n, k);
        }
      }
    }
  }

  lemma NothingMissingIsClosed(deps: Dependencies)
    requires forall m | m in deps :: !ReachesMissing(deps, m)
    ensures Closed(deps)
  {
    forall m, d | m in deps && d in deps[m] ensures d in deps {
      assert d !in deps ==> IsChain(deps, [m, d]);
    }
  }

  lemma OrderIsByChains(deps: Dependencies, keys: seq<Library>, n: nat)
    requires Lists(keys, deps) && forall m | m in deps :: !ReachesMissing(deps, m)
    ensures SortedByChains(deps, keys, Order(deps, keys, n))
  {
    hide Level, HasChain, KeyBefore, Lists, ReachesMissing;
    NothingMissingIsClosed(deps);
    var list := Order(deps, keys, n);
    OrderElements(deps, keys, n);
    LevelsAreKeys(deps, n);
    forall i, j | 0 <= i < j < |list| ensures ComesBefore(deps, keys, list[i], list[j]) {
      assert list[i] in Elements(list) && list[j] in Elements(list);
      OrderByLevels(deps, keys, n, i, j);
      forall k: nat ensures list[i] in Level(deps, k) <==> !HasChain(deps, list[i], k) {
        LevelByChains(deps, list[i], k);
      }
      forall k: nat ensures list[j] in Level(deps, k) <==> !HasChain(deps, list[j], k) {
        LevelByChains(deps, list[j], k);
      }
    }
  }

  /** Sorting the libraries. It finishes exactly when no library reaches a cycle or a missing library. */
  method SortToDependencies(deps: Dependencies, keys: seq<Library>)
    returns (outcome: Outcome, sorted: seq<Library>, pending: seq<Library>)
    requires Lists(keys, deps)
    ensures outcome == Finished <==> forall m | m in deps :: !ReachesMissing(deps, m) && !ReachesCycle(deps, m)
    ensures forall m :: m in pending <==> m in deps && (ReachesMissing(deps, m) || ReachesCycle(deps, m))
    ensures outcome == Finished ==>
              multiset(sorted) == multiset(keys) && DependenciesFirst(deps, sorted)
    ensures outcome == Finished ==> SortedByChains(deps, keys, sorted)
  {
    var loader := new Loader(deps, keys);
    StartsAtStepZero(deps, keys);
    hide Level, Order, Select, Lists, DependenciesFirst, SortedByChains, ReachesMissing, ReachesCycle;
    var count;
    outcome, count := loader.DependencyOrder(keys, 0);
    pending := loader.pending;
    var steps := loader.steps;
    assert forall i: nat | i < count :: i in steps && steps[i] == Select(keys, Level(deps, i + 1) - Level(deps, i));
    if outcome == Stuck {
      StuckForever(deps, count - 1, count + 1);
    }
    EndOfRun(deps, keys, count);
    sorted := [];
    OrderZero(deps, keys);
    for i := 0 to count
      invariant sorted == Order(deps, keys, i)
    {
      OrderStep(deps, keys, i);
      sorted := sorted + steps[i];
    }
    if outcome == Finished {
      OrderIsByChains(deps, keys, count);
    }
  }

  lemma OrderZero(deps: Dependencies, keys: seq<Library>)
    ensures Order(deps, keys, 0) == []
  {
  }

  lemma EndOfRun(deps: Dependencies, keys: seq<Library>, n: nat)
    requires Lists(keys, deps)
    requires Select(keys, deps.Keys - Level(deps, n)) == [] || Level(deps, n + 1) == Level(deps, n)
    ensures var pending := Select(keys, deps.Keys - Level(deps, n));
            && (pending == [] <==> forall m | m in deps :: !ReachesMissing(deps, m) && !ReachesCycle(deps, m))
            && (forall m :: m in pending <==> m in deps && (ReachesMissing(deps, m) || ReachesCycle(deps, m)))
            && (pending == [] ==>
                  multiset(Order(deps, keys, n)) == multiset(keys) && DependenciesFirst(deps, Order(deps, keys, n)))
  {
    hide ReachesMissing, ReachesCycle, DependenciesFirst;
    var pending := Select(keys, deps.Keys - Level(deps, n));
    SelectElements(keys, deps.Keys - Level(deps, n));
    LevelsAreKeys(deps, n);
    LevelsAreKeys(deps, n + 1);
    LevelsGrow(deps, n, n + 1);
    if pending == [] {
      forall m | m in deps.Keys ensures m in Level(deps, n) {
        assert m in Elements(pending) <==> m in deps.Keys - Level(deps, n);
      }
      assert Level(deps, n) == deps.Keys;
      OrderIsTopological(deps, keys, n);
    }
    forall m ensures m in pending <==> m in deps && (ReachesMissing(deps, m) || ReachesCycle(deps, m)) {
      PendingIsUngrounded(deps, keys, n, m);
    }
    if pending != [] {
      assert pending[0] in pending;
    }
  }
}
