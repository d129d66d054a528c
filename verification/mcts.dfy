/**
  The statistics bookkeeping of the Monte Carlo tree search over design
  states. Four tables are kept: `Qsa` (the running value of a state-action
  pair), `Nsa` (its visit count), `Ns` (the visit count of a state) and `Vs`
  (the cached terminal reward of a state). The design environment is a value
  made of functions, the random choice of a playout is an arbitrary choice,
  and the UCT formula is an uninterpreted function.
*/
module MonteCarlo {
  import opened Wrappers

  /** What `next_state(state, action)` reports: the successor, its reward, and whether it is terminal. */
  datatype Transition<S> = Transition(next: S, reward: real, terminal: bool)

  /**
    The design environment. The actions are `0 .. |mask(s)| - 1`, and
    `mask(s)[a]` says whether action `a` is available in `s`.
    `terminalReward(s)` is the stored reward of a terminal state. `rank` is a
    measure used only in proofs: every available action leads to a state of
    smaller rank, which is why playouts and the search end.
  */
  datatype Environment<!S> = Environment(
    mask: S -> seq<bool>,
    step: (S, nat) -> Transition<S>,
    terminalReward: S -> Option<real>,
    ghost rank: S -> nat)

  /** `actions[mask == 1]`: the available actions in increasing order. */
  function Selected(mask: seq<bool>): (r: seq<nat>)
    ensures forall a: nat :: a in r <==> a < |mask| && mask[a]
    ensures forall i :: 0 <= i < |r| ==> r[i] < |mask|
    ensures forall i, j :: 0 <= i < j < |r| ==> r[i] < r[j]
  {
    if |mask| == 0 then []
    else
      var k := |mask| - 1;
      var prefix := Selected(mask[..k]);
      assert forall i :: 0 <= i < |prefix| ==> prefix[i] < k;
      prefix + if mask[k] then [k] else []
  }

  function Available<S(==,!new)>(env: Environment<S>, s: S): seq<nat>
  {
    Selected(env.mask(s))
  }

  /** What `search` caches in `Vs` for a state: its terminal reward, or 0.0 when it is not terminal. */
  function CachedValue<S(==,!new)>(env: Environment<S>, s: S): real
  {
    match env.terminalReward(s)
    case Some(r) => r
    case None => 0.0
  }

  /** Whether `s` is a terminal state: one with a stored reward. */
  predicate Terminal<S(==,!new)>(env: Environment<S>, s: S)
  {
    env.terminalReward(s).Some?
  }

  /**
    An environment the search can run in. Every available action lowers the
    rank. A playout that has not ended still has an available action, so the
    random choice has something to choose from. A state that is not terminal
    has an available action, so the argmax in `tree_policy` and the mean in
    `default_policy` are taken over a non-empty list.
  */
  ghost predicate Live<S(!new)>(env: Environment<S>)
  {
    && (forall s, a: nat {:trigger env.step(s, a)} :: a in Available(env, s) ==>
          env.rank(env.step(s, a).next) < env.rank(s))
    && (forall s, a: nat {:trigger env.step(s, a)} :: a in Available(env, s) && !env.step(s, a).terminal ==>
          |Available(env, env.step(s, a).next)| > 0)
    && (forall s {:trigger Terminal(env, s)} :: !Terminal(env, s) ==> |Available(env, s)| > 0)
  }

  /** Reading a `defaultdict(int)`: a missing key counts 0. */
  function Count<K(==)>(m: map<K, nat>, k: K): nat
  {
    if k in m then m[k] else 0
  }

  /** `dict.get(k, d)`. */
  function ValueOr<K(==)>(m: map<K, real>, k: K, d: real): real
  {
    if k in m then m[k] else d
  }

  function Sum(xs: seq<real>): real
  {
    if |xs| == 0 then 0.0 else Sum(xs[..|xs| - 1]) + xs[|xs| - 1]
  }

  /** `np.mean`. */
  function Mean(xs: seq<real>): real
    requires |xs| > 0
  {
    Sum(xs) / |xs| as real
  }

  // ---------------------------------------------------------------------------
  // The tables and `update_Q_function`
  // ---------------------------------------------------------------------------

  datatype Tables<S(==)> = Tables(qsa: map<(S, nat), real>, nsa: map<(S, nat), nat>, ns: map<S, nat>, vs: map<S, real>)

  /**
    What the updates keep: `Qsa` and `Nsa` have the same pairs, every count
    is at least 1 (so the division in the update is defined), and a pair's
    state has been counted in `Ns`.
  */
  ghost predicate Consistent<S(!new)>(t: Tables<S>)
  {
    && (forall k :: k in t.qsa ==> k in t.nsa)
    && (forall k :: k in t.nsa ==> k in t.qsa && t.nsa[k] >= 1 && k.0 in t.ns)
  }

  /** Consistent tables whose `Vs` entries are what `search` caches. */
  ghost predicate Coherent<S(!new)>(env: Environment<S>, t: Tables<S>)
  {
    Consistent(t) && forall x :: x in t.vs ==> t.vs[x] == CachedValue(env, x)
  }

  /** The value a later update gives a pair: `Q + (r - Q) / N` with the count `N` before the update. */
  function QStep(q: real, r: real, n: nat): real
    requires n > 0
  {
    q + (r - q) / n as real
  }

  /** `update_Q_function(s, a, r)`. */
  function Updated<S(==,!new)>(t: Tables<S>, s: S, a: nat, r: real): (u: Tables<S>)
    requires Consistent(t)
    ensures Consistent(u) && u.vs == t.vs
  {
    var key := (s, a);
    var ns := t.ns[s := Count(t.ns, s) + 1];
    if key in t.qsa then
      Tables(t.qsa[key := QStep(t.qsa[key], r, t.nsa[key])], t.nsa[key := t.nsa[key] + 1], ns, t.vs)
    else
      Tables(t.qsa[key := r], t.nsa[key := 1], ns, t.vs)
  }

  /**
    What one update does to its own pair and state. A first update of a
    pair sets its value to `r` and its count to 1. A later one moves the
    value by `(r - Q) / N`, where `N` is the count BEFORE it is incremented.
    Either way `Ns[s]` grows by exactly 1.
  */
  lemma UpdatedPair<S(!new)>(t: Tables<S>, s: S, a: nat, r: real)
    requires Consistent(t)
    ensures var u := Updated(t, s, a, r);
      && Count(u.ns, s) == Count(t.ns, s) + 1
      && (s, a) in u.qsa && u.nsa[(s, a)] == Count(t.nsa, (s, a)) + 1
      && ((s, a) !in t.qsa ==> u.qsa[(s, a)] == r)
      && ((s, a) in t.qsa ==> u.qsa[(s, a)] == QStep(t.qsa[(s, a)], r, t.nsa[(s, a)]))
  {
  }

  /** An update changes no other pair and no other state. */
  lemma UpdatedFrame<S(!new)>(t: Tables<S>, s: S, a: nat, r: real)
    requires Consistent(t)
    ensures var u := Updated(t, s, a, r);
      && (forall x :: x != s ==> (x in u.ns <==> x in t.ns) && Count(u.ns, x) == Count(t.ns, x))
      && (forall k :: k != (s, a) ==>
            && (k in u.qsa <==> k in t.qsa)
            && (k in t.qsa ==> u.qsa[k] == t.qsa[k] && u.nsa[k] == t.nsa[k]))
  {
  }

  /** The update as one map update per table, the shape the in-place method takes. */
  lemma UpdatedFields<S(!new)>(t: Tables<S>, s: S, a: nat, r: real)
    requires Consistent(t)
    ensures var u := Updated(t, s, a, r);
      && u.vs == t.vs
      && u.ns == t.ns[s := Count(t.ns, s) + 1]
      && ((s, a) in t.qsa ==> u.qsa == t.qsa[(s, a) := QStep(t.qsa[(s, a)], r, t.nsa[(s, a)])])
      && ((s, a) in t.qsa ==> u.nsa == t.nsa[(s, a) := t.nsa[(s, a)] + 1])
      && ((s, a) !in t.qsa ==> u.qsa == t.qsa[(s, a) := r] && u.nsa == t.nsa[(s, a) := 1])
  {
  }

  /** An update keeps the cached values coherent: it does not touch them. */
  lemma UpdatedCoherent<S(!new)>(env: Environment<S>, t: Tables<S>, s: S, a: nat, r: real)
    requires Coherent(env, t)
    ensures Coherent(env, Updated(t, s, a, r))
  {
  }

  /** `update_Q_function(s, a, r)` for each reward of `rs` in turn. */
  function Repeated<S(==,!new)>(t: Tables<S>, s: S, a: nat, rs: seq<real>): (u: Tables<S>)
    requires Consistent(t)
    ensures Consistent(u)
    decreases |rs|
  {
    if |rs| == 0 then t else Updated(Repeated(t, s, a, rs[..|rs| - 1]), s, a, rs[|rs| - 1])
  }

  /** The value a pair holds after the rewards `rs`, one update at a time. */
  function Running(rs: seq<real>): real
    requires |rs| > 0
  {
    if |rs| == 1 then rs[0] else QStep(Running(rs[..|rs| - 1]), rs[|rs| - 1], |rs| - 1)
  }

  /**
    The running value after the rewards `r1 .. rk` is `r1` when `k = 1` and
    otherwise the mean of `r2 .. rk`. Because the first later update divides
    by the old count 1, it overwrites `r1` with `r2`, so the value is not
    the mean of all `k` rewards.
  */
  lemma {:induction false} RunningIsMean(rs: seq<real>)
    requires |rs| > 0
    ensures Running(rs) == if |rs| == 1 then rs[0] else Mean(rs[1..])
  {
    var n := |rs| - 1;
    if n > 0 {
      var init := rs[..n];
      var r := rs[n];
      RunningIsMean(init);
      var q := Running(init);
      var xs := rs[1..];
      assert xs[..n - 1] == init[1..];
      assert Sum(xs) == Sum(init[1..]) + r;
      if n > 1 {
        var total := Sum(init[1..]);
        var m := (n - 1) as real;
        assert q == total / m;
        assert q * m == total;
        assert n as real == m + 1.0;
        assert q + (r - q) / (m + 1.0) == (q * (m + 1.0) + (r - q)) / (m + 1.0);
      }
    }
  }

  /** After the rewards `rs` on a fresh pair, its count is `|rs|` and its value `Running(rs)`. */
  lemma {:induction false} RepeatedValue<S(!new)>(t: Tables<S>, s: S, a: nat, rs: seq<real>)
    requires Consistent(t) && (s, a) !in t.qsa && |rs| > 0
    ensures var u := Repeated(t, s, a, rs);
      (s, a) in u.qsa && u.nsa[(s, a)] == |rs| && u.qsa[(s, a)] == Running(rs)
  {
    var k := |rs| - 1;
    var init := rs[..k];
    var p := Repeated(t, s, a, init);
    UpdatedPair(p, s, a, rs[k]);
    if k > 0 {
      RepeatedValue(t, s, a, init);
    }
  }

  /** `update_Q_function(s, acts[i], rs[i])` for each `i` in turn, as `default_policy` does. */
  function UpdateEach<S(==,!new)>(t: Tables<S>, s: S, acts: seq<nat>, rs: seq<real>): (u: Tables<S>)
    requires Consistent(t) && |acts| == |rs|
    ensures Consistent(u) && u.vs == t.vs
    decreases |acts|
  {
    if |acts| == 0 then t
    else
      var k := |acts| - 1;
      Updated(UpdateEach(t, s, acts[..k], rs[..k]), s, acts[k], rs[k])
  }

  /** The prefix one longer is the prefix followed by the next element. */
  lemma PrefixSnoc<T>(xs: seq<T>, i: nat)
    requires i < |xs|
    ensures xs[..i + 1] == xs[..i] + [xs[i]]
  {
  }

  /** Updating for one more action and reward is one more `update_Q_function` after the others. */
  lemma UpdateEachSnoc<S(!new)>(t: Tables<S>, s: S, acts: seq<nat>, rs: seq<real>, a: nat, r: real)
    requires Consistent(t) && |acts| == |rs|
    ensures UpdateEach(t, s, acts + [a], rs + [r]) == Updated(UpdateEach(t, s, acts, rs), s, a, r)
  {
    assert (acts + [a])[..|acts|] == acts;
    assert (rs + [r])[..|rs|] == rs;
  }

  /**
    Updating a state once for each of some distinct actions counts the state
    once per action and each of its pairs once. A pair seen for the first
    time takes its reward as its value. Every other pair and state is left
    alone.
  */
  lemma {:induction false} UpdateEachEffect<S(!new)>(t: Tables<S>, s: S, acts: seq<nat>, rs: seq<real>)
    requires Consistent(t) && |acts| == |rs|
    requires forall i, j :: 0 <= i < j < |acts| ==> acts[i] != acts[j]
    ensures var u := UpdateEach(t, s, acts, rs);
      && Count(u.ns, s) == Count(t.ns, s) + |acts|
      && (forall x :: x != s ==> (x in u.ns <==> x in t.ns) && Count(u.ns, x) == Count(t.ns, x))
      && (forall i :: 0 <= i < |acts| ==> (s, acts[i]) in u.qsa && u.nsa[(s, acts[i])] == Count(t.nsa, (s, acts[i])) + 1)
      && (forall i :: 0 <= i < |acts| && (s, acts[i]) !in t.qsa ==> u.qsa[(s, acts[i])] == rs[i])
      && (forall k: (S, nat) :: k.0 != s || k.1 !in acts ==>
            && (k in u.qsa <==> k in t.qsa)
            && (k in t.qsa ==> u.qsa[k] == t.qsa[k] && u.nsa[k] == t.nsa[k]))
  {
    var u := UpdateEach(t, s, acts, rs);
    UpdateEachCount(t, s, acts, rs);
    forall x | x != s
      ensures (x in u.ns <==> x in t.ns) && Count(u.ns, x) == Count(t.ns, x)
    {
      UpdateEachElsewhere(t, s, acts, rs, x);
    }
    forall i | 0 <= i < |acts|
      ensures (s, acts[i]) in u.qsa && u.nsa[(s, acts[i])] == Count(t.nsa, (s, acts[i])) + 1
      ensures (s, acts[i]) !in t.qsa ==> u.qsa[(s, acts[i])] == rs[i]
    {
      UpdateEachPair(t, s, acts, rs, i);
    }
    forall key: (S, nat) | key.0 != s || key.1 !in acts
      ensures key in u.qsa <==> key in t.qsa
      ensures key in t.qsa ==> u.qsa[key] == t.qsa[key] && u.nsa[key] == t.nsa[key]
    {
      UpdateEachOtherPair(t, s, acts, rs, key);
    }
  }

  /** State `x` was counted `n` more times in `t1` than in `t0`. */
  ghost predicate CountedMore<S(!new)>(t0: Tables<S>, t1: Tables<S>, x: S, n: nat)
  {
    Count(t1.ns, x) == Count(t0.ns, x) + n
  }

  /** Pair `k` has the same value and count in both tables. */
  ghost predicate SamePair<S(!new)>(t0: Tables<S>, t1: Tables<S>, k: (S, nat))
  {
    && (k in t1.qsa <==> k in t0.qsa)
    && (k in t0.qsa ==> t1.qsa[k] == t0.qsa[k])
    && Count(t1.nsa, k) == Count(t0.nsa, k)
  }

  /** Pair `k` was counted once more in `t1`, and took value `r` if `t0` had not seen it. */
  ghost predicate Bumped<S(!new)>(t0: Tables<S>, t1: Tables<S>, k: (S, nat), r: real)
  {
    && k in t1.qsa && Count(t1.nsa, k) == Count(t0.nsa, k) + 1
    && (k !in t0.qsa ==> t1.qsa[k] == r)
  }

  lemma UpdatedCounted<S(!new)>(t: Tables<S>, s: S, a: nat, r: real)
    requires Consistent(t)
    ensures CountedMore(t, Updated(t, s, a, r), s, 1)
  {
    UpdatedPair(t, s, a, r);
  }

  lemma UpdatedBumped<S(!new)>(t: Tables<S>, s: S, a: nat, r: real)
    requires Consistent(t)
    ensures Bumped(t, Updated(t, s, a, r), (s, a), r)
  {
    UpdatedPair(t, s, a, r);
  }

  lemma UpdatedSamePair<S(!new)>(t: Tables<S>, s: S, a: nat, r: real, k: (S, nat))
    requires Consistent(t) && k != (s, a)
    ensures SamePair(t, Updated(t, s, a, r), k)
  {
    UpdatedFrame(t, s, a, r);
  }

  lemma CountedMoreChain<S(!new)>(t0: Tables<S>, t1: Tables<S>, t2: Tables<S>, x: S, m: nat, n: nat)
    requires CountedMore(t0, t1, x, m) && CountedMore(t1, t2, x, n)
    ensures CountedMore(t0, t2, x, m + n)
  {
  }

  lemma SamePairChain<S(!new)>(t0: Tables<S>, t1: Tables<S>, t2: Tables<S>, k: (S, nat))
    requires SamePair(t0, t1, k) && SamePair(t1, t2, k)
    ensures SamePair(t0, t2, k)
  {
  }

  lemma BumpedThenSame<S(!new)>(t0: Tables<S>, t1: Tables<S>, t2: Tables<S>, k: (S, nat), r: real)
    requires Bumped(t0, t1, k, r) && SamePair(t1, t2, k)
    ensures Bumped(t0, t2, k, r)
  {
  }

  lemma SameThenBumped<S(!new)>(t0: Tables<S>, t1: Tables<S>, t2: Tables<S>, k: (S, nat), r: real)
    requires SamePair(t0, t1, k) && Bumped(t1, t2, k, r)
    ensures Bumped(t0, t2, k, r)
  {
  }

  lemma {:induction false} UpdateEachCount<S(!new)>(t: Tables<S>, s: S, acts: seq<nat>, rs: seq<real>)
    requires Consistent(t) && |acts| == |rs|
    ensures CountedMore(t, UpdateEach(t, s, acts, rs), s, |acts|)
  {
    if |acts| > 0 {
      var k := |acts| - 1;
      var p := UpdateEach(t, s, acts[..k], rs[..k]);
      UpdateEachCount(t, s, acts[..k], rs[..k]);
      UpdatedCounted(p, s, acts[k], rs[k]);
      CountedMoreChain(t, p, UpdateEach(t, s, acts, rs), s, k, 1);
    }
  }

  lemma {:induction false} UpdateEachOtherPair<S(!new)>(t: Tables<S>, s: S, acts: seq<nat>, rs: seq<real>, key: (S, nat))
    requires Consistent(t) && |acts| == |rs| && (key.0 != s || key.1 !in acts)
    ensures SamePair(t, UpdateEach(t, s, acts, rs), key)
  {
    if |acts| > 0 {
      var k := |acts| - 1;
      var p := UpdateEach(t, s, acts[..k], rs[..k]);
      if key.0 == s {
        assert key.1 !in acts[..k];
        assert acts[k] in acts;
      }
      UpdateEachOtherPair(t, s, acts[..k], rs[..k], key);
      UpdatedSamePair(p, s, acts[k], rs[k], key);
      SamePairChain(t, p, UpdateEach(t, s, acts, rs), key);
    }
  }

  lemma {:induction false} UpdateEachPair<S(!new)>(t: Tables<S>, s: S, acts: seq<nat>, rs: seq<real>, i: nat)
    requires Consistent(t) && |acts| == |rs| && i < |acts|
    requires forall j :: 0 <= j < |acts| && j != i ==> acts[j] != acts[i]
    ensures Bumped(t, UpdateEach(t, s, acts, rs), (s, acts[i]), rs[i])
  {
    var k := |acts| - 1;
    if i < k {
      var p := UpdateEach(t, s, acts[..k], rs[..k]);
      assert acts[..k][i] == acts[i] && rs[..k][i] == rs[i];
      UpdateEachPair(t, s, acts[..k], rs[..k], i);
      UpdatedSamePair(p, s, acts[k], rs[k], (s, acts[i]));
      BumpedThenSame(t, p, UpdateEach(t, s, acts, rs), (s, acts[i]), rs[i]);
    } else {
      UpdateEachLastPair(t, s, acts, rs);
    }
  }

  lemma UpdateEachLastPair<S(!new)>(t: Tables<S>, s: S, acts: seq<nat>, rs: seq<real>)
    requires Consistent(t) && |acts| == |rs| > 0
    requires acts[|acts| - 1] !in acts[..|acts| - 1]
    ensures Bumped(t, UpdateEach(t, s, acts, rs), (s, acts[|acts| - 1]), rs[|rs| - 1])
  {
    var k := |acts| - 1;
    var p := UpdateEach(t, s, acts[..k], rs[..k]);
    UpdateEachOtherPair(t, s, acts[..k], rs[..k], (s, acts[k]));
    UpdatedBumped(p, s, acts[k], rs[k]);
    SameThenBumped(t, p, UpdateEach(t, s, acts, rs), (s, acts[k]), rs[k]);
  }

  // ---------------------------------------------------------------------------
  // Playouts (`default_policy`)
  // ---------------------------------------------------------------------------

  /**
    `r` is a reward a playout can end with after taking `a` in `s`: taking
    arbitrary available actions until a step reports a terminal state, whose
    reward is `r`.
  */
  ghost predicate Reaches<S(!new)>(env: Environment<S>, s: S, a: nat, r: real)
    requires Live(env) && a in Available(env, s)
    decreases env.rank(s)
  {
    var t := env.step(s, a);
    if t.terminal then r == t.reward
    else exists b: nat :: b in Available(env, t.next) && Reaches(env, t.next, b, r)
  }

  /** `rewards[j]` is a playout reward of the available action `acts[j]` of `s`, for every `j`. */
  ghost predicate PlayedOut<S(!new)>(env: Environment<S>, s: S, acts: seq<nat>, rewards: seq<real>)
    requires Live(env)
  {
    && |acts| == |rewards|
    && forall j :: 0 <= j < |acts| ==> acts[j] in Available(env, s) && Reaches(env, s, acts[j], rewards[j])
  }

  lemma PlayedOutExtend<S(!new)>(env: Environment<S>, s: S, acts: seq<nat>, rewards: seq<real>, a: nat, r: real)
    requires Live(env) && PlayedOut(env, s, acts, rewards)
    requires a in Available(env, s) && Reaches(env, s, a, r)
    ensures PlayedOut(env, s, acts + [a], rewards + [r])
  {
  }

  /** One playout reward for each available action of `s`, in order. */
  ghost predicate Rollouts<S(!new)>(env: Environment<S>, s: S, rewards: seq<real>)
    requires Live(env)
  {
    |Available(env, s)| > 0 && PlayedOut(env, s, Available(env, s), rewards)
  }

  /**
    The inner loop of `default_policy`: take `a`, then a randomly chosen
    available action while the last step was not terminal; the reward of the
    final step.
  */
  method Playout<S(==,!new)>(env: Environment<S>, state: S, a: nat) returns (reward: real)
    requires Live(env) && a in Available(env, state)
    ensures Reaches(env, state, a, reward)
  {
    var prev, action := state, a;
    var t := env.step(state, a);
    while !t.terminal
      invariant action in Available(env, prev) && t == env.step(prev, action)
      invariant forall r :: Reaches(env, prev, action, r) ==> Reaches(env, state, a, r)
      decreases env.rank(prev)
    {
      var s := t.next;
      var available := Available(env, s);
      assert |available| > 0;
      assert available[0] in available;
      var choice :| choice in available;
      forall r | Reaches(env, s, choice, r)
        ensures Reaches(env, state, a, r)
      {
        assert Reaches(env, prev, action, r);
      }
      prev, action := s, choice;
      t := env.step(s, choice);
    }
    reward := t.reward;
  }

  // ---------------------------------------------------------------------------
  // `tree_policy`
  // ---------------------------------------------------------------------------

  /** `i` is where `np.argmax` lands: a largest entry, and the first one. */
  ghost predicate FirstMax(xs: seq<real>, i: nat)
  {
    && i < |xs|
    && (forall j :: 0 <= j < |xs| ==> xs[j] <= xs[i])
    && (forall j :: 0 <= j < i ==> xs[j] < xs[i])
  }

  function ArgMax(xs: seq<real>): (i: nat)
    requires |xs| > 0
    ensures FirstMax(xs, i)
  {
    if |xs| == 1 then 0
    else
      var k := ArgMax(xs[..|xs| - 1]);
      if xs[|xs| - 1] > xs[k] then |xs| - 1 else k
  }

  /**
    `uct_score(state)`: one score per available action, computed by the UCT
    formula `uct` from `c`, the pair's `Qsa` and `Nsa` entries (0 when
    missing) and `Ns[state]`.
  */
  function Scores<S(==,!new)>(env: Environment<S>, c: real, uct: (real, real, nat, nat) -> real,
                         qsa: map<(S, nat), real>, nsa: map<(S, nat), nat>, ns: map<S, nat>, s: S): seq<real>
  {
    var available := Available(env, s);
    seq(|available|, i requires 0 <= i < |available| =>
      uct(c, ValueOr(qsa, (s, available[i]), 0.0), Count(nsa, (s, available[i])), Count(ns, s)))
  }

  /**
    `tree_policy(state)`: the available action at the first maximal UCT
    score; `None` where `np.argmax` of no scores raises.
  */
  function SelectAction<S(==,!new)>(env: Environment<S>, c: real, uct: (real, real, nat, nat) -> real,
                               qsa: map<(S, nat), real>, nsa: map<(S, nat), nat>, ns: map<S, nat>, s: S): (best: Option<nat>)
    ensures best.Some? <==> |Available(env, s)| > 0
    ensures best.Some? ==> best.value in Available(env, s)
    ensures best.Some? ==>
      exists i :: 0 <= i < |Available(env, s)| && Available(env, s)[i] == best.value && FirstMax(Scores(env, c, uct, qsa, nsa, ns, s), i)
  {
    var available := Available(env, s);
    if |available| == 0 then None
    else
      var i := ArgMax(Scores(env, c, uct, qsa, nsa, ns, s));
      Some(available[i])
  }

  // ---------------------------------------------------------------------------
  // `search`
  // ---------------------------------------------------------------------------

  /**
    `search(s)` may take the tables `t0` to `t1` and return `v`. First `Vs[s]`
    is filled in. A terminal state returns its reward and changes nothing
    else. A state not yet counted in `Ns` runs one playout per
    available action, updates each pair with its reward, and returns the
    mean. Any other state descends along the action `tree_policy` picks, and
    then updates that one pair with the value the descent returned.
  */
  ghost predicate Searched<S(!new)>(env: Environment<S>, c: real, uct: (real, real, nat, nat) -> real,
                                  t0: Tables<S>, s: S, t1: Tables<S>, v: real)
    requires Live(env) && Coherent(env, t0)
    decreases env.rank(s)
  {
    var t := Cached(env, t0, s);
    if Terminal(env, s) then t1 == t && v == CachedValue(env, s)
    else if s !in t.ns then
      exists rewards :: Rollouts(env, s, rewards) && t1 == UpdateEach(t, s, Available(env, s), rewards) && v == Mean(rewards)
    else
      var best := SelectAction(env, c, uct, t.qsa, t.nsa, t.ns, s).value;
      exists mid :: Coherent(env, mid) && Searched(env, c, uct, t, env.step(s, best).next, mid, v) && t1 == Updated(mid, s, best, v)
  }

  /** The tables once `search(s)` has filled in `Vs[s]`. */
  function Cached<S(==,!new)>(env: Environment<S>, t: Tables<S>, s: S): Tables<S>
  {
    t.(vs := t.vs[s := CachedValue(env, s)])
  }

  lemma SearchedCachedIntro<S(!new)>(env: Environment<S>, c: real, uct: (real, real, nat, nat) -> real, t0: Tables<S>, s: S)
    requires Live(env) && Coherent(env, t0) && Terminal(env, s)
    ensures Searched(env, c, uct, t0, s, Cached(env, t0, s), CachedValue(env, s))
  {
  }

  lemma SearchedFirstIntro<S(!new)>(env: Environment<S>, c: real, uct: (real, real, nat, nat) -> real,
                                    t0: Tables<S>, s: S, rewards: seq<real>, t1: Tables<S>)
    requires Live(env) && Coherent(env, t0) && !Terminal(env, s) && s !in t0.ns
    requires Rollouts(env, s, rewards) && t1 == UpdateEach(Cached(env, t0, s), s, Available(env, s), rewards)
    ensures Searched(env, c, uct, t0, s, t1, Mean(rewards))
  {
  }

  lemma SearchedDescendIntro<S(!new)>(env: Environment<S>, c: real, uct: (real, real, nat, nat) -> real,
                                      t0: Tables<S>, s: S, best: nat, mid: Tables<S>, v: real)
    requires Live(env) && Coherent(env, t0) && !Terminal(env, s) && s in t0.ns
    requires SelectAction(env, c, uct, t0.qsa, t0.nsa, t0.ns, s) == Some(best)
    requires Coherent(env, mid) && Searched(env, c, uct, Cached(env, t0, s), env.step(s, best).next, mid, v)
    ensures Searched(env, c, uct, t0, s, Updated(mid, s, best, v), v)
  {
  }

  /** A search of a terminal state returns its reward and only fills in `Vs`. */
  lemma SearchTerminal<S(!new)>(env: Environment<S>, c: real, uct: (real, real, nat, nat) -> real,
                                t0: Tables<S>, s: S, t1: Tables<S>, v: real)
    requires Live(env) && Coherent(env, t0) && Searched(env, c, uct, t0, s, t1, v) && Terminal(env, s)
    ensures v == env.terminalReward(s).value
    ensures t1.qsa == t0.qsa && t1.nsa == t0.nsa && t1.ns == t0.ns && t1.vs == t0.vs[s := v]
  {
  }

  /**
    The test `search` makes as written: it returns early when the cached
    value is non-zero, which leaves a terminal state whose reward is 0.0 to
    the playouts.
  */
  predicate SettledAsWritten<S(==,!new)>(env: Environment<S>, s: S)
  {
    CachedValue(env, s) != 0.0
  }

  /** The test as written settles exactly the terminal states whose reward is not 0.0. */
  lemma SettledAsWrittenMissesZero<S(!new)>(env: Environment<S>, s: S)
    ensures SettledAsWritten(env, s) <==> Terminal(env, s) && env.terminalReward(s) != Some(0.0)
  {
  }

  /**
    A live environment whose only state is terminal with reward 0.0 and has
    no action. The test as written does not settle it, so `search` would go
    on to `default_policy`, which averages the rewards of no playouts; the
    test on terminality settles it.
  */
  lemma ZeroRewardTerminalUnsettled()
    ensures var env := Environment((s: int) => [], (s: int, a: nat) => Transition(s, 0.0, true),
                                   (s: int) => Some(0.0), (s: int) => 0);
      && Live(env) && Terminal(env, 0) && !SettledAsWritten(env, 0) && |Available(env, 0)| == 0
  {
    var env := Environment((s: int) => [], (s: int, a: nat) => Transition(s, 0.0, true),
                           (s: int) => Some(0.0), (s: int) => 0);
    forall s: int ensures Available(env, s) == [] {
      assert env.mask(s) == [];
    }
  }

  /** The entries of state `x` in `Qsa`, `Nsa` and `Ns` are the same in `t0` and `t1`. */
  ghost predicate Untouched<S(!new)>(t0: Tables<S>, t1: Tables<S>, x: S)
  {
    && (x in t1.ns <==> x in t0.ns) && Count(t1.ns, x) == Count(t0.ns, x)
    && forall b: nat ::
         && ((x, b) in t1.qsa <==> (x, b) in t0.qsa)
         && ((x, b) in t0.qsa ==> t1.qsa[(x, b)] == t0.qsa[(x, b)])
         && Count(t1.nsa, (x, b)) == Count(t0.nsa, (x, b))
  }

  lemma UntouchedSymmetric<S(!new)>(t0: Tables<S>, t1: Tables<S>, x: S)
    requires Untouched(t0, t1, x)
    ensures Untouched(t1, t0, x)
  {
  }

  /** Agreeing about `x` is transitive. */
  lemma UntouchedChain<S(!new)>(t0: Tables<S>, t: Tables<S>, t1: Tables<S>, x: S)
    requires Untouched(t0, t, x) && Untouched(t, t1, x)
    ensures Untouched(t0, t1, x)
  {
  }

  lemma UpdatedElsewhere<S(!new)>(t: Tables<S>, s: S, a: nat, r: real, x: S)
    requires Consistent(t) && x != s
    ensures Untouched(t, Updated(t, s, a, r), x)
  {
    UpdatedFrame(t, s, a, r);
  }

  /** Updating the pairs of `s` leaves every other state's entries alone. */
  lemma {:induction false} UpdateEachElsewhere<S(!new)>(t: Tables<S>, s: S, acts: seq<nat>, rs: seq<real>, x: S)
    requires Consistent(t) && |acts| == |rs| && x != s
    ensures Untouched(t, UpdateEach(t, s, acts, rs), x)
  {
    if |acts| > 0 {
      var k := |acts| - 1;
      var p := UpdateEach(t, s, acts[..k], rs[..k]);
      UpdateEachElsewhere(t, s, acts[..k], rs[..k], x);
      UpdatedElsewhere(p, s, acts[k], rs[k], x);
      UntouchedChain(t, p, UpdateEach(t, s, acts, rs), x);
    }
  }

  /** A search from `s` only touches states of rank at most `s`'s: those it can still reach. */
  lemma {:induction false} SearchFrame<S(!new)>(env: Environment<S>, c: real, uct: (real, real, nat, nat) -> real,
                                              t0: Tables<S>, s: S, t1: Tables<S>, v: real, x: S)
    requires Live(env) && Coherent(env, t0) && Searched(env, c, uct, t0, s, t1, v)
    requires env.rank(x) > env.rank(s)
    ensures Untouched(t0, t1, x)
    decreases env.rank(s)
  {
    if Terminal(env, s) {
      CachedUntouched(env, t0, s, x);
    } else if s !in t0.ns {
      FirstVisitFrame(env, c, uct, t0, s, t1, v, x);
    } else {
      var best, mid := SearchedDescendElim(env, c, uct, t0, s, t1, v);
      SearchFrame(env, c, uct, Cached(env, t0, s), env.step(s, best).next, mid, v, x);
      DescendFrame(env, t0, s, mid, best, v, x);
    }
  }

  /** The playouts of a first visit to `s` only update `s`. */
  lemma FirstVisitFrame<S(!new)>(env: Environment<S>, c: real, uct: (real, real, nat, nat) -> real,
                                 t0: Tables<S>, s: S, t1: Tables<S>, v: real, x: S)
    requires Live(env) && Coherent(env, t0) && Searched(env, c, uct, t0, s, t1, v)
    requires !Terminal(env, s) && s !in t0.ns && x != s
    ensures Untouched(t0, t1, x)
  {
    var t := Cached(env, t0, s);
    var rewards := SearchedFirstElim(env, c, uct, t0, s, t1, v);
    CachedUntouched(env, t0, s, x);
    UpdateEachElsewhere(t, s, Available(env, s), rewards, x);
    UntouchedChain(t0, t, t1, x);
  }

  /** A descent that left `x` alone, followed by the update of `s`, leaves `x` alone. */
  lemma DescendFrame<S(!new)>(env: Environment<S>, t0: Tables<S>, s: S, mid: Tables<S>, a: nat, v: real, x: S)
    requires Consistent(mid) && x != s && Untouched(Cached(env, t0, s), mid, x)
    ensures Untouched(t0, Updated(mid, s, a, v), x)
  {
    CachedUntouched(env, t0, s, x);
    UntouchedChain(t0, Cached(env, t0, s), mid, x);
    UpdatedElsewhere(mid, s, a, v, x);
    UntouchedChain(t0, mid, Updated(mid, s, a, v), x);
  }

  /** Two tables that agree about pair `(s, b)` still agree about it after the same update. */
  lemma UpdatedRespectsPair<S(!new)>(t: Tables<S>, t': Tables<S>, s: S, a: nat, r: real, b: nat)
    requires Consistent(t) && Consistent(t')
    requires ((s, b) in t.qsa <==> (s, b) in t'.qsa) && ((s, b) in t.qsa ==> t'.qsa[(s, b)] == t.qsa[(s, b)])
    requires Count(t.nsa, (s, b)) == Count(t'.nsa, (s, b))
    ensures var u, u' := Updated(t, s, a, r), Updated(t', s, a, r);
      && ((s, b) in u'.qsa <==> (s, b) in u.qsa)
      && ((s, b) in u.qsa ==> u'.qsa[(s, b)] == u.qsa[(s, b)])
      && Count(u'.nsa, (s, b)) == Count(u.nsa, (s, b))
  {
    if b == a {
      UpdatedPair(t, s, a, r);
      UpdatedPair(t', s, a, r);
    } else {
      UpdatedFrame(t, s, a, r);
      UpdatedFrame(t', s, a, r);
    }
  }

  /** One update on tables that agree about `x` gives tables that still agree about `x`. */
  lemma UpdatedRespects<S(!new)>(t: Tables<S>, t': Tables<S>, s: S, a: nat, r: real, x: S)
    requires Consistent(t) && Consistent(t') && Untouched(t, t', x)
    ensures Untouched(Updated(t, s, a, r), Updated(t', s, a, r), x)
  {
    var u, u' := Updated(t, s, a, r), Updated(t', s, a, r);
    if x == s {
      UpdatedPair(t, s, a, r);
      UpdatedPair(t', s, a, r);
      forall b: nat
        ensures && ((x, b) in u'.qsa <==> (x, b) in u.qsa)
                && ((x, b) in u.qsa ==> u'.qsa[(x, b)] == u.qsa[(x, b)])
                && Count(u'.nsa, (x, b)) == Count(u.nsa, (x, b))
      {
        UpdatedRespectsPair(t, t', s, a, r, b);
      }
    } else {
      UpdatedElsewhere(t, s, a, r, x);
      UpdatedElsewhere(t', s, a, r, x);
      UntouchedSymmetric(t, u, x);
      UntouchedChain(u, t, t', x);
      UntouchedChain(u, t', u', x);
    }
  }

  /**
    On the recursive path `search(s)` leaves the entries of `s` exactly as
    one `update_Q_function(s, a, v)` on the tables before the search would.
    Here `a` is the action `tree_policy` picks and `v` the value the descent
    returned. So that one pair is updated once, `Ns[s]` grows by 1, and no
    other pair of `s` changes.
  */
  lemma SearchUpdatesOnce<S(!new)>(env: Environment<S>, c: real, uct: (real, real, nat, nat) -> real,
                                 t0: Tables<S>, s: S, t1: Tables<S>, v: real)
    requires Live(env) && Coherent(env, t0) && Searched(env, c, uct, t0, s, t1, v)
    requires !Terminal(env, s) && s in t0.ns
    ensures SelectAction(env, c, uct, t0.qsa, t0.nsa, t0.ns, s).Some?
    ensures Untouched(Updated(t0, s, SelectAction(env, c, uct, t0.qsa, t0.nsa, t0.ns, s).value, v), t1, s)
  {
    var t := Cached(env, t0, s);
    var best, mid := SearchedDescendElim(env, c, uct, t0, s, t1, v);
    SearchFrame(env, c, uct, t, env.step(s, best).next, mid, v, s);
    CachedUntouched(env, t0, s, s);
    UntouchedChain(t0, t, mid, s);
    UpdatedRespects(t0, mid, s, best, v, s);
  }

  lemma CachedCoherent<S(!new)>(env: Environment<S>, t: Tables<S>, s: S)
    requires Coherent(env, t)
    ensures Coherent(env, Cached(env, t, s))
  {
  }

  lemma CachedUntouched<S(!new)>(env: Environment<S>, t: Tables<S>, s: S, x: S)
    ensures Untouched(t, Cached(env, t, s), x)
  {
  }

  lemma SearchedDescendElim<S(!new)>(env: Environment<S>, c: real, uct: (real, real, nat, nat) -> real,
                                     t0: Tables<S>, s: S, t1: Tables<S>, v: real) returns (best: nat, mid: Tables<S>)
    requires Live(env) && Coherent(env, t0) && Searched(env, c, uct, t0, s, t1, v)
    requires !Terminal(env, s) && s in t0.ns
    ensures SelectAction(env, c, uct, t0.qsa, t0.nsa, t0.ns, s) == Some(best)
    ensures env.rank(env.step(s, best).next) < env.rank(s)
    ensures Coherent(env, Cached(env, t0, s)) && Coherent(env, mid)
    ensures Searched(env, c, uct, Cached(env, t0, s), env.step(s, best).next, mid, v)
    ensures t1 == Updated(mid, s, best, v)
  {
    CachedCoherent(env, t0, s);
    best := SelectAction(env, c, uct, t0.qsa, t0.nsa, t0.ns, s).value;
    mid :| Coherent(env, mid) && Searched(env, c, uct, Cached(env, t0, s), env.step(s, best).next, mid, v)
           && t1 == Updated(mid, s, best, v);
  }

  lemma SearchedFirstElim<S(!new)>(env: Environment<S>, c: real, uct: (real, real, nat, nat) -> real,
                                   t0: Tables<S>, s: S, t1: Tables<S>, v: real) returns (rewards: seq<real>)
    requires Live(env) && Coherent(env, t0) && Searched(env, c, uct, t0, s, t1, v)
    requires !Terminal(env, s) && s !in t0.ns
    ensures Rollouts(env, s, rewards) && t1 == UpdateEach(Cached(env, t0, s), s, Available(env, s), rewards)
    ensures v == Mean(rewards)
  {
    rewards :| Rollouts(env, s, rewards) && t1 == UpdateEach(Cached(env, t0, s), s, Available(env, s), rewards)
               && v == Mean(rewards);
  }

  /**
    Updating a state not yet counted once for each of some distinct actions
    leaves it counted once per action, and each of its pairs counted once
    with its own reward as value.
  */
  lemma FirstUpdates<S(!new)>(t: Tables<S>, s: S, acts: seq<nat>, rs: seq<real>)
    requires Consistent(t) && |acts| == |rs| && s !in t.ns
    requires forall i, j :: 0 <= i < j < |acts| ==> acts[i] != acts[j]
    ensures var u := UpdateEach(t, s, acts, rs);
      && Count(u.ns, s) == |acts|
      && forall i :: 0 <= i < |rs| ==> (s, acts[i]) in u.qsa && u.nsa[(s, acts[i])] == 1 && u.qsa[(s, acts[i])] == rs[i]
  {
    UpdateEachEffect(t, s, acts, rs);
    forall i | 0 <= i < |acts|
      ensures (s, acts[i]) !in t.qsa && (s, acts[i]) !in t.nsa
    {
    }
  }

  /** The tables after the playouts of a first visit, for the rewards they ended with. */
  lemma FirstVisitTables<S(!new)>(env: Environment<S>, t: Tables<S>, s: S, t1: Tables<S>, rewards: seq<real>)
    requires Live(env) && Consistent(t) && s !in t.ns
    requires Rollouts(env, s, rewards) && t1 == UpdateEach(t, s, Available(env, s), rewards)
    ensures t1.ns[s] == |Available(env, s)|
    ensures forall i :: 0 <= i < |rewards| ==>
      (s, Available(env, s)[i]) in t1.qsa && t1.nsa[(s, Available(env, s)[i])] == 1
      && t1.qsa[(s, Available(env, s)[i])] == rewards[i]
  {
    FirstUpdates(t, s, Available(env, s), rewards);
  }

  /**
    On a first visit `search(s)` counts `s` once per available action and
    each available pair once. Each pair's value is the reward of one playout
    from it, and the result is the mean of those rewards.
  */
  lemma SearchFirstVisit<S(!new)>(env: Environment<S>, c: real, uct: (real, real, nat, nat) -> real,
                                t0: Tables<S>, s: S, t1: Tables<S>, v: real)
    requires Live(env) && Coherent(env, t0) && Searched(env, c, uct, t0, s, t1, v)
    requires !Terminal(env, s) && s !in t0.ns
    ensures t1.ns[s] == |Available(env, s)|
    ensures exists rewards ::
      && Rollouts(env, s, rewards) && v == Mean(rewards)
      && forall i :: 0 <= i < |rewards| ==>
           (s, Available(env, s)[i]) in t1.qsa && t1.nsa[(s, Available(env, s)[i])] == 1
           && t1.qsa[(s, Available(env, s)[i])] == rewards[i]
  {
    var rewards := SearchedFirstElim(env, c, uct, t0, s, t1, v);
    FirstVisitTables(env, Cached(env, t0, s), s, t1, rewards);
  }

  // ---------------------------------------------------------------------------
  // `get_policy`
  // ---------------------------------------------------------------------------

  /** The weights `get_policy` starts from: the visit count of each available action, 0 for the others. */
  function Weights<S(==,!new)>(nsa: map<(S, nat), nat>, s: S, mask: seq<bool>): seq<real>
  {
    seq(|mask|, a requires 0 <= a < |mask| => if mask[a] then Count(nsa, (s, a)) as real else 0.0)
  }

  /** `np.ones_like(actions) * mask`. */
  function Indicator(mask: seq<bool>): seq<real>
  {
    seq(|mask|, a requires 0 <= a < |mask| => if mask[a] then 1.0 else 0.0)
  }

  function Scaled(xs: seq<real>, d: real): seq<real>
    requires d != 0.0
  {
    seq(|xs|, i requires 0 <= i < |xs| => xs[i] / d)
  }

  /**
    `get_policy(state)`: the visit counts normalised to sum 1, or, when no
    available action has been visited, the uniform distribution over the
    available actions. `None` where the source divides 0 by 0, which happens
    when no action is available.
  */
  function Policy<S(==,!new)>(nsa: map<(S, nat), nat>, s: S, mask: seq<bool>): Option<seq<real>>
  {
    var w := Weights(nsa, s, mask);
    if Sum(w) != 0.0 then Some(Scaled(w, Sum(w)))
    else
      var u := Indicator(mask);
      if Sum(u) == 0.0 then None else Some(Scaled(u, Sum(u)))
  }

  lemma {:induction false} SumScaled(xs: seq<real>, d: real)
    requires d != 0.0
    ensures Sum(Scaled(xs, d)) == Sum(xs) / d
  {
    if |xs| > 0 {
      var k := |xs| - 1;
      assert Scaled(xs, d)[..k] == Scaled(xs[..k], d);
      SumScaled(xs[..k], d);
    }
  }

  /** A sum of non-negative entries is 0 exactly when every entry is. */
  lemma {:induction false} SumZero(xs: seq<real>)
    requires forall i :: 0 <= i < |xs| ==> xs[i] >= 0.0
    ensures Sum(xs) >= 0.0
    ensures Sum(xs) == 0.0 <==> forall i :: 0 <= i < |xs| ==> xs[i] == 0.0
  {
    if |xs| > 0 {
      var k := |xs| - 1;
      SumZero(xs[..k]);
      assert forall i :: 0 <= i < k ==> xs[..k][i] == xs[i];
    }
  }

  lemma {:induction false} SumIndicator(mask: seq<bool>)
    ensures Sum(Indicator(mask)) == |Selected(mask)| as real
  {
    if |mask| > 0 {
      var k := |mask| - 1;
      assert Indicator(mask)[..k] == Indicator(mask[..k]);
      SumIndicator(mask[..k]);
    }
  }

  /** Dividing non-negative weights with a non-zero total by that total gives a distribution. */
  lemma Normalized(xs: seq<real>)
    requires forall i :: 0 <= i < |xs| ==> xs[i] >= 0.0
    requires Sum(xs) != 0.0
    ensures forall i :: 0 <= i < |xs| ==> Scaled(xs, Sum(xs))[i] >= 0.0
    ensures forall i :: 0 <= i < |xs| && xs[i] == 0.0 ==> Scaled(xs, Sum(xs))[i] == 0.0
    ensures Sum(Scaled(xs, Sum(xs))) == 1.0
  {
    var d := Sum(xs);
    SumZero(xs);
    SumScaled(xs, d);
    DivideSelf(d);
    forall i | 0 <= i < |xs|
      ensures Scaled(xs, d)[i] >= 0.0 && (xs[i] == 0.0 ==> Scaled(xs, d)[i] == 0.0)
    {
      DivideNonNegative(xs[i], d);
    }
  }

  lemma DivideSelf(d: real)
    requires d != 0.0
    ensures d / d == 1.0
  {
  }

  lemma DivideNonNegative(x: real, d: real)
    requires x >= 0.0 && d > 0.0
    ensures x / d >= 0.0 && (x == 0.0 ==> x / d == 0.0)
  {
  }

  /** `get_policy` yields a distribution exactly when some action is available. */
  lemma PolicyDefined<S(!new)>(nsa: map<(S, nat), nat>, s: S, mask: seq<bool>)
    ensures Policy(nsa, s, mask).Some? <==> |Selected(mask)| > 0
  {
    var w := Weights(nsa, s, mask);
    SumZero(w);
    SumIndicator(mask);
    if Sum(w) != 0.0 {
      var a :| 0 <= a < |w| && w[a] != 0.0;
      assert a in Selected(mask);
    }
  }

  /**
    What `get_policy` returns is a distribution over the actions: one
    non-negative entry per action, 0 for every masked-out action, summing
    to 1.
  */
  lemma PolicyIsDistribution<S(!new)>(nsa: map<(S, nat), nat>, s: S, mask: seq<bool>)
    requires Policy(nsa, s, mask).Some?
    ensures var pi := Policy(nsa, s, mask).value;
      && |pi| == |mask|
      && (forall a :: 0 <= a < |mask| ==> pi[a] >= 0.0)
      && (forall a :: 0 <= a < |mask| && !mask[a] ==> pi[a] == 0.0)
      && Sum(pi) == 1.0
  {
    var w := Weights(nsa, s, mask);
    SumZero(w);
    if Sum(w) != 0.0 {
      Normalized(w);
    } else {
      var u := Indicator(mask);
      SumZero(u);
      Normalized(u);
    }
  }

  /** With no available action visited yet, `get_policy` is uniform over the available actions. */
  lemma PolicyUniform<S(!new)>(nsa: map<(S, nat), nat>, s: S, mask: seq<bool>)
    requires |Selected(mask)| > 0
    requires forall a :: 0 <= a < |mask| && mask[a] ==> Count(nsa, (s, a)) == 0
    ensures Policy(nsa, s, mask).Some?
    ensures forall a :: 0 <= a < |mask| && mask[a] ==> Policy(nsa, s, mask).value[a] == 1.0 / |Selected(mask)| as real
  {
    var w := Weights(nsa, s, mask);
    SumZero(w);
    SumIndicator(mask);
  }

  /**
    Once some available action has been visited, `get_policy` gives each
    action its share of the visits of available actions.
  */
  lemma PolicyProportional<S(!new)>(nsa: map<(S, nat), nat>, s: S, mask: seq<bool>)
    requires exists a :: 0 <= a < |mask| && mask[a] && Count(nsa, (s, a)) > 0
    ensures Policy(nsa, s, mask).Some?
    ensures var total := Sum(Weights(nsa, s, mask));
      && total > 0.0
      && forall a :: 0 <= a < |mask| ==>
           Policy(nsa, s, mask).value[a] == if mask[a] then Count(nsa, (s, a)) as real / total else 0.0
  {
    var w := Weights(nsa, s, mask);
    SumZero(w);
    var a :| 0 <= a < |mask| && mask[a] && Count(nsa, (s, a)) > 0;
    assert w[a] != 0.0;
  }

  // ---------------------------------------------------------------------------
  // The search object
  // ---------------------------------------------------------------------------

  /** Divides every entry of `p` by `d`, in place. */
  method ScaleInPlace(p: array<real>, d: real)
    requires d != 0.0
    modifies p
    ensures p[..] == Scaled(old(p[..]), d)
  {
    for a := 0 to p.Length
      invariant forall b :: 0 <= b < a ==> p[b] == old(p[b]) / d
      invariant forall b :: a <= b < p.Length ==> p[b] == old(p[b])
    {
      p[a] := p[a] / d;
    }
  }

  /** The tables of one search, updated in place, over a fixed environment, exploration constant and UCT formula. */
  class Mcts<S(==,!new)> {
    const env: Environment<S>
    const c: real
    const uct: (real, real, nat, nat) -> real
    var qsa: map<(S, nat), real>
    var nsa: map<(S, nat), nat>
    var ns: map<S, nat>
    var vs: map<S, real>

    function View(): Tables<S>
      reads this
    {
      Tables(qsa, nsa, ns, vs)
    }

    ghost predicate Valid()
      reads this
    {
      Coherent(env, View())
    }

    /** `MCTS(environment, c)`: empty tables. */
    constructor (env: Environment<S>, c: real, uct: (real, real, nat, nat) -> real)
      ensures this.env == env && this.c == c && this.uct == uct
      ensures View() == Tables(map[], map[], map[], map[]) && Valid()
    {
      this.env := env;
      this.c := c;
      this.uct := uct;
      qsa := map[];
      nsa := map[];
      ns := map[];
      vs := map[];
    }

    method UpdateQFunction(state: S, action: nat, reward: real)
      requires Valid()
      modifies this
      ensures View() == Updated(old(View()), state, action, reward) && Valid()
    {
      ghost var t := View();
      UpdatedCoherent(env, t, state, action, reward);
      UpdatedFields(t, state, action, reward);
      var key := (state, action);
      if key in qsa {
        qsa := qsa[key := QStep(qsa[key], reward, nsa[key])];
        nsa := nsa[key := nsa[key] + 1];
      } else {
        qsa := qsa[key := reward];
        nsa := nsa[key := 1];
      }
      if state in ns {
        ns := ns[state := ns[state] + 1];
      } else {
        ns := ns[state := 1];
      }
    }

    /**
      `default_policy(state)`: one playout per available action, each
      followed by an update of that pair with its reward; the mean reward.
      `rewards` names the rewards the playouts ended with.
    */
    method DefaultPolicy(state: S) returns (v: real, ghost rewards: seq<real>)
      requires Valid() && Live(env) && |Available(env, state)| > 0
      modifies this
      ensures Valid()
      ensures Rollouts(env, state, rewards) && v == Mean(rewards)
      ensures View() == UpdateEach(old(View()), state, Available(env, state), rewards)
    {
      var collected: seq<real> := [];
      var available := Available(env, state);
      for i := 0 to |available|
        invariant Valid() && PlayedOut(env, state, available[..i], collected)
        invariant View() == UpdateEach(old(View()), state, available[..i], collected)
      {
        var a := available[i];
        var r := Playout(env, state, a);
        UpdateQFunction(state, a, r);
        PlayedOutExtend(env, state, available[..i], collected, a, r);
        UpdateEachSnoc(old(View()), state, available[..i], collected, a, r);
        PrefixSnoc(available, i);
        collected := collected + [r];
      }
      assert available[..|available|] == available;
      v := Mean(collected);
      rewards := collected;
    }

    /**
      `search(state)`. The value is the reward of a terminal state, the
      mean playout reward of a first visit, or the value of a descent along
      the action `tree_policy` picks, which then updates that pair.
    */
    method Search(state: S) returns (v: real)
      requires Valid() && Live(env)
      modifies this
      ensures Valid()
      ensures Searched(env, c, uct, old(View()), state, View(), v)
      ensures state in vs && vs[state] == CachedValue(env, state)
      ensures forall x :: x in old(vs) ==> x in vs
      ensures Terminal(env, state) ==>
        v == CachedValue(env, state) && qsa == old(qsa) && nsa == old(nsa) && ns == old(ns)
      decreases env.rank(state)
    {
      if state !in vs {
        vs := vs[state := CachedValue(env, state)];
      }
      ghost var t := View();
      assert t == Cached(env, old(View()), state);
      if Terminal(env, state) {
        SearchedCachedIntro(env, c, uct, old(View()), state);
        return vs[state];
      }
      if state !in ns {
        ghost var rewards;
        v, rewards := DefaultPolicy(state);
        SearchedFirstIntro(env, c, uct, old(View()), state, rewards, View());
        return;
      }
      var best := SelectAction(env, c, uct, qsa, nsa, ns, state);
      var a := best.value;
      var next := env.step(state, a).next;
      v := Search(next);
      ghost var mid := View();
      UpdateQFunction(state, a, v);
      SearchedDescendIntro(env, c, uct, old(View()), state, a, mid, v);
    }

    /** `get_policy(state)`, filling an array of one weight per action and normalising it in place. */
    method GetPolicy(state: S) returns (pi: Option<seq<real>>)
      ensures pi == Policy(nsa, state, env.mask(state))
    {
      var mask := env.mask(state);
      var p := new real[|mask|](_ => 0.0);
      var available := Selected(mask);
      for i := 0 to |available|
        invariant forall a :: 0 <= a < |mask| ==>
          p[a] == if a in available[..i] then Count(nsa, (state, a)) as real else 0.0
      {
        var a := available[i];
        p[a] := Count(nsa, (state, a)) as real;
      }
      assert available[..|available|] == available;
      assert p[..] == Weights(nsa, state, mask);
      var total := Sum(p[..]);
      if total == 0.0 {
        for a := 0 to |mask|
          invariant forall b :: 0 <= b < a ==> p[b] == if mask[b] then 1.0 else 0.0
        {
          p[a] := if mask[a] then 1.0 else 0.0;
        }
        assert p[..] == Indicator(mask);
        total := Sum(p[..]);
      }
      if total == 0.0 {
        return None;
      }
      ScaleInPlace(p, total);
      pi := Some(p[..]);
    }
  }
}
