/** First consequences of the specification that the implementation proof uses. */
module FlatFsBasics {
  import opened Paths
  import opened FlatFs

  /** Every prefix of a path in the tree is in it, and a proper one is a directory. */
  lemma {:induction false} PrefixClosed(fs: map<Path, Node>, p: Path, k: nat)
    requires TreeWf(fs) && p in fs && k <= |p|
    ensures p[..k] in fs && (k < |p| ==> fs[p[..k]].Dir?)
    decreases |p| - k
  {
    if k == |p| {
      assert p[..k] == p;
    } else {
      PrefixClosed(fs, p, k + 1);
      assert Parent(p[..k + 1]) == p[..k];
    }
  }

  /** Where the walk along `p` leaves the tree decides the answer. */
  lemma ResolveAt(fs: map<Path, Node>, p: Path, i: nat)
    requires TreeWf(fs) && i < |p| && p[..i] in fs && p[..i + 1] !in fs
    ensures Resolve(fs, p) == if i == |p| - 1 && fs[p[..i]].Dir? then Missing else Bad
  {
    if p in fs {
      PrefixClosed(fs, p, i + 1);
    }
    if i < |p| - 1 {
      assert Parent(p)[..i + 1] == p[..i + 1];
      if Parent(p) in fs {
        PrefixClosed(fs, Parent(p), i + 1);
      }
    }
    if i == |p| - 1 {
      assert p[..i + 1] == p && Parent(p) == p[..i];
    }
  }

  /** A sequence without repetitions has as many elements as its set. */
  lemma {:induction false} DistinctCount<T>(s: seq<T>)
    requires forall i, j :: 0 <= i < j < |s| ==> s[i] != s[j]
    ensures |set x | x in s| == |s|
    decreases |s|
  {
    if s == [] {
      assert (set x | x in s) == {};
    } else {
      var n := |s| - 1;
      DistinctCount(s[..n]);
      assert s == s[..n] + [s[n]];
      assert (set x | x in s) == (set x | x in s[..n]) + {s[n]};
    }
  }

  /** An injective map has as many keys as values. */
  lemma {:induction false} InjectiveCount<K, V>(m: map<K, V>)
    requires forall j, k :: j in m && k in m && j != k ==> m[j] != m[k]
    ensures |m.Values| == |m|
    decreases |m|
  {
    if m == map[] {
      assert m.Values == {};
    } else {
      var k :| k in m;
      var rest := m - {k};
      assert rest.Keys == m.Keys - {k};
      assert |rest| == |m| - 1 by {
        assert |m.Keys| == |rest.Keys| + 1;
      }
      InjectiveCount(rest);
      assert m.Values == rest.Values + {m[k]} by {
        forall v | v in m.Values ensures v in rest.Values + {m[k]} {
          var j :| j in m && m[j] == v;
          if j != k {
            assert j in rest && rest[j] == v;
          }
        }
        forall v | v in rest.Values + {m[k]} ensures v in m.Values {
          if v in rest.Values {
            var j :| j in rest && rest[j] == v;
            assert j in m && m[j] == v;
          }
        }
      }
      assert m[k] !in rest.Values;
    }
  }

  lemma RunNothing(s: State, ops: seq<Op>)
    ensures Run([s], ops[..0], [])
  {
  }

  /** A run goes on with one more call. */
  lemma RunExtend(states: seq<State>, ops: seq<Op>, rets: seq<Ret>, ret: Ret, s': State)
    requires |rets| < |ops| && Run(states, ops[..|rets|], rets)
    requires Allowed(states[|rets|], ops[|rets|]) && Step(states[|rets|], ops[|rets|], ret, s')
    ensures Run(states + [s'], ops[..|rets| + 1], rets + [ret])
  {
    hide Allowed, Step;
    var i := |rets|;
    forall j | 0 <= j <= i
      ensures Allowed((states + [s'])[j], ops[..i + 1][j])
      ensures Step((states + [s'])[j], ops[..i + 1][j], (rets + [ret])[j], (states + [s'])[j + 1])
    {
      if j < i {
        assert ops[..i][j] == ops[..i + 1][j];
      }
    }
  }

  /** The table of a run depends on the calls so far. */
  lemma {:induction false} TablesPrefix(states: seq<State>, ops: seq<Op>, states': seq<State>, ops': seq<Op>, n: nat)
    requires n <= |ops| < |states| && n <= |ops'| < |states'| && states[..n + 1] == states'[..n + 1]
    requires ops[..n] == ops'[..n]
    ensures Tables(states, ops, n) == Tables(states', ops', n)
    decreases n
  {
    hide TableAfter;
    if n > 0 {
      assert states[..n] == states[..n + 1][..n] && states'[..n] == states'[..n + 1][..n];
      assert ops[..n - 1] == ops[..n][..n - 1] && ops'[..n - 1] == ops'[..n][..n - 1];
      TablesPrefix(states, ops, states', ops', n - 1);
      assert states[n] == states[..n + 1][n] == states'[n] && states[n - 1] == states[..n + 1][n - 1] == states'[n - 1];
      assert ops[n - 1] == ops[..n][n - 1] == ops'[n - 1];
    }
  }

  lemma TablesExtend(states: seq<State>, ops: seq<Op>, i: nat, s': State)
    requires i < |ops| && |states| == i + 1
    ensures Tables(states + [s'], ops[..i + 1], i + 1) == TableAfter(states[i], ops[i], s', Tables(states, ops[..i], i))
  {
    hide TableAfter;
    TablesPrefix(states, ops[..i], states + [s'], ops[..i + 1], i);
  }
}
