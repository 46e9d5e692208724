/**
 * The double-buffered step of tag_ccm.py as functions on populations.
 * During a step every rule reads the populations committed by the previous
 * step (`current`) and writes only into the accumulators (`next`); the
 * commit then makes `max(0, next)` the new population and clears `next`.
 */
module Accumulation {
  import opened Maybe
  import opened Cohort
  import opened Protocol
  import opened Expansion

  /** The two population fields of a cohort. */
  datatype Pop = Pop(current: int, next: int)

  /** The populations of the pool, by canonical key. */
  type Pops = map<Key, Pop>

  /** The fields of cohort `k`, or those of a freshly deserialised cohort when there is none. */
  function Base(p: Pops, k: Key): Pop {
    if k in p then p[k] else Pop(0, 0)
  }

  /** `population // len(to_blocks)`; no division happens when there are no destinations. */
  function Share(amount: int, n: nat): int {
    if n == 0 then 0 else amount / n
  }

  /** The share is Python's floor division: `n` shares never exceed the amount and fall short by less than `n`. */
  lemma ShareFloors(amount: int, n: nat)
    requires n > 0
    ensures Share(amount, n) * n <= amount < Share(amount, n) * n + n
  {
  }

  /**
   * The loop of `contribute` over its destinations: each key of `keys` in
   * turn is created when missing and its `next` rises by `share`.
   */
  function Distribute(p: Pops, keys: seq<Key>, share: int): Pops
    decreases |keys|
  {
    if keys == [] then p
    else
      var d := Distribute(p, keys[..|keys| - 1], share);
      var k := keys[|keys| - 1];
      d[k := Pop(Base(d, k).current, Base(d, k).next + share)]
  }

  /** Crediting one more key is one more increment of that key. */
  lemma DistributeSnoc(p: Pops, keys: seq<Key>, k: Key, share: int)
    ensures var d := Distribute(p, keys, share);
      Distribute(p, keys + [k], share) == d[k := Pop(Base(d, k).current, Base(d, k).next + share)]
  {
    assert (keys + [k])[..|keys|] == keys;
  }

  /** After the loop, every key holds its old fields plus one `share` per occurrence in `keys`. */
  lemma {:induction false} DistributeAt(p: Pops, keys: seq<Key>, share: int, k: Key)
    ensures k in Distribute(p, keys, share) <==> k in p || k in keys
    ensures Base(Distribute(p, keys, share), k) ==
      Pop(Base(p, k).current, Base(p, k).next + multiset(keys)[k] * share)
    decreases |keys|
  {
    if keys != [] {
      var init, last := keys[..|keys| - 1], keys[|keys| - 1];
      DistributeAt(p, init, share, k);
      SnocCount(init, last, k);
      assert keys == init + [last];
      if k == last {
        AddOneShare(multiset(init)[k], share);
      }
    }
  }

  /** Appending `last` adds one occurrence of `last` and none of any other key. */
  lemma SnocCount(init: seq<Key>, last: Key, k: Key)
    ensures multiset(init + [last])[k] == multiset(init)[k] + (if k == last then 1 else 0)
    ensures k in init + [last] <==> k in init || k == last
  {
    assert multiset(init + [last]) == multiset(init) + multiset{last};
  }

  lemma AddOneShare(m: nat, share: int)
    ensures (m + 1) * share == m * share + share
  {
  }

  /**
   * `contribute(cond, amount)` on populations: every expanded key exists
   * afterwards (missing ones are created with population 0), each one's
   * `next` rises by `amount // n` per occurrence among the `n` keys, and
   * every other cohort, and every `current`, is left as it was.
   */
  function Credit(p: Pops, domain: Domain, cond: Tags, amount: int): (r: Pops)
    ensures var keys := ExpandKeys(domain, cond);
      (forall k :: k in r <==> k in p || k in keys) &&
      (forall k :: k in p ==> r[k].current == p[k].current) &&
      (forall k :: k in r && k !in p ==> r[k].current == 0) &&
      (forall k :: k in p && k !in keys ==> r[k] == p[k]) &&
      (forall k :: k in keys ==> r[k].next == Base(p, k).next + multiset(keys)[k] * Share(amount, |keys|))
    ensures |ExpandKeys(domain, cond)| == 0 ==> r == p
  {
    var keys := ExpandKeys(domain, cond);
    DistributeFacts(p, keys, Share(amount, |keys|));
    Distribute(p, keys, Share(amount, |keys|))
  }

  lemma DistributeFacts(p: Pops, keys: seq<Key>, share: int)
    ensures var r := Distribute(p, keys, share);
      (forall k :: k in r <==> k in p || k in keys) &&
      (forall k :: k in p ==> r[k].current == p[k].current) &&
      (forall k :: k in r && k !in p ==> r[k].current == 0) &&
      (forall k :: k in p && k !in keys ==> r[k] == p[k]) &&
      (forall k :: k in keys ==> r[k].next == Base(p, k).next + multiset(keys)[k] * share)
    ensures keys == [] ==> Distribute(p, keys, share) == p
  {
    var r := Distribute(p, keys, share);
    forall k
      ensures k in r <==> k in p || k in keys
      ensures Base(r, k) == Pop(Base(p, k).current, Base(p, k).next + multiset(keys)[k] * share)
    {
      DistributeAt(p, keys, share, k);
    }
    forall k | k in p && k !in keys
      ensures r[k] == p[k]
    {
      assert multiset(keys)[k] == 0;
    }
  }

  /** Two maps that agree on `Base` at every key and have the same keys are equal. */
  lemma SameBase(a: Pops, b: Pops)
    requires a.Keys == b.Keys
    requires forall k :: Base(a, k) == Base(b, k)
    ensures a == b
  {
    forall k | k in a
      ensures a[k] == b[k]
    {
      assert Base(a, k) == Base(b, k);
    }
  }

  /** Two contributions commute: the accumulators only add up. */
  lemma CreditCommutes(p: Pops, domain: Domain, c1: Tags, a1: int, c2: Tags, a2: int)
    ensures Credit(Credit(p, domain, c1, a1), domain, c2, a2) ==
            Credit(Credit(p, domain, c2, a2), domain, c1, a1)
  {
    var k1, k2 := ExpandKeys(domain, c1), ExpandKeys(domain, c2);
    var s1, s2 := Share(a1, |k1|), Share(a2, |k2|);
    var p1, p2 := Distribute(p, k1, s1), Distribute(p, k2, s2);
    var l, r := Distribute(p1, k2, s2), Distribute(p2, k1, s1);
    forall k
      ensures Base(l, k) == Base(r, k)
      ensures k in l <==> k in r
    {
      DistributeAt(p, k1, s1, k);
      DistributeAt(p, k2, s2, k);
      DistributeAt(p1, k2, s2, k);
      DistributeAt(p2, k1, s1, k);
    }
    SameBase(l, r);
  }

  /** Keys are never dropped, old cohorts keep `current`, new cohorts start at 0. */
  predicate Grows(p: Pops, q: Pops) {
    p.Keys <= q.Keys &&
    (forall k :: k in p ==> q[k].current == p[k].current) &&
    (forall k :: k in q && k !in p ==> q[k].current == 0)
  }

  lemma GrowsTransitive(p: Pops, q: Pops, r: Pops)
    requires Grows(p, q) && Grows(q, r)
    ensures Grows(p, r)
  {
  }

  /** The effect of transfer rule `r` on the cohort with key `k`, as of populations `q`. */
  function EffectAt(q: Pops, r: TransferRule, k: Key): Effect
    requires k in q
  {
    ApplyTransfer(r, ToTags(k), q[k].current)
  }

  /**
   * The frozen snapshot: while a step only adds to accumulators, a rule sees
   * every cohort that existed at the start with the population it had then.
   */
  lemma EffectFrozen(p: Pops, q: Pops, r: TransferRule, k: Key)
    requires Grows(p, q) && k in p
    ensures k in q && EffectAt(q, r, k) == EffectAt(p, r, k)
  {
  }

  /** One `rule.apply(block)` and the `contribute` it asks for; `None` when it raises. */
  function ApplyRuleAt(q: Pops, domain: Domain, r: TransferRule, k: Key): (o: Option<Pops>)
    requires k in q
    ensures o.Some? ==> Grows(q, o.value)
    ensures o.None? <==> EffectAt(q, r, k).Fail?
  {
    match EffectAt(q, r, k)
    case NoOp => Some(q)
    case Fail => None
    case Contribute(to, amount) => Some(Credit(q, domain, to, amount))
  }

  /** `ApplyRuleAt` after an earlier outcome, failing when that one failed. */
  function AtKey(o: Option<Pops>, domain: Domain, r: TransferRule, k: Key): Option<Pops> {
    match o
    case None => None
    case Some(q) => if k in q then ApplyRuleAt(q, domain, r, k) else None
  }

  /** Applying a rule at two cohorts gives the same outcome in either order. */
  lemma AtBoth(o: Option<Pops>, domain: Domain, r: TransferRule, k1: Key, k2: Key)
    requires o.Some? ==> k1 in o.value && k2 in o.value
    ensures AtKey(AtKey(o, domain, r, k1), domain, r, k2) == AtKey(AtKey(o, domain, r, k2), domain, r, k1)
  {
    if o.Some? {
      var q := o.value;
      var e1, e2 := EffectAt(q, r, k1), EffectAt(q, r, k2);
      var o1, o2 := ApplyRuleAt(q, domain, r, k1), ApplyRuleAt(q, domain, r, k2);
      if o1.Some? {
        assert EffectAt(o1.value, r, k2) == e2;
      }
      if o2.Some? {
        assert EffectAt(o2.value, r, k1) == e1;
      }
      if e1.Contribute? && e2.Contribute? {
        CreditCommutes(q, domain, e1.to, e1.amount, e2.to, e2.amount);
      }
    }
  }

  /**
   * One transfer rule applied to the cohorts `S` selected by `filter`,
   * visited in some order; `RuleOverSetPick` shows that the order does not
   * matter.  `None` when the rule raises for one of them.
   */
  ghost function RuleOverSet(p: Pops, domain: Domain, r: TransferRule, S: set<Key>): (o: Option<Pops>)
    requires S <= p.Keys
    ensures o.Some? ==> Grows(p, o.value)
    decreases S
  {
    if S == {} then Some(p)
    else
      var k :| k in S;
      var rest := RuleOverSet(p, domain, r, S - {k});
      if rest.Some? then
        GrowsAt(p, rest.value, domain, r, k);
        AtKey(rest, domain, r, k)
      else None
  }

  lemma GrowsAt(p: Pops, q: Pops, domain: Domain, r: TransferRule, k: Key)
    requires Grows(p, q) && k in p
    ensures var o := AtKey(Some(q), domain, r, k); o.Some? ==> Grows(p, o.value)
  {
  }

  lemma RuleOverSetUnfold(p: Pops, domain: Domain, r: TransferRule, S: set<Key>)
    requires S <= p.Keys && S != {}
    ensures exists k :: (k in S &&
      RuleOverSet(p, domain, r, S) == AtKey(RuleOverSet(p, domain, r, S - {k}), domain, r, k))
  {
  }

  /**
   * The cohorts selected by `filter` can be visited in any order: whichever
   * comes last, the outcome is that of the others followed by it.
   */
  lemma {:induction false} RuleOverSetPick(p: Pops, domain: Domain, r: TransferRule, S: set<Key>, k: Key)
    requires S <= p.Keys && k in S
    ensures RuleOverSet(p, domain, r, S) == AtKey(RuleOverSet(p, domain, r, S - {k}), domain, r, k)
    decreases |S|, 1
  {
    RuleOverSetUnfold(p, domain, r, S);
    var k' :| k' in S && RuleOverSet(p, domain, r, S) == AtKey(RuleOverSet(p, domain, r, S - {k'}), domain, r, k');
    if k' != k {
      PickSwap(p, domain, r, S, k, k');
    }
  }

  /** The induction step of `RuleOverSetPick`: the last two cohorts visited can trade places. */
  lemma {:induction false} PickSwap(p: Pops, domain: Domain, r: TransferRule, S: set<Key>, k: Key, k': Key)
    requires S <= p.Keys && k in S && k' in S && k != k'
    ensures AtKey(RuleOverSet(p, domain, r, S - {k'}), domain, r, k') ==
            AtKey(RuleOverSet(p, domain, r, S - {k}), domain, r, k)
    decreases |S|, 0
  {
    var both := S - {k} - {k'};
    assert S - {k'} - {k} == both;
    RuleOverSetPick(p, domain, r, S - {k'}, k);
    RuleOverSetPick(p, domain, r, S - {k}, k');
    var o := RuleOverSet(p, domain, r, both);
    AtBoth(o, domain, r, k, k');
  }

  /** The keys among `keys` whose tags contain every pair of `cond`: what `filter(cond)` selects. */
  function Matching(keys: set<Key>, cond: Tags): set<Key> {
    set k | k in keys && Matches(ToTags(k), cond)
  }

  /** `filter({})` selects every cohort. */
  lemma MatchingEmpty(keys: set<Key>)
    ensures Matching(keys, map[]) == keys
  {
  }

  /** A pair that no cohort carries selects nothing. */
  lemma MatchingUnindexed(keys: set<Key>, cond: Tags, t: string)
    requires t in cond && forall k :: k in keys ==> !HasTag(ToTags(k), t, cond[t])
    ensures Matching(keys, cond) == {}
  {
  }

  /**
   * A rule's outcome is decided as soon as it raises for one cohort: adding
   * more cohorts to the visit cannot undo the failure.
   */
  lemma {:induction false} RuleOverSetFails(p: Pops, domain: Domain, r: TransferRule, T: set<Key>, S: set<Key>)
    requires T <= S <= p.Keys && RuleOverSet(p, domain, r, T).None?
    ensures RuleOverSet(p, domain, r, S).None?
    decreases S
  {
    if S != T {
      assert S - T != {} by {
        if S - T == {} {
          forall x | x in S
            ensures x in T
          {
            assert x !in S - T;
          }
          assert false;
        }
      }
      var k :| k in S - T;
      RuleOverSetFails(p, domain, r, T, S - {k});
      RuleOverSetPick(p, domain, r, S, k);
    }
  }

  /**
   * One transfer rule: `filter(rule.apply_to)` on the populations `p` it
   * starts from, then `rule.apply` and `contribute` for each selected
   * cohort.  `None` when the filter names a dimension outside `TAGS` or
   * the rule raises.
   */
  ghost function TransferOne(p: Pops, domain: Domain, r: TransferRule): (o: Option<Pops>)
    ensures o.Some? ==> Grows(p, o.value)
    ensures !(r.applyTo.Keys <= Names(domain)) ==> o.None?
  {
    if !(r.applyTo.Keys <= Names(domain)) then None
    else RuleOverSet(p, domain, r, Matching(p.Keys, r.applyTo))
  }

  /** The transfer phase: each transfer rule in list order; `None` when one fails. */
  ghost function AccTransfer(p: Pops, domain: Domain, rules: seq<TransferRule>): (o: Option<Pops>)
    ensures o.Some? ==> Grows(p, o.value)
    decreases |rules|
  {
    if rules == [] then Some(p)
    else match TransferOne(p, domain, rules[0])
      case None => None
      case Some(q) => AccTransfer(q, domain, rules[1..])
  }

  /** The transfer phase from its `r`-th rule on: that rule, then the rest. */
  lemma AccTransferFrom(p: Pops, domain: Domain, rules: seq<TransferRule>, r: nat)
    requires r < |rules|
    ensures AccTransfer(p, domain, rules[r..]) ==
      match TransferOne(p, domain, rules[r])
      case None => None
      case Some(q) => AccTransfer(q, domain, rules[r + 1..])
  {
    assert rules[r..][1..] == rules[r + 1..];
  }

  /** The contributions of one generative rule, in list order. */
  function DistributeAll(p: Pops, domain: Domain, cs: seq<(Tags, int)>): (r: Pops)
    ensures Grows(p, r)
    decreases |cs|
  {
    if cs == [] then p else DistributeAll(Credit(p, domain, cs[0].0, cs[0].1), domain, cs[1..])
  }

  /** The contributions from the `c`-th on: that one, then the rest. */
  lemma DistributeAllFrom(p: Pops, domain: Domain, cs: seq<(Tags, int)>, c: nat)
    requires c < |cs|
    ensures DistributeAll(p, domain, cs[c..]) == DistributeAll(Credit(p, domain, cs[c].0, cs[c].1), domain, cs[c + 1..])
  {
    assert cs[c..][1..] == cs[c + 1..];
  }

  /** The generative phase: each generative rule in list order; `None` when one raises. */
  function AccGenerative(p: Pops, domain: Domain, rules: seq<GenerativeRule>): (o: Option<Pops>)
    ensures o.Some? ==> Grows(p, o.value)
    decreases |rules|
  {
    if rules == [] then Some(p)
    else match ApplyGenerative(rules[0], domain)
      case None => None
      case Some(cs) => AccGenerative(DistributeAll(p, domain, cs), domain, rules[1..])
  }

  /** The generative phase from its `g`-th rule on: that rule, then the rest. */
  lemma AccGenerativeFrom(p: Pops, domain: Domain, rules: seq<GenerativeRule>, g: nat)
    requires g < |rules|
    ensures AccGenerative(p, domain, rules[g..]) ==
      match ApplyGenerative(rules[g], domain)
      case None => None
      case Some(cs) => AccGenerative(DistributeAll(p, domain, cs), domain, rules[g + 1..])
  {
    assert rules[g..][1..] == rules[g + 1..];
  }

  function Max0(x: int): int { if x < 0 then 0 else x }

  /** The commit: every cohort's population becomes `max(0, next)` and `next` is cleared. */
  function Commit(u: Pops): (r: Pops)
    ensures r.Keys == u.Keys
    ensures forall k :: k in r ==> r[k].next == 0 && r[k].current >= 0
  {
    map k | k in u :: Pop(Max0(u[k].next), 0)
  }

  /** `_step`: the transfer phase, then the generative phase, then the commit; `None` when it raises. */
  ghost function StepSpec(p: Pops, domain: Domain, trs: seq<TransferRule>, gens: seq<GenerativeRule>)
    : (o: Option<Pops>)
    ensures o.Some? ==> p.Keys <= o.value.Keys
    ensures o.Some? ==> forall k :: k in o.value ==> o.value[k].next == 0 && o.value[k].current >= 0
  {
    match AccTransfer(p, domain, trs)
    case None => None
    case Some(q) =>
      match AccGenerative(q, domain, gens)
      case None => None
      case Some(u) => Some(Commit(u))
  }

  /** `step(times)`: `times` steps in a row; no step at all when `times <= 0`. */
  ghost function StepN(p: Pops, domain: Domain, trs: seq<TransferRule>, gens: seq<GenerativeRule>, times: int)
    : (o: Option<Pops>)
    ensures times <= 0 ==> o == Some(p)
    ensures o.Some? ==> p.Keys <= o.value.Keys
    decreases times
  {
    if times <= 0 then Some(p)
    else match StepSpec(p, domain, trs, gens)
      case None => None
      case Some(q) => StepN(q, domain, trs, gens, times - 1)
  }

  /** `step(a + b)` is `step(a)` followed by `step(b)`. */
  lemma {:induction false} StepNCompose(p: Pops, domain: Domain, trs: seq<TransferRule>, gens: seq<GenerativeRule>,
                                        a: nat, b: nat)
    ensures StepN(p, domain, trs, gens, a + b) ==
      match StepN(p, domain, trs, gens, a)
      case None => None
      case Some(q) => StepN(q, domain, trs, gens, b)
    decreases a
  {
    if a > 0 {
      match StepSpec(p, domain, trs, gens)
      case None =>
      case Some(q) =>
        StepNCompose(q, domain, trs, gens, a - 1, b);
    }
  }

  /** After at least one step every cohort has `next == 0` and a population of at least 0. */
  lemma {:induction false} StepNSettles(p: Pops, domain: Domain, trs: seq<TransferRule>, gens: seq<GenerativeRule>,
                                        times: int)
    requires times > 0 && StepN(p, domain, trs, gens, times).Some?
    ensures forall k :: k in StepN(p, domain, trs, gens, times).value ==>
      StepN(p, domain, trs, gens, times).value[k].next == 0 &&
      StepN(p, domain, trs, gens, times).value[k].current >= 0
    decreases times
  {
    var q := StepSpec(p, domain, trs, gens).value;
    if times > 1 {
      StepNSettles(q, domain, trs, gens, times - 1);
    }
  }

  /**
   * Populations are not kept by default: with no rules, a step sends every
   * cohort whose accumulator is empty to 0.
   */
  lemma StepWithoutRules(p: Pops, domain: Domain)
    requires forall k :: k in p ==> p[k].next == 0
    ensures StepSpec(p, domain, [], []) == Some(map k | k in p :: Pop(0, 0))
  {
    assert AccTransfer(p, domain, []) == Some(p);
    assert AccGenerative(p, domain, []) == Some(p);
    var c, z := Commit(p), map k | k in p :: Pop(0, 0);
    forall k | k in c
      ensures c[k] == z[k]
    {
      assert Max0(p[k].next) == 0;
    }
    assert c == z;
  }
}
