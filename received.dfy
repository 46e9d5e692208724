/**
 * What one `_step` of tag_ccm.py credits to each cohort, summed from the
 * populations the step starts from and independently of the order in which
 * the pool is updated.  The committed population of a cohort is then
 * `max(0, next + what the step credited to it)` (`StepValue`).
 */
module Received {
  import opened Maybe
  import opened Cohort
  import opened Protocol
  import opened Expansion
  import opened Accumulation

  /** What effect `e` credits to cohort `k`: its share, once per occurrence of `k` among the destinations. */
  function Gain(domain: Domain, e: Effect, k: Key): int {
    if e.Contribute? then
      var keys := ExpandKeys(domain, e.to);
      multiset(keys)[k] * Share(e.amount, |keys|)
    else 0
  }

  /** The cohorts effect `e` credits, each created when it is missing. */
  function Targets(domain: Domain, e: Effect): set<Key> {
    if e.Contribute? then set x | x in ExpandKeys(domain, e.to) else {}
  }

  /** `contribute` creates exactly the missing targets of its effect. */
  lemma CreditKeys(p: Pops, domain: Domain, cond: Tags, amount: int)
    ensures Credit(p, domain, cond, amount).Keys == p.Keys + Targets(domain, Contribute(cond, amount))
  {
  }

  /** `contribute` adds exactly the gain of its effect to every cohort. */
  lemma CreditValue(p: Pops, domain: Domain, cond: Tags, amount: int, k: Key)
    ensures Base(Credit(p, domain, cond, amount), k) ==
      Pop(Base(p, k).current, Base(p, k).next + Gain(domain, Contribute(cond, amount), k))
  {
    var keys := ExpandKeys(domain, cond);
    if k !in keys {
      assert multiset(keys)[k] == 0;
    }
  }

  // ---------------------------------------------------------------------------
  // The transfer phase

  /**
   * The effect of transfer rule `r` on cohort `k` as of the start of the
   * step: a cohort created during the step has population 0.
   */
  function StartEffect(p: Pops, r: TransferRule, k: Key): Effect {
    ApplyTransfer(r, ToTags(k), Base(p, k).current)
  }

  /** Some cohort of `S`: the one `SetGain` counts first. */
  ghost function Pick(S: set<Key>): (j: Key)
    requires S != {}
    ensures j in S
  {
    var j :| j in S; j
  }

  /** What rule `r` credits to `k` from the cohorts `S`, summed in any order (`SetGainPick`). */
  ghost function SetGain(p: Pops, domain: Domain, r: TransferRule, S: set<Key>, k: Key): int
    decreases S
  {
    if S == {} then 0
    else
      var j := Pick(S);
      Gain(domain, StartEffect(p, r, j), k) + SetGain(p, domain, r, S - {j}, k)
  }

  /** The sum does not depend on the order: any cohort of `S` may be counted first. */
  lemma {:induction false} SetGainPick(p: Pops, domain: Domain, r: TransferRule, S: set<Key>, k: Key, j: Key)
    requires j in S
    ensures SetGain(p, domain, r, S, k) == Gain(domain, StartEffect(p, r, j), k) + SetGain(p, domain, r, S - {j}, k)
    decreases |S|
  {
    var i := Pick(S);
    if i != j {
      var rest := S - {i} - {j};
      assert S - {j} - {i} == rest;
      SetGainPick(p, domain, r, S - {i}, k, j);
      SetGainPick(p, domain, r, S - {j}, k, i);
    }
  }

  /** The cohorts rule `r` credits from the cohorts `S`. */
  function SetTargets(p: Pops, domain: Domain, r: TransferRule, S: set<Key>): set<Key> {
    set j, x | j in S && x in Targets(domain, StartEffect(p, r, j)) :: x
  }

  lemma SetTargetsPick(p: Pops, domain: Domain, r: TransferRule, S: set<Key>, j: Key)
    requires j in S
    ensures SetTargets(p, domain, r, S) == SetTargets(p, domain, r, S - {j}) + Targets(domain, StartEffect(p, r, j))
  {
  }

  /** `Grows` from the step's start keeps every cohort's starting population. */
  lemma GrowsBase(p0: Pops, q: Pops, k: Key)
    requires Grows(p0, q) && k in q
    ensures q[k].current == Base(p0, k).current
  {
  }

  /** The rule's effect at a cohort `j` of a grown pool is its effect at the start of the step. */
  lemma AtKeyEffect(p0: Pops, q: Pops, domain: Domain, r: TransferRule, j: Key)
    requires Grows(p0, q) && j in q
    ensures AtKey(Some(q), domain, r, j) ==
      match StartEffect(p0, r, j)
      case NoOp => Some(q)
      case Fail => None
      case Contribute(to, amount) => Some(Credit(q, domain, to, amount))
  {
    GrowsBase(p0, q, j);
    assert EffectAt(q, r, j) == StartEffect(p0, r, j);
  }

  /** Applying rule `r` at one cohort `j` creates the targets of its starting effect. */
  lemma AtKeyKeys(p0: Pops, q: Pops, domain: Domain, r: TransferRule, j: Key)
    requires Grows(p0, q) && j in q && AtKey(Some(q), domain, r, j).Some?
    ensures AtKey(Some(q), domain, r, j).value.Keys == q.Keys + Targets(domain, StartEffect(p0, r, j))
  {
    AtKeyEffect(p0, q, domain, r, j);
    match StartEffect(p0, r, j)
    case NoOp =>
    case Fail =>
    case Contribute(to, amount) =>
      CreditKeys(q, domain, to, amount);
  }

  /** Applying rule `r` at one cohort `j` adds the gain of its starting effect. */
  lemma AtKeyValue(p0: Pops, q: Pops, domain: Domain, r: TransferRule, j: Key, k: Key)
    requires Grows(p0, q) && j in q && AtKey(Some(q), domain, r, j).Some?
    ensures Base(AtKey(Some(q), domain, r, j).value, k) ==
      Pop(Base(q, k).current, Base(q, k).next + Gain(domain, StartEffect(p0, r, j), k))
  {
    AtKeyEffect(p0, q, domain, r, j);
    match StartEffect(p0, r, j)
    case NoOp =>
    case Fail =>
    case Contribute(to, amount) =>
      CreditValue(q, domain, to, amount, k);
  }

  /** One transfer rule over the selected cohorts `S` creates exactly the cohorts `SetTargets` names. */
  lemma {:induction false} RuleOverSetKeys(p0: Pops, p: Pops, domain: Domain, r: TransferRule, S: set<Key>, k: Key)
    requires Grows(p0, p) && S <= p.Keys && RuleOverSet(p, domain, r, S).Some?
    ensures k in RuleOverSet(p, domain, r, S).value <==> k in p || k in SetTargets(p0, domain, r, S)
    decreases |S|
  {
    if S == {} {
      assert SetTargets(p0, domain, r, S) == {};
    } else {
      var j :| j in S;
      RuleOverSetPick(p, domain, r, S, j);
      SetTargetsPick(p0, domain, r, S, j);
      var mid := RuleOverSet(p, domain, r, S - {j}).value;
      RuleOverSetKeys(p0, p, domain, r, S - {j}, k);
      GrowsTransitive(p0, p, mid);
      AtKeyKeys(p0, mid, domain, r, j);
    }
  }

  /**
   * One transfer rule over the selected cohorts `S` credits each cohort
   * exactly `SetGain`, whatever order the cohorts are visited in.
   */
  lemma {:induction false} RuleOverSetValue(p0: Pops, p: Pops, domain: Domain, r: TransferRule, S: set<Key>, k: Key)
    requires Grows(p0, p) && S <= p.Keys && RuleOverSet(p, domain, r, S).Some?
    ensures Base(RuleOverSet(p, domain, r, S).value, k) ==
      Pop(Base(p, k).current, Base(p, k).next + SetGain(p0, domain, r, S, k))
    decreases |S|
  {
    if S != {} {
      var j :| j in S;
      RuleOverSetPick(p, domain, r, S, j);
      SetGainPick(p0, domain, r, S, k, j);
      var mid := RuleOverSet(p, domain, r, S - {j}).value;
      RuleOverSetValue(p0, p, domain, r, S - {j}, k);
      GrowsTransitive(p0, p, mid);
      AtKeyValue(p0, mid, domain, r, j, k);
    }
  }

  /**
   * What the transfer rules credit to `k`, in list order.  Each rule selects
   * among the cohorts that exist by then, `keys`, which grow by the cohorts
   * the earlier rules credited.
   */
  ghost function TransferGain(p: Pops, keys: set<Key>, domain: Domain, rules: seq<TransferRule>, k: Key): int
    decreases |rules|
  {
    if rules == [] then 0
    else
      var S := Matching(keys, rules[0].applyTo);
      SetGain(p, domain, rules[0], S, k) +
        TransferGain(p, keys + SetTargets(p, domain, rules[0], S), domain, rules[1..], k)
  }

  /** The cohorts that exist after the transfer rules, starting from `keys`. */
  function TransferKeys(p: Pops, keys: set<Key>, domain: Domain, rules: seq<TransferRule>): set<Key>
    decreases |rules|
  {
    if rules == [] then keys
    else
      var S := Matching(keys, rules[0].applyTo);
      TransferKeys(p, keys + SetTargets(p, domain, rules[0], S), domain, rules[1..])
  }

  /** The transfer phase creates exactly the cohorts `TransferKeys` adds. */
  lemma {:induction false} AccTransferKeys(p0: Pops, p: Pops, domain: Domain, rules: seq<TransferRule>)
    requires Grows(p0, p) && AccTransfer(p, domain, rules).Some?
    ensures AccTransfer(p, domain, rules).value.Keys == TransferKeys(p0, p.Keys, domain, rules)
    decreases |rules|
  {
    if rules != [] {
      var r := rules[0];
      var S := Matching(p.Keys, r.applyTo);
      var q1 := TransferOne(p, domain, r).value;
      assert q1 == RuleOverSet(p, domain, r, S).value;
      forall x
        ensures x in q1 <==> x in p || x in SetTargets(p0, domain, r, S)
      {
        RuleOverSetKeys(p0, p, domain, r, S, x);
      }
      assert q1.Keys == p.Keys + SetTargets(p0, domain, r, S);
      GrowsTransitive(p0, p, q1);
      AccTransferKeys(p0, q1, domain, rules[1..]);
    }
  }

  /** The transfer phase credits each cohort exactly `TransferGain`. */
  lemma {:induction false} AccTransferValue(p0: Pops, p: Pops, domain: Domain, rules: seq<TransferRule>, k: Key)
    requires Grows(p0, p) && AccTransfer(p, domain, rules).Some?
    ensures Base(AccTransfer(p, domain, rules).value, k) ==
      Pop(Base(p, k).current, Base(p, k).next + TransferGain(p0, p.Keys, domain, rules, k))
    decreases |rules|
  {
    if rules != [] {
      var r := rules[0];
      var S := Matching(p.Keys, r.applyTo);
      var q1 := TransferOne(p, domain, r).value;
      assert q1 == RuleOverSet(p, domain, r, S).value;
      forall x
        ensures x in q1 <==> x in p || x in SetTargets(p0, domain, r, S)
      {
        RuleOverSetKeys(p0, p, domain, r, S, x);
      }
      assert q1.Keys == p.Keys + SetTargets(p0, domain, r, S);
      RuleOverSetValue(p0, p, domain, r, S, k);
      GrowsTransitive(p0, p, q1);
      AccTransferValue(p0, q1, domain, rules[1..], k);
    }
  }

  // ---------------------------------------------------------------------------
  // The generative phase

  /** What the contributions `cs` credit to `k`. */
  function ListGain(domain: Domain, cs: seq<(Tags, int)>, k: Key): int
    decreases |cs|
  {
    if cs == [] then 0 else Gain(domain, Contribute(cs[0].0, cs[0].1), k) + ListGain(domain, cs[1..], k)
  }

  /** The cohorts the contributions `cs` credit. */
  function ListTargets(domain: Domain, cs: seq<(Tags, int)>): set<Key>
    decreases |cs|
  {
    if cs == [] then {} else Targets(domain, Contribute(cs[0].0, cs[0].1)) + ListTargets(domain, cs[1..])
  }

  /** Crediting the contributions `cs` in order creates exactly `ListTargets`. */
  lemma {:induction false} DistributeAllKeys(p: Pops, domain: Domain, cs: seq<(Tags, int)>)
    ensures DistributeAll(p, domain, cs).Keys == p.Keys + ListTargets(domain, cs)
    decreases |cs|
  {
    if cs != [] {
      CreditKeys(p, domain, cs[0].0, cs[0].1);
      DistributeAllKeys(Credit(p, domain, cs[0].0, cs[0].1), domain, cs[1..]);
    }
  }

  /** Crediting the contributions `cs` in order adds exactly `ListGain`. */
  lemma {:induction false} DistributeAllValue(p: Pops, domain: Domain, cs: seq<(Tags, int)>, k: Key)
    ensures Base(DistributeAll(p, domain, cs), k) == Pop(Base(p, k).current, Base(p, k).next + ListGain(domain, cs, k))
    decreases |cs|
  {
    if cs != [] {
      CreditValue(p, domain, cs[0].0, cs[0].1, k);
      DistributeAllValue(Credit(p, domain, cs[0].0, cs[0].1), domain, cs[1..], k);
    }
  }

  /** What the generative rules credit to `k` (0 for a rule that raises, which makes the step fail). */
  function GenerativeGain(domain: Domain, rules: seq<GenerativeRule>, k: Key): int
    decreases |rules|
  {
    if rules == [] then 0
    else
      var rest := GenerativeGain(domain, rules[1..], k);
      match ApplyGenerative(rules[0], domain)
      case None => rest
      case Some(cs) => ListGain(domain, cs, k) + rest
  }

  /** The cohorts the generative rules credit. */
  function GenerativeTargets(domain: Domain, rules: seq<GenerativeRule>): set<Key>
    decreases |rules|
  {
    if rules == [] then {}
    else
      var rest := GenerativeTargets(domain, rules[1..]);
      match ApplyGenerative(rules[0], domain)
      case None => rest
      case Some(cs) => ListTargets(domain, cs) + rest
  }

  /** The generative phase creates exactly the cohorts `GenerativeTargets` names. */
  lemma {:induction false} AccGenerativeKeys(p: Pops, domain: Domain, rules: seq<GenerativeRule>)
    requires AccGenerative(p, domain, rules).Some?
    ensures AccGenerative(p, domain, rules).value.Keys == p.Keys + GenerativeTargets(domain, rules)
    decreases |rules|
  {
    if rules != [] {
      var cs := ApplyGenerative(rules[0], domain).value;
      DistributeAllKeys(p, domain, cs);
      AccGenerativeKeys(DistributeAll(p, domain, cs), domain, rules[1..]);
    }
  }

  /** The generative phase credits each cohort exactly `GenerativeGain`. */
  lemma {:induction false} AccGenerativeValue(p: Pops, domain: Domain, rules: seq<GenerativeRule>, k: Key)
    requires AccGenerative(p, domain, rules).Some?
    ensures Base(AccGenerative(p, domain, rules).value, k) ==
      Pop(Base(p, k).current, Base(p, k).next + GenerativeGain(domain, rules, k))
    decreases |rules|
  {
    if rules != [] {
      var cs := ApplyGenerative(rules[0], domain).value;
      DistributeAllValue(p, domain, cs, k);
      AccGenerativeValue(DistributeAll(p, domain, cs), domain, rules[1..], k);
    }
  }

  // ---------------------------------------------------------------------------
  // The step

  /**
   * `_step`'s outcome, cohort by cohort: the cohorts afterwards are those at
   * the start plus every cohort the step credited, and each one's population
   * is `max(0, next + what the transfer and the generative rules credited
   * to it)`, with `next` cleared.
   */
  lemma StepValue(p: Pops, domain: Domain, trs: seq<TransferRule>, gens: seq<GenerativeRule>, k: Key)
    requires StepSpec(p, domain, trs, gens).Some?
    ensures StepSpec(p, domain, trs, gens).value.Keys ==
      TransferKeys(p, p.Keys, domain, trs) + GenerativeTargets(domain, gens)
    ensures k in StepSpec(p, domain, trs, gens).value ==>
      StepSpec(p, domain, trs, gens).value[k] ==
        Pop(Max0(Base(p, k).next + TransferGain(p, p.Keys, domain, trs, k) + GenerativeGain(domain, gens, k)), 0)
  {
    var t := AccTransfer(p, domain, trs).value;
    var u := AccGenerative(t, domain, gens).value;
    assert StepSpec(p, domain, trs, gens) == Some(Commit(u));
    AccTransferKeys(p, p, domain, trs);
    AccTransferValue(p, p, domain, trs, k);
    AccGenerativeKeys(t, domain, gens);
    AccGenerativeValue(t, domain, gens, k);
    assert Base(u, k).next == Base(p, k).next + TransferGain(p, p.Keys, domain, trs, k) + GenerativeGain(domain, gens, k);
    CommitAt(u, k);
  }

  /** The commit sets a cohort's population to `max(0, next)` and clears `next`. */
  lemma CommitAt(u: Pops, k: Key)
    ensures Commit(u).Keys == u.Keys
    ensures k in u ==> Commit(u)[k] == Pop(Max0(Base(u, k).next), 0)
  {
  }
}
