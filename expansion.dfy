/**
 * The expansion of a partial condition over the tag domain, as
 * `permutate_blocks_by_filter` computes it breadth first: starting from the
 * empty assignment, each dimension of `TAGS` in turn extends every partial
 * assignment by every value the condition allows for that dimension.
 */
module Expansion {
  import opened Maybe
  import opened Cohort

  /** The values dimension `d` may take under `cond`: the fixed one, or all of `TAGS[d]`. */
  function Choices(d: Dimension, cond: Tags): seq<string> {
    if d.name in cond then [cond[d.name]] else d.values
  }

  /** `[{**b, name: v} for v in values]`. */
  function Row(b: Tags, name: string, values: seq<string>): seq<Tags> {
    seq(|values|, j requires 0 <= j < |values| => b[name := values[j]])
  }

  /** One breadth-first round: each partial assignment, in order, extended by each value. */
  function Extend(ps: seq<Tags>, name: string, values: seq<string>): seq<Tags>
    decreases |ps|
  {
    if ps == [] then [] else Extend(ps[..|ps| - 1], name, values) + Row(ps[|ps| - 1], name, values)
  }

  /** The assignments after the first `n` dimensions. */
  function ExpandPrefix(domain: Domain, cond: Tags, n: nat): seq<Tags>
    requires n <= |domain|
  {
    if n == 0 then [map[]]
    else Extend(ExpandPrefix(domain, cond, n - 1), domain[n - 1].name, Choices(domain[n - 1], cond))
  }

  /** Every full assignment of `TAGS` that agrees with `cond`, in breadth-first order. */
  function Expand(domain: Domain, cond: Tags): seq<Tags> {
    ExpandPrefix(domain, cond, |domain|)
  }

  /** What `permutate_blocks_by_filter(cond)` returns: the canonical keys of the expansion. */
  function ExpandKeys(domain: Domain, cond: Tags): seq<Key> {
    SerializeAll(Expand(domain, cond))
  }

  /** `[Block.serialize(p) for p in ps]`. */
  function SerializeAll(ps: seq<Tags>): seq<Key> {
    seq(|ps|, i requires 0 <= i < |ps| => Serialize(ps[i]))
  }

  /** The product of `|TAGS[d]|` over the first `n` dimensions `d` that `cond` leaves free. */
  function FreeProduct(domain: Domain, cond: Tags, n: nat): nat
    requires n <= |domain|
  {
    if n == 0 then 1
    else FreeProduct(domain, cond, n - 1) * (if domain[n - 1].name in cond then 1 else |domain[n - 1].values|)
  }

  lemma MulMonotone(a: nat, b: nat, c: nat)
    requires a <= b
    ensures a * c <= b * c
  {
  }

  lemma MulSucc(a: nat, b: nat)
    ensures (a + 1) * b == a * b + b
  {
  }

  /** Each round multiplies the number of assignments by the number of values. */
  lemma {:induction false} ExtendSize(ps: seq<Tags>, name: string, values: seq<string>)
    ensures |Extend(ps, name, values)| == |ps| * |values|
    decreases |ps|
  {
    if ps != [] {
      var n := |ps| - 1;
      ExtendSize(ps[..n], name, values);
      assert |Extend(ps, name, values)| == |Extend(ps[..n], name, values)| + |values|;
      MulSucc(n, |values|);
    }
  }

  /** Each round is ordered by the old assignment first and the value second. */
  lemma {:induction false} ExtendIndex(ps: seq<Tags>, name: string, values: seq<string>, i: nat, j: nat)
    requires i < |ps| && j < |values|
    ensures |Extend(ps, name, values)| == |ps| * |values|
    ensures i * |values| + j < |ps| * |values|
    ensures Extend(ps, name, values)[i * |values| + j] == ps[i][name := values[j]]
    decreases |ps|
  {
    ExtendSize(ps, name, values);
    var n := |ps| - 1;
    var front := ps[..n];
    ExtendSize(front, name, values);
    if i < n {
      ExtendIndex(front, name, values, i, j);
      MulMonotone(i + 1, n, |values|);
      assert front[i] == ps[i];
    } else {
      assert Extend(ps, name, values)[i * |values| + j] == Row(ps[n], name, values)[j];
    }
  }

  /** Everything a round produces is an old assignment extended by one of the values. */
  lemma {:induction false} ExtendMember(ps: seq<Tags>, name: string, values: seq<string>, p: Tags)
    requires p in Extend(ps, name, values)
    ensures exists q, v :: q in ps && v in values && p == q[name := v]
    decreases |ps|
  {
    var n := |ps| - 1;
    if p in Extend(ps[..n], name, values) {
      ExtendMember(ps[..n], name, values, p);
      var q, v :| q in ps[..n] && v in values && p == q[name := v];
      assert q in ps;
    } else {
      var row := Row(ps[n], name, values);
      assert p in row;
      var j :| 0 <= j < |row| && row[j] == p;
      assert ps[n] in ps && values[j] in values;
    }
  }

  /** Every old assignment extended by every value is produced by a round. */
  lemma {:induction false} ExtendComplete(ps: seq<Tags>, name: string, values: seq<string>, q: Tags, v: string)
    requires q in ps && v in values
    ensures q[name := v] in Extend(ps, name, values)
  {
    var i :| 0 <= i < |ps| && ps[i] == q;
    var j :| 0 <= j < |values| && values[j] == v;
    ExtendIndex(ps, name, values, i, j);
  }

  /**
   * The number of keys is the product of the sizes of the free dimensions;
   * a fixed dimension contributes a factor of one.
   */
  lemma {:induction false} ExpandSize(domain: Domain, cond: Tags, n: nat)
    requires n <= |domain|
    ensures |ExpandPrefix(domain, cond, n)| == FreeProduct(domain, cond, n)
  {
    if n > 0 {
      ExpandSize(domain, cond, n - 1);
      ExtendSize(ExpandPrefix(domain, cond, n - 1), domain[n - 1].name, Choices(domain[n - 1], cond));
    }
  }

  /** A condition that fixes every dimension of `TAGS` expands to exactly one key. */
  lemma {:induction false} FullySpecified(domain: Domain, cond: Tags, n: nat)
    requires n <= |domain|
    requires forall i :: 0 <= i < n ==> domain[i].name in cond
    ensures |ExpandPrefix(domain, cond, n)| == 1
  {
    ExpandSize(domain, cond, n);
    FullyFixedProduct(domain, cond, n);
  }

  lemma {:induction false} FullyFixedProduct(domain: Domain, cond: Tags, n: nat)
    requires n <= |domain|
    requires forall i :: 0 <= i < n ==> domain[i].name in cond
    ensures FreeProduct(domain, cond, n) == 1
  {
    if n > 0 {
      FullyFixedProduct(domain, cond, n - 1);
    }
  }

  /** The expansion is dimension-major in `TAGS` order: the last dimension varies fastest. */
  lemma ExpandOrder(domain: Domain, cond: Tags, n: nat, i: nat, j: nat)
    requires 0 < n <= |domain|
    requires i < |ExpandPrefix(domain, cond, n - 1)| && j < |Choices(domain[n - 1], cond)|
    ensures var c := Choices(domain[n - 1], cond);
      i * |c| + j < |ExpandPrefix(domain, cond, n)| &&
      ExpandPrefix(domain, cond, n)[i * |c| + j] == ExpandPrefix(domain, cond, n - 1)[i][domain[n - 1].name := c[j]]
  {
    ExtendIndex(ExpandPrefix(domain, cond, n - 1), domain[n - 1].name, Choices(domain[n - 1], cond), i, j);
  }

  lemma NamesSnoc(domain: Domain, n: nat)
    requires 0 < n <= |domain|
    ensures Names(domain[..n]) == Names(domain[..n - 1]) + {domain[n - 1].name}
  {
    assert domain[..n][n - 1] == domain[n - 1];
    forall x | x in Names(domain[..n - 1])
      ensures x in Names(domain[..n])
    {
      var i :| 0 <= i < n - 1 && domain[..n - 1][i].name == x;
      assert domain[..n][i].name == x;
    }
  }

  /** An assignment agrees with `cond` on the first `n` dimensions and takes values only from them. */
  predicate Agrees(domain: Domain, cond: Tags, n: nat, p: Tags)
    requires n <= |domain|
  {
    p.Keys == Names(domain[..n]) &&
    forall i :: 0 <= i < n ==> domain[i].name in p && p[domain[i].name] in Choices(domain[i], cond)
  }

  lemma {:induction false} ExpandSound(domain: Domain, cond: Tags, n: nat, p: Tags)
    requires DistinctNames(domain) && n <= |domain|
    requires p in ExpandPrefix(domain, cond, n)
    ensures Agrees(domain, cond, n, p)
  {
    if n == 0 {
      assert p == map[];
    } else {
      var name, c := domain[n - 1].name, Choices(domain[n - 1], cond);
      ExtendMember(ExpandPrefix(domain, cond, n - 1), name, c, p);
      var q, v :| q in ExpandPrefix(domain, cond, n - 1) && v in c && p == q[name := v];
      ExpandSound(domain, cond, n - 1, q);
      AddLast(domain, cond, n, q, v);
    }
  }

  /** Extending an assignment that agrees on `n - 1` dimensions by an allowed value agrees on `n`. */
  lemma AddLast(domain: Domain, cond: Tags, n: nat, q: Tags, v: string)
    requires DistinctNames(domain) && 0 < n <= |domain|
    requires Agrees(domain, cond, n - 1, q) && v in Choices(domain[n - 1], cond)
    ensures Agrees(domain, cond, n, q[domain[n - 1].name := v])
  {
    var name := domain[n - 1].name;
    var p := q[name := v];
    NamesSnoc(domain, n);
    assert p.Keys == q.Keys + {name};
    forall i | 0 <= i < n
      ensures domain[i].name in p && p[domain[i].name] in Choices(domain[i], cond)
    {
      if i < n - 1 {
        assert domain[i].name != name;
      }
    }
  }

  /** Dropping the last dimension of an agreeing assignment leaves an agreeing assignment. */
  lemma DropLast(domain: Domain, cond: Tags, n: nat, p: Tags)
    requires DistinctNames(domain) && 0 < n <= |domain|
    requires Agrees(domain, cond, n, p)
    ensures var name := domain[n - 1].name;
      name in p && p[name] in Choices(domain[n - 1], cond) &&
      Agrees(domain, cond, n - 1, p - {name}) && (p - {name})[name := p[name]] == p
  {
    var name := domain[n - 1].name;
    NamesSnoc(domain, n);
    var q := p - {name};
    assert name !in Names(domain[..n - 1]);
    assert q.Keys == Names(domain[..n - 1]);
    forall i | 0 <= i < n - 1
      ensures domain[i].name in q && q[domain[i].name] in Choices(domain[i], cond)
    {
      assert domain[i].name != name;
    }
    assert q[name := p[name]] == p;
  }

  lemma {:induction false} ExpandComplete(domain: Domain, cond: Tags, n: nat, p: Tags)
    requires DistinctNames(domain) && n <= |domain|
    requires Agrees(domain, cond, n, p)
    ensures p in ExpandPrefix(domain, cond, n)
  {
    if n == 0 {
      assert p.Keys == {};
      assert p == map[];
    } else {
      var name, c := domain[n - 1].name, Choices(domain[n - 1], cond);
      DropLast(domain, cond, n, p);
      ExpandComplete(domain, cond, n - 1, p - {name});
      ExtendComplete(ExpandPrefix(domain, cond, n - 1), name, c, p - {name}, p[name]);
    }
  }

  /**
   * Expansion agreement: an assignment is expanded exactly when it has the
   * dimensions of `TAGS` and, for each of them, the value the condition
   * fixes or, when the condition leaves it free, one of its declared values.
   */
  lemma ExpandAgreement(domain: Domain, cond: Tags, p: Tags)
    requires DistinctNames(domain)
    ensures p in Expand(domain, cond) <==>
      (p.Keys == Names(domain) &&
       forall i :: 0 <= i < |domain| ==> domain[i].name in p && p[domain[i].name] in Choices(domain[i], cond))
  {
    assert domain[..|domain|] == domain;
    if p in Expand(domain, cond) {
      ExpandSound(domain, cond, |domain|, p);
    } else if Agrees(domain, cond, |domain|, p) {
      ExpandComplete(domain, cond, |domain|, p);
    }
  }

  /** On a dimension the condition fixes, every expanded assignment takes the fixed value. */
  lemma ExpandFixes(domain: Domain, cond: Tags, p: Tags, i: nat)
    requires DistinctNames(domain) && i < |domain|
    requires p in Expand(domain, cond) && domain[i].name in cond
    ensures domain[i].name in p && p[domain[i].name] == cond[domain[i].name]
  {
    ExpandAgreement(domain, cond, p);
  }

  /** Condition entries for names outside `TAGS` play no part in the expansion. */
  lemma {:induction false} ExpandIgnoresForeign(domain: Domain, c1: Tags, c2: Tags, n: nat)
    requires n <= |domain|
    requires forall i :: 0 <= i < |domain| ==> Choices(domain[i], c1) == Choices(domain[i], c2)
    ensures ExpandPrefix(domain, c1, n) == ExpandPrefix(domain, c2, n)
  {
    if n > 0 {
      ExpandIgnoresForeign(domain, c1, c2, n - 1);
    }
  }

  /** The two conditions agree on the names of `TAGS`. */
  predicate SameOn(names: set<string>, c1: Tags, c2: Tags) {
    forall t :: t in names ==> (t in c1 <==> t in c2) && (t in c1 ==> c1[t] == c2[t])
  }

  /** Conditions that agree on the names of `TAGS` expand to the same keys. */
  lemma ExpandKeysIgnoreForeign(domain: Domain, c1: Tags, c2: Tags)
    requires SameOn(Names(domain), c1, c2)
    ensures ExpandKeys(domain, c1) == ExpandKeys(domain, c2)
  {
    forall i | 0 <= i < |domain|
      ensures Choices(domain[i], c1) == Choices(domain[i], c2)
    {
      assert domain[i].name in Names(domain);
    }
    ExpandIgnoresForeign(domain, c1, c2, |domain|);
  }

  /**
   * Every expanded key reads back as its assignment, has one entry per
   * dimension of `TAGS`, and therefore passes the arity check of `deserialize`.
   */
  lemma ExpandKeysParse(domain: Domain, cond: Tags, i: nat)
    requires DistinctNames(domain) && i < |ExpandKeys(domain, cond)|
    ensures var k := ExpandKeys(domain, cond)[i];
      SortedKey(k) && ToTags(k) == Expand(domain, cond)[i] &&
      ToTags(k).Keys == Names(domain) && ParseKey(k, domain) == Some(ToTags(k)) &&
      Serialize(ToTags(k)) == k
  {
    var p := Expand(domain, cond)[i];
    ExpandAgreement(domain, cond, p);
    NamesCount(domain);
    SerializeSpec(p);
  }
}
