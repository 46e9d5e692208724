/**
 * The engine of tag_ccm.py: a pool of cohorts keyed by canonical key, an
 * inverted index from dimension and value to the keys carrying it, and the
 * operations that read and update them in place.  Each method is proved
 * against the functions of modules Expansion and Accumulation.
 */
module Engine {
  import opened Maybe
  import opened Cohort
  import opened Protocol
  import opened Expansion
  import opened Accumulation

  /** `block_filter`: dimension, then value, then the keys of the cohorts carrying that value. */
  type Index = map<string, map<string, set<Key>>>

  /** `block_filter[t][v]`, where a value never indexed reads as the empty set. */
  function Lookup(index: Index, t: string, v: string): set<Key> {
    if t in index && v in index[t] then index[t][v] else {}
  }

  /** Every block of `blocks` uses only dimensions of `TAGS`. */
  predicate AllInDomain(blocks: seq<Block>, domain: Domain)
    decreases |blocks|
  {
    blocks == [] ||
    (AllInDomain(blocks[..|blocks| - 1], domain) && blocks[|blocks| - 1].tags.Keys <= Names(domain))
  }

  lemma {:induction false} AllInDomainEach(blocks: seq<Block>, domain: Domain)
    requires AllInDomain(blocks, domain)
    ensures forall i :: 0 <= i < |blocks| ==> blocks[i].tags.Keys <= Names(domain)
    decreases |blocks|
  {
    if blocks != [] {
      var front := blocks[..|blocks| - 1];
      AllInDomainEach(front, domain);
      assert forall i :: 0 <= i < |front| ==> front[i] == blocks[i];
    }
  }

  /** `block_filter[t][v].add(key)`. */
  function Indexed(index: Index, t: string, v: string, key: Key): (r: Index)
    requires t in index
    ensures r.Keys == index.Keys
    ensures forall t', v', k :: (k in Lookup(r, t', v') <==>
      k in Lookup(index, t', v') || (k == key && t' == t && v' == v))
  {
    index[t := index[t][v := Lookup(index, t, v) + {key}]]
  }

  /** Under every dimension of the index, a key is listed for a value exactly when it is one of `keys` carrying it. */
  ghost predicate IndexExact(index: Index, keys: set<Key>) {
    forall t, v, k :: t in index ==> (k in Lookup(index, t, v) <==> k in keys && HasTag(ToTags(k), t, v))
  }

  /** Indexing one more key under each of its pairs keeps the index exact. */
  lemma IndexOneMore(before: Index, after: Index, keys: set<Key>, key: Key)
    requires IndexExact(before, keys) && after.Keys == before.Keys
    requires forall t, v, k :: (k in Lookup(after, t, v) <==>
      k in Lookup(before, t, v) || (k == key && HasTag(ToTags(key), t, v)))
    ensures IndexExact(after, keys + {key})
  {
  }

  /**
   * Each pooled block sits under its own canonical key, so that its tags are
   * those the key spells out, and uses only the dimensions of `TAGS`; two
   * keys never share a block.
   */
  ghost predicate Canonical(domain: Domain, pool: map<Key, Block>) {
    (forall k :: k in pool ==> SortedKey(k) && pool[k].tags == ToTags(k) && ToTags(k).Keys <= Names(domain)) &&
    (forall k1, k2 :: k1 in pool && k2 in pool && k1 != k2 ==> pool[k1] != pool[k2])
  }

  /** Pooling `b` under its canonical key keeps the pool canonical. */
  lemma CanonicalInsert(domain: Domain, pool: map<Key, Block>, b: Block)
    requires Canonical(domain, pool) && b.tags.Keys <= Names(domain)
    ensures SortedKey(b.KeyOf()) && ToTags(b.KeyOf()) == b.tags
    ensures Canonical(domain, pool[b.KeyOf() := b])
  {
    var key := b.KeyOf();
    KeyOfSpec(b);
    NewKeyNewBlock(domain, pool, b);
    var after := pool[key := b];
    forall k | k in after
      ensures SortedKey(k) && after[k].tags == ToTags(k) && ToTags(k).Keys <= Names(domain)
    {
      if k != key {
        assert after[k] == pool[k];
      }
    }
    forall k1, k2 | k1 in after && k2 in after && k1 != k2
      ensures after[k1] != after[k2]
    {
      if k1 != key && k2 != key {
        assert after[k1] == pool[k1] && after[k2] == pool[k2];
      }
    }
  }

  lemma KeyOfSpec(b: Block)
    ensures SortedKey(b.KeyOf()) && ToTags(b.KeyOf()) == b.tags
  {
    SerializeSpec(b.tags);
  }

  /** A block pooled under another key is not `b`: it would have that key as its canonical key. */
  lemma NewKeyNewBlock(domain: Domain, pool: map<Key, Block>, b: Block)
    requires Canonical(domain, pool)
    ensures forall k :: k in pool && k != b.KeyOf() ==> pool[k] != b
  {
    forall k | k in pool && k != b.KeyOf()
      ensures pool[k] != b
    {
      KeyOfPooled(k, pool[k]);
    }
  }

  /** A block whose tags are spelled out by a sorted key has that key as its canonical key. */
  lemma KeyOfPooled(k: Key, b: Block)
    requires SortedKey(k) && b.tags == ToTags(k)
    ensures b.KeyOf() == k
  {
    SortedKeyIsSerialized(k);
  }

  /** Raising a cohort's accumulator after creating it, if it was missing, is `Base` plus the amount. */
  lemma BumpCreated(p: Pops, mid: Pops, key: Key, amount: int)
    requires mid == p[key := Base(p, key)]
    ensures mid[key := Pop(mid[key].current, mid[key].next + amount)] ==
            p[key := Pop(Base(p, key).current, Base(p, key).next + amount)]
  {
  }

  /** Every key of `keys` is sorted and names exactly the dimensions of `TAGS`: a key `contribute` may create. */
  ghost predicate Destinations(domain: Domain, keys: seq<Key>)
    decreases |keys|
  {
    keys == [] ||
    (Destinations(domain, keys[..|keys| - 1]) &&
     SortedKey(keys[|keys| - 1]) && ToTags(keys[|keys| - 1]).Keys == Names(domain))
  }

  lemma {:induction false} DestinationAt(domain: Domain, keys: seq<Key>, i: nat)
    requires Destinations(domain, keys) && i < |keys|
    ensures SortedKey(keys[i]) && ToTags(keys[i]).Keys == Names(domain)
    decreases |keys|
  {
    if i < |keys| - 1 {
      DestinationAt(domain, keys[..|keys| - 1], i);
    }
  }

  /** Keys that each parse to a full cohort of the domain are destinations. */
  lemma {:induction false} DestinationsEach(domain: Domain, keys: seq<Key>)
    requires forall i :: 0 <= i < |keys| ==> SortedKey(keys[i]) && ToTags(keys[i]).Keys == Names(domain)
    ensures Destinations(domain, keys)
    decreases |keys|
  {
    if keys != [] {
      DestinationsEach(domain, keys[..|keys| - 1]);
    }
  }

  /** Every key of an expansion names a full cohort of the domain. */
  lemma ExpandedDestinations(domain: Domain, cond: Tags)
    requires DistinctNames(domain)
    ensures Destinations(domain, ExpandKeys(domain, cond))
  {
    var keys := ExpandKeys(domain, cond);
    forall i | 0 <= i < |keys|
      ensures SortedKey(keys[i]) && ToTags(keys[i]).Keys == Names(domain)
    {
      ExpandKeysParse(domain, cond, i);
    }
    DestinationsEach(domain, keys);
  }

  /** The keys visited by the transfer loop after one more block. */
  lemma VisitedStep(keys: seq<Key>, j: nat, done: set<Key>)
    requires j < |keys| && forall i, i' :: 0 <= i < i' < |keys| ==> keys[i] != keys[i']
    requires forall i :: 0 <= i < j ==> keys[i] in done
    requires forall i :: j <= i < |keys| ==> keys[i] !in done
    ensures forall i :: 0 <= i < j + 1 ==> keys[i] in done + {keys[j]}
    ensures forall i :: j + 1 <= i < |keys| ==> keys[i] !in done + {keys[j]}
  {
  }

  /** One more destination credited: the loop of `contribute` after `i + 1` keys. */
  lemma DistributeStep(p0: Pops, keys: seq<Key>, i: nat, share: int, d: Pops)
    requires i < |keys| && d == Distribute(p0, keys[..i], share)
    ensures d[keys[i] := Pop(Base(d, keys[i]).current, Base(d, keys[i]).next + share)] ==
            Distribute(p0, keys[..i + 1], share)
  {
    DistributeSnoc(p0, keys[..i], keys[i], share);
    SliceSnoc(keys, i);
  }

  lemma SliceSnoc<T>(s: seq<T>, i: nat)
    requires i < |s|
    ensures s[..i + 1] == s[..i] + [s[i]]
  {
  }

  lemma SliceAll<T>(s: seq<T>)
    ensures s[..|s|] == s
  {
  }

  /** The blocks of `blocks` registered in order; a later block replaces an earlier one with the same key. */
  function Register(blocks: seq<Block>): map<Key, Block>
    decreases |blocks|
  {
    if blocks == [] then map[]
    else
      var last := blocks[|blocks| - 1];
      Register(blocks[..|blocks| - 1])[last.KeyOf() := last]
  }

  /**
   * The pool holds every registered key, and a key is held by the last block
   * registered under it.
   */
  lemma {:induction false} RegisterLastWins(blocks: seq<Block>, i: nat)
    requires i < |blocks|
    requires forall j :: i < j < |blocks| ==> blocks[j].KeyOf() != blocks[i].KeyOf()
    ensures blocks[i].KeyOf() in Register(blocks) && Register(blocks)[blocks[i].KeyOf()] == blocks[i]
    decreases |blocks|
  {
    var n := |blocks| - 1;
    var front := blocks[..n];
    var key, lastKey := blocks[i].KeyOf(), blocks[n].KeyOf();
    var before := Register(front);
    assert Register(blocks) == before[lastKey := blocks[n]];
    if i < n {
      assert front[i] == blocks[i];
      forall j | i < j < |front|
        ensures front[j].KeyOf() != front[i].KeyOf()
      {
        assert front[j] == blocks[j];
      }
      RegisterLastWins(front, i);
      assert key in before && before[key] == blocks[i];
      assert lastKey != key;
    }
  }

  /** The population fields of the blocks of `pool`, key by key. */
  ghost function PopsOf(pool: map<Key, Block>): (p: Pops)
    reads pool.Values
    ensures p.Keys == pool.Keys
  {
    map k | k in pool :: Pop(pool[k].current, pool[k].next)
  }

  /** Pooling `b` under `key` adds or replaces that one cohort's populations. */
  lemma PopsOfInsert(pool: map<Key, Block>, key: Key, b: Block)
    ensures PopsOf(pool[key := b]) == PopsOf(pool)[key := Pop(b.current, b.next)]
  {
  }

  /** The tagged cohort-component model. */
  class TagCCM {
    /** `TAGS`. */
    const domain: Domain
    const transferRules: seq<TransferRule>
    const generativeRules: seq<GenerativeRule>
    /** `block_pool`. */
    var pool: map<Key, Block>
    /** `block_filter`. */
    var index: Index

    /**
     * The engine's invariant: the index has one entry per dimension of `TAGS`;
     * each pooled block sits under its own canonical key, so that its tags
     * are those the key spells out, and uses only the dimensions of `TAGS`;
     * and a key is indexed under a (dimension, value) pair exactly when it
     * is pooled and its tags carry that pair.
     */
    ghost predicate Valid()
      reads this
    {
      DistinctNames(domain) && index.Keys == Names(domain) && Canonical(domain, pool) && IndexExact(index, pool.Keys)
    }

    /** The population fields of every pooled cohort. */
    ghost function Populations(): Pops
      reads this, pool.Values
    {
      PopsOf(pool)
    }

    /** The pool only grows: old keys keep their blocks and new keys hold new blocks. */
    twostate predicate Grown()
      reads this
    {
      old(pool).Keys <= pool.Keys &&
      (forall k :: k in old(pool) ==> pool[k] == old(pool)[k]) &&
      (forall k :: k in pool && k !in old(pool) ==> fresh(pool[k]))
    }

    /** The empty engine: `block_pool = {}` and an empty index entry per dimension. */
    constructor Init(domain: Domain, transferRules: seq<TransferRule>, generativeRules: seq<GenerativeRule>)
      requires DistinctNames(domain)
      ensures Valid() && pool == map[]
      ensures this.domain == domain && this.transferRules == transferRules && this.generativeRules == generativeRules
    {
      this.domain := domain;
      this.transferRules := transferRules;
      this.generativeRules := generativeRules;
      pool := map[];
      index := map t | t in Names(domain) :: map[];
    }

    /**
     * `new_block(b)`: `b` is pooled under its canonical key, replacing any
     * block there, and that key is indexed under each of b's (dimension,
     * value) pairs.  A dimension outside `TAGS` is an error (`ok == false`).
     */
    method NewBlock(b: Block) returns (ok: bool)
      requires Valid()
      modifies this
      ensures Valid()
      ensures ok <==> b.tags.Keys <= Names(domain)
      ensures ok ==> pool == old(pool)[b.KeyOf() := b]
      ensures !ok ==> pool == old(pool) && index == old(index)
    {
      if !(b.tags.Keys <= index.Keys) {
        return false;
      }
      Pool(b.KeyOf(), b);
      return true;
    }

    /** `new_block` past its dimension check: `b` is pooled under `key`, its canonical key, and indexed. */
    method Pool(key: Key, b: Block)
      requires Valid() && b.tags.Keys <= Names(domain) && key == b.KeyOf()
      modifies this
      ensures Valid() && pool == old(pool)[key := b]
    {
      CanonicalInsert(domain, pool, b);
      pool := pool[key := b];
      IndexUnder(key, b.tags);
      IndexOneMore(old(index), index, old(pool).Keys, key);
      assert pool.Keys == old(pool).Keys + {key};
    }

    /** The loop of `new_block`: `key` is added under each (dimension, value) pair of `tags`. */
    method IndexUnder(key: Key, tags: Tags)
      requires tags.Keys <= index.Keys
      modifies this
      ensures pool == old(pool) && index.Keys == old(index).Keys
      ensures forall t, v, k :: (k in Lookup(index, t, v) <==>
        k in Lookup(old(index), t, v) || (k == key && HasTag(tags, t, v)))
    {
      var rest := tags.Keys;
      while rest != {}
        invariant rest <= tags.Keys
        invariant pool == old(pool) && index.Keys == old(index).Keys
        invariant forall t, v, k :: (k in Lookup(index, t, v) <==>
          k in Lookup(old(index), t, v) || (k == key && HasTag(tags, t, v) && t !in rest))
        decreases rest
      {
        var t :| t in rest;
        index := Indexed(index, t, tags[t], key);
        rest := rest - {t};
      }
    }

    /** One step of `__init__`'s loop: `new_block(blocks[i])` on the blocks registered so far. */
    method Admit(blocks: seq<Block>, i: nat) returns (ok: bool)
      requires Valid() && i < |blocks| && pool == Register(blocks[..i]) && AllInDomain(blocks[..i], domain)
      modifies this
      ensures Valid()
      ensures ok <==> blocks[i].tags.Keys <= Names(domain)
      ensures ok ==> pool == Register(blocks[..i + 1]) && AllInDomain(blocks[..i + 1], domain)
    {
      ok := NewBlock(blocks[i]);
      assert blocks[..i + 1][..i] == blocks[..i];
    }

    /**
     * `__init__`'s loop over `blocks`: each is pooled in order, and the
     * loop stops (the constructor raises) at the first block using a
     * dimension outside `TAGS`.
     */
    method AdmitAll(blocks: seq<Block>) returns (ok: bool)
      requires Valid() && pool == map[]
      modifies this
      ensures Valid()
      ensures ok <==> forall i :: 0 <= i < |blocks| ==> blocks[i].tags.Keys <= Names(domain)
      ensures ok ==> pool == Register(blocks)
    {
      for i := 0 to |blocks|
        invariant Valid() && pool == Register(blocks[..i]) && AllInDomain(blocks[..i], domain)
      {
        ok := Admit(blocks, i);
        if !ok {
          return;
        }
      }
      assert blocks[..|blocks|] == blocks;
      AllInDomainEach(blocks, domain);
      ok := true;
    }

    /**
     * `TagCCM(blocks, transfer_rules, generative_rules, TAGS)`: an engine
     * holding the given blocks, registered in order; `None` where the
     * constructor raises because a block uses a dimension outside `TAGS`.
     */
    static method Create(blocks: seq<Block>, transferRules: seq<TransferRule>,
                         generativeRules: seq<GenerativeRule>, domain: Domain)
      returns (r: Option<TagCCM>)
      requires DistinctNames(domain)
      ensures r.Some? <==> forall i :: 0 <= i < |blocks| ==> blocks[i].tags.Keys <= Names(domain)
      ensures r.Some? ==> fresh(r.value) && r.value.Valid() && r.value.pool == Register(blocks)
      ensures r.Some? ==> (r.value.domain == domain && r.value.transferRules == transferRules &&
        r.value.generativeRules == generativeRules)
    {
      var engine := new TagCCM.Init(domain, transferRules, generativeRules);
      var ok := engine.AdmitAll(blocks);
      if !ok {
        return None;
      }
      return Some(engine);
    }

    /**
     * The key set `filter(cond)` computes: all pooled keys, intersected with
     * the index entry of each pair of `cond`.
     */
    method MatchingKeys(cond: Tags) returns (result: set<Key>)
      requires Valid() && cond.Keys <= Names(domain)
      ensures result == Matching(pool.Keys, cond)
    {
      result := pool.Keys;
      var rest := cond.Keys;
      while rest != {}
        invariant rest <= cond.Keys
        invariant forall k :: k in result <==>
          k in pool && forall t :: t in cond && t !in rest ==> HasTag(ToTags(k), t, cond[t])
        decreases rest
      {
        var t :| t in rest;
        result := result * Lookup(index, t, cond[t]);
        rest := rest - {t};
      }
    }

    /**
     * `filter(cond)`: the pooled blocks whose tags contain every pair of
     * `cond`, each once, in no particular order; `keys` names the key each
     * one is pooled under.  `None` where Python raises because `cond` names
     * a dimension outside `TAGS`.
     */
    method Filter(cond: Tags) returns (r: Option<seq<Block>>, ghost keys: seq<Key>)
      requires Valid()
      ensures r.None? <==> !(cond.Keys <= Names(domain))
      ensures r.Some? ==> |keys| == |r.value|
      ensures r.Some? ==> forall i :: 0 <= i < |keys| ==> keys[i] in pool && pool[keys[i]] == r.value[i]
      ensures r.Some? ==> (set k | k in keys) == Matching(pool.Keys, cond)
      ensures r.Some? ==> forall i, j :: 0 <= i < j < |keys| ==> keys[i] != keys[j]
    {
      if !(cond.Keys <= index.Keys) {
        return None, [];
      }
      var result := MatchingKeys(cond);
      var blocks;
      blocks, keys := BlocksOf(result);
      return Some(blocks), keys;
    }

    /** `[self.block_pool[k] for k in result]`, in the order the keys are drawn from the set. */
    method BlocksOf(result: set<Key>) returns (blocks: seq<Block>, ghost keys: seq<Key>)
      requires result <= pool.Keys
      ensures |keys| == |blocks| && (set k | k in keys) == result
      ensures forall i :: 0 <= i < |keys| ==> keys[i] in pool && pool[keys[i]] == blocks[i]
      ensures forall i, j :: 0 <= i < j < |keys| ==> keys[i] != keys[j]
    {
      blocks, keys := [], [];
      var rest := result;
      while rest != {}
        invariant rest <= result && |keys| == |blocks|
        invariant forall i :: 0 <= i < |keys| ==> keys[i] in pool && pool[keys[i]] == blocks[i] && keys[i] !in rest
        invariant rest + (set k | k in keys) == result
        invariant forall i, j :: 0 <= i < j < |keys| ==> keys[i] != keys[j]
        decreases rest
      {
        var k :| k in rest;
        blocks := blocks + [pool[k]];
        keys := keys + [k];
        rest := rest - {k};
      }
    }

    /** One round of the breadth-first expansion: each partial assignment, in order, extended by each value. */
    static method ExtendRound(result: seq<Tags>, t: string, values: seq<string>) returns (newResult: seq<Tags>)
      ensures newResult == Extend(result, t, values)
    {
      newResult := [];
      for i := 0 to |result|
        invariant newResult == Extend(result[..i], t, values)
      {
        for j := 0 to |values|
          invariant newResult == Extend(result[..i], t, values) + Row(result[i], t, values)[..j]
        {
          assert Row(result[i], t, values)[..j + 1] == Row(result[i], t, values)[..j] + [result[i][t := values[j]]];
          newResult := newResult + [result[i][t := values[j]]];
        }
        assert result[..i + 1][..i] == result[..i];
        assert Row(result[i], t, values)[..|values|] == Row(result[i], t, values);
      }
      assert result[..|result|] == result;
    }

    /**
     * `permutate_blocks_by_filter(cond)`, breadth first over the dimensions
     * of `TAGS`: the canonical keys of every full assignment that agrees with
     * `cond`, in dimension-major order.
     */
    method PermutateBlocksByFilter(cond: Tags) returns (keys: seq<Key>)
      ensures keys == ExpandKeys(domain, cond)
    {
      var result: seq<Tags> := [map[]];
      for d := 0 to |domain|
        invariant result == ExpandPrefix(domain, cond, d)
      {
        var t := domain[d].name;
        var values := domain[d].values;
        if t in cond {
          values := [cond[t]];
        }
        assert values == Choices(domain[d], cond);
        result := ExtendRound(result, t, values);
      }
      keys := SerializeAll(result);
    }

    /**
     * `contribute(cond, population)`: every key of the expansion of `cond`
     * is pooled (a missing cohort is created from its key with population 0)
     * and its accumulator rises by `population // n` once per occurrence
     * among the `n` keys; `current` and all other cohorts are untouched.
     */
    method Contribute(cond: Tags, population: int)
      requires Valid()
      modifies this, pool.Values
      ensures Valid() && Grown()
      ensures Populations() == Credit(old(Populations()), domain, cond, population)
    {
      var toBlocks := PermutateBlocksByFilter(cond);
      ExpandedDestinations(domain, cond);
      CreditEach(toBlocks, population);
    }

    /** The loop of `contribute` over the destinations `toBlocks`. */
    method CreditEach(toBlocks: seq<Key>, population: int)
      requires Valid() && Destinations(domain, toBlocks)
      modifies this, pool.Values
      ensures Valid() && Grown()
      ensures Populations() == Distribute(old(Populations()), toBlocks, Share(population, |toBlocks|))
    {
      ghost var p0 := Populations();
      ghost var share := Share(population, |toBlocks|);
      for i := 0 to |toBlocks|
        invariant Valid() && Grown()
        invariant Populations() == Distribute(p0, toBlocks[..i], share)
      {
        CreditAt(toBlocks, i, population / |toBlocks|, p0, share);
      }
      SliceAll(toBlocks);
    }

    /** One round of `contribute`'s loop: the `i`-th destination receives its share. */
    method CreditAt(toBlocks: seq<Key>, i: nat, amount: int, ghost p0: Pops, ghost share: int)
      requires Valid() && Destinations(domain, toBlocks) && i < |toBlocks| && amount == share
      requires Populations() == Distribute(p0, toBlocks[..i], share)
      modifies this, pool.Values
      ensures Valid() && Grown()
      ensures Populations() == Distribute(p0, toBlocks[..i + 1], share)
    {
      DestinationAt(domain, toBlocks, i);
      var key := toBlocks[i];
      ghost var d := Populations();
      DistributeStep(p0, toBlocks, i, share, d);
      CreditKey(key, amount, d, Distribute(p0, toBlocks[..i + 1], share));
    }

    /**
     * The body of `contribute`'s loop for one destination `key`: the cohort
     * is created from its key with population 0 when missing, then its
     * accumulator rises by `amount`.
     */
    method CreditKey(key: Key, amount: int, ghost p: Pops, ghost goal: Pops)
      requires Valid() && SortedKey(key) && ToTags(key).Keys == Names(domain)
      requires p == Populations()
      requires goal == p[key := Pop(Base(p, key).current, Base(p, key).next + amount)]
      modifies this, pool.Values
      ensures Valid() && Grown()
      ensures Populations() == goal
    {
      ghost var mid := p[key := Base(p, key)];
      CreateMissing(key, p, mid);
      BumpCreated(p, mid, key, amount);
      Bump(key, amount, mid, goal);
    }

    /** `if b not in self.block_pool: self.new_block(Block.deserialize(b, self.TAGS))`. */
    method CreateMissing(key: Key, ghost p: Pops, ghost goal: Pops)
      requires Valid() && SortedKey(key) && ToTags(key).Keys == Names(domain)
      requires p == Populations() && goal == p[key := Base(p, key)]
      modifies this
      ensures Valid() && Grown() && key in pool
      ensures Populations() == goal
    {
      if key !in pool {
        CreateAbsent(key);
      } else {
        assert p[key := p[key]] == p;
      }
    }

    /** The `new_block(Block.deserialize(b, self.TAGS))` branch, for a key not pooled yet. */
    method CreateAbsent(key: Key)
      requires Valid() && SortedKey(key) && ToTags(key).Keys == Names(domain) && key !in pool
      modifies this
      ensures Valid() && Grown() && key in pool
      ensures PopsOf(pool) == PopsOf(old(pool))[key := Pop(0, 0)]
    {
      var b := Revive(key);
      KeyOfPooled(key, b);
      ghost var before := pool;
      Pool(key, b);
      PopsOfInsert(before, key, b);
    }

    /** `Block.deserialize(b, self.TAGS)` on a key naming every dimension of `TAGS`, which never raises. */
    method Revive(key: Key) returns (b: Block)
      requires Valid() && ToTags(key).Keys == Names(domain)
      ensures fresh(b) && b.tags == ToTags(key) && b.current == 0 && b.next == 0
    {
      var r := Block.Deserialize(key, domain);
      NamesCount(domain);
      assert r.Some?;
      b := r.value;
    }

    /** `self.block_pool[b].next += amount`. */
    method Bump(key: Key, amount: int, ghost p: Pops, ghost goal: Pops)
      requires Valid() && key in pool
      requires p == Populations() && goal == p[key := Pop(p[key].current, p[key].next + amount)]
      modifies pool[key]
      ensures Populations() == goal
    {
      var target := pool[key];
      target.next := target.next + amount;
    }

    /**
     * One transfer rule of `_step`: `filter(rule.apply_to)`, then for each
     * selected block `rule.apply(block)` and the `contribute` it asks for.
     */
    method TransferRuleStep(rule: TransferRule, ghost p: Pops) returns (ok: bool)
      requires Valid() && p == Populations()
      modifies this, pool.Values
      ensures Valid() && Grown()
      ensures ok <==> TransferOne(p, domain, rule).Some?
      ensures ok ==> TransferOne(p, domain, rule) == Some(Populations())
    {
      assert p.Keys == pool.Keys;
      var selected, keys := Filter(rule.applyTo);
      if selected.None? {
        return false;
      }
      assert TransferOne(p, domain, rule) == RuleOverSet(p, domain, rule, Matching(pool.Keys, rule.applyTo));
      ok := TransferEach(rule, selected.value, keys, Matching(pool.Keys, rule.applyTo), p);
    }

    /** The loop of `_step` over the blocks `blocks`, pooled under `keys`, that `filter` selected. */
    method TransferEach(rule: TransferRule, blocks: seq<Block>, ghost keys: seq<Key>, ghost S: set<Key>,
                        ghost q: Pops)
      returns (ok: bool)
      requires Valid() && |keys| == |blocks| && S == (set k | k in keys) && S <= pool.Keys
      requires forall i :: 0 <= i < |keys| ==> keys[i] in pool && pool[keys[i]] == blocks[i]
      requires forall i, j :: 0 <= i < j < |keys| ==> keys[i] != keys[j]
      requires q == Populations()
      modifies this, pool.Values
      ensures Valid() && Grown()
      ensures ok <==> RuleOverSet(q, domain, rule, S).Some?
      ensures ok ==> RuleOverSet(q, domain, rule, S) == Some(Populations())
    {
      ghost var done: set<Key> := {};
      for j := 0 to |blocks|
        invariant Valid() && Grown()
        invariant forall i :: j <= i < |keys| ==> keys[i] in pool && pool[keys[i]] == blocks[i]
        invariant done <= S
        invariant forall i :: 0 <= i < j ==> keys[i] in done
        invariant forall i :: j <= i < |keys| ==> keys[i] !in done
        invariant RuleOverSet(q, domain, rule, done) == Some(Populations())
      {
        ok := TransferAt(rule, blocks[j], keys[j], q, done);
        if !ok {
          RuleOverSetFails(q, domain, rule, done + {keys[j]}, S);
          return false;
        }
        VisitedStep(keys, j, done);
        done := done + {keys[j]};
      }
      assert done == S;
      return true;
    }

    /** The body of the transfer loop for the block `b` pooled under `k`. */
    method TransferAt(rule: TransferRule, b: Block, ghost k: Key, ghost q: Pops, ghost done: set<Key>)
      returns (ok: bool)
      requires Valid() && k in pool && pool[k] == b && k !in done && done + {k} <= q.Keys
      requires RuleOverSet(q, domain, rule, done) == Some(Populations())
      modifies this, pool.Values
      ensures Valid() && Grown()
      ensures ok ==> RuleOverSet(q, domain, rule, done + {k}) == Some(Populations())
      ensures !ok ==> RuleOverSet(q, domain, rule, done + {k}).None?
    {
      ghost var p := Populations();
      assert b.tags == ToTags(k) && p[k].current == b.current;
      assert (done + {k}) - {k} == done;
      RuleOverSetPick(q, domain, rule, done + {k}, k);
      var effect := ApplyTransfer(rule, b.tags, b.current);
      match effect {
        case NoOp =>
          ok := true;
        case Fail =>
          ok := false;
        case Contribute(to, amount) =>
          Contribute(to, amount);
          ok := true;
      }
    }

    /** The transfer rules of `_step`, in list order. */
    method TransferPhase() returns (ok: bool)
      requires Valid()
      modifies this, pool.Values
      ensures Valid() && Grown()
      ensures ok <==> AccTransfer(old(Populations()), domain, transferRules).Some?
      ensures ok ==> AccTransfer(old(Populations()), domain, transferRules) == Some(Populations())
    {
      ghost var p0 := Populations();
      for r := 0 to |transferRules|
        invariant Valid() && Grown()
        invariant AccTransfer(p0, domain, transferRules) == AccTransfer(Populations(), domain, transferRules[r..])
      {
        ghost var cur := Populations();
        AccTransferFrom(cur, domain, transferRules, r);
        ok := TransferRuleStep(transferRules[r], cur);
        if !ok {
          return false;
        }
      }
      return true;
    }

    /** One generative rule of `_step`: `rule.apply(TAGS)`, then each contribution in order. */
    method GenerativeRuleStep(rule: GenerativeRule, ghost p: Pops) returns (ok: bool)
      requires Valid() && p == Populations()
      modifies this, pool.Values
      ensures Valid() && Grown()
      ensures ok <==> ApplyGenerative(rule, domain).Some?
      ensures ok ==> Populations() == DistributeAll(p, domain, ApplyGenerative(rule, domain).value)
    {
      var contributions := ApplyGenerative(rule, domain);
      if contributions.None? {
        return false;
      }
      ContributeAll(contributions.value, p);
      return true;
    }

    /** `for contribute_to, population in contributions: self.contribute(contribute_to, population)`. */
    method ContributeAll(cs: seq<(Tags, int)>, ghost p0: Pops)
      requires Valid() && p0 == Populations()
      modifies this, pool.Values
      ensures Valid() && Grown()
      ensures Populations() == DistributeAll(p0, domain, cs)
    {
      for c := 0 to |cs|
        invariant Valid() && Grown()
        invariant DistributeAll(p0, domain, cs) == DistributeAll(Populations(), domain, cs[c..])
      {
        DistributeAllFrom(Populations(), domain, cs, c);
        Contribute(cs[c].0, cs[c].1);
      }
    }

    /** The generative rules of `_step`, in list order. */
    method GenerativePhase() returns (ok: bool)
      requires Valid()
      modifies this, pool.Values
      ensures Valid() && Grown()
      ensures ok <==> AccGenerative(old(Populations()), domain, generativeRules).Some?
      ensures ok ==> AccGenerative(old(Populations()), domain, generativeRules) == Some(Populations())
    {
      ghost var p0 := Populations();
      for g := 0 to |generativeRules|
        invariant Valid() && Grown()
        invariant AccGenerative(p0, domain, generativeRules) == AccGenerative(Populations(), domain, generativeRules[g..])
      {
        ghost var cur := Populations();
        AccGenerativeFrom(cur, domain, generativeRules, g);
        ok := GenerativeRuleStep(generativeRules[g], cur);
        if !ok {
          return false;
        }
      }
      return true;
    }

    /** The end of `_step`: every block's `current` becomes `max(0, next)` and `next` becomes 0. */
    method CommitPhase()
      requires Valid()
      modifies pool.Values
      ensures Valid() && Grown()
      ensures Populations() == Commit(old(Populations()))
    {
      var rest := pool.Keys;
      while rest != {}
        invariant rest <= pool.Keys
        invariant forall k :: k in rest ==> pool[k].current == old(pool[k].current) && pool[k].next == old(pool[k].next)
        invariant forall k :: k in pool && k !in rest ==> pool[k].current == Max0(old(pool[k].next)) && pool[k].next == 0
        decreases rest
      {
        var k :| k in rest;
        var block := pool[k];
        block.current, block.next := Max0(block.next), 0;
        rest := rest - {k};
      }
      Committed();
    }

    /** Once every pooled block is committed, the populations are those of `Commit`. */
    twostate lemma Committed()
      requires pool == old(pool)
      requires forall k :: k in pool ==> pool[k].current == Max0(old(pool[k].next)) && pool[k].next == 0
      ensures Populations() == Commit(old(Populations()))
    {
    }

    /** `_step`: the transfer rules, the generative rules, then the commit; `false` when a rule raises. */
    method StepOnce() returns (ok: bool)
      requires Valid()
      modifies this, pool.Values
      ensures Valid() && Grown()
      ensures ok <==> StepSpec(old(Populations()), domain, transferRules, generativeRules).Some?
      ensures ok ==> StepSpec(old(Populations()), domain, transferRules, generativeRules) == Some(Populations())
    {
      ok := TransferPhase();
      if !ok {
        return;
      }
      ok := GenerativePhase();
      if !ok {
        return;
      }
      CommitPhase();
    }

    /** `step(times)`: `_step` run `times` times; `false` when one of them raises. */
    method Step(times: int) returns (ok: bool)
      requires Valid()
      modifies this, pool.Values
      ensures Valid() && Grown()
      ensures ok <==> StepN(old(Populations()), domain, transferRules, generativeRules, times).Some?
      ensures ok ==> StepN(old(Populations()), domain, transferRules, generativeRules, times) == Some(Populations())
    {
      ghost var p0 := Populations();
      var i := 0;
      while i < times
        invariant 0 <= i && (times >= 0 ==> i <= times)
        invariant Valid() && Grown()
        invariant StepN(p0, domain, transferRules, generativeRules, times) ==
                  StepN(Populations(), domain, transferRules, generativeRules, times - i)
      {
        ok := StepOnce();
        if !ok {
          return;
        }
        i := i + 1;
      }
      return true;
    }
  }
}
