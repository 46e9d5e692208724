/**
 * Cohorts (block.py): a tag assignment with a committed population `current`
 * and a pending accumulator `next`, its canonical key, and the tag domain
 * (`TAGS`) that declares the dimensions.
 *
 * The canonical key is `json.dumps(tags, sort_keys=True)`.  The model keeps its
 * content and drops the JSON syntax: a key is the list of (name, value) pairs
 * in strictly increasing name order.  `ToTags` plays `json.loads`.
 */
module Cohort {
  import opened Maybe

  /** A (partial or full) tag assignment: dimension name to value. */
  type Tags = map<string, string>

  /** A canonical cohort key: (name, value) pairs, names strictly increasing. */
  type Key = seq<(string, string)>

  /** One entry of `TAGS`: a dimension and its legal values, in declaration order. */
  datatype Dimension = Dimension(name: string, values: seq<string>)

  /** `TAGS`: the dimensions in declaration order. */
  type Domain = seq<Dimension>

  function Names(domain: Domain): set<string> {
    set i | 0 <= i < |domain| :: domain[i].name
  }

  /** A Python dict never repeats a key. */
  predicate DistinctNames(domain: Domain) {
    forall i, j :: 0 <= i < j < |domain| ==> domain[i].name != domain[j].name
  }

  /** `len(TAGS)` counts the distinct dimension names. */
  lemma {:induction false} NamesCount(domain: Domain)
    requires DistinctNames(domain)
    ensures |Names(domain)| == |domain|
    decreases |domain|
  {
    if domain != [] {
      var n := |domain| - 1;
      var front := domain[..n];
      NamesCount(front);
      assert Names(domain) == Names(front) + {domain[n].name};
      assert domain[n].name !in Names(front);
    }
  }

  /** `TAGS[name]`: the values of the dimension called `name`, empty when there is none. */
  function ValuesOf(domain: Domain, name: string): (vs: seq<string>)
    ensures name !in Names(domain) ==> vs == []
    decreases |domain|
  {
    if domain == [] then []
    else if domain[0].name == name then domain[0].values
    else
      assert Names(domain) == {domain[0].name} + Names(domain[1..]) by {
        assert forall i :: 1 <= i < |domain| ==> domain[i] == domain[1..][i - 1];
      }
      ValuesOf(domain[1..], name)
  }

  /** With distinct names, `ValuesOf` finds the values of the one dimension of that name. */
  lemma {:induction false} ValuesOfAt(domain: Domain, i: nat)
    requires DistinctNames(domain) && i < |domain|
    ensures ValuesOf(domain, domain[i].name) == domain[i].values
    decreases |domain|
  {
    if i > 0 {
      assert DistinctNames(domain[1..]);
      ValuesOfAt(domain[1..], i - 1);
    }
  }

  /** True when `tags` carries `value` for dimension `name`. */
  predicate HasTag(tags: Tags, name: string, value: string) {
    name in tags && tags[name] == value
  }

  /** `cond` is contained in `tags`: every pair of the condition is one of the cohort's. */
  predicate Matches(tags: Tags, cond: Tags) {
    forall name :: name in cond ==> HasTag(tags, name, cond[name])
  }

  // ---------------------------------------------------------------------------
  // The order `sort_keys=True` sorts by: code-point lexicographic order on strings.

  predicate Below(a: string, b: string) {
    if a == [] then b != []
    else if b == [] then false
    else a[0] < b[0] || (a[0] == b[0] && Below(a[1..], b[1..]))
  }

  lemma {:induction false} BelowIrreflexive(a: string)
    ensures !Below(a, a)
    decreases |a|
  {
    if a != [] {
      BelowIrreflexive(a[1..]);
    }
  }

  lemma {:induction false} BelowTransitive(a: string, b: string, c: string)
    requires Below(a, b) && Below(b, c)
    ensures Below(a, c)
    decreases |a|
  {
    if a != [] && b != [] && c != [] && a[0] == b[0] && b[0] == c[0] {
      BelowTransitive(a[1..], b[1..], c[1..]);
    }
  }

  lemma {:induction false} BelowTotal(a: string, b: string)
    ensures a == b || Below(a, b) || Below(b, a)
    decreases |a|
  {
    if a != [] && b != [] && a[0] == b[0] {
      BelowTotal(a[1..], b[1..]);
      if a[1..] == b[1..] {
        assert a == [a[0]] + a[1..] && b == [b[0]] + b[1..];
      }
    }
  }

  lemma BelowAsymmetric()
    ensures forall a, b :: Below(a, b) ==> !Below(b, a)
  {
    forall a, b | Below(a, b)
      ensures !Below(b, a)
    {
      if Below(b, a) {
        BelowTransitive(a, b, a);
        BelowIrreflexive(a);
      }
    }
  }

  /** `m` is the least name of `s`. */
  predicate IsLeast(s: set<string>, m: string) {
    m in s && forall x :: x in s && x != m ==> Below(m, x)
  }

  /** Adding a name to a set moves its least name at most to the new name. */
  lemma LeastAdd(s: set<string>, m: string, y: string)
    requires IsLeast(s, m) && y !in s
    ensures IsLeast(s + {y}, m) || IsLeast(s + {y}, y)
  {
    BelowTotal(m, y);
    if Below(y, m) {
      forall x | x in s + {y} && x != y
        ensures Below(y, x)
      {
        if x != m {
          BelowTransitive(y, m, x);
        }
      }
    }
  }

  /** Every finite non-empty set of names has a least element. */
  lemma {:induction false} LeastExists(s: set<string>)
    requires s != {}
    ensures exists m :: IsLeast(s, m)
    decreases |s|
  {
    var y :| y in s;
    if s == {y} {
      assert IsLeast(s, y);
    } else {
      var smaller := s - {y};
      LeastExists(smaller);
      var m :| IsLeast(smaller, m);
      LeastAdd(smaller, m, y);
      assert smaller + {y} == s;
    }
  }

  /** The least name of a non-empty set. */
  function MinName(s: set<string>): (m: string)
    requires s != {}
    ensures m in s && forall x :: x in s && x != m ==> Below(m, x)
  {
    LeastExists(s);
    BelowAsymmetric();
    var m :| IsLeast(s, m);
    m
  }

  predicate SortedKey(key: Key) {
    forall i, j :: 0 <= i < j < |key| ==> Below(key[i].0, key[j].0)
  }

  /** `json.loads` of a key: a later pair for the same name wins. */
  function ToTags(key: Key): (tags: Tags)
    ensures tags.Keys == set i | 0 <= i < |key| :: key[i].0
    decreases |key|
  {
    if key == [] then map[]
    else
      assert forall i :: 1 <= i < |key| ==> key[i] == key[1..][i - 1];
      map[key[0].0 := key[0].1] + ToTags(key[1..])
  }

  lemma HeadTail<T>(s: seq<T>)
    requires s != []
    ensures [s[0]] + s[1..] == s
  {
  }

  /** Reading `[p] + tail` back: the later pairs override `p`. */
  lemma ToTagsCons(p: (string, string), tail: Key)
    ensures ToTags([p] + tail) == map[p.0 := p.1] + ToTags(tail)
  {
    assert ([p] + tail)[1..] == tail;
  }

  /** Putting a name below every name of a sorted key in front keeps it sorted. */
  lemma ConsSorted(p: (string, string), tail: Key)
    requires SortedKey(tail)
    requires forall j :: 0 <= j < |tail| ==> Below(p.0, tail[j].0)
    ensures SortedKey([p] + tail)
  {
    var key := [p] + tail;
    forall i, j | 0 <= i < j < |key|
      ensures Below(key[i].0, key[j].0)
    {
      assert key[j] == tail[j - 1];
      if i > 0 {
        assert key[i] == tail[i - 1];
      }
    }
  }

  lemma ReinsertName(tags: Tags, m: string)
    requires m in tags
    ensures map[m := tags[m]] + (tags - {m}) == tags
  {
    var r := map[m := tags[m]] + (tags - {m});
    assert r.Keys == tags.Keys;
    forall k | k in tags
      ensures r[k] == tags[k]
    {
    }
  }

  /**
   * `Block.serialize`: the canonical key of a tag assignment, the least name
   * first.  `SerializeSpec` states what it produces.
   */
  function Serialize(tags: Tags): Key
    decreases |tags|
  {
    if |tags| == 0 then []
    else
      var m := MinName(tags.Keys);
      var rest := tags - {m};
      assert |rest| < |tags| by {
        assert rest.Keys == tags.Keys - {m};
      }
      [(m, tags[m])] + Serialize(rest)
  }

  /**
   * The canonical key lists every pair of `tags` once, sorted by name, and
   * reading it back gives `tags`.
   */
  lemma {:induction false} SerializeSpec(tags: Tags)
    ensures SortedKey(Serialize(tags))
    ensures ToTags(Serialize(tags)) == tags
    ensures |Serialize(tags)| == |tags|
    decreases |tags|
  {
    if |tags| != 0 {
      var m := MinName(tags.Keys);
      var rest := tags - {m};
      assert rest.Keys == tags.Keys - {m};
      SerializeSpec(rest);
      SerializeStepSorted(tags, m, Serialize(rest));
      SerializeStepTags(tags, m, Serialize(rest));
      SerializeStepSize(tags, m, Serialize(rest));
    }
  }

  /** The step of `Serialize` keeps the key sorted: the least name goes in front. */
  lemma SerializeStepSorted(tags: Tags, m: string, tail: Key)
    requires IsLeast(tags.Keys, m)
    requires SortedKey(tail) && ToTags(tail) == tags - {m}
    ensures SortedKey([(m, tags[m])] + tail)
  {
    assert forall j :: 0 <= j < |tail| ==> Below(m, tail[j].0) by {
      assert (tags - {m}).Keys == tags.Keys - {m};
      assert forall j :: 0 <= j < |tail| ==> tail[j].0 in ToTags(tail).Keys;
    }
    ConsSorted((m, tags[m]), tail);
  }

  /** The step of `Serialize` reads back as the whole assignment. */
  lemma SerializeStepTags(tags: Tags, m: string, tail: Key)
    requires m in tags && ToTags(tail) == tags - {m}
    ensures ToTags([(m, tags[m])] + tail) == tags
  {
    ToTagsCons((m, tags[m]), tail);
    ReinsertName(tags, m);
  }

  /** The step of `Serialize` has one pair per name. */
  lemma SerializeStepSize(tags: Tags, m: string, tail: Key)
    requires m in tags && |tail| == |tags - {m}|
    ensures |[(m, tags[m])] + tail| == |tags|
  {
    assert (tags - {m}).Keys == tags.Keys - {m};
    assert |(tags - {m}).Keys| == |tags.Keys| - 1;
  }

  /** One step of `Serialize`: the least name first, then the rest. */
  lemma SerializeUnfold(tags: Tags)
    requires tags != map[]
    ensures var m := MinName(tags.Keys);
      Serialize(tags) == [(m, tags[m])] + Serialize(tags - {m})
  {
    assert |tags| != 0 by {
      var k :| k in tags;
    }
  }

  /** A name below every other name of a set is its least name. */
  lemma LeastIsMinName(s: set<string>, m: string)
    requires m in s && forall x :: x in s && x != m ==> Below(m, x)
    ensures MinName(s) == m
  {
    var least := MinName(s);
    BelowAsymmetric();
  }

  /** The tail of a sorted key is sorted, and does not mention the head's name. */
  lemma SortedKeyTail(key: Key)
    requires SortedKey(key) && key != []
    ensures SortedKey(key[1..])
    ensures key[0].0 !in ToTags(key[1..])
  {
    BelowIrreflexive(key[0].0);
    assert forall i :: 1 <= i < |key| ==> key[i] == key[1..][i - 1];
  }

  /** The first name of a sorted key is below every other name it mentions. */
  lemma SortedKeyHeadBelow(key: Key)
    requires SortedKey(key) && key != []
    ensures forall x :: x in ToTags(key) && x != key[0].0 ==> Below(key[0].0, x)
  {
    forall x | x in ToTags(key) && x != key[0].0
      ensures Below(key[0].0, x)
    {
      var i :| 0 <= i < |key| && key[i].0 == x;
    }
  }

  /** In a sorted key the first pair's name is the least and no later pair repeats it. */
  lemma SortedKeyHead(key: Key)
    requires SortedKey(key) && key != []
    ensures key[0].0 in ToTags(key) && ToTags(key)[key[0].0] == key[0].1
    ensures MinName(ToTags(key).Keys) == key[0].0
    ensures ToTags(key) - {key[0].0} == ToTags(key[1..])
    ensures SortedKey(key[1..])
  {
    var m := key[0].0;
    var rest := ToTags(key[1..]);
    var t := ToTags(key);
    assert m !in rest && SortedKey(key[1..]) by {
      SortedKeyTail(key);
    }
    assert t == map[m := key[0].1] + rest by {
      ToTagsCons(key[0], key[1..]);
      HeadTail(key);
    }
    assert MinName(t.Keys) == m by {
      SortedKeyHeadBelow(key);
      LeastIsMinName(t.Keys, m);
    }
    PutFresh(m, key[0].1, rest);
  }

  /** Adding a name that was absent and removing it again gives back the map. */
  lemma PutFresh(m: string, v: string, rest: Tags)
    requires m !in rest
    ensures m in map[m := v] + rest && (map[m := v] + rest)[m] == v
    ensures (map[m := v] + rest) - {m} == rest
  {
    var t := map[m := v] + rest;
    assert (t - {m}).Keys == rest.Keys;
  }

  /**
   * The key is canonical: a sorted key is the one `Serialize` writes for the
   * tags it denotes.  So a key does not depend on the order in which the tags
   * were inserted, only on the pairs themselves.
   */
  lemma {:induction false} SortedKeyIsSerialized(key: Key)
    requires SortedKey(key)
    ensures Serialize(ToTags(key)) == key
    decreases |key|
  {
    if key != [] {
      var t, m := ToTags(key), key[0].0;
      assert m in t && t[m] == key[0].1 && MinName(t.Keys) == m && t - {m} == ToTags(key[1..]) by {
        SortedKeyHead(key);
      }
      assert Serialize(t - {m}) == key[1..] by {
        SortedKeyHead(key);
        SortedKeyIsSerialized(key[1..]);
      }
      assert Serialize(t) == [(m, t[m])] + Serialize(t - {m}) by {
        SerializeUnfold(t);
      }
      HeadTail(key);
    }
  }

  /** Distinct tag assignments never share a key. */
  lemma SerializeInjective(a: Tags, b: Tags)
    ensures Serialize(a) == Serialize(b) <==> a == b
  {
    SerializeSpec(a);
    SerializeSpec(b);
  }

  /**
   * `Block.deserialize` without the allocation: the tags a key denotes, or
   * `None` (Python raises) when their number differs from the number of
   * dimensions.  Names and values are not checked against the domain.
   */
  function ParseKey(key: Key, domain: Domain): (r: Option<Tags>)
    ensures r.Some? <==> |ToTags(key)| == |domain|
    ensures r.Some? ==> r.value == ToTags(key)
  {
    var tags := ToTags(key);
    if |tags| != |domain| then None else Some(tags)
  }

  /** Deserializing a serialized cohort of the right arity gives back its tags. */
  lemma DeserializeRoundTrip(tags: Tags, domain: Domain)
    requires |tags| == |domain|
    ensures ParseKey(Serialize(tags), domain) == Some(tags)
  {
    SerializeSpec(tags);
  }

  /**
   * Arity is all that is checked: the key of any tags, whatever their names
   * and values, is accepted exactly when it has one tag per dimension.
   */
  lemma DeserializeChecksOnlyArity(tags: Tags, domain: Domain)
    ensures ParseKey(Serialize(tags), domain) == if |tags| == |domain| then Some(tags) else None
  {
    SerializeSpec(tags);
  }

  /** A cohort; the engine updates `current` and `next` in place. */
  class Block {
    const tags: Tags
    var current: int
    var next: int

    constructor (tags: Tags, current: int)
      ensures this.tags == tags && this.current == current && this.next == 0
    {
      this.tags := tags;
      this.current := current;
      this.next := 0;
    }

    /** `Block.serialize(self)`. */
    function KeyOf(): Key {
      Serialize(tags)
    }

    /**
     * `Block.deserialize(block_str, TAGS)`: a new cohort with population 0 for
     * the tags of `key`, or `None` where Python raises for a wrong arity.
     */
    static method Deserialize(key: Key, domain: Domain) returns (r: Option<Block>)
      ensures r.Some? <==> |ToTags(key)| == |domain|
      ensures r.Some? ==> fresh(r.value) && r.value.tags == ToTags(key)
      ensures r.Some? ==> r.value.current == 0 && r.value.next == 0
    {
      var parsed := ParseKey(key, domain);
      if parsed.None? {
        return None;
      }
      var b := new Block(parsed.value, 0);
      return Some(b);
    }
  }
}
