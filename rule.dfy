/**
 * The rules of rule.py: the age-label helpers, the required-tags check, and
 * the gating and destination logic of `MortalityRule`, `BirthRule`,
 * `BirthWithRaceRule` and `NetMigrationRule`.  The rates are not modelled:
 * the amount a rule moves is supplied from outside (see module Protocol);
 * only whether a rate table has the key the rule looks up is.
 */
module Rules {
  import opened Maybe
  import opened Labels
  import opened Cohort

  /**
   * What a transfer rule's `apply` decides for one cohort: nothing
   * (`None, None`), a destination condition, or an exception.
   */
  datatype Target = Skip | To(dest: Tags) | Raises

  /** `get_next_age`: `n` becomes `n+1`; `lo-hi` becomes `hi-(hi+10)`; `None` where Python raises. */
  function NextAge(age: string): Option<string> {
    if IsNumeric(age) then Some(Show(DigitsValue(age) + 1))
    else
      var parts := Split(age, '-');
      if |parts| < 2 then None
      else match ParseNat(parts[1])
        case None => None
        case Some(high) => Some(Show(high) + "-" + Show(high + 10))
  }

  /** `get_age_range`: a numeric label becomes its decade `lo-(lo+10)`; any other label is kept. */
  function AgeRange(age: string): string {
    if IsNumeric(age) then
      var i := DigitsValue(age);
      Show(i - i % 10) + "-" + Show(i - i % 10 + 10)
    else age
  }

  /** A range label written by `Show` is never numeric: it contains '-'. */
  lemma RangeLabelNotNumeric(lo: nat, hi: nat)
    ensures !IsNumeric(Show(lo) + "-" + Show(hi))
  {
    var s := Show(lo) + "-" + Show(hi);
    assert s[|Show(lo)|] == '-';
  }

  /** A numeric label `n` advances to `n+1`. */
  lemma NextAgeOfNumber(n: nat)
    ensures NextAge(Show(n)) == Some(Show(n + 1))
  {
    ParseShow(n);
  }

  /** A range label `lo-hi` advances to `hi-(hi+10)`. */
  lemma NextAgeOfRange(lo: nat, hi: nat)
    ensures NextAge(Show(lo) + "-" + Show(hi)) == Some(Show(hi) + "-" + Show(hi + 10))
  {
    RangeLabelNotNumeric(lo, hi);
    SplitRangeLabel(lo, hi);
    ParseShow(hi);
  }

  /** A numeric label `i` falls in the decade starting at `i - i % 10`. */
  lemma AgeRangeOfNumber(n: nat)
    ensures AgeRange(Show(n)) == Show(n - n % 10) + "-" + Show(n - n % 10 + 10)
  {
    ParseShow(n);
  }

  /** Range labels are their own age range. */
  lemma AgeRangeOfRange(lo: nat, hi: nat)
    ensures AgeRange(Show(lo) + "-" + Show(hi)) == Show(lo) + "-" + Show(hi)
  {
    RangeLabelNotNumeric(lo, hi);
  }

  /** The examples of the helpers: '0-10' advances to '10-20' and '37' lies in '30-40'. */
  lemma AgeLabelExamples()
    ensures NextAge("0-10") == Some("10-20")
    ensures AgeRange("37") == "30-40"
    ensures NextAge("9") == Some("10")
  {
    assert Show(0) == "0";
    assert Show(10) == "10";
    assert Show(20) == "20";
    assert Show(37) == "37";
    assert Show(30) == "30";
    assert Show(40) == "40";
    assert Show(9) == "9";
    assert "0-10" == Show(0) + "-" + Show(10);
    assert "10-20" == Show(10) + "-" + Show(20);
    assert "30-40" == Show(30) + "-" + Show(40);
    NextAgeOfRange(0, 10);
    AgeRangeOfNumber(37);
    NextAgeOfNumber(9);
  }

  /** `TransferRule.check_tags`: no required tag is missing from the cohort's tags. */
  predicate CheckTags(required: set<string>, tags: Tags) {
    required - tags.Keys == {}
  }

  /** `check_tags` holds exactly when the required tags are a subset of the cohort's dimensions. */
  lemma CheckTagsIsSubset(required: set<string>, tags: Tags)
    ensures CheckTags(required, tags) <==> required <= tags.Keys
  {
    if CheckTags(required, tags) {
      forall t | t in required
        ensures t in tags.Keys
      {
        assert t !in required - tags.Keys;
      }
    }
  }

  // ---------------------------------------------------------------------------
  // MortalityRule

  const MORTALITY_REQUIRED: set<string> := {"age"}

  /** The keys of `mortality_rate_by_age_group`. */
  const MORTALITY_AGE_GROUPS: set<string> :=
    {"0-10", "10-20", "20-30", "30-40", "40-50", "50-60", "60-70", "70-80", "80-90"}

  /** The ages mortality does not advance: '90-100' and numeric ages from 90 on. */
  predicate MortalityTerminal(age: string) {
    age == "90-100" || (IsNumeric(age) && DigitsValue(age) >= 90)
  }

  /** `MortalityRule.apply` without the amount. */
  function MortalityTarget(tags: Tags): (t: Target)
    ensures t.Skip? <==> "age" !in tags || MortalityTerminal(tags["age"])
    ensures t.To? ==> "age" in tags && "age" in t.dest && Some(t.dest["age"]) == NextAge(tags["age"])
    ensures t.To? ==> t.dest.Keys == tags.Keys && t.dest - {"age"} == tags - {"age"}
    ensures t.To? ==> AgeRange(tags["age"]) in MORTALITY_AGE_GROUPS
    ensures t.Raises? <==> ("age" in tags && !MortalityTerminal(tags["age"]) &&
      (AgeRange(tags["age"]) !in MORTALITY_AGE_GROUPS || NextAge(tags["age"]).None?))
  {
    CheckTagsIsSubset(MORTALITY_REQUIRED, tags);
    if !CheckTags(MORTALITY_REQUIRED, tags) then Skip
    else
      var age := tags["age"];
      if MortalityTerminal(age) then Skip
      else if AgeRange(age) !in MORTALITY_AGE_GROUPS then Raises
      else match NextAge(age)
        case None => Raises
        case Some(older) => To(tags["age" := older])
  }

  // ---------------------------------------------------------------------------
  // BirthRule and BirthWithRaceRule

  const BIRTH_REQUIRED: set<string> := {"age", "gender"}
  const BIRTH_WITH_RACE_REQUIRED: set<string> := {"age", "gender", "race"}

  /** The keys of `birth_rate_by_age_group` (and `base_birth_rate_by_age_group`). */
  const BIRTH_AGE_GROUPS: set<string> := {"10-20", "20-30", "30-40", "40-50"}

  /** The keys of `BirthWithRaceRule.race_factor`. */
  const BIRTH_RACES: set<string> := {"race1", "race2", "race3"}

  /** The age of a newborn: '0' when ages are numeric, '0-10' when they are ranges. */
  function NewbornAge(motherAge: string): string {
    if IsNumeric(motherAge) then "0" else "0-10"
  }

  /** The mothers both birth rules act on: not male, in a fertile age range. */
  predicate Fertile(tags: Tags)
    requires "age" in tags && "gender" in tags
  {
    tags["gender"] != "M" && AgeRange(tags["age"]) in BIRTH_AGE_GROUPS
  }

  /** `BirthRule.apply` without the amount. */
  function BirthTarget(tags: Tags): (t: Target)
    ensures !t.Raises?
    ensures t.Skip? <==> !("age" in tags && "gender" in tags && Fertile(tags))
    ensures t.To? ==> t.dest == map["age" := NewbornAge(tags["age"])]
  {
    CheckTagsIsSubset(BIRTH_REQUIRED, tags);
    if !CheckTags(BIRTH_REQUIRED, tags) then Skip
    else if !Fertile(tags) then Skip
    else To(map["age" := NewbornAge(tags["age"])])
  }

  /** `BirthWithRaceRule.apply` without the amount; an unknown race raises in `race_factor[race]`. */
  function BirthWithRaceTarget(tags: Tags): (t: Target)
    ensures t.Skip? <==> !("age" in tags && "gender" in tags && "race" in tags && Fertile(tags))
    ensures t.Raises? <==> !t.Skip? && tags["race"] !in BIRTH_RACES
    ensures t.To? ==> t.dest == map["race" := tags["race"], "age" := NewbornAge(tags["age"])]
  {
    CheckTagsIsSubset(BIRTH_WITH_RACE_REQUIRED, tags);
    if !CheckTags(BIRTH_WITH_RACE_REQUIRED, tags) then Skip
    else if !Fertile(tags) then Skip
    else if tags["race"] !in BIRTH_RACES then Raises
    else To(map["race" := tags["race"], "age" := NewbornAge(tags["age"])])
  }

  // ---------------------------------------------------------------------------
  // NetMigrationRule (generative)

  const NET_MIGRATION_REQUIRED: set<string> := {"race", "age"}

  /** The keys of `base_net_migration_by_age_group`. */
  const NET_MIGRATION_AGE_GROUPS: set<string> :=
    {"0-10", "10-20", "20-30", "30-40", "40-50", "50-60", "60-70", "70-80", "80-90", "90-100"}

  /** The keys of `NetMigrationRule.race_factor`, in their order. */
  const NET_MIGRATION_RACES: seq<string> := ["race1", "race2", "race3"]

  /** Some age of the domain falls in a range that has no base net-migration rate. */
  predicate UnratedAge(ages: seq<string>) {
    exists i :: 0 <= i < |ages| && AgeRange(ages[i]) !in NET_MIGRATION_AGE_GROUPS
  }

  /**
   * `NetMigrationRule.apply(TAGS)`: one contribution per (age, race) pair,
   * age-major, ages from the domain and races from the rule's own table;
   * `amount` stands for `int(base[age range] * race_factor[race])`.  Nothing
   * when the domain lacks `race` or `age`; `None` (KeyError) when an age's
   * range has no base rate.
   */
  function NetMigrationContributions(domain: Domain, amount: (string, string) -> int)
    : (r: Option<seq<(Tags, int)>>)
    ensures !(NET_MIGRATION_REQUIRED <= Names(domain)) ==> r == Some([])
    ensures r.None? <==> NET_MIGRATION_REQUIRED <= Names(domain) && UnratedAge(ValuesOf(domain, "age"))
    ensures r.Some? && NET_MIGRATION_REQUIRED <= Names(domain) ==> |r.value| == |ValuesOf(domain, "age")| * 3
  {
    if !(NET_MIGRATION_REQUIRED <= Names(domain)) then Some([])
    else
      var ages := ValuesOf(domain, "age");
      if UnratedAge(ages) then None
      else
        Some(seq(|ages| * 3, n requires 0 <= n < |ages| * 3 =>
          var age, race := ages[n / 3], NET_MIGRATION_RACES[n % 3];
          (map["age" := age, "race" := race], amount(AgeRange(age), race))))
  }

  /**
   * When it contributes, net migration yields `|TAGS['age']| * 3` contributions,
   * age-major; each condition fixes exactly `age` and `race`.
   */
  lemma NetMigrationShape(domain: Domain, amount: (string, string) -> int, i: nat, j: nat)
    requires NET_MIGRATION_REQUIRED <= Names(domain)
    requires NetMigrationContributions(domain, amount).Some?
    requires i < |ValuesOf(domain, "age")| && j < 3
    ensures var cs := NetMigrationContributions(domain, amount).value;
      var age := ValuesOf(domain, "age")[i];
      |cs| == |ValuesOf(domain, "age")| * 3 &&
      cs[3 * i + j].0 == map["age" := age, "race" := NET_MIGRATION_RACES[j]] &&
      cs[3 * i + j].0.Keys == {"age", "race"} &&
      cs[3 * i + j].1 == amount(AgeRange(age), NET_MIGRATION_RACES[j])
  {
    var ages := ValuesOf(domain, "age");
    var n := 3 * i + j;
    assert n / 3 == i && n % 3 == j;
    assert n < |ages| * 3;
    var cs := NetMigrationContributions(domain, amount).value;
    assert |cs| == |ages| * 3;
    var age, race := ages[i], NET_MIGRATION_RACES[j];
    assert cs[n] == (map["age" := age, "race" := race], amount(AgeRange(age), race));
    assert map["age" := age, "race" := race].Keys == {"age", "race"};
  }
}
