/**
 * The New York City rules of nyc_simulation.py: its age dimension (five-year
 * bands and '90+'), its `get_next_age`, and the gating and destination logic
 * of `NYCFertilityRule`, `NYCMortalityRule` and `NYCNetMigrationRule`.  Rates
 * are not modelled; the key sets of their tables are, because a missing key
 * raises.
 */
module NycRules {
  import opened Maybe
  import opened Labels
  import opened Cohort
  import opened Rules

  /** `TAGS['age']` of the New York model. */
  const NYC_AGES: seq<string> := [
    "0-4", "5-9", "10-14", "15-19", "20-24", "25-29",
    "30-34", "35-39", "40-44", "45-49", "50-54", "55-59",
    "60-64", "65-69", "70-74", "75-79", "80-84", "85-89",
    "90+"
  ]

  /** The New York `get_next_age`: `lo-hi` becomes `(lo+5)-(lo+9)`, and '85-89' becomes '90+'. */
  function NycNextAge(age: string): Option<string> {
    match ParseNat(Split(age, '-')[0])
    case None => None
    case Some(low) => if low != 85 then Some(Show(low + 5) + "-" + Show(low + 9)) else Some("90+")
  }

  /** The general shape of the New York age step. */
  lemma NycNextAgeOfRange(lo: nat, hi: nat)
    ensures NycNextAge(Show(lo) + "-" + Show(hi)) ==
      Some(if lo == 85 then "90+" else Show(lo + 5) + "-" + Show(lo + 9))
  {
    SplitRangeLabel(lo, hi);
    ParseShow(lo);
  }

  /** Bands 0-4 .. 10-14 are `Show(5j)-Show(5j+4)`. */
  lemma NycAgeLabelBand0(j: nat)
    requires 0 <= j < 3
    ensures NYC_AGES[j] == Show(5 * j) + "-" + Show(5 * j + 4)
  {
    if j == 0 {
      assert Show(0) == "0" && Show(4) == "4";
      assert NYC_AGES[0] == Show(0) + "-" + Show(4);
    } else if j == 1 {
      assert Show(5) == "5" && Show(9) == "9";
      assert NYC_AGES[1] == Show(5) + "-" + Show(9);
    } else if j == 2 {
      assert Show(10) == "10" && Show(14) == "14";
      assert NYC_AGES[2] == Show(10) + "-" + Show(14);
    }
  }

  /** Bands 15-19 .. 25-29 are `Show(5j)-Show(5j+4)`. */
  lemma NycAgeLabelBand15(j: nat)
    requires 3 <= j < 6
    ensures NYC_AGES[j] == Show(5 * j) + "-" + Show(5 * j + 4)
  {
    if j == 3 {
      assert Show(15) == "15" && Show(19) == "19";
      assert NYC_AGES[3] == Show(15) + "-" + Show(19);
    } else if j == 4 {
      assert Show(20) == "20" && Show(24) == "24";
      assert NYC_AGES[4] == Show(20) + "-" + Show(24);
    } else if j == 5 {
      assert Show(25) == "25" && Show(29) == "29";
      assert NYC_AGES[5] == Show(25) + "-" + Show(29);
    }
  }

  /** Bands 30-34 .. 40-44 are `Show(5j)-Show(5j+4)`. */
  lemma NycAgeLabelBand30(j: nat)
    requires 6 <= j < 9
    ensures NYC_AGES[j] == Show(5 * j) + "-" + Show(5 * j + 4)
  {
    if j == 6 {
      assert Show(30) == "30" && Show(34) == "34";
      assert NYC_AGES[6] == Show(30) + "-" + Show(34);
    } else if j == 7 {
      assert Show(35) == "35" && Show(39) == "39";
      assert NYC_AGES[7] == Show(35) + "-" + Show(39);
    } else if j == 8 {
      assert Show(40) == "40" && Show(44) == "44";
      assert NYC_AGES[8] == Show(40) + "-" + Show(44);
    }
  }

  /** Bands 45-49 .. 55-59 are `Show(5j)-Show(5j+4)`. */
  lemma NycAgeLabelBand45(j: nat)
    requires 9 <= j < 12
    ensures NYC_AGES[j] == Show(5 * j) + "-" + Show(5 * j + 4)
  {
    if j == 9 {
      assert Show(45) == "45" && Show(49) == "49";
      assert NYC_AGES[9] == Show(45) + "-" + Show(49);
    } else if j == 10 {
      assert Show(50) == "50" && Show(54) == "54";
      assert NYC_AGES[10] == Show(50) + "-" + Show(54);
    } else if j == 11 {
      assert Show(55) == "55" && Show(59) == "59";
      assert NYC_AGES[11] == Show(55) + "-" + Show(59);
    }
  }

  /** Bands 60-64 .. 70-74 are `Show(5j)-Show(5j+4)`. */
  lemma NycAgeLabelBand60(j: nat)
    requires 12 <= j < 15
    ensures NYC_AGES[j] == Show(5 * j) + "-" + Show(5 * j + 4)
  {
    if j == 12 {
      assert Show(60) == "60" && Show(64) == "64";
      assert NYC_AGES[12] == Show(60) + "-" + Show(64);
    } else if j == 13 {
      assert Show(65) == "65" && Show(69) == "69";
      assert NYC_AGES[13] == Show(65) + "-" + Show(69);
    } else if j == 14 {
      assert Show(70) == "70" && Show(74) == "74";
      assert NYC_AGES[14] == Show(70) + "-" + Show(74);
    }
  }

  /** Bands 75-79 .. 85-89 are `Show(5j)-Show(5j+4)`. */
  lemma NycAgeLabelBand75(j: nat)
    requires 15 <= j < 18
    ensures NYC_AGES[j] == Show(5 * j) + "-" + Show(5 * j + 4)
  {
    if j == 15 {
      assert Show(75) == "75" && Show(79) == "79";
      assert NYC_AGES[15] == Show(75) + "-" + Show(79);
    } else if j == 16 {
      assert Show(80) == "80" && Show(84) == "84";
      assert NYC_AGES[16] == Show(80) + "-" + Show(84);
    } else if j == 17 {
      assert Show(85) == "85" && Show(89) == "89";
      assert NYC_AGES[17] == Show(85) + "-" + Show(89);
    }
  }

  /** Every band but the last is `Show(5j)-Show(5j+4)`. */
  lemma NycAgeLabel(j: nat)
    requires j < 18
    ensures NYC_AGES[j] == Show(5 * j) + "-" + Show(5 * j + 4)
  {
    if j < 3 {
      NycAgeLabelBand0(j);
    } else if j < 6 {
      NycAgeLabelBand15(j);
    } else if j < 9 {
      NycAgeLabelBand30(j);
    } else if j < 12 {
      NycAgeLabelBand45(j);
    } else if j < 15 {
      NycAgeLabelBand60(j);
    } else {
      NycAgeLabelBand75(j);
    }
  }

  /** A band below '85-89' advances to the band five years older. */
  lemma NycNextAgeOfYoungBand(j: nat)
    requires j < 17
    ensures NycNextAge(NYC_AGES[j]) == Some(NYC_AGES[j + 1])
  {
    NycAgeLabel(j);
    NycAgeLabel(j + 1);
    NycNextAgeOfRange(5 * j, 5 * j + 4);
    assert 5 * (j + 1) == 5 * j + 5;
  }

  /** '85-89' advances to '90+'. */
  lemma NycNextAgeOfLastBand()
    ensures NycNextAge("85-89") == Some("90+")
  {
    NycAgeLabel(17);
    NycNextAgeOfRange(85, 89);
  }

  /** Every band but '90+' advances to the next band of `TAGS['age']`. */
  lemma NycNextAgeFollowsTags(j: nat)
    requires j < 18
    ensures NycNextAge(NYC_AGES[j]) == Some(NYC_AGES[j + 1])
  {
    if j < 17 {
      NycNextAgeOfYoungBand(j);
    } else {
      NycNextAgeOfLastBand();
    }
  }

  /** '90+' has no numeric lower bound, so the New York `get_next_age` raises on it. */
  lemma NycNextAgeOfOldest()
    ensures NycNextAge("90+") == None
  {
    SplitNoSeparator("90+", '-');
    assert !IsNumeric("90+") by {
      assert "90+"[2] == '+';
    }
  }

  /** The keys of `firtility_rate`. */
  const FERTILITY_AGES: set<string> :=
    {"15-19", "20-24", "25-29", "30-34", "35-39", "40-44", "45-49"}

  /** The keys of `survival_rate`: every band but '90+'. */
  const SURVIVAL_AGES: set<string> := set j | 0 <= j < 18 :: NYC_AGES[j]

  /** The keys of `net_migration_rate`: every band. */
  const NET_MIGRATION_RATE_AGES: set<string> := set j | 0 <= j < 19 :: NYC_AGES[j]

  /**
   * `NYCFertilityRule.apply` without the amount: a missing `age` or `gender`
   * raises; men and ages outside 15-19 .. 45-49 are skipped; otherwise the
   * newborns go to age '0-4' of every gender.
   */
  function NycFertilityTarget(tags: Tags): (t: Target)
    ensures t.Raises? <==> !("age" in tags && "gender" in tags)
    ensures t.Skip? <==> ("age" in tags && "gender" in tags &&
      (tags["gender"] == "M" || tags["age"] !in FERTILITY_AGES))
    ensures t.To? ==> t.dest == map["age" := "0-4"]
  {
    if "age" !in tags || "gender" !in tags then Raises
    else if tags["gender"] == "M" || tags["age"] !in FERTILITY_AGES then Skip
    else To(map["age" := "0-4"])
  }

  /**
   * `NYCMortalityRule.apply` without the amount: '90+' is skipped; an age
   * with no survival rate raises; otherwise the survivors keep every tag and
   * move to the next age band.
   */
  function NycMortalityTarget(tags: Tags): (t: Target)
    ensures t.Skip? <==> "age" in tags && tags["age"] == "90+"
    ensures t.Raises? <==> ("age" !in tags ||
      (tags["age"] != "90+" && (tags["age"] !in SURVIVAL_AGES || NycNextAge(tags["age"]).None?)))
    ensures t.To? ==> tags["age"] in SURVIVAL_AGES
    ensures t.To? ==> "age" in tags && "age" in t.dest && Some(t.dest["age"]) == NycNextAge(tags["age"])
    ensures t.To? ==> t.dest.Keys == tags.Keys && t.dest - {"age"} == tags - {"age"}
  {
    if "age" !in tags then Raises
    else
      var age := tags["age"];
      if age == "90+" then Skip
      else if age !in SURVIVAL_AGES then Raises
      else match NycNextAge(age)
        case None => Raises
        case Some(older) => To(tags["age" := older])
  }

  /**
   * `NYCNetMigrationRule.apply` without the amount: the migrants of a cohort
   * go back to that same cohort.
   */
  function NycNetMigrationTarget(tags: Tags): (t: Target)
    ensures t.Raises? <==> !("age" in tags && tags["age"] in NET_MIGRATION_RATE_AGES)
    ensures t.To? ==> t.dest == tags
    ensures !t.Skip?
  {
    if "age" !in tags || tags["age"] !in NET_MIGRATION_RATE_AGES then Raises
    else To(tags)
  }

  /**
   * For every cohort whose age is a band of `TAGS['age']`, the three New York
   * rules never raise: the survival table covers every band but '90+' and the
   * net migration table covers all nineteen.
   */
  lemma NycRulesTotalOnBands(tags: Tags, j: nat)
    requires j < 19 && "age" in tags && tags["age"] == NYC_AGES[j] && "gender" in tags
    ensures !NycFertilityTarget(tags).Raises?
    ensures !NycMortalityTarget(tags).Raises?
    ensures NycMortalityTarget(tags).To? ==> NycMortalityTarget(tags).dest["age"] == NYC_AGES[j + 1]
    ensures NycNetMigrationTarget(tags) == To(tags)
  {
    if j < 18 {
      assert NYC_AGES[j] in SURVIVAL_AGES;
      NycNextAgeFollowsTags(j);
    }
    assert NYC_AGES[j] in NET_MIGRATION_RATE_AGES;
  }
}
