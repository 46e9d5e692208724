# tag_ccm in Dafny

A model of the tagged cohort-component engine of tag_ccm and of the rules
that drive it.

A population is split into cohorts (`Block`s). A cohort is identified by a
tag assignment such as `{'age': '20-30', 'gender': 'F'}`. `TAGS` declares
the dimensions and their values. The engine (`TagCCM`) keeps two structures:

- a pool of cohorts keyed by canonical key;
- an inverted index from (dimension, value) to the keys that carry it.

It advances the simulation in double-buffered steps. Every transfer rule runs
over the cohorts that its `apply_to` condition selects. It reads each cohort's
committed population `current` and asks for a contribution to a destination
condition. The contribution is split by floor division over every full
assignment that the condition expands to, and cohorts are created when
missing. Generative rules then add their own contributions. A commit finally
makes `max(0, next)` the new population and clears `next`.

Modules, one concern each:

- `Labels` (labels.dfy): decimal labels: `str.isnumeric`, `int`, `str`,
  `str.split`.
- `Cohort` (cohort.dfy): tags, `TAGS`, the canonical key and its inverse, and
  the class `Block` (block.py). A key is the list of (name, value) pairs in
  strictly increasing name order. This is the content of
  `json.dumps(..., sort_keys=True)` without the JSON syntax.
- `Rules` (rule.dfy): `get_next_age`, `get_age_range`, `check_tags` and the
  gating and destination logic of the rule.py rules.
- `NycRules` (nyc_rules.dfy): the same for the New York rules of
  nyc_simulation.py.
- `Protocol` (protocol.dfy): rules as data. A transfer rule is one closed
  datatype, dispatched on its kind. It carries its `apply_to` condition and
  the amount it moves, given as a function of the cohort's population and
  tags.
- `Expansion` (expansion.dfy): `permutate_blocks_by_filter` as a function,
  with its size, order and agreement properties.
- `Accumulation` (accumulation.dfy): a step as functions on the map from key
  to `(current, next)`. These functions are `contribute`, one transfer rule,
  the transfer phase, the generative phase, the commit, `_step` and
  `step(n)`.
- `Received` (received.dfy): what one step credits to each cohort. It is
  summed from the populations at the start of the step, independently of
  the order in which the pool is updated. The committed population of a
  cohort is `max(0, next + that sum)`.
- `Engine` (tag_ccm.dfy): the class `TagCCM` with its pool and index, and
  its methods. Each method updates state in place, and each is proved to
  compute the function of `Accumulation` or `Expansion` that specifies it.
  The abstract state is `Populations()`, which holds the `current` and `next`
  of every pooled block. `Valid()` is the engine invariant: every block sits
  under its own canonical key, and the index is exact.

Errors that Python raises are modelled as results, not preconditions. The
constructor, `deserialize` and `NetMigrationRule.apply` return `None`. A
rule that raises produces the target `Raises`. `filter` returns `None` for a
dimension outside `TAGS`. `_step` and `step` return `false`.

## Model

| member | source | states |
|---|---|---|
| Labels.ParseNat | rule.py:5-6 | `int(s)` succeeds exactly on a non-empty string of digits |
| Labels.Show | rule.py:6 | `str(n)` is a numeral; it starts with '0' only for 0 |
| Labels.ParseShow | rule.py:6 | reading back `str(n)` gives `n` |
| Labels.Split | rule.py:7 | `split` always yields at least one part, and no part contains the separator |
| Labels.SplitNoSeparator | nyc_simulation.py:35 | a string without the separator splits into itself alone |
| Labels.SplitAtFirst | rule.py:7 | splitting at the first separator gives the prefix, then the parts of the rest |
| Labels.SplitRangeLabel | rule.py:7 | a label `lo-hi` splits on '-' into exactly `[lo, hi]` |
| Cohort.NamesCount | block.py:21 | with distinct names, `len(TAGS)` is the number of dimension names |
| Cohort.ValuesOfAt | rule.py:150 | `TAGS[name]` finds the values of the one dimension with that name |
| Cohort.BelowTotal | block.py:16 | `sort_keys` order is total on names |
| Cohort.BelowTransitive | block.py:16 | `sort_keys` order is transitive |
| Cohort.MinName | block.py:16 | the first name in sorted order is in the set and below every other name |
| Cohort.ToTags | block.py:20 | `json.loads` of a key has exactly the names the key lists |
| Cohort.Serialize | block.py:15-16 | `Block.serialize`; no ensures of its own: SerializeSpec, SortedKeyIsSerialized and SerializeInjective state its properties |
| Cohort.SerializeSpec | block.py:14-16 | the canonical key is sorted by name, has one pair per tag, and reads back as the tags |
| Cohort.SortedKeyIsSerialized | block.py:14-16 | a sorted key is the key of the tags it denotes, so the key depends on the pairs alone, not on insertion order |
| Cohort.SerializeInjective | block.py:14-16 | two tag maps have the same key if and only if they are equal |
| Cohort.ParseKey | block.py:19-23 | the tags of a key are accepted exactly when their number equals `len(TAGS)`, and are then the key's tags |
| Cohort.DeserializeRoundTrip | block.py:18-23 | deserializing the key of tags with the arity of `TAGS` gives those tags back |
| Cohort.DeserializeChecksOnlyArity | block.py:20-23 | the key of any tags, whatever their names and values, is accepted, with those tags, exactly when there is one tag per dimension, and raises otherwise |
| Cohort.Block.constructor | block.py:6-9 | a new block has the given tags and population, and `next == 0` |
| Cohort.Block.KeyOf | block.py:15-16 | `Block.serialize(block)` is the key of the block's tags; no ensures of its own: see Cohort.SerializeSpec |
| Cohort.Block.Deserialize | block.py:18-23 | raises exactly when the arity differs from `len(TAGS)`; otherwise a new block with the key's tags, `current == 0` and `next == 0` |
| Rules.NextAge | rule.py:4-8 | `get_next_age`; no ensures of its own: NextAgeOfNumber and NextAgeOfRange state its results |
| Rules.AgeRange | rule.py:10-14 | `get_age_range`; no ensures of its own: AgeRangeOfNumber and AgeRangeOfRange state its results |
| Rules.CheckTags | rule.py:26-27 | `check_tags`; no ensures of its own: CheckTagsIsSubset states it |
| Rules.RangeLabelNotNumeric | rule.py:5 | a label `lo-hi` is never numeric |
| Rules.NextAgeOfNumber | rule.py:4-6 | `get_next_age(str(n)) == str(n + 1)` |
| Rules.NextAgeOfRange | rule.py:7-8 | `get_next_age('lo-hi') == 'hi-(hi+10)'` |
| Rules.AgeRangeOfNumber | rule.py:10-13 | a numeric age `i` maps to `'(i - i%10)-(i - i%10 + 10)'` |
| Rules.AgeRangeOfRange | rule.py:14 | a range label is its own age range |
| Rules.AgeLabelExamples | rule.py:4-14 | `'0-10'` advances to `'10-20'`, `'9'` to `'10'`, and `'37'` lies in `'30-40'` |
| Rules.CheckTagsIsSubset | rule.py:25-27 | `check_tags` holds if and only if the required tags are among the block's dimensions |
| Rules.MortalityTarget | rule.py:54-62 | skips if and only if `age` is missing or terminal; raises if and only if `age` is present and not terminal and its age range is not in the rate table or has no next age; otherwise it moves, only `age` changes, to `get_next_age(age)`, and the age range is in the rate table |
| Rules.BirthTarget | rule.py:76-85 | never raises; skips if and only if a required tag is missing, the gender is 'M' or the age range is not fertile; otherwise the destination is `{'age': '0' or '0-10'}` |
| Rules.BirthWithRaceTarget | rule.py:106-115 | the same gating, also requiring `race`; raises if and only if an applicable cohort's race has no factor; otherwise the destination fixes exactly `race` and `age` |
| Rules.NetMigrationContributions | rule.py:141-151 | `[]` when `race` or `age` is not a dimension; raises if and only if both are present and some age's range has no base rate; otherwise `len(TAGS['age']) * 3` contributions, also when there are no ages |
| Rules.NetMigrationShape | rule.py:145-151 | `len(TAGS['age']) * 3` contributions, age-major; races come from the rule's table; each condition fixes exactly `age` and `race` |
| NycRules.NycNextAge | nyc_simulation.py:34-36 | `get_next_age` of the New York rules; no ensures of its own: NycNextAgeOfRange, NycNextAgeOfLastBand, NycNextAgeOfOldest and NycNextAgeFollowsTags state its results |
| NycRules.NycNextAgeOfRange | nyc_simulation.py:34-36 | `'lo-hi'` advances to `'(lo+5)-(lo+9)'`, and to `'90+'` when `lo == 85` |
| NycRules.NycAgeLabel | nyc_simulation.py:10-28 | band `j` of `TAGS['age']` below '90+' is `'5j-(5j+4)'` |
| NycRules.NycNextAgeOfYoungBand | nyc_simulation.py:10-36 | every band below '85-89' advances to the next band of the list |
| NycRules.NycNextAgeOfLastBand | nyc_simulation.py:34-36 | `get_next_age('85-89') == '90+'` |
| NycRules.NycNextAgeFollowsTags | nyc_simulation.py:10-36 | every band but '90+' advances to the next label of `TAGS['age']` |
| NycRules.NycNextAgeOfOldest | nyc_simulation.py:34-35 | `get_next_age('90+')` raises |
| NycRules.NycFertilityTarget | nyc_simulation.py:42-58 | raises if and only if `age` or `gender` is missing; skips if and only if the gender is 'M' or the age has no fertility rate; otherwise the destination is `{'age': '0-4'}` only |
| NycRules.NycMortalityTarget | nyc_simulation.py:64-92 | skips if and only if the age is '90+'; raises if and only if `age` is missing, or is not '90+' and has no survival rate (or no next band); otherwise the age has a survival rate and only `age` changes, to `get_next_age(age)` |
| NycRules.NycNetMigrationTarget | nyc_simulation.py:99-125 | raises if and only if the age has no migration rate; otherwise the destination is the cohort's own tags |
| NycRules.NycRulesTotalOnBands | nyc_simulation.py:64-119 | for every age of `TAGS['age']`, none of the three rules raises, and mortality moves a cohort to the next band |
| Expansion.Extend | tag_ccm.py:51-55 | one breadth-first round; no ensures of its own: ExtendSize, ExtendIndex, ExtendMember and ExtendComplete state it |
| Expansion.Expand | tag_ccm.py:45-55 | the assignments `permutate_blocks_by_filter` builds; no ensures of its own: ExpandSize, ExpandOrder, ExpandSound, ExpandComplete and ExpandAgreement state them |
| Expansion.ExpandKeys | tag_ccm.py:45-56 | the keys `permutate_blocks_by_filter` returns; no ensures of its own: ExpandKeysParse and ExpandKeysIgnoreForeign state them |
| Expansion.ExtendSize | tag_ccm.py:51-55 | one breadth-first round multiplies the number of assignments by the number of values |
| Expansion.ExtendIndex | tag_ccm.py:52-54 | within a round, the old assignment varies slowest and the value fastest |
| Expansion.ExtendMember | tag_ccm.py:51-55 | every assignment of a round is an old one extended by one allowed value |
| Expansion.ExtendComplete | tag_ccm.py:51-55 | every old assignment extended by every allowed value is produced |
| Expansion.ExpandSize | tag_ccm.py:45-55 | the number of assignments is the product of `len(TAGS[d])` over the dimensions the condition leaves free |
| Expansion.FullySpecified | tag_ccm.py:45-55 | a condition fixing every dimension expands to exactly one assignment |
| Expansion.ExpandOrder | tag_ccm.py:47-55 | the expansion is dimension-major in `TAGS` order |
| Expansion.ExpandSound | tag_ccm.py:47-55 | every expanded assignment has the dimensions seen so far, each with an allowed value |
| Expansion.ExpandComplete | tag_ccm.py:47-55 | every assignment with those dimensions and allowed values is expanded |
| Expansion.ExpandAgreement | tag_ccm.py:47-55 | an assignment is expanded if and only if it has exactly the dimensions of `TAGS`, with the fixed value where the condition fixes one and a declared value elsewhere |
| Expansion.ExpandFixes | tag_ccm.py:49-50 | on a fixed dimension every expanded assignment takes the condition's value |
| Expansion.ExpandIgnoresForeign | tag_ccm.py:48-50 | conditions allowing the same values per dimension expand alike |
| Expansion.ExpandKeysIgnoreForeign | tag_ccm.py:45-56 | condition entries outside `TAGS` do not change the keys |
| Expansion.ExpandKeysParse | tag_ccm.py:56-62 | every expanded key is sorted, reads back as its assignment, has one entry per dimension, and passes the arity check of `deserialize` |
| Accumulation.Distribute | tag_ccm.py:60-63 | `contribute`'s loop over the destinations; no ensures of its own: DistributeSnoc, DistributeAt and DistributeFacts state it |
| Accumulation.ShareFloors | tag_ccm.py:63 | the share is Python's floor division: `n` shares never exceed the amount and fall short of it by less than `n` |
| Accumulation.DistributeSnoc | tag_ccm.py:60-63 | proof step: crediting one more destination raises only that destination's `next` by the share, creating it empty if missing |
| Accumulation.DistributeAt | tag_ccm.py:58-63 | after the loop, each key exists if and only if it existed or is a destination, and its `next` rose by one share per occurrence |
| Accumulation.DistributeFacts | tag_ccm.py:58-63 | the loop keeps every `current`, creates missing cohorts at 0, and leaves non-destinations unchanged |
| Accumulation.Credit | tag_ccm.py:58-63 | `contribute`: every expanded key exists afterwards; new ones have `current == 0`; each destination's `next` rises by `amount // n`; nothing else changes; with no destinations nothing changes |
| Accumulation.CreditCommutes | tag_ccm.py:58-63 | two contributions give the same populations in either order |
| Accumulation.GrowsTransitive | tag_ccm.py:61-63 | proof step: growing the pool twice is growing it |
| Accumulation.EffectFrozen | tag_ccm.py:65-72 | while a step only adds to accumulators, every rule reads the population each cohort had at the start of the step |
| Accumulation.ApplyRuleAt | tag_ccm.py:69-72 | one `rule.apply` and its `contribute` only grow the pool, and fail if and only if the rule raises |
| Accumulation.AtBoth | tag_ccm.py:68-72 | a rule applied to two cohorts gives the same outcome in either order |
| Accumulation.RuleOverSet | tag_ccm.py:67-72 | one rule over the selected cohorts only grows the pool |
| Accumulation.RuleOverSetPick | tag_ccm.py:68 | any selected cohort can be visited last, so the order in which `filter` lists blocks does not matter |
| Accumulation.RuleOverSetFails | tag_ccm.py:67-72 | once the rule raises for one cohort, the outcome is a failure whatever else is visited |
| Accumulation.MatchingEmpty | tag_ccm.py:35-38 | proof step, one case of `filter`: `filter({})` selects every pooled cohort |
| Accumulation.MatchingUnindexed | tag_ccm.py:35-38 | proof step, one case of `filter`: a pair carried by no cohort selects nothing |
| Accumulation.TransferOne | tag_ccm.py:67-72 | one transfer rule fails when its condition names a dimension outside `TAGS`; otherwise it only grows the pool |
| Accumulation.AccTransfer | tag_ccm.py:66-72 | the transfer rules in list order only grow the pool and keep every `current` |
| Accumulation.AccTransferFrom | tag_ccm.py:67-72 | the transfer phase from rule `r` on is rule `r`, then the rest |
| Accumulation.DistributeAll | tag_ccm.py:76-77 | one generative rule's contributions only grow the pool and keep every `current` |
| Accumulation.DistributeAllFrom | tag_ccm.py:76-77 | the contributions from the `c`-th on are that one, then the rest |
| Accumulation.AccGenerative | tag_ccm.py:73-77 | the generative rules in list order only grow the pool, and fail if one raises |
| Accumulation.AccGenerativeFrom | tag_ccm.py:74-77 | the generative phase from rule `g` on is rule `g`, then the rest |
| Accumulation.Commit | tag_ccm.py:79-80 | the commit keeps the keys and leaves every cohort with `next == 0` and `current >= 0` |
| Accumulation.StepSpec | tag_ccm.py:65-80 | after `_step` the pool has kept every key, and every cohort, old or new, has `next == 0` and `current >= 0`; Received.StepValue states each cohort's value |
| Accumulation.StepN | tag_ccm.py:82-84 | `step(n)` with `n <= 0` changes nothing, and the pool never loses a key |
| Accumulation.StepNCompose | tag_ccm.py:82-84 | `step(a + b)` is `step(a)` followed by `step(b)`, so `step(n)` is `n` calls of `_step` |
| Accumulation.StepNSettles | tag_ccm.py:79-84 | after at least one step every cohort has `next == 0` and `current >= 0` |
| Accumulation.StepWithoutRules | tag_ccm.py:79-80 | a population is not kept: with no rules, every cohort falls to 0 |
| Received.CreditKeys | tag_ccm.py:58-63 | `contribute` creates exactly the missing targets of its contribution |
| Received.CreditValue | tag_ccm.py:58-63 | `contribute` raises each cohort's `next` by exactly the gain of its contribution: the share times the cohort's multiplicity among the destinations |
| Received.SetGainPick | tag_ccm.py:68 | what a rule credits from the selected cohorts is the same sum whichever cohort is counted first |
| Received.AtKeyEffect | tag_ccm.py:68-72 | a rule applied at a cohort during the step acts as it would on the populations at the start of the step |
| Received.AtKeyKeys | tag_ccm.py:69-72 | one `apply` and its `contribute` create exactly the targets of the cohort's starting effect |
| Received.AtKeyValue | tag_ccm.py:69-72 | one `apply` and its `contribute` add exactly the gain of the cohort's starting effect |
| Received.RuleOverSetKeys | tag_ccm.py:67-72 | one transfer rule over the selected cohorts creates exactly the cohorts their starting effects credit |
| Received.RuleOverSetValue | tag_ccm.py:67-72 | one transfer rule over the selected cohorts adds to each cohort the sum of the gains of their starting effects, in any visiting order |
| Received.AccTransferKeys | tag_ccm.py:66-72 | the transfer phase creates exactly the cohorts `TransferKeys` adds; each rule selects among the cohorts the earlier rules left |
| Received.AccTransferValue | tag_ccm.py:66-72 | the transfer phase adds to each cohort exactly `TransferGain`, the summed gains of all transfer rules |
| Received.DistributeAllKeys | tag_ccm.py:76-77 | one generative rule's contributions create exactly the cohorts they credit |
| Received.DistributeAllValue | tag_ccm.py:76-77 | one generative rule's contributions add to each cohort the sum of their gains |
| Received.AccGenerativeKeys | tag_ccm.py:73-77 | the generative phase creates exactly the cohorts its rules' contributions credit |
| Received.AccGenerativeValue | tag_ccm.py:73-77 | the generative phase adds to each cohort exactly `GenerativeGain` |
| Received.CommitAt | tag_ccm.py:79-80 | the commit keeps the keys, sets a cohort's population to `max(0, next)` and clears `next` |
| Received.StepValue | tag_ccm.py:65-80 | after `_step` the cohorts are the starting ones plus every cohort the step credited; each one's population is `max(0, next + what the transfer and generative rules credited to it)`, the credits being computed from the populations at the start of the step; `next` is 0 |
| Protocol.TargetOf | tag_ccm.py:69 | the dispatch of `rule.apply` to the rule's kind; no ensures of its own: each kind's target function states its outcome |
| Protocol.ApplyTransfer | tag_ccm.py:69-72 | `rule.apply(block)` with its amount; no ensures of its own: the target functions state the destination, Accumulation.ApplyRuleAt its effect |
| Protocol.ApplyGenerative | tag_ccm.py:75 | `rule.apply(self.TAGS)`; no ensures of its own: Rules.NetMigrationContributions and Rules.NetMigrationShape state it |
| Engine.Indexed | tag_ccm.py:43 | `block_filter[t][v].add(key)` adds `key` under `(t, v)` and nothing else |
| Engine.IndexOneMore | tag_ccm.py:40-43 | indexing a new key under each of its pairs keeps the index exact |
| Engine.CanonicalInsert | tag_ccm.py:41 | pooling a block under its own key keeps every block under its canonical key |
| Engine.RegisterLastWins | tag_ccm.py:28-29 | the constructor pools every block, and a key holds the last block registered under it |
| Engine.ExpandedDestinations | tag_ccm.py:59-62 | every key `contribute` may create names a full cohort of `TAGS` |
| Engine.DistributeStep | tag_ccm.py:60-63 | one more round of `contribute`'s loop is one more destination credited |
| Engine.TagCCM.Init | tag_ccm.py:22-26 | an empty pool, an empty index entry per dimension, and the invariant |
| Engine.TagCCM.Admit | tag_ccm.py:28-29 | one round of the constructor's loop registers the next block, or fails exactly when that block uses a dimension outside `TAGS` |
| Engine.TagCCM.AdmitAll | tag_ccm.py:28-29 | the constructor's loop succeeds if and only if every block uses only dimensions of `TAGS`, and then pools the blocks registered in order |
| Engine.TagCCM.Create | tag_ccm.py:15-29 | raises if and only if a block uses a dimension outside `TAGS`; otherwise a fresh, valid engine whose pool is the blocks registered in order |
| Engine.TagCCM.NewBlock | tag_ccm.py:40-43 | pools the block under its key, replacing any block there, and keeps the index exact; a dimension outside `TAGS` is an error |
| Engine.TagCCM.Pool | tag_ccm.py:41-43 | a block whose dimensions are in `TAGS` is pooled under its canonical key, replacing any block there, and the engine stays valid |
| Engine.TagCCM.IndexUnder | tag_ccm.py:42-43 | adds the key under each pair of the tags and changes nothing else |
| Engine.TagCCM.MatchingKeys | tag_ccm.py:35-37 | the intersection is exactly the pooled keys whose tags carry every pair of the condition |
| Engine.TagCCM.Filter | tag_ccm.py:31-38 | fails if and only if the condition names a dimension outside `TAGS`; otherwise it lists each matching pooled block exactly once |
| Engine.TagCCM.BlocksOf | tag_ccm.py:38 | the listed blocks are the pooled blocks of the key set, each once |
| Engine.TagCCM.ExtendRound | tag_ccm.py:51-55 | one breadth-first round computes `Extend` |
| Engine.TagCCM.PermutateBlocksByFilter | tag_ccm.py:45-56 | returns exactly the keys of the expansion, in order |
| Engine.TagCCM.Contribute | tag_ccm.py:58-63 | the new populations are `Credit` of the old ones; the pool only grows; new blocks are fresh |
| Engine.TagCCM.CreditEach | tag_ccm.py:60-63 | the loop credits each destination in order with `population // n` |
| Engine.TagCCM.CreditAt | tag_ccm.py:61-63 | one round of the loop extends the credited prefix by one destination |
| Engine.TagCCM.CreditKey | tag_ccm.py:61-63 | a missing destination is created empty, then its `next` rises by the amount; no other cohort changes |
| Engine.TagCCM.CreateMissing | tag_ccm.py:61-62 | afterwards the destination is pooled; a missing one is added with both populations 0 and no other cohort changes |
| Engine.TagCCM.CreateAbsent | tag_ccm.py:61-62 | a destination not yet pooled is added as a new block with both populations 0; no other cohort changes |
| Engine.TagCCM.Revive | tag_ccm.py:62 | `Block.deserialize` of a key naming every dimension of `TAGS` does not raise, and gives a new block with the key's tags and both populations 0 |
| Engine.TagCCM.Bump | tag_ccm.py:63 | the destination's `next` rises by the amount; no other population changes |
| Engine.PopsOfInsert | tag_ccm.py:41 | pooling a block under a key sets that key's populations to the block's and leaves the other keys' alone |
| Engine.TagCCM.TransferRuleStep | tag_ccm.py:67-72 | one transfer rule computes `TransferOne`, and fails exactly when it fails |
| Engine.TagCCM.TransferEach | tag_ccm.py:68-72 | the loop over the filtered blocks computes `RuleOverSet` over the selected keys, and fails exactly when it fails |
| Engine.TagCCM.TransferAt | tag_ccm.py:69-72 | one block: `rule.apply` on its tags and current population, then the requested `contribute` |
| Engine.TagCCM.TransferPhase | tag_ccm.py:66-72 | the transfer loop computes `AccTransfer`, and fails exactly when it fails |
| Engine.TagCCM.GenerativeRuleStep | tag_ccm.py:74-77 | one generative rule fails exactly when `apply` raises; otherwise its contributions are credited in order |
| Engine.TagCCM.ContributeAll | tag_ccm.py:76-77 | the contributions are credited in list order |
| Engine.TagCCM.GenerativePhase | tag_ccm.py:73-77 | the generative loop computes `AccGenerative`, and fails exactly when it fails |
| Engine.TagCCM.CommitPhase | tag_ccm.py:79-80 | every block gets `current := max(0, next)` and `next := 0`; the pool and index do not change |
| Engine.TagCCM.Committed | tag_ccm.py:79-80 | once every block is committed, the populations are `Commit` of the old ones |
| Engine.TagCCM.StepOnce | tag_ccm.py:65-80 | `_step` computes `StepSpec`, and fails exactly when a filter or a rule raises |
| Engine.TagCCM.Step | tag_ccm.py:82-84 | `step(times)` computes `StepN`, and fails exactly when one `_step` fails; `step()`, with its default `times=1`, is `Step(1)` |

## Left out

- Rule amounts are not computed. Every rule's rate arithmetic is floating point (`int(current * rate)` and the like). It is replaced by an integer-valued function that the rule carries: `TransferRule.amount(current, tags)` and `NetMigration.amount(age range, race)`. Only the key sets of the rate tables are modelled, because a missing key raises.
- The New York net-migration amount at nyc_simulation.py:124 is a float that is never truncated. `population // len(to_blocks)` at tag_ccm.py:63 floors it, so every credited share is integer-valued, only of float type. An integer amount function equal to that floor gives the same shares; the model does not capture the float type itself.
- `str.isnumeric`, `int` and `str` are modelled on ASCII decimal digits only. There are no other Unicode digits, no signs and no whitespace.
- The canonical key keeps the content of `json.dumps(..., sort_keys=True)`: the name-sorted (name, value) pairs. It does not keep JSON syntax or escaping. Names are ordered by code point, which is the order `sort_keys` uses.
- Engine.TagCCM.NewBlock: a block with a dimension outside `TAGS` leaves the engine unchanged. Python pools the block, indexes some of its pairs and only then raises. The constructor, the only caller that can meet such a block, fails as a whole in both.
- Engine.TagCCM.Filter: `block_filter[tag][value]` on a value never indexed inserts an empty set into the defaultdict. The model reads it as empty and does not record it; nothing else reads the index in a way that could tell.
- Engine.TagCCM.Filter: the order of the returned blocks is arbitrary in the model, as a Python set's iteration order is. `RuleOverSetPick` shows that the outcome does not depend on it.
- Engine.TagCCM.CommitPhase: blocks are committed in an arbitrary order, not in dict order. Each block is committed independently, so the order does not change the result.
- Engine.TagCCM.StepOnce, Engine.TagCCM.Step: when a rule raises, Python leaves the accumulators partly updated and propagates the exception. The model returns `false` and states only that the engine stays valid and the pool has only grown, not the partial populations.
- `TagCCM.print_blocks`, `Block.__repr__`, nyc_simulation.py's `main()` and demo.py are output and scripted scenarios. They are not modelled.
- Python's dispatch on rule classes is replaced by the closed datatype `Protocol.TransferKind`. `GenerativeRule` has one variant, `NetMigrationRule`.
