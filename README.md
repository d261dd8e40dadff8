# IAHolding condition, modelled in Dafny

IAHolding is a MythicMobs add-on. It adds one skill condition,
`iaholding{i=<namespace:id>}`. The condition holds when the entity is a player
whose main hand holds the ItemsAdder custom item with that namespaced id. The
ids are compared ignoring letter case.

This project models the condition class `IAHoldingCondition`:

- **Construction** (`IAHoldingCondition.FromConfig`). The constructor reads the
  configured id. A missing id becomes `""`. The value is trimmed as Java's
  `String.trim()` trims it, and the result is stored in the final field
  `requiredIaId` (the `Condition` datatype).
- **Evaluation** (`IAHoldingCondition.Check`). `check(entity)` is a chain of
  guards, and each failing guard answers `false`:
  1. the configured id is empty;
  2. the entity is not a player;
  3. the main hand is empty or holds air;
  4. the item is not an ItemsAdder custom stack.

  If every guard passes, the answer is `equalsIgnoreCase` between the
  configured id and the item's namespaced id. A null namespaced id gives `false`.

The host and library calls become plain data, in an `Entity` snapshot taken at
evaluation time:

- `isPlayer` stands for `entity.isPlayer()`.
- `mainHand` stands for `getItemInMainHand()`; `None` is a null stack.
- `ItemStack.isAir` stands for `getType().isAir()`.
- `ItemStack.customStack` stands for `CustomStack.byItemStack`; `None` is null.
- `CustomStack.namespacedId` stands for `getNamespacedID()`; `None` is null.

The two `java.lang.String` operations are modelled in module `JavaStrings`:

- `Trim` follows the JDK's two-index scan (`TrimStart`, `TrimEnd`). It is
  proved equal to an independent description, `IsTrimOf`.
- `EqualsIgnoreCase` follows `regionMatches(true, ...)`. A pair of chars
  matches when the chars are equal, equal after upper-casing, or equal after
  lower-casing the upper-cased chars. It is proved equal to an independent
  description, `SameIgnoringCase`: the two strings agree once every char is
  case-folded (upper-cased, then lower-cased, as the last of the three tests
  does).

`Check` is a Dafny function and the condition's only field never changes. So
repeated checks of the same condition on the same snapshot give the same
answer, and a check changes nothing. This holds by construction, so no lemma
states it.

Files: `Wrappers.dfy` (Option), `JavaStrings.dfy`, `IAHoldingCondition.dfy`.

## Model

| member | source | states |
|---|---|---|
| `JavaStrings.TrimStart` | src/main/java/org/daengsik/mythicaddons/conditions/IAHoldingCondition.java:50 | trim's forward scan stops at the first char above U+0020; every char before it is at most U+0020 |
| `JavaStrings.TrimEnd` | src/main/java/org/daengsik/mythicaddons/conditions/IAHoldingCondition.java:50 | trim's backward scan never passes the start index; every char after it is at most U+0020, and the char before it is above U+0020 |
| `JavaStrings.Trim` | src/main/java/org/daengsik/mythicaddons/conditions/IAHoldingCondition.java:50 | the trimmed string is no longer than the input, and neither of its ends is a char at most U+0020 |
| `JavaStrings.TrimStartAt` | src/main/java/org/daengsik/mythicaddons/conditions/IAHoldingCondition.java:50 | if the chars before index i are all blank and the char at i is not, the forward scan stops exactly at i |
| `JavaStrings.TrimEndAt` | src/main/java/org/daengsik/mythicaddons/conditions/IAHoldingCondition.java:50 | if the chars from j on are all blank and the char before j is not, the backward scan stops exactly at j |
| `JavaStrings.TrimIsTrimOf` | src/main/java/org/daengsik/mythicaddons/conditions/IAHoldingCondition.java:50 | a string is the trim of s if and only if it is the infix of s left after removing only blank chars at both ends, and its own ends are not blank |
| `JavaStrings.TrimSatisfiesIsTrimOf` | src/main/java/org/daengsik/mythicaddons/conditions/IAHoldingCondition.java:50 | the value trim returns is an infix of the input with only blank chars removed at both ends, and its own ends are not blank |
| `JavaStrings.TrimmedInfixIsTrim` | src/main/java/org/daengsik/mythicaddons/conditions/IAHoldingCondition.java:50 | an infix with non-blank ends, between a blank prefix and a blank suffix, is exactly what trim returns |
| `JavaStrings.IsTrimOfUnique` | src/main/java/org/daengsik/mythicaddons/conditions/IAHoldingCondition.java:50 | there is only one such infix, and trim returns it |
| `JavaStrings.TrimIdempotent` | src/main/java/org/daengsik/mythicaddons/conditions/IAHoldingCondition.java:50 | trimming an already trimmed value changes nothing |
| `JavaStrings.TrimOfTrimmed` | src/main/java/org/daengsik/mythicaddons/conditions/IAHoldingCondition.java:50 | a string whose ends are not blank is its own trim |
| `JavaStrings.TrimEmptyIffBlank` | src/main/java/org/daengsik/mythicaddons/conditions/IAHoldingCondition.java:50 | trim gives "" exactly when every char of the input is at most U+0020 |
| `JavaStrings.CharEqualsIgnoreCase` | src/main/java/org/daengsik/mythicaddons/conditions/IAHoldingCondition.java:102 | one char step of equalsIgnoreCase: equal, or equal upper-cased, or equal upper-cased then lower-cased; `CharEqualsIgnoreCaseIffFold` proves this is equality of the folded chars |
| `JavaStrings.CharEqualsIgnoreCaseIffFold` | src/main/java/org/daengsik/mythicaddons/conditions/IAHoldingCondition.java:102 | the three-way char test of equalsIgnoreCase holds exactly when the two chars are equal after upper-casing then lower-casing |
| `JavaStrings.FoldCaseKeepsBlank` | src/main/java/org/daengsik/mythicaddons/conditions/IAHoldingCondition.java:102 | case folding never turns a char above U+0020 into one at or below it, or the reverse |
| `JavaStrings.RegionMatchesIgnoreCase` | src/main/java/org/daengsik/mythicaddons/conditions/IAHoldingCondition.java:102 | the region comparison inside equalsIgnoreCase, char by char from the first; `EqualsIgnoreCaseIffSame` proves it accepts exactly the equal-length pairs that agree after folding every char |
| `JavaStrings.EqualsIgnoreCase` | src/main/java/org/daengsik/mythicaddons/conditions/IAHoldingCondition.java:102 | `requiredIaId.equalsIgnoreCase(heldId)` for a non-null held id: equal lengths and a matching region; `EqualsIgnoreCaseIffSame` proves it equals the reference definition, and the reflexive, symmetric and transitive lemmas follow |
| `JavaStrings.EqualsIgnoreCaseIffSame` | src/main/java/org/daengsik/mythicaddons/conditions/IAHoldingCondition.java:102 | equalsIgnoreCase holds exactly when the strings have equal length and agree char by char after case folding |
| `JavaStrings.EqualsIgnoreCaseReflexive` | src/main/java/org/daengsik/mythicaddons/conditions/IAHoldingCondition.java:102 | every id equals itself ignoring case |
| `JavaStrings.EqualsIgnoreCaseSymmetric` | src/main/java/org/daengsik/mythicaddons/conditions/IAHoldingCondition.java:102 | comparing the configured id with the held id gives the same answer as the reverse comparison |
| `JavaStrings.EqualsIgnoreCaseTransitive` | src/main/java/org/daengsik/mythicaddons/conditions/IAHoldingCondition.java:102 | case-insensitive equality is transitive |
| `IAHoldingCondition.FromConfig` | src/main/java/org/daengsik/mythicaddons/conditions/IAHoldingCondition.java:50 | the stored id is trimmed (no blank char at either end, and trimming it again changes nothing); a missing parameter gives ""; a present one gives exactly its trim; the id is "" exactly when the parameter is missing or blank |
| `IAHoldingCondition.Check` | src/main/java/org/daengsik/mythicaddons/conditions/IAHoldingCondition.java:70-103 | `check(entity)`: the four guards in source order, each answering false, then equalsIgnoreCase against the held id, false for a null id; `CheckHoldsIff` proves exactly when it holds |
| `IAHoldingCondition.CheckHoldsIff` | src/main/java/org/daengsik/mythicaddons/conditions/IAHoldingCondition.java:70-103 | check is true exactly when the id is non-empty, the entity is a player, a non-air item is in the main hand, it is a custom stack with a non-null namespaced id, and that id equals the configured one after case folding |
| `IAHoldingCondition.EmptyIdNeverHolds` | src/main/java/org/daengsik/mythicaddons/conditions/IAHoldingCondition.java:72-74 | an empty configured id gives false for every entity and item |
| `IAHoldingCondition.BlankConfigNeverHolds` | src/main/java/org/daengsik/mythicaddons/conditions/IAHoldingCondition.java:72-74 | a missing or whitespace-only configured id gives false for every entity, because it is trimmed to "" at construction |
| `IAHoldingCondition.NonPlayerNeverHolds` | src/main/java/org/daengsik/mythicaddons/conditions/IAHoldingCondition.java:77-79 | a non-player entity gives false whatever the id and the held item |
| `IAHoldingCondition.EmptyHandNeverHolds` | src/main/java/org/daengsik/mythicaddons/conditions/IAHoldingCondition.java:85-90 | a null main-hand stack or an air stack gives false |
| `IAHoldingCondition.NonCustomItemNeverHolds` | src/main/java/org/daengsik/mythicaddons/conditions/IAHoldingCondition.java:93-96 | an item that is not an ItemsAdder custom stack gives false |
| `IAHoldingCondition.CaseInsensitive` | src/main/java/org/daengsik/mythicaddons/conditions/IAHoldingCondition.java:102 | two stored ids that agree after case folding give the same answer for every entity |
| `IAHoldingCondition.SameBlanksSameTrimBounds` | src/main/java/org/daengsik/mythicaddons/conditions/IAHoldingCondition.java:50 | two strings with blank chars at the same positions are trimmed at the same start and end indices |
| `IAHoldingCondition.TrimSameIgnoringCase` | src/main/java/org/daengsik/mythicaddons/conditions/IAHoldingCondition.java:50 | trimming two values that differ only in letter case gives two results that differ only in letter case |
| `IAHoldingCondition.ConfigCaseInsensitive` | src/main/java/org/daengsik/mythicaddons/conditions/IAHoldingCondition.java:102 | two configured values that are equalsIgnoreCase build conditions that give the same answer for every entity |
| `IAHoldingCondition.ExactIdMatches` | src/main/java/org/daengsik/mythicaddons/conditions/IAHoldingCondition.java:70-103 | `i=custom:myitem` holds for a player holding `custom:myitem` |
| `IAHoldingCondition.MixedCaseIdMatches` | src/main/java/org/daengsik/mythicaddons/conditions/IAHoldingCondition.java:70-103 | `i=Custom:MyItem` holds for a player holding `custom:myitem` |
| `IAHoldingCondition.PaddedIdMatches` | src/main/java/org/daengsik/mythicaddons/conditions/IAHoldingCondition.java:50 | `i=  Custom:MyItem ` is trimmed and holds for a player holding `custom:myitem` |
| `IAHoldingCondition.DotlessIMatches` | src/main/java/org/daengsik/mythicaddons/conditions/IAHoldingCondition.java:102 | a configured `custom:ıtem` (dotless i) holds for a player holding `custom:item`, because the upper case of ı is I |
| `IAHoldingCondition.OtherIdDoesNotMatch` | src/main/java/org/daengsik/mythicaddons/conditions/IAHoldingCondition.java:70-103 | `item=custom:myitem` does not hold for a player holding `custom:otheritem` |

## Left out

- `IAHolding.java`, the plugin class, is not modelled. It contains the
  lifecycle hooks (`onEnable`, `onDisable`), the checks that the MythicMobs
  and ItemsAdder plugins are present, logging, and `registerConditions`.
  `registerConditions` makes a single call to MythicMobs' `registerCondition`
  and has no logic of its own. Its factory lambda calls a one-argument
  constructor, but `IAHoldingCondition` only declares the two-argument one.
- Resolving the aliases `i`, `id`, `item` inside `MythicLineConfig.getString`
  is host-library behaviour. The model's input is the looked-up value: `None`
  when no alias is present. The model does not say which alias wins when
  several are present.
- The Bukkit entity and inventory calls and the ItemsAdder calls
  (`CustomStack.byItemStack`, `getNamespacedID`) are foreign. They are
  replaced by the fields of the `Entity` snapshot. The snapshot is taken at
  evaluation time and never cached.
- Case mapping (`JavaStrings.ToUpperCase`, `JavaStrings.ToLowerCase`): only the
  chars whose Java upper or lower case is an ASCII letter are mapped. These are
  the ASCII letters, dotless i (U+0131, upper case `I`), long s (U+017F, upper
  case `S`), capital I with dot above (U+0130, lower case `i`) and the Kelvin
  sign (U+212A, lower case `k`). Java's `Character.toUpperCase` and
  `Character.toLowerCase` cover all of Unicode. So the model treats two ids
  that differ only in the case of other non-ASCII letters (`é`/`É`, `ß`/`ẞ`) as
  different, where Java treats them as equal. This affects both the
  configured id and the held id. `SameIgnoringCase` and
  `CharEqualsIgnoreCaseIffFold` are stated over the same fold that Java's last
  test uses, upper-case then lower-case, and the proof of the latter does not
  depend on the mapping. So the reference definition also holds for a full
  case mapping.
- Java strings are UTF-16. Supplementary characters, as surrogate pairs, are
  not modelled. A Dafny `char` is one Unicode scalar value.
- The `SkillCondition` superclass and the host's rule interpreter are not
  modelled, and neither is their threading. The condition itself holds no
  mutable state.
