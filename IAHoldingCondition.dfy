/**
 * The `iaholding{i=<namespace:id>}` MythicMobs condition: does the entity
 * hold, in its main hand, the ItemsAdder custom item with the configured
 * namespaced id (compared ignoring case)?
 *
 * The host and library calls the condition makes (entity type test,
 * inventory lookup, `CustomStack.byItemStack`, `getNamespacedID`) are
 * replaced by the fields of a world snapshot taken at evaluation time.
 */
module IAHoldingCondition {
  import opened Wrappers
  import opened JavaStrings

  /** What ItemsAdder reports for a custom stack; its namespaced id may be null. */
  datatype CustomStack = CustomStack(namespacedId: Option<string>)

  /**
   * A Bukkit item stack: whether its material is air, and what
   * `CustomStack.byItemStack` returns for it (None: not an ItemsAdder item).
   */
  datatype ItemStack = ItemStack(isAir: bool, customStack: Option<CustomStack>)

  /** The entity the condition is checked against; `mainHand` is read only for players. */
  datatype Entity = Entity(isPlayer: bool, mainHand: Option<ItemStack>)

  /** A constructed condition: its only state is the final field `requiredIaId`. */
  datatype Condition = Condition(requiredIaId: string)

  /**
   * The constructor: `configured` is what the line config holds under the
   * first of the aliases `i`, `id`, `item` that is present (None when none
   * is); a missing value defaults to "" and the value is trimmed.
   */
  function FromConfig(configured: Option<string>): (c: Condition)
    ensures IsTrimmed(c.requiredIaId) && Trim(c.requiredIaId) == c.requiredIaId
    ensures configured.None? ==> c.requiredIaId == ""
    ensures configured.Some? ==> IsTrimOf(c.requiredIaId, configured.value)
    ensures c.requiredIaId == "" <==> configured.None? || AllTrimmable(configured.value)
  {
    var raw := configured.GetOr("");
    TrimIsTrimOf(raw, Trim(raw));
    TrimEmptyIffBlank(raw);
    TrimIdempotent(raw);
    Condition(Trim(raw))
  }

  /** `check(entity)`: the guard chain, each failing guard answering false. */
  predicate Check(c: Condition, e: Entity) {
    if c.requiredIaId == "" then false
    else if !e.isPlayer then false
    else match e.mainHand
      case None => false
      case Some(item) =>
        if item.isAir then false
        else match item.customStack
          case None => false
          // equalsIgnoreCase(null) is false
          case Some(stack) => match stack.namespacedId
            case None => false
            case Some(heldId) => EqualsIgnoreCase(c.requiredIaId, heldId)
  }

  /** The held ItemsAdder item's namespaced id, when every guard lets it through. */
  function HeldId(e: Entity): Option<string> {
    if e.isPlayer && e.mainHand.Some? && !e.mainHand.value.isAir
       && e.mainHand.value.customStack.Some?
    then e.mainHand.value.customStack.value.namespacedId
    else None
  }

  /**
   * `check` holds exactly when the id is set, the entity is a player
   * holding a non-air ItemsAdder item, and that item's namespaced id
   * equals the configured one up to letter case.
   */
  lemma CheckHoldsIff(c: Condition, e: Entity)
    ensures Check(c, e) <==>
      && c.requiredIaId != ""
      && e.isPlayer
      && e.mainHand.Some? && !e.mainHand.value.isAir
      && e.mainHand.value.customStack.Some?
      && e.mainHand.value.customStack.value.namespacedId.Some?
      && SameIgnoringCase(c.requiredIaId, e.mainHand.value.customStack.value.namespacedId.value)
  {
    var held := HeldId(e);
    if held.Some? {
      EqualsIgnoreCaseIffSame(c.requiredIaId, held.value);
    }
  }

  /** An unset id never matches, whatever the entity holds. */
  lemma EmptyIdNeverHolds(c: Condition, e: Entity)
    requires c.requiredIaId == ""
    ensures !Check(c, e)
  {
  }

  /** A missing or blank configured id never matches, because of the trim. */
  lemma BlankConfigNeverHolds(configured: Option<string>, e: Entity)
    requires configured.None? || AllTrimmable(configured.value)
    ensures !Check(FromConfig(configured), e)
  {
  }

  /** A non-player entity never satisfies the condition. */
  lemma NonPlayerNeverHolds(c: Condition, e: Entity)
    requires !e.isPlayer
    ensures !Check(c, e)
  {
  }

  /** An empty main hand, or one holding air, never satisfies the condition. */
  lemma EmptyHandNeverHolds(c: Condition, e: Entity)
    requires e.mainHand.None? || e.mainHand.value.isAir
    ensures !Check(c, e)
  {
  }

  /** An item that is not an ItemsAdder custom stack never satisfies the condition. */
  lemma NonCustomItemNeverHolds(c: Condition, e: Entity)
    requires e.mainHand.Some? && e.mainHand.value.customStack.None?
    ensures !Check(c, e)
  {
  }

  /** Ids that differ only in letter case give the same answer on every entity. */
  lemma CaseInsensitive(id1: string, id2: string, e: Entity)
    requires SameIgnoringCase(id1, id2)
    ensures Check(Condition(id1), e) == Check(Condition(id2), e)
  {
    CheckHoldsIff(Condition(id1), e);
    CheckHoldsIff(Condition(id2), e);
  }

  /** Configuring the id in a different letter case does not change any answer. */
  lemma ConfigCaseInsensitive(v1: string, v2: string, e: Entity)
    requires EqualsIgnoreCase(v1, v2)
    ensures Check(FromConfig(Some(v1)), e) == Check(FromConfig(Some(v2)), e)
  {
    EqualsIgnoreCaseIffSame(v1, v2);
    TrimSameIgnoringCase(v1, v2);
    CaseInsensitive(Trim(v1), Trim(v2), e);
  }

  /** The two strings have equal length and blank chars at the same positions. */
  ghost predicate SameBlanks(a: string, b: string) {
    |a| == |b| && forall k :: 0 <= k < |a| ==> (IsTrimmable(a[k]) <==> IsTrimmable(b[k]))
  }

  /** Strings with blanks at the same positions are trimmed at the same indices. */
  lemma SameBlanksSameTrimBounds(a: string, b: string)
    requires SameBlanks(a, b)
    ensures TrimStart(a) == TrimStart(b)
    ensures TrimEnd(a, TrimStart(a)) == TrimEnd(b, TrimStart(b))
  {
    var st := TrimStart(a);
    var en := TrimEnd(a, st);
    if st < |a| {
      assert AllTrimmable(b[..st]) by {
        forall k | 0 <= k < st ensures IsTrimmable(b[..st][k]) {
          assert a[..st][k] == a[k];
        }
      }
      TrimStartAt(b, st);
      assert AllTrimmable(b[en..]) by {
        forall k | 0 <= k < |b| - en ensures IsTrimmable(b[en..][k]) {
          assert a[en..][k] == a[en + k];
        }
      }
      TrimEndAt(b, st, en);
    } else {
      assert AllTrimmable(b) by {
        forall k | 0 <= k < |b| ensures IsTrimmable(b[k]) {
          assert a[..st][k] == a[k];
        }
      }
      TrimEmptyIffBlank(b);
    }
  }

  /** Trimming respects case-insensitive equality: case folding never changes trimmability. */
  lemma TrimSameIgnoringCase(a: string, b: string)
    requires SameIgnoringCase(a, b)
    ensures SameIgnoringCase(Trim(a), Trim(b))
  {
    // Case folding only touches letters, all above U+0020.
    assert SameBlanks(a, b) by {
      forall k | 0 <= k < |a| ensures IsTrimmable(a[k]) <==> IsTrimmable(b[k]) {
        FoldCaseKeepsBlank(a[k]);
        FoldCaseKeepsBlank(b[k]);
      }
    }
    SameBlanksSameTrimBounds(a, b);
    var st := TrimStart(a);
    var en := TrimEnd(a, st);
    var ta, tb := Trim(a), Trim(b);
    assert ta == a[st..en] && tb == b[st..en];
    forall k | 0 <= k < |ta| ensures FoldCase(ta[k]) == FoldCase(tb[k]) {
      assert ta[k] == a[st + k] && tb[k] == b[st + k];
    }
  }

  /** A player holding the given ItemsAdder item in the main hand. */
  function PlayerHolding(id: string): Entity {
    Entity(true, Some(ItemStack(false, Some(CustomStack(Some(id))))))
  }

  /** `i=custom:myitem` matches a held `custom:myitem`. */
  lemma ExactIdMatches()
    ensures Check(FromConfig(Some("custom:myitem")), PlayerHolding("custom:myitem"))
  {
    TrimOfTrimmed("custom:myitem");
    EqualsIgnoreCaseReflexive("custom:myitem");
  }

  /** `i=Custom:MyItem` matches a held `custom:myitem`. */
  lemma MixedCaseIdMatches()
    ensures Check(FromConfig(Some("Custom:MyItem")), PlayerHolding("custom:myitem"))
  {
    TrimOfTrimmed("Custom:MyItem");
    assert SameIgnoringCase("Custom:MyItem", "custom:myitem");
    CheckHoldsIff(FromConfig(Some("Custom:MyItem")), PlayerHolding("custom:myitem"));
  }

  /** Blanks around the configured id are ignored: `i=  Custom:MyItem ` still matches. */
  lemma PaddedIdMatches()
    ensures Check(FromConfig(Some("  Custom:MyItem ")), PlayerHolding("custom:myitem"))
  {
    var s := "  Custom:MyItem ";
    TrimStartAt(s, 2);
    TrimEndAt(s, 2, |s| - 1);
    assert s[2..|s| - 1] == "Custom:MyItem";
    assert FromConfig(Some(s)) == FromConfig(Some("Custom:MyItem")) by {
      TrimOfTrimmed("Custom:MyItem");
    }
    MixedCaseIdMatches();
  }

  /**
   * A dotless i (U+0131) in the configured id matches an ASCII `i` in the
   * held id: its upper case is `I`.
   */
  lemma DotlessIMatches()
    ensures Check(FromConfig(Some("custom:\U{0131}tem")), PlayerHolding("custom:item"))
  {
    TrimOfTrimmed("custom:\U{0131}tem");
    assert SameIgnoringCase("custom:\U{0131}tem", "custom:item");
    CheckHoldsIff(FromConfig(Some("custom:\U{0131}tem")), PlayerHolding("custom:item"));
  }

  /** `item=custom:myitem` does not match a held `custom:otheritem`. */
  lemma OtherIdDoesNotMatch()
    ensures !Check(FromConfig(Some("custom:myitem")), PlayerHolding("custom:otheritem"))
  {
    TrimOfTrimmed("custom:myitem");
  }
}
