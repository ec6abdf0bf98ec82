/**
 * Category labels and the category-1 subcategory aliases: `getCategoryName`,
 * `normalizeSubcategoryName` and `getSubcategoryLabel`.
 */
module Categories {
  import opened Wrappers
  import opened Text

  /** Category 0 is "category not defined"; 1..5 are the five boxes. */
  predicate ValidCategory(c: int) {
    0 <= c <= 5
  }

  const UndefinedLabel: string := "Категория не определена"

  /** `getCategoryName`: the label of 1..5, and the "not defined" label for 0
      and for every number outside the table (the `??` default). */
  function CategoryName(category: int): (r: string)
    ensures r == UndefinedLabel <==> !(1 <= category <= 5)
  {
    if category == 1 then "Обязательные"
    else if category == 2 then "Безопасность"
    else if category == 3 then "Простые радости"
    else if category == 4 then "Эго-радости"
    else if category == 5 then "Доступность простых радостей"
    else UndefinedLabel
  }

  const WorkKey: string := "work"
  const HomeKey: string := "home"
  const WorkAliases: seq<string> := ["work", "работа", "rabota"]
  const HomeAliases: seq<string> := ["home", "дом", "doma"]

  /** The comparison form of a name: trimmed and lower-cased. */
  function AliasTag(name: string): string {
    Lower(Trim(name))
  }

  /** `normalizeSubcategoryName`. `None` stands for `null`/`undefined` and for a
      value that is not a string; the empty string is falsy and also gives
      `None`. In category 1 the work and home aliases become the canonical
      keys; every other name is trimmed. */
  function NormalizeSubcategoryName(category: int, name: Option<string>): (r: Option<string>)
    ensures r.None? <==> name.None? || name.value == []
    ensures r.Some? ==> IsTrimmed(r.value)
  {
    match name
    case None => None
    case Some(s) =>
      if s == [] then None
      else
        var n := AliasTag(s);
        if category == 1 && n in WorkAliases then
          TrimOfKey(WorkKey);
          Some(WorkKey)
        else if category == 1 && n in HomeAliases then
          TrimOfKey(HomeKey);
          Some(HomeKey)
        else
          Some(Trim(s))
  }

  /** What a present name normalises to: the work key for a category-1 work
      alias, the home key for a category-1 home alias, otherwise the trimmed
      name; only a blank name gives the empty string. */
  lemma NormalizeMeaning(category: int, s: string)
    requires s != []
    ensures var r := NormalizeSubcategoryName(category, Some(s)).value;
      (category == 1 && AliasTag(s) in WorkAliases ==> r == WorkKey) &&
      (category == 1 && AliasTag(s) in HomeAliases ==> r == HomeKey) &&
      (category != 1 || (AliasTag(s) !in WorkAliases && AliasTag(s) !in HomeAliases) ==> r == Trim(s)) &&
      (r == [] <==> IsBlank(s))
  {
    var n := AliasTag(s);
    AliasListsDisjoint();
    if category == 1 && n in WorkAliases {
      assert !IsBlank(s);
    } else if category == 1 && n in HomeAliases {
      assert !IsBlank(s);
    }
  }

  lemma TrimOfKey(k: string)
    requires k == WorkKey || k == HomeKey
    ensures Trim(k) == k && AliasTag(k) == k
  {
    KeyTrimmed(k);
    KeyLower(k);
  }

  lemma KeyTrimmed(k: string)
    requires k == WorkKey || k == HomeKey
    ensures Trim(k) == k
  {
    if k == WorkKey {
      assert k[0] == 'w' && k[3] == 'k';
    } else {
      assert k[0] == 'h' && k[3] == 'e';
    }
    TrimTrimmed(k);
  }

  lemma KeyLower(k: string)
    requires k == WorkKey || k == HomeKey
    ensures Lower(k) == k
  {
    if k == WorkKey {
      assert k == ['w', 'o', 'r', 'k'];
      assert Lower(k) == [LowerChar('w'), LowerChar('o'), LowerChar('r'), LowerChar('k')];
    } else {
      assert k == ['h', 'o', 'm', 'e'];
      assert Lower(k) == [LowerChar('h'), LowerChar('o'), LowerChar('m'), LowerChar('e')];
    }
  }

  /** The canonical keys are aliases of themselves. */
  lemma KeysAreAliases()
    ensures AliasTag(WorkKey) in WorkAliases && AliasTag(WorkKey) !in HomeAliases
    ensures AliasTag(HomeKey) in HomeAliases && AliasTag(HomeKey) !in WorkAliases
  {
    TrimOfKey(WorkKey);
    TrimOfKey(HomeKey);
    assert WorkAliases[0] == WorkKey && HomeAliases[0] == HomeKey;
    AliasListsDisjoint();
  }

  /** No name is both a work and a home alias: their first letters differ. */
  lemma AliasListsDisjoint()
    ensures forall a :: a in WorkAliases ==> a !in HomeAliases
  {
    assert forall a :: a in WorkAliases ==> a != [] && (a[0] == 'w' || a[0] == '\U{0440}' || a[0] == 'r');
    assert forall b :: b in HomeAliases ==> b != [] && (b[0] == 'h' || b[0] == '\U{0434}' || b[0] == 'd');
  }

  /** Normalising a name that normalises to a non-empty name changes nothing
      further. */
  lemma NormalizeIdempotent(category: int, name: Option<string>)
    requires NormalizeSubcategoryName(category, name).Some?
    requires NormalizeSubcategoryName(category, name).value != []
    ensures NormalizeSubcategoryName(category, NormalizeSubcategoryName(category, name)) ==
            NormalizeSubcategoryName(category, name)
  {
    var r := NormalizeSubcategoryName(category, name);
    var s := name.value;
    if r.value == WorkKey || r.value == HomeKey {
      TrimOfKey(r.value);
      KeysAreAliases();
      if category != 1 {
        TrimIdempotent(s);
      }
    } else {
      assert r.value == Trim(s);
      TrimIdempotent(s);
    }
  }

  /** Idempotence fails on white space alone: `"  "` normalises to `""`, which
      normalises to `null`. */
  lemma NormalizeBlankNotIdempotent()
    ensures NormalizeSubcategoryName(2, Some("  ")) == Some("")
    ensures NormalizeSubcategoryName(2, Some("")) == None
  {
    assert TrimStart("  ") == [];
  }

  /** `getSubcategoryLabel`: `""` for a missing or empty key; in category 1 the
      keys `work`/`home` (exactly) and the Russian words (in any case) get
      their Russian display names; everything else is shown as it is. */
  function SubcategoryLabel(category: int, key: Option<string>): (r: string)
    ensures r == [] <==> key.None? || key.value == []
    ensures key.Some? && key.value != [] && category != 1 ==> r == key.value
    ensures key.Some? && category == 1 && (key.value == WorkKey || Lower(key.value) == "работа") ==> r == "Работа"
    ensures (key.Some? && category == 1 && key.value != WorkKey && Lower(key.value) != "работа" &&
             (key.value == HomeKey || Lower(key.value) == "дом")) ==> r == "Дом"
    ensures (key.Some? && key.value != [] && category == 1 && key.value != WorkKey && key.value != HomeKey &&
             Lower(key.value) != "работа" && Lower(key.value) != "дом") ==> r == key.value
  {
    match key
    case None => []
    case Some(k) =>
      if k == [] then []
      else if category == 1 && k == WorkKey then "Работа"
      else if category == 1 && k == HomeKey then "Дом"
      else if category == 1 && Lower(k) == "работа" then "Работа"
      else if category == 1 && Lower(k) == "дом" then "Дом"
      else k
  }

  /** Every category-1 alias of work or home, in any case and with any
      surrounding white space, is displayed under its Russian name once it is
      normalised. */
  lemma LabelOfNormalized(name: string)
    requires AliasTag(name) in WorkAliases + HomeAliases
    ensures AliasTag(name) in WorkAliases ==>
      SubcategoryLabel(1, NormalizeSubcategoryName(1, Some(name))) == "Работа"
    ensures AliasTag(name) in HomeAliases ==>
      SubcategoryLabel(1, NormalizeSubcategoryName(1, Some(name))) == "Дом"
  {
    assert AliasTag([]) == [] by {
      assert Trim([]) == [];
    }
    NormalizeMeaning(1, name);
    AliasListsDisjoint();
    assert HomeKey != WorkKey by {
      assert HomeKey[0] != WorkKey[0];
    }
  }

  /** The label is not normalised itself: an upper-case key or a Latin alias is
      shown as typed. */
  lemma LabelNotCanonical()
    ensures SubcategoryLabel(1, Some("WORK")) == "WORK"
    ensures SubcategoryLabel(1, Some("rabota")) == "rabota"
    ensures SubcategoryLabel(1, Some("ДОМ")) == "Дом"
  {
    assert Lower("WORK") == "work";
    assert Lower("rabota") == "rabota";
    assert Lower("ДОМ") == "дом";
  }
}
