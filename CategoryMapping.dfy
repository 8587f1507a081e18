/** The Chinese-to-English category tables of the three article writers and the
    normalisation that reads them: a table lookup, then (for two of them) a check against
    the list of valid English categories, then the default `travel`. */
module CategoryMapping {
  import opened Wrappers

  /** A JS object literal used as a dictionary, as its key/value pairs in source order. */
  type Table = seq<(string, string)>

  /** `table[key]`: the value of the last pair with that key, as a repeated key in an
      object literal overrides the earlier one. */
  function Lookup(table: Table, key: string): (r: Option<string>)
    ensures r.Some? <==> exists p <- table :: p.0 == key
    ensures r.Some? ==> (key, r.value) in table
  {
    if |table| == 0 then None
    else
      var init := table[..|table| - 1];
      if table[|table| - 1].0 == key then Some(table[|table| - 1].1)
      else
        assert table == init + [table[|table| - 1]];
        Lookup(init, key)
  }

  /** Pairs appended with other keys do not change a lookup. */
  lemma {:induction false} LookupAppendMiss(a: Table, b: Table, key: string)
    requires forall p <- b :: p.0 != key
    ensures Lookup(a + b, key) == Lookup(a, key)
    decreases |b|
  {
    if |b| > 0 {
      var b' := b[..|b| - 1];
      assert (a + b)[..|a + b| - 1] == a + b';
      assert (a + b)[|a + b| - 1] == b[|b| - 1];
      assert b[|b| - 1] in b;
      assert forall p <- b' :: p in b;
      LookupAppendMiss(a, b', key);
    } else {
      assert a + b == a;
    }
  }

  /** `VALID_CATEGORIES` of the two writers that check it (their lists are identical). */
  const ValidCategories: set<string> := {
    "taipei-food", "taipei-attractions",
    "newtaipei-food", "newtaipei-attractions",
    "taoyuan-food", "taoyuan-attractions",
    "hsinchu-food", "hsinchu-attractions",
    "miaoli-food", "miaoli-attractions",
    "taichung-food", "taichung-attractions",
    "nantou-food", "nantou-attractions",
    "yilan-food", "yilan-attractions",
    "keelung-food", "keelung-attractions",
    "tainan-food", "tainan-attractions",
    "kaohsiung-food", "kaohsiung-attractions",
    "travel", "food", "parenting", "life", "hotel"
  }

  /** The regional part shared by all three tables. */
  const RegionalTable: Table := [
    ("台北美食", "taipei-food"), ("台北景點", "taipei-attractions"),
    ("新北美食", "newtaipei-food"), ("新北市美食", "newtaipei-food"),
    ("新北景點", "newtaipei-attractions")
  ]

  const NorthTable: Table := [
    ("桃園美食", "taoyuan-food"), ("桃園景點", "taoyuan-attractions"),
    ("新竹美食", "hsinchu-food"), ("新竹景點", "hsinchu-attractions"),
    ("苗栗美食", "miaoli-food"), ("苗栗景點", "miaoli-attractions")
  ]

  const MiddleTable: Table := [
    ("台中美食", "taichung-food"), ("台中景點", "taichung-attractions"),
    ("南投美食", "nantou-food"), ("南投景點", "nantou-attractions"),
    ("宜蘭美食", "yilan-food"), ("宜蘭景點", "yilan-attractions")
  ]

  const SouthTable: Table := [
    ("基隆美食", "keelung-food"), ("基隆景點", "keelung-attractions"),
    ("台南美食", "tainan-food"), ("台南景點", "tainan-attractions"),
    ("高雄美食", "kaohsiung-food"), ("高雄景點", "kaohsiung-attractions")
  ]

  /** The rows from 桃園 to 高雄, shared by all three tables. */
  const CentralTable: Table := NorthTable + MiddleTable + SouthTable

  const GeneralTable: Table := [
    ("旅遊", "travel"), ("美食", "food"), ("親子", "parenting"), ("生活", "life"),
    ("住宿", "hotel"), ("保健食品", "life"), ("居家好物", "life")
  ]

  /** `CATEGORY_MAPPING` of the command-line writer. */
  const AddArticleTable: Table :=
    RegionalTable + [("新北市景點", "newtaipei-attractions")] + CentralTable + GeneralTable
    + [("滋補養身食品", "food")]

  /** `CATEGORY_MAPPING` of the HTTP writer: the command-line table plus `創作`. */
  const ApiTable: Table := AddArticleTable + [("創作", "life")]

  /** `CATEGORY_MAPPING` of the sync server: no `新北市景點` and no `滋補養身食品`, but
      `創作` and a `default` entry. */
  const SyncTable: Table := SyncNamedTable + [("default", "travel")]

  /** The sync server's rows before its `default` entry. */
  const SyncNamedTable: Table := RegionalTable + CentralTable + GeneralTable + [("創作", "life")]

  /** Every value of the table is a valid category. */
  predicate ValuesValid(t: Table) {
    forall p <- t :: p.1 in ValidCategories
  }

  /** Every key of the table starts with a character outside ASCII. */
  predicate WideKeys(t: Table) {
    forall p <- t :: |p.0| > 0 && p.0[0] >= '\U{80}'
  }

  /** Every valid category starts with an ASCII character. */
  lemma ValidAscii()
    ensures forall v <- ValidCategories :: |v| > 0 && v[0] < '\U{80}'
  {
  }

  lemma RegionalFacts() ensures ValuesValid(RegionalTable) && WideKeys(RegionalTable) { }
  lemma NorthFacts() ensures ValuesValid(NorthTable) && WideKeys(NorthTable) { }
  lemma MiddleFacts() ensures ValuesValid(MiddleTable) && WideKeys(MiddleTable) { }
  lemma SouthFacts() ensures ValuesValid(SouthTable) && WideKeys(SouthTable) { }
  lemma GeneralFacts() ensures ValuesValid(GeneralTable) && WideKeys(GeneralTable) { }

  /** Both facts carry over to a concatenation of tables. */
  lemma ConcatFacts(a: Table, b: Table)
    requires ValuesValid(a) && WideKeys(a) && ValuesValid(b) && WideKeys(b)
    ensures ValuesValid(a + b) && WideKeys(a + b)
  {
  }

  lemma SingleFacts(k: string, v: string)
    requires |k| > 0 && k[0] >= '\U{80}' && v in ValidCategories
    ensures ValuesValid([(k, v)]) && WideKeys([(k, v)])
  {
  }

  /** The two writers that check validity map only to valid categories, from keys that
      are never valid categories themselves. */
  lemma ApiTableFacts()
    ensures ValuesValid(AddArticleTable) && WideKeys(AddArticleTable)
    ensures ValuesValid(ApiTable) && WideKeys(ApiTable)
  {
    RegionalFacts(); NorthFacts(); MiddleFacts(); SouthFacts(); GeneralFacts();
    ConcatFacts(NorthTable, MiddleTable);
    ConcatFacts(NorthTable + MiddleTable, SouthTable);
    var extra1: Table := [("新北市景點", "newtaipei-attractions")];
    var extra2: Table := [("滋補養身食品", "food")];
    var extra3: Table := [("創作", "life")];
    SingleFacts("新北市景點", "newtaipei-attractions");
    SingleFacts("滋補養身食品", "food");
    SingleFacts("創作", "life");
    ConcatFacts(RegionalTable, extra1);
    ConcatFacts(RegionalTable + extra1, CentralTable);
    ConcatFacts(RegionalTable + extra1 + CentralTable, GeneralTable);
    ConcatFacts(RegionalTable + extra1 + CentralTable + GeneralTable, extra2);
    ConcatFacts(AddArticleTable, extra3);
  }

  // ---------------------------------------------------------------------------
  // normalisation

  /** `normalizeCategory` of the command-line and HTTP writers: a truthy mapped value,
      else the category itself when it is valid, else `travel`. */
  function NormalizeChecked(table: Table, category: string): string {
    var m := Lookup(table, category);
    if m.Some? && m.value != "" then m.value
    else if category in ValidCategories then category
    else "travel"
  }

  /** The result is always a valid category. */
  lemma NormalizeCheckedValid(table: Table, category: string)
    requires ValuesValid(table)
    ensures NormalizeChecked(table, category) in ValidCategories
  {
  }

  /** A key of the table gives its value; a valid category that is no key is kept; any
      other string gives `travel`. */
  lemma NormalizeCheckedCases(table: Table, category: string)
    requires ValuesValid(table)
    ensures Lookup(table, category).Some? ==> NormalizeChecked(table, category) == Lookup(table, category).value
    ensures Lookup(table, category).None? && category in ValidCategories ==> NormalizeChecked(table, category) == category
    ensures Lookup(table, category).None? && category !in ValidCategories ==> NormalizeChecked(table, category) == "travel"
  {
    var m := Lookup(table, category);
    if m.Some? {
      assert m.value in ValidCategories by { assert (category, m.value) in table; }
      ValidAscii();
    }
  }

  /** A table whose keys all start outside ASCII has no valid category as a key. */
  lemma {:induction false} WideKeysMissValid(table: Table, v: string)
    requires WideKeys(table) && v in ValidCategories
    ensures Lookup(table, v).None?
  {
    ValidAscii();
  }

  /** Normalising twice is normalising once. */
  lemma NormalizeCheckedIdempotent(table: Table, category: string)
    requires ValuesValid(table) && WideKeys(table)
    ensures NormalizeChecked(table, NormalizeChecked(table, category)) == NormalizeChecked(table, category)
  {
    var once := NormalizeChecked(table, category);
    NormalizeCheckedValid(table, category);
    WideKeysMissValid(table, once);
  }

  /** `normalizeCategory` of the sync server: a truthy mapped value, else the value of the
      `default` entry. There is no check against the valid categories. */
  function NormalizeSync(category: string): string {
    var m := Lookup(SyncTable, category);
    if m.Some? && m.value != "" then m.value
    else var d := Lookup(SyncTable, "default"); if d.Some? then d.value else ""
  }

  /** The sync server's fallback is `travel`, and an English category such as
      `taipei-food` is not passed through but falls back to it. */
  lemma NormalizeSyncFallback(category: string)
    requires |category| > 0 && category[0] < '\U{80}' && category[0] != 'd'
    ensures NormalizeSync(category) == "travel"
  {
    SyncNamedWide();
    LookupAppendMiss(SyncNamedTable, [("default", "travel")], category);
  }

  lemma SyncNamedWide()
    ensures WideKeys(SyncNamedTable)
  {
    RegionalFacts(); NorthFacts(); MiddleFacts(); SouthFacts(); GeneralFacts();
    ConcatFacts(NorthTable, MiddleTable);
    ConcatFacts(NorthTable + MiddleTable, SouthTable);
    ConcatFacts(RegionalTable, CentralTable);
    ConcatFacts(RegionalTable + CentralTable, GeneralTable);
    SingleFacts("創作", "life");
    ConcatFacts(RegionalTable + CentralTable + GeneralTable, [("創作", "life")]);
  }
}
