/** The sidebar category hierarchy of the blog: thirteen parent categories, each with a
    slug and a list of Pixnet subcategory names, the reverse subcategory map built from
    it, the slug lookup with its keyword fallback, the inverse name lookup, the legacy
    keyword helpers and the deprecated post categoriser. */
module Categories {
  import opened Wrappers
  import opened Text

  /** The sidebar slugs: the string literal union `SidebarCategorySlug`. */
  datatype Slug =
    | DomesticFood | DomesticTravel | DomesticHotel | ForeignTravel | Fashion | Unboxing
    | Parenting | Wedding | Lifestyle | Investment | Arduino | Tools | Other

  /** The text of a slug, as it appears in URLs. */
  function SlugText(s: Slug): string {
    match s
    case DomesticFood => "domestic-food"
    case DomesticTravel => "domestic-travel"
    case DomesticHotel => "domestic-hotel"
    case ForeignTravel => "foreign-travel"
    case Fashion => "fashion"
    case Unboxing => "unboxing"
    case Parenting => "parenting"
    case Wedding => "wedding"
    case Lifestyle => "lifestyle"
    case Investment => "investment"
    case Arduino => "arduino"
    case Tools => "tools"
    case Other => "other"
  }

  /** One parent category: its name, its slug and its subcategories. */
  datatype Entry = Entry(name: string, slug: Slug, subcategories: seq<string>)

  /** `PIXNET_CATEGORY_HIERARCHY`, in the order `Object.entries` lists it. */
  const Hierarchy: seq<Entry> := [
    Entry("國內美食", DomesticFood, FoodSubcategories),
    Entry("國內旅遊", DomesticTravel, TravelSubcategories),
    Entry("國內住宿", DomesticHotel, HotelSubcategories),
    Entry("國外旅遊", ForeignTravel, ForeignSubcategories),
    Entry("時尚流行", Fashion, ["包款推薦", "鞋款/手錶推薦", "美容美髮"]),
    Entry("開箱", Unboxing, UnboxingSubcategories),
    Entry("親子育兒", Parenting, ["月子中心推薦", "育兒好物"]),
    Entry("婚禮大小事", Wedding, ["婚禮活動", "婚紗攝影"]),
    Entry("生活綜合", Lifestyle, LifestyleSubcategories),
    Entry("股票投資/房地產", Investment, ["建案賞屋心得", "投資經濟學"]),
    Entry("Arduino應用", Arduino, ["教學", "DIY"]),
    Entry("實用的工具網站", Tools, ["實用的工具", "電影評論"]),
    Entry("其他", Other, ["好康", "未分類文章"])
  ]

  const FoodSubcategories: seq<string> :=
    ["台北美食", "新北市美食", "基隆美食", "桃園美食", "新竹美食", "苗栗美食",
     "台中美食", "南投美食", "彰化美食", "台南美食", "雲林美食", "宜蘭美食",
     "花蓮美食", "台東美食", "甜點分享"]
  const TravelSubcategories: seq<string> :=
    ["新北市景點", "台北景點", "基隆景點", "宜蘭景點", "新竹景點", "桃園景點",
     "苗栗景點", "台中景點", "彰化景點", "台南景點", "花蓮景點", "征服小百岳全紀錄", "展覽"]
  const HotelSubcategories: seq<string> :=
    ["烏來住宿", "基隆住宿", "板橋住宿", "桃園住宿", "宜蘭住宿", "花蓮住宿",
     "台南住宿", "台中住宿", "南投住宿", "彰化住宿", "台東住宿"]
  const ForeignSubcategories: seq<string> :=
    ["2025香港自由行", "2016年4月-香港.澳門員工旅遊", "2025沖繩親子自由行",
     "2019年2月-日本北海道跟團遊", "2019年5月-中國湖北"]
  const UnboxingSubcategories: seq<string> :=
    ["滋補養身食品", "宅配伴手禮", "保健食品", "居家好物", "孕媽咪日記", "鍋具"]
  const LifestyleSubcategories: seq<string> :=
    ["懶人減肥法", "居家生活", "英文線上課程", "韓式照相館", "數位生活", "創作", "食譜分享"]

  // ---------------------------------------------------------------------------
  // lookups in the hierarchy

  /** The first entry at or after `k` named `name`: the entry `hierarchy[name]` selects. */
  function FindParent(entries: seq<Entry>, name: string, k: nat): (r: Option<nat>)
    ensures r.Some? ==> k <= r.value < |entries| && entries[r.value].name == name
    ensures r.Some? ==> forall j | k <= j < r.value :: entries[j].name != name
    ensures r.None? ==> forall j | k <= j < |entries| :: entries[j].name != name
    decreases |entries| - k
  {
    if k >= |entries| then None
    else if entries[k].name == name then Some(k)
    else FindParent(entries, name, k + 1)
  }

  /** Parent names are pairwise distinct (they are the keys of one object literal). */
  predicate DistinctNames(entries: seq<Entry>) {
    forall i, j | 0 <= i < j < |entries| :: entries[i].name != entries[j].name
  }

  /** Slugs are pairwise distinct. */
  predicate DistinctSlugs(entries: seq<Entry>) {
    forall i, j | 0 <= i < j < |entries| :: entries[i].slug != entries[j].slug
  }

  /** With distinct names, an entry's own name finds that entry. */
  lemma FindOwnName(entries: seq<Entry>, i: nat)
    requires DistinctNames(entries) && i < |entries|
    ensures FindParent(entries, entries[i].name, 0) == Some(i)
  {
  }

  /** A fingerprint of a name: its length, its first two characters and its last one. */
  function NameKey(s: string): (int, char, char, char) {
    if |s| < 2 then (|s|, ' ', ' ', ' ') else (|s|, s[0], s[1], s[|s| - 1])
  }

  /** The fingerprints of the hierarchy's names, in order. */
  const NameKeys: seq<(int, char, char, char)> :=
    [(4, '國', '內', '食'), (4, '國', '內', '遊'), (4, '國', '內', '宿'), (4, '國', '外', '遊'),
     (4, '時', '尚', '行'), (2, '開', '箱', '箱'), (4, '親', '子', '兒'), (5, '婚', '禮', '事'),
     (4, '生', '活', '合'), (8, '股', '票', '產'), (9, 'A', 'r', '用'), (7, '實', '用', '站'),
     (2, '其', '他', '他')]

  lemma NameKeysOfHierarchy()
    ensures |NameKeys| == |Hierarchy|
    ensures forall i | 0 <= i < |Hierarchy| :: NameKey(Hierarchy[i].name) == NameKeys[i]
  {
  }

  lemma NameKeysDistinct()
    ensures forall i, j | 0 <= i < j < |NameKeys| :: NameKeys[i] != NameKeys[j]
  {
  }

  /** The hierarchy's names are distinct, because their fingerprints are. */
  lemma HierarchyNamesDistinct()
    ensures DistinctNames(Hierarchy)
  {
    NameKeysOfHierarchy();
    NameKeysDistinct();
    forall i, j | 0 <= i < j < |Hierarchy| ensures Hierarchy[i].name != Hierarchy[j].name {
      assert NameKey(Hierarchy[i].name) != NameKey(Hierarchy[j].name);
    }
  }

  /** The position of a slug in the hierarchy. */
  function SlugOrdinal(s: Slug): nat {
    match s
    case DomesticFood => 0 case DomesticTravel => 1 case DomesticHotel => 2
    case ForeignTravel => 3 case Fashion => 4 case Unboxing => 5 case Parenting => 6
    case Wedding => 7 case Lifestyle => 8 case Investment => 9 case Arduino => 10
    case Tools => 11 case Other => 12
  }

  /** The hierarchy's slugs are distinct: each sits at its own ordinal. */
  lemma HierarchySlugsDistinct()
    ensures DistinctSlugs(Hierarchy)
  {
    assert forall i | 0 <= i < |Hierarchy| :: SlugOrdinal(Hierarchy[i].slug) == i;
  }

  // ---------------------------------------------------------------------------
  // the reverse map subcategory -> parent name

  /** Records `parent` for every name in `subs`, later assignments overriding earlier. */
  function AddSubs(m: map<string, string>, subs: seq<string>, parent: string): map<string, string>
    decreases |subs|
  {
    if |subs| == 0 then m else AddSubs(m[subs[0] := parent], subs[1..], parent)
  }

  /** `subcategoryToParent` as the nested loops at load time leave it after `entries`. */
  function SubMap(entries: seq<Entry>): map<string, string> {
    if |entries| == 0 then map[]
    else
      var last := entries[|entries| - 1];
      AddSubs(SubMap(entries[..|entries| - 1]), last.subcategories, last.name)
  }

  /** The nested loops that fill `subcategoryToParent`. */
  method BuildSubcategoryMap(entries: seq<Entry>) returns (m: map<string, string>)
    ensures m == SubMap(entries)
  {
    m := map[];
    for i := 0 to |entries|
      invariant m == SubMap(entries[..i])
    {
      var e := entries[i];
      ghost var before := m;
      for j := 0 to |e.subcategories|
        invariant AddSubs(before, e.subcategories, e.name) == AddSubs(m, e.subcategories[j..], e.name)
      {
        assert e.subcategories[j..][1..] == e.subcategories[j + 1..];
        m := m[e.subcategories[j] := e.name];
      }
      assert e.subcategories[|e.subcategories|..] == [];
      assert entries[..i + 1][..i] == entries[..i];
    }
    assert entries[..|entries|] == entries;
  }

  /** What `AddSubs` records: the listed names get `parent`, the rest keep their value. */
  lemma {:induction false} AddSubsLookup(m: map<string, string>, subs: seq<string>, parent: string, k: string)
    ensures k in subs ==> k in AddSubs(m, subs, parent) && AddSubs(m, subs, parent)[k] == parent
    ensures k !in subs ==> (k in AddSubs(m, subs, parent) <==> k in m)
    ensures k !in subs && k in m ==> AddSubs(m, subs, parent)[k] == m[k]
    decreases |subs|
  {
    if |subs| > 0 {
      AddSubsLookup(m[subs[0] := parent], subs[1..], parent, k);
      assert subs == [subs[0]] + subs[1..];
    }
  }

  /** A subcategory maps to the name of the last entry listing it. */
  lemma {:induction false} SubMapLast(entries: seq<Entry>, i: nat, k: string)
    requires i < |entries| && k in entries[i].subcategories
    requires forall j | i < j < |entries| :: k !in entries[j].subcategories
    ensures k in SubMap(entries) && SubMap(entries)[k] == entries[i].name
    decreases |entries|
  {
    var n := |entries| - 1;
    var init := entries[..n];
    AddSubsLookup(SubMap(init), entries[n].subcategories, entries[n].name, k);
    if i < n {
      SubMapLast(init, i, k);
    }
  }

  /** Every key of the map is some entry's subcategory and maps to that entry's name. */
  lemma {:induction false} SubMapKeys(entries: seq<Entry>, k: string)
    requires k in SubMap(entries)
    ensures exists i | 0 <= i < |entries| :: k in entries[i].subcategories && SubMap(entries)[k] == entries[i].name
    decreases |entries|
  {
    var n := |entries| - 1;
    var init := entries[..n];
    AddSubsLookup(SubMap(init), entries[n].subcategories, entries[n].name, k);
    if k !in entries[n].subcategories {
      SubMapKeys(init, k);
      var i :| 0 <= i < |init| && k in init[i].subcategories && SubMap(init)[k] == init[i].name;
      assert entries[i] == init[i];
    }
  }

  /** A name listed by no entry is not a key of the map. */
  lemma {:induction false} SubMapUnlisted(entries: seq<Entry>, k: string)
    requires forall e <- entries :: k !in e.subcategories
    ensures k !in SubMap(entries)
    decreases |entries|
  {
    if |entries| > 0 {
      var n := |entries| - 1;
      assert entries[n] in entries;
      assert forall e <- entries[..n] :: e in entries;
      SubMapUnlisted(entries[..n], k);
      AddSubsLookup(SubMap(entries[..n]), entries[n].subcategories, entries[n].name, k);
    }
  }

  // ---------------------------------------------------------------------------
  // keyword fallback

  /** One fallback test: the name ends with a suffix, contains an infix or is an exact name. */
  datatype Rule = Rule(slug: Slug, suffixes: seq<string>, infixes: seq<string>, exact: seq<string>)

  predicate RuleHits(r: Rule, c: string) {
    (exists s <- r.suffixes :: EndsWith(c, s))
    || (exists s <- r.infixes :: Contains(c, s))
    || c in r.exact
  }

  /** The fallback tests of `getCategorySlug`, in the order they are tried. */
  const FallbackRules: seq<Rule> := [
    Rule(DomesticFood, ["美食"], ["甜點"], []),
    Rule(DomesticTravel, ["景點"], ["展覽", "小百岳"], []),
    Rule(DomesticHotel, ["住宿"], [], []),
    Rule(ForeignTravel, [], ["香港", "沖繩", "日本", "北海道", "中國", "澳門", "自由行"], []),
    Rule(Fashion, [], ["包款", "鞋款", "手錶", "美容"], []),
    Rule(Unboxing, [], ["開箱", "滋補", "伴手禮", "保健", "居家好物", "鍋具", "孕媽咪"], []),
    Rule(Parenting, [], ["親子", "育兒", "月子"], []),
    Rule(Wedding, [], ["婚禮", "婚紗"], []),
    Rule(Lifestyle, [], ["減肥", "居家生活", "線上課程", "照相館", "數位", "創作", "食譜"], []),
    Rule(Investment, [], ["投資", "股票", "房地產", "建案"], []),
    Rule(Arduino, [], ["Arduino", "DIY"], ["教學"]),
    Rule(Tools, [], ["工具", "電影"], [])
  ]

  /** The slug of the first rule that hits, `other` when none does. */
  function Fallback(rules: seq<Rule>, c: string): Slug {
    if |rules| == 0 then Other
    else if RuleHits(rules[0], c) then rules[0].slug
    else Fallback(rules[1..], c)
  }

  /** The first rule that hits decides, whatever later rules would say. */
  lemma {:induction false} FallbackFirstHit(rules: seq<Rule>, c: string, i: nat)
    requires i < |rules| && RuleHits(rules[i], c)
    requires forall j | 0 <= j < i :: !RuleHits(rules[j], c)
    ensures Fallback(rules, c) == rules[i].slug
  {
    if i > 0 {
      assert !RuleHits(rules[0], c);
      FallbackFirstHit(rules[1..], c, i - 1);
    }
  }

  /** When no rule hits, the answer is `other`; and `other` comes only from that or from a
      rule whose slug is `other`. */
  lemma {:induction false} FallbackNoHit(rules: seq<Rule>, c: string)
    ensures (forall r <- rules :: !RuleHits(r, c)) ==> Fallback(rules, c) == Other
    ensures Fallback(rules, c) != Other ==> exists r <- rules :: RuleHits(r, c) && r.slug == Fallback(rules, c)
  {
    if |rules| > 0 {
      FallbackNoHit(rules[1..], c);
      assert forall r <- rules[1..] :: r in rules;
    }
  }

  // ---------------------------------------------------------------------------
  // getCategorySlug and getParentCategoryName

  /** `getCategorySlug` over a hierarchy, its reverse map and the fallback rules. An absent
      category is the empty string. */
  function SlugFor(entries: seq<Entry>, rules: seq<Rule>, category: string): Slug {
    if category == "" then Other
    else match FindParent(entries, category, 0)
      case Some(i) => entries[i].slug
      case None =>
        var subs := SubMap(entries);
        if category in subs then
          match FindParent(entries, subs[category], 0)
          case Some(i) => entries[i].slug
          case None => Other // never taken: every value of the map names an entry (SubMapKeys)
        else Fallback(rules, category)
  }

  function GetCategorySlug(category: string): Slug {
    SlugFor(Hierarchy, FallbackRules, category)
  }

  /** An absent or empty category gets `other`. */
  lemma EmptyCategory(entries: seq<Entry>, rules: seq<Rule>)
    ensures SlugFor(entries, rules, "") == Other
  {
  }

  /** A parent name gets its own slug. */
  lemma ParentSlug(entries: seq<Entry>, rules: seq<Rule>, i: nat)
    requires DistinctNames(entries) && i < |entries| && entries[i].name != ""
    ensures SlugFor(entries, rules, entries[i].name) == entries[i].slug
  {
    FindOwnName(entries, i);
  }

  /** A subcategory that is not also a parent name gets the slug of the last parent that
      lists it. */
  lemma SubcategorySlug(entries: seq<Entry>, rules: seq<Rule>, i: nat, k: string)
    requires DistinctNames(entries) && k != ""
    requires i < |entries| && k in entries[i].subcategories
    requires forall j | i < j < |entries| :: k !in entries[j].subcategories
    requires forall e <- entries :: e.name != k
    ensures SlugFor(entries, rules, k) == entries[i].slug
  {
    assert FindParent(entries, k, 0).None?;
    SubMapLast(entries, i, k);
    FindOwnName(entries, i);
  }

  /** A name that is neither a parent nor a listed subcategory goes to the keyword rules. */
  lemma UnlistedGoesToRules(entries: seq<Entry>, rules: seq<Rule>, k: string)
    requires k != ""
    requires forall e <- entries :: e.name != k && k !in e.subcategories
    ensures SlugFor(entries, rules, k) == Fallback(rules, k)
  {
    SubMapUnlisted(entries, k);
    assert FindParent(entries, k, 0).None?;
  }

  /** A name that is no parent and no listed subcategory and that ends in 美食 or contains
      甜點 is food, whatever other keywords it holds. */
  lemma FoodRuleFirst(k: string)
    requires forall e <- Hierarchy :: e.name != k && k !in e.subcategories
    requires EndsWith(k, "美食") || Contains(k, "甜點")
    ensures GetCategorySlug(k) == DomesticFood
  {
    UnlistedGoesToRules(Hierarchy, FallbackRules, k);
    var r := FallbackRules[0];
    assert "美食" in r.suffixes && "甜點" in r.infixes;
    assert RuleHits(r, k);
    FallbackFirstHit(FallbackRules, k, 0);
  }

  /** Every slug belongs to an entry of the hierarchy, so whatever `getCategorySlug` returns
      is a slug of the hierarchy. */
  lemma EverySlugListed(s: Slug)
    ensures exists i | 0 <= i < |Hierarchy| :: Hierarchy[i].slug == s
  {
    var h := Hierarchy;
    match s
    case DomesticFood => assert h[0].slug == s;
    case DomesticTravel => assert h[1].slug == s;
    case DomesticHotel => assert h[2].slug == s;
    case ForeignTravel => assert h[3].slug == s;
    case Fashion => assert h[4].slug == s;
    case Unboxing => assert h[5].slug == s;
    case Parenting => assert h[6].slug == s;
    case Wedding => assert h[7].slug == s;
    case Lifestyle => assert h[8].slug == s;
    case Investment => assert h[9].slug == s;
    case Arduino => assert h[10].slug == s;
    case Tools => assert h[11].slug == s;
    case Other => assert h[12].slug == s;
  }

  /** The name of the first entry with slug `slug`, `其他` when there is none. */
  function ParentNameOf(entries: seq<Entry>, slug: Slug): string {
    if |entries| == 0 then "其他"
    else if entries[0].slug == slug then entries[0].name
    else ParentNameOf(entries[1..], slug)
  }

  /** `getParentCategoryName`: the loop over the entries with an early return. */
  method GetParentCategoryName(entries: seq<Entry>, slug: Slug) returns (name: string)
    ensures name == ParentNameOf(entries, slug)
  {
    for i := 0 to |entries|
      invariant ParentNameOf(entries, slug) == ParentNameOf(entries[i..], slug)
    {
      assert entries[i..][1..] == entries[i + 1..];
      if entries[i].slug == slug {
        return entries[i].name;
      }
    }
    return "其他";
  }

  /** `ParentNameOf` returns the name of the first entry carrying the slug. */
  lemma {:induction false} ParentNameOfFirst(entries: seq<Entry>, slug: Slug, i: nat)
    requires i < |entries| && entries[i].slug == slug
    requires forall j | 0 <= j < i :: entries[j].slug != slug
    ensures ParentNameOf(entries, slug) == entries[i].name
  {
    if i > 0 {
      assert entries[0].slug != slug;
      ParentNameOfFirst(entries[1..], slug, i - 1);
    }
  }

  /** A slug no entry carries gives `其他`. */
  lemma {:induction false} ParentNameOfUnknown(entries: seq<Entry>, slug: Slug)
    requires forall e <- entries :: e.slug != slug
    ensures ParentNameOf(entries, slug) == "其他"
  {
    if |entries| > 0 {
      assert entries[0] in entries;
      assert forall e <- entries[1..] :: e in entries;
      ParentNameOfUnknown(entries[1..], slug);
    }
  }

  /** Round trip: a parent name's slug leads back to the parent name. */
  lemma ParentNameRoundTrip(entries: seq<Entry>, rules: seq<Rule>, i: nat)
    requires DistinctNames(entries) && DistinctSlugs(entries)
    requires i < |entries| && entries[i].name != ""
    ensures ParentNameOf(entries, SlugFor(entries, rules, entries[i].name)) == entries[i].name
  {
    ParentSlug(entries, rules, i);
    ParentNameOfFirst(entries, entries[i].slug, i);
  }

  /** The round trip for the blog's own hierarchy. */
  lemma HierarchyRoundTrip(i: nat)
    requires i < |Hierarchy|
    ensures ParentNameOf(Hierarchy, GetCategorySlug(Hierarchy[i].name)) == Hierarchy[i].name
  {
    HierarchyNamesDistinct();
    HierarchySlugsDistinct();
    assert Hierarchy[i].name != "";
    ParentNameRoundTrip(Hierarchy, FallbackRules, i);
  }

  // ---------------------------------------------------------------------------
  // legacy helpers and categorizePost

  /** The shared shape of `isForeignTravel`, `isParenting`, `isUnboxing` and `isWedding`:
      with a category, a slug test; without, a keyword in the title or equal to a tag. */
  predicate SlugOrKeyword(slug: Slug, keywords: seq<string>, title: string, tags: seq<string>, category: string) {
    if category != "" then GetCategorySlug(category) == slug
    else exists kw <- keywords :: Contains(title, kw) || kw in tags
  }

  const ForeignKeywords: seq<string> := ["香港", "沖繩", "日本", "北海道", "中國"]
  const ParentingKeywords: seq<string> := ["親子", "育兒", "寶寶", "嬰兒", "月子", "哺乳", "尿布", "奶瓶"]
  const UnboxingKeywords: seq<string> :=
    ["開箱", "團購", "保健", "滋補", "宅配", "伴手禮", "鍋具", "包款", "手錶", "鞋款", "居家好物"]
  const WeddingKeywords: seq<string> := ["婚", "新娘", "婚紗"]

  predicate IsForeignTravel(title: string, tags: seq<string>, category: string) {
    SlugOrKeyword(ForeignTravel, ForeignKeywords, title, tags, category)
  }

  predicate IsParenting(title: string, tags: seq<string>, category: string) {
    SlugOrKeyword(Parenting, ParentingKeywords, title, tags, category)
  }

  predicate IsUnboxing(title: string, tags: seq<string>, category: string) {
    SlugOrKeyword(Unboxing, UnboxingKeywords, title, tags, category)
  }

  predicate IsWedding(title: string, tags: seq<string>, category: string) {
    SlugOrKeyword(Wedding, WeddingKeywords, title, tags, category)
  }

  /** With a category the title and tags are ignored; without one, a keyword in the title
      decides whatever the tags are, and so does a keyword among the tags. */
  lemma SlugOrKeywordMeaning(slug: Slug, keywords: seq<string>, title: string, tags: seq<string>, category: string, kw: string)
    ensures category != "" ==> forall t, ts :: SlugOrKeyword(slug, keywords, title, tags, category) == SlugOrKeyword(slug, keywords, t, ts, category)
    ensures category == "" && kw in keywords && (Contains(title, kw) || kw in tags) ==> SlugOrKeyword(slug, keywords, title, tags, category)
    ensures category == "" && (forall k <- keywords :: !Contains(title, k) && k !in tags) ==> !SlugOrKeyword(slug, keywords, title, tags, category)
  {
  }

  /** `categorizePost`'s result; only the sidebar slug is ever set. */
  datatype PostCategory = PostCategory(contentType: string, region: string, sidebarSlug: Slug)

  function CategorizePost(title: string, tags: seq<string>, category: string): (p: PostCategory)
    ensures p.contentType == "" && p.region == ""
  {
    if category != "" then PostCategory("", "", GetCategorySlug(category))
    else PostCategory("", "", Other)
  }

  /** The branch on the category is redundant: the sidebar slug is always the slug lookup's
      answer, since an absent category already gets `other` there. */
  lemma CategorizePostIsSlug(title: string, tags: seq<string>, category: string)
    ensures CategorizePost(title, tags, category).sidebarSlug == GetCategorySlug(category)
  {
  }
}
