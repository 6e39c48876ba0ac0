/**
 * The non-rendering helpers of the application component: the pairing of a
 * chapter's verses with their translation, the choice of translation edition
 * and language name, the grouping of the collection metadata by category, the
 * sections of the research screen, the grading badge lookup and the chain
 * text handed to the isnad analysis.
 */
module AppLogic {
  import opened Types
  import opened HadithService

  // ---------------------------------------------------------------------
  // Language preference

  /** The language-toggle button: 'en' becomes 'ta' and anything else 'en'. */
  function NextLang(lang: TranslationLang): (next: TranslationLang)
    ensures next != lang
  {
    if lang == En then Ta else En
  }

  /** Two toggles restore the original preference. */
  lemma NextLangInvolution(lang: TranslationLang)
    ensures NextLang(NextLang(lang)) == lang
  {
  }

  /** The translation edition requested from the Quran API. */
  function EditionFor(lang: TranslationLang): (edition: string)
    ensures lang == Ta <==> edition == "ta.tamil"
    ensures lang == En <==> edition == "en.sahih"
  {
    match lang
    case Ta => assert "ta.tamil"[0] != "en.sahih"[0]; "ta.tamil"
    case En => "en.sahih"
  }

  /** The language name handed to the AI insight request. */
  function LanguageName(lang: TranslationLang): (name: string)
    ensures lang == Ta <==> name == "Tamil"
    ensures lang == En <==> name == "English"
  {
    match lang
    case Ta => assert |"Tamil"| != |"English"|; "Tamil"
    case En => "English"
  }

  /** The edition and the language name each determine the preference. */
  lemma EditionAndNameDetermineLang(a: TranslationLang, b: TranslationLang)
    ensures EditionFor(a) == EditionFor(b) <==> a == b
    ensures LanguageName(a) == LanguageName(b) <==> a == b
  {
  }

  // ---------------------------------------------------------------------
  // Verses and their translation

  const ArabicEditionName: string := "quran-simple"

  /** One element of the Quran API's `data` array: an edition of one chapter. */
  datatype Edition = Edition(ayahs: seq<Ayah>)

  /**
   * The editions requested for a chapter: the Arabic text, a comma, and the
   * translation of the chosen language.
   */
  function EditionPair(lang: TranslationLang): (pair: string)
    ensures |pair| == |ArabicEditionName| + 1 + |EditionFor(lang)|
    ensures pair[..|ArabicEditionName| + 1] == ArabicEditionName + ","
    ensures pair[|ArabicEditionName| + 1..] == EditionFor(lang)
  {
    ArabicEditionName + "," + EditionFor(lang)
  }

  /** The requested edition pair determines the language. */
  lemma EditionPairDeterminesLang(a: TranslationLang, b: TranslationLang)
    ensures EditionPair(a) == EditionPair(b) <==> a == b
  {
    if EditionPair(a) == EditionPair(b) {
      assert EditionFor(a) == EditionPair(a)[|ArabicEditionName| + 1..];
      EditionAndNameDetermineLang(a, b);
    }
  }

  /**
   * `data.data[0].ayahs.map((ayah, i) => ({...ayah, translatedText:
   * data.data[1].ayahs[i].text}))`: every verse of the Arabic edition with
   * the text at the same position of the translation; a translation list
   * shorter than the Arabic one makes the step throw.
   */
  function ZipVerses(arabic: seq<Ayah>, translation: seq<Ayah>): (r: Result<seq<Ayah>>)
    ensures r.Success? <==> |translation| >= |arabic|
    ensures r.Success? ==> |r.value| == |arabic|
    ensures r.Success? ==> forall i :: 0 <= i < |arabic| ==>
      && r.value[i].translatedText == Some(translation[i].text)
      && r.value[i].(translatedText := arabic[i].translatedText) == arabic[i]
  {
    if arabic == [] then Success([])
    else if translation == [] then Failure("TypeError: translation verse missing")
    else
      match ZipVerses(arabic[1..], translation[1..])
      case Success(rest) => Success([arabic[0].(translatedText := Some(translation[0].text))] + rest)
      case Failure(e) => Failure(e)
  }

  /**
   * The verses of a chapter response, or the error the `catch` receives. A
   * missing first edition throws; the translation edition is read only for
   * an Arabic verse, so a first edition without verses gives no verses even
   * when the second edition is missing.
   */
  function CombineEditions(data: seq<Edition>): (r: Result<seq<Ayah>>)
    ensures r.Success? <==> && |data| >= 1
                            && (data[0].ayahs == [] || (|data| >= 2 && |data[1].ayahs| >= |data[0].ayahs|))
    ensures r.Success? ==> |r.value| == |data[0].ayahs|
    ensures r.Success? && r.value != [] ==> |data| >= 2 && forall i :: 0 <= i < |r.value| ==>
      && r.value[i].translatedText == Some(data[1].ayahs[i].text)
      && r.value[i].(translatedText := data[0].ayahs[i].translatedText) == data[0].ayahs[i]
  {
    if |data| == 0 then Failure("TypeError: edition missing")
    else if data[0].ayahs == [] then Success([])
    else if |data| < 2 then Failure("TypeError: translation edition missing")
    else ZipVerses(data[0].ayahs, data[1].ayahs)
  }

  // ---------------------------------------------------------------------
  // Collections by category

  /** The keys of the category record, in the order they are written. */
  const CategoryOrder: seq<CollectionCategory> := [Primary, Fiqh, Grading, Moral]

  /** The collections of category `c`, in input order. */
  function InCategory(cols: seq<CollectionMetadata>, c: CollectionCategory): (r: seq<CollectionMetadata>)
    ensures |r| <= |cols|
    ensures forall x :: x in r ==> x in cols && x.category == c
  {
    if cols == [] then []
    else
      var last := cols[|cols| - 1];
      InCategory(cols[..|cols| - 1], c) + (if last.category == c then [last] else [])
  }

  /** Filtering by category distributes over concatenation, so input order is kept. */
  lemma {:induction false} InCategoryAppend(a: seq<CollectionMetadata>, b: seq<CollectionMetadata>, c: CollectionCategory)
    ensures InCategory(a + b, c) == InCategory(a, c) + InCategory(b, c)
    decreases |b|
  {
    if b != [] {
      var b' := b[..|b| - 1];
      assert (a + b)[..|a + b| - 1] == a + b';
      InCategoryAppend(a, b', c);
    } else {
      assert a + b == a;
    }
  }

  /**
   * Every collection is in the group of its own category as often as it is in
   * the input, and in no other group.
   */
  lemma {:induction false} InCategoryCount(cols: seq<CollectionMetadata>, c: CollectionCategory, x: CollectionMetadata)
    ensures multiset(InCategory(cols, c))[x] == if x.category == c then multiset(cols)[x] else 0
  {
    if cols != [] {
      var init := cols[..|cols| - 1];
      InCategoryCount(init, c, x);
      assert cols == init + [cols[|cols| - 1]];
    }
  }

  /** The four groups together hold exactly the input, counted with multiplicity. */
  lemma InCategoryPartition(cols: seq<CollectionMetadata>)
    ensures multiset(InCategory(cols, Primary)) + multiset(InCategory(cols, Fiqh))
          + multiset(InCategory(cols, Grading)) + multiset(InCategory(cols, Moral)) == multiset(cols)
  {
    var all := multiset(InCategory(cols, Primary)) + multiset(InCategory(cols, Fiqh))
             + multiset(InCategory(cols, Grading)) + multiset(InCategory(cols, Moral));
    forall x ensures all[x] == multiset(cols)[x] {
      InCategoryCount(cols, Primary, x);
      InCategoryCount(cols, Fiqh, x);
      InCategoryCount(cols, Grading, x);
      InCategoryCount(cols, Moral, x);
    }
  }

  /** The group sizes add up to the number of collections. */
  lemma InCategorySizes(cols: seq<CollectionMetadata>)
    ensures |InCategory(cols, Primary)| + |InCategory(cols, Fiqh)|
          + |InCategory(cols, Grading)| + |InCategory(cols, Moral)| == |cols|
  {
    InCategoryPartition(cols);
  }

  lemma InCategoryStep(cols: seq<CollectionMetadata>, i: nat, c: CollectionCategory)
    requires i < |cols|
    ensures InCategory(cols[..i + 1], c)
         == InCategory(cols[..i], c) + if cols[i].category == c then [cols[i]] else []
  {
    assert cols[..i + 1][..i] == cols[..i];
  }

  /** The category record has all four keys. */
  predicate HasAllCategories(groups: map<CollectionCategory, seq<CollectionMetadata>>)
  {
    forall c: CollectionCategory :: c in groups
  }

  lemma FourKeysAreAll(groups: map<CollectionCategory, seq<CollectionMetadata>>)
    requires groups.Keys == {Primary, Fiqh, Grading, Moral}
    ensures HasAllCategories(groups)
  {
    forall c: CollectionCategory ensures c in groups {
      match c
      case Primary =>
      case Fiqh =>
      case Grading =>
      case Moral =>
    }
  }

  /**
   * `sortedCollections`: a record with the four category keys, each holding
   * the collections of that category pushed in input order.
   */
  method SortCollections(cols: seq<CollectionMetadata>) returns (groups: map<CollectionCategory, seq<CollectionMetadata>>)
    ensures HasAllCategories(groups)
    ensures forall c :: c in groups ==> groups[c] == InCategory(cols, c)
  {
    groups := map[Primary := [], Fiqh := [], Grading := [], Moral := []];
    FourKeysAreAll(groups);
    for i := 0 to |cols|
      invariant HasAllCategories(groups)
      invariant forall c :: c in groups ==> groups[c] == InCategory(cols[..i], c)
    {
      var x := cols[i];
      var next := groups[x.category := groups[x.category] + [x]];
      forall c | c in next ensures next[c] == InCategory(cols[..i + 1], c) {
        InCategoryStep(cols, i, c);
      }
      groups := next;
    }
    assert cols[..|cols|] == cols;
  }

  /**
   * The sections of the research screen: the groups in key order, without
   * 'Primary'.
   */
  function ExplorerSections(groups: map<CollectionCategory, seq<CollectionMetadata>>): (r: seq<(CollectionCategory, seq<CollectionMetadata>)>)
    requires HasAllCategories(groups)
    ensures |r| == 3 && r[0].0 == Fiqh && r[1].0 == Grading && r[2].0 == Moral
    ensures forall k :: 0 <= k < |r| ==> r[k].1 == groups[r[k].0]
  {
    assert SectionsFrom(CategoryOrder[3..], groups) == [(Moral, groups[Moral])];
    assert SectionsFrom(CategoryOrder[2..], groups) == [(Grading, groups[Grading]), (Moral, groups[Moral])];
    assert SectionsFrom(CategoryOrder[1..], groups)
        == [(Fiqh, groups[Fiqh]), (Grading, groups[Grading]), (Moral, groups[Moral])];
    SectionsFrom(CategoryOrder, groups)
  }

  function SectionsFrom(keys: seq<CollectionCategory>, groups: map<CollectionCategory, seq<CollectionMetadata>>): (r: seq<(CollectionCategory, seq<CollectionMetadata>)>)
    requires HasAllCategories(groups)
    ensures |r| <= |keys|
    ensures forall k :: 0 <= k < |r| ==> r[k].0 != Primary && r[k].0 in keys && r[k].1 == groups[r[k].0]
  {
    if keys == [] then []
    else if keys[0] == Primary then SectionsFrom(keys[1..], groups)
    else [(keys[0], groups[keys[0]])] + SectionsFrom(keys[1..], groups)
  }

  /** A collection is listed on the research screen exactly when its category is not 'Primary'. */
  lemma ExplorerListsNonPrimary(cols: seq<CollectionMetadata>, groups: map<CollectionCategory, seq<CollectionMetadata>>, x: CollectionMetadata)
    requires HasAllCategories(groups)
    requires forall c :: c in groups ==> groups[c] == InCategory(cols, c)
    ensures (exists k :: 0 <= k < |ExplorerSections(groups)| && x in ExplorerSections(groups)[k].1)
        <==> x in cols && x.category != Primary
  {
    var r := ExplorerSections(groups);
    if x in cols && x.category != Primary {
      InCategoryCount(cols, x.category, x);
      assert x in multiset(InCategory(cols, x.category));
      var k := if x.category == Fiqh then 0 else if x.category == Grading then 1 else 2;
      assert x in r[k].1;
    }
  }

  // ---------------------------------------------------------------------
  // Grading badge

  datatype BadgeConfig = BadgeConfig(color: string, bg: string, labelText: string)

  const SahihBadge: BadgeConfig := BadgeConfig("#10B981", "bg-emerald-50", "Authentic")
  const HasanBadge: BadgeConfig := BadgeConfig("#F59E0B", "bg-amber-50", "Good")
  const DaifBadge: BadgeConfig := BadgeConfig("#EF4444", "bg-red-50", "Weak")

  /** The badge table, keyed by grading string; both spellings of da'if are keys. */
  const BadgeTable: map<string, BadgeConfig> :=
    map["Sahih" := SahihBadge, "Hasan" := HasanBadge, "Daif" := DaifBadge, "Da'if" := DaifBadge]

  /** `map[grading] || map.Sahih`. */
  function BadgeFor(grading: string): (b: BadgeConfig)
    ensures grading in BadgeTable ==> b == BadgeTable[grading]
    ensures grading !in BadgeTable ==> b == SahihBadge
  {
    if grading in BadgeTable then BadgeTable[grading] else BadgeTable["Sahih"]
  }

  /**
   * The badge of each enumerated grading: 'Mawdu' and 'Unknown' have no entry
   * and are drawn with the 'Sahih' badge.
   */
  lemma BadgeForGradings()
    ensures BadgeFor(HadithGrading.Sahih.Name()).labelText == "Authentic"
    ensures BadgeFor(HadithGrading.Hasan.Name()).labelText == "Good"
    ensures BadgeFor(HadithGrading.Daif.Name()).labelText == "Weak"
    ensures BadgeFor(HadithGrading.Mawdu.Name()) == SahihBadge
    ensures BadgeFor(HadithGrading.Unknown.Name()) == SahihBadge
    ensures BadgeFor("Daif") == BadgeFor("Da'if")
  {
  }

  // ---------------------------------------------------------------------
  // Isnad analysis request

  const NoChain: string := "Chain not provided"

  /** `hadith.isnad || 'Chain not provided'`. */
  function ChainOf(h: Hadith): (chain: string)
    ensures chain != []
    ensures Truthy(h.isnad) ==> chain == h.isnad.value
    ensures !Truthy(h.isnad) ==> chain == NoChain
  {
    Or(h.isnad, NoChain)
  }

  /**
   * For a narration shaped by the hadith service, the chain sent for analysis
   * is its fallback chain when its Arabic entry had text, and "Chain not
   * provided" otherwise.
   */
  lemma ChainOfShapedHadith(collection: string, ara: Option<RawEdition>, eng: Option<RawEdition>, i: nat)
    requires i < |HadithListFrom(collection, ara, eng)|
    ensures ara.Some?
    ensures var a := ArabicEntry(HadithsOf(ara.value), i).text;
      ChainOf(HadithListFrom(collection, ara, eng)[i]) == if Truthy(a) then FallbackIsnad(a.value) else NoChain
  {
    HadithArabicTextAndIsnad(collection, ara, eng, i);
  }
}
