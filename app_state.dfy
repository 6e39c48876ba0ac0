/**
 * The view state of the application component and its event handlers. The
 * fields of `App` are the component's state slots; every handler is one
 * atomic step whose remote call is answered by a function parameter, so the
 * contracts show what each call is asked for. A handler sets its busy flag,
 * makes its call, stores the result or keeps the old value when the call
 * fails, and clears the flag again, so between steps no flag is set.
 */
module AppState {
  import opened Types
  import opened AppLogic
  import opened HadithService

  /** A chapter request: the chapter number and the comma-separated edition pair. */
  datatype SurahRequest = SurahRequest(number: int, editions: string)

  /** The value of every state slot at one moment. */
  datatype Snapshot = Snapshot(
    view: AppView,
    surahs: seq<Surah>,
    selectedSurah: Option<Surah>,
    ayahs: seq<Ayah>,
    hadithList: seq<Hadith>,
    activeCollection: Option<CollectionMetadata>,
    loading: bool,
    targetLang: TranslationLang,
    searchQuery: string,
    aiModalOpen: bool,
    aiInsight: Option<AIInsight>,
    insightLoading: bool,
    isnadData: Option<IsnadAnalysis>,
    isnadLoading: bool)

  /** The initial value of every slot. */
  const Initial: Snapshot :=
    Snapshot(Home, [], None, [], [], None, false, En, "", false, None, false, None, false)

  /** The screens the menu cards and the bottom navigation switch to. */
  predicate NavTarget(v: AppView)
  {
    v == Home || v == QuranList || v == HadithCollections || v == BooksExplorer || v == Resources
  }

  /** The verses after a chapter response: the combined list on success, the old list otherwise. */
  function AyahsAfter(previous: seq<Ayah>, response: Option<seq<Edition>>): seq<Ayah>
  {
    if response.Some? && CombineEditions(response.value).Success? then CombineEditions(response.value).value
    else previous
  }

  /** A stored result after a remote call: the new one on success, the old one otherwise. */
  function Keep<T>(previous: Option<T>, outcome: Option<T>): Option<T>
  {
    if outcome.Some? then outcome else previous
  }

  class App {
    var view: AppView
    var surahs: seq<Surah>
    var selectedSurah: Option<Surah>
    var ayahs: seq<Ayah>
    var hadithList: seq<Hadith>
    var activeCollection: Option<CollectionMetadata>
    var loading: bool
    var targetLang: TranslationLang
    var searchQuery: string
    var aiModalOpen: bool
    var aiInsight: Option<AIInsight>
    var insightLoading: bool
    var isnadData: Option<IsnadAnalysis>
    var isnadLoading: bool

    function State(): Snapshot
      reads this
    {
      Snapshot(view, surahs, selectedSurah, ayahs, hadithList, activeCollection, loading,
               targetLang, searchQuery, aiModalOpen, aiInsight, insightLoading, isnadData, isnadLoading)
    }

    /**
     * Between handlers no busy flag is set, the chapter screen has a chapter
     * and the narration screen has a collection.
     */
    ghost predicate Valid()
      reads this
    {
      && !loading && !insightLoading && !isnadLoading
      && (view == SurahDetail ==> selectedSurah.Some?)
      && (view == HadithList ==> activeCollection.Some?)
    }

    constructor ()
      ensures Valid() && State() == Initial
    {
      view, surahs, selectedSurah, ayahs := Home, [], None, [];
      hadithList, activeCollection, loading := [], None, false;
      targetLang, searchQuery := En, "";
      aiModalOpen, aiInsight, insightLoading := false, None, false;
      isnadData, isnadLoading := None, false;
    }

    /** The chapter list fetched once on mount; a failed fetch keeps the empty list. */
    method LoadSurahList(chapters: () -> Option<seq<Surah>>)
      requires Valid()
      modifies this
      ensures Valid()
      ensures State() == old(State()).(surahs := if chapters().Some? then chapters().value else old(surahs))
    {
      loading := true;
      var response := chapters();
      if response.Some? {
        surahs := response.value;
      }
      loading := false;
    }

    /**
     * `loadSurah`: the chapter and its screen are chosen before the request,
     * whatever its outcome; the verses are replaced only when the response
     * pairs up, and the busy flag is clear afterwards.
     */
    method LoadSurah(surah: Surah, lang: TranslationLang, quran: SurahRequest -> Option<seq<Edition>>)
      requires Valid()
      modifies this
      ensures Valid() && !loading
      ensures view == SurahDetail && selectedSurah == Some(surah)
      ensures State() == old(State()).(
        selectedSurah := Some(surah),
        view := SurahDetail,
        ayahs := AyahsAfter(old(ayahs), quran(SurahRequest(surah.number, EditionPair(lang)))))
    {
      loading := true;
      selectedSurah := Some(surah);
      view := SurahDetail;
      var response := quran(SurahRequest(surah.number, EditionPair(lang)));
      ayahs := AyahsAfter(ayahs, response);
      loading := false;
    }

    /** A chapter chosen from the list is loaded in the current language. */
    method OpenSurah(surah: Surah, quran: SurahRequest -> Option<seq<Edition>>)
      requires Valid()
      modifies this
      ensures Valid()
      ensures State() == old(State()).(
        selectedSurah := Some(surah),
        view := SurahDetail,
        ayahs := AyahsAfter(old(ayahs), quran(SurahRequest(surah.number, EditionPair(old(targetLang))))))
    {
      LoadSurah(surah, targetLang, quran);
    }

    /**
     * `loadHadithCollection`: the collection and its screen are chosen first;
     * the hadith service never fails, so the list is always replaced, by the
     * empty list when its requests fail.
     */
    method LoadHadithCollection(collection: CollectionMetadata, fetch: string -> Option<RawEdition>)
      requires Valid()
      modifies this
      ensures Valid() && !loading
      ensures view == HadithList && activeCollection == Some(collection)
      ensures State() == old(State()).(
        activeCollection := Some(collection),
        view := HadithList,
        hadithList := FetchHadithList(collection.id, fetch))
    {
      loading := true;
      activeCollection := Some(collection);
      view := HadithList;
      var data := FetchHadithList(collection.id, fetch);
      hadithList := data;
      loading := false;
    }

    /**
     * `handleAskAI`: opens the overlay and asks for an insight in the current
     * language; a failed request keeps whatever insight was shown before.
     */
    method AskAI(text: string, context: string, ai: (string, string, string) -> Option<AIInsight>)
      requires Valid()
      modifies this
      ensures Valid() && aiModalOpen && !insightLoading
      ensures State() == old(State()).(
        aiModalOpen := true,
        aiInsight := Keep(old(aiInsight), ai(text, context, LanguageName(old(targetLang)))))
    {
      aiModalOpen := true;
      insightLoading := true;
      var langName := LanguageName(targetLang);
      var insight := ai(text, context, langName);
      if insight.Some? {
        aiInsight := insight;
      }
      insightLoading := false;
    }

    /** The close buttons of the overlay. */
    method CloseAIModal()
      requires Valid()
      modifies this
      ensures Valid()
      ensures State() == old(State()).(aiModalOpen := false)
    {
      aiModalOpen := false;
    }

    /**
     * `handleAnalyzeIsnad`: switches to the analyser and sends the narration's
     * chain, or "Chain not provided", with its Arabic text; a failed request
     * keeps the previous analysis.
     */
    method AnalyzeIsnad(hadith: Hadith, analyze: (string, string) -> Option<IsnadAnalysis>)
      requires Valid()
      modifies this
      ensures Valid() && view == IsnadAnalyzer && !isnadLoading
      ensures State() == old(State()).(
        view := IsnadAnalyzer,
        isnadData := Keep(old(isnadData), analyze(ChainOf(hadith), hadith.arabicText)))
    {
      view := IsnadAnalyzer;
      isnadLoading := true;
      var analysis := analyze(ChainOf(hadith), hadith.arabicText);
      if analysis.Some? {
        isnadData := analysis;
      }
      isnadLoading := false;
    }

    /** The header's back button, shown on every screen but the home screen. */
    method GoBack()
      requires Valid()
      modifies this
      ensures Valid() && view == Home
      ensures State() == old(State()).(view := Home)
    {
      view := Home;
    }

    /** A menu card or a bottom navigation item. */
    method Navigate(target: AppView)
      requires Valid() && NavTarget(target)
      modifies this
      ensures Valid()
      ensures State() == old(State()).(view := target)
    {
      view := target;
    }

    /**
     * The language toggle: flips the preference and reloads the open chapter
     * in the new language, and only when the chapter screen is shown.
     */
    method ToggleLanguage(quran: SurahRequest -> Option<seq<Edition>>)
      requires Valid()
      modifies this
      ensures Valid() && targetLang == NextLang(old(targetLang))
      ensures old(view) != SurahDetail ==> State() == old(State()).(targetLang := NextLang(old(targetLang)))
      ensures old(view) == SurahDetail ==> State() == old(State()).(
        targetLang := NextLang(old(targetLang)),
        ayahs := AyahsAfter(old(ayahs),
          quran(SurahRequest(old(selectedSurah).value.number, EditionPair(NextLang(old(targetLang)))))))
    {
      var next := NextLang(targetLang);
      targetLang := next;
      if view == SurahDetail && selectedSurah.Some? {
        LoadSurah(selectedSurah.value, next, quran);
      }
    }

    /** The search box stores its text; nothing reads it. */
    method SetSearchQuery(query: string)
      requires Valid()
      modifies this
      ensures Valid()
      ensures State() == old(State()).(searchQuery := query)
    {
      searchQuery := query;
    }
  }

  /**
   * Two toggles restore the language; away from the chapter screen they
   * leave every slot as it was.
   */
  method ToggleTwice(app: App, quran: SurahRequest -> Option<seq<Edition>>)
    requires app.Valid()
    modifies app
    ensures app.Valid() && app.targetLang == old(app.targetLang)
    ensures old(app.view) != SurahDetail ==> app.State() == old(app.State())
  {
    app.ToggleLanguage(quran);
    app.ToggleLanguage(quran);
    NextLangInvolution(old(app.targetLang));
  }
}
