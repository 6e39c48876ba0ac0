# Quran and Hadith reader: a verified model of its core

This project models the logic of a single-page reader for Quranic verses and
hadith narrations. It leaves out the rendering. Two parts are modelled:

- **The hadith service** (`services/hadithService.ts`). It takes the Arabic and
  English editions of one collection and shapes them into at most forty
  narrations, paired by position. Each narration gets an id, a capitalised
  collection name, fallbacks for missing fields, and a fallback narrator chain
  (isnad): the first fifteen words of the Arabic text followed by `...`.
  Any failure gives the empty list.
- **The application component** (`App.tsx`).
  - Its pure helpers: pairing a chapter's verses with a translation, choosing
    the translation edition and the language name, grouping collections by
    category, the sections of the research screen, and the grading badge.
  - Its view state, as the class `AppState.App`. The fields are the
    component's state slots. The event handlers are methods: open a chapter,
    open a collection, ask for an AI insight, analyse a chain, navigate, and
    toggle the language.

Every remote call is a function parameter of the handler that makes it: the
Quran API (the chapter list and one chapter), the Hadith API, and the two AI requests. A failed request or a
failed JSON decoding is `None`. So the contracts show what each call is asked
for and what is stored for each outcome.

Modules: `Types` (types.dfy), `Text` (text.dfy), `HadithService`
(hadith_service.dfy), `AppLogic` (app_logic.dfy), `AppState` (app_state.dfy).

Behaviour of the code worth knowing, which the model keeps:

- Opening the AI overlay does not clear an isnad analysis, and analysing a
  chain does not clear an AI insight. Both results can be present at once.
- A failed AI request keeps the previous insight or analysis on display.
- `fetchHadithList` catches every error and returns `[]`. So `loadHadithCollection`
  always replaces the narration list, with the empty list when its requests fail.
  Its own `catch` can never run.
- The verse pairing fails when the response has no editions, or when the
  Arabic edition has verses and the translation edition is missing or shorter.
  A longer translation list is silently cut to the Arabic length. An Arabic
  edition without verses gives no verses, even without a translation edition.
- `AppView.RESOURCES` is used by `App.tsx` but is missing from the enumeration in
  `types.ts`. At run time it is `undefined`, which still compares equal to
  itself, so it acts as a ninth screen. The model calls it `Resources`.
- `Hadith.grading` is a string in the model. The service casts whatever the API
  sends without checking it.

## Model

| member | source | states |
|---|---|---|
| Text.Split | services/hadithService.ts:35 | `split(' ')` yields one piece more than the text has spaces, and no piece contains a space |
| Text.Join | services/hadithService.ts:35 | `join(' ')` starts with the first piece |
| Text.JoinAt | services/hadithService.ts:35 | a join is the join of the pieces up to any boundary, one space, and the join of the pieces after it: one space sits between each two neighbours |
| Text.JoinSpaces | services/hadithService.ts:35 | joining n space-free pieces gives exactly n − 1 spaces |
| Text.JoinSplit | services/hadithService.ts:35 | joining the pieces of a split with spaces gives back the original text |
| Text.SplitJoin | services/hadithService.ts:35 | splitting a join of space-free pieces gives back the pieces |
| Text.JoinTakeSplit | services/hadithService.ts:35 | joining the first k pieces cuts the text just before its k-th space, or keeps all of it when it has fewer than k spaces |
| Text.Take | services/hadithService.ts:22 | `slice(0, k)` is the prefix of the list of length min(k, n) |
| Text.NatToString | services/hadithService.ts:25 | the decimal rendering of an index is a non-empty string of digits with no leading zero (only 0 starts with '0') |
| Text.ParseNatToString | services/hadithService.ts:25 | reading the decimal rendering of n gives back n |
| Text.NatToStringInjective | services/hadithService.ts:25 | distinct indices render to distinct strings |
| Text.ToUpper | services/hadithService.ts:26 | upper-cases lower-case ASCII letters only; every other character is kept (see Left out) |
| Text.Capitalize | services/hadithService.ts:26 | the first character is upper-cased; the length and the rest are unchanged; the empty name stays empty |
| HadithService.Or | services/hadithService.ts:27-33 | `v \|\| fallback` keeps a present non-empty value and otherwise takes the fallback |
| HadithService.HadithsOf | services/hadithService.ts:18-19 | `data.hadiths \|\| []` is the edition's list, or the empty list when it has none |
| HadithService.EditionUrl | services/hadithService.ts:10-11 | the URL is the API base and `/editions/`, then `language-collection`, then `.json` |
| HadithService.ArabicAndEnglishUrlsDiffer | services/hadithService.ts:9-12 | the Arabic and English requests of one collection ask for different files |
| HadithService.ArabicEntry | services/hadithService.ts:23 | `araList[index] \|\| {}` is the entry at the same position, and `{}` for a `null` entry or past the end of the list |
| HadithService.FirstGrade | services/hadithService.ts:31-32 | `h.grades?.[0]` is the first grade, or a grade without name and value when there is none |
| HadithService.FallbackIsnad | services/hadithService.ts:35 | the chain is the text cut before its fifteenth space, followed by `...` |
| HadithService.ShapeHadith | services/hadithService.ts:22-36 | a shaped narration has the id `collection-index`, the capitalised collection, non-empty Arabic and English texts, a grader and a chapter, and a chain exactly when the Arabic text is non-empty |
| HadithService.ShapingSucceeds | services/hadithService.ts:22-40 | shaping throws into the `catch` unless both editions were fetched and none of the first forty English entries is `null` |
| HadithService.HadithListFrom | services/hadithService.ts:18-41 | at most forty narrations; the empty list when a request fails or a shaped English entry is `null` |
| HadithService.FetchHadithList | services/hadithService.ts:6-42 | at most forty narrations; the empty list when either edition request fails |
| HadithService.HadithListLength | services/hadithService.ts:19-22 | the count is min(40, number of English entries) on success and 0 otherwise; no English entries give no narrations |
| HadithService.ArabicEditionDoesNotAffectCount | services/hadithService.ts:18-23 | any two fetched Arabic editions give the same count, ids and English texts |
| HadithService.HadithId | services/hadithService.ts:22-25 | narration i has the id `collection-i` |
| HadithService.HadithIdsDistinct | services/hadithService.ts:25 | no two narrations of one list share an id |
| HadithService.HadithCollectionName | services/hadithService.ts:26 | every collection name is the request with only its first letter upper-cased |
| HadithService.HadithFieldDefaults | services/hadithService.ts:27-33 | book number, hadith number, English text, grading, grader and chapter take the entry's value or default to "1", i+1, the fixed English text, "Sahih", "Scholarship" and "Chapter" |
| HadithService.HadithArabicTextAndIsnad | services/hadithService.ts:23-35 | the Arabic text comes from the same position or a fixed fallback (also past the end of the Arabic list); the chain exists exactly when that text is non-empty and is then its fallback chain |
| HadithService.FallbackIsnadShortText | services/hadithService.ts:35 | a text of fewer than fifteen words is kept whole and `...` is still appended |
| HadithService.FallbackIsnadWords | services/hadithService.ts:35 | the words of the chain are exactly the first fifteen words of the Arabic text |
| AppLogic.NextLang | App.tsx:401 | the toggle always changes the language |
| AppLogic.NextLangInvolution | App.tsx:401 | two toggles restore the language |
| AppLogic.EditionFor | App.tsx:65 | 'ta' requests `ta.tamil` and 'en' requests `en.sahih`, in both directions |
| AppLogic.LanguageName | App.tsx:93 | 'ta' gives "Tamil" and 'en' gives "English", in both directions |
| AppLogic.EditionAndNameDetermineLang | App.tsx:65 | the edition and the language name each determine the language |
| AppLogic.EditionPair | App.tsx:65-66 | the request names `quran-simple`, a comma, then the translation edition of the language |
| AppLogic.EditionPairDeterminesLang | App.tsx:65-66 | the requested edition pair determines the language |
| AppLogic.ZipVerses | App.tsx:69-72 | pairing succeeds exactly when the translation is at least as long; the result has the Arabic length, verse i carries translation i's text, and every other field is copied |
| AppLogic.CombineEditions | App.tsx:69-73 | succeeds exactly when there is a first edition and it either has no verses or the translation edition exists and is at least as long; the result has one verse per Arabic verse, verse i carrying translation i's text and every other field copied |
| AppLogic.InCategory | App.tsx:119 | a group holds only collections of its category taken from the input |
| AppLogic.InCategoryAppend | App.tsx:119 | grouping distributes over concatenation, so input order is kept |
| AppLogic.InCategoryCount | App.tsx:115-121 | each collection is in its own category's group as often as in the input, and in no other group |
| AppLogic.InCategoryPartition | App.tsx:115-121 | the four groups together are the input, as a multiset |
| AppLogic.InCategorySizes | App.tsx:115-121 | the group sizes add up to the input size |
| AppLogic.SortCollections | App.tsx:115-121 | the record has all four category keys, even empty ones, and each holds its category's collections in input order |
| AppLogic.ExplorerSections | App.tsx:179-180 | the research screen shows the Fiqh, Grading and Moral groups in that order, and not Primary |
| AppLogic.ExplorerListsNonPrimary | App.tsx:179-187 | a collection is listed on the research screen exactly when it is in the input and not Primary |
| AppLogic.BadgeFor | App.tsx:432-439 | a mapped grading gets its badge; any other grading gets the Sahih badge |
| AppLogic.BadgeForGradings | App.tsx:432-439 | Sahih, Hasan and Da'if get Authentic, Good and Weak; Mawdu and Unknown get the Sahih badge; both Da'if spellings agree |
| AppLogic.ChainOf | App.tsx:104 | the chain sent is the narration's non-empty isnad, or "Chain not provided" |
| AppLogic.ChainOfShapedHadith | App.tsx:104 | for a shaped narration, the chain sent is its fallback chain, or "Chain not provided" when its Arabic text was missing |
| AppState.App.constructor | App.tsx:30-45 | the initial state: home screen, empty lists, no selection, English, and no flag set |
| AppState.App.LoadSurahList | App.tsx:47-58 | the chapter list is stored on success and kept on failure; nothing else changes |
| AppState.App.LoadSurah | App.tsx:60-76 | the chapter and its screen are set whatever the outcome; the verses are replaced only by a response that pairs up; loading ends false |
| AppState.App.OpenSurah | App.tsx:237 | a chapter from the list is loaded in the current language |
| AppState.App.LoadHadithCollection | App.tsx:78-87 | the collection and its screen are set first; the list always becomes the service's result; loading ends false |
| AppState.App.AskAI | App.tsx:89-98 | the overlay opens; the insight is asked for in the current language name; a failure keeps the previous insight; the busy flag ends false |
| AppState.App.CloseAIModal | App.tsx:353 | only the overlay flag changes, to closed |
| AppState.App.AnalyzeIsnad | App.tsx:100-108 | switches to the analyser; sends the isnad or "Chain not provided" with the Arabic text; a failure keeps the previous analysis; the busy flag ends false |
| AppState.App.GoBack | App.tsx:128-129 | the back button goes to the home screen and changes nothing else |
| AppState.App.Navigate | App.tsx:396-398 | a navigation item switches the screen and changes nothing else |
| AppState.App.ToggleLanguage | App.tsx:400-403 | flips the language; reloads the chapter in the new language only on the chapter screen; otherwise nothing else changes |
| AppState.App.SetSearchQuery | App.tsx:137 | the search text is stored and nothing else changes |
| AppState.ToggleTwice | App.tsx:400-403 | two toggles restore the language, and away from the chapter screen they restore every slot |

## Left out

- Network I/O (`fetch`, `res.json()`, `Promise.all`) is out. The responses are inputs: `None` for a rejected request or a failed decoding.
- `services/geminiService.ts` is not part of this model. The AI requests are function parameters that return an insight or an analysis, or `None` for a thrown error. Prompts, response schemas and `JSON.parse` are remote behaviour.
- Rendering is out: JSX, CSS classes, `translationClass` (App.tsx:110-113), `alert` and `console.error`.
- The interleaving of handlers that are in flight at the same time is out. Each handler is one atomic step, so a stale response that overwrites a newer one is not modelled. Neither is the busy state shown while a request is pending.
- `useMemo` and `useEffect` scheduling are out. `SortCollections` takes the collection list as a parameter. The static tables `HADITH_COLLECTIONS` and `EXTERNAL_RESOURCES` are data.
- `constants.tsx` is not part of this model apart from the three badge colours it defines.
- Text.ToUpper, Text.Capitalize: only ASCII letters are upper-cased. JavaScript's `toUpperCase` also maps other letters, and can lengthen some (such as 'ß').
- HadithService.HadithListFrom: the model takes book and hadith numbers as text. The API may send them as JSON numbers, and the number 0, which `||` treats as false, is modelled as a missing value.
- HadithService.HadithListFrom: if an Arabic `text` is a non-string value that `||` treats as true, `split` would throw. This is not modelled.
- AppLogic.BadgeFor: a grading equal to the name of an inherited object property (such as "toString") would find that property. This is not modelled.
- AppState.App.LoadSurahList: a response without a `data` field, which would store `undefined` as the chapter list, is not modelled.
- AppLogic.ZipVerses: a translation verse without `text` (which gives an undefined `translatedText`) is not modelled. Verse texts are strings.
- The sentence-grouping text splitter and the local-model AI dispatch are not part of this model.
