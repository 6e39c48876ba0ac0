/**
 * The entities of the reading application, transcribed from types.ts and
 * from the two result records of the AI service. They carry no behaviour.
 * Optional TypeScript properties (`x?: T`) become `Option<T>`.
 */
module Types {

  datatype Option<+T> = None | Some(value: T)

  /** A step that either yields a value or fails the way a thrown exception does. */
  datatype Result<+T> = Success(value: T) | Failure(reason: string)

  /**
   * The screens. `Resources` is referenced by the application but absent from
   * the enumeration in types.ts; at run time it is `undefined`, which still
   * compares equal to itself, so it behaves as a ninth screen.
   */
  datatype AppView =
    | Home
    | QuranList
    | SurahDetail
    | HadithCollections
    | HadithList
    | Search
    | IsnadAnalyzer
    | BooksExplorer
    | Resources

  datatype TranslationLang = En | Ta

  /** The enumerated gradings and the strings that stand for them. */
  datatype HadithGrading = Sahih | Hasan | Daif | Mawdu | Unknown {
    function Name(): (s: string)
      ensures s != []
    {
      match this
      case Sahih => "Sahih"
      case Hasan => "Hasan"
      case Daif => "Da'if"
      case Mawdu => "Mawdu"
      case Unknown => "Unknown"
    }
  }

  datatype CollectionCategory = Primary | Fiqh | Grading | Moral

  datatype Surah = Surah(
    number: int,
    name: string,
    englishName: string,
    englishNameTranslation: string,
    numberOfAyahs: int,
    revelationType: string)

  datatype Ayah = Ayah(
    number: int,
    text: string,
    translatedText: Option<string>,
    numberInSurah: int,
    juz: int,
    surahName: Option<string>)

  /**
   * A narration. `grading` is a string: the service casts whatever the Hadith
   * API sends to the grading type without checking it.
   */
  datatype Hadith = Hadith(
    id: string,
    collection: string,
    bookNumber: string,
    hadithNumber: string,
    arabicText: string,
    englishText: string,
    tamilText: Option<string>,
    grading: string,
    gradedBy: Option<string>,
    isnad: Option<string>,
    chapterTitle: Option<string>)

  datatype CollectionMetadata = CollectionMetadata(
    id: string,
    name: string,
    description: string,
    totalHadiths: int,
    category: CollectionCategory,
    colorTheme: string)

  datatype AIInsight = AIInsight(translation: string, explanation: string, keyThemes: seq<string>)

  datatype Narrator = Narrator(name: string, reliability: string, bio: string)

  datatype IsnadAnalysis = IsnadAnalysis(reliability: string, narrators: seq<Narrator>, scholarlyNotes: string)
}
