/**
 * The record shaping of the hadith service: two editions of one collection
 * (Arabic and English), as fetched from the Hadith API, become at most forty
 * narrations paired by position. The two HTTP requests are a parameter
 * (`fetch`); a request or a JSON decoding that fails is `None`.
 *
 * The raw records flatten the optional chaining of the source: a missing
 * `grades` array is the empty sequence, a missing first grade or a missing
 * `reference` has every field `None`. A JavaScript value that `||` treats as
 * false is `None` or the empty string.
 */
module HadithService {
  import opened Types
  import opened Text

  const BaseUrl: string := "https://cdn.jsdelivr.net/gh/fawazahmed0/hadith-api@1"

  /** At most this many narrations are shaped. */
  const MaxHadiths: nat := 40
  /** The fallback chain keeps this many space-separated words. */
  const IsnadWords: nat := 15

  const ArabicFallback: string := "النص العربي غير متوفر"
  const EnglishFallback: string := "No translation available"
  const DefaultBookNumber: string := "1"
  const DefaultGradedBy: string := "Scholarship"
  const DefaultChapter: string := "Chapter"
  const Ellipsis: string := "..."

  datatype RawGrade = RawGrade(name: Option<string>, grade: Option<string>)

  /** One element of an edition's `hadiths` array. */
  datatype RawHadith = RawHadith(
    text: Option<string>,
    bookNumber: Option<string>,
    hadithNumber: Option<string>,
    grades: seq<RawGrade>,
    referenceBook: Option<string>)

  /** The decoded JSON body of one edition; a `null` element of `hadiths` is `None`. */
  datatype RawEdition = RawEdition(hadiths: Option<seq<Option<RawHadith>>>)

  /** The object literal `{}`. */
  const EmptyEntry: RawHadith := RawHadith(None, None, None, [], None)

  /** Whether JavaScript treats the string as true. */
  predicate Truthy(v: Option<string>)
  {
    v.Some? && v.value != []
  }

  /** `v || fallback` on a string. */
  function Or(v: Option<string>, fallback: string): (r: string)
    ensures Truthy(v) ==> r == v.value
    ensures !Truthy(v) ==> r == fallback
    ensures fallback != [] ==> r != []
  {
    if Truthy(v) then v.value else fallback
  }

  /** `data.hadiths || []`: a missing array reads as the empty list. */
  function HadithsOf(data: RawEdition): (list: seq<Option<RawHadith>>)
    ensures data.hadiths.Some? ==> list == data.hadiths.value
    ensures data.hadiths.None? ==> list == []
  {
    if data.hadiths.Some? then data.hadiths.value else []
  }

  const EditionsPath: string := "/editions/"
  const JsonSuffix: string := ".json"

  /**
   * The URL of one edition of a collection: the API base and the editions
   * directory, then `language-collection`, then the JSON file suffix.
   */
  function EditionUrl(language: string, collection: string): (url: string)
    ensures |url| == |BaseUrl| + |EditionsPath| + |language| + 1 + |collection| + |JsonSuffix|
    ensures url[..|BaseUrl| + |EditionsPath|] == BaseUrl + EditionsPath
    ensures url[|BaseUrl| + |EditionsPath|..|url| - |JsonSuffix|] == language + "-" + collection
    ensures url[|url| - |JsonSuffix|..] == JsonSuffix
  {
    var url := BaseUrl + EditionsPath + language + "-" + collection + JsonSuffix;
    assert url == (BaseUrl + EditionsPath) + (language + "-" + collection) + JsonSuffix;
    url
  }

  /** The two requests of one collection ask for different files. */
  lemma ArabicAndEnglishUrlsDiffer(collection: string)
    ensures EditionUrl("ara", collection) != EditionUrl("eng", collection)
  {
    var n := |BaseUrl| + |EditionsPath|;
    var a := EditionUrl("ara", collection);
    var e := EditionUrl("eng", collection);
    assert a[n..|a| - |JsonSuffix|][0] == 'a';
    assert e[n..|e| - |JsonSuffix|][0] == 'e';
  }

  /** `araList[index] || {}`, which is also `{}` past the end of the list. */
  function ArabicEntry(araList: seq<Option<RawHadith>>, index: nat): (e: RawHadith)
    ensures index >= |araList| ==> e == EmptyEntry
    ensures index < |araList| && araList[index].Some? ==> e == araList[index].value
    ensures index < |araList| && araList[index].None? ==> e == EmptyEntry
  {
    if index < |araList| && araList[index].Some? then araList[index].value else EmptyEntry
  }

  /** `h.grades?.[0]`, with a missing entry read as one without fields. */
  function FirstGrade(h: RawHadith): (g: RawGrade)
    ensures h.grades != [] ==> g == h.grades[0]
    ensures h.grades == [] ==> g.name.None? && g.grade.None?
  {
    if h.grades != [] then h.grades[0] else RawGrade(None, None)
  }

  /**
   * The fallback chain of narrators: the first fifteen space-separated words
   * of the Arabic text, joined by spaces, followed by "...". The part before
   * "..." is the text cut just before its fifteenth space, or the whole text
   * when it has fewer than fifteen spaces.
   */
  function FallbackIsnad(text: string): (r: string)
    ensures |r| >= |Ellipsis| && r[|r| - |Ellipsis|..] == Ellipsis
    ensures CutBeforeSpace(text, r[..|r| - |Ellipsis|], IsnadWords)
  {
    var head := Join(Take(Split(text), IsnadWords));
    JoinTakeSplit(text, IsnadWords);
    assert (head + Ellipsis)[..|head|] == head;
    head + Ellipsis
  }

  /** Shaping element `index` of the English list with its Arabic partner. */
  function ShapeHadith(collection: string, arabic: RawHadith, h: RawHadith, index: nat): (r: Hadith)
    ensures r.id == collection + "-" + NatToString(index)
    ensures r.collection == Capitalize(collection)
    ensures r.arabicText != [] && r.englishText != []
    ensures r.gradedBy.Some? && r.chapterTitle.Some? && r.tamilText.None?
    ensures r.isnad.Some? <==> Truthy(arabic.text)
  {
    var grade := FirstGrade(h);
    Hadith(
      id := collection + "-" + NatToString(index),
      collection := Capitalize(collection),
      bookNumber := Or(h.bookNumber, DefaultBookNumber),
      hadithNumber := Or(h.hadithNumber, NatToString(index + 1)),
      arabicText := Or(arabic.text, ArabicFallback),
      englishText := Or(h.text, EnglishFallback),
      tamilText := None,
      grading := Or(grade.grade, HadithGrading.Sahih.Name()),
      gradedBy := Some(Or(grade.name, DefaultGradedBy)),
      isnad := if Truthy(arabic.text) then Some(FallbackIsnad(arabic.text.value)) else None,
      chapterTitle := Some(Or(h.referenceBook, DefaultChapter)))
  }

  /**
   * Shaping the first forty English entries fails, like the `TypeError` that
   * the `catch` turns into an empty list, when one of them is `null`.
   */
  predicate ShapingSucceeds(ara: Option<RawEdition>, eng: Option<RawEdition>): (ok: bool)
    ensures ok <==> && ara.Some? && eng.Some?
                    && forall i :: 0 <= i < |HadithsOf(eng.value)| && i < MaxHadiths ==> HadithsOf(eng.value)[i].Some?
  {
    ara.Some? && eng.Some? && None !in Take(HadithsOf(eng.value), MaxHadiths)
  }

  /** The narrations shaped from the two decoded editions; `[]` on any failure. */
  function HadithListFrom(collection: string, ara: Option<RawEdition>, eng: Option<RawEdition>): (r: seq<Hadith>)
    ensures |r| <= MaxHadiths
    ensures !ShapingSucceeds(ara, eng) ==> r == []
  {
    if !ShapingSucceeds(ara, eng) then []
    else
      var araList := HadithsOf(ara.value);
      var window := Take(HadithsOf(eng.value), MaxHadiths);
      seq(|window|, i requires 0 <= i < |window| =>
        assert window[i] in window;
        ShapeHadith(collection, ArabicEntry(araList, i), window[i].value, i))
  }

  /** `fetchHadithList(collection)`, with the two requests answered by `fetch`. */
  function FetchHadithList(collection: string, fetch: string -> Option<RawEdition>): (r: seq<Hadith>)
    ensures |r| <= MaxHadiths
    ensures fetch(EditionUrl("ara", collection)).None? ==> r == []
    ensures fetch(EditionUrl("eng", collection)).None? ==> r == []
  {
    HadithListFrom(collection, fetch(EditionUrl("ara", collection)), fetch(EditionUrl("eng", collection)))
  }

  // ---------------------------------------------------------------------
  // Properties of the shaped list

  function Min(a: nat, b: nat): nat { if a < b then a else b }

  /** The English entries that are shaped. */
  function Window(eng: RawEdition): seq<Option<RawHadith>>
  {
    Take(HadithsOf(eng), MaxHadiths)
  }

  /**
   * The list has one narration per English entry, up to forty; the Arabic
   * list plays no part in the count, and no English entries give no narrations.
   */
  lemma HadithListLength(collection: string, ara: Option<RawEdition>, eng: Option<RawEdition>)
    ensures var r := HadithListFrom(collection, ara, eng);
      |r| == if ShapingSucceeds(ara, eng) then Min(MaxHadiths, |HadithsOf(eng.value)|) else 0
    ensures eng.Some? && HadithsOf(eng.value) == [] ==> HadithListFrom(collection, ara, eng) == []
  {
  }

  /**
   * Replacing the Arabic edition by any other that was fetched changes no
   * narration's id, English text or count.
   */
  lemma ArabicEditionDoesNotAffectCount(collection: string, ara1: RawEdition, ara2: RawEdition, eng: Option<RawEdition>)
    ensures var r1 := HadithListFrom(collection, Some(ara1), eng);
      var r2 := HadithListFrom(collection, Some(ara2), eng);
      && |r1| == |r2|
      && forall i :: 0 <= i < |r1| ==> r1[i].id == r2[i].id && r1[i].englishText == r2[i].englishText
  {
  }

  /** Narration `i` of a list has the id `collection-i`. */
  lemma HadithId(collection: string, ara: Option<RawEdition>, eng: Option<RawEdition>, i: nat)
    requires i < |HadithListFrom(collection, ara, eng)|
    ensures HadithListFrom(collection, ara, eng)[i].id == collection + "-" + NatToString(i)
  {
  }

  /** No two narrations of one list share an id. */
  lemma {:induction false} HadithIdsDistinct(collection: string, ara: Option<RawEdition>, eng: Option<RawEdition>, i: nat, j: nat)
    requires i < j < |HadithListFrom(collection, ara, eng)|
    ensures HadithListFrom(collection, ara, eng)[i].id != HadithListFrom(collection, ara, eng)[j].id
  {
    var prefix := collection + "-";
    var a := prefix + NatToString(i);
    var b := prefix + NatToString(j);
    if a == b {
      assert a[|prefix|..] == NatToString(i);
      assert b[|prefix|..] == NatToString(j);
      NatToStringInjective(i, j);
    }
  }

  /**
   * The collection name of every narration is the requested collection with
   * its first letter upper-cased and the rest, and the length, unchanged.
   */
  lemma HadithCollectionName(collection: string, ara: Option<RawEdition>, eng: Option<RawEdition>, i: nat)
    requires i < |HadithListFrom(collection, ara, eng)|
    ensures var name := HadithListFrom(collection, ara, eng)[i].collection;
      && |name| == |collection|
      && (collection != [] ==> name[0] == ToUpper(collection[0]) && name[1..] == collection[1..])
  {
  }

  /**
   * Each locator and grading field takes the English entry's value when it is
   * present and non-empty and a fixed default otherwise; the hadith number
   * defaults to the decimal string of `i + 1`, the grading to "Sahih".
   */
  lemma HadithFieldDefaults(collection: string, ara: Option<RawEdition>, eng: Option<RawEdition>, i: nat)
    requires i < |HadithListFrom(collection, ara, eng)|
    ensures ShapingSucceeds(ara, eng) && i < |Window(eng.value)| && Window(eng.value)[i].Some?
    ensures var h := Window(eng.value)[i].value;
      var r := HadithListFrom(collection, ara, eng)[i];
      && r.bookNumber == (if Truthy(h.bookNumber) then h.bookNumber.value else DefaultBookNumber)
      && r.hadithNumber == (if Truthy(h.hadithNumber) then h.hadithNumber.value else NatToString(i + 1))
      && r.englishText == (if Truthy(h.text) then h.text.value else EnglishFallback)
      && r.grading == (if Truthy(FirstGrade(h).grade) then FirstGrade(h).grade.value else "Sahih")
      && r.gradedBy == Some(if Truthy(FirstGrade(h).name) then FirstGrade(h).name.value else DefaultGradedBy)
      && r.chapterTitle == Some(if Truthy(h.referenceBook) then h.referenceBook.value else DefaultChapter)
  {
    var window := Window(eng.value);
    assert window[i] in window;
  }

  /**
   * The Arabic text comes from the Arabic entry at the same position, with a
   * fixed fallback when that entry has no text or the Arabic list is shorter;
   * the chain is present exactly when that text is, and is then the text cut
   * before its fifteenth space followed by "...".
   */
  lemma HadithArabicTextAndIsnad(collection: string, ara: Option<RawEdition>, eng: Option<RawEdition>, i: nat)
    requires i < |HadithListFrom(collection, ara, eng)|
    ensures ara.Some?
    ensures var a := ArabicEntry(HadithsOf(ara.value), i).text;
      var r := HadithListFrom(collection, ara, eng)[i];
      && r.arabicText != [] && r.englishText != []
      && r.arabicText == (if Truthy(a) then a.value else ArabicFallback)
      && (r.isnad.Some? <==> Truthy(a))
      && (r.isnad.Some? ==> r.isnad.value == FallbackIsnad(a.value))
      && (i >= |HadithsOf(ara.value)| ==> r.arabicText == ArabicFallback && r.isnad.None?)
  {
  }

  /** With fewer than fifteen words the whole text is kept and "..." is still appended. */
  lemma FallbackIsnadShortText(text: string)
    requires Spaces(text) < IsnadWords
    ensures FallbackIsnad(text) == text + Ellipsis
  {
    var r := FallbackIsnad(text);
    assert r == r[..|r| - |Ellipsis|] + r[|r| - |Ellipsis|..];
  }

  /**
   * The words of the fallback chain (before "...") are exactly the first
   * fifteen words of the Arabic text, as `split(' ').slice(0, 15)` gives them.
   */
  lemma {:induction false} FallbackIsnadWords(text: string)
    ensures var r := FallbackIsnad(text);
      Split(r[..|r| - |Ellipsis|]) == Take(Split(text), IsnadWords)
  {
    var parts := Take(Split(text), IsnadWords);
    var r := FallbackIsnad(text);
    assert r[..|r| - |Ellipsis|] == Join(parts);
    assert forall k :: 0 <= k < |parts| ==> parts[k] == Split(text)[k];
    SplitJoin(parts);
  }
}
