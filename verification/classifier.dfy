/** The MIME-type classifier of app.py: `get_file_type` turns the guessed MIME
    type into a type string, and `get_file_category` maps that string to one of
    six category labels by ordered, first-match-wins keyword search. */
module Classifier {
  import opened Wrappers

  /** The six category labels. */
  datatype Category = Documents | Images | Videos | Audio | Archives | Others

  /** Position of a category in the order its keyword table is tried;
      `Others` is the fall-back and comes last. */
  function Rank(c: Category): nat
  {
    match c
    case Documents => 0
    case Images => 1
    case Videos => 2
    case Audio => 3
    case Archives => 4
    case Others => 5
  }

  /** The keyword table of each category (`Others` has none). */
  function Keywords(c: Category): (ks: seq<string>)
    ensures ks == [] <==> c == Others
  {
    match c
    case Documents => ["text", "document", "pdf", "word", "excel", "powerpoint"]
    case Images => ["image", "png", "jpeg", "jpg", "gif", "bmp"]
    case Videos => ["video", "mp4", "avi", "mov", "wmv"]
    case Audio => ["audio", "mp3", "wav", "ogg", "m4a"]
    case Archives => ["zip", "rar", "7z", "tar", "gz"]
    case Others => []
  }

  /** The set of all labels: the keys of every category map. */
  const AllCategories: set<Category> := {Documents, Images, Videos, Audio, Archives, Others}

  lemma EveryCategoryListed()
    ensures forall c: Category :: c in AllCategories
  {
    forall c: Category
      ensures c in AllCategories
    {
      match c
      case Documents =>
      case Images =>
      case Videos =>
      case Audio =>
      case Archives =>
      case Others =>
    }
  }

  /** Lower-casing of one character (ASCII letters only). */
  function LowerChar(ch: char): char
  {
    if 'A' <= ch <= 'Z' then (ch as int + 32) as char else ch
  }

  /** `str.lower()`, restricted to ASCII letters. */
  function Lower(s: string): (r: string)
    ensures |r| == |s|
    ensures forall i :: 0 <= i < |s| ==> r[i] == LowerChar(s[i])
  {
    if |s| == 0 then "" else [LowerChar(s[0])] + Lower(s[1..])
  }

  /** Lower-casing twice is lower-casing once. */
  lemma LowerIdempotent(s: string)
    ensures Lower(Lower(s)) == Lower(s)
  {
    var once := Lower(s);
    var twice := Lower(once);
    assert forall i :: 0 <= i < |s| ==> twice[i] == once[i];
  }

  /** No letter of `s[i..]` is upper-case, checked one index at a time. */
  predicate NoUpperFrom(s: string, i: nat)
    decreases |s| - i
  {
    i >= |s| || (!('A' <= s[i] <= 'Z') && NoUpperFrom(s, i + 1))
  }

  lemma {:induction false} NoUpperFromMeans(s: string, i: nat)
    requires NoUpperFrom(s, i)
    ensures forall j :: i <= j < |s| ==> !('A' <= s[j] <= 'Z')
    decreases |s| - i
  {
    if i < |s| {
      NoUpperFromMeans(s, i + 1);
    }
  }

  /** A string with no upper-case letter is its own lower-case form. */
  lemma LowerOfLowerCase(s: string)
    requires NoUpperFrom(s, 0)
    ensures Lower(s) == s
  {
    NoUpperFromMeans(s, 0);
  }

  lemma DocumentsKeywordsLowerCase()
    ensures forall k :: k in Keywords(Documents) ==> k != "" && NoUpperFrom(k, 0)
  {
  }

  lemma ImagesKeywordsLowerCase()
    ensures forall k :: k in Keywords(Images) ==> k != "" && NoUpperFrom(k, 0)
  {
  }

  lemma VideosKeywordsLowerCase()
    ensures forall k :: k in Keywords(Videos) ==> k != "" && NoUpperFrom(k, 0)
  {
  }

  lemma AudioKeywordsLowerCase()
    ensures forall k :: k in Keywords(Audio) ==> k != "" && NoUpperFrom(k, 0)
  {
  }

  lemma ArchivesKeywordsLowerCase()
    ensures forall k :: k in Keywords(Archives) ==> k != "" && NoUpperFrom(k, 0)
  {
  }

  /** Every keyword is non-empty and has no upper-case letter. */
  lemma KeywordsLowerCase(c: Category)
    ensures forall k :: k in Keywords(c) ==> k != "" && Lower(k) == k
  {
    match c {
      case Documents => DocumentsKeywordsLowerCase();
      case Images => ImagesKeywordsLowerCase();
      case Videos => VideosKeywordsLowerCase();
      case Audio => AudioKeywordsLowerCase();
      case Archives => ArchivesKeywordsLowerCase();
      case Others =>
    }
    forall k | k in Keywords(c) ensures Lower(k) == k {
      LowerOfLowerCase(k);
    }
  }

  /** True when `keyword[j..]` appears in `text` starting at index `i + j`:
      the character-by-character comparison behind Python's `in`. */
  predicate MatchesAt(text: string, keyword: string, i: nat, j: nat)
    requires i + |keyword| <= |text| && j <= |keyword|
    decreases |keyword| - j
  {
    j == |keyword| || (text[i + j] == keyword[j] && MatchesAt(text, keyword, i, j + 1))
  }

  /** True when `keyword` occurs in `text` at some index `i` or later. */
  predicate ContainsFrom(text: string, keyword: string, i: nat)
    decreases |text| - i
  {
    i + |keyword| <= |text| && (MatchesAt(text, keyword, i, 0) || ContainsFrom(text, keyword, i + 1))
  }

  /** Python's `keyword in text`: `keyword` occurs in `text` as a contiguous
      substring. */
  predicate Contains(text: string, keyword: string)
  {
    ContainsFrom(text, keyword, 0)
  }

  lemma {:induction false} MatchesAtIffPrefix(text: string, keyword: string, i: nat, j: nat)
    requires i + |keyword| <= |text| && j <= |keyword|
    ensures MatchesAt(text, keyword, i, j) <==> keyword[j..] <= text[i + j..]
    decreases |keyword| - j
  {
    if j < |keyword| {
      MatchesAtIffPrefix(text, keyword, i, j + 1);
      assert keyword[j..] == [keyword[j]] + keyword[j + 1..];
      assert text[i + j..] == [text[i + j]] + text[i + j + 1..];
    }
  }

  lemma {:induction false} ContainsFromIffOccurs(text: string, keyword: string, i: nat)
    ensures ContainsFrom(text, keyword, i) <==>
              exists m :: i <= m <= |text| && keyword <= text[m..]
    decreases |text| - i
  {
    if i + |keyword| <= |text| {
      MatchesAtIffPrefix(text, keyword, i, 0);
      assert keyword[0..] == keyword;
      ContainsFromIffOccurs(text, keyword, i + 1);
      if exists m :: i <= m <= |text| && keyword <= text[m..] {
        var m :| i <= m <= |text| && keyword <= text[m..];
        assert m == i || i + 1 <= m;
      }
    }
  }

  /** `Contains` agrees with the declarative definition of a substring: some
      suffix of `text` starts with `keyword`. */
  lemma ContainsIffOccurs(text: string, keyword: string)
    ensures Contains(text, keyword) <==> exists m :: 0 <= m <= |text| && keyword <= text[m..]
  {
    ContainsFromIffOccurs(text, keyword, 0);
  }

  /** True when some keyword of `keywords[j..]` occurs in `text`. */
  predicate AnyKeywordFrom(text: string, keywords: seq<string>, j: nat)
    decreases |keywords| - j
  {
    j < |keywords| && (ContainsFrom(text, keywords[j], 0) || AnyKeywordFrom(text, keywords, j + 1))
  }

  /** Python's `any(keyword in text for keyword in keywords)`. */
  predicate AnyKeyword(text: string, keywords: seq<string>)
  {
    AnyKeywordFrom(text, keywords, 0)
  }

  lemma {:induction false} AnyKeywordFromIffSome(text: string, keywords: seq<string>, j: nat)
    ensures AnyKeywordFrom(text, keywords, j) <==>
              exists m :: j <= m < |keywords| && Contains(text, keywords[m])
    decreases |keywords| - j
  {
    if j < |keywords| {
      AnyKeywordFromIffSome(text, keywords, j + 1);
      if exists m :: j <= m < |keywords| && Contains(text, keywords[m]) {
        var m :| j <= m < |keywords| && Contains(text, keywords[m]);
        assert m == j || j + 1 <= m;
      }
    }
  }

  /** `AnyKeyword` holds exactly when some keyword of the list occurs. */
  lemma AnyKeywordIffSome(text: string, keywords: seq<string>)
    ensures AnyKeyword(text, keywords) <==> exists k :: k in keywords && Contains(text, k)
  {
    AnyKeywordFromIffSome(text, keywords, 0);
  }

  /** Every character of a keyword that occurs in `text` is a character of
      `text`. */
  lemma OccurrenceKeepsChars(text: string, keyword: string)
    ensures Contains(text, keyword) ==> forall ch :: ch in keyword ==> ch in text
  {
    ContainsIffOccurs(text, keyword);
    if Contains(text, keyword) {
      var m :| 0 <= m <= |text| && keyword <= text[m..];
      forall ch | ch in keyword
        ensures ch in text
      {
        var j :| 0 <= j < |keyword| && keyword[j] == ch;
        assert text[m..][j] == ch;
      }
    }
  }

  /** A keyword holding a character that `text` lacks does not occur in it. */
  lemma MissingCharRulesOut(text: string, keyword: string, ch: char)
    requires ch in keyword && ch !in text
    ensures !Contains(text, keyword)
  {
    OccurrenceKeepsChars(text, keyword);
  }

  /** A keyword that starts some suffix of `text` occurs in it. */
  lemma OccurrenceRulesIn(text: string, keyword: string, m: nat)
    requires m <= |text| && keyword <= text[m..]
    ensures Contains(text, keyword)
  {
    ContainsIffOccurs(text, keyword);
  }

  /** Lower-casing the text keeps every occurrence of a keyword that is its
      own lower-case form. */
  lemma LowerKeepsOccurrence(text: string, keyword: string)
    requires Lower(keyword) == keyword && Contains(text, keyword)
    ensures Contains(Lower(text), keyword)
  {
    ContainsIffOccurs(text, keyword);
    var m :| 0 <= m <= |text| && keyword <= text[m..];
    var lowered := Lower(text);
    forall j | 0 <= j < |keyword|
      ensures lowered[m + j] == keyword[j]
    {
      assert text[m..][j] == keyword[j];
      assert Lower(keyword)[j] == LowerChar(keyword[j]);
    }
    assert keyword <= lowered[m..];
    OccurrenceRulesIn(lowered, keyword, m);
  }

  /** A keyword of a table that occurs in the type string as given still
      occurs once the string is lower-cased: lower-casing cannot hide a
      keyword from the search. */
  lemma LowerKeepsTableMatch(fileType: string, c: Category)
    requires AnyKeyword(fileType, Keywords(c))
    ensures TableMatches(Lower(fileType), c)
  {
    AnyKeywordIffSome(fileType, Keywords(c));
    var k :| k in Keywords(c) && Contains(fileType, k);
    KeywordsLowerCase(c);
    LowerKeepsOccurrence(fileType, k);
    AnyKeywordIffSome(Lower(fileType), Keywords(c));
  }

  /** True when the table of category `c` has a keyword occurring in the
      lower-cased type string `lowered`. */
  predicate TableMatches(lowered: string, c: Category)
  {
    AnyKeyword(lowered, Keywords(c))
  }

  /** `get_file_type`: the guessed MIME type, or "Unknown" when the guess is
      `None` or empty (both are falsy for Python's `or`). */
  function FileType(guess: Option<string>): (t: string)
    ensures t != ""
    ensures guess.Some? && guess.value != "" ==> t == guess.value
    ensures guess.None? || guess.value == "" ==> t == "Unknown"
  {
    if guess.Some? && guess.value != "" then guess.value else "Unknown"
  }

  /** `get_file_category`: the tables are tried in the order Documents,
      Images, Videos, Audio, Archives on the lower-cased type string, and the
      first one with a matching keyword wins; otherwise `Others`. */
  function FileCategory(fileType: string): (c: Category)
    ensures c != Others ==> TableMatches(Lower(fileType), c)
    ensures forall d :: Rank(d) < Rank(c) ==> !TableMatches(Lower(fileType), d)
  {
    var t := Lower(fileType);
    if AnyKeyword(t, Keywords(Documents)) then Documents
    else if AnyKeyword(t, Keywords(Images)) then Images
    else if AnyKeyword(t, Keywords(Videos)) then Videos
    else if AnyKeyword(t, Keywords(Audio)) then Audio
    else if AnyKeyword(t, Keywords(Archives)) then Archives
    else Others
  }

  /** The first-match rule determines the category: a label whose table
      matches (or that is `Others`) and before which no table matches is the
      one `FileCategory` returns, and conversely. */
  lemma FirstMatchDeterminesCategory(fileType: string, c: Category)
    ensures FileCategory(fileType) == c <==>
              (c == Others || TableMatches(Lower(fileType), c)) &&
              (forall d :: Rank(d) < Rank(c) ==> !TableMatches(Lower(fileType), d))
  {
  }

  /** The category does not depend on letter case. */
  lemma CategoryIgnoresCase(fileType: string)
    ensures FileCategory(Lower(fileType)) == FileCategory(fileType)
  {
    LowerIdempotent(fileType);
  }
}
