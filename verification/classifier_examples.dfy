/** Worked examples of the classifier on concrete type strings. Each table
    is ruled in or out by its own lemma, keeping every proof small. */
module ClassifierExamples {
  import opened Wrappers
  import opened Classifier

  /** Keyword `j` holds a character that `text` lacks, and no later keyword
      occurs: then no keyword from `j` on occurs. */
  lemma RuleOutStep(text: string, keywords: seq<string>, j: nat, ch: char)
    requires j < |keywords| && ch in keywords[j] && ch !in text
    requires j + 1 < |keywords| ==> !AnyKeywordFrom(text, keywords, j + 1)
    ensures !AnyKeywordFrom(text, keywords, j)
  {
    MissingCharRulesOut(text, keywords[j], ch);
  }

  /** A table of six keywords, each holding a character `text` lacks, has
      no keyword occurring in `text`. */
  lemma RuleOutSix(text: string, keywords: seq<string>, c0: char, c1: char, c2: char, c3: char, c4: char, c5: char)
    requires |keywords| == 6
    requires c0 in keywords[0] && c0 !in text
    requires c1 in keywords[1] && c1 !in text
    requires c2 in keywords[2] && c2 !in text
    requires c3 in keywords[3] && c3 !in text
    requires c4 in keywords[4] && c4 !in text
    requires c5 in keywords[5] && c5 !in text
    ensures !AnyKeyword(text, keywords)
  {
    RuleOutStep(text, keywords, 5, c5);
    RuleOutStep(text, keywords, 4, c4);
    RuleOutStep(text, keywords, 3, c3);
    RuleOutStep(text, keywords, 2, c2);
    RuleOutStep(text, keywords, 1, c1);
    RuleOutStep(text, keywords, 0, c0);
  }

  /** The same for a table of five keywords. */
  lemma RuleOutFive(text: string, keywords: seq<string>, c0: char, c1: char, c2: char, c3: char, c4: char)
    requires |keywords| == 5
    requires c0 in keywords[0] && c0 !in text
    requires c1 in keywords[1] && c1 !in text
    requires c2 in keywords[2] && c2 !in text
    requires c3 in keywords[3] && c3 !in text
    requires c4 in keywords[4] && c4 !in text
    ensures !AnyKeyword(text, keywords)
  {
    RuleOutStep(text, keywords, 4, c4);
    RuleOutStep(text, keywords, 3, c3);
    RuleOutStep(text, keywords, 2, c2);
    RuleOutStep(text, keywords, 1, c1);
    RuleOutStep(text, keywords, 0, c0);
  }

  /** `t` is the lower-case form of `s`, checked character by character. */
  lemma LowerIs(s: string, t: string)
    requires |s| == |t| && forall i :: 0 <= i < |s| ==> LowerChar(s[i]) == t[i]
    ensures Lower(s) == t
  {
  }

  /** Keyword `k` of table `c` occurs in `text`. */
  lemma TableRuledIn(text: string, c: Category, k: string, m: nat)
    requires k in Keywords(c) && m <= |text| && k <= text[m..]
    ensures TableMatches(text, c)
  {
    OccurrenceRulesIn(text, k, m);
    AnyKeywordIffSome(text, Keywords(c));
  }

  lemma AudioMp4NotDocument()
    ensures !TableMatches("audio/mp4", Documents)
  {
    RuleOutSix("audio/mp4", Keywords(Documents), 't', 'c', 'f', 'w', 'e', 'w');
  }

  lemma AudioMp4NotImage()
    ensures !TableMatches("audio/mp4", Images)
  {
    RuleOutSix("audio/mp4", Keywords(Images), 'g', 'n', 'j', 'j', 'g', 'b');
  }

  lemma AudioMp4HasVideoKeyword()
    ensures TableMatches("audio/mp4", Videos)
  {
    assert "audio/mp4"[6..] == "mp4";
    TableRuledIn("audio/mp4", Videos, "mp4", 6);
  }

  /** The precedence case: "audio/mp4" holds the Videos keyword `mp4`, and
      the Videos table is tried before the Audio one. */
  lemma AudioMp4IsVideo()
    ensures FileCategory("audio/mp4") == Videos
  {
    LowerIs("audio/mp4", "audio/mp4");
    AudioMp4NotDocument();
    AudioMp4NotImage();
    AudioMp4HasVideoKeyword();
  }

  lemma UnknownNotDocument()
    ensures !TableMatches("unknown", Documents)
  {
    RuleOutSix("unknown", Keywords(Documents), 't', 'd', 'p', 'r', 'e', 'p');
  }

  lemma UnknownNotImage()
    ensures !TableMatches("unknown", Images)
  {
    RuleOutSix("unknown", Keywords(Images), 'i', 'p', 'j', 'j', 'g', 'b');
  }

  lemma UnknownNotVideo()
    ensures !TableMatches("unknown", Videos)
  {
    RuleOutFive("unknown", Keywords(Videos), 'v', 'm', 'a', 'm', 'm');
  }

  lemma UnknownNotAudio()
    ensures !TableMatches("unknown", Audio)
  {
    RuleOutFive("unknown", Keywords(Audio), 'a', 'm', 'a', 'g', 'm');
  }

  lemma UnknownNotArchive()
    ensures !TableMatches("unknown", Archives)
  {
    RuleOutFive("unknown", Keywords(Archives), 'z', 'r', '7', 't', 'g');
  }

  /** A file whose type cannot be guessed is classified as `Others`. */
  lemma UnknownIsOther()
    ensures FileCategory(FileType(None)) == Others
  {
    LowerIs("Unknown", "unknown");
    UnknownNotDocument();
    UnknownNotImage();
    UnknownNotVideo();
    UnknownNotAudio();
    UnknownNotArchive();
  }

  lemma ImageJpegNotDocument()
    ensures !TableMatches("image/jpeg", Documents)
  {
    RuleOutSix("image/jpeg", Keywords(Documents), 't', 'd', 'd', 'w', 'x', 'o');
  }

  lemma ImageJpegHasImageKeyword()
    ensures TableMatches("image/jpeg", Images)
  {
    assert "image/jpeg"[0..] == "image/jpeg";
    TableRuledIn("image/jpeg", Images, "image", 0);
  }

  /** Upper-case type strings are classified like their lower-case form:
      "IMAGE/JPEG" is an image. */
  lemma UpperCaseImage()
    ensures FileCategory("IMAGE/JPEG") == Images
  {
    LowerIs("IMAGE/JPEG", "image/jpeg");
    ImageJpegNotDocument();
    ImageJpegHasImageKeyword();
  }
}
