/** The document classification of `ocr_image` (app.py, lines 96-103):
    ordered keyword groups searched for as substrings of the lower-cased text;
    the first group with a hit decides the label. */
module Classify {
  import opened Strings

  datatype DocumentType = BirthCertificate | IdentificationCard | Unknown

  /** The `document_type` string of the response. */
  function Label(d: DocumentType): string {
    match d
    case BirthCertificate => "Birth Certificate"
    case IdentificationCard => "Identification Card"
    case Unknown => "Unknown"
  }

  const BirthCertificateKeywords: seq<string> :=
    ["birth certificate", "child", "registry", "philippine statistics"]

  const IdentificationKeywords: seq<string> :=
    ["id", "republic", "philippines", "national id", "license", "passport"]

  /** `any(k in text for k in keywords)`. */
  predicate AnyIn(keywords: seq<string>, text: string) {
    exists k :: k in keywords && Contains(text, k)
  }

  /** Lines 97-103. */
  function Classify(text: string): DocumentType {
    var lowerText := Lower(text);
    if AnyIn(BirthCertificateKeywords, lowerText) then BirthCertificate
    else if AnyIn(IdentificationKeywords, lowerText) then IdentificationCard
    else Unknown
  }

  /** A keyword group paired with the label it assigns. */
  datatype Rule = Rule(assigns: DocumentType, keywords: seq<string>)

  /** The classifier as data: its groups, in the order they are tried. */
  const Rules: seq<Rule> :=
    [Rule(BirthCertificate, BirthCertificateKeywords), Rule(IdentificationCard, IdentificationKeywords)]

  /** A generic first-match-wins evaluation of an ordered rule list: the
      label of the first rule with a keyword in `text`, otherwise Unknown. */
  function FirstMatch(rules: seq<Rule>, text: string): (r: DocumentType)
    ensures r == Unknown || exists i :: 0 <= i < |rules| && rules[i].assigns == r
    ensures (forall i :: 0 <= i < |rules| ==> !AnyIn(rules[i].keywords, text)) ==> r == Unknown
    ensures forall i :: 0 <= i < |rules| && AnyIn(rules[i].keywords, text)
                        && (forall j :: 0 <= j < i ==> !AnyIn(rules[j].keywords, text))
                        ==> r == rules[i].assigns
  {
    if rules == [] then Unknown
    else if AnyIn(rules[0].keywords, text) then rules[0].assigns
    else
      var r := FirstMatch(rules[1..], text);
      assert forall i :: 1 <= i < |rules| ==> rules[i] == rules[1..][i - 1];
      r
  }

  /** The classifier is the first-match evaluation of its rule list over
      the lower-cased text. */
  lemma ClassifyIsFirstMatch(text: string)
    ensures Classify(text) == FirstMatch(Rules, Lower(text))
  {
    var l := Lower(text);
    assert Rules[0].keywords == BirthCertificateKeywords;
    assert Rules[1].keywords == IdentificationKeywords;
    if !AnyIn(BirthCertificateKeywords, l) && AnyIn(IdentificationKeywords, l) {
      assert forall j :: 0 <= j < 1 ==> !AnyIn(Rules[j].keywords, l);
    }
  }

  /** A birth-certificate keyword decides the label, whatever else the text
      holds; identification keywords decide only when no birth-certificate
      keyword occurs; with neither the label is Unknown. */
  lemma ClassifyOrder(text: string)
    ensures (exists k :: k in BirthCertificateKeywords && Contains(Lower(text), k))
            <==> Classify(text) == BirthCertificate
    ensures ((forall k :: k in BirthCertificateKeywords ==> !Contains(Lower(text), k))
             && exists k :: k in IdentificationKeywords && Contains(Lower(text), k))
            <==> Classify(text) == IdentificationCard
    ensures (forall k :: k in BirthCertificateKeywords + IdentificationKeywords ==> !Contains(Lower(text), k))
            <==> Classify(text) == Unknown
  {
  }

  /** Classification ignores letter case. */
  lemma ClassifyIgnoresCase(text: string)
    ensures Classify(Lower(text)) == Classify(text)
  {
    LowerIdempotent(text);
  }

  /** The empty text is Unknown. */
  lemma ClassifyEmpty()
    ensures Classify("") == Unknown
  {
    assert Lower("") == "";
    forall k | k in BirthCertificateKeywords + IdentificationKeywords ensures !Contains("", k) {
      NothingInEmpty(k);
    }
  }

  /** "national id" can never be the keyword that decides: every text that
      contains it also contains "id", which comes earlier in its group. */
  lemma NationalIdIsSubsumed(text: string)
    requires Contains(text, "national id")
    ensures Contains(text, "id")
  {
    assert OccursAt("national id", "id", 9);
    ContainsIff("national id", "id");
    ContainsTransitive(text, "national id", "id");
  }

  /** Substring, not word, matching: "id" inside "VIDEO" makes it an
      identification card. */
  lemma SubstringSemantics()
    ensures Classify("VIDEO") == IdentificationCard
  {
    assert Lower("VIDEO") == "video";
    assert OccursAt("video", "id", 1);
    ContainsIff("video", "id");
    forall k | k in BirthCertificateKeywords ensures !Contains("video", k) {
      if k == "child" {
        assert !MatchesFrom("video", "child", 0, 0);
      }
    }
  }

  /** "Philippine Statistics Authority Birth Certificate of John" is a birth
      certificate. The text is written as words joined by single spaces,
      which is the same string. */
  lemma ExampleBirthCertificate()
    ensures Classify("Philippine" + " " + "Statistics" + " " + "Authority" + " " + "Birth"
                     + " " + "Certificate" + " " + "of" + " " + "John") == BirthCertificate
  {
    var tail := "Authority" + " " + "Birth" + " " + "Certificate" + " " + "of" + " " + "John";
    var head := "Philippine" + " " + "Statistics";
    assert "Philippine" + " " + "Statistics" + " " + "Authority" + " " + "Birth"
           + " " + "Certificate" + " " + "of" + " " + "John" == head + (" " + tail);
    LowerAppend(head, " " + tail);
    assert Lower(head) == "philippine statistics";
    ContainsSelf("philippine statistics");
    ContainsConcat(Lower(head), Lower(" " + tail), "philippine statistics");
  }

  /** `p` occurs in none of the six words of "republic of the philippines
      driver's license", hence not in the phrase. */
  lemma AbsentFromLicense(p: string)
    requires p != [] && ' ' !in p
    requires !Contains("republic", p) && !Contains("of", p) && !Contains("the", p)
    requires !Contains("philippines", p) && !Contains("driver's", p) && !Contains("license", p)
    ensures !Contains("republic" + " " + "of" + " " + "the" + " " + "philippines" + " " + "driver's"
                      + " " + "license", p)
  {
    ContainsAcrossSpace("republic", "of", p);
    ContainsAcrossSpace("republic" + " " + "of", "the", p);
    ContainsAcrossSpace("republic" + " " + "of" + " " + "the", "philippines", p);
    ContainsAcrossSpace("republic" + " " + "of" + " " + "the" + " " + "philippines", "driver's", p);
    ContainsAcrossSpace("republic" + " " + "of" + " " + "the" + " " + "philippines" + " " + "driver's",
                        "license", p);
  }

  /** A text that contains a keyword contains each part of it. */
  lemma KeywordPart(text: string, keyword: string, part: string, at: nat)
    requires OccursAt(keyword, part, at) && Contains(text, keyword)
    ensures Contains(text, part)
  {
    ContainsIff(keyword, part);
    ContainsTransitive(text, keyword, part);
  }

  /** "republic of the philippines driver's license", written as its words. */
  const LicenseText: string := "republic" + " " + "of" + " " + "the" + " " + "philippines" + " " + "driver's"
                               + " " + "license"

  /** The words of "Republic of the Philippines Driver's License", lower-cased. */
  lemma LicenseLowered()
    ensures Lower("Republic" + " " + "of" + " " + "the" + " " + "Philippines" + " " + "Driver's"
                  + " " + "License")
            == "republic" + " " + "of" + " " + "the" + " " + "philippines" + " " + "driver's"
               + " " + "license"
  {
    LowerPhrase("Republic" + " " + "of" + " " + "the" + " " + "Philippines" + " " + "Driver's", "License");
    LowerPhrase("Republic" + " " + "of" + " " + "the" + " " + "Philippines", "Driver's");
    LowerPhrase("Republic" + " " + "of" + " " + "the", "Philippines");
    LowerPhrase("Republic" + " " + "of", "the");
    LowerPhrase("Republic", "of");
    assert Lower("Republic") == "republic" && Lower("of") == "of" && Lower("the") == "the";
    assert Lower("Philippines") == "philippines" && Lower("Driver's") == "driver's";
    assert Lower("License") == "license";
  }

  /** No birth-certificate keyword occurs in the lowered license text. */
  lemma LicenseHasNoBirthKeyword()
    ensures !AnyIn(BirthCertificateKeywords, LicenseText)
  {
    assert !Contains(LicenseText, "child") by { AbsentFromLicense("child"); }
    assert !Contains(LicenseText, "registry") by { AbsentFromLicense("registry"); }
    assert !Contains(LicenseText, "birth") by { AbsentFromLicense("birth"); }
    assert !Contains(LicenseText, "statistics") by { AbsentFromLicense("statistics"); }
    if Contains(LicenseText, "birth certificate") {
      KeywordPart(LicenseText, "birth certificate", "birth", 0);
    }
    if Contains(LicenseText, "philippine statistics") {
      KeywordPart(LicenseText, "philippine statistics", "statistics", 11);
    }
  }

  /** "Republic of the Philippines Driver's License" is an identification
      card: no birth-certificate keyword occurs, "republic" does. */
  lemma ExampleIdentificationCard()
    ensures Classify("Republic" + " " + "of" + " " + "the" + " " + "Philippines" + " " + "Driver's"
                     + " " + "License") == IdentificationCard
  {
    var l := "republic" + " " + "of" + " " + "the" + " " + "philippines" + " " + "driver's" + " " + "license";
    LicenseLowered();
    LicenseHasNoBirthKeyword();
    ContainsSelf("republic");
    ContainsConcat("republic", l[8..], "republic");
    assert l == "republic" + l[8..];
  }

  /** `p` occurs in none of the words of "random unrelated text". */
  lemma AbsentFromRandom(p: string)
    requires p != [] && ' ' !in p
    requires !Contains("random", p) && !Contains("unrelated", p) && !Contains("text", p)
    ensures !Contains("random" + " " + "unrelated" + " " + "text", p)
  {
    ContainsAcrossSpace("random", "unrelated", p);
    ContainsAcrossSpace("random" + " " + "unrelated", "text", p);
  }

  /** "random unrelated text", written as its words. */
  const RandomText: string := "random" + " " + "unrelated" + " " + "text"

  /** No keyword of either group occurs in "random unrelated text". */
  lemma RandomHasNoKeyword()
    ensures !AnyIn(BirthCertificateKeywords, RandomText)
    ensures !AnyIn(IdentificationKeywords, RandomText)
  {
    assert !Contains(RandomText, "child") by { AbsentFromRandom("child"); }
    assert !Contains(RandomText, "registry") by { AbsentFromRandom("registry"); }
    assert !Contains(RandomText, "birth") by { AbsentFromRandom("birth"); }
    assert !Contains(RandomText, "statistics") by { AbsentFromRandom("statistics"); }
    assert !Contains(RandomText, "id") by { AbsentFromRandom("id"); }
    assert !Contains(RandomText, "republic") by { AbsentFromRandom("republic"); }
    assert !Contains(RandomText, "philippines") by { AbsentFromRandom("philippines"); }
    assert !Contains(RandomText, "license") by { AbsentFromRandom("license"); }
    assert !Contains(RandomText, "passport") by { AbsentFromRandom("passport"); }
    if Contains(RandomText, "birth certificate") {
      KeywordPart(RandomText, "birth certificate", "birth", 0);
    }
    if Contains(RandomText, "philippine statistics") {
      KeywordPart(RandomText, "philippine statistics", "statistics", 11);
    }
    if Contains(RandomText, "national id") {
      NationalIdIsSubsumed(RandomText);
    }
  }

  /** "random unrelated text" matches no keyword: Unknown. */
  lemma ExampleUnknown()
    ensures Classify("random" + " " + "unrelated" + " " + "text") == Unknown
  {
    var l := "random" + " " + "unrelated" + " " + "text";
    assert Lower(l) == l by {
      LowerPhrase("random" + " " + "unrelated", "text");
      LowerPhrase("random", "unrelated");
      assert Lower("random") == "random" && Lower("unrelated") == "unrelated" && Lower("text") == "text";
    }
    RandomHasNoKeyword();
  }
}
