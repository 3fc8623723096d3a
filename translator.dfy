/** translateToPortuguese: maps an upstream weather-condition string to one of
    six Portuguese labels by the nearest English keyword under edit distance,
    ignoring case. The running best distance starts at the input's byte
    length and the running best answer at the input itself, so the input comes
    back unchanged unless some keyword is strictly closer than that. */
module Translator {
  import opened Text
  import opened Levenshtein

  /** The keyword-to-label table of main.go, a Go map literal. */
  const Translations: map<string, string> :=
    map["Clear" := "Limpo",
        "Clouds" := "Nuvens",
        "Rain" := "Chuva",
        "Drizzle" := "Garoa",
        "Thunderstorm" := "Trovoadas",
        "Snow" := "Neve"]

  /** Edit distance between the lower-cased input and the lower-cased keyword. */
  function Dist(text: string, key: string): nat
  {
    Lev(Lower(text), Lower(key))
  }

  /** No keyword is strictly closer to the input than its own byte length. */
  predicate NoKeywordCloser(text: string)
  {
    forall key :: key in Translations ==> Dist(text, key) >= ByteLen(text)
  }

  /** key is a keyword at least as close to the input as every other keyword. */
  predicate IsNearest(text: string, key: string)
  {
    key in Translations && forall other :: other in Translations ==> Dist(text, key) <= Dist(text, other)
  }

  /** r is an answer translateToPortuguese may give for text, whatever order
      the map is walked in: the input itself when no keyword is strictly
      closer than its byte length, and otherwise the label of some nearest
      keyword, whose distance is then below that length. */
  ghost predicate IsTranslation(text: string, r: string)
  {
    if NoKeywordCloser(text) then r == text
    else exists key :: IsNearest(text, key) && Dist(text, key) < ByteLen(text) && r == Translations[key]
  }

  /** The walk over the map. Go visits the keys of a map in an unspecified
      order; each step here takes any key not yet visited. After each step
      bestDistance has not grown, stays within the byte length, is no more
      than the distance of every keyword visited so far, and, once a label is
      chosen, is that label's keyword's distance. */
  method TranslateToPortuguese(text: string) returns (r: string)
    ensures IsTranslation(text, r)
    ensures r == text || r in Translations.Values
  {
    var lowerText := Lower(text);
    var bestMatch := text;
    var bestDistance := ByteLen(text);
    ghost var chosen := false;
    ghost var bestKey := "";
    var remaining := Translations.Keys;
    while remaining != {}
      invariant remaining <= Translations.Keys
      invariant bestDistance <= ByteLen(text)
      invariant forall key :: key in Translations && key !in remaining ==> bestDistance <= Dist(text, key)
      invariant !chosen ==> bestMatch == text && bestDistance == ByteLen(text)
      invariant chosen ==> bestKey in Translations && bestMatch == Translations[bestKey]
      invariant chosen ==> bestDistance == Dist(text, bestKey) && bestDistance < ByteLen(text)
      decreases remaining
    {
      var key :| key in remaining;
      var value := Translations[key];
      var distance := EditDistance(lowerText, Lower(key));
      ghost var before := bestDistance;
      if distance < bestDistance {
        bestMatch, bestDistance := value, distance;
        chosen, bestKey := true, key;
      }
      assert bestDistance <= before;
      remaining := remaining - {key};
    }
    r := bestMatch;
    if chosen {
      assert IsNearest(text, bestKey);
    }
  }

  /** The answer is the input itself or one of the six Portuguese labels. */
  lemma TranslationIsLabelOrInput(text: string, r: string)
    requires IsTranslation(text, r)
    ensures r == text || r in {"Limpo", "Nuvens", "Chuva", "Garoa", "Trovoadas", "Neve"}
  {
  }

  /** The empty input always comes back unchanged. */
  lemma EmptyInputUnchanged(r: string)
    requires IsTranslation("", r)
    ensures r == ""
  {
  }

  /** No two keywords of the table are equal once lower-cased. */
  lemma KeywordsDistinctIgnoringCase(k1: string, k2: string)
    requires k1 in Translations && k2 in Translations
    requires Lower(k1) == Lower(k2)
    ensures k1 == k2
  {
    assert |k1| == |Lower(k1)| == |Lower(k2)| == |k2|;
    assert Lower(k1)[0] == Lower(k2)[0];
  }

  /** An input equal to a keyword up to case is translated to that keyword's
      label: its distance to that keyword is zero, to every other keyword it
      is positive, and its byte length is positive. */
  lemma ExactMatchTranslates(text: string, key: string, r: string)
    requires key in Translations && Lower(text) == Lower(key)
    requires IsTranslation(text, r)
    ensures r == Translations[key]
  {
    LevZeroIff(Lower(text), Lower(key));
    assert |text| == |Lower(key)| == |key| > 0;
    assert Dist(text, key) < ByteLen(text);
    var other :| IsNearest(text, other) && Dist(text, other) < ByteLen(text) && r == Translations[other];
    LevZeroIff(Lower(text), Lower(other));
    KeywordsDistinctIgnoringCase(key, other);
  }

  /** translate("clouds") is "Nuvens". */
  lemma CloudsIsNuvens(r: string)
    requires IsTranslation("clouds", r)
    ensures r == "Nuvens"
  {
    assert Lower("clouds") == "clouds" && Lower("Clouds") == "clouds";
    ExactMatchTranslates("clouds", "Clouds", r);
  }

  /** translate("light rain") is "Chuva", a fuzzy match: "rain" is at most 6
      away, every other keyword at least 7, and the input is 10 bytes long. */
  lemma LightRainIsChuva(r: string)
    requires IsTranslation("light rain", r)
    ensures r == "Chuva"
  {
    LightRainBytes();
    LightRainNearRain();
    LightRainFarFromClear();
    LightRainFarFromClouds();
    LightRainFarFromDrizzle();
    LightRainFarFromSnow();
    LightRainFarFromThunderstorm();
    RainWins("light rain", r);
  }

  /** An input strictly nearer to "Rain" than to every other keyword, and
      nearer than its own byte length, is translated to "Chuva". */
  lemma RainWins(text: string, r: string)
    requires IsTranslation(text, r)
    requires Dist(text, "Rain") < ByteLen(text)
    requires Dist(text, "Rain") < Dist(text, "Clear") && Dist(text, "Rain") < Dist(text, "Clouds")
    requires Dist(text, "Rain") < Dist(text, "Drizzle") && Dist(text, "Rain") < Dist(text, "Snow")
    requires Dist(text, "Rain") < Dist(text, "Thunderstorm")
    ensures r == "Chuva"
  {
  }

  lemma LightRainBytes()
    ensures ByteLen("light rain") == 10
  {
  }

  /** Deleting "light " reaches "rain". */
  lemma LightRainNearRain()
    ensures Dist("light rain", "Rain") <= 6
  {
    assert Lower("light rain") == "light " + "rain" && Lower("Rain") == "rain";
    LevDeletePrefix("light ", "rain");
  }

  /** The runes of "light rain". */
  function LightRainRunes(): (t: set<char>)
    ensures forall k :: 0 <= k < |"light rain"| ==> "light rain"[k] in t
  {
    {'l', 'i', 'g', 'h', 't', ' ', 'r', 'a', 'n'}
  }

  /** Only 3 runes of "clear" occur in the 10 runes of "light rain". */
  lemma LightRainFarFromClear()
    ensures Dist("light rain", "Clear") >= 7
  {
    assert Lower("light rain") == "light rain" && Lower("Clear") == "clear";
    assert Hits("clear", LightRainRunes(), 5) == 3;
    LevUnmatchedBound("light rain", "clear", LightRainRunes());
  }

  /** Only 1 rune of "clouds" occurs in "light rain". */
  lemma LightRainFarFromClouds()
    ensures Dist("light rain", "Clouds") >= 7
  {
    assert Lower("light rain") == "light rain" && Lower("Clouds") == "clouds";
    assert Hits("clouds", LightRainRunes(), 6) == 1;
    LevUnmatchedBound("light rain", "clouds", LightRainRunes());
  }

  /** Only 3 runes of "drizzle" occur in "light rain". */
  lemma LightRainFarFromDrizzle()
    ensures Dist("light rain", "Drizzle") >= 7
  {
    assert Lower("light rain") == "light rain" && Lower("Drizzle") == "drizzle";
    assert Hits("drizzle", LightRainRunes(), 7) == 3;
    LevUnmatchedBound("light rain", "drizzle", LightRainRunes());
  }

  /** Only 1 rune of "snow" occurs in "light rain". */
  lemma LightRainFarFromSnow()
    ensures Dist("light rain", "Snow") >= 7
  {
    assert Lower("light rain") == "light rain" && Lower("Snow") == "snow";
    assert Hits("snow", LightRainRunes(), 4) == 1;
    LevUnmatchedBound("light rain", "snow", LightRainRunes());
  }

  /** Only 4 runes of "light rain" occur in the 12 runes of "thunderstorm". */
  lemma LightRainFarFromThunderstorm()
    ensures Dist("light rain", "Thunderstorm") >= 7
  {
    var storm := "thunderstorm";
    var inStorm := {'t', 'h', 'u', 'n', 'd', 'e', 'r', 's', 'o', 'm'};
    assert Lower("light rain") == "light rain" && Lower("Thunderstorm") == storm;
    assert forall k :: 0 <= k < |storm| ==> storm[k] in inStorm;
    assert Hits("light rain", inStorm, 10) == 4;
    LevUnmatchedBound(storm, "light rain", inStorm);
    LevSymmetric(storm, "light rain");
  }

  /** A keyword strictly nearer than all others and strictly closer than the
      input's byte length is the one whose label comes back. */
  lemma UniqueNearestIsChosen(text: string, key: string, r: string)
    requires key in Translations && Dist(text, key) < ByteLen(text)
    requires forall other :: other in Translations && other != key ==> Dist(text, key) < Dist(text, other)
    requires IsTranslation(text, r)
    ensures r == Translations[key]
  {
  }

  /** The order the map is walked in matters only on a tie: when one keyword
      is strictly nearer than all others, every answer is the same. */
  lemma UniqueNearestDeterminesAnswer(text: string, key: string, r1: string, r2: string)
    requires key in Translations
    requires forall other :: other in Translations && other != key ==> Dist(text, key) < Dist(text, other)
    requires IsTranslation(text, r1) && IsTranslation(text, r2)
    ensures r1 == r2
  {
    if !NoKeywordCloser(text) {
      var k1 :| IsNearest(text, k1) && Dist(text, k1) < ByteLen(text) && r1 == Translations[k1];
      var k2 :| IsNearest(text, k2) && Dist(text, k2) < ByteLen(text) && r2 == Translations[k2];
      assert k1 == key && k2 == key;
    }
  }

  /** Changing the letter case of the input changes neither whether the input
      falls back to itself nor which keywords are nearest: an answer for one
      spelling is, as a label, an answer for the other. */
  lemma CaseChangeKeepsAnswer(t1: string, t2: string, r1: string)
    requires Lower(t1) == Lower(t2)
    requires IsTranslation(t1, r1)
    ensures NoKeywordCloser(t1) <==> NoKeywordCloser(t2)
    ensures !NoKeywordCloser(t1) ==> IsTranslation(t2, r1)
  {
    CaseChangeKeepsByteLen(t1, t2);
    assert forall key :: Dist(t1, key) == Dist(t2, key);
    if !NoKeywordCloser(t1) {
      var key :| IsNearest(t1, key) && Dist(t1, key) < ByteLen(t1) && r1 == Translations[key];
      assert IsNearest(t2, key);
    }
  }

  /** Go's len counts bytes while the distance counts runes. An input whose
      byte length exceeds both its rune count and the length of some keyword
      (non-ASCII text, say) is therefore always given a label (see IsTranslation),
      however far it is from every keyword. */
  lemma WideInputGetsLabel(text: string, key: string)
    requires key in Translations && |text| < ByteLen(text) && |key| < ByteLen(text)
    ensures !NoKeywordCloser(text)
  {
    assert |Lower(text)| == |text| && |Lower(key)| == |key|;
    LevUpperBound(Lower(text), Lower(key));
    assert Dist(text, key) < ByteLen(text);
  }
}
