# City weather proxy: condition translator and response cleaner

The service answers `/search?city=…` by fetching the current weather from
OpenWeather and handing back the city, the temperature and the weather
condition in Portuguese. This project models the two pieces of the service
that hold logic, both in `main.go`:

- **`translateToPortuguese`** maps an upstream condition string (`"Clouds"`,
  `"light rain"`, …) to one of six Portuguese labels: Limpo, Nuvens, Chuva,
  Garoa, Trovoadas, Neve. It lower-cases the input and every keyword and walks
  the keyword map. It keeps a label only when that keyword's edit distance is
  strictly below the best distance so far. The best distance starts at the
  input's length `len(text)`, and the best answer starts as the input itself.
- **`removeCharsFromJSON`** deletes every rune of a given set from a string.
  The handler uses it to strip `{` and `}` from the encoded response.

Modules:

- `Text` (`text.dfy`) covers ASCII lower-casing (`Lower`) and Go's `len` on
  strings (`ByteLen`). Go's `len` counts UTF-8 bytes, so `ByteLen` counts UTF-8
  bytes too. A Go string is modelled as its sequence of runes, which is what
  Dafny's `char` is.
- `Levenshtein` (`levenshtein.dfy`) holds the edit distance that `main.go`
  imports from the levenshtein package. `Lev` is the recursive specification:
  insert, delete or substitute one rune, each at cost 1. `EditDistance` is a
  Wagner–Fischer method over one array row, and it is proved equal to `Lev`.
  The Go call and the package both measure distance in runes.
- `Translator` (`translator.dfy`) holds the table, which is the Go map
  literal, and `TranslateToPortuguese`. The method is a loop over the map's
  keys. Go visits map keys in an unspecified order, so each step picks any
  key not yet visited. The method is proved against `IsTranslation`, a
  predicate that does not depend on the order:
  - If no keyword is strictly closer than the input's byte length, the answer
    is the input itself.
  - Otherwise the answer is the label of some nearest keyword, and that
    keyword's distance is below the byte length.
  - Which label wins a tie is deliberately not fixed.
- `JsonCleaner` (`json_cleaner.dfy`) has `RemoveChars`, a recursive filter,
  and the lemmas that describe it completely.

The model follows the code, including one consequence of measuring the input
in bytes and the distance in runes: `len(text)` counts bytes while the
distance counts runes. A non-ASCII input can have a byte length above its
rune count and above the length of some keyword. Such an input always gets a
label, however unlike every keyword it is (`WideInputGetsLabel`). On ASCII
input the two lengths agree (`AsciiByteLen`).

## Model

| member | source | states |
|---|---|---|
| `Text.ByteLen` | main.go:119 | `len(text)` in bytes is at least the number of runes, and it is zero exactly for the empty string |
| `Text.AsciiByteLen` | main.go:119 | byte length equals rune count exactly when the text is ASCII |
| `Text.Lower` | main.go:117 | definition of lower-casing, on ASCII letters only; its facts are proved in `LowerIsLowerCase` and `CaseChangeKeepsByteLen` |
| `Text.LowerIsLowerCase` | main.go:117 | lower-cased text has no capital letter, and lower-casing again changes nothing |
| `Text.CaseChangeKeepsByteLen` | main.go:117-119 | two strings that differ only in the case of ASCII letters have the same byte length, so for such case changes the starting best distance is the same |
| `Levenshtein.Lev` | main.go:122 | definition of the edit distance the package computes (insert, delete or substitute one rune at cost 1); its facts are proved in the `Lev*` lemmas |
| `Levenshtein.LevDeletePrefix` | main.go:122 | deleting a prefix costs at most its length: the distance from p + s to s is at most the length of p |
| `Levenshtein.LevUnmatchedBound` | main.go:122 | the distance plus the number of runes of b that occur in a is at least the length of a |
| `Levenshtein.LevZeroIff` | main.go:122 | the edit distance is zero if and only if the two strings are equal |
| `Levenshtein.LevUpperBound` | main.go:122 | the edit distance is at most the length of the longer string |
| `Levenshtein.LevLowerBound` | main.go:122 | the edit distance is at least the difference of the two lengths |
| `Levenshtein.LevSymmetric` | main.go:122 | the edit distance does not depend on the order of its arguments |
| `Levenshtein.CellStep` | main.go:122 | each cell of the dynamic-programming table is the minimum of delete, insert and substitute from its three neighbours |
| `Levenshtein.NextRow` | main.go:122 | one pass of the row turns row i-1 of the table into row i, in place |
| `Levenshtein.EditDistance` | main.go:122 | the dynamic-programming computation returns exactly the edit distance `Lev(a, b)` |
| `Translator.Translations` | main.go:108-115 | the keyword-to-label map literal; its facts are proved in `KeywordsDistinctIgnoringCase` and `TranslationIsLabelOrInput` |
| `Translator.Dist` | main.go:122 | definition of the distance compared in the loop, between the lower-cased input and the lower-cased keyword; its facts follow from the `Lev*` lemmas |
| `Translator.TranslateToPortuguese` | main.go:107-130 | for every order of walking the map: the input comes back when no keyword is strictly closer than its byte length; otherwise the answer is the label of a nearest keyword whose distance is below that length; the answer is always the input or a value of the table |
| `Translator.TranslationIsLabelOrInput` | main.go:108-129 | every answer is the input unchanged or one of Limpo, Nuvens, Chuva, Garoa, Trovoadas, Neve |
| `Translator.EmptyInputUnchanged` | main.go:118-123 | the empty input always comes back as the empty string |
| `Translator.KeywordsDistinctIgnoringCase` | main.go:108-115 | no two keywords of the table coincide once lower-cased |
| `Translator.ExactMatchTranslates` | main.go:108-126 | an input equal to a keyword up to case gets that keyword's label, whatever the map order |
| `Translator.CloudsIsNuvens` | main.go:110 | `"clouds"` is translated to `"Nuvens"` |
| `Translator.LightRainIsChuva` | main.go:117-129 | `"light rain"` is translated to `"Chuva"`: "rain" is at most 6 away, every other keyword at least 7, and the input is 10 bytes long |
| `Translator.LightRainBytes` | main.go:119 | `len("light rain")` is 10 |
| `Translator.LightRainNearRain` | main.go:122 | the distance from "light rain" to "rain" is at most 6 |
| `Translator.LightRainFarFromClear` | main.go:122 | the distance from "light rain" to "clear" is at least 7 |
| `Translator.LightRainFarFromClouds` | main.go:122 | the distance from "light rain" to "clouds" is at least 7 |
| `Translator.LightRainFarFromDrizzle` | main.go:122 | the distance from "light rain" to "drizzle" is at least 7 |
| `Translator.LightRainFarFromSnow` | main.go:122 | the distance from "light rain" to "snow" is at least 7 |
| `Translator.LightRainFarFromThunderstorm` | main.go:122 | the distance from "light rain" to "thunderstorm" is at least 7 |
| `Translator.RainWins` | main.go:121-126 | an input strictly nearer to "Rain" than to every other keyword, and nearer than its byte length, is translated to "Chuva" |
| `Translator.UniqueNearestIsChosen` | main.go:121-126 | a keyword strictly nearer than all others and strictly closer than the byte length is the one whose label comes back |
| `Translator.UniqueNearestDeterminesAnswer` | main.go:121-126 | when one keyword is strictly nearer than all others, every iteration order gives the same answer |
| `Translator.CaseChangeKeepsAnswer` | main.go:117-122 | changing the case of ASCII letters in the input changes neither whether it falls back to itself nor which labels are valid answers |
| `Translator.WideInputGetsLabel` | main.go:119-123 | an input whose byte length exceeds both its rune count and some keyword's length never falls back to itself, so by `IsTranslation` it gets a label |
| `JsonCleaner.RemoveChars` | main.go:132-140 | the output is no longer than the input and holds no rune of `charsToRemove` |
| `JsonCleaner.RemoveCharsIsSubsequence` | main.go:132-140 | the output is a subsequence of the input |
| `JsonCleaner.RemoveCharsCounts` | main.go:132-140 | each removed rune occurs zero times in the output; every other rune occurs exactly as often as in the input |
| `JsonCleaner.RemoveCharsAppend` | main.go:132-140 | filtering a concatenation is concatenating the filtered parts, so kept runes keep their order |
| `JsonCleaner.RemoveCharsNothingToRemove` | main.go:132-140 | the output equals the input if and only if the input holds no rune to remove |
| `JsonCleaner.RemoveCharsIdempotent` | main.go:132-140 | removing the same runes twice is removing them once |
| `JsonCleaner.RemoveCharsCompose` | main.go:132-140 | removing one set and then another is removing their union |
| `JsonCleaner.StripBraces` | main.go:72 | the cleaned response contains neither `{` nor `}` |

## Left out

- The HTTP handlers are not modelled, because they are I/O plumbing. This covers `ServeFile`, `ListenAndServe`, the `city` query parameter and the error responses (main.go:26-79).
- `getWeatherData` is not modelled, because it is a network fetch plus JSON decoding (main.go:81-105).
- The JSON encoding of the response through `strings.Builder` and `json.Encoder` is not modelled, because it is a library call (main.go:63-70).
- The temperature's float-to-int truncation is not modelled, because it is floating point (main.go:44).
- The handler's unchecked `Weather[0]` indexing is not modelled, because it belongs to the handler, not to the translator (main.go:46-47).
- `Text.Lower` lower-cases ASCII letters only. Go's `strings.ToLower` maps every rune to exactly one rune, so the rune count never changes, but the byte length can: U+0130 'İ' (2 bytes) becomes 'i', and U+212A (Kelvin sign, 3 bytes) becomes 'k'. Every keyword is lower-case ASCII, so a non-ASCII rune changes a distance only when Go lowers it to an ASCII letter that a keyword holds, and among the keywords' letters only U+0130 → 'i' does that. On such input the model departs from Go. For `"İİ"`, Go computes `"ii"`, whose distance to "rain" is 3 against `len` 4, and returns `"Chuva"`; the model keeps `"İİ"` as it is, finds no keyword closer than 4, and returns `"İİ"`. The same gap limits `Text.CaseChangeKeepsByteLen` and `Translator.CaseChangeKeepsAnswer` to case changes of ASCII letters: in Go, `"İİ"` and `"ii"` lower-case alike, yet their `len` is 4 against 2 and their answers are `"Chuva"` against `"ii"`.
- Go strings may hold invalid UTF-8, which `strings.Map` replaces with U+FFFD. The model's strings are sequences of valid runes only.
- The levenshtein package's own code is not part of this model. `EditDistance` is an independent implementation of the same textbook distance. Any fixed-width counters inside the package are not modelled.
- `Translator.TranslateToPortuguese` does not fix which label wins when two keywords tie, because the Go map's iteration order is unspecified.
- Translating a translation is not claimed to give the same result, because nothing in the code guarantees it: a Portuguese label can be close to some English keyword.
