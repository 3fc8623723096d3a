/** removeCharsFromJSON: strings.Map with a mapping that drops every rune
    contained in charsToRemove and keeps every other rune as it is. main.go
    applies it to the encoded response with "{}" to strip the braces. */
module JsonCleaner {

  /** The input with every rune of chars deleted, the others kept in order. */
  function RemoveChars(data: string, chars: string): (r: string)
    ensures |r| <= |data|
    ensures forall k :: 0 <= k < |r| ==> r[k] !in chars
  {
    if data == [] then []
    else if data[0] in chars then RemoveChars(data[1..], chars)
    else [data[0]] + RemoveChars(data[1..], chars)
  }

  /** sub can be obtained from s by deleting runes: each rune of s is either
      kept, matching the next rune of sub, or dropped. */
  predicate IsSubsequence(sub: string, s: string)
    decreases |s|
  {
    if s == [] then sub == []
    else (sub != [] && sub[0] == s[0] && IsSubsequence(sub[1..], s[1..])) || IsSubsequence(sub, s[1..])
  }

  /** The output is a subsequence of the input. */
  lemma {:induction false} RemoveCharsIsSubsequence(data: string, chars: string)
    ensures IsSubsequence(RemoveChars(data, chars), data)
  {
    if data != [] {
      RemoveCharsIsSubsequence(data[1..], chars);
      var rest := RemoveChars(data[1..], chars);
      if data[0] !in chars {
        assert ([data[0]] + rest)[1..] == rest;
      }
    }
  }

  /** Counting runes: the output holds no rune of chars and every other rune
      exactly as often as the input does. */
  lemma {:induction false} RemoveCharsCounts(data: string, chars: string)
    ensures forall c :: multiset(RemoveChars(data, chars))[c] == if c in chars then 0 else multiset(data)[c]
  {
    if data != [] {
      RemoveCharsCounts(data[1..], chars);
      assert data == [data[0]] + data[1..];
      assert multiset(data) == multiset{data[0]} + multiset(data[1..]);
    }
  }

  /** Filtering distributes over concatenation: each part is filtered in place,
      so the runes that are kept stay in their original order. */
  lemma {:induction false} RemoveCharsAppend(a: string, b: string, chars: string)
    ensures RemoveChars(a + b, chars) == RemoveChars(a, chars) + RemoveChars(b, chars)
  {
    if a != [] {
      assert (a + b)[0] == a[0] && (a + b)[1..] == a[1..] + b;
      RemoveCharsAppend(a[1..], b, chars);
    } else {
      assert a + b == b;
    }
  }

  /** A string with no rune of chars comes back unchanged. */
  lemma {:induction false} RemoveCharsNothingToRemove(data: string, chars: string)
    ensures (forall k :: 0 <= k < |data| ==> data[k] !in chars) <==> RemoveChars(data, chars) == data
  {
    if data != [] {
      RemoveCharsNothingToRemove(data[1..], chars);
      if forall k :: 0 <= k < |data| ==> data[k] !in chars {
        assert forall k :: 0 <= k < |data[1..]| ==> data[1..][k] == data[k + 1];
      }
    }
  }

  /** Removing the same runes a second time changes nothing. */
  lemma RemoveCharsIdempotent(data: string, chars: string)
    ensures RemoveChars(RemoveChars(data, chars), chars) == RemoveChars(data, chars)
  {
    RemoveCharsNothingToRemove(RemoveChars(data, chars), chars);
  }

  /** Removing chars1 and then chars2 is removing both at once. */
  lemma {:induction false} RemoveCharsCompose(data: string, chars1: string, chars2: string)
    ensures RemoveChars(RemoveChars(data, chars1), chars2) == RemoveChars(data, chars1 + chars2)
  {
    if data != [] {
      RemoveCharsCompose(data[1..], chars1, chars2);
      assert (data[0] in chars1 + chars2) == (data[0] in chars1 || data[0] in chars2);
      if data[0] !in chars1 {
        var rest := RemoveChars(data[1..], chars1);
        assert ([data[0]] + rest)[0] == data[0] && ([data[0]] + rest)[1..] == rest;
      }
    }
  }

  /** The response cleaning of main.go: no brace is left in its output. */
  lemma StripBraces(json: string)
    ensures '{' !in RemoveChars(json, "{}") && '}' !in RemoveChars(json, "{}")
  {
  }
}
