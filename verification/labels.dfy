/** Label maps, the equality-based selector match, and the `restart=ignore` opt-out marker
    (the two `ShouldSkip` overloads of the service). */
module Labels {
  import opened Wrappers

  /** A label or annotation map as the API returns it; a null map is `None` at the use site. */
  type StringMap = map<string, string>

  const SkipKey: string := "restart"
  const SkipValue: string := "ignore"

  /** ASCII lower-casing; every character outside 'A'..'Z' maps to itself. */
  function Lower(c: char): char {
    if 'A' <= c <= 'Z' then (c as int + 32) as char else c
  }

  /** Ordinal, case-insensitive string equality, restricted to ASCII letters. */
  predicate EqualsIgnoreCase(a: string, b: string) {
    |a| == |b| && forall i :: 0 <= i < |a| ==> Lower(a[i]) == Lower(b[i])
  }

  /** The map is non-null, has key `restart`, and its value equals `ignore` ignoring case. */
  predicate IsSkipMarked(labels: Option<StringMap>) {
    labels.Some? && SkipKey in labels.value && EqualsIgnoreCase(labels.value[SkipKey], SkipValue)
  }

  /** The (possibly null) label map holds `key=value`. */
  predicate HasLabel(labels: Option<StringMap>, key: string, value: string) {
    labels.Some? && key in labels.value && labels.value[key] == value
  }

  /** Equality-based selector matching: the labels hold every `key=value` of the selector. */
  predicate Matches(selector: StringMap, labels: Option<StringMap>) {
    forall k :: k in selector ==> HasLabel(labels, k, selector[k])
  }

  /** Reference definition: the spellings of `ignore` that differ from it only in letter case. */
  predicate IsIgnoreSpelling(v: string) {
    && |v| == 6
    && (v[0] == 'i' || v[0] == 'I')
    && (v[1] == 'g' || v[1] == 'G')
    && (v[2] == 'n' || v[2] == 'N')
    && (v[3] == 'o' || v[3] == 'O')
    && (v[4] == 'r' || v[4] == 'R')
    && (v[5] == 'e' || v[5] == 'E')
  }

  /** A character lower-cases to a given lower-case ASCII letter exactly when it is that
      letter or its upper-case form. */
  lemma LowerIsLetter(c: char, l: char)
    requires 'a' <= l <= 'z'
    ensures Lower(c) == l <==> c == l || c == (l as int - 32) as char
  {
  }

  /** The skip marker holds exactly for a `restart` label spelled `ignore` in any letter case. */
  lemma SkipMarkedIffIgnoreSpelling(labels: Option<StringMap>)
    ensures IsSkipMarked(labels) <==>
              labels.Some? && SkipKey in labels.value && IsIgnoreSpelling(labels.value[SkipKey])
  {
    if labels.Some? && SkipKey in labels.value {
      var v := labels.value[SkipKey];
      if |v| == 6 {
        forall i | 0 <= i < 6
          ensures Lower(v[i]) == Lower(SkipValue[i]) <==> v[i] == SkipValue[i] || v[i] == (SkipValue[i] as int - 32) as char
        {
          LowerIsLetter(v[i], SkipValue[i]);
        }
      }
    }
  }

  /** An empty selector matches every label map, null included. */
  lemma EmptySelectorMatchesAll(labels: Option<StringMap>)
    ensures Matches(map[], labels)
  {
  }

  /** Labels that satisfy a marked selector are marked themselves: the selector's `restart`
      value must appear on them verbatim. */
  lemma MarkerCarriesThroughSelector(selector: StringMap, labels: Option<StringMap>)
    requires Matches(selector, labels)
    requires IsSkipMarked(Some(selector))
    ensures IsSkipMarked(labels)
  {
    assert SkipKey in selector;
  }
}
