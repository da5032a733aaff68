/** The label-selector string the service builds from a deployment's match-labels
    (`key=value` terms joined by commas), and the equality-only part of the selector
    grammar the API server applies to it when listing pods. */
module Selector {
  import opened Wrappers
  import opened Labels

  /** One `key=value` equality requirement. */
  type Requirement = (string, string)

  /** Characters allowed in a Kubernetes label name or value. */
  predicate IsLabelChar(c: char) {
    'a' <= c <= 'z' || 'A' <= c <= 'Z' || '0' <= c <= '9' || c == '-' || c == '_' || c == '.'
  }

  /** A label key: non-empty, label characters plus the `/` of a prefix. */
  predicate ValidLabelKey(k: string) {
    |k| > 0 && forall i :: 0 <= i < |k| ==> IsLabelChar(k[i]) || k[i] == '/'
  }

  /** A label value: possibly empty, label characters only. */
  predicate ValidLabelValue(v: string) {
    forall i :: 0 <= i < |v| ==> IsLabelChar(v[i])
  }

  predicate ValidLabels(m: StringMap) {
    forall k :: k in m ==> ValidLabelKey(k) && ValidLabelValue(m[k])
  }

  /** `reqs` lists every entry of `m` exactly once, as enumerating a dictionary does. */
  predicate IsEnumeration(reqs: seq<Requirement>, m: StringMap) {
    && (forall i :: 0 <= i < |reqs| ==> reqs[i].0 in m && m[reqs[i].0] == reqs[i].1)
    && (forall k :: k in m ==> exists i :: 0 <= i < |reqs| && reqs[i].0 == k)
    && (forall i, j :: 0 <= i < j < |reqs| ==> reqs[i].0 != reqs[j].0)
  }

  function Term(r: Requirement): string {
    r.0 + "=" + r.1
  }

  /** The selector text: the terms joined by `,`; no terms give the empty string. */
  function Format(reqs: seq<Requirement>): string
    decreases |reqs|
  {
    if |reqs| == 0 then ""
    else if |reqs| == 1 then Term(reqs[0])
    else Term(reqs[0]) + "," + Format(reqs[1..])
  }

  /** Position of the first `c` in `s`, or `|s|` when there is none. */
  function IndexOf(s: string, c: char): (i: nat)
    ensures i <= |s|
    decreases |s|
  {
    if |s| == 0 then 0 else if s[0] == c then 0 else 1 + IndexOf(s[1..], c)
  }

  /** One `key=value` term: exactly one `=`, non-empty key. */
  function ParseTerm(t: string): Option<Requirement> {
    var i := IndexOf(t, '=');
    if i == 0 || i == |t| then None
    else if IndexOf(t[i + 1..], '=') < |t[i + 1..]| then None
    else Some((t[..i], t[i + 1..]))
  }

  function ParseTerms(s: string): Option<seq<Requirement>>
    decreases |s|
  {
    var i := IndexOf(s, ',');
    match ParseTerm(s[..i])
    case None => None
    case Some(r) =>
      if i == |s| then Some([r])
      else
        match ParseTerms(s[i + 1..])
        case None => None
        case Some(rest) => Some([r] + rest)
  }

  /** The empty selector selects everything; otherwise comma-separated terms. */
  function Parse(s: string): Option<seq<Requirement>> {
    if s == "" then Some([]) else ParseTerms(s)
  }

  /** What the API server keeps for a parsed selector: labels satisfying every requirement. */
  predicate SatisfiesAll(reqs: seq<Requirement>, labels: Option<StringMap>) {
    forall i :: 0 <= i < |reqs| ==> HasLabel(labels, reqs[i].0, reqs[i].1)
  }

  lemma {:induction false} IndexOfPrefix(a: string, b: string, c: char)
    requires forall j :: 0 <= j < |a| ==> a[j] != c
    ensures IndexOf(a + b, c) == |a| + IndexOf(b, c)
    decreases |a|
  {
    if |a| > 0 {
      assert (a + b)[1..] == a[1..] + b;
      IndexOfPrefix(a[1..], b, c);
    } else {
      assert a + b == b;
    }
  }

  lemma ParseTermOfTerm(r: Requirement)
    requires ValidLabelKey(r.0) && ValidLabelValue(r.1)
    ensures ParseTerm(Term(r)) == Some(r)
  {
    var t := Term(r);
    IndexOfPrefix(r.0, "=" + r.1, '=');
    assert t == r.0 + ("=" + r.1);
    var i := |r.0|;
    assert t[i + 1..] == r.1;
    assert t[..i] == r.0;
    assert IndexOf(r.1 + "", '=') == |r.1| + IndexOf("", '=') by {
      IndexOfPrefix(r.1, "", '=');
    }
    assert r.1 + "" == r.1;
  }

  /** A last term without commas parses on its own. */
  lemma ParseTermsLast(t: string, r: Requirement)
    requires forall j :: 0 <= j < |t| ==> t[j] != ','
    requires ParseTerm(t) == Some(r)
    ensures ParseTerms(t) == Some([r])
  {
    IndexOfPrefix(t, "", ',');
    assert t + "" == t;
    assert t[..|t|] == t;
  }

  /** Splitting `t + "," + rest` at its first comma gives back `t` and `rest` when `t` has no comma. */
  lemma SplitAtFirstComma(t: string, rest: string)
    requires forall j :: 0 <= j < |t| ==> t[j] != ','
    ensures IndexOf(t + "," + rest, ',') == |t|
    ensures (t + "," + rest)[..|t|] == t
    ensures (t + "," + rest)[|t| + 1..] == rest
  {
    var s := t + "," + rest;
    assert s == t + ("," + rest);
    IndexOfPrefix(t, "," + rest, ',');
    assert ("," + rest)[0] == ',';
    assert IndexOf("," + rest, ',') == 0;
    assert s[..|t|] == t;
    assert s[|t| + 1..] == rest;
  }

  /** A term without commas followed by `,` parses, then parsing continues after the comma. */
  lemma ParseTermsCons(t: string, r: Requirement, rest: string, rs: seq<Requirement>)
    requires forall j :: 0 <= j < |t| ==> t[j] != ','
    requires ParseTerm(t) == Some(r)
    requires ParseTerms(rest) == Some(rs)
    ensures ParseTerms(t + "," + rest) == Some([r] + rs)
  {
    SplitAtFirstComma(t, rest);
  }

  /** A term built from valid labels has no comma. */
  lemma TermHasNoComma(r: Requirement)
    requires ValidLabelKey(r.0) && ValidLabelValue(r.1)
    ensures forall j :: 0 <= j < |Term(r)| ==> Term(r)[j] != ','
  {
    var t := Term(r);
    forall j | 0 <= j < |t| ensures t[j] != ',' {
      if j < |r.0| {
        assert t[j] == r.0[j];
      } else if j == |r.0| {
        assert t[j] == '=';
      } else {
        assert t[j] == r.1[j - |r.0| - 1];
      }
    }
  }

  lemma FormatCons(reqs: seq<Requirement>)
    requires |reqs| > 1
    ensures Format(reqs) == Term(reqs[0]) + "," + Format(reqs[1..])
  {
  }

  /** Every requirement of a valid list is a valid label pair. */
  predicate AllValid(reqs: seq<Requirement>) {
    forall i :: 0 <= i < |reqs| ==> ValidLabelKey(reqs[i].0) && ValidLabelValue(reqs[i].1)
  }

  /** Dropping the first requirement keeps the list valid. */
  lemma AllValidTail(reqs: seq<Requirement>)
    requires |reqs| > 0 && AllValid(reqs)
    ensures AllValid(reqs[1..])
  {
    var tail := reqs[1..];
    forall i | 0 <= i < |tail| ensures ValidLabelKey(tail[i].0) && ValidLabelValue(tail[i].1) {
      assert tail[i] == reqs[i + 1];
    }
  }

  /** A single valid requirement formats to a term that parses back to it. */
  lemma ParseTermsOfFormatOne(reqs: seq<Requirement>)
    requires |reqs| == 1 && AllValid(reqs)
    ensures ParseTerms(Format(reqs)) == Some(reqs)
  {
    var t := Term(reqs[0]);
    ParseTermOfTerm(reqs[0]);
    TermHasNoComma(reqs[0]);
    assert Format(reqs) == t;
    ParseTermsLast(t, reqs[0]);
    assert [reqs[0]] == reqs;
  }

  /** If the tail round-trips, so does the whole list. */
  lemma ParseTermsOfFormatStep(reqs: seq<Requirement>)
    requires |reqs| > 1 && AllValid(reqs)
    requires ParseTerms(Format(reqs[1..])) == Some(reqs[1..])
    ensures ParseTerms(Format(reqs)) == Some(reqs)
  {
    var t := Term(reqs[0]);
    ParseTermOfTerm(reqs[0]);
    TermHasNoComma(reqs[0]);
    FormatCons(reqs);
    ParseTermsCons(t, reqs[0], Format(reqs[1..]), reqs[1..]);
    assert [reqs[0]] + reqs[1..] == reqs;
  }

  /** A non-empty valid list round-trips through formatting and term parsing. */
  lemma {:induction false} ParseTermsOfFormat(reqs: seq<Requirement>)
    requires |reqs| > 0 && AllValid(reqs)
    ensures ParseTerms(Format(reqs)) == Some(reqs)
    decreases |reqs|
  {
    if |reqs| == 1 {
      ParseTermsOfFormatOne(reqs);
    } else {
      AllValidTail(reqs);
      ParseTermsOfFormat(reqs[1..]);
      ParseTermsOfFormatStep(reqs);
    }
  }

  /** Parsing the formatted selector gives back exactly the requirements it was built from. */
  lemma ParseFormat(reqs: seq<Requirement>)
    requires AllValid(reqs)
    ensures Parse(Format(reqs)) == Some(reqs)
  {
    if |reqs| > 0 {
      ParseTermsOfFormat(reqs);
      FormatEmptyIff(reqs);
    }
  }

  /** Satisfying the listed requirements is the same as matching the map they enumerate. */
  lemma SatisfiesEnumeration(m: StringMap, reqs: seq<Requirement>, labels: Option<StringMap>)
    requires IsEnumeration(reqs, m)
    ensures SatisfiesAll(reqs, labels) <==> Matches(m, labels)
  {
    if SatisfiesAll(reqs, labels) {
      forall k | k in m
        ensures HasLabel(labels, k, m[k])
      {
        var i :| 0 <= i < |reqs| && reqs[i].0 == k;
        assert m[k] == reqs[i].1;
      }
      assert Matches(m, labels);
    }
    if Matches(m, labels) {
      forall i | 0 <= i < |reqs|
        ensures HasLabel(labels, reqs[i].0, reqs[i].1)
      {
        assert reqs[i].0 in m && m[reqs[i].0] == reqs[i].1;
      }
      assert SatisfiesAll(reqs, labels);
    }
  }

  /** The formatted selector is empty exactly when there are no requirements. */
  lemma FormatEmptyIff(reqs: seq<Requirement>)
    ensures Format(reqs) == "" <==> |reqs| == 0
  {
    if |reqs| == 1 {
      assert |Term(reqs[0])| == |reqs[0].0| + 1 + |reqs[0].1|;
    } else if |reqs| > 1 {
      FormatCons(reqs);
      assert |Format(reqs)| == |Term(reqs[0])| + 1 + |Format(reqs[1..])|;
    }
  }

  /** The selector built from a deployment's match-labels, as the API server reads it back,
      selects exactly the label maps that `Matches` the match-labels; it is empty (select
      everything) exactly when the match-labels are empty. */
  lemma SelectorDenotesMatchLabels(m: StringMap, reqs: seq<Requirement>, labels: Option<StringMap>)
    requires ValidLabels(m)
    requires IsEnumeration(reqs, m)
    ensures Parse(Format(reqs)) == Some(reqs)
    ensures SatisfiesAll(reqs, labels) <==> Matches(m, labels)
    ensures Format(reqs) == "" <==> m == map[]
  {
    assert AllValid(reqs);
    ParseFormat(reqs);
    SatisfiesEnumeration(m, reqs, labels);
    FormatEmptyIff(reqs);
    if |reqs| > 0 {
      assert reqs[0].0 in m;
    } else {
      assert forall k :: k !in m;
    }
  }
}
