/** The term list normalisation of bannerv9Parser.js: `renameKey`,
    `determineSubCollegeName` and `serializeTermsList`, which edit the term
    objects of the registration system in place. */
module Terms {
  import opened Strings
  import opened Js

  /** `determineSubCollegeName`: "CPS" wins over "Law"; a description with
      neither is an undergraduate term. */
  function DetermineSubCollegeName(termDesc: string): (r: string)
    ensures r == "CPS" <==> Contains(termDesc, "CPS")
    ensures r == "LAW" <==> !Contains(termDesc, "CPS") && Contains(termDesc, "Law")
    ensures r == "undergraduate" <==> !Contains(termDesc, "CPS") && !Contains(termDesc, "Law")
  {
    if Contains(termDesc, "CPS") then "CPS"
    else if Contains(termDesc, "Law") then "LAW"
    else "undergraduate"
  }

  /** The length of the word `/ (Semester|Quarter)/` matches at position i,
      or 0 when it matches nothing there. */
  function KindAt(text: string, i: nat): (n: nat)
    ensures n == 0 || n == |" Semester"| || n == |" Quarter"|
    ensures n > 0 ==> i + n <= |text|
  {
    if OccursAt(text, " Semester", i) then |" Semester"|
    else if OccursAt(text, " Quarter", i) then |" Quarter"|
    else 0
  }

  /** The leftmost match at or after position `from`, if any. */
  function FirstKind(text: string, from: nat): (r: nat)
    ensures from <= r
    ensures r < |text| ==> KindAt(text, r) > 0
    ensures forall j :: from <= j < r && j < |text| ==> KindAt(text, j) == 0
    decreases |text| - from
  {
    if from >= |text| then from
    else if KindAt(text, from) > 0 then from
    else FirstKind(text, from + 1)
  }

  /** `text.replace(/ (Semester|Quarter)/, '')`: the leftmost " Semester" or
      " Quarter" cut out; the text unchanged when there is none. */
  function StripTermKind(text: string): (r: string)
    ensures |r| == |text| || |r| == |text| - |" Semester"| || |r| == |text| - |" Quarter"|
  {
    var i := FirstKind(text, 0);
    if i < |text| then text[..i] + text[i + KindAt(text, i)..] else text
  }

  /** With no kind word anywhere the text is left as it is. */
  lemma StripTermKindNone(text: string)
    requires forall j :: 0 <= j < |text| ==> KindAt(text, j) == 0
    ensures StripTermKind(text) == text
  {
  }

  /** The leftmost kind word, at position i, is the one cut out. */
  lemma StripTermKindAt(text: string, i: nat)
    requires i < |text| && KindAt(text, i) > 0
    requires forall j :: 0 <= j < i ==> KindAt(text, j) == 0
    ensures StripTermKind(text) == text[..i] + text[i + KindAt(text, i)..]
  {
    var f := FirstKind(text, 0);
    assert f < |text| ==> KindAt(text, f) > 0;
    assert f == i;
  }

  /** A term name whose only kind word is at its end loses that word:
      "Fall 2019 Semester" becomes "Fall 2019". */
  lemma StripTrailingSemester(season: string)
    requires forall j :: 0 <= j < |season| ==> KindAt(season + " Semester", j) == 0
    ensures StripTermKind(season + " Semester") == season
  {
    var text := season + " Semester";
    assert text[|season|..] == " Semester";
    assert KindAt(text, |season|) == |" Semester"|;
    assert text[..|season|] == season;
    StripTermKindAt(text, |season|);
  }

  /** The object after `renameKey(obj, from, to)`: `to` holds what `from`
      held (`undefined` when it held nothing), `from` is gone. When the two
      keys are the same the key is deleted. */
  function Renamed(m: map<string, Json>, from: string, to: string): (r: map<string, Json>)
    ensures r.Keys == (m.Keys + {to}) - {from}
    ensures to != from ==> r[to] == Get(m, from)
    ensures forall k :: k in m && k != from && k != to ==> r[k] == m[k]
  {
    m[to := Get(m, from)] - {from}
  }

  /** Renaming there and back restores the object, when the new name was
      free and the old one was in use. */
  lemma RenameRoundTrip(m: map<string, Json>, from: string, to: string)
    requires from != to && from in m && to !in m
    ensures Renamed(Renamed(m, from, to), to, from) == m
  {
    var r := Renamed(Renamed(m, from, to), to, from);
    assert r.Keys == m.Keys;
  }

  /** `renameKey(obj, old, name)`: changes the object in place. */
  method RenameKey(obj: JsObject, oldKey: string, name: string)
    modifies obj
    ensures obj.props == Renamed(old(obj.props), oldKey, name)
  {
    obj.props := obj.props[name := Get(obj.props, oldKey)];
    obj.props := obj.props - {oldKey};
  }

  /** The term record `serializeTermsList` makes of one term of the
      registration system, whose description must be a string. */
  function NormalizedTerm(term: map<string, Json>): (r: map<string, Json>)
    requires Get(term, "description").Str?
    ensures "code" !in r && "description" !in r && "termId" in r && "text" in r && "host" in r
    ensures r["termId"] == Get(term, "code") && r["host"] == Str("neu.edu")
  {
    var first := Renamed(term, "code", "termId");
    assert "description" != "code" && "description" != "termId" && "termId" != "text";
    assert Get(first, "description") == Get(term, "description");
    var renamed := Renamed(first, "description", "text");
    assert "termId" in renamed && renamed["termId"] == Get(term, "code");
    var withHost := renamed["host" := Str("neu.edu")];
    var text := withHost["text"].s;
    var subCollege := DetermineSubCollegeName(text);
    if subCollege == "undergraduate" then withHost["text" := Str(StripTermKind(text))]
    else withHost["subCollegeName" := Str(subCollege)]
  }

  /** An undergraduate term loses its kind word; any other term keeps its
      text and gets its sub-college. */
  lemma NormalizedTermText(term: map<string, Json>)
    requires Get(term, "description").Str?
    ensures var r := NormalizedTerm(term);
            var text := Get(term, "description").s;
            var sub := DetermineSubCollegeName(text);
            && (sub == "undergraduate" ==> r["text"] == Str(StripTermKind(text)))
            && (sub != "undergraduate" ==> r["text"] == Str(text) && "subCollegeName" in r && r["subCollegeName"] == Str(sub))
  {
  }

  /** Normalising a term leaves every key it does not rename or set as it was. */
  lemma NormalizedTermKeepsOthers(term: map<string, Json>, k: string)
    requires Get(term, "description").Str?
    requires k in term && k !in {"code", "description", "termId", "text", "host", "subCollegeName"}
    ensures k in NormalizedTerm(term) && NormalizedTerm(term)[k] == term[k]
  {
  }

  /** The keys of a normalised term: `code` and `description` give way to
      `termId` and `text`, `host` is added, and `subCollegeName` only for a
      term that is not undergraduate. No other key is added or removed. */
  lemma NormalizedTermKeys(term: map<string, Json>)
    requires Get(term, "description").Str?
    ensures var sub := DetermineSubCollegeName(Get(term, "description").s);
            NormalizedTerm(term).Keys ==
              (term.Keys - {"code", "description"}) + {"termId", "text", "host"} +
              (if sub == "undergraduate" then {} else {"subCollegeName"})
  {
  }

  /** The terms are distinct objects. */
  predicate Distinct(terms: seq<JsObject>) {
    forall i, j :: 0 <= i < j < |terms| ==> terms[i] != terms[j]
  }

  /** `serializeTermsList`: every term object normalised in place, and the
      same objects returned in the same order. */
  method SerializeTermsList(termsFromBanner: seq<JsObject>) returns (r: seq<JsObject>)
    requires Distinct(termsFromBanner)
    requires forall i :: 0 <= i < |termsFromBanner| ==> Get(termsFromBanner[i].props, "description").Str?
    modifies set t | t in termsFromBanner
    ensures r == termsFromBanner
    ensures forall i :: 0 <= i < |r| ==> r[i].props == NormalizedTerm(old(termsFromBanner[i].props))
  {
    for i := 0 to |termsFromBanner|
      invariant forall j :: 0 <= j < i ==> termsFromBanner[j].props == NormalizedTerm(old(termsFromBanner[j].props))
      invariant forall j :: i <= j < |termsFromBanner| ==> termsFromBanner[j].props == old(termsFromBanner[j].props)
    {
      label before:
      NormalizeTerm(termsFromBanner[i]);
      forall j | 0 <= j < |termsFromBanner| && j != i
        ensures termsFromBanner[j].props == old@before(termsFromBanner[j].props)
      {
        assert termsFromBanner[j] != termsFromBanner[i];
      }
    }
    return termsFromBanner;
  }

  /** The callback of the `map` in `serializeTermsList`, on one term. */
  method NormalizeTerm(term: JsObject)
    requires Get(term.props, "description").Str?
    modifies term
    ensures term.props == NormalizedTerm(old(term.props))
  {
    RenameKey(term, "code", "termId");
    RenameKey(term, "description", "text");
    term.props := term.props["host" := Str("neu.edu")];
    var subCollege := DetermineSubCollegeName(term.props["text"].s);
    if subCollege == "undergraduate" {
      term.props := term.props["text" := Str(StripTermKind(term.props["text"].s))];
    } else {
      term.props := term.props["subCollegeName" := Str(subCollege)];
    }
  }
}
