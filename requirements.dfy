/** The major-requirements parsing of parseRequirements.js: the guess of a
    section's type from its header, the per-element rule of `parseSection`,
    and `parseRequirements`, which cleans the page, splits the requirement
    container into sections at each h2 and parses every section. The HTML
    parser is a parameter: it turns the cleaned page into the elements of
    the requirement container, in document order. */
module Requirements {
  import opened Strings

  // ---------------------------------------------------------------------
  // doesNthElementMatch and guessSectionType

  /** The index of the first element of a set that matches a selector, or
      the size of the set when none does; `matches[i]` says whether element
      i matches. */
  function FirstMatch(matches: seq<bool>): (i: nat)
    ensures i <= |matches|
    ensures i < |matches| ==> matches[i]
    ensures forall j :: 0 <= j < i ==> !matches[j]
  {
    if matches == [] || matches[0] then 0 else FirstMatch(matches[1..]) + 1
  }

  /** `doesNthElementMatch`: element n exists and is the FIRST element of
      the set that matches; `is` on an empty selection is false. */
  function DoesNthElementMatch(n: nat, matches: seq<bool>): (r: bool)
    ensures r <==> n < |matches| && matches[n] && forall j :: 0 <= j < n ==> !matches[j]
  {
    n < |matches| && FirstMatch(matches) == n
  }

  /** When the first element (the h2 of a section) does not match, the test
      for the second element reads as its name says: the second element
      exists and matches. */
  lemma SecondMatchesAfterHeader(matches: seq<bool>)
    requires |matches| > 0 && !matches[0]
    ensures DoesNthElementMatch(1, matches) <==> |matches| > 1 && matches[1]
  {
  }

  /** The kinds of section of `sectionTypes`. */
  datatype SectionType = Ignored | CourseList | Unknown

  /** A header that marks a section to be ignored: one of two exact titles,
      or a title naming program, credit, grade or GPA requirements. */
  predicate IgnoredHeader(header: string) {
    header == "University-Wide Requirements" || header == "NUpath Requirements" ||
    Contains(header, "Program Requirement") || Contains(header, "Credit Requirement") ||
    Contains(header, "Grade Requirement") || Contains(header, "GPA Requirement")
  }

  /** `guessSectionType`, with the course-list test of the second element
      passed in: each rule that fires pushes a guess, and only a single
      guess is believed. Two guesses are reported and give UNKNOWN. */
  method GuessSectionType(header: string, isCourseListSecond: bool) returns (t: SectionType)
    ensures t == Ignored <==> IgnoredHeader(header) && !isCourseListSecond
    ensures t == CourseList <==> !IgnoredHeader(header) && isCourseListSecond
    ensures t == Unknown <==> (IgnoredHeader(header) <==> isCourseListSecond)
  {
    var guesses: seq<SectionType> := [];
    if IgnoredHeader(header) {
      guesses := guesses + [Ignored];
    }
    if isCourseListSecond {
      guesses := guesses + [CourseList];
    }
    if |guesses| == 1 {
      return guesses[0];
    }
    return Unknown;
  }

  // ---------------------------------------------------------------------
  // parseSection

  /** One element of the page: its tag name as the parser reports it and
      its text content. */
  datatype Element = Element(tagName: string, text: string)

  /** `TAG_TO_TEXT`: the tags whose text is kept. */
  const TagToText: seq<string> := ["h2", "h3", "p", "ul"]

  /** The text `parseSection` yields for one element. */
  function ElementText(e: Element): (r: string)
    ensures ToLower(e.tagName) in TagToText ==> r == e.text
    ensures ToLower(e.tagName) !in TagToText ==> r == "unknown tag"
  {
    if ToLower(e.tagName) in TagToText then e.text else "unknown tag"
  }

  /** `parseSection`: one string per element, in order. */
  function ParseSection(section: seq<Element>): (r: seq<string>)
    ensures |r| == |section|
    ensures forall i :: 0 <= i < |r| ==> r[i] == ElementText(section[i])
  {
    seq(|section|, i requires 0 <= i < |section| => ElementText(section[i]))
  }

  /** The tag test ignores case: "H2", as `tagName` reports it, keeps its
      text like "h2" does. */
  lemma TagCaseIgnored(text: string)
    ensures ParseSection([Element("H2", text), Element("TABLE", text)]) == [text, "unknown tag"]
  {
    assert ToLower("H2") == "h2";
    assert ToLower("TABLE") == "table";
  }

  /** Parsing sections is parsing their elements one after the other. */
  lemma ParseSectionAppend(a: seq<Element>, b: seq<Element>)
    ensures ParseSection(a + b) == ParseSection(a) + ParseSection(b)
  {
    var l, r := ParseSection(a + b), ParseSection(a) + ParseSection(b);
    assert |l| == |r|;
    forall i | 0 <= i < |l|
      ensures l[i] == r[i]
    {
      if i < |a| {
        assert (a + b)[i] == a[i];
      } else {
        assert (a + b)[i] == b[i - |a|];
      }
    }
  }

  // ---------------------------------------------------------------------
  // parseRequirements

  const Nbsp: char := '\U{00A0}'

  /** `body.replace(/\xA0/g, ' ')`. */
  function ReplaceNbsp(body: string): (r: string)
    ensures |r| == |body|
    ensures forall i :: 0 <= i < |body| ==> r[i] == (if body[i] == Nbsp then ' ' else body[i])
  {
    seq(|body|, i requires 0 <= i < |body| => if body[i] == Nbsp then ' ' else body[i])
  }

  /** No non-breaking space is left, and cleaning twice is cleaning once. */
  lemma ReplaceNbspClean(body: string)
    ensures forall i :: 0 <= i < |body| ==> ReplaceNbsp(body)[i] != Nbsp
    ensures ReplaceNbsp(ReplaceNbsp(body)) == ReplaceNbsp(body)
  {
  }

  /** A page without non-breaking spaces is left as it is. */
  lemma ReplaceNbspKeepsClean(body: string)
    requires forall i :: 0 <= i < |body| ==> body[i] != Nbsp
    ensures ReplaceNbsp(body) == body
  {
  }

  /** The element is an h2, whatever the case of its tag name. */
  predicate IsH2(e: Element) {
    e.tagName == "h2" || e.tagName == "H2"
  }

  /** `IsH2` is the lower-cased tag compared with "h2". */
  lemma IsH2Lower(e: Element)
    ensures IsH2(e) <==> ToLower(e.tagName) == "h2"
  {
    if ToLower(e.tagName) == "h2" {
      assert ToLower(e.tagName)[0] == 'h' && ToLower(e.tagName)[1] == '2';
      assert e.tagName == [e.tagName[0], e.tagName[1]];
    }
    assert ToLower("H2") == "h2" && ToLower("h2") == "h2";
  }

  /** The positions of the h2 elements of the container, in document order:
      each is an h2, they increase, and every h2 is among them. */
  function H2Positions(elems: seq<Element>): (hp: seq<nat>)
    ensures forall i :: 0 <= i < |hp| ==> hp[i] < |elems| && IsH2(elems[hp[i]])
    ensures forall i, j :: 0 <= i < j < |hp| ==> hp[i] < hp[j]
    ensures forall k :: 0 <= k < |elems| && IsH2(elems[k]) ==> k in hp
  {
    if elems == [] then []
    else
      var hp := H2Positions(elems[..|elems| - 1]);
      H2PositionsSnoc(elems, hp);
      if IsH2(elems[|elems| - 1]) then hp + [|elems| - 1] else hp
  }

  /** The h2 positions of all but the last element are h2 positions of the
      whole container. */
  lemma H2PositionsSnoc(elems: seq<Element>, hp: seq<nat>)
    requires elems != []
    requires forall i :: 0 <= i < |hp| ==> hp[i] < |elems| - 1 && IsH2(elems[..|elems| - 1][hp[i]])
    requires forall k :: 0 <= k < |elems| - 1 && IsH2(elems[..|elems| - 1][k]) ==> k in hp
    ensures forall i :: 0 <= i < |hp| ==> IsH2(elems[hp[i]])
    ensures forall k :: 0 <= k < |elems| - 1 && IsH2(elems[k]) ==> k in hp
  {
    var init := elems[..|elems| - 1];
    forall i | 0 <= i < |hp|
      ensures IsH2(elems[hp[i]])
    {
      assert elems[hp[i]] == init[hp[i]];
    }
    forall k | 0 <= k < |elems| - 1 && IsH2(elems[k])
      ensures k in hp
    {
      assert elems[k] == init[k];
    }
  }

  /** Where section i ends: at the next h2, or at the end of the container. */
  function SectionEnd(hp: seq<nat>, i: nat, size: nat): nat
    requires i < |hp|
  {
    if i + 1 < |hp| then hp[i + 1] else size
  }

  /** The sections of the container: one per h2, holding the h2 and the
      elements up to the next one (`nextUntil('h2').add(h2)`). The elements
      before the first h2 are in no section. */
  function Sections(elems: seq<Element>): (r: seq<seq<Element>>)
    ensures |r| == |H2Positions(elems)|
  {
    var hp := H2Positions(elems);
    seq(|hp|, i requires 0 <= i < |hp| => elems[hp[i]..SectionEnd(hp, i, |elems|)])
  }

  /** Each section is an h2 followed by elements that are not. */
  predicate SectionShape(s: seq<Element>) {
    s != [] && IsH2(s[0]) && forall j :: 1 <= j < |s| ==> !IsH2(s[j])
  }

  /** No h2 position lies strictly inside a section. */
  lemma NoneBetween(hp: seq<nat>, i: nat, k: nat, size: nat)
    requires i < |hp| && forall a, b :: 0 <= a < b < |hp| ==> hp[a] < hp[b]
    requires hp[i] < k < SectionEnd(hp, i, size)
    ensures k !in hp
  {
    forall t | 0 <= t < |hp|
      ensures hp[t] != k
    {
      if t > i + 1 {
        assert hp[i + 1] < hp[t];
      }
    }
  }

  /** Every section is an h2 followed by elements that are not h2s. */
  lemma SectionsShape(elems: seq<Element>, i: nat)
    requires i < |Sections(elems)|
    ensures SectionShape(Sections(elems)[i])
  {
    var hp := H2Positions(elems);
    var s := Sections(elems)[i];
    var start := hp[i];
    forall j | 1 <= j < |s|
      ensures !IsH2(s[j])
    {
      assert s[j] == elems[start + j];
      NoneBetween(hp, i, start + j, |elems|);
    }
  }

  /** The sections leave nothing out from the first h2 on: every element at
      or after an h2 is in the section of the last h2 at or before it, at
      its offset from that h2. */
  lemma SectionOf(elems: seq<Element>, k: nat, h: nat) returns (i: nat)
    requires h <= k < |elems| && IsH2(elems[h])
    ensures i < |Sections(elems)|
    ensures var hp := H2Positions(elems); hp[i] <= k < SectionEnd(hp, i, |elems|)
    ensures Sections(elems)[i][k - H2Positions(elems)[i]] == elems[k]
  {
    var hp := H2Positions(elems);
    assert h in hp;
    var t :| 0 <= t < |hp| && hp[t] == h;
    i := LastStart(hp, t, k);
    var s := Sections(elems)[i];
    assert s == elems[hp[i]..SectionEnd(hp, i, |elems|)];
  }

  /** The last position at or before k, searching on from a position t at
      or before k. */
  lemma LastStart(hp: seq<nat>, t: nat, k: nat) returns (i: nat)
    requires t < |hp| && hp[t] <= k
    ensures t <= i < |hp| && hp[i] <= k && (i + 1 < |hp| ==> k < hp[i + 1])
  {
    i := t;
    while i + 1 < |hp| && hp[i + 1] <= k
      invariant t <= i < |hp| && hp[i] <= k
      decreases |hp| - i
    {
      i := i + 1;
    }
  }

  /** `parseRequirements`: the page cleaned of non-breaking spaces, handed
      to the HTML parser, and every section of the requirement container
      parsed, in order. */
  function ParseRequirements(body: string, container: string -> seq<Element>): (r: seq<seq<string>>)
    ensures var ss := Sections(container(ReplaceNbsp(body)));
            |r| == |ss| && forall i :: 0 <= i < |r| ==> r[i] == ParseSection(ss[i])
  {
    var ss := Sections(container(ReplaceNbsp(body)));
    seq(|ss|, i requires 0 <= i < |ss| => ParseSection(ss[i]))
  }

  /** There is one parsed section per h2 of the container, and each opens
      with the text of its h2. */
  lemma ParsedSectionsOpenWithHeader(body: string, container: string -> seq<Element>)
    ensures var elems := container(ReplaceNbsp(body));
            var r := ParseRequirements(body, container);
            var hp := H2Positions(elems);
            && |r| == |hp|
            && forall i :: 0 <= i < |r| ==> r[i] != [] && r[i][0] == elems[hp[i]].text
  {
    var elems := container(ReplaceNbsp(body));
    var ss := Sections(elems);
    var hp := H2Positions(elems);
    forall i | 0 <= i < |ss|
      ensures ParseSection(ss[i]) != [] && ParseSection(ss[i])[0] == elems[hp[i]].text
    {
      SectionsShape(elems, i);
      assert ss[i][0] == elems[hp[i]];
      IsH2Lower(ss[i][0]);
      assert TagToText[0] == "h2";
    }
  }
}
