/** The section record normalisers of searchResultsParser.js: merging the
    detail objects of one section (`spreadPromisedObjects`), turning it into a
    section (`stripSectionDetails`, `containsHonors`) or a class
    (`copySectionAsClass`), and reading seat counts and texts out of a parsed
    HTML fragment (`serializeSeats`, `extractSeatsFromDom`, `extractTextFromDom`). */
module SectionDetails {
  import opened Wrappers
  import opened Strings
  import opened Js
  import opened Prereqs

  // ---------------------------------------------------------------------
  // containsHonors

  /** An attribute marks an honors section when its lower-cased text
      contains "honors". */
  predicate HonorsAttribute(a: string) {
    Contains(ToLower(a), "honors")
  }

  /** `containsHonors`: the loop that stops at the first honors attribute. */
  method ContainsHonors(attributesList: seq<string>) returns (r: bool)
    ensures r <==> exists i :: 0 <= i < |attributesList| && HonorsAttribute(attributesList[i])
  {
    for i := 0 to |attributesList|
      invariant forall j :: 0 <= j < i ==> !HonorsAttribute(attributesList[j])
    {
      if Contains(ToLower(attributesList[i]), "honors") {
        return true;
      }
    }
    return false;
  }

  /** Whether some attribute marks an honors section. */
  predicate Honors(attrs: seq<string>) {
    exists i :: 0 <= i < |attrs| && HonorsAttribute(attrs[i])
  }

  // ---------------------------------------------------------------------
  // stripSectionDetails

  /** The value is an array of strings, as `serializeAttributes` produces. */
  predicate StringList(v: Json) {
    v.Arr? && forall i :: 0 <= i < |v.items| ==> v.items[i].Str?
  }

  function StringsOf(v: Json): (r: seq<string>)
    requires StringList(v)
    ensures |r| == |v.items| && forall i :: 0 <= i < |r| ==> v.items[i] == Str(r[i])
  {
    seq(|v.items|, i requires 0 <= i < |v.items| => v.items[i].s)
  }

  const SectionUrlPrefix := "https://wl11gp.neu.edu/udcprod8/bwckschd.p_disp_detail_sched?term_in="

  /** The section's page in the old schedule system, for a term and a CRN. */
  function SectionUrl(termId: Json, crn: Json): (u: string)
    ensures |u| > |SectionUrlPrefix| && u[..|SectionUrlPrefix|] == SectionUrlPrefix
  {
    SectionUrlPrefix + Show(termId) + "&crn_in=" + Show(crn)
  }

  /** Within one term the URL determines the CRN's text: two sections of one
      term that share a URL have the same CRN text. */
  lemma SectionUrlDeterminesCrn(termId: Json, crn1: Json, crn2: Json)
    requires SectionUrl(termId, crn1) == SectionUrl(termId, crn2)
    ensures Show(crn1) == Show(crn2)
  {
    var n := |SectionUrlPrefix + Show(termId) + "&crn_in="|;
    assert SectionUrl(termId, crn1)[n..] == Show(crn1);
    assert SectionUrl(termId, crn2)[n..] == Show(crn2);
  }

  /** The keys `stripSectionDetails` deletes. */
  const Removed: set<string> := {"classAttributes", "name", "maxCredits", "minCredits"}

  /** A section record after `stripSectionDetails`: `url` and `honors` set,
      the four class-level keys deleted, every other key as it was. */
  function Stripped(props: map<string, Json>): (r: map<string, Json>)
    requires "classAttributes" in props && StringList(props["classAttributes"])
    ensures r.Keys == props.Keys - Removed + {"url", "honors"}
    ensures r["url"] == Str(SectionUrl(Get(props, "termId"), Get(props, "crn")))
    ensures r["honors"].Bool? && (r["honors"].b <==> Honors(StringsOf(props["classAttributes"])))
    ensures forall k :: k in props && k !in Removed && k != "url" && k != "honors" ==> r[k] == props[k]
  {
    props["url" := Str(SectionUrl(Get(props, "termId"), Get(props, "crn")))]
         ["honors" := Bool(Honors(StringsOf(props["classAttributes"])))] - Removed
  }

  /** Stripping removes every class-level key and leaves what it sets. */
  lemma StrippedHasNoClassKeys(props: map<string, Json>)
    requires "classAttributes" in props && StringList(props["classAttributes"])
    ensures forall k :: k in Removed ==> k !in Stripped(props)
    ensures "url" in Stripped(props) && "honors" in Stripped(props)
  {
  }

  /** `stripSectionDetails`: changes the record in place. The attribute list
      must be the string array `serializeAttributes` produces; anything else
      makes the loop of `containsHonors` throw. */
  method StripSectionDetails(sectionDetails: JsObject)
    requires "classAttributes" in sectionDetails.props && StringList(sectionDetails.props["classAttributes"])
    modifies sectionDetails
    ensures sectionDetails.props == Stripped(old(sectionDetails.props))
  {
    ghost var before := sectionDetails.props;
    var url := SectionUrl(Get(sectionDetails.props, "termId"), Get(sectionDetails.props, "crn"));
    sectionDetails.props := sectionDetails.props["url" := Str(url)];
    var attrs := StringsOf(sectionDetails.props["classAttributes"]);
    assert attrs == StringsOf(before["classAttributes"]);
    var honors := ContainsHonors(attrs);
    sectionDetails.props := sectionDetails.props["honors" := Bool(honors)];
    assert sectionDetails.props == before["url" := Str(url)]["honors" := Bool(Honors(attrs))];
    sectionDetails.props := sectionDetails.props - {"classAttributes"} - {"name"} - {"maxCredits"} - {"minCredits"};
    assert {"classAttributes"} + {"name"} + {"maxCredits"} + {"minCredits"} == Removed;
  }

  // ---------------------------------------------------------------------
  // spreadPromisedObjects

  /** `Object.assign` of the objects one after the other into `{}`: a later
      object's value for a key replaces an earlier one's. */
  function MergeAll(objs: seq<map<string, Json>>): (m: map<string, Json>)
    ensures objs != [] ==> forall k :: k in objs[|objs| - 1] ==> k in m && m[k] == objs[|objs| - 1][k]
  {
    if objs == [] then map[]
    else
      var n := |objs| - 1;
      MergeAll(objs[..n]) + objs[n]
  }

  /** The merge has the keys of all the objects and no others. */
  lemma {:induction false} MergeAllKeys(objs: seq<map<string, Json>>)
    ensures forall k :: k in MergeAll(objs) <==> exists i :: 0 <= i < |objs| && k in objs[i]
  {
    if objs != [] {
      var n := |objs| - 1;
      var init := objs[..n];
      MergeAllKeys(init);
      assert MergeAll(objs) == MergeAll(init) + objs[n];
      forall k | k in MergeAll(objs)
        ensures exists i :: 0 <= i < |objs| && k in objs[i]
      {
        if k !in objs[n] {
          var i :| 0 <= i < n && k in init[i];
          assert init[i] == objs[i];
        }
      }
      forall i, k | 0 <= i < |objs| && k in objs[i]
        ensures k in MergeAll(objs)
      {
        if i < n {
          assert init[i] == objs[i];
        }
      }
    }
  }

  /** The value of a key after the merge is that of the last object that has it. */
  lemma {:induction false} MergeAllLastWins(objs: seq<map<string, Json>>, i: nat, k: string)
    requires i < |objs| && k in objs[i]
    requires forall j :: i < j < |objs| ==> k !in objs[j]
    ensures k in MergeAll(objs) && MergeAll(objs)[k] == objs[i][k]
  {
    var n := |objs| - 1;
    var init := objs[..n];
    assert MergeAll(objs) == MergeAll(init) + objs[n];
    if i < n {
      forall j | i < j < |init|
        ensures k !in init[j]
      {
        assert init[j] == objs[j];
      }
      MergeAllLastWins(init, i, k);
      assert init[i] == objs[i];
    }
  }

  /** The keys the scraper fills in itself, after the spread. */
  const FixedKeys: set<string> := {"lastUpdateTime", "crn", "termId", "subject", "host"}

  /** `spreadPromisedObjects`: the detail objects merged in order, then the
      update time, CRN, term, subject code and host of the search result.
      The clock reading is a parameter. */
  method SpreadPromisedObjects(resolvedPromiseArray: seq<map<string, Json>>, searchResultsFromXE: map<string, Json>, now: int)
    returns (r: map<string, Json>)
    ensures forall k :: k in r <==> k in FixedKeys || exists i :: 0 <= i < |resolvedPromiseArray| && k in resolvedPromiseArray[i]
    ensures r["lastUpdateTime"] == Num(now) && r["host"] == Str("neu.edu")
    ensures r["crn"] == Get(searchResultsFromXE, "courseReferenceNumber")
    ensures r["termId"] == Get(searchResultsFromXE, "term")
    ensures r["subject"] == Get(searchResultsFromXE, "subject")
    ensures forall i, k ::
              (0 <= i < |resolvedPromiseArray| && k in resolvedPromiseArray[i] && k !in FixedKeys &&
               forall j :: i < j < |resolvedPromiseArray| ==> k !in resolvedPromiseArray[j]) ==>
              r[k] == resolvedPromiseArray[i][k]
  {
    var someDetails: map<string, Json> := map[];
    for i := 0 to |resolvedPromiseArray|
      invariant someDetails == MergeAll(resolvedPromiseArray[..i])
    {
      assert resolvedPromiseArray[..i + 1][..i] == resolvedPromiseArray[..i];
      someDetails := someDetails + resolvedPromiseArray[i];
    }
    assert resolvedPromiseArray[..|resolvedPromiseArray|] == resolvedPromiseArray;
    MergeAllKeys(resolvedPromiseArray);
    var crn := Get(searchResultsFromXE, "courseReferenceNumber");
    r := someDetails["lastUpdateTime" := Num(now)]["crn" := crn]["termId" := Get(searchResultsFromXE, "term")]
                    ["subject" := Get(searchResultsFromXE, "subject")]["host" := Str("neu.edu")];
    forall i, k | 0 <= i < |resolvedPromiseArray| && k in resolvedPromiseArray[i] && k !in FixedKeys &&
                  (forall j :: i < j < |resolvedPromiseArray| ==> k !in resolvedPromiseArray[j])
      ensures r[k] == resolvedPromiseArray[i][k]
    {
      MergeAllLastWins(resolvedPromiseArray, i, k);
    }
  }

  // ---------------------------------------------------------------------
  // Reading a parsed HTML fragment

  /** A top-level node of `cheerio.parseHTML`: the text cheerio gives for it,
      the text of the element after it, and, for a text node, its data. */
  datatype Node = Node(text: string, nextText: string, isText: bool, data: Option<string>)

  /** The node carries the label `key` (already trimmed): its own trimmed
      text is the key. */
  predicate Labelled(n: Node, key: string) {
    Trim(n.text) == key
  }

  /** The first node labelled with the trimmed key, from position `from`
      on. */
  function FirstMatchFrom(dom: seq<Node>, key: string, from: nat): (r: Option<nat>)
    ensures r.Some? ==> from <= r.value < |dom|
    decreases |dom| - from
  {
    if from >= |dom| then None
    else if Labelled(dom[from], key) then Some(from)
    else FirstMatchFrom(dom, key, from + 1)
  }

  /** The first node labelled with the trimmed key. */
  function FirstMatch(dom: seq<Node>, key: string): (r: Option<nat>)
    ensures r.Some? ==> r.value < |dom|
  {
    FirstMatchFrom(dom, key, 0)
  }

  /** A node `FirstMatchFrom` finds is labelled, and no node between
      `from` and it is. */
  lemma {:induction false} FirstMatchFromSome(dom: seq<Node>, key: string, from: nat)
    requires FirstMatchFrom(dom, key, from).Some?
    ensures var i := FirstMatchFrom(dom, key, from).value;
            Labelled(dom[i], key) && forall j :: from <= j < i ==> !Labelled(dom[j], key)
    decreases |dom| - from
  {
    if !Labelled(dom[from], key) {
      assert FirstMatchFrom(dom, key, from) == FirstMatchFrom(dom, key, from + 1);
      FirstMatchFromSome(dom, key, from + 1);
    }
  }

  /** `FirstMatchFrom` finds nothing only when no node from `from` on is
      labelled. */
  lemma {:induction false} FirstMatchFromNone(dom: seq<Node>, key: string, from: nat)
    requires FirstMatchFrom(dom, key, from).None?
    ensures forall j :: from <= j < |dom| ==> !Labelled(dom[j], key)
    decreases |dom| - from
  {
    if from < |dom| {
      assert FirstMatchFrom(dom, key, from) == FirstMatchFrom(dom, key, from + 1);
      FirstMatchFromNone(dom, key, from + 1);
    }
  }

  /** `FirstMatch` finds the first labelled node, and finds nothing only
      when no node is labelled. */
  lemma FirstMatchSpec(dom: seq<Node>, key: string)
    ensures var r := FirstMatch(dom, key);
            && (r.Some? ==> Labelled(dom[r.value], key) && forall j :: 0 <= j < r.value ==> !Labelled(dom[j], key))
            && (r.None? ==> forall j :: 0 <= j < |dom| ==> !Labelled(dom[j], key))
  {
    if FirstMatch(dom, key).Some? {
      FirstMatchFromSome(dom, key, 0);
    } else {
      FirstMatchFromNone(dom, key, 0);
    }
  }

  /** A number that `parseInt` read, or `NaN`. */
  datatype Parsed = Int(n: int) | NotANumber

  /** The outcome of `extractSeatsFromDom`: the parsed count, or the
      `NotFoundError` it throws. */
  datatype SeatLookup = Seats(count: Parsed) | NotFound

  /** `extractSeatsFromDom`: `parseInt` of the trimmed text after the first
      node labelled with the trimmed key; `parseInt` itself is a parameter. */
  method ExtractSeatsFromDom(domArray: seq<Node>, key: string, parseInt: string -> Parsed) returns (r: SeatLookup)
    ensures r.NotFound? <==> forall j :: 0 <= j < |domArray| ==> !Labelled(domArray[j], Trim(key))
    ensures r.NotFound? <==> FirstMatch(domArray, Trim(key)).None?
    ensures r.Seats? ==> r.count == parseInt(Trim(domArray[FirstMatch(domArray, Trim(key)).value].nextText))
    ensures SeatCount(domArray, key, parseInt) == if r.NotFound? then Int(0) else r.count
  {
    var k := Trim(key);
    for i := 0 to |domArray|
      invariant forall j :: 0 <= j < i ==> !Labelled(domArray[j], k)
    {
      if Trim(domArray[i].text) == k {
        FirstMatchIsFirst(domArray, k, i);
        return Seats(parseInt(Trim(domArray[i].nextText)));
      }
    }
    FirstMatchNone(domArray, k);
    return NotFound;
  }

  /** The first labelled node is the one `FirstMatch` finds. */
  lemma FirstMatchIsFirst(dom: seq<Node>, key: string, i: nat)
    requires i < |dom| && Labelled(dom[i], key)
    requires forall j :: 0 <= j < i ==> !Labelled(dom[j], key)
    ensures FirstMatch(dom, key) == Some(i)
  {
    FirstMatchSpec(dom, key);
    var r := FirstMatch(dom, key);
    assert r.Some? && r.value <= i && r.value >= i;
  }

  /** With no labelled node `FirstMatch` finds nothing. */
  lemma FirstMatchNone(dom: seq<Node>, key: string)
    requires forall j :: 0 <= j < |dom| ==> !Labelled(dom[j], key)
    ensures FirstMatch(dom, key) == None
  {
    FirstMatchSpec(dom, key);
  }

  /** The seat fields and the labels they are read from, in the order of the
      object literal. */
  const SeatFields: seq<(string, string)> := [
    ("seatsCapacity", "Enrollment Maximum:"),
    ("seatsRemaining", "Enrollment Seats Available:"),
    ("waitCapacity", "Waitlist Capacity:"),
    ("waitRemaining", "Waitlist Seats Available:")]

  lemma SeatFieldsDistinct()
    ensures forall i, j :: 0 <= i < j < |SeatFields| ==> SeatFields[i].0 != SeatFields[j].0
  {
    assert SeatFields[0].0[5] == 'C' && SeatFields[1].0[5] == 'R';
    assert SeatFields[2].0[4] == 'C' && SeatFields[3].0[4] == 'R';
    assert SeatFields[0].0[0] == 's' && SeatFields[2].0[0] == 'w';
  }

  /** The count a seat field ends with: the parsed number, or 0 when its
      label is missing. */
  function SeatCount(dom: seq<Node>, key: string, parseInt: string -> Parsed): Parsed {
    match FirstMatch(dom, Trim(key))
    case Some(i) => parseInt(Trim(dom[i].nextText))
    case None => Int(0)
  }

  /** `serializeSeats`: each of the four fields read from its label, 0 for a
      label that is not there. */
  method SerializeSeats(dom: seq<Node>, parseInt: string -> Parsed) returns (seats: map<string, Parsed>)
    ensures forall k :: k in seats <==> exists i :: 0 <= i < |SeatFields| && k == SeatFields[i].0
    ensures forall i :: 0 <= i < |SeatFields| ==> seats[SeatFields[i].0] == SeatCount(dom, SeatFields[i].1, parseInt)
  {
    SeatFieldsDistinct();
    seats := ReadSeatFields(dom, SeatFields, parseInt);
  }

  /** The seat counts of a field table, entry after entry: a later entry
      for the same field replaces an earlier one. */
  function SeatMap(fields: seq<(string, string)>, count: string -> Parsed): map<string, Parsed> {
    if fields == [] then map[]
    else
      var n := |fields| - 1;
      SeatMap(fields[..n], count)[fields[n].0 := count(fields[n].1)]
  }

  /** With distinct field names, each field holds the count read from its
      own label, and there is no other key. */
  lemma {:induction false} SeatMapFields(fields: seq<(string, string)>, count: string -> Parsed)
    requires forall i, j :: 0 <= i < j < |fields| ==> fields[i].0 != fields[j].0
    ensures forall k :: k in SeatMap(fields, count) <==> exists i :: 0 <= i < |fields| && k == fields[i].0
    ensures forall i :: 0 <= i < |fields| ==> SeatMap(fields, count)[fields[i].0] == count(fields[i].1)
  {
    if fields != [] {
      var n := |fields| - 1;
      var init := fields[..n];
      forall i, j | 0 <= i < j < |init|
        ensures init[i].0 != init[j].0
      {
        assert init[i] == fields[i] && init[j] == fields[j];
      }
      SeatMapFields(init, count);
      var m := SeatMap(fields, count);
      assert m == SeatMap(init, count)[fields[n].0 := count(fields[n].1)];
      forall k | k in m
        ensures exists i :: 0 <= i < |fields| && k == fields[i].0
      {
        if k != fields[n].0 {
          assert k in SeatMap(init, count);
          var i :| 0 <= i < |init| && k == init[i].0;
          assert k == fields[i].0;
        }
      }
      forall i | 0 <= i < |fields|
        ensures fields[i].0 in m && m[fields[i].0] == count(fields[i].1)
      {
        if i < n {
          assert init[i] == fields[i];
        }
      }
    }
  }

  /** The loop of `serializeSeats` over the entries of its field table,
      whose field names are distinct. */
  method ReadSeatFields(dom: seq<Node>, fields: seq<(string, string)>, parseInt: string -> Parsed)
    returns (seats: map<string, Parsed>)
    requires forall i, j :: 0 <= i < j < |fields| ==> fields[i].0 != fields[j].0
    ensures forall k :: k in seats <==> exists i :: 0 <= i < |fields| && k == fields[i].0
    ensures forall i :: 0 <= i < |fields| ==> seats[fields[i].0] == SeatCount(dom, fields[i].1, parseInt)
  {
    ghost var count := (key: string) => SeatCount(dom, key, parseInt);
    seats := map[];
    for i := 0 to |fields|
      invariant seats == SeatMap(fields[..i], count)
    {
      var field, domKey := fields[i].0, fields[i].1;
      var found := ExtractSeatsFromDom(dom, domKey, parseInt);
      assert fields[..i + 1][..i] == fields[..i];
      if found.NotFound? {
        seats := seats[field := Int(0)];
      } else {
        seats := seats[field := found.count];
      }
    }
    assert fields[..|fields|] == fields;
    SeatMapFields(fields, count);
  }

  /** The outcome of `extractTextFromDom`: the trimmed data of the node after
      the label, `null` when no node has the label, or the `TypeError` it
      throws when the label is the last node or the next node has no data. */
  datatype TextLookup = Text(value: string) | NullText | Crash

  /** What follows the label at position i. */
  function TextAfter(dom: seq<Node>, i: nat): TextLookup
    requires i < |dom|
  {
    if i + 1 == |dom| || dom[i + 1].data.None? then Crash else Text(Trim(dom[i + 1].data.value))
  }

  /** `extractTextFromDom`. A next node that is not a text node, or whose
      data is empty, is only warned about. */
  method ExtractTextFromDom(domArray: seq<Node>, key: string) returns (r: TextLookup)
    ensures r.NullText? <==> FirstMatch(domArray, Trim(key)).None?
    ensures FirstMatch(domArray, Trim(key)).Some? ==> r == TextAfter(domArray, FirstMatch(domArray, Trim(key)).value)
  {
    var k := Trim(key);
    for i := 0 to |domArray|
      invariant forall j :: 0 <= j < i ==> !Labelled(domArray[j], k)
    {
      if Trim(domArray[i].text) == k {
        FirstMatchIsFirst(domArray, k, i);
        if i + 1 == |domArray| {
          return Crash;
        }
        var textNode := domArray[i + 1];
        if textNode.data.None? {
          return Crash;
        }
        return Text(Trim(textNode.data.value));
      }
    }
    FirstMatchNone(domArray, k);
    return NullText;
  }

  // ---------------------------------------------------------------------
  // copySectionAsClass

  /** A requisite tree as the JavaScript object the parser builds. */
  function ReqToJson(r: Req): (v: Json)
    ensures r.Test? <==> v.Str?
    ensures !r.Test? ==> v.Obj?
  {
    match r
    case Group(kind, values) =>
      Obj(map["type" := Str(kind), "values" := Arr(seq(|values|, i requires 0 <= i < |values| => ReqToJson(values[i])))])
    case Course(subject, classId) =>
      Obj(map["classId" := (match classId case Some(c) => Str(c) case None => Undefined), "subject" := Str(subject)])
    case Test(test) => Str(test)
  }

  /** A class record: its CRN list, which grows as sections are added, and
      the fields set when it is made. */
  datatype ClassRecord = ClassRecord(crns: seq<Json>, fields: ClassFields)

  /** What is copied from the section, the fetched description and the two
      catalogue URLs. `prereqs` and `coreqs` are set only when the fetched
      group is truthy. */
  datatype ClassFields = ClassFields(
    classAttributes: Json, desc: Json, classId: Json, prettyUrl: string,
    name: Json, url: string, lastUpdateTime: Json, maxCredits: Json, minCredits: Json,
    termId: Json, host: Json, subject: Json, prereqs: Option<Json>, coreqs: Option<Json>)

  const ClassUrlPrefix := "https://wl11gp.neu.edu/udcprod8/bwckctlg.p_disp_listcrse?term_in="
  const ClassUrlSuffix := "&schd_in=%"
  const PrettyUrlPrefix := "https://wl11gp.neu.edu/udcprod8/bwckctlg.p_disp_course_detail?cat_term_in="

  /** The class listing in the old catalogue, for a term, a subject and a
      course number. */
  function ClassUrl(termId: Json, subject: Json, classId: Json): (u: string)
    ensures |u| > |ClassUrlPrefix| && u[..|ClassUrlPrefix|] == ClassUrlPrefix
    ensures |u| > |ClassUrlSuffix| && u[|u| - |ClassUrlSuffix|..] == ClassUrlSuffix
  {
    ClassUrlPrefix + Show(termId) + "&subj_in=" + Show(subject) + "&crse_in=" + Show(classId) + ClassUrlSuffix
  }

  /** The course's detail page in the old catalogue. */
  function PrettyUrl(termId: Json, subject: Json, classId: Json): (u: string)
    ensures |u| > |PrettyUrlPrefix| && u[..|PrettyUrlPrefix|] == PrettyUrlPrefix
  {
    PrettyUrlPrefix + Show(termId) + "&subj_code_in=" + Show(subject) + "&crse_numb_in=" + Show(classId)
  }

  /** For one term and subject, either URL determines the course number's
      text. */
  lemma ClassUrlsDetermineClassId(termId: Json, subject: Json, id1: Json, id2: Json)
    requires ClassUrl(termId, subject, id1) == ClassUrl(termId, subject, id2) ||
             PrettyUrl(termId, subject, id1) == PrettyUrl(termId, subject, id2)
    ensures Show(id1) == Show(id2)
  {
    var n := |ClassUrlPrefix + Show(termId) + "&subj_in=" + Show(subject) + "&crse_in="|;
    var u1, u2 := ClassUrl(termId, subject, id1), ClassUrl(termId, subject, id2);
    assert u1[n..|u1| - |ClassUrlSuffix|] == Show(id1);
    assert u2[n..|u2| - |ClassUrlSuffix|] == Show(id2);
    var m := |PrettyUrlPrefix + Show(termId) + "&subj_code_in=" + Show(subject) + "&crse_numb_in="|;
    assert PrettyUrl(termId, subject, id1)[m..] == Show(id1);
    assert PrettyUrl(termId, subject, id2)[m..] == Show(id2);
  }

  /** The value set under `key` only when it is truthy. */
  function SetIfTruthy(v: Json): (r: Option<Json>)
    ensures r.Some? <==> Truthy(v)
    ensures r.Some? ==> r.value == v
  {
    if Truthy(v) then Some(v) else None
  }

  /** `copySectionAsClass`, once the description and the requisite groups
      are fetched: a new class record whose CRN list starts empty. */
  function CopySectionAsClass(details: map<string, Json>, description: Json, prereqs: Req, coreqs: Req): (c: ClassRecord)
    ensures c.crns == [] && c.fields.desc == description
    ensures !prereqs.Test? ==> c.fields.prereqs == Some(ReqToJson(prereqs))
    ensures !coreqs.Test? ==> c.fields.coreqs == Some(ReqToJson(coreqs))
    ensures prereqs.Test? ==> (c.fields.prereqs.Some? <==> prereqs.test != "")
    ensures coreqs.Test? ==> (c.fields.coreqs.Some? <==> coreqs.test != "")
    ensures c.fields.classId == Get(details, "classId") && c.fields.termId == Get(details, "termId")
    ensures c.fields.subject == Get(details, "subject")
    ensures c.fields.name == Get(details, "name") && c.fields.classAttributes == Get(details, "classAttributes")
    ensures c.fields.lastUpdateTime == Get(details, "lastUpdateTime") && c.fields.host == Get(details, "host")
    ensures c.fields.maxCredits == Get(details, "maxCredits") && c.fields.minCredits == Get(details, "minCredits")
    ensures c.fields.url == ClassUrl(c.fields.termId, c.fields.subject, c.fields.classId)
    ensures c.fields.prettyUrl == PrettyUrl(c.fields.termId, c.fields.subject, c.fields.classId)
  {
    var t, s, id := Get(details, "termId"), Get(details, "subject"), Get(details, "classId");
    ClassRecord([], ClassFields(
      Get(details, "classAttributes"), description, Get(details, "classId"),
      PrettyUrl(t, s, id),
      Get(details, "name"),
      ClassUrl(t, s, id),
      Get(details, "lastUpdateTime"), Get(details, "maxCredits"), Get(details, "minCredits"),
      Get(details, "termId"), Get(details, "host"), Get(details, "subject"),
      SetIfTruthy(ReqToJson(prereqs)), SetIfTruthy(ReqToJson(coreqs))))
  }

  /** The keys of a section record that a class record is made from; the
      CRN is not among them. */
  const CopiedKeys: set<string> := {"classAttributes", "classId", "name", "lastUpdateTime", "maxCredits",
    "minCredits", "termId", "host", "subject"}

  /** The class does not depend on which section it is copied from: two
      sections that agree on the copied keys give the same class, whatever
      their CRNs. */
  lemma ClassIgnoresSection(d1: map<string, Json>, d2: map<string, Json>, description: Json, prereqs: Req, coreqs: Req)
    requires forall k :: k in CopiedKeys ==> Get(d1, k) == Get(d2, k)
    ensures CopySectionAsClass(d1, description, prereqs, coreqs) == CopySectionAsClass(d2, description, prereqs, coreqs)
  {
    assert Get(d1, "classAttributes") == Get(d2, "classAttributes");
    assert Get(d1, "classId") == Get(d2, "classId");
    assert Get(d1, "name") == Get(d2, "name");
    assert Get(d1, "lastUpdateTime") == Get(d2, "lastUpdateTime");
    assert Get(d1, "maxCredits") == Get(d2, "maxCredits");
    assert Get(d1, "minCredits") == Get(d2, "minCredits");
    assert Get(d1, "termId") == Get(d2, "termId");
    assert Get(d1, "host") == Get(d2, "host");
    assert Get(d1, "subject") == Get(d2, "subject");
  }
}
