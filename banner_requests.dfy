/** The request bookkeeping of bannerv9Parser.js around the registration
    system's search: the page requests of `requestsSectionsForTerm`, the
    merge of their answers, and `processSubjectListResponse`. The requests
    themselves are values; sending them is not modelled. */
module BannerRequests {
  import opened Js
  import opened Subjects

  /** The search results asked for per request (the system's limit). */
  const CoursesPerRequest := 500

  /** One search request: the term and the page it asks for. */
  datatype PageRequest = PageRequest(term: Json, pageOffset: int, pageMaxSize: int)

  /** The number of pages needed for `totalCount` results. */
  function PageCount(totalCount: int): (n: nat)
    ensures totalCount <= 0 ==> n == 0
    ensures totalCount > 0 ==> (n - 1) * CoursesPerRequest < totalCount <= n * CoursesPerRequest
  {
    if totalCount <= 0 then 0 else (totalCount + CoursesPerRequest - 1) / CoursesPerRequest
  }

  /** The `for` loop that queues one request per offset 0, 500, 1000, ...
      below `totalCount`. */
  method PageRequests(termCode: Json, totalCount: int) returns (sectionsPool: seq<PageRequest>)
    ensures |sectionsPool| == PageCount(totalCount)
    ensures forall i :: 0 <= i < |sectionsPool| ==>
              sectionsPool[i] == PageRequest(termCode, i * CoursesPerRequest, CoursesPerRequest)
  {
    sectionsPool := [];
    var nextCourseIndex := 0;
    while nextCourseIndex < totalCount
      invariant nextCourseIndex == |sectionsPool| * CoursesPerRequest
      invariant totalCount > 0 ==> nextCourseIndex <= PageCount(totalCount) * CoursesPerRequest
      invariant totalCount <= 0 ==> sectionsPool == []
      invariant forall i :: 0 <= i < |sectionsPool| ==>
                  sectionsPool[i] == PageRequest(termCode, i * CoursesPerRequest, CoursesPerRequest)
      decreases totalCount - nextCourseIndex
    {
      sectionsPool := sectionsPool + [PageRequest(termCode, nextCourseIndex, CoursesPerRequest)];
      nextCourseIndex := nextCourseIndex + CoursesPerRequest;
    }
  }

  /** The pages cover each result index below `totalCount` exactly once:
      index x is on page x / 500 and on no other. */
  lemma PagesCoverOnce(totalCount: int, x: int)
    requires 0 <= x < totalCount
    ensures x / CoursesPerRequest < PageCount(totalCount)
    ensures forall i :: 0 <= i < PageCount(totalCount) ==>
              (i * CoursesPerRequest <= x < i * CoursesPerRequest + CoursesPerRequest <==> i == x / CoursesPerRequest)
  {
    var n := PageCount(totalCount);
    assert x / CoursesPerRequest * CoursesPerRequest <= x;
    forall i | 0 <= i < n
      ensures i * CoursesPerRequest <= x < i * CoursesPerRequest + CoursesPerRequest <==> i == x / CoursesPerRequest
    {
      if i * CoursesPerRequest <= x < i * CoursesPerRequest + CoursesPerRequest {
        DivisionOfPage(x, i);
      }
    }
  }

  lemma DivisionOfPage(x: int, i: int)
    requires 0 <= i && i * CoursesPerRequest <= x < i * CoursesPerRequest + CoursesPerRequest
    ensures x / CoursesPerRequest == i
  {
    var q, r := x / CoursesPerRequest, x % CoursesPerRequest;
    assert x == q * CoursesPerRequest + r && 0 <= r < CoursesPerRequest;
  }

  /** The answer to one page request: its `success` flag and its `data`. */
  datatype Chunk = Chunk(success: Json, data: Json)

  /** What `concat` adds for one argument: the elements of an array, any
      other value as a single element. */
  function Spread(data: Json): (r: seq<Json>)
    ensures data.Arr? ==> r == data.items
    ensures !data.Arr? ==> r == [data]
  {
    if data.Arr? then data.items else [data]
  }

  /** The data of the chunks one after the other, in page order. */
  function AllSections(chunks: seq<Chunk>): seq<Json> {
    if chunks == [] then [] else AllSections(chunks[..|chunks| - 1]) + Spread(chunks[|chunks| - 1].data)
  }

  /** The `forEach` that concatenates the chunks; an unsuccessful chunk is
      reported and still concatenated. */
  method MergeChunks(sectionsPool: seq<Chunk>) returns (allSections: seq<Json>)
    ensures allSections == AllSections(sectionsPool)
  {
    allSections := [];
    for i := 0 to |sectionsPool|
      invariant allSections == AllSections(sectionsPool[..i])
    {
      assert sectionsPool[..i + 1][..i] == sectionsPool[..i];
      allSections := allSections + Spread(sectionsPool[i].data);
    }
    assert sectionsPool[..|sectionsPool|] == sectionsPool;
  }

  /** Merging pages is concatenation: the answers of two runs of pages
      merge to the merge of the first followed by that of the second. */
  lemma {:induction false} AllSectionsAppend(a: seq<Chunk>, b: seq<Chunk>)
    ensures AllSections(a + b) == AllSections(a) + AllSections(b)
    decreases |b|
  {
    if b != [] {
      var n := |b| - 1;
      assert (a + b)[..|a + b| - 1] == a + b[..n];
      AllSectionsAppend(a, b[..n]);
    } else {
      assert a + b == a;
    }
  }

  /** The `success` flag of a chunk does not change the merged sections. */
  lemma {:induction false} SuccessIgnored(chunks: seq<Chunk>, flags: seq<Json>)
    requires |flags| == |chunks|
    ensures AllSections(seq(|chunks|, i requires 0 <= i < |chunks| => Chunk(flags[i], chunks[i].data))) == AllSections(chunks)
  {
    if chunks != [] {
      var n := |chunks| - 1;
      var flagged := seq(|chunks|, i requires 0 <= i < |chunks| => Chunk(flags[i], chunks[i].data));
      assert flagged[..n] == seq(n, i requires 0 <= i < n => Chunk(flags[..n][i], chunks[..n][i].data));
      SuccessIgnored(chunks[..n], flags[..n]);
    }
  }

  /** One entry of the subject list: its code and its long name. */
  datatype SubjectData = SubjectData(code: string, description: string)

  /** `processSubjectListResponse`: one subject per entry, in order, for the
      given term. A status other than 200 is only reported. */
  function ProcessSubjectListResponse(statusCode: int, body: seq<SubjectData>, term: map<string, Json>): (r: seq<Subject>)
    ensures |r| == |body|
    ensures forall i :: 0 <= i < |r| ==>
              r[i] == Subject(body[i].code, body[i].description, Get(term, "termId"), Get(term, "host"))
  {
    seq(|body|, i requires 0 <= i < |body| => Subject(body[i].code, body[i].description, Get(term, "termId"), Get(term, "host")))
  }

  /** The subjects do not depend on the status code of the response. */
  lemma StatusIgnored(s1: int, s2: int, body: seq<SubjectData>, term: map<string, Json>)
    ensures ProcessSubjectListResponse(s1, body, term) == ProcessSubjectListResponse(s2, body, term)
  {
  }
}
