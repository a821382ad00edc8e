/** The course-list parsing of parseCourseTable.js. Both regular
    expressions are anchored at the end of the text only, so a match is a
    suffix of the row text; it is read here from the right, one maximal run
    of letters or digits at a time. The leftmost match the regular
    expression engine reports is the one whose first letter run is maximal. */
module CourseTable {
  import opened Wrappers

  /** The two character classes of the regular expressions: `[A-Z]` and
      `\d` (an ASCII digit in JavaScript). */
  datatype CharClass = Upper | Digit

  predicate In(c: char, cls: CharClass) {
    match cls
    case Upper => 'A' <= c <= 'Z'
    case Digit => '0' <= c <= '9'
  }

  /** A run of `cls`: every character is in the class, and there is at
      least one. */
  predicate Run(s: string, cls: CharClass) {
    s != [] && forall k :: 0 <= k < |s| ==> In(s[k], cls)
  }

  /** The last character is not in `cls`: a run of `cls` that follows
      starts at its beginning. */
  predicate Stops(s: string, cls: CharClass) {
    s == [] || !In(s[|s| - 1], cls)
  }

  /** The length of the longest run of `cls` ending right before position
      e. */
  function RunBefore(text: string, e: nat, cls: CharClass): (n: nat)
    requires e <= |text|
    ensures n <= e
  {
    if e == 0 || !In(text[e - 1], cls) then 0 else RunBefore(text, e - 1, cls) + 1
  }

  /** The run is one: every character of it is in `cls`, and the one before
      it is not. */
  lemma {:induction false} RunBeforeSpec(text: string, e: nat, cls: CharClass)
    requires e <= |text|
    ensures var n := RunBefore(text, e, cls);
            && (forall k :: e - n <= k < e ==> In(text[k], cls))
            && (n < e ==> !In(text[e - n - 1], cls))
  {
    if e > 0 && In(text[e - 1], cls) {
      RunBeforeSpec(text, e - 1, cls);
    }
  }

  /** A run of length m of `cls` ending before e is at most the longest
      one, and is the longest one when the character before it is not in
      `cls`. */
  lemma {:induction false} RunBeforeAt(text: string, e: nat, cls: CharClass, m: nat)
    requires m <= e <= |text| && forall k :: e - m <= k < e ==> In(text[k], cls)
    ensures RunBefore(text, e, cls) >= m
    ensures m < e && !In(text[e - m - 1], cls) ==> RunBefore(text, e, cls) == m
  {
    if m > 0 {
      RunBeforeAt(text, e - 1, cls, m - 1);
    }
  }

  // ---------------------------------------------------------------------
  // extractSingleCourse

  /** The course `extractSingleCourse` returns. */
  datatype Course = Course(subject: string, courseId: string)

  /** `/([A-Z]+) (\d+)/` matches `text` ending at position e, with its first
      group at positions [k, s), the space at s and the second group from
      s + 1 to e. */
  predicate SingleAt(text: string, k: int, s: int, e: int) {
    0 <= k < s && s + 1 < e <= |text| && text[s] == ' ' &&
    (forall j :: k <= j < s ==> In(text[j], Upper)) &&
    (forall j :: s < j < e ==> In(text[j], Digit))
  }

  /** No capital letter right before position k: a match of a letter run
      starting at k is the leftmost one. */
  predicate StartsRun(text: string, k: int)
    requires 0 <= k <= |text|
  {
    k == 0 || !In(text[k - 1], Upper)
  }

  /** The course code that ends at position e, read from the right: the
      digits before e, the space before them and the capitals before that.
      Of the matches ending at e it is the leftmost one, which is the one
      the regular expression engine reports. */
  function SingleEndingAt(text: string, e: nat): (r: Option<Course>)
    requires e <= |text|
    ensures r.Some? ==> 0 < |r.value.subject| && 0 < |r.value.courseId| && |r.value.subject| + |r.value.courseId| < e
  {
    var d := RunBefore(text, e, Digit);
    if d == 0 || d == e || text[e - d - 1] != ' ' then None
    else
      var s := e - d - 1;
      var u := RunBefore(text, s, Upper);
      if u == 0 then None
      else
        Some(Course(text[s - u..s], text[s + 1..e]))
  }

  /** `extractSingleCourse`: `None` stands for the `false` it returns when
      the text does not end in a course code. */
  function ExtractSingleCourse(text: string): (r: Option<Course>)
    ensures r.Some? ==> 0 < |r.value.subject| && 0 < |r.value.courseId| && |r.value.subject| + |r.value.courseId| < |text|
  {
    SingleEndingAt(text, |text|)
  }

  /** What a course code found is: a match of the regular expression, at
      positions [k, s) and (s, e), whose subject starts its letter run. */
  lemma SingleSound(text: string, e: nat) returns (k: nat, s: nat)
    requires e <= |text| && SingleEndingAt(text, e).Some?
    ensures var r := SingleEndingAt(text, e).value;
            s == e - |r.courseId| - 1 && k == s - |r.subject| &&
            SingleAt(text, k, s, e) && StartsRun(text, k) && r == Course(text[k..s], text[s + 1..e])
  {
    RunBeforeSpec(text, e, Digit);
    s := e - RunBefore(text, e, Digit) - 1;
    RunBeforeSpec(text, s, Upper);
    k := s - RunBefore(text, s, Upper);
  }

  /** Every match is found: the course number is the matched one, and the
      subject reported, of length u, is the matched one or starts further
      left (the regular expression engine reports the leftmost match); it
      is exactly the matched one when that one starts its letter run. */
  lemma SingleComplete(text: string, k: int, s: int, e: nat) returns (u: nat)
    requires SingleAt(text, k, s, e)
    ensures s - k <= u <= s && SingleEndingAt(text, e) == Some(Course(text[s - u..s], text[s + 1..e]))
    ensures StartsRun(text, k) ==> u == s - k
  {
    RunBeforeAt(text, e, Digit, e - s - 1);
    RunBeforeAt(text, s, Upper, s - k);
    u := RunBefore(text, s, Upper);
  }

  /** The positions of a course code written after `pre`. */
  lemma SingleAtConcat(pre: string, subject: string, courseId: string)
    requires Run(subject, Upper) && Run(courseId, Digit)
    ensures var text := pre + subject + " " + courseId;
            var k, s := |pre|, |pre| + |subject|;
            SingleAt(text, k, s, |text|) && text[k..s] == subject && text[s + 1..] == courseId &&
            (Stops(pre, Upper) ==> StartsRun(text, k))
  {
    var text := pre + subject + " " + courseId;
    var k, s := |pre|, |pre| + |subject|;
    forall j | k <= j < s
      ensures In(text[j], Upper)
    {
      assert text[j] == subject[j - k];
    }
    forall j | s < j < |text|
      ensures In(text[j], Digit)
    {
      assert text[j] == courseId[j - s - 1];
    }
    assert text[k..s] == subject;
    assert text[s + 1..] == courseId;
    if k > 0 {
      assert text[k - 1] == pre[k - 1];
    }
  }

  /** A course code written after text that does not end in a capital
      letter reads back as that code. */
  lemma SingleRoundTrip(pre: string, subject: string, courseId: string)
    requires Run(subject, Upper) && Run(courseId, Digit) && Stops(pre, Upper)
    ensures ExtractSingleCourse(pre + subject + " " + courseId) == Some(Course(subject, courseId))
  {
    var text := pre + subject + " " + courseId;
    SingleAtConcat(pre, subject, courseId);
    var s := |pre| + |subject|;
    var u := SingleComplete(text, |pre|, s, |text|);
    assert text[s + 1..|text|] == text[s + 1..];
  }

  /** A match ending at e stays one, with the same text, when more text
      follows. */
  lemma SingleAtExtend(a: string, b: string, k: int, s: int, e: int)
    requires SingleAt(a, k, s, e)
    ensures SingleAt(a + b, k, s, e) && (a + b)[k..s] == a[k..s] && (a + b)[s + 1..e] == a[s + 1..e]
    ensures StartsRun(a, k) ==> StartsRun(a + b, k)
  {
    var t := a + b;
    forall j | k <= j < s
      ensures In(t[j], Upper)
    {
      assert t[j] == a[j];
    }
    forall j | s < j < e
      ensures In(t[j], Digit)
    {
      assert t[j] == a[j];
    }
    assert t[s] == a[s];
    if k > 0 {
      assert t[k - 1] == a[k - 1];
    }
  }

  // ---------------------------------------------------------------------
  // extractCourseRange

  /** The range `extractCourseRange` returns: the first subject and both
      numbers. */
  datatype CourseRange = CourseRange(subject: string, start: string, end: string)

  /** `/([A-Z]+) (\d+) to ([A-Z]+) (\d+)$/` matches `text`: the second
      course code at [k2, |text|), " to " right before it, and the first
      course code ending there, at [k1, k2 - 4). */
  predicate RangeAt(text: string, k1: int, s1: int, k2: int, s2: int) {
    4 <= k2 <= |text| && text[k2 - 4..k2] == " to " &&
    SingleAt(text, k2, s2, |text|) && SingleAt(text, k1, s1, k2 - 4)
  }

  /** `extractCourseRange`, read from the right: the second course code,
      the " to " before it, and the first course code before that. A second
      subject that differs from the first is only reported, and the result
      is the same. */
  function ExtractCourseRange(text: string): (r: Option<CourseRange>)
    ensures r.Some? ==> 0 < |r.value.subject| && 0 < |r.value.start| && 0 < |r.value.end| &&
                        |r.value.subject| + |r.value.start| + |r.value.end| + 6 < |text|
  {
    match SingleEndingAt(text, |text|)
    case None => None
    case Some(second) =>
      var k2 := |text| - |second.courseId| - |second.subject| - 1;
      if k2 < 4 || text[k2 - 4..k2] != " to " then None
      else
        match SingleEndingAt(text, k2 - 4)
        case None => None
        case Some(first) => Some(CourseRange(first.subject, first.courseId, second.courseId))
  }

  /** What a range found is: the two course codes and the " to " between
      them, with the first subject starting its letter run. */
  lemma RangeSound(text: string) returns (k1: nat, s1: nat, k2: nat, s2: nat)
    requires ExtractCourseRange(text).Some?
    ensures RangeAt(text, k1, s1, k2, s2) && StartsRun(text, k1)
    ensures ExtractCourseRange(text).value == CourseRange(text[k1..s1], text[s1 + 1..k2 - 4], text[s2 + 1..])
  {
    var second, first;
    second, first, k2 := RangeUnfold(text);
    var k;
    k, s2 := SingleSound(text, |text|);
    assert k == k2;
    assert text[s2 + 1..|text|] == text[s2 + 1..];
    k1, s1 := SingleSound(text, k2 - 4);
  }

  /** A range found is made of the course code it ends with and the course
      code before the " to " that precedes it. */
  lemma RangeUnfold(text: string) returns (second: Course, first: Course, k2: nat)
    requires ExtractCourseRange(text).Some?
    ensures SingleEndingAt(text, |text|) == Some(second)
    ensures k2 == |text| - |second.courseId| - |second.subject| - 1
    ensures 4 <= k2 && text[k2 - 4..k2] == " to " && SingleEndingAt(text, k2 - 4) == Some(first)
    ensures ExtractCourseRange(text).value == CourseRange(first.subject, first.courseId, second.courseId)
  {
    second := SingleEndingAt(text, |text|).value;
    k2 := |text| - |second.courseId| - |second.subject| - 1;
    first := SingleEndingAt(text, k2 - 4).value;
  }

  /** Every range match is found: the numbers are the matched ones, and the
      subject, of length u, is the matched one, or the matched one with
      more capitals before it; exactly the matched one when that one starts
      its run. */
  lemma RangeComplete(text: string, k1: int, s1: int, k2: int, s2: int) returns (u: nat)
    requires RangeAt(text, k1, s1, k2, s2)
    ensures s1 - k1 <= u <= s1
    ensures ExtractCourseRange(text) == Some(CourseRange(text[s1 - u..s1], text[s1 + 1..k2 - 4], text[s2 + 1..]))
    ensures StartsRun(text, k1) ==> u == s1 - k1
  {
    assert text[k2 - 1] == ' ' by {
      assert text[k2 - 4..k2][3] == text[k2 - 1];
    }
    var u2 := SingleComplete(text, k2, s2, |text|);
    assert text[s2 + 1..|text|] == text[s2 + 1..];
    u := SingleComplete(text, k1, s1, k2 - 4);
    RangeFold(text, k2, Course(text[k2..s2], text[s2 + 1..]), Course(text[s1 - u..s1], text[s1 + 1..k2 - 4]));
  }

  /** The range made of the course code a text ends with and the course
      code before the " to " in front of it. */
  lemma RangeFold(text: string, k2: nat, second: Course, first: Course)
    requires SingleEndingAt(text, |text|) == Some(second)
    requires k2 == |text| - |second.courseId| - |second.subject| - 1
    requires 4 <= k2 && text[k2 - 4..k2] == " to " && SingleEndingAt(text, k2 - 4) == Some(first)
    ensures ExtractCourseRange(text) == Some(CourseRange(first.subject, first.courseId, second.courseId))
  {
  }

  /** A written range reads back with its first subject, whatever the
      second subject is: "CS 2500 to MATH 3000" is a CS range. */
  lemma RangeRoundTrip(pre: string, subject: string, start: string, other: string, end: string)
    requires Run(subject, Upper) && Run(start, Digit) && Run(other, Upper) && Run(end, Digit)
    requires Stops(pre, Upper)
    ensures ExtractCourseRange(pre + subject + " " + start + " to " + other + " " + end) == Some(CourseRange(subject, start, end))
  {
    var text := pre + subject + " " + start + " to " + other + " " + end;
    var k1, s1, k2, s2 := RangeAtConcat(pre, subject, start, other, end);
    var u := RangeComplete(text, k1, s1, k2, s2);
  }

  /** The positions of a range written after `pre`. */
  lemma RangeAtConcat(pre: string, subject: string, start: string, other: string, end: string) returns (k1: int, s1: int, k2: int, s2: int)
    requires Run(subject, Upper) && Run(start, Digit) && Run(other, Upper) && Run(end, Digit)
    requires Stops(pre, Upper)
    ensures var text := pre + subject + " " + start + " to " + other + " " + end;
            RangeAt(text, k1, s1, k2, s2) && StartsRun(text, k1) &&
            text[k1..s1] == subject && text[s1 + 1..k2 - 4] == start && text[s2 + 1..] == end
  {
    var first := pre + subject + " " + start;
    var rest := " to " + other + " " + end;
    var text := first + rest;
    assert text == pre + subject + " " + start + " to " + other + " " + end;
    SingleAtConcat(pre, subject, start);
    SingleAtConcat(first + " to ", other, end);
    assert first + " to " + other + " " + end == text;
    k1, s1 := |pre|, |pre| + |subject|;
    k2 := |first| + 4;
    s2 := k2 + |other|;
    SingleAtExtend(first, rest, k1, s1, |first|);
    assert first[s1 + 1..] == first[s1 + 1..|first|];
    assert text[|first|..k2] == " to ";
  }

  // ---------------------------------------------------------------------
  // parseCourseRow and parseCourseTable

  /** A row of a course list: the course, or the message for a row that is
      not one. */
  datatype RowResult = Parsed(course: Course) | Unparsed(message: string)

  /** `parseCourseRow` on the text of a row. */
  function ParseCourseRow(text: string): (r: RowResult)
    ensures r.Parsed? <==> ExtractSingleCourse(text).Some?
    ensures r.Parsed? ==> r.course == ExtractSingleCourse(text).value
    ensures r.Unparsed? ==> r.message == "couldn't parse " + text
  {
    match ExtractSingleCourse(text)
    case Some(course) => Parsed(course)
    case None => Unparsed("couldn't parse " + text)
  }

  /** `parseCourseTable` on the texts of the code cells of the table body:
      one result per row, in order. */
  function ParseCourseTable(rowTexts: seq<string>): (r: seq<RowResult>)
    ensures |r| == |rowTexts| && forall i :: 0 <= i < |r| ==> r[i] == ParseCourseRow(rowTexts[i])
  {
    seq(|rowTexts|, i requires 0 <= i < |rowTexts| => ParseCourseRow(rowTexts[i]))
  }

  /** An unparsed row keeps its whole text in its message, so the message
      determines the row. */
  lemma UnparsedKeepsText(a: string, b: string)
    requires ParseCourseRow(a).Unparsed? && ParseCourseRow(a) == ParseCourseRow(b)
    ensures a == b
  {
    var prefix := "couldn't parse ";
    assert (prefix + a)[|prefix|..] == a;
    assert (prefix + b)[|prefix|..] == b;
  }
}
