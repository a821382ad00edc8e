/** The subject abbreviation resolver of searchResultsParser.js:
    `createSubjectsAbbreviationTable` and `subjectLookup`. The table maps a
    subject's long name, with HTML entities decoded, to its short code. */
module Subjects {
  import opened Wrappers
  import opened Js

  /** One subject of one term: its code, its long name as the registration
      system sends it, and the term it belongs to. */
  datatype Subject = Subject(subject: string, text: string, termId: Json, host: Json)

  /** The table after the subjects one by one: a description whose stored code
      is truthy (non-empty) keeps it; otherwise the subject's code is stored.
      `decode` stands for the HTML parser's entity decoding. */
  function AbbreviationTable(subjects: seq<Subject>, decode: string -> string): (t: map<string, string>)
    ensures subjects != [] ==> decode(subjects[|subjects| - 1].text) in t
  {
    if subjects == [] then map[]
    else
      var n := |subjects| - 1;
      var prev := AbbreviationTable(subjects[..n], decode);
      var description := decode(subjects[n].text);
      if description in prev && prev[description] != "" then prev
      else prev[description := subjects[n].subject]
  }

  /** The table has an entry for every description given, and no other. */
  lemma {:induction false} AbbreviationTableKeys(subjects: seq<Subject>, decode: string -> string)
    ensures AbbreviationTable(subjects, decode).Keys == set i | 0 <= i < |subjects| :: decode(subjects[i].text)
  {
    if subjects != [] {
      var n := |subjects| - 1;
      AbbreviationTableKeys(subjects[..n], decode);
      var prev := set i | 0 <= i < n :: decode(subjects[..n][i].text);
      assert forall i :: 0 <= i < n ==> subjects[..n][i] == subjects[i];
      assert (set i | 0 <= i < |subjects| :: decode(subjects[i].text)) == prev + {decode(subjects[n].text)};
    }
  }

  /** `createSubjectsAbbreviationTable`: the forEach that fills the table. */
  method CreateSubjectsAbbreviationTable(subjects: seq<Subject>, decode: string -> string)
    returns (table: map<string, string>)
    ensures table == AbbreviationTable(subjects, decode)
  {
    table := map[];
    for i := 0 to |subjects|
      invariant table == AbbreviationTable(subjects[..i], decode)
    {
      var description := decode(subjects[i].text);
      assert subjects[..i + 1][..i] == subjects[..i];
      if description in table && table[description] != "" {
        // a second code for the same description: only a warning
      } else {
        table := table[description := subjects[i].subject];
      }
    }
    assert subjects[..|subjects|] == subjects;
  }

  /** Subject i is the first one with a non-empty code among those whose
      description decodes to `d`. */
  predicate FirstCodeFor(subjects: seq<Subject>, decode: string -> string, d: string, i: int) {
    && 0 <= i < |subjects|
    && decode(subjects[i].text) == d && subjects[i].subject != ""
    && forall j :: 0 <= j < i && decode(subjects[j].text) == d ==> subjects[j].subject == ""
  }

  /** First seen wins: the table holds, for each description, the first
      non-empty code given for it; later codes leave it unchanged. */
  lemma {:induction false} FirstCodeWins(subjects: seq<Subject>, decode: string -> string, d: string, i: int)
    requires FirstCodeFor(subjects, decode, d, i)
    ensures d in AbbreviationTable(subjects, decode)
    ensures AbbreviationTable(subjects, decode)[d] == subjects[i].subject
  {
    var n := |subjects| - 1;
    if i < n {
      assert FirstCodeFor(subjects[..n], decode, d, i);
      FirstCodeWins(subjects[..n], decode, d, i);
    } else {
      NoCodeYet(subjects[..n], decode, d);
    }
  }

  /** While no subject has given `d` a non-empty code, the table holds an
      empty code for `d` or nothing. */
  lemma {:induction false} NoCodeYet(subjects: seq<Subject>, decode: string -> string, d: string)
    requires forall j :: 0 <= j < |subjects| && decode(subjects[j].text) == d ==> subjects[j].subject == ""
    ensures d in AbbreviationTable(subjects, decode) ==> AbbreviationTable(subjects, decode)[d] == ""
  {
    if subjects != [] {
      var n := |subjects| - 1;
      NoCodeYet(subjects[..n], decode, d);
    }
  }

  /** `subjectLookup`: the stored code when it is truthy, otherwise `false`
      (here `None`). */
  function SubjectLookup(description: string, table: map<string, string>): (r: Option<string>)
    ensures r.Some? <==> description in table && table[description] != ""
    ensures r.Some? ==> r.value == table[description]
  {
    if description in table && table[description] != "" then Some(table[description]) else None
  }

  /** Resolving a description through the table gives a code exactly when
      some subject gave that description a non-empty code, and then the first
      such code. */
  lemma LookupFindsFirstCode(subjects: seq<Subject>, decode: string -> string, d: string)
    ensures SubjectLookup(d, AbbreviationTable(subjects, decode)).Some? <==>
            exists i :: 0 <= i < |subjects| && decode(subjects[i].text) == d && subjects[i].subject != ""
    ensures forall i :: FirstCodeFor(subjects, decode, d, i) ==>
            SubjectLookup(d, AbbreviationTable(subjects, decode)) == Some(subjects[i].subject)
  {
    var t := AbbreviationTable(subjects, decode);
    if exists i :: 0 <= i < |subjects| && decode(subjects[i].text) == d && subjects[i].subject != "" {
      var i := FirstIndexWithCode(subjects, decode, d);
      FirstCodeWins(subjects, decode, d, i);
    } else {
      NoCodeYet(subjects, decode, d);
    }
    forall i | FirstCodeFor(subjects, decode, d, i)
      ensures SubjectLookup(d, t) == Some(subjects[i].subject)
    {
      FirstCodeWins(subjects, decode, d, i);
    }
  }

  /** The least index that gives `d` a non-empty code, when there is one. */
  lemma FirstIndexWithCode(subjects: seq<Subject>, decode: string -> string, d: string) returns (i: int)
    requires exists i :: 0 <= i < |subjects| && decode(subjects[i].text) == d && subjects[i].subject != ""
    ensures FirstCodeFor(subjects, decode, d, i)
  {
    i := 0;
    while !(decode(subjects[i].text) == d && subjects[i].subject != "")
      invariant 0 <= i < |subjects|
      invariant forall j :: 0 <= j < i && decode(subjects[j].text) == d ==> subjects[j].subject == ""
      invariant exists k :: i <= k < |subjects| && decode(subjects[k].text) == d && subjects[k].subject != ""
      decreases |subjects| - i
    {
      i := i + 1;
    }
  }
}
