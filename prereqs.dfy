/** The requisite builders of searchResultsParser.js: `serializePrereqs`,
    which turns the rows of the prerequisite table into a nested and/or tree,
    and `serializeCoreqs`, which gives a flat `and` list. Rows are the
    decoded rows of `parseTable`; a subject's long name goes through the
    abbreviation table. */
module Prereqs {
  import opened Wrappers
  import opened Strings
  import opened TableDecoder
  import opened Subjects

  /** A requisite: an and/or group, a course, or a test name. */
  datatype Req =
    | Group(kind: string, values: seq<Req>)
    | Course(subject: string, classId: Option<string>)
    | Test(test: string)

  /** `row[key]`: the cell under that header, `undefined` when there is none. */
  function Field(row: Row, key: string): (v: Option<string>)
    ensures key !in row ==> v == None
  {
    if key in row then row[key] else None
  }

  /** A cell is truthy when it is there and not empty. */
  predicate Present(v: Option<string>) {
    v.Some? && v.value != ""
  }

  /** The property key a cell value is converted to: `undefined` becomes the
      text "undefined". */
  function PropertyKey(v: Option<string>): string {
    match v
    case None => "undefined"
    case Some(s) => s
  }

  /** The short code of the row's subject, when the table resolves it. */
  function RowSubject(row: Row, table: map<string, string>): Option<string> {
    SubjectLookup(PropertyKey(Field(row, "subject")), table)
  }

  /** The row names a course whose subject resolves, or a test with a score. */
  predicate ContentPresent(row: Row, table: map<string, string>) {
    || (Present(Field(row, "subject")) && Present(Field(row, "coursenumber")) && RowSubject(row, table).Some?)
    || (Present(Field(row, "test")) && Present(Field(row, "score")))
  }

  /** The requisite a content row stands for: its test when it names one,
      otherwise its course. */
  function RowLeaf(row: Row, table: map<string, string>): (r: Req)
    requires ContentPresent(row, table)
    ensures r.Test? <==> Present(Field(row, "test"))
    ensures r.Course? ==> Some(r.subject) == RowSubject(row, table) && r.classId == Field(row, "coursenumber")
  {
    if Present(Field(row, "test")) then Test(Field(row, "test").value)
    else Course(RowSubject(row, table).value, Field(row, "coursenumber"))
  }

  /** The `and/or` column of a row changes the connective of the group it is in. */
  function NextKind(row: Row, kind: string): string {
    if Present(Field(row, "and/or")) then ToLower(Field(row, "and/or").value) else kind
  }

  /** A left parenthesis sits in the first blank column (key ''), a right
      one in the second (key '1'). */
  predicate OpensGroup(row: Row) { Present(Field(row, "")) }
  predicate ClosesGroup(row: Row) { Present(Field(row, "1")) }

  /** The loop of `parsePrereqs` from row `idx` on, with connective `kind` and
      the values `acc` parsed so far: the group it returns and the row index
      it leaves behind. A row that closes a group ends this one, after any
      nesting the row starts. */
  function ParseLoop(rows: seq<Row>, table: map<string, string>, idx: nat, kind: string, acc: seq<Req>): (r: (Req, nat))
    requires idx <= |rows|
    ensures idx <= r.1 <= |rows| && (idx < |rows| ==> idx < r.1)
    ensures r.0.Group?
    decreases |rows| - idx, 1
  {
    if idx == |rows| then (Group(kind, acc), idx)
    else
      var step := Step(rows, table, idx, acc);
      if ClosesGroup(rows[idx]) then (Group(NextKind(rows[idx], kind), step.0), step.1)
      else ParseLoop(rows, table, step.1, NextKind(rows[idx], kind), step.0)
  }

  /** What row `idx` adds to the values parsed so far, and the next row. A
      row that opens a group starts a nested parse at the next row, and the
      row's own requisite goes first in the nested group; any other content
      row adds its requisite. */
  function Step(rows: seq<Row>, table: map<string, string>, idx: nat, acc: seq<Req>): (r: (seq<Req>, nat))
    requires idx < |rows|
    ensures idx < r.1 <= |rows|
    decreases |rows| - idx, 0
  {
    var row := rows[idx];
    if OpensGroup(row) then
      var sub := ParseLoop(rows, table, idx + 1, "and", []);
      (acc + [Nested(row, table, sub.0)], sub.1)
    else
      (acc + Own(row, table), idx + 1)
  }

  /** The requisite of a content row, as a one-element sequence. */
  function Own(row: Row, table: map<string, string>): (r: seq<Req>)
    ensures |r| <= 1
  {
    if ContentPresent(row, table) then [RowLeaf(row, table)] else []
  }

  /** The nested group of a row that opens one, with the row's own
      requisite in front. */
  function Nested(row: Row, table: map<string, string>, sub: Req): (r: Req)
    requires sub.Group?
    ensures r.Group? && r.kind == sub.kind && r.values == Own(row, table) + sub.values
  {
    if ContentPresent(row, table) then Group(sub.kind, [RowLeaf(row, table)] + sub.values) else sub
  }

  /** The state of `serializePrereqs`: the decoded rows, the abbreviation
      table, and the index of the next row, which the nested calls share. */
  class PrereqParser {
    const allRows: seq<Row>
    const table: map<string, string>
    var rowIndex: nat

    constructor (allRows: seq<Row>, table: map<string, string>)
      ensures this.allRows == allRows && this.table == table && rowIndex == 0
    {
      this.allRows := allRows;
      this.table := table;
      rowIndex := 0;
    }

    /** `parsePrereqs`: one group, from the current row up to the row that
        closes it or the end of the table. */
    method ParsePrereqs() returns (g: Req)
      requires rowIndex <= |allRows|
      modifies this
      ensures (g, rowIndex) == ParseLoop(allRows, table, old(rowIndex), "and", [])
      decreases |allRows| - rowIndex, 1
    {
      ghost var start := rowIndex;
      var parsed: seq<Req> := [];
      var boolean := "and";
      while rowIndex < |allRows|
        invariant start <= rowIndex <= |allRows|
        invariant ParseLoop(allRows, table, start, "and", []) == ParseLoop(allRows, table, rowIndex, boolean, parsed)
        decreases |allRows| - rowIndex
      {
        ghost var here, kind, acc := rowIndex, boolean, parsed;
        LoopStep(allRows, table, here, kind, acc);
        var closes;
        boolean, parsed, closes := ReadRow(boolean, parsed);
        if closes {
          return Group(boolean, parsed);
        }
      }
      return Group(boolean, parsed);
    }

    /** The body of the loop of `parsePrereqs`: the current row read, with
        the nested parse when it opens a group. Also returns whether the
        row closes the group. */
    method ReadRow(boolean: string, parsed: seq<Req>) returns (boolean': string, parsed': seq<Req>, closes: bool)
      requires rowIndex < |allRows|
      modifies this
      ensures var row := allRows[old(rowIndex)];
              var step := Step(allRows, table, old(rowIndex), parsed);
              && parsed' == step.0 && rowIndex == step.1
              && boolean' == NextKind(row, boolean) && closes == ClosesGroup(row)
      decreases |allRows| - rowIndex, 0
    {
      var row := allRows[rowIndex];
      var leftParen := Field(row, "");
      var rightParen := Field(row, "1");
      var subjectAbbreviation := SubjectLookup(PropertyKey(Field(row, "subject")), table);
      var isContentPresent := ContentPresent(row, table);
      ghost var here := rowIndex;
      boolean' := boolean;
      if Present(Field(row, "and/or")) {
        boolean' := ToLower(Field(row, "and/or").value);
      }
      var curr := if isContentPresent then RowLeaf(row, table) else Test("");
      rowIndex := rowIndex + 1;
      if Present(leftParen) {
        var recur := ParsePrereqs();
        StepOpens(allRows, table, here, parsed);
        ghost var sub := ParseLoop(allRows, table, here + 1, "and", []);
        if isContentPresent {
          recur := Group(recur.kind, [curr] + recur.values);
        }
        assert recur == Nested(row, table, sub.0);
        parsed' := parsed + [recur];
      } else {
        StepOther(allRows, table, here, parsed);
        if isContentPresent {
          parsed' := parsed + [curr];
        } else {
          parsed' := parsed;
          assert parsed + Own(row, table) == parsed;
        }
      }
      closes := Present(rightParen);
    }
  }

  /** One turn of the loop of `parsePrereqs`. */
  lemma LoopStep(rows: seq<Row>, table: map<string, string>, idx: nat, kind: string, acc: seq<Req>)
    requires idx < |rows|
    ensures var step := Step(rows, table, idx, acc);
            ParseLoop(rows, table, idx, kind, acc) ==
              if ClosesGroup(rows[idx]) then (Group(NextKind(rows[idx], kind), step.0), step.1)
              else ParseLoop(rows, table, step.1, NextKind(rows[idx], kind), step.0)
  {
  }

  /** A row that opens a group adds the nested group parsed after it. */
  lemma StepOpens(rows: seq<Row>, table: map<string, string>, idx: nat, acc: seq<Req>)
    requires idx < |rows| && OpensGroup(rows[idx])
    ensures var sub := ParseLoop(rows, table, idx + 1, "and", []);
            Step(rows, table, idx, acc) == (acc + [Nested(rows[idx], table, sub.0)], sub.1)
  {
  }

  /** Any other row adds its own requisite, if any. */
  lemma StepOther(rows: seq<Row>, table: map<string, string>, idx: nat, acc: seq<Req>)
    requires idx < |rows| && !OpensGroup(rows[idx])
    ensures Step(rows, table, idx, acc) == (acc + Own(rows[idx], table), idx + 1)
  {
  }

  /** `serializePrereqs` on the decoded rows of the prerequisite table. */
  method SerializePrereqs(allRows: seq<Row>, table: map<string, string>) returns (r: Req)
    ensures r == ParseLoop(allRows, table, 0, "and", []).0
  {
    var parser := new PrereqParser(allRows, table);
    r := parser.ParsePrereqs();
  }

  // ---------------------------------------------------------------------
  // What the parse keeps: the requisites, in row order

  /** The courses and tests of a requisite tree, left to right. */
  function Leaves(r: Req): seq<Req>
    decreases r, 1
  {
    match r
    case Group(_, values) => LeavesOf(values)
    case _ => [r]
  }

  function LeavesOf(rs: seq<Req>): seq<Req>
    decreases rs, 0
  {
    if rs == [] then [] else LeavesOf(rs[..|rs| - 1]) + Leaves(rs[|rs| - 1])
  }

  /** The requisites of the content rows in `rows[lo..hi]`, in row order. */
  function ContentLeaves(rows: seq<Row>, table: map<string, string>, lo: nat, hi: nat): seq<Req>
    requires lo <= hi <= |rows|
    decreases hi - lo
  {
    if lo == hi then []
    else (if ContentPresent(rows[lo], table) then [RowLeaf(rows[lo], table)] else [])
         + ContentLeaves(rows, table, lo + 1, hi)
  }

  lemma {:induction false} LeavesOfPrepend(r: Req, rs: seq<Req>)
    ensures LeavesOf([r] + rs) == Leaves(r) + LeavesOf(rs)
  {
    if rs != [] {
      var n := |rs| - 1;
      assert ([r] + rs)[..n + 1] == [r] + rs[..n];
      LeavesOfPrepend(r, rs[..n]);
    }
  }

  lemma LeavesOfSingle(r: Req)
    ensures LeavesOf([r]) == Leaves(r)
  {
    assert [r][..0] == [];
  }

  lemma {:induction false} ContentLeavesSplit(rows: seq<Row>, table: map<string, string>, lo: nat, mid: nat, hi: nat)
    requires lo <= mid <= hi <= |rows|
    ensures ContentLeaves(rows, table, lo, hi) == ContentLeaves(rows, table, lo, mid) + ContentLeaves(rows, table, mid, hi)
    decreases mid - lo
  {
    if lo < mid {
      ContentLeavesSplit(rows, table, lo + 1, mid, hi);
    }
  }

  /** No content row is lost, none is duplicated, and the order is kept: the
      leaves of the returned group are the values parsed before, followed by
      the requisites of the content rows the parse went through. */
  lemma {:induction false} ParseKeepsLeaves(rows: seq<Row>, table: map<string, string>, idx: nat, kind: string, acc: seq<Req>)
    requires idx <= |rows|
    ensures var r := ParseLoop(rows, table, idx, kind, acc);
            Leaves(r.0) == LeavesOf(acc) + ContentLeaves(rows, table, idx, r.1)
    decreases |rows| - idx, 1
  {
    if idx < |rows| {
      var step := Step(rows, table, idx, acc);
      LoopStep(rows, table, idx, kind, acc);
      StepKeepsLeaves(rows, table, idx, acc);
      var kind' := NextKind(rows[idx], kind);
      if ClosesGroup(rows[idx]) {
        assert ParseLoop(rows, table, idx, kind, acc) == (Group(kind', step.0), step.1);
        assert Leaves(Group(kind', step.0)) == LeavesOf(step.0);
      } else {
        var rest := ParseLoop(rows, table, step.1, kind', step.0);
        assert ParseLoop(rows, table, idx, kind, acc) == rest;
        ParseKeepsLeaves(rows, table, step.1, kind', step.0);
        ContentLeavesSplit(rows, table, idx, step.1, rest.1);
        var a, b, c := LeavesOf(acc), ContentLeaves(rows, table, idx, step.1), ContentLeaves(rows, table, step.1, rest.1);
        assert LeavesOf(step.0) == a + b && Leaves(rest.0) == LeavesOf(step.0) + c;
        assert (a + b) + c == a + (b + c);
      }
    }
  }

  lemma {:induction false} StepKeepsLeaves(rows: seq<Row>, table: map<string, string>, idx: nat, acc: seq<Req>)
    requires idx < |rows|
    ensures var r := Step(rows, table, idx, acc);
            LeavesOf(r.0) == LeavesOf(acc) + ContentLeaves(rows, table, idx, r.1)
    decreases |rows| - idx, 0
  {
    var row := rows[idx];
    var own := Own(row, table);
    if OpensGroup(row) {
      var sub := ParseLoop(rows, table, idx + 1, "and", []);
      ParseKeepsLeaves(rows, table, idx + 1, "and", []);
      assert LeavesOf([]) == [];
      NestedKeepsLeaves(row, table, acc, sub.0, ContentLeaves(rows, table, idx + 1, sub.1));
      assert Step(rows, table, idx, acc) == (acc + [Nested(row, table, sub.0)], sub.1);
      ContentLeavesFirst(rows, table, idx, sub.1);
    } else {
      assert Step(rows, table, idx, acc) == (acc + own, idx + 1);
      ContentLeavesFirst(rows, table, idx, idx + 1);
      OwnKeepsLeaves(row, table, acc);
    }
  }

  /** The leaves after a row that opens a group: those before, the row's
      own requisite, then those of the nested parse. */
  lemma NestedKeepsLeaves(row: Row, table: map<string, string>, acc: seq<Req>, sub: Req, content: seq<Req>)
    requires sub.Group? && Leaves(sub) == content
    ensures LeavesOf(acc + [Nested(row, table, sub)]) == LeavesOf(acc) + (Own(row, table) + content)
  {
    if ContentPresent(row, table) {
      LeavesOfPrepend(RowLeaf(row, table), sub.values);
    }
    LeavesOfSnoc(acc, Nested(row, table, sub));
  }

  /** The leaves after any other row: those before and the row's own
      requisite. */
  lemma OwnKeepsLeaves(row: Row, table: map<string, string>, acc: seq<Req>)
    ensures LeavesOf(acc + Own(row, table)) == LeavesOf(acc) + (Own(row, table) + [])
  {
    if ContentPresent(row, table) {
      LeavesOfSnoc(acc, RowLeaf(row, table));
    } else {
      assert acc + Own(row, table) == acc;
    }
  }

  lemma LeavesOfSnoc(rs: seq<Req>, r: Req)
    ensures LeavesOf(rs + [r]) == LeavesOf(rs) + Leaves(r)
  {
    assert (rs + [r])[..|rs|] == rs;
  }

  lemma ContentLeavesFirst(rows: seq<Row>, table: map<string, string>, lo: nat, hi: nat)
    requires lo < hi <= |rows|
    ensures ContentLeaves(rows, table, lo, hi) == Own(rows[lo], table) + ContentLeaves(rows, table, lo + 1, hi)
  {
  }

  /** The prerequisite tree holds exactly the requisites of the content rows
      it read, in row order. */
  lemma PrereqLeaves(allRows: seq<Row>, table: map<string, string>)
    ensures var r := ParseLoop(allRows, table, 0, "and", []);
            Leaves(r.0) == ContentLeaves(allRows, table, 0, r.1)
  {
    ParseKeepsLeaves(allRows, table, 0, "and", []);
    assert LeavesOf([]) == [];
  }

  // ---------------------------------------------------------------------
  // One group per left parenthesis

  function Groups(r: Req): nat
    decreases r, 1
  {
    match r
    case Group(_, values) => 1 + GroupsOf(values)
    case _ => 0
  }

  function GroupsOf(rs: seq<Req>): nat
    decreases rs, 0
  {
    if rs == [] then 0 else GroupsOf(rs[..|rs| - 1]) + Groups(rs[|rs| - 1])
  }

  /** The number of rows in `rows[lo..hi]` that open a group. */
  function Openings(rows: seq<Row>, lo: nat, hi: nat): nat
    requires lo <= hi <= |rows|
    decreases hi - lo
  {
    if lo == hi then 0 else (if OpensGroup(rows[lo]) then 1 else 0) + Openings(rows, lo + 1, hi)
  }

  lemma {:induction false} OpeningsSplit(rows: seq<Row>, lo: nat, mid: nat, hi: nat)
    requires lo <= mid <= hi <= |rows|
    ensures Openings(rows, lo, hi) == Openings(rows, lo, mid) + Openings(rows, mid, hi)
    decreases mid - lo
  {
    if lo < mid {
      OpeningsSplit(rows, lo + 1, mid, hi);
    }
  }

  lemma {:induction false} GroupsOfPrepend(r: Req, rs: seq<Req>)
    ensures GroupsOf([r] + rs) == Groups(r) + GroupsOf(rs)
  {
    if rs != [] {
      var n := |rs| - 1;
      assert ([r] + rs)[..n + 1] == [r] + rs[..n];
      GroupsOfPrepend(r, rs[..n]);
    }
  }

  /** Each row that opens a group yields exactly one nested group: the parse
      returns one group plus one per opening row it went through, besides the
      groups already parsed. */
  lemma {:induction false} ParseCountsGroups(rows: seq<Row>, table: map<string, string>, idx: nat, kind: string, acc: seq<Req>)
    requires idx <= |rows|
    ensures var r := ParseLoop(rows, table, idx, kind, acc);
            Groups(r.0) == 1 + GroupsOf(acc) + Openings(rows, idx, r.1)
    decreases |rows| - idx, 1
  {
    if idx < |rows| {
      var step := Step(rows, table, idx, acc);
      StepCountsGroups(rows, table, idx, acc);
      if !ClosesGroup(rows[idx]) {
        var kind' := NextKind(rows[idx], kind);
        ParseCountsGroups(rows, table, step.1, kind', step.0);
        OpeningsSplit(rows, idx, step.1, ParseLoop(rows, table, step.1, kind', step.0).1);
      }
    }
  }

  lemma {:induction false} StepCountsGroups(rows: seq<Row>, table: map<string, string>, idx: nat, acc: seq<Req>)
    requires idx < |rows|
    ensures var r := Step(rows, table, idx, acc);
            GroupsOf(r.0) == GroupsOf(acc) + Openings(rows, idx, r.1)
    decreases |rows| - idx, 0
  {
    var row := rows[idx];
    var own := Own(row, table);
    assert Openings(rows, idx, idx + 1) == if OpensGroup(row) then 1 else 0;
    if OpensGroup(row) {
      var sub := ParseLoop(rows, table, idx + 1, "and", []);
      ParseCountsGroups(rows, table, idx + 1, "and", []);
      var nested := Nested(row, table, sub.0);
      if own != [] {
        GroupsOfPrepend(RowLeaf(row, table), sub.0.values);
      }
      assert Groups(nested) == Groups(sub.0);
      OpeningsSplit(rows, idx, idx + 1, sub.1);
      assert (acc + [nested])[..|acc|] == acc;
    } else if own != [] {
      assert (acc + own)[..|acc|] == acc;
    } else {
      assert acc + own == acc;
    }
  }

  /** A table without any right parenthesis is read to its last row. */
  lemma {:induction false} NoClosingReadsAll(rows: seq<Row>, table: map<string, string>, idx: nat, kind: string, acc: seq<Req>)
    requires idx <= |rows|
    requires forall i :: idx <= i < |rows| ==> !ClosesGroup(rows[i])
    ensures ParseLoop(rows, table, idx, kind, acc).1 == |rows|
    decreases |rows| - idx
  {
    if idx < |rows| {
      var step := Step(rows, table, idx, acc);
      if OpensGroup(rows[idx]) {
        NoClosingReadsAll(rows, table, idx + 1, "and", []);
      }
      NoClosingReadsAll(rows, table, step.1, NextKind(rows[idx], kind), step.0);
    }
  }

  /** A table without parentheses gives one flat group of the content rows'
      requisites. */
  lemma {:induction false} NoParensIsFlat(rows: seq<Row>, table: map<string, string>, idx: nat, kind: string, acc: seq<Req>)
    requires idx <= |rows|
    requires forall i :: idx <= i < |rows| ==> !OpensGroup(rows[i]) && !ClosesGroup(rows[i])
    ensures var r := ParseLoop(rows, table, idx, kind, acc);
            r.1 == |rows| && r.0.values == acc + ContentLeaves(rows, table, idx, |rows|)
    decreases |rows| - idx
  {
    if idx < |rows| {
      var row := rows[idx];
      var own := Own(row, table);
      var rest := ContentLeaves(rows, table, idx + 1, |rows|);
      FlatStep(rows, table, idx, kind, acc);
      ContentLeavesFirst(rows, table, idx, |rows|);
      NoParensIsFlat(rows, table, idx + 1, NextKind(row, kind), acc + own);
      assert (acc + own) + rest == acc + (own + rest);
    }
  }

  /** A row without parentheses adds its own requisite and passes on. */
  lemma FlatStep(rows: seq<Row>, table: map<string, string>, idx: nat, kind: string, acc: seq<Req>)
    requires idx < |rows| && !OpensGroup(rows[idx]) && !ClosesGroup(rows[idx])
    ensures ParseLoop(rows, table, idx, kind, acc) == ParseLoop(rows, table, idx + 1, NextKind(rows[idx], kind), acc + Own(rows[idx], table))
  {
    assert Step(rows, table, idx, acc) == (acc + Own(rows[idx], table), idx + 1);
  }

  /** Three rows: a course A; an "And" row that opens a parenthesis and
      names B; an "Or" row that names C and closes it. They give
      `{and, [A, {or, [B, C]}]}`: the opening row's course goes first in
      the nested group, which keeps its own connective. */
  lemma NestedExample(a: Row, b: Row, c: Row, table: map<string, string>)
    requires ContentPresent(a, table) && !OpensGroup(a) && !ClosesGroup(a) && !Present(Field(a, "and/or"))
    requires ContentPresent(b, table) && OpensGroup(b) && !ClosesGroup(b) && Field(b, "and/or") == Some("And")
    requires ContentPresent(c, table) && !OpensGroup(c) && ClosesGroup(c) && Field(c, "and/or") == Some("Or")
    ensures ParseLoop([a, b, c], table, 0, "and", []) ==
            (Group("and", [RowLeaf(a, table), Group("or", [RowLeaf(b, table), RowLeaf(c, table)])]), 3)
  {
    var rows := [a, b, c];
    var la, lb, lc := RowLeaf(a, table), RowLeaf(b, table), RowLeaf(c, table);
    assert ToLower("And") == "and" && ToLower("Or") == "or";
    // Row c: its own leaf, then it closes the nested group with "or".
    LoopStep(rows, table, 2, "and", []);
    StepOther(rows, table, 2, []);
    assert [] + Own(c, table) == [lc];
    var sub := ParseLoop(rows, table, 2, "and", []);
    assert sub == (Group("or", [lc]), 3);
    // Row b: opens the nested group, its own leaf first.
    var inner := Group("or", [lb, lc]);
    assert Nested(b, table, sub.0) == inner by {
      assert [lb] + [lc] == [lb, lc];
    }
    StepOpens(rows, table, 1, [la]);
    assert [la] + [inner] == [la, inner];
    assert Step(rows, table, 1, [la]) == ([la, inner], 3);
    LoopStep(rows, table, 1, "and", [la]);
    assert ParseLoop(rows, table, 1, "and", [la]) == (Group("and", [la, inner]), 3);
    // Row a: a plain leaf.
    StepOther(rows, table, 0, []);
    assert [] + Own(a, table) == [la];
    LoopStep(rows, table, 0, "and", []);
  }

  // ---------------------------------------------------------------------
  // The connective of a group

  /** The next row of the group that row `idx` belongs to: the row after it,
      or the row after the nested group it opens. */
  function NextOwnRow(rows: seq<Row>, table: map<string, string>, idx: nat): (n: nat)
    requires idx < |rows|
    ensures idx < n <= |rows|
  {
    if OpensGroup(rows[idx]) then ParseLoop(rows, table, idx + 1, "and", []).1 else idx + 1
  }

  /** The rows the loop of the group starting at row `idx` reads itself, in
      order, up to and including a row that closes the group. The rows that
      nested groups read are not among them. */
  function OwnRows(rows: seq<Row>, table: map<string, string>, idx: nat): (ix: seq<nat>)
    requires idx <= |rows|
    ensures forall j :: 0 <= j < |ix| ==> idx <= ix[j] < |rows|
    decreases |rows| - idx
  {
    if idx == |rows| then []
    else if ClosesGroup(rows[idx]) then [idx]
    else [idx] + OwnRows(rows, table, NextOwnRow(rows, table, idx))
  }

  /** The connective after reading the rows at the indices `ix`, starting
      from `kind`. */
  function KindAfter(rows: seq<Row>, ix: seq<nat>, kind: string): string
    requires forall j :: 0 <= j < |ix| ==> ix[j] < |rows|
  {
    if ix == [] then kind else KindAfter(rows, ix[1..], NextKind(rows[ix[0]], kind))
  }

  /** The connective of a parsed group is decided by the group's own rows
      alone: the rows inside its nested groups do not change it. */
  lemma {:induction false} ParseKind(rows: seq<Row>, table: map<string, string>, idx: nat, kind: string, acc: seq<Req>)
    requires idx <= |rows|
    ensures ParseLoop(rows, table, idx, kind, acc).0.kind == KindAfter(rows, OwnRows(rows, table, idx), kind)
    decreases |rows| - idx
  {
    if idx < |rows| {
      LoopStep(rows, table, idx, kind, acc);
      var step := Step(rows, table, idx, acc);
      if OpensGroup(rows[idx]) {
        StepOpens(rows, table, idx, acc);
      } else {
        StepOther(rows, table, idx, acc);
      }
      assert step.1 == NextOwnRow(rows, table, idx);
      var ix := OwnRows(rows, table, idx);
      var kind' := NextKind(rows[idx], kind);
      if ClosesGroup(rows[idx]) {
        assert ix == [idx] && ix[1..] == [];
        assert KindAfter(rows, ix, kind) == kind';
      } else {
        ParseKind(rows, table, step.1, kind', step.0);
        assert ix[0] == idx && ix[1..] == OwnRows(rows, table, step.1);
      }
    }
  }

  /** With no `and/or` cell among the rows, the connective stays `kind`. */
  lemma {:induction false} KindAfterNone(rows: seq<Row>, ix: seq<nat>, kind: string)
    requires forall j :: 0 <= j < |ix| ==> ix[j] < |rows|
    requires forall j :: 0 <= j < |ix| ==> !Present(Field(rows[ix[j]], "and/or"))
    ensures KindAfter(rows, ix, kind) == kind
  {
    if ix != [] {
      assert forall l :: 0 <= l < |ix| - 1 ==> ix[1..][l] == ix[l + 1];
      KindAfterNone(rows, ix[1..], kind);
    }
  }

  /** The connective is the lower-cased `and/or` cell of row `ix[j]` when
      it is the last of the rows that has one. */
  lemma {:induction false} KindAfterLast(rows: seq<Row>, ix: seq<nat>, kind: string, j: nat)
    requires forall p :: 0 <= p < |ix| ==> ix[p] < |rows|
    requires j < |ix| && Present(Field(rows[ix[j]], "and/or"))
    requires forall l :: j < l < |ix| ==> !Present(Field(rows[ix[l]], "and/or"))
    ensures KindAfter(rows, ix, kind) == ToLower(Field(rows[ix[j]], "and/or").value)
  {
    var tail := ix[1..];
    var kind' := NextKind(rows[ix[0]], kind);
    assert forall l :: 0 <= l < |tail| ==> tail[l] == ix[l + 1];
    if j == 0 {
      KindAfterNone(rows, tail, kind');
    } else {
      KindAfterLast(rows, tail, kind', j - 1);
    }
  }

  /** The prerequisite tree's connective: that of the last of its own rows
      with an `and/or` cell, or "and". */
  lemma PrereqKind(allRows: seq<Row>, table: map<string, string>)
    ensures var r := ParseLoop(allRows, table, 0, "and", []);
            var ix := OwnRows(allRows, table, 0);
            && ((forall j :: 0 <= j < |ix| ==> !Present(Field(allRows[ix[j]], "and/or"))) ==> r.0.kind == "and")
            && (forall j :: 0 <= j < |ix| && Present(Field(allRows[ix[j]], "and/or")) &&
                            (forall l :: j < l < |ix| ==> !Present(Field(allRows[ix[l]], "and/or"))) ==>
                            r.0.kind == ToLower(Field(allRows[ix[j]], "and/or").value))
  {
    var ix := OwnRows(allRows, table, 0);
    ParseKind(allRows, table, 0, "and", []);
    if forall j :: 0 <= j < |ix| ==> !Present(Field(allRows[ix[j]], "and/or")) {
      KindAfterNone(allRows, ix, "and");
    }
    forall j | 0 <= j < |ix| && Present(Field(allRows[ix[j]], "and/or")) &&
               (forall l :: j < l < |ix| ==> !Present(Field(allRows[ix[l]], "and/or")))
      ensures KindAfter(allRows, ix, "and") == ToLower(Field(allRows[ix[j]], "and/or").value)
    {
      KindAfterLast(allRows, ix, "and", j);
    }
  }

  // ---------------------------------------------------------------------
  // Corequisites

  /** The row's course, when its subject resolves. */
  predicate Resolves(row: Row, table: map<string, string>) {
    RowSubject(row, table).Some?
  }

  function CoreqOf(row: Row, table: map<string, string>): Req
    requires Resolves(row, table)
  {
    Course(RowSubject(row, table).value, Field(row, "coursenumber"))
  }

  /** The corequisite courses: one per row whose subject resolves, in row
      order; rows whose subject does not resolve are dropped with a warning. */
  function CoreqValues(rows: seq<Row>, table: map<string, string>): (vs: seq<Req>)
    ensures |vs| <= |rows|
  {
    if rows == [] then []
    else
      var n := |rows| - 1;
      CoreqValues(rows[..n], table) + (if Resolves(rows[n], table) then [CoreqOf(rows[n], table)] else [])
  }

  /** `serializeCoreqs` on the decoded rows of the corequisite table. */
  method SerializeCoreqs(rows: seq<Row>, table: map<string, string>) returns (r: Req)
    ensures r == Group("and", CoreqValues(rows, table))
  {
    var coreqs: seq<Req> := [];
    for i := 0 to |rows|
      invariant coreqs == CoreqValues(rows[..i], table)
    {
      var row := rows[i];
      var subjectAbbreviation := SubjectLookup(PropertyKey(Field(row, "subject")), table);
      assert rows[..i + 1][..i] == rows[..i];
      if subjectAbbreviation.Some? {
        coreqs := coreqs + [Course(subjectAbbreviation.value, Field(row, "coursenumber"))];
      }
    }
    assert rows[..|rows|] == rows;
    return Group("and", coreqs);
  }

  /** Every corequisite is a course of a resolving row, with a non-empty code
      from the table, and every resolving row gives one. */
  lemma {:induction false} CoreqValuesMembers(rows: seq<Row>, table: map<string, string>)
    ensures forall v :: v in CoreqValues(rows, table) <==>
              exists i :: 0 <= i < |rows| && Resolves(rows[i], table) && v == CoreqOf(rows[i], table)
    ensures forall v :: v in CoreqValues(rows, table) ==>
              v.Course? && v.subject in table.Values && v.subject != ""
  {
    if rows != [] {
      var n := |rows| - 1;
      CoreqValuesMembers(rows[..n], table);
      forall v | v in CoreqValues(rows, table)
        ensures exists i :: 0 <= i < |rows| && Resolves(rows[i], table) && v == CoreqOf(rows[i], table)
      {
        if v in CoreqValues(rows[..n], table) {
          var i :| 0 <= i < n && Resolves(rows[..n][i], table) && v == CoreqOf(rows[..n][i], table);
          assert rows[..n][i] == rows[i];
        }
      }
      forall i | 0 <= i < |rows| && Resolves(rows[i], table)
        ensures CoreqOf(rows[i], table) in CoreqValues(rows, table)
      {
        if i < n {
          assert rows[..n][i] == rows[i];
        }
      }
    }
  }

  /** Corequisites form one flat group: no value is itself a group. */
  lemma CoreqsAreFlat(rows: seq<Row>, table: map<string, string>)
    ensures forall v :: v in CoreqValues(rows, table) ==> !v.Group?
  {
    CoreqValuesMembers(rows, table);
  }
}
