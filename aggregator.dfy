/** `collapseSameCourses` of bannerv9Parser.js: the sections of a term are
    grouped by their class hash; one class record is copied per distinct
    hash, from the first section with it, and every section's CRN is pushed
    onto the record of its hash. The hash function and the fetches of
    `copySectionAsClass` are parameters. */
module Aggregator {
  import opened Js
  import opened Prereqs
  import opened SectionDetails

  // ---------------------------------------------------------------------
  // Hashes and their first sections

  /** The indices of the first section of each distinct hash, in order. */
  function FirstSeen(hs: seq<string>): (fs: seq<nat>)
    ensures forall c :: 0 <= c < |fs| ==> fs[c] < |hs|
    ensures forall c, d :: 0 <= c < d < |fs| ==> fs[c] < fs[d]
  {
    if hs == [] then []
    else
      var n := |hs| - 1;
      FirstSeen(hs[..n]) + (if hs[n] in hs[..n] then [] else [n])
  }

  /** Section i is in the list exactly when no earlier section has its hash. */
  lemma {:induction false} FirstSeenExactly(hs: seq<string>, i: nat)
    requires i < |hs|
    ensures i in FirstSeen(hs) <==> hs[i] !in hs[..i]
  {
    var n := |hs| - 1;
    if i < n {
      assert hs[..n][..i] == hs[..i];
      FirstSeenExactly(hs[..n], i);
    } else {
      assert hs[..n] == hs[..i];
      assert n !in FirstSeen(hs[..n]);
    }
  }

  /** No two listed sections share a hash. */
  lemma FirstSeenDistinct(hs: seq<string>, c: nat, d: nat)
    requires c < d < |FirstSeen(hs)|
    ensures hs[FirstSeen(hs)[c]] != hs[FirstSeen(hs)[d]]
  {
    var fs := FirstSeen(hs);
    FirstSeenExactly(hs, fs[d]);
    assert hs[..fs[d]][fs[c]] == hs[fs[c]];
  }

  /** Every hash is that of a listed section. */
  lemma FirstSeenCovers(hs: seq<string>, i: nat) returns (c: nat)
    requires i < |hs|
    ensures c < |FirstSeen(hs)| && hs[FirstSeen(hs)[c]] == hs[i]
  {
    var fs := FirstSeen(hs);
    var k := FirstWith(hs, hs[i]);
    FirstSeenExactly(hs, k);
    c :| 0 <= c < |fs| && fs[c] == k;
  }

  /** One class record per distinct hash: no two listed sections share a
      hash, and every hash has its first section in the list. */
  lemma FirstSeenOnePerHash(hs: seq<string>)
    ensures forall c, d :: 0 <= c < d < |FirstSeen(hs)| ==> hs[FirstSeen(hs)[c]] != hs[FirstSeen(hs)[d]]
    ensures forall i :: 0 <= i < |hs| ==> hs[i] in Picks(hs, FirstSeen(hs))
  {
    forall c, d | 0 <= c < d < |FirstSeen(hs)|
      ensures hs[FirstSeen(hs)[c]] != hs[FirstSeen(hs)[d]]
    {
      FirstSeenDistinct(hs, c, d);
    }
    forall i | 0 <= i < |hs|
      ensures hs[i] in Picks(hs, FirstSeen(hs))
    {
      var c := FirstSeenCovers(hs, i);
      assert Picks(hs, FirstSeen(hs))[c] == hs[i];
    }
  }

  /** The first index with hash h. */
  lemma FirstWith(hs: seq<string>, h: string) returns (k: nat)
    requires h in hs
    ensures k < |hs| && hs[k] == h && h !in hs[..k]
  {
    k := 0;
    while hs[k] != h
      invariant k < |hs| && h !in hs[..k] && h in hs[k..]
      decreases |hs| - k
    {
      assert hs[k..] == [hs[k]] + hs[k + 1..];
      k := k + 1;
    }
  }

  /** The indices of the sections with hash h, in order. */
  function IndicesWith(hs: seq<string>, h: string): (ix: seq<nat>)
    ensures forall i :: i in ix <==> 0 <= i < |hs| && hs[i] == h
    ensures forall j :: 0 <= j < |ix| ==> ix[j] < |hs|
  {
    if hs == [] then []
    else
      var n := |hs| - 1;
      IndicesWith(hs[..n], h) + (if hs[n] == h then [n] else [])
  }

  /** The CRNs of the sections with hash h, in section order. */
  function CrnsWith(hs: seq<string>, crns: seq<Json>, h: string): seq<Json>
    requires |crns| == |hs|
  {
    if hs == [] then []
    else
      var n := |hs| - 1;
      CrnsWith(hs[..n], crns[..n], h) + (if hs[n] == h then [crns[n]] else [])
  }

  /** The CRN list of a hash is the CRNs at its indices. */
  lemma {:induction false} CrnsAtIndices(hs: seq<string>, crns: seq<Json>, h: string)
    requires |crns| == |hs|
    ensures var ix := IndicesWith(hs, h);
            CrnsWith(hs, crns, h) == seq(|ix|, j requires 0 <= j < |ix| => crns[ix[j]])
  {
    if hs != [] {
      var n := |hs| - 1;
      CrnsAtIndices(hs[..n], crns[..n], h);
    }
  }

  /** Each section lands in exactly one class: the one whose first section
      has its hash. */
  lemma ClassOfSection(hs: seq<string>, i: nat) returns (c: nat)
    requires i < |hs|
    ensures var fs := FirstSeen(hs);
            && c < |fs| && hs[fs[c]] == hs[i]
            && forall d :: 0 <= d < |fs| && d != c ==> hs[fs[d]] != hs[i]
  {
    var fs := FirstSeen(hs);
    c := FirstSeenCovers(hs, i);
    forall d | 0 <= d < |fs| && d != c
      ensures hs[fs[d]] != hs[i]
    {
      if d < c {
        FirstSeenDistinct(hs, d, c);
      } else {
        FirstSeenDistinct(hs, c, d);
      }
    }
  }

  // ---------------------------------------------------------------------
  // The collapse as a function of the sections

  function HashesOf(props: seq<map<string, Json>>, hashOf: map<string, Json> -> string): (hs: seq<string>)
    ensures |hs| == |props| && forall i :: 0 <= i < |props| ==> hs[i] == hashOf(props[i])
  {
    seq(|props|, i requires 0 <= i < |props| => hashOf(props[i]))
  }

  function CrnsOf(props: seq<map<string, Json>>): (crns: seq<Json>)
    ensures |crns| == |props| && forall i :: 0 <= i < |props| ==> crns[i] == Get(props[i], "crn")
  {
    seq(|props|, i requires 0 <= i < |props| => Get(props[i], "crn"))
  }

  /** The sections after the first loop: each holds its hash under "hash". */
  function Tagged(props: seq<map<string, Json>>, hashOf: map<string, Json> -> string): (ts: seq<map<string, Json>>)
    ensures |ts| == |props| && forall i :: 0 <= i < |props| ==> ts[i] == props[i]["hash" := Str(hashOf(props[i]))]
  {
    seq(|props|, i requires 0 <= i < |props| => props[i]["hash" := Str(hashOf(props[i]))])
  }

  /** `copySectionAsClass` of one section, with the fetched description and
      requisites. */
  function CopyOf(details: map<string, Json>, fetch: map<string, Json> -> (Json, Req, Req)): (c: ClassRecord)
    ensures c.crns == []
  {
    var fetched := fetch(details);
    CopySectionAsClass(details, fetched.0, fetched.1, fetched.2)
  }

  /** The hashes at the given indices. */
  function Picks(hs: seq<string>, ix: seq<nat>): (r: seq<string>)
    requires forall c :: 0 <= c < |ix| ==> ix[c] < |hs|
    ensures |r| == |ix| && forall c :: 0 <= c < |ix| ==> r[c] == hs[ix[c]]
  {
    seq(|ix|, c requires 0 <= c < |ix| => hs[ix[c]])
  }

  /** The copies of the sections at the given indices. */
  function Copies(ts: seq<map<string, Json>>, ix: seq<nat>, fetch: map<string, Json> -> (Json, Req, Req)): (r: seq<ClassRecord>)
    requires forall c :: 0 <= c < |ix| ==> ix[c] < |ts|
    ensures |r| == |ix| && forall c :: 0 <= c < |ix| ==> r[c] == CopyOf(ts[ix[c]], fetch)
  {
    seq(|ix|, c requires 0 <= c < |ix| => CopyOf(ts[ix[c]], fetch))
  }

  /** A class record with more CRNs pushed onto its list. */
  function WithCrns(r: ClassRecord, more: seq<Json>): (w: ClassRecord)
    ensures w.crns == r.crns + more && w.fields == r.fields
  {
    ClassRecord(r.crns + more, r.fields)
  }

  lemma WithCrnsTwice(r: ClassRecord, a: seq<Json>, b: seq<Json>)
    ensures WithCrns(WithCrns(r, a), b) == WithCrns(r, a + b)
  {
    assert r.crns + a + b == r.crns + (a + b);
  }

  /** Each record with the CRNs of the sections with its hash. */
  function Gathered(descs: seq<ClassRecord>, keys: seq<string>, hs: seq<string>, crns: seq<Json>): (r: seq<ClassRecord>)
    requires |descs| == |keys| && |crns| == |hs|
    ensures |r| == |keys| && forall c :: 0 <= c < |keys| ==> r[c] == WithCrns(descs[c], CrnsWith(hs, crns, keys[c]))
  {
    seq(|keys|, c requires 0 <= c < |keys| => WithCrns(descs[c], CrnsWith(hs, crns, keys[c])))
  }

  /** The class records `collapseSameCourses` returns for sections with
      these properties: for each distinct hash, in first-seen order, the copy
      of its first section (with the hash set) holding the CRNs of all
      sections with that hash. */
  function Collapsed(props: seq<map<string, Json>>, hashOf: map<string, Json> -> string,
                     fetch: map<string, Json> -> (Json, Req, Req)): (cs: seq<ClassRecord>)
    ensures |cs| == |FirstSeen(HashesOf(props, hashOf))|
  {
    var hs := HashesOf(props, hashOf);
    var fs := FirstSeen(hs);
    Gathered(Copies(Tagged(props, hashOf), fs, fetch), Picks(hs, fs), hs, CrnsOf(props))
  }

  /** Class c is the copy of the first section with its hash, and its CRNs
      are those of all sections that share that hash, in section order. */
  lemma CollapsedClass(props: seq<map<string, Json>>, hashOf: map<string, Json> -> string,
                       fetch: map<string, Json> -> (Json, Req, Req), c: nat)
    requires c < |Collapsed(props, hashOf, fetch)|
    ensures var hs := HashesOf(props, hashOf);
            var i := FirstSeen(hs)[c];
            var ix := IndicesWith(hs, hs[i]);
            && Collapsed(props, hashOf, fetch)[c].fields == CopyOf(props[i]["hash" := Str(hs[i])], fetch).fields
            && Collapsed(props, hashOf, fetch)[c].crns == seq(|ix|, j requires 0 <= j < |ix| => Get(props[ix[j]], "crn"))
  {
    var hs := HashesOf(props, hashOf);
    CrnsAtIndices(hs, CrnsOf(props), hs[FirstSeen(hs)[c]]);
  }

  // ---------------------------------------------------------------------
  // The method

  /** The sections are distinct objects. */
  predicate Distinct(sections: seq<JsObject>) {
    forall i, j :: 0 <= i < j < |sections| ==> sections[i] != sections[j]
  }

  function PropsOf(sections: seq<JsObject>): (ps: seq<map<string, Json>>)
    reads sections
    ensures |ps| == |sections| && forall i :: 0 <= i < |sections| ==> ps[i] == sections[i].props
  {
    seq(|sections|, i requires 0 <= i < |sections| reads sections => sections[i].props)
  }

  /** `collapseSameCourses`. `hashOf` stands for `Keys.getClassHash`, `fetch`
      for the description and requisite requests of `copySectionAsClass`.
      Besides the classes it returns the indices of the sections it copied,
      in the order of the copies. */
  method CollapseSameCourses(sections: seq<JsObject>, hashOf: map<string, Json> -> string,
                             fetch: map<string, Json> -> (Json, Req, Req))
    returns (classes: seq<ClassRecord>, copied: seq<nat>)
    requires Distinct(sections)
    modifies set s | s in sections
    ensures PropsOf(sections) == Tagged(old(PropsOf(sections)), hashOf)
    ensures copied == FirstSeen(HashesOf(old(PropsOf(sections)), hashOf))
    ensures classes == Collapsed(old(PropsOf(sections)), hashOf, fetch)
  {
    ghost var before := PropsOf(sections);
    ghost var hs := HashesOf(before, hashOf);
    ghost var crns := CrnsOf(before);
    var promisedHashes, promisedDescriptions;
    promisedHashes, promisedDescriptions, copied := CopyOncePerHash(sections, hashOf, fetch);
    FirstHashesDistinct(hs);
    var table := IndexByHash(promisedHashes, promisedDescriptions);
    TaggedHashes(before, hashOf);
    table := PushCrns(sections, table, hs, crns);
    // `Object.values(table)`, in insertion order
    classes := seq(|promisedHashes|, c requires 0 <= c < |promisedHashes| => table[promisedHashes[c]]);
    ValuesGathered(table, promisedDescriptions, promisedHashes, hs, crns, classes);
  }

  /** The hashes of the copied sections are distinct. */
  lemma FirstHashesDistinct(hs: seq<string>)
    ensures var ph := Picks(hs, FirstSeen(hs));
            forall c, d :: 0 <= c < d < |ph| ==> ph[c] != ph[d]
  {
    forall c, d | 0 <= c < d < |FirstSeen(hs)|
      ensures hs[FirstSeen(hs)[c]] != hs[FirstSeen(hs)[d]]
    {
      FirstSeenDistinct(hs, c, d);
    }
  }

  /** After the first loop every section holds its hash, keeps its CRN, and
      its hash is among the copied ones. */
  lemma TaggedHashes(props: seq<map<string, Json>>, hashOf: map<string, Json> -> string)
    ensures var ts := Tagged(props, hashOf);
            var hs := HashesOf(props, hashOf);
            var ph := Picks(hs, FirstSeen(hs));
            forall i :: 0 <= i < |ts| ==>
              "hash" in ts[i] && ts[i]["hash"] == Str(hs[i]) && Get(ts[i], "crn") == Get(props[i], "crn") && hs[i] in ph
  {
    var hs := HashesOf(props, hashOf);
    var ph := Picks(hs, FirstSeen(hs));
    forall i | 0 <= i < |props|
      ensures hs[i] in ph
    {
      var c := FirstSeenCovers(hs, i);
      assert ph[c] == hs[i];
    }
  }

  /** Reading the records in the order of their hashes gives each hash's
      record with its CRNs. */
  lemma ValuesGathered(table: map<string, ClassRecord>, descs: seq<ClassRecord>, keys: seq<string>,
                       hs: seq<string>, crns: seq<Json>, values: seq<ClassRecord>)
    requires |descs| == |keys| == |values| && |crns| == |hs|
    requires forall c :: 0 <= c < |keys| ==> keys[c] in table && values[c] == table[keys[c]]
    requires forall c :: 0 <= c < |keys| ==> table[keys[c]] == WithCrns(descs[c], CrnsWith(hs, crns, keys[c]))
    ensures values == Gathered(descs, keys, hs, crns)
  {
  }

  /** The first loop: each section gets its hash, and the first section of
      each hash is copied as a class. */
  method CopyOncePerHash(sections: seq<JsObject>, hashOf: map<string, Json> -> string,
                         fetch: map<string, Json> -> (Json, Req, Req))
    returns (promisedHashes: seq<string>, promisedDescriptions: seq<ClassRecord>, copied: seq<nat>)
    requires Distinct(sections)
    modifies set s | s in sections
    ensures PropsOf(sections) == Tagged(old(PropsOf(sections)), hashOf)
    ensures copied == FirstSeen(HashesOf(old(PropsOf(sections)), hashOf))
    ensures promisedHashes == Picks(HashesOf(old(PropsOf(sections)), hashOf), copied)
    ensures promisedDescriptions == Copies(Tagged(old(PropsOf(sections)), hashOf), copied, fetch)
  {
    ghost var before := PropsOf(sections);
    ghost var hs := HashesOf(before, hashOf);
    ghost var tagged := Tagged(before, hashOf);
    var seen: set<string> := {};
    promisedHashes, promisedDescriptions, copied := [], [], [];
    for i := 0 to |sections|
      invariant forall j :: 0 <= j < i ==> sections[j].props == tagged[j]
      invariant forall j :: i <= j < |sections| ==> sections[j].props == before[j]
      invariant CopiedSoFar(hs, tagged, fetch, i, seen, copied, promisedHashes, promisedDescriptions)
    {
      var hash := TagSection(sections, i, hashOf);
      CopyStep(hs, tagged, fetch, i, seen, copied, promisedHashes, promisedDescriptions);
      if hash !in seen {
        seen := seen + {hash};
        promisedHashes := promisedHashes + [hash];
        promisedDescriptions := promisedDescriptions + [CopyOf(sections[i].props, fetch)];
        copied := copied + [i];
      }
    }
    assert hs[..|sections|] == hs;
  }

  /** The first lines of the first loop's body: the section at index i is
      given its hash, and no other section changes. */
  method TagSection(sections: seq<JsObject>, i: nat, hashOf: map<string, Json> -> string) returns (hash: string)
    requires Distinct(sections) && i < |sections|
    modifies sections[i]
    ensures hash == hashOf(old(sections[i].props))
    ensures sections[i].props == old(sections[i].props)["hash" := Str(hash)]
    ensures forall j :: 0 <= j < |sections| && j != i ==> sections[j].props == old(sections[j].props)
  {
    var details := sections[i];
    hash := hashOf(details.props);
    details.props := details.props["hash" := Str(hash)];
    forall j | 0 <= j < |sections| && j != i
      ensures sections[j].props == old(sections[j].props)
    {
      assert sections[j] != sections[i];
    }
  }

  /** What the first loop has built after the sections before index i: the
      indices first seen, the set of hashes seen, and the hashes and copies
      of the sections at those indices. */
  ghost predicate CopiedSoFar(hs: seq<string>, ts: seq<map<string, Json>>, fetch: map<string, Json> -> (Json, Req, Req),
                              i: nat, seen: set<string>, copied: seq<nat>, ph: seq<string>, pd: seq<ClassRecord>)
  {
    && i <= |hs| == |ts|
    && copied == FirstSeen(hs[..i])
    && (forall h :: h in seen <==> h in hs[..i])
    && (forall c :: 0 <= c < |copied| ==> copied[c] < i)
    && ph == Picks(hs, copied)
    && pd == Copies(ts, copied, fetch)
  }

  /** One turn of the first loop keeps its bookkeeping: a new hash extends
      the index, hash and copy lists, a hash seen before changes nothing. */
  lemma CopyStep(hs: seq<string>, ts: seq<map<string, Json>>, fetch: map<string, Json> -> (Json, Req, Req),
                 i: nat, seen: set<string>, copied: seq<nat>, ph: seq<string>, pd: seq<ClassRecord>)
    requires i < |hs| && CopiedSoFar(hs, ts, fetch, i, seen, copied, ph, pd)
    ensures hs[i] in seen ==> CopiedSoFar(hs, ts, fetch, i + 1, seen, copied, ph, pd)
    ensures hs[i] !in seen ==>
              CopiedSoFar(hs, ts, fetch, i + 1, seen + {hs[i]}, copied + [i], ph + [hs[i]], pd + [CopyOf(ts[i], fetch)])
  {
    FirstSeenSnoc(hs, i);
    assert hs[..i + 1] == hs[..i] + [hs[i]];
    PicksSnoc(hs, ts, copied, i, fetch);
  }

  /** Copying one section more adds its hash and its copy. */
  lemma PicksSnoc(hs: seq<string>, ts: seq<map<string, Json>>, ix: seq<nat>, i: nat, fetch: map<string, Json> -> (Json, Req, Req))
    requires i < |hs| == |ts| && forall c :: 0 <= c < |ix| ==> ix[c] < |hs|
    ensures Picks(hs, ix + [i]) == Picks(hs, ix) + [hs[i]]
    ensures Copies(ts, ix + [i], fetch) == Copies(ts, ix, fetch) + [CopyOf(ts[i], fetch)]
  {
  }

  /** One section more adds its index when its hash is new. */
  lemma FirstSeenSnoc(hs: seq<string>, i: nat)
    requires i < |hs|
    ensures FirstSeen(hs[..i + 1]) == FirstSeen(hs[..i]) + (if hs[i] in hs[..i] then [] else [i])
  {
    assert hs[..i + 1][..i] == hs[..i];
  }

  /** The second loop: the table from hash to class record. */
  method IndexByHash(promisedHashes: seq<string>, promisedDescriptions: seq<ClassRecord>)
    returns (table: map<string, ClassRecord>)
    requires |promisedHashes| == |promisedDescriptions|
    requires forall c, d :: 0 <= c < d < |promisedHashes| ==> promisedHashes[c] != promisedHashes[d]
    ensures forall k :: k in table <==> k in promisedHashes
    ensures forall c :: 0 <= c < |promisedHashes| ==> table[promisedHashes[c]] == promisedDescriptions[c]
  {
    table := map[];
    for c := 0 to |promisedHashes|
      invariant forall k :: k in table <==> k in promisedHashes[..c]
      invariant forall d :: 0 <= d < c ==> table[promisedHashes[d]] == promisedDescriptions[d]
    {
      assert promisedHashes[..c + 1] == promisedHashes[..c] + [promisedHashes[c]];
      table := table[promisedHashes[c] := promisedDescriptions[c]];
    }
    assert promisedHashes[..|promisedHashes|] == promisedHashes;
  }

  /** One section more pushes its CRN onto its own hash only. */
  lemma CrnsWithSnoc(hs: seq<string>, crns: seq<Json>, i: nat, h: string)
    requires |hs| == |crns| && i < |hs|
    ensures CrnsWith(hs[..i + 1], crns[..i + 1], h) == CrnsWith(hs[..i], crns[..i], h) + (if hs[i] == h then [crns[i]] else [])
  {
    assert hs[..i + 1][..i] == hs[..i] && crns[..i + 1][..i] == crns[..i];
  }

  /** The third loop: every section's CRN pushed onto the record of its
      hash. `hs` and `crns` are the hashes and CRNs the sections hold. */
  method PushCrns(sections: seq<JsObject>, table: map<string, ClassRecord>, ghost hs: seq<string>, ghost crns: seq<Json>)
    returns (pushed: map<string, ClassRecord>)
    requires |hs| == |crns| == |sections|
    requires forall i :: 0 <= i < |sections| ==>
               "hash" in sections[i].props && sections[i].props["hash"] == Str(hs[i]) &&
               Get(sections[i].props, "crn") == crns[i] && hs[i] in table
    ensures pushed.Keys == table.Keys
    ensures forall k :: k in table ==> pushed[k] == WithCrns(table[k], CrnsWith(hs, crns, k))
  {
    pushed := table;
    for i := 0 to |sections|
      invariant pushed.Keys == table.Keys
      invariant forall k :: k in table ==> pushed[k] == WithCrns(table[k], CrnsWith(hs[..i], crns[..i], k))
    {
      var details := sections[i];
      var hash := details.props["hash"].s;
      assert hash == hs[i] && Get(details.props, "crn") == crns[i];
      ghost var prev := pushed;
      pushed := pushed[hash := WithCrns(pushed[hash], [Get(details.props, "crn")])];
      forall k | k in table
        ensures pushed[k] == WithCrns(table[k], CrnsWith(hs[..i + 1], crns[..i + 1], k))
      {
        var more := if k == hash then [crns[i]] else [];
        CrnsWithSnoc(hs, crns, i, k);
        WithCrnsTwice(table[k], CrnsWith(hs[..i], crns[..i], k), more);
        if k != hash {
          assert pushed[k] == prev[k] == WithCrns(prev[k], more);
        }
      }
    }
    assert hs[..|sections|] == hs && crns[..|sections|] == crns;
  }
}
