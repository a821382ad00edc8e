/** The keyed table decoder of backend/scrapers/classes/parsersxe/util.js:
    a table's first row gives the column keys, every later row becomes a map
    from those keys to its cell texts. The DOM is abstract: a table element is
    its name and its rows, a row is its child nodes. */
module TableDecoder {
  import opened Wrappers
  import opened Strings

  /** One child node of a table row. */
  datatype DomNode = DomNode(nodeType: string, name: string, text: string)

  /** A DOM element selected as a table, with the child nodes of each `tr`
      inside it, header rows and body rows alike, in document order. */
  datatype Element = Element(name: string, rows: seq<seq<DomNode>>)

  /** A decoded row: a key holds `None` when the row had no cell for it
      (JavaScript `undefined`). */
  type Row = map<string, Option<string>>

  /** `validCell`: only `th` and `td` tag nodes are cells. */
  predicate ValidCell(el: DomNode) {
    el.nodeType == "tag" && (el.name == "th" || el.name == "td")
  }

  /** `children.filter(validCell).map(text)`: the texts of a row's cells. */
  function CellTexts(nodes: seq<DomNode>): (texts: seq<string>)
    ensures |texts| <= |nodes|
  {
    if nodes == [] then []
    else
      var last := nodes[|nodes| - 1];
      CellTexts(nodes[..|nodes| - 1]) + (if ValidCell(last) then [last.text] else [])
  }

  lemma {:induction false} CellTextsAppend(a: seq<DomNode>, b: seq<DomNode>)
    ensures CellTexts(a + b) == CellTexts(a) + CellTexts(b)
    decreases |b|
  {
    if b != [] {
      assert (a + b)[..|a + b| - 1] == a + b[..|b| - 1];
      CellTextsAppend(a, b[..|b| - 1]);
    } else {
      assert a + b == a;
    }
  }

  /** A node that is not a `th`/`td` tag contributes nothing, wherever it
      stands in the row; a cell contributes exactly its text. */
  lemma CellTextsIgnoresNonCells(a: seq<DomNode>, x: DomNode, b: seq<DomNode>)
    ensures CellTexts(a + [x] + b) == CellTexts(a) + (if ValidCell(x) then [x.text] else []) + CellTexts(b)
  {
    CellTextsAppend(a + [x], b);
    CellTextsAppend(a, [x]);
    assert [x][..0] == [];
  }

  /** The key a header cell's text gives: trimmed, lower-cased, and with all
      white space removed. */
  function HeaderKey(text: string): string {
    StripWhitespace(ToLower(Trim(text)))
  }

  /** `value` followed by the decimal text of `n`, as `value + n` gives it. */
  function Suffixed(value: string, n: nat): string {
    value + NatToString(n)
  }

  lemma SuffixedInjective(value: string, a: nat, b: nat)
    requires Suffixed(value, a) == Suffixed(value, b)
    ensures a == b
  {
    assert NatToString(a) == Suffixed(value, a)[|value|..];
    assert NatToString(b) == Suffixed(value, b)[|value|..];
    NatToStringInjective(a, b);
  }

  /** `s` with every occurrence of `x` removed. */
  function Without(s: seq<string>, x: string): (r: seq<string>)
    ensures |r| <= |s| && (x in s ==> |r| < |s|)
    ensures forall y :: y in s && y != x ==> y in r
  {
    if s == [] then [] else (if s[0] == x then [] else [s[0]]) + Without(s[1..], x)
  }

  /** When the suffixes 1 .. n-1 are all taken, there are at most |taken| of
      them: the search for a free suffix cannot go past |taken| + 1. */
  lemma {:induction false} TakenBound(taken: seq<string>, value: string, n: nat)
    requires forall j :: 1 <= j < n ==> Suffixed(value, j) in taken
    ensures n <= |taken| + 1
    decreases n
  {
    if n >= 2 {
      var last := Suffixed(value, n - 1);
      var rest := Without(taken, last);
      forall j | 1 <= j < n - 1 ensures Suffixed(value, j) in rest {
        if Suffixed(value, j) == last { SuffixedInjective(value, j, n - 1); }
      }
      TakenBound(rest, value, n - 1);
    }
  }

  /** The smallest suffix from `n` on that makes `value` avoid `taken`. */
  function FirstFreeSuffix(taken: seq<string>, value: string, n: nat): (k: nat)
    requires 1 <= n
    requires forall j :: 1 <= j < n ==> Suffixed(value, j) in taken
    ensures n <= k <= |taken| + 1
    ensures Suffixed(value, k) !in taken
    ensures forall j :: 1 <= j < k ==> Suffixed(value, j) in taken
    decreases |taken| + 1 - n
  {
    TakenBound(taken, value, n);
    if Suffixed(value, n) in taken then FirstFreeSuffix(taken, value, n + 1) else n
  }

  /** What `uniquify(set, value)` returns: never a member of `set`, and
      `value` itself when `value` is not one. */
  function Uniquified(taken: seq<string>, value: string): (r: string)
    ensures r !in taken
    ensures value !in taken ==> r == value
  {
    if value in taken then Suffixed(value, FirstFreeSuffix(taken, value, 1)) else value
  }

  /** When `value` is taken, the result is `value` followed by the smallest
      n >= 1 that is free, and n is at most |taken| + 1. */
  lemma UniquifiedSmallestSuffix(taken: seq<string>, value: string)
    requires value in taken
    ensures exists n :: 1 <= n <= |taken| + 1 && Uniquified(taken, value) == Suffixed(value, n)
                        && forall j :: 1 <= j < n ==> Suffixed(value, j) in taken
  {
    var n := FirstFreeSuffix(taken, value, 1);
    assert Uniquified(taken, value) == Suffixed(value, n);
  }

  /** `uniquify`: `value` itself when it is free, otherwise `value` followed by
      the smallest positive number that makes it free. */
  method Uniquify(taken: seq<string>, value: string) returns (r: string)
    ensures r == Uniquified(taken, value)
  {
    if value in taken {
      var append := 1;
      while Suffixed(value, append) in taken
        invariant 1 <= append <= |taken| + 1
        invariant forall j :: 1 <= j < append ==> Suffixed(value, j) in taken
        decreases |taken| + 1 - append
      {
        TakenBound(taken, value, append + 1);
        append := append + 1;
      }
      return value + NatToString(append);
    }
    return value;
  }

  /** The keys uniquified one after another, each against those before it.
      No two results are equal. */
  function UniqueKeys(keys: seq<string>): (u: seq<string>)
    ensures |u| == |keys|
  {
    if keys == [] then []
    else
      var prev := UniqueKeys(keys[..|keys| - 1]);
      prev + [Uniquified(prev, keys[|keys| - 1])]
  }

  lemma {:induction false} UniqueKeysDistinct(keys: seq<string>)
    ensures forall i, j :: 0 <= i < j < |keys| ==> UniqueKeys(keys)[i] != UniqueKeys(keys)[j]
  {
    if keys != [] {
      var n := |keys| - 1;
      var prev := UniqueKeys(keys[..n]);
      UniqueKeysDistinct(keys[..n]);
      var u := UniqueKeys(keys);
      assert u == prev + [Uniquified(prev, keys[n])];
      forall i, j | 0 <= i < j < |u|
        ensures u[i] != u[j]
      {
        if j == n {
          assert u[i] == prev[i] && u[i] in prev;
          assert u[j] == Uniquified(prev, keys[n]) && u[j] !in prev;
        } else {
          assert u[i] == prev[i] && u[j] == prev[j];
          assert prev[i] != prev[j];
        }
      }
    }
  }

  lemma UniqueKeysSnoc(keys: seq<string>, k: nat)
    requires k < |keys|
    ensures UniqueKeys(keys[..k + 1]) == UniqueKeys(keys[..k]) + [Uniquified(UniqueKeys(keys[..k]), keys[k])]
  {
    assert keys[..k + 1][..k] == keys[..k];
  }

  /** Result i is key i uniquified against results 0 .. i-1. */
  lemma {:induction false} UniqueKeyAt(keys: seq<string>, i: nat)
    requires i < |keys|
    ensures UniqueKeys(keys)[i] == Uniquified(UniqueKeys(keys)[..i], keys[i])
  {
    var n := |keys| - 1;
    var prev := UniqueKeys(keys[..n]);
    assert UniqueKeys(keys)[..n] == prev;
    if i < n {
      UniqueKeyAt(keys[..n], i);
      assert UniqueKeys(keys)[..i] == prev[..i];
    }
  }

  /** A key already taken once gets the suffix 1. */
  lemma UniquifyTakenOnce(v: string)
    ensures Uniquified([v], v) == Suffixed(v, 1)
  {
    assert |Suffixed(v, 1)| > |v|;
    assert FirstFreeSuffix([v], v, 1) == 1;
  }

  /** The same key twice becomes the key and the key followed by '1'. */
  lemma RepeatedKey(v: string)
    ensures UniqueKeys([v, v]) == [v, Suffixed(v, 1)]
  {
    assert [v, v][..1] == [v];
    assert [v][..0] == [];
    assert UniqueKeys([v]) == [v];
    UniquifyTakenOnce(v);
  }

  /** The header keys of a row's header texts: each text's key, uniquified
      against the keys before it. No two header keys are equal. */
  function HeaderKeys(texts: seq<string>): (keys: seq<string>)
    ensures |keys| == |texts|
  {
    UniqueKeys(seq(|texts|, i requires 0 <= i < |texts| => HeaderKey(texts[i])))
  }

  lemma HeaderKeysDistinct(texts: seq<string>)
    ensures var keys := HeaderKeys(texts);
            forall i, j :: 0 <= i < j < |keys| ==> keys[i] != keys[j]
  {
    var ks := seq(|texts|, i requires 0 <= i < |texts| => HeaderKey(texts[i]));
    assert HeaderKeys(texts) == UniqueKeys(ks);
    UniqueKeysDistinct(ks);
  }

  /** Two blank header cells get the keys '' and '1' (the prerequisite table
      relies on this for its two parenthesis columns). */
  lemma TwoBlankHeaders(a: string, b: string)
    requires HeaderKey(a) == "" && HeaderKey(b) == ""
    ensures HeaderKeys([a, b]) == ["", "1"]
  {
    var v := HeaderKey(a);
    assert seq(2, i requires 0 <= i < 2 => HeaderKey([a, b][i])) == [v, v];
    RepeatedKey(v);
    assert Suffixed(v, 1) == "1" by { assert NatToString(1) == "1"; }
  }

  /** `_.zipObject(keys, values)`: key i gets value i, or `undefined` when
      there is no value i; values beyond the keys are dropped. */
  function ZipObject(keys: seq<string>, values: seq<string>): (r: Row)
    ensures forall k :: k in r ==> k in keys
  {
    if keys == [] then map[]
    else
      var n := |keys| - 1;
      ZipObject(keys[..n], values)[keys[n] := if n < |values| then Some(values[n]) else None]
  }

  /** A decoded row has exactly the header keys. */
  lemma {:induction false} ZipObjectKeys(keys: seq<string>, values: seq<string>)
    ensures ZipObject(keys, values).Keys == set k | k in keys
  {
    if keys != [] {
      var n := |keys| - 1;
      ZipObjectKeys(keys[..n], values);
      assert keys == keys[..n] + [keys[n]];
      assert (set k | k in keys) == (set k | k in keys[..n]) + {keys[n]};
    }
  }

  lemma {:induction false} ZipObjectAt(keys: seq<string>, values: seq<string>, i: nat)
    requires forall p, q :: 0 <= p < q < |keys| ==> keys[p] != keys[q]
    requires i < |keys|
    ensures keys[i] in ZipObject(keys, values)
    ensures ZipObject(keys, values)[keys[i]] == if i < |values| then Some(values[i]) else None
  {
    var n := |keys| - 1;
    if i < n {
      ZipObjectAt(keys[..n], values, i);
      assert keys[i] != keys[n];
    }
  }

  /** The reduce over the header row's cell texts: each text's key,
      uniquified against the keys already collected. */
  method HeaderRowKeys(cells: seq<string>) returns (heads: seq<string>)
    ensures heads == HeaderKeys(cells)
  {
    ghost var keys := seq(|cells|, i requires 0 <= i < |cells| => HeaderKey(cells[i]));
    heads := [];
    for k := 0 to |cells|
      invariant heads == UniqueKeys(keys[..k])
    {
      var head := HeaderKey(cells[k]);
      var uniqueHead := Uniquify(heads, head);
      UniqueKeysSnoc(keys, k);
      heads := heads + [uniqueHead];
    }
    assert keys[..|cells|] == keys;
  }

  /** `parseTable`. Anything but exactly one `table` element, or a table
      without rows, gives no rows. Otherwise there is one decoded row per row
      after the first, in order, keyed by the header keys. */
  method ParseTable(table: seq<Element>) returns (ret: seq<Row>)
    ensures !(|table| == 1 && table[0].name == "table") ==> ret == []
    ensures |table| == 1 && table[0].name == "table" && table[0].rows == [] ==> ret == []
    ensures |table| == 1 && table[0].name == "table" && table[0].rows != [] ==>
      var rows := table[0].rows;
      && |ret| == |rows| - 1
      && forall i :: 0 <= i < |ret| ==>
           ret[i] == ZipObject(HeaderKeys(CellTexts(rows[0])), CellTexts(rows[i + 1]))
  {
    if |table| != 1 || table[0].name != "table" {
      return [];
    }
    var rows := table[0].rows;
    if |rows| == 0 {
      return [];
    }
    var heads := HeaderRowKeys(CellTexts(rows[0]));
    // the forEach over the other rows
    ret := [];
    for i := 1 to |rows|
      invariant |ret| == i - 1
      invariant forall p :: 0 <= p < i - 1 ==> ret[p] == ZipObject(heads, CellTexts(rows[p + 1]))
    {
      ret := ret + [ZipObject(heads, CellTexts(rows[i]))];
    }
  }

  /** Each decoded row sends header key i to the text of the i-th cell of
      its row, or to `undefined` when the row has fewer cells. */
  lemma DecodedRowAt(header: seq<DomNode>, row: seq<DomNode>, i: nat)
    requires i < |HeaderKeys(CellTexts(header))|
    ensures var keys := HeaderKeys(CellTexts(header));
            var cells := CellTexts(row);
            keys[i] in ZipObject(keys, cells) &&
            ZipObject(keys, cells)[keys[i]] == if i < |cells| then Some(cells[i]) else None
  {
    HeaderKeysDistinct(CellTexts(header));
    ZipObjectAt(HeaderKeys(CellTexts(header)), CellTexts(row), i);
  }
}
