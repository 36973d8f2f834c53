/**
  The row assembler (`row_to_object` with `prepare_upsert`): headers and
  cells are zipped, each pair is converted, and the converted value is
  inserted under its key, or merged into the value already stored there.
 */
module Rows {
  import opened Json
  import opened Splitter
  import opened Merger

  /** The document built from one row: top-level keys to values. */
  type Document = map<string, Value>

  function Min(a: nat, b: nat): nat
  {
    if a <= b then a else b
  }

  /** `headers.iter().zip(row.iter())`: pairs up to the shorter of the two. */
  function Zip(headers: seq<string>, row: seq<string>): (r: seq<(string, string)>)
    ensures |r| == Min(|headers|, |row|)
    ensures forall i | 0 <= i < |r| :: r[i] == (headers[i], row[i])
  {
    seq(Min(|headers|, |row|), i requires 0 <= i < Min(|headers|, |row|) => (headers[i], row[i]))
  }

  /** `prepare_upsert`: a vacant entry takes the data, an occupied one the merge of old and new. */
  function PrepareUpsert(entry: Option<Value>, data: Value): (r: Value)
    ensures entry.None? ==> r == data
    ensures entry.Some? ==> (r.Obj? <==> entry.value.Obj? && data.Obj?)
  {
    match entry
    case None => data
    case Some(stored) => Merge(stored, data)
  }

  /** The entry of `key` in `items`, as the map's entry API sees it. */
  function Entry(items: Document, key: string): (e: Option<Value>)
  {
    if key in items then Some(items[key]) else None
  }

  /**
    One step of the loop: the converted key now holds the converted value
    if it was absent, and the merge of old and new if it was present; every
    other key is unchanged.
   */
  function Upsert(items: Document, key: string, data: Value): (r: Document)
    ensures r.Keys == items.Keys + {key}
    ensures key !in items ==> r[key] == data
    ensures key in items ==> r[key] == Merge(items[key], data)
    ensures forall k | k in items && k != key :: r[k] == items[k]
  {
    items[key := PrepareUpsert(Entry(items, key), data)]
  }

  /** The document after folding the given pairs, left to right, from an empty map. */
  function Fold(pairs: seq<(string, string)>, ds: Option<string>): (r: Document)
    requires ds.Some? ==> |ds.value| > 0
  {
    if pairs == [] then map[]
    else
      var last := pairs[|pairs| - 1];
      var converted := Convert(last.0, last.1, ds);
      Upsert(Fold(pairs[..|pairs| - 1], ds), converted.0, converted.1)
  }

  /**
    The document a row turns into. Its keys are exactly the converted keys of
    the zipped pairs.
   */
  function Assemble(headers: seq<string>, row: seq<string>, ds: Option<string>): (r: Document)
    requires ds.Some? ==> |ds.value| > 0
    ensures r.Keys == ConvertedKeys(Zip(headers, row), ds)
  {
    FoldConvertedKeys(Zip(headers, row), ds);
    Fold(Zip(headers, row), ds)
  }

  /** `row_to_object`: the loop over the zipped pairs, updating one map. */
  method RowToObject(headers: seq<string>, row: seq<string>, ds: Option<string>) returns (items: Document)
    requires ds.Some? ==> |ds.value| > 0
    ensures items == Assemble(headers, row, ds)
  {
    items := map[];
    var data := Zip(headers, row);
    for i := 0 to |data|
      invariant items == Fold(data[..i], ds)
    {
      var (key, value) := Convert(data[i].0, data[i].1, ds);
      var prepared := PrepareUpsert(Entry(items, key), value);
      items := items[key := prepared];
      assert data[..i + 1][..i] == data[..i];
    }
    assert data[..|data|] == data;
  }

  /** Only the first `min(|headers|, |row|)` pairs matter: longer inputs are cut off. */
  lemma AssembleTruncates(headers: seq<string>, row: seq<string>, ds: Option<string>)
    requires ds.Some? ==> |ds.value| > 0
    ensures var n := Min(|headers|, |row|);
      Assemble(headers, row, ds) == Assemble(headers[..n], row[..n], ds)
  {
    var n := Min(|headers|, |row|);
    assert Zip(headers, row) == Zip(headers[..n], row[..n]);
  }

  /** The keys after folding are exactly the converted keys of the pairs. */
  lemma {:induction false} FoldKeys(pairs: seq<(string, string)>, ds: Option<string>)
    requires ds.Some? ==> |ds.value| > 0
    ensures Fold(pairs, ds).Keys == set i | 0 <= i < |pairs| :: Convert(pairs[i].0, pairs[i].1, ds).0
    decreases |pairs|
  {
    FoldConvertedKeys(pairs, ds);
    ConvertedKeysAll(pairs, ds);
  }

  /** The converted keys of the pairs, collected in the fold's own order. */
  function ConvertedKeys(pairs: seq<(string, string)>, ds: Option<string>): set<string>
    requires ds.Some? ==> |ds.value| > 0
  {
    if pairs == [] then {}
    else
      var last := pairs[|pairs| - 1];
      ConvertedKeys(pairs[..|pairs| - 1], ds) + {Convert(last.0, last.1, ds).0}
  }

  /** The fold's keys are the converted keys, one per pair. */
  lemma {:induction false} FoldConvertedKeys(pairs: seq<(string, string)>, ds: Option<string>)
    requires ds.Some? ==> |ds.value| > 0
    ensures Fold(pairs, ds).Keys == ConvertedKeys(pairs, ds)
    decreases |pairs|
  {
    if pairs != [] {
      FoldConvertedKeys(pairs[..|pairs| - 1], ds);
    }
  }

  /** The converted keys, indexed: the key of every pair, and no other. */
  lemma ConvertedKeysAll(pairs: seq<(string, string)>, ds: Option<string>)
    requires ds.Some? ==> |ds.value| > 0
    ensures ConvertedKeys(pairs, ds) == set i | 0 <= i < |pairs| :: Convert(pairs[i].0, pairs[i].1, ds).0
  {
    var f := (p: (string, string)) => Convert(p.0, p.1, ds).0;
    ConvertedKeysAreImage(pairs, ds, f);
    ImageByRecursion(pairs, f);
  }

  /** `ConvertedKeys` is the image of the pairs under the key function. */
  lemma {:induction false} ConvertedKeysAreImage(pairs: seq<(string, string)>, ds: Option<string>,
                                                 f: ((string, string)) -> string)
    requires ds.Some? ==> |ds.value| > 0
    requires forall p :: f(p) == Convert(p.0, p.1, ds).0
    ensures ConvertedKeys(pairs, ds) == Image(pairs, f)
    decreases |pairs|
  {
    if pairs != [] {
      ConvertedKeysAreImage(pairs[..|pairs| - 1], ds, f);
    }
  }

  /** The values `f` gives to the pairs, collected from the right. */
  function Image(pairs: seq<(string, string)>, f: ((string, string)) -> string): set<string>
  {
    if pairs == [] then {} else Image(pairs[..|pairs| - 1], f) + {f(pairs[|pairs| - 1])}
  }

  /** The recursive image is the image by index. */
  lemma {:induction false} ImageByRecursion(pairs: seq<(string, string)>, f: ((string, string)) -> string)
    ensures Image(pairs, f) == set i | 0 <= i < |pairs| :: f(pairs[i])
    decreases |pairs|
  {
    if pairs != [] {
      var init := pairs[..|pairs| - 1];
      ImageByRecursion(init, f);
      assert forall i | 0 <= i < |init| :: init[i] == pairs[i];
    }
  }

  /** The document's keys are the converted keys of the first `min(|headers|, |row|)` headers. */
  lemma AssembleKeys(headers: seq<string>, row: seq<string>, ds: Option<string>)
    requires ds.Some? ==> |ds.value| > 0
    ensures Assemble(headers, row, ds).Keys ==
      set i | 0 <= i < Min(|headers|, |row|) :: Convert(headers[i], row[i], ds).0
  {
    ConvertedKeysAll(Zip(headers, row), ds);
  }

  /**
    Headers that are pairwise distinct and are not split (no separator, or
    a separator none of them contains): each header maps to its own cell.
   */
  lemma {:induction false} FoldPlainDistinct(pairs: seq<(string, string)>, ds: Option<string>)
    requires ds.Some? ==> |ds.value| > 0
    requires forall i | 0 <= i < |pairs| :: ds.None? || !Contains(pairs[i].0, ds.value)
    requires forall i, j | 0 <= i < j < |pairs| :: pairs[i].0 != pairs[j].0
    ensures forall i | 0 <= i < |pairs| ::
      pairs[i].0 in Fold(pairs, ds) && Fold(pairs, ds)[pairs[i].0] == Str(pairs[i].1)
    decreases |pairs|
  {
    if pairs != [] {
      var n := |pairs| - 1;
      var init := pairs[..n];
      var last := pairs[n];
      assert forall i | 0 <= i < n :: init[i] == pairs[i];
      FoldPlainDistinct(init, ds);
      var prev := Fold(init, ds);
      ConvertPlain(last.0, last.1, ds);
      assert last.0 !in prev by {
        FoldConvertedKeys(init, ds);
        PlainKeyAbsent(init, ds, last.0);
      }
      assert Fold(pairs, ds) == Upsert(prev, last.0, Str(last.1));
    }
  }

  /** A header that is not split and differs from every earlier header is not yet a key. */
  lemma {:induction false} PlainKeyAbsent(pairs: seq<(string, string)>, ds: Option<string>, h: string)
    requires ds.Some? ==> |ds.value| > 0
    requires forall i | 0 <= i < |pairs| :: ds.None? || !Contains(pairs[i].0, ds.value)
    requires forall i | 0 <= i < |pairs| :: pairs[i].0 != h
    ensures h !in ConvertedKeys(pairs, ds)
    decreases |pairs|
  {
    if pairs != [] {
      var n := |pairs| - 1;
      var init := pairs[..n];
      assert forall i | 0 <= i < n :: init[i] == pairs[i];
      PlainKeyAbsent(init, ds, h);
      ConvertPlain(pairs[n].0, pairs[n].1, ds);
    }
  }

  /** With no separator and distinct headers, each header maps to its cell as a string. */
  lemma AssemblePlainDistinct(headers: seq<string>, row: seq<string>)
    requires forall i, j | 0 <= i < j < Min(|headers|, |row|) :: headers[i] != headers[j]
    ensures forall i | 0 <= i < Min(|headers|, |row|) ::
      headers[i] in Assemble(headers, row, None) && Assemble(headers, row, None)[headers[i]] == Str(row[i])
  {
    FoldPlainDistinct(Zip(headers, row), None);
  }

  /** A converted value stores exactly its cell. */
  lemma {:induction false} NestedLeaves(v: Value, cell: string)
    requires Nested(v, cell)
    ensures Leaves(v) == {cell}
    decreases v
  {
    match v
    case Str(_) =>
    case Obj(m) =>
      forall k | k in m {
        NestedLeaves(m[k], cell);
      }
      var k :| k in m;
      assert cell in Leaves(m[k]);
  }

  /** An upsert adds the new value's strings to those already in the document. */
  lemma UpsertLeaves(items: Document, key: string, data: Value)
    ensures Leaves(Obj(Upsert(items, key, data))) == Leaves(Obj(items)) + Leaves(data)
  {
    var r := Upsert(items, key, data);
    if key in items {
      MergeLeaves(items[key], data);
    }
    forall x | x in Leaves(Obj(r)) ensures x in Leaves(Obj(items)) + Leaves(data) {
      var k :| k in r && x in Leaves(r[k]);
    }
    forall x | x in Leaves(Obj(items)) + Leaves(data) ensures x in Leaves(Obj(r)) {
      if x in Leaves(data) {
        assert x in Leaves(r[key]);
      } else {
        var k :| k in items && x in Leaves(items[k]);
        assert x in Leaves(r[k]);
      }
    }
  }

  /** The cells of a sequence of pairs. */
  function Cells(pairs: seq<(string, string)>): set<string>
  {
    set i | 0 <= i < |pairs| :: pairs[i].1
  }

  /** The cells of a non-empty sequence are those of its initial part and of its last pair. */
  lemma CellsSnoc(pairs: seq<(string, string)>)
    requires pairs != []
    ensures Cells(pairs) == Cells(pairs[..|pairs| - 1]) + {pairs[|pairs| - 1].1}
  {
    var init := pairs[..|pairs| - 1];
    assert forall i | 0 <= i < |init| :: init[i] == pairs[i];
  }

  /** Folding keeps every cell and adds nothing else. */
  lemma {:induction false} FoldLeaves(pairs: seq<(string, string)>, ds: Option<string>)
    requires ds.Some? ==> |ds.value| > 0
    ensures Leaves(Obj(Fold(pairs, ds))) == Cells(pairs)
    decreases |pairs|
  {
    if pairs != [] {
      var init := pairs[..|pairs| - 1];
      var last := pairs[|pairs| - 1];
      FoldLeaves(init, ds);
      var (key, value) := Convert(last.0, last.1, ds);
      NestedLeaves(value, last.1);
      UpsertLeaves(Fold(init, ds), key, value);
      CellsSnoc(pairs);
    }
  }

  /**
    No cell is lost and none is invented: the strings stored in a row's
    document are exactly the first `min(|headers|, |row|)` cells.
   */
  lemma AssembleLeaves(headers: seq<string>, row: seq<string>, ds: Option<string>)
    requires ds.Some? ==> |ds.value| > 0
    ensures Leaves(Obj(Assemble(headers, row, ds))) == set i | 0 <= i < Min(|headers|, |row|) :: row[i]
  {
    var pairs := Zip(headers, row);
    FoldLeaves(pairs, ds);
    assert Cells(pairs) == set i | 0 <= i < Min(|headers|, |row|) :: row[i];
  }

  /** Three cells under one repeated header collect into a flat array, in order. */
  lemma RepeatedHeaderExample()
    ensures Assemble(["x", "x", "x"], ["1", "2", "3"], None) == map["x" := Arr([Str("1"), Str("2"), Str("3")])]
  {
    var pairs := Zip(["x", "x", "x"], ["1", "2", "3"]);
    assert pairs == [("x", "1")] + [("x", "2")] + [("x", "3")];
    FoldSnoc([], ("x", "1"), None);
    assert [] + [("x", "1")] == [("x", "1")];
    FoldSnoc([("x", "1")], ("x", "2"), None);
    FoldSnoc([("x", "1")] + [("x", "2")], ("x", "3"), None);
    assert [Str("1"), Str("2")] + [Str("3")] == [Str("1"), Str("2"), Str("3")];
  }

  /** Folding one more pair upserts its conversion into the document so far. */
  lemma FoldSnoc(pairs: seq<(string, string)>, p: (string, string), ds: Option<string>)
    requires ds.Some? ==> |ds.value| > 0
    ensures Fold(pairs + [p], ds) ==
      Upsert(Fold(pairs, ds), Convert(p.0, p.1, ds).0, Convert(p.0, p.1, ds).1)
  {
    assert (pairs + [p])[..|pairs|] == pairs;
  }

  /** A single header with one "." gives a one-key document holding a one-key object. */
  lemma FoldOneNested(x: string, y: string, c: string)
    requires '.' !in x && '.' !in y
    ensures Fold([(x + "." + y, c)], Some(".")) == map[x := Obj(map[y := Str(c)])]
  {
    var p := (x + "." + y, c);
    ConvertOneDot(x, y, c);
    FoldSnoc([], p, Some("."));
    assert [] + [p] == [p];
  }

  /** One more header with one "." upserts a one-key object under its prefix. */
  lemma FoldNestedSnoc(pairs: seq<(string, string)>, x: string, y: string, c: string)
    requires '.' !in x && '.' !in y
    ensures Fold(pairs + [(x + "." + y, c)], Some(".")) ==
      Upsert(Fold(pairs, Some(".")), x, Obj(map[y := Str(c)]))
  {
    ConvertOneDot(x, y, c);
    FoldSnoc(pairs, (x + "." + y, c), Some("."));
  }

  /** The second nested header is upserted into the document of the first. */
  lemma FoldTwoNestedStep(x: string, y1: string, y2: string, c1: string, c2: string)
    requires '.' !in x && '.' !in y1 && '.' !in y2
    ensures Fold([(x + "." + y1, c1), (x + "." + y2, c2)], Some(".")) ==
      Upsert(map[x := Obj(map[y1 := Str(c1)])], x, Obj(map[y2 := Str(c2)]))
  {
    var p1 := (x + "." + y1, c1);
    FoldOneNested(x, y1, c1);
    FoldNestedSnoc([p1], x, y2, c2);
    assert [p1] + [(x + "." + y2, c2)] == [p1, (x + "." + y2, c2)];
  }

  /** Upserting an object with a new key adds that key to the stored object. */
  lemma UpsertDisjointObjects(x: string, y1: string, y2: string, c1: string, c2: string)
    requires y1 != y2
    ensures Upsert(map[x := Obj(map[y1 := Str(c1)])], x, Obj(map[y2 := Str(c2)])) ==
      map[x := Obj(map[y1 := Str(c1), y2 := Str(c2)])]
  {
    MergeObjects(map[y1 := Str(c1)], map[y2 := Str(c2)]);
    assert Merge(Obj(map[y1 := Str(c1)]), Obj(map[y2 := Str(c2)])).fields ==
      map[y1 := Str(c1), y2 := Str(c2)];
  }

  /** Two headers with one prefix and different suffixes nest into one object. */
  lemma FoldTwoNested(x: string, y1: string, y2: string, c1: string, c2: string)
    requires '.' !in x && '.' !in y1 && '.' !in y2 && y1 != y2
    ensures Fold([(x + "." + y1, c1), (x + "." + y2, c2)], Some(".")) ==
      map[x := Obj(map[y1 := Str(c1), y2 := Str(c2)])]
  {
    FoldTwoNestedStep(x, y1, y2, c1, c2);
    UpsertDisjointObjects(x, y1, y2, c1, c2);
  }

  /** The third nested header is upserted into the document of the first two. */
  lemma FoldThreeNestedStep(x: string, y1: string, y2: string, c1: string, c2: string, c3: string)
    requires '.' !in x && '.' !in y1 && '.' !in y2 && y1 != y2
    ensures Fold([(x + "." + y1, c1), (x + "." + y2, c2), (x + "." + y1, c3)], Some(".")) ==
      Upsert(map[x := Obj(map[y1 := Str(c1), y2 := Str(c2)])], x, Obj(map[y1 := Str(c3)]))
  {
    var p1, p2, p3 := (x + "." + y1, c1), (x + "." + y2, c2), (x + "." + y1, c3);
    assert [p1, p2] + [p3] == [p1, p2, p3];
    FoldNestedSnoc([p1, p2], x, y1, c3);
    FoldTwoNested(x, y1, y2, c1, c2);
  }

  /** Upserting an object with a key already stored merges the two entries under it. */
  lemma UpsertSharedObjects(x: string, y1: string, y2: string, c1: string, c2: string, c3: string)
    requires y1 != y2
    ensures Upsert(map[x := Obj(map[y1 := Str(c1), y2 := Str(c2)])], x, Obj(map[y1 := Str(c3)])) ==
      map[x := Obj(map[y1 := Arr([Str(c1), Str(c3)]), y2 := Str(c2)])]
  {
    MergeObjects(map[y1 := Str(c1), y2 := Str(c2)], map[y1 := Str(c3)]);
    assert Merge(Obj(map[y1 := Str(c1), y2 := Str(c2)]), Obj(map[y1 := Str(c3)])).fields ==
      map[y1 := Arr([Str(c1), Str(c3)]), y2 := Str(c2)];
  }

  /** A third header repeating the first suffix merges the two cells under it. */
  lemma FoldThreeNested(x: string, y1: string, y2: string, c1: string, c2: string, c3: string)
    requires '.' !in x && '.' !in y1 && '.' !in y2 && y1 != y2
    ensures Fold([(x + "." + y1, c1), (x + "." + y2, c2), (x + "." + y1, c3)], Some(".")) ==
      map[x := Obj(map[y1 := Arr([Str(c1), Str(c3)]), y2 := Str(c2)])]
  {
    FoldThreeNestedStep(x, y1, y2, c1, c2, c3);
    UpsertSharedObjects(x, y1, y2, c1, c2, c3);
  }

  /** Headers "x.y1", "x.y2" with "." as the separator nest into one object under "x". */
  lemma NestingExample(x: string, y1: string, y2: string, c1: string, c2: string)
    requires '.' !in x && '.' !in y1 && '.' !in y2 && y1 != y2
    ensures Assemble([x + "." + y1, x + "." + y2], [c1, c2], Some(".")) ==
      map[x := Obj(map[y1 := Str(c1), y2 := Str(c2)])]
  {
    var h1, h2 := x + "." + y1, x + "." + y2;
    var z := Zip([h1, h2], [c1, c2]);
    assert z[0] == (h1, c1) && z[1] == (h2, c2);
    assert z == [(h1, c1), (h2, c2)];
    FoldTwoNested(x, y1, y2, c1, c2);
  }

  /**
    Headers "x.y1", "x.y2", "x.y1": the repeated nested key ends up holding
    both of its cells, in order, beside the other key.
   */
  lemma NestedMergeExample(x: string, y1: string, y2: string, c1: string, c2: string, c3: string)
    requires '.' !in x && '.' !in y1 && '.' !in y2 && y1 != y2
    ensures Assemble([x + "." + y1, x + "." + y2, x + "." + y1], [c1, c2, c3], Some(".")) ==
      map[x := Obj(map[y1 := Arr([Str(c1), Str(c3)]), y2 := Str(c2)])]
  {
    var h1, h2 := x + "." + y1, x + "." + y2;
    var z := Zip([h1, h2, h1], [c1, c2, c3]);
    assert z[0] == (h1, c1) && z[1] == (h2, c2) && z[2] == (h1, c3);
    assert z == [(h1, c1), (h2, c2), (h1, c3)];
    FoldThreeNested(x, y1, y2, c1, c2, c3);
  }
}
