/**
  The header splitter (`dimensional_converter`): a header and a cell become
  a key and a value, where a header that contains the separator becomes a
  nested single-entry object.

  Text search follows Rust's `str::contains` and `str::split` with a string
  pattern: matches are found left to right and do not overlap. The separator
  must be non-empty; with an empty separator the source never terminates.
 */
module Splitter {
  import opened Json

  /** `sep` occurs in `s` starting at index `i`. */
  predicate OccursAt(s: string, sep: string, i: int)
  {
    0 <= i && i + |sep| <= |s| && s[i..i + |sep|] == sep
  }

  /** `str::contains`: `sep` occurs somewhere in `s`. */
  predicate Contains(s: string, sep: string)
    ensures Contains(s, sep) ==> |sep| <= |s|
  {
    exists i | 0 <= i <= |s| - |sep| :: OccursAt(s, sep, i)
  }

  /** Shifting the start of the text by one shifts every occurrence by one. */
  lemma OccursShift(s: string, sep: string, j: int)
    requires |s| > 0 && 0 <= j
    ensures OccursAt(s, sep, j + 1) <==> OccursAt(s[1..], sep, j)
  {
    if j + 1 + |sep| <= |s| {
      assert s[j + 1..j + 1 + |sep|] == s[1..][j..j + |sep|];
    }
  }

  /** Index of the leftmost occurrence of `sep` in `s`, if any. */
  function FindFirst(s: string, sep: string): (r: Option<nat>)
    requires |sep| > 0
    ensures r.Some? ==> OccursAt(s, sep, r.value)
    ensures r.Some? ==> forall j :: 0 <= j < r.value ==> !OccursAt(s, sep, j)
    ensures r.None? ==> forall j :: !OccursAt(s, sep, j)
    ensures r.Some? <==> Contains(s, sep)
    decreases |s|
  {
    if |s| < |sep| then None
    else if s[..|sep|] == sep then
      assert OccursAt(s, sep, 0);
      Some(0)
    else
      var r' := FindFirst(s[1..], sep);
      assert !OccursAt(s, sep, 0);
      match r'
      case None =>
        assert forall j :: !OccursAt(s, sep, j) by {
          forall j | 0 < j ensures !OccursAt(s, sep, j) {
            OccursShift(s, sep, j - 1);
          }
        }
        None
      case Some(i) =>
        OccursShift(s, sep, i);
        assert forall j :: 0 <= j < i + 1 ==> !OccursAt(s, sep, j) by {
          forall j | 0 < j < i + 1 ensures !OccursAt(s, sep, j) {
            OccursShift(s, sep, j - 1);
          }
        }
        Some(i + 1)
  }

  /** `parts.join(d)`: the parts with `d` between neighbours. */
  function Join(parts: seq<string>, d: string): (r: string)
    ensures |parts| > 0 ==> parts[0] <= r
  {
    if |parts| == 0 then ""
    else if |parts| == 1 then parts[0]
    else parts[0] + d + Join(parts[1..], d)
  }

  /**
    `s.split(sep)` collected into a vector: the pieces between the
    non-overlapping occurrences of `sep`, taken left to right.
   */
  function Split(s: string, sep: string): (r: seq<string>)
    requires |sep| > 0
    ensures |r| >= 1
    decreases |s|
  {
    match FindFirst(s, sep)
    case None => [s]
    case Some(i) => [s[..i]] + Split(s[i + |sep|..], sep)
  }

  /** Splitting never loses text: joining the pieces with `sep` gives `s` back. */
  lemma {:induction false} SplitJoin(s: string, sep: string)
    requires |sep| > 0
    ensures Join(Split(s, sep), sep) == s
    decreases |s|
  {
    match FindFirst(s, sep)
    case None =>
    case Some(i) =>
      var rest := s[i + |sep|..];
      var pieces := Split(rest, sep);
      SplitJoin(rest, sep);
      assert Split(s, sep) == [s[..i]] + pieces;
      assert ([s[..i]] + pieces)[1..] == pieces;
      JoinCons(s[..i], pieces, sep);
      assert s == s[..i] + sep + rest;
  }

  /** A header splits into more than one piece exactly when it contains the separator. */
  lemma SplitSingle(s: string, sep: string)
    requires |sep| > 0
    ensures |Split(s, sep)| == 1 <==> !Contains(s, sep)
  {
  }

  /** Joining a piece in front of a non-empty list puts the delimiter between. */
  lemma JoinCons(head: string, tail: seq<string>, d: string)
    requires |tail| > 0
    ensures Join([head] + tail, d) == head + d + Join(tail, d)
  {
    assert ([head] + tail)[1..] == tail;
  }

  /** The text before the first occurrence of `sep` does not contain it. */
  lemma PrefixBeforeFirstIsFree(s: string, sep: string, i: nat)
    requires |sep| > 0 && FindFirst(s, sep) == Some(i)
    ensures !Contains(s[..i], sep)
  {
    forall j | OccursAt(s[..i], sep, j) ensures false {
      assert s[..i][j..j + |sep|] == s[j..j + |sep|];
      assert OccursAt(s, sep, j);
    }
  }

  /** No piece of a split contains the separator. */
  lemma {:induction false} SplitPiecesSeparatorFree(s: string, sep: string, k: int)
    requires |sep| > 0 && 0 <= k < |Split(s, sep)|
    ensures !Contains(Split(s, sep)[k], sep)
    decreases |s|
  {
    match FindFirst(s, sep)
    case None =>
    case Some(i) =>
      var pieces := Split(s[i + |sep|..], sep);
      assert Split(s, sep) == [s[..i]] + pieces;
      if k == 0 {
        PrefixBeforeFirstIsFree(s, sep, i);
      } else {
        SplitPiecesSeparatorFree(s[i + |sep|..], sep, k - 1);
        assert Split(s, sep)[k] == pieces[k - 1];
      }
  }

  /** Every occurrence of `sep` in `s` is replaced with `d`. */
  function ReplaceAll(s: string, sep: string, d: string): string
    requires |sep| > 0
  {
    Join(Split(s, sep), d)
  }

  /** Joining with a one-character delimiter is never longer than joining with `sep`. */
  lemma {:induction false} JoinWithDotNoLonger(parts: seq<string>, sep: string)
    requires |sep| > 0
    ensures |Join(parts, ".")| <= |Join(parts, sep)|
    decreases |parts|
  {
    if |parts| > 1 {
      JoinWithDotNoLonger(parts[1..], sep);
    }
  }

  /**
    The remainder the converter recurses on: every piece after the first,
    joined with a literal ".". It is exactly the text after the first
    separator with every further separator replaced by ".", and it is
    strictly shorter than the header, so the recursion terminates.
   */
  function Remainder(key: string, sep: string): (r: string)
    requires |sep| > 0 && Contains(key, sep)
    ensures FindFirst(key, sep).Some?
    ensures r == ReplaceAll(key[FindFirst(key, sep).value + |sep|..], sep, ".")
    ensures |r| < |key|
  {
    SplitTail(key, sep);
    Join(Split(key, sep)[1..], ".")
  }

  /** The pieces after the first are the split of the text after the first separator. */
  lemma SplitTail(key: string, sep: string)
    requires |sep| > 0 && Contains(key, sep)
    ensures FindFirst(key, sep).Some?
    ensures var rest := key[FindFirst(key, sep).value + |sep|..];
      && Split(key, sep)[1..] == Split(rest, sep)
      && |Join(Split(rest, sep), ".")| < |key|
  {
    var i := FindFirst(key, sep).value;
    var rest := key[i + |sep|..];
    JoinWithDotNoLonger(Split(rest, sep), sep);
    SplitJoin(rest, sep);
  }

  /**
    `dimensional_converter`. Without a separator, or when the header does
    not contain it, the pair is the header and the cell as a string.
    Otherwise the key is the text before the first separator and the value
    is a one-entry object whose key is the remainder (the remaining pieces
    joined with "."), mapped to the value of the recursive conversion of
    that remainder; the key of the recursive conversion is dropped.
   */
  function Convert(key: string, cell: string, ds: Option<string>): (r: (string, Value))
    requires ds.Some? ==> |ds.value| > 0
    ensures ds.Some? ==> !Contains(r.0, ds.value)
    ensures ds.Some? && Contains(key, ds.value) ==>
      FindFirst(key, ds.value).Some? && r.0 == key[..FindFirst(key, ds.value).value]
    ensures Nested(r.1, cell)
    ensures r.1.Str? <==> ds.None? || !Contains(key, ds.value)
    decreases |key|
  {
    if ds.Some? && Contains(key, ds.value) then
      var parts := Split(key, ds.value);
      SplitPiecesSeparatorFree(key, ds.value, 0);
      var nextKey := Remainder(key, ds.value);
      var (_, data) := Convert(nextKey, cell, ds);
      (parts[0], Obj(map[nextKey := data]))
    else
      (key, Str(cell))
  }

  /**
    The shape every converted value has: a chain of one-entry objects that
    ends in the cell as a string.
   */
  predicate Nested(v: Value, cell: string)
    decreases v
  {
    match v
    case Str(s) => s == cell
    case Arr(_) => false
    case Obj(m) => |m| == 1 && forall k | k in m :: Nested(m[k], cell)
  }

  /** No separator, or a header without it: the header and the cell, unchanged. */
  lemma ConvertPlain(key: string, cell: string, ds: Option<string>)
    requires ds.Some? ==> |ds.value| > 0
    requires ds.None? || !Contains(key, ds.value)
    ensures Convert(key, cell, ds) == (key, Str(cell))
  {
  }

  /**
    A header containing the separator: the key is the text before the first
    separator, and the value is a one-entry object whose only key is the rest
    of the header with every further separator replaced by ".", mapped to the
    value (not the key) of converting that rest again.
   */
  lemma ConvertNested(key: string, cell: string, sep: string)
    requires |sep| > 0 && Contains(key, sep)
    ensures FindFirst(key, sep).Some?
    ensures var i := FindFirst(key, sep).value;
      var k := ReplaceAll(key[i + |sep|..], sep, ".");
      && Convert(key, cell, Some(sep)).0 == key[..i]
      && Convert(key, cell, Some(sep)).1 == Obj(map[k := Convert(k, cell, Some(sep)).1])
  {
    var nextKey := Remainder(key, sep);
    assert Convert(key, cell, Some(sep)).1 == Obj(map[nextKey := Convert(nextKey, cell, Some(sep)).1]);
  }

  /**
    The header can be read back from the converted pair: it is the key, the
    separator, and a rest that becomes the nested key once its separators are
    replaced by ".". With "." as the separator the nested key is that rest
    itself, so the header is exactly key + "." + nested key.
   */
  lemma {:induction false} ConvertHeaderRoundTrip(key: string, cell: string, sep: string)
    requires |sep| > 0 && Contains(key, sep)
    ensures var r := Convert(key, cell, Some(sep));
      r.1.Obj? && |r.1.fields| == 1 &&
      exists rest :: key == r.0 + sep + rest && r.1.fields.Keys == {ReplaceAll(rest, sep, ".")}
    ensures sep == "." ==>
      var r := Convert(key, cell, Some(sep));
      exists inner :: r.1.fields.Keys == {inner} && key == r.0 + "." + inner
  {
    var i := FindFirst(key, sep).value;
    var rest := key[i + |sep|..];
    assert key == key[..i] + sep + rest by {
      assert OccursAt(key, sep, i);
    }
    ConvertNested(key, cell, sep);
    var nested := ReplaceAll(rest, sep, ".");
    if sep == "." {
      ReplaceAllSelf(rest, sep);
      assert nested == rest;
    }
  }

  /** Replacing every separator with itself leaves the text as it was. */
  lemma ReplaceAllSelf(s: string, sep: string)
    requires |sep| > 0
    ensures ReplaceAll(s, sep, sep) == s
  {
    SplitJoin(s, sep);
  }

  /** With a one-character separator, the first occurrence is the first position holding that character. */
  lemma FindFirstChar(x: string, c: char, y: string)
    requires c !in x
    ensures FindFirst(x + [c] + y, [c]) == Some(|x|)
  {
    var s := x + [c] + y;
    assert s[|x|..|x| + 1] == [c];
    assert OccursAt(s, [c], |x|);
    forall j | 0 <= j < |x| ensures !OccursAt(s, [c], j) {
      assert s[j..j + 1][0] == x[j];
    }
    var r := FindFirst(s, [c]);
    assert r.Some?;
    assert r.value == |x|;
  }

  /** A one-character separator that does not appear in the text is not contained in it. */
  lemma NotContainsChar(x: string, c: char)
    requires c !in x
    ensures !Contains(x, [c])
  {
    forall j | 0 <= j < |x| ensures !OccursAt(x, [c], j) {
      assert x[j..j + 1] == [x[j]];
    }
  }

  /** Splitting on a one-character separator at its first position. */
  lemma SplitChar(x: string, c: char, y: string)
    requires c !in x
    ensures Split(x + [c] + y, [c]) == [x] + Split(y, [c])
  {
    FindFirstChar(x, c, y);
    var s := x + [c] + y;
    assert s[..|x|] == x && s[|x| + 1..] == y;
  }

  /** One conversion step on a header whose first separator character follows `x`. */
  lemma ConvertCharStep(x: string, c: char, y: string, cell: string)
    requires c !in x
    ensures var k := ReplaceAll(y, [c], ".");
      Convert(x + [c] + y, cell, Some([c])) == (x, Obj(map[k := Convert(k, cell, Some([c])).1]))
  {
    FindFirstChar(x, c, y);
    var s := x + [c] + y;
    assert s[..|x|] == x && s[|x| + 1..] == y;
    ConvertNested(s, cell, [c]);
  }

  /** The rest "b.c" is already joined with ".", so re-joining leaves it as it is. */
  lemma DottedRemainderExample()
    ensures ReplaceAll("b.c", ".", ".") == "b.c"
  {
    SplitJoin("b.c", ".");
  }

  /** "a.b.c" with "." nests twice, and the first nested key is "b.c", not "b". */
  lemma ConvertDottedExample()
    ensures Convert("a.b.c", "v", Some(".")) == ("a", Obj(map["b.c" := Obj(map["c" := Str("v")])]))
  {
    assert "a.b.c" == "a" + "." + "b.c";
    ConvertCharStep("a", '.', "b.c", "v");
    DottedRemainderExample();
    DottedInnerExample();
  }

  /** "b.c" no longer contains "_", so it converts to a plain string. */
  lemma UnderscoreInnerExample()
    ensures Convert("b.c", "v", Some("_")) == ("b.c", Str("v"))
  {
    NotContainsChar("b.c", '_');
  }

  /** The rest "b_c" is re-joined as "b.c". */
  lemma UnderscoreRemainderExample()
    ensures ReplaceAll("b_c", "_", ".") == "b.c"
  {
    NotContainsChar("c", '_');
    SplitChar("b", '_', "c");
    assert "b_c" == "b" + "_" + "c";
  }

  /**
    With a separator other than ".", only the first level is split: the
    remainder is re-joined with "." and no longer contains the separator.
   */
  lemma ConvertOtherSeparatorExample()
    ensures Convert("a_b_c", "v", Some("_")) == ("a", Obj(map["b.c" := Str("v")]))
  {
    assert "a_b_c" == "a" + "_" + "b_c";
    ConvertCharStep("a", '_', "b_c", "v");
    UnderscoreRemainderExample();
    UnderscoreInnerExample();
  }

  /** A header with exactly one "." becomes one level of nesting under "." as the separator. */
  lemma ConvertOneDot(x: string, y: string, cell: string)
    requires '.' !in x && '.' !in y
    ensures Convert(x + "." + y, cell, Some(".")) == (x, Obj(map[y := Str(cell)]))
  {
    NotContainsChar(y, '.');
    assert Split(y, ".") == [y];
    assert ReplaceAll(y, ".", ".") == y;
    ConvertCharStep(x, '.', y, cell);
  }

  /** "b.c" with "." gives the key "b" and the object {"c": v}. */
  lemma DottedInnerExample()
    ensures Convert("b.c", "v", Some(".")) == ("b", Obj(map["c" := Str("v")]))
  {
    ConvertOneDot("b", "c", "v");
    assert "b.c" == "b" + "." + "c";
  }
}
