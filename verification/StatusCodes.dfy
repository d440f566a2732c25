// Tables of response codes: merging them, and why the order of merging does not matter.
module StatusCodes {
  datatype Entry = Entry(code: int, count: real)

  // ------------------------------------------------ sorting

  predicate Ascending(s: seq<int>) {
    forall i, j :: 0 <= i < j < |s| ==> s[i] < s[j]
  }

  function InsertInt(s: seq<int>, x: int): seq<int> {
    if s == [] || x <= s[0] then [x] + s else [s[0]] + InsertInt(s[1..], x)
  }

  /** sort.Ints. */
  function SortInts(s: seq<int>): seq<int> {
    if s == [] then [] else InsertInt(SortInts(s[..|s| - 1]), s[|s| - 1])
  }

  lemma {:induction false} InsertSorted(s: seq<int>, x: int)
    requires Ascending(s) && x !in s
    ensures Ascending(InsertInt(s, x))
    ensures forall y :: y in InsertInt(s, x) <==> y == x || y in s
  {
    if s != [] && x > s[0] {
      var rest := InsertInt(s[1..], x);
      AscendingTail(s);
      InsertSorted(s[1..], x);
      assert s == [s[0]] + s[1..];
      forall j | 0 <= j < |rest| ensures s[0] < rest[j] {
        assert rest[j] in rest;
        assert rest[j] in s[1..] ==> s[0] < rest[j];
      }
    } else {
      assert forall i :: 0 <= i < |s| ==> s[i] in s;
    }
  }

  lemma {:induction false} SortDistinct(s: seq<int>)
    requires forall i, j :: 0 <= i < j < |s| ==> s[i] != s[j]
    ensures Ascending(SortInts(s))
    ensures forall y :: y in SortInts(s) <==> y in s
  {
    if s != [] {
      var before, last := s[..|s| - 1], s[|s| - 1];
      SortDistinct(before);
      assert s == before + [last];
      InsertSorted(SortInts(before), last);
    }
  }

  lemma FirstIn(a: seq<int>)
    ensures a != [] ==> a[0] in a
  {
  }

  /** An ascending list is determined by its elements. */
  lemma {:induction false} AscendingUnique(a: seq<int>, b: seq<int>)
    requires Ascending(a) && Ascending(b) && forall x :: x in a <==> x in b
    ensures a == b
  {
    if a == [] {
      FirstIn(b);
    } else {
      FirstIn(a);
      FirstIn(b);
      assert a[0] in b && b[0] in a;
      AscendingTail(a);
      AscendingTail(b);
      assert a[0] == b[0] by {
        SmallestFirst(a, b[0]);
        SmallestFirst(b, a[0]);
      }
      AscendingUnique(a[1..], b[1..]);
      assert a == [a[0]] + a[1..] && b == [b[0]] + b[1..];
    }
  }

  lemma AscendingTail(a: seq<int>)
    requires Ascending(a) && a != []
    ensures Ascending(a[1..])
    ensures forall x :: x in a[1..] ==> x > a[0]
    ensures forall x :: x in a[1..] <==> x in a && x != a[0]
  {
    assert a == [a[0]] + a[1..];
  }

  lemma SmallestFirst(a: seq<int>, x: int)
    requires Ascending(a) && x in a
    ensures a[0] <= x
  {
  }

  // ------------------------------------------------ tables

  predicate Counts(e: Entry) {
    e.code > 0 && e.count > 0.0
  }

  /** What a table says about one code; entries without a positive code and count do not count. */
  function CountOf(t: seq<Entry>, code: int): real {
    if t == [] then 0.0
    else CountOf(t[..|t| - 1], code)
         + (if Counts(t[|t| - 1]) && t[|t| - 1].code == code then t[|t| - 1].count else 0.0)
  }

  /** An entry adds its count to its own code, if both are positive. */
  lemma EntryAdds(t: seq<Entry>, e: Entry, code: int)
    ensures CountOf([], code) == 0.0
    ensures CountOf(t + [e], code)
         == CountOf(t, code) + if e.code == code && code >= 1 && e.count > 0.0 then e.count else 0.0
  {
    assert (t + [e])[..|t|] == t;
  }

  /** Strictly ascending codes, all codes and counts positive. */
  predicate Canonical(t: seq<Entry>) {
    && (forall i :: 0 <= i < |t| ==> Counts(t[i]))
    && (forall i, j :: 0 <= i < j < |t| ==> t[i].code < t[j].code)
  }

  function Lookup(m: map<int, real>, code: int): real {
    if code in m then m[code] else 0.0
  }

  /** The table of the codes of `codes`, with the counts of `m`. */
  function TableOf(codes: seq<int>, m: map<int, real>): (t: seq<Entry>)
    requires forall i :: 0 <= i < |codes| ==> codes[i] in m
    ensures |t| == |codes| && forall i :: 0 <= i < |t| ==> t[i] == Entry(codes[i], m[codes[i]])
  {
    seq(|codes|, i requires 0 <= i < |codes| => Entry(codes[i], m[codes[i]]))
  }

  /** Adding the entries of one table into the map. */
  method AddEntries(m: map<int, real>, t: seq<Entry>) returns (r: map<int, real>)
    requires forall c :: c in m ==> c > 0 && m[c] > 0.0
    ensures forall c :: c in r ==> c > 0 && r[c] > 0.0
    ensures forall c :: Lookup(r, c) == Lookup(m, c) + CountOf(t, c)
  {
    r := m;
    for i := 0 to |t|
      invariant forall c :: c in r ==> c > 0 && r[c] > 0.0
      invariant forall c :: Lookup(r, c) == Lookup(m, c) + CountOf(t[..i], c)
    {
      assert t[..i + 1][..i] == t[..i];
      ghost var was := r;
      if t[i].code > 0 && t[i].count > 0.0 {
        r := r[t[i].code := Lookup(r, t[i].code) + t[i].count];
      }
      forall c ensures Lookup(r, c) == Lookup(m, c) + CountOf(t[..i + 1], c) {
        assert Lookup(was, c) == Lookup(m, c) + CountOf(t[..i], c);
      }
    }
    assert t[..|t|] == t;
  }

  lemma {:induction false} CountOfTable(codes: seq<int>, m: map<int, real>, code: int)
    requires Ascending(codes) && forall i :: 0 <= i < |codes| ==> codes[i] in m && codes[i] > 0 && m[codes[i]] > 0.0
    ensures CountOf(TableOf(codes, m), code) == if code in codes then m[code] else 0.0
  {
    if codes != [] {
      var before, last := codes[..|codes| - 1], codes[|codes| - 1];
      CountOfTable(before, m, code);
      assert codes == before + [last];
      assert TableOf(codes, m)[..|codes| - 1] == TableOf(before, m);
      assert last !in before;
    }
  }

  lemma SomeMember(s: set<int>)
    ensures s == {} || exists c :: c in s
  {
    if forall c :: c !in s {
      assert s == {};
    }
  }

  /** mergeStatusCodeCounts: a canonical table whose count for every code is the sum of both. */
  method MergeStatusCodeCounts(target: seq<Entry>, values: seq<Entry>) returns (result: seq<Entry>)
    requires Canonical(target)
    ensures Canonical(result)
    ensures forall c :: CountOf(result, c) == CountOf(target, c) + CountOf(values, c)
  {
    if |values| == 0 {
      return target;
    }
    var merged: map<int, real> := map[];
    merged := AddEntries(merged, target);
    merged := AddEntries(merged, values);
    var codes: seq<int> := [];
    var remaining := merged.Keys;
    while remaining != {}
      invariant remaining <= merged.Keys
      invariant forall c :: c in codes <==> c in merged.Keys - remaining
      invariant forall i, j :: 0 <= i < j < |codes| ==> codes[i] != codes[j]
      decreases |remaining|
    {
      SomeMember(remaining);
      var c :| c in remaining;
      assert c !in codes;
      codes := codes + [c];
      remaining := remaining - {c};
    }
    SortDistinct(codes);
    codes := SortInts(codes);
    assert forall i :: 0 <= i < |codes| ==> codes[i] in codes;
    result := TableOf(codes, merged);
    forall c ensures CountOf(result, c) == CountOf(target, c) + CountOf(values, c) {
      CountOfTable(codes, merged, c);
      assert Lookup(merged, c) == CountOf(target, c) + CountOf(values, c);
    }
  }

  lemma {:induction false} CanonicalCount(t: seq<Entry>, i: nat)
    requires Canonical(t) && i < |t|
    ensures CountOf(t, t[i].code) == t[i].count
  {
    var n := |t| - 1;
    if i < n {
      CanonicalCount(t[..n], i);
    } else {
      AbsentCount(t[..n], t[n].code);
    }
  }

  lemma {:induction false} AbsentCount(t: seq<Entry>, code: int)
    requires forall i :: 0 <= i < |t| ==> t[i].code != code
    ensures CountOf(t, code) == 0.0
  {
    if t != [] {
      AbsentCount(t[..|t| - 1], code);
    }
  }

  function Codes(t: seq<Entry>): (c: seq<int>)
    ensures |c| == |t| && forall i :: 0 <= i < |t| ==> c[i] == t[i].code
  {
    seq(|t|, i requires 0 <= i < |t| => t[i].code)
  }

  lemma CodesListed(t: seq<Entry>, code: int)
    requires Canonical(t)
    ensures code in Codes(t) <==> CountOf(t, code) > 0.0
  {
    if code in Codes(t) {
      var i :| 0 <= i < |t| && t[i].code == code;
      CanonicalCount(t, i);
    } else {
      forall i | 0 <= i < |t| ensures t[i].code != code {
        assert Codes(t)[i] in Codes(t);
      }
      AbsentCount(t, code);
    }
  }

  /** A canonical table is determined by its counts. */
  lemma CanonicalUnique(a: seq<Entry>, b: seq<Entry>)
    requires Canonical(a) && Canonical(b) && forall c :: CountOf(a, c) == CountOf(b, c)
    ensures a == b
  {
    forall c ensures c in Codes(a) <==> c in Codes(b) {
      CodesListed(a, c);
      CodesListed(b, c);
    }
    AscendingUnique(Codes(a), Codes(b));
    forall i | 0 <= i < |a| ensures a[i] == b[i] {
      assert Codes(a)[i] == Codes(b)[i];
      CanonicalCount(a, i);
      CanonicalCount(b, i);
    }
  }

  /** appendUniqueStatusCodes: the positive codes of both lists, each once, ascending. */
  method AppendUniqueStatusCodes(target: seq<int>, values: seq<int>) returns (result: seq<int>)
    requires Ascending(target)
    ensures Ascending(result)
    ensures forall c :: c in result <==> c in target || (c > 0 && c in values)
  {
    if |values| == 0 {
      return target;
    }
    result := target;
    for i := 0 to |values|
      invariant forall a, b :: 0 <= a < b < |result| ==> result[a] != result[b]
      invariant forall c :: c in result <==> c in target || (c > 0 && c in values[..i])
    {
      assert values[..i + 1] == values[..i] + [values[i]];
      if values[i] > 0 && values[i] !in result {
        result := result + [values[i]];
      }
    }
    assert values[..|values|] == values;
    SortDistinct(result);
    result := SortInts(result);
  }
}
