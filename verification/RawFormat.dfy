// The raw artifact text: one headed block per worker, and the two parsers that
// take it apart again.
module RawFormat {
  import opened Text

  const MARKER: string := "\n--- "

  datatype Entry = Entry(name: string, content: string)

  function Block(e: Entry): string {
    e.name + " ---\n" + e.content
  }

  /** Every block behind "--- ", with an empty line between two blocks. */
  function Render(entries: seq<Entry>): string {
    if entries == [] then ""
    else "--- " + Body(entries)
  }

  function Body(entries: seq<Entry>): string
    requires entries != []
  {
    if |entries| == 1 then Block(entries[0])
    else Block(entries[0]) + "\n\n--- " + Body(entries[1..])
  }

  // ------------------------------------------------ splitting

  /** strings.Index. */
  function Index(s: string, sep: string): int {
    if |s| < |sep| then -1
    else if s[..|sep|] == sep then 0
    else if s == "" then -1
    else
      var rest := Index(s[1..], sep);
      if rest < 0 then -1 else rest + 1
  }

  lemma SliceBehindFirst(s: string, j: nat, n: nat)
    requires 1 <= j && j + n <= |s|
    ensures s[1..][j - 1..j - 1 + n] == s[j..j + n]
  {
  }

  lemma {:induction false} IndexExact(s: string, sep: string)
    ensures -1 <= Index(s, sep)
    ensures Index(s, sep) >= 0 ==>
              && OccursAt(s, sep, Index(s, sep))
              && forall j :: 0 <= j < Index(s, sep) ==> !OccursAt(s, sep, j)
    ensures Index(s, sep) == -1 ==> forall j :: !OccursAt(s, sep, j)
  {
    if |s| >= |sep| && s[..|sep|] != sep && s != "" {
      IndexExact(s[1..], sep);
      assert s[0..0 + |sep|] == s[..|sep|];
      forall j | 1 <= j <= |s| - |sep| ensures OccursAt(s, sep, j) <==> OccursAt(s[1..], sep, j - 1) {
        SliceBehindFirst(s, j, |sep|);
      }
    } else if |s| >= |sep| && s[..|sep|] == sep {
      assert s[0..0 + |sep|] == sep;
    }
  }

  /** strings.Split for the marker. */
  function Split(s: string): seq<string> {
    IndexExact(s, MARKER);
    var i := Index(s, MARKER);
    if i < 0 then [s] else [s[..i]] + Split(s[i + 5..])
  }

  /** No marker begins anywhere in the text. */
  predicate Free(s: string) {
    !Contains(s, MARKER)
  }

  lemma FreeExact(s: string)
    ensures Free(s) <==> forall j :: !OccursAt(s, MARKER, j)
  {
    if Free(s) {
      forall j ensures !OccursAt(s, MARKER, j) {
      }
    }
  }

  lemma NoNewlineInside(s: string, j: int, k: int)
    requires OccursAt(s, MARKER, j) && j < k < j + 5
    ensures s[k] != '\n'
  {
    assert s[k] == s[j..j + 5][k - j];
  }

  /** The marker has its only newline in front, so it cannot straddle a seam in
      front of another one: splitting undoes joining. */
  lemma SplitFirst(p: string, rest: string)
    requires Free(p)
    ensures Split(p + MARKER + rest) == [p] + Split(rest)
  {
    var s := p + MARKER + rest;
    FreeExact(p);
    IndexExact(s, MARKER);
    assert s[|p|..|p| + 5] == MARKER;
    assert OccursAt(s, MARKER, |p|);
    assert s[|p|] == '\n';
    forall j | 0 <= j < |p| ensures !OccursAt(s, MARKER, j) {
      if j + 5 <= |p| {
        assert s[j..j + 5] == p[j..j + 5];
        assert !OccursAt(p, MARKER, j);
      } else if OccursAt(s, MARKER, j) {
        NoNewlineInside(s, j, |p|);
      }
    }
    assert Index(s, MARKER) == |p|;
    assert s[..|p|] == p && s[|p| + 5..] == rest;
  }

  lemma SplitLast(p: string)
    requires Free(p)
    ensures Split(p) == [p]
  {
    FreeExact(p);
    IndexExact(p, MARKER);
  }

  // ------------------------------------------------ texts without a marker

  predicate NoNewline(s: string) {
    '\n' !in s
  }

  lemma FreePrefix(s: string, n: nat)
    requires Free(s) && n <= |s|
    ensures Free(s[..n])
  {
    FreeExact(s);
    forall j | 0 <= j <= n - 5 ensures !OccursAt(s[..n], MARKER, j) {
      assert s[..n][j..j + 5] == s[j..j + 5];
      assert !OccursAt(s, MARKER, j);
    }
  }

  lemma FreeBehindHeader(header: string, s: string)
    requires NoNewline(header) && Free(s)
    ensures Free(header + s)
  {
    var t := header + s;
    FreeExact(s);
    forall j | 0 <= j <= |t| - 5 ensures !OccursAt(t, MARKER, j) {
      if j < |header| {
        assert t[j..j + 5][0] == header[j];
      } else {
        assert t[j..j + 5] == s[j - |header|..j - |header| + 5];
        assert !OccursAt(s, MARKER, j - |header|);
      }
    }
  }

  lemma FreeWithNewline(s: string)
    requires Free(s)
    ensures Free(s + "\n")
  {
    var t := s + "\n";
    FreeExact(s);
    forall j | 0 <= j <= |t| - 5 ensures !OccursAt(t, MARKER, j) {
      if j + 5 == |t| {
        assert t[j..j + 5][4] == '\n';
      } else {
        assert t[j..j + 5] == s[j..j + 5];
        assert !OccursAt(s, MARKER, j);
      }
    }
  }

  // ------------------------------------------------ what a block must be

  predicate NameOk(name: string) {
    name != "" && Trimmed(name) && NoNewline(name)
  }

  /** A body that no marker can be read into, not even at its start. */
  predicate ContentOk(content: string) {
    !Blank(content) && Free("\n" + content)
  }

  predicate EntryOk(e: Entry) {
    NameOk(e.name) && ContentOk(e.content)
  }

  lemma BlockFree(e: Entry)
    requires EntryOk(e)
    ensures Free(Block(e)) && Free("--- " + Block(e))
  {
    var header := e.name + " ---";
    FreeBehindHeader(header, "\n" + e.content);
    assert Block(e) == header + ("\n" + e.content);
    FreeBehindHeader("--- " + header, "\n" + e.content);
    assert "--- " + Block(e) == ("--- " + header) + ("\n" + e.content);
  }

  // ------------------------------------------------ trimming the whole text

  lemma {:induction false} TrimRightAppend(a: string, b: string)
    requires TrimRight(b) != ""
    ensures TrimRight(a + b) == a + TrimRight(b)
    decreases |b|
  {
    if IsSpace(b[|b| - 1]) {
      assert (a + b)[..|a + b| - 1] == a + b[..|b| - 1];
      TrimRightAppend(a, b[..|b| - 1]);
    }
  }

  lemma NotBlankRight(s: string)
    requires !Blank(s)
    ensures TrimRight(s) != ""
  {
    TrimRightShape(s);
    if TrimRight(s) == "" {
      AllSpaceBlank(s);
    }
  }

  lemma {:induction false} AllSpaceBlank(s: string)
    requires forall i :: 0 <= i < |s| ==> IsSpace(s[i])
    ensures Blank(s)
  {
    if s != "" {
      assert forall i :: 0 <= i < |s[1..]| ==> s[1..][i] == s[i + 1];
      AllSpaceBlank(s[1..]);
    }
  }

  /** White space behind a text does not change what trimming leaves of it. */
  lemma TrimBehind(s: string, space: string)
    requires !Blank(s)
    requires forall i :: 0 <= i < |space| ==> IsSpace(space[i])
    ensures TrimSpace(s + space) == TrimSpace(s)
  {
    var a, b := TrimSpaceShape(s);
    assert s + space == s[..a] + s[a..b] + (s[b..] + space);
    forall i | 0 <= i < |s[b..] + space| ensures IsSpace((s[b..] + space)[i]) {
      if i < |s| - b { assert (s[b..] + space)[i] == s[b + i]; }
    }
    TrimOuter(s[..a], s[a..b], s[b..] + space);
  }

  lemma TrimOfTrimRight(s: string)
    requires !Blank(s)
    ensures TrimSpace(TrimRight(s)) == TrimSpace(s)
  {
    TrimRightShape(s);
    NotBlankRight(s);
    var r := TrimRight(s);
    if Blank(r) {
      var a, b := TrimSpaceShape(r);
    }
    TrimBehind(r, s[|r|..]);
    assert r + s[|r|..] == s;
  }

  /** The last block with its trailing white space gone. */
  function Shortened(e: Entry): Entry {
    Entry(e.name, TrimRight(e.content))
  }

  lemma ShortenedBlock(e: Entry)
    requires EntryOk(e)
    ensures TrimRight(Block(e)) == Block(Shortened(e))
    ensures TrimRight(Block(e)) != ""
    ensures Free(Block(Shortened(e))) && Free("--- " + Block(Shortened(e)))
  {
    NotBlankRight(e.content);
    TrimRightAppend(e.name + " ---\n", e.content);
    TrimRightShape(e.content);
    BlockFree(e);
    var k := |Block(Shortened(e))|;
    assert Block(Shortened(e)) == Block(e)[..k];
    FreePrefix(Block(e), k);
    assert "--- " + Block(Shortened(e)) == ("--- " + Block(e))[..k + 4];
    FreePrefix("--- " + Block(e), k + 4);
  }

  lemma OpenedOne(opening: string, e: Entry)
    requires EntryOk(e) && (opening == "" || opening == "--- ")
    ensures Split(opening + Block(Shortened(e))) == [opening + Block(Shortened(e))]
  {
    ShortenedBlock(e);
    assert "" + Block(Shortened(e)) == Block(Shortened(e));
    SplitLast(opening + Block(Shortened(e)));
  }

  lemma OpenedFirst(opening: string, e: Entry, rest: string)
    requires EntryOk(e) && (opening == "" || opening == "--- ")
    ensures Split(opening + (Block(e) + "\n\n--- " + rest)) == [opening + (Block(e) + "\n")] + Split(rest)
  {
    var b := Block(e);
    BlockFree(e);
    assert "" + b == b;
    FreeWithNewline(opening + b);
    SplitFirst(opening + b + "\n", rest);
    OpenedShape(opening, b, rest);
  }

  lemma OpenedShape(opening: string, b: string, rest: string)
    ensures opening + b + "\n" + MARKER + rest == opening + (b + "\n\n--- " + rest)
    ensures opening + b + "\n" == opening + (b + "\n")
  {
    assert "\n" + MARKER == "\n\n--- ";
  }

  /** Trimming the text trims its last block. */
  lemma {:induction false} TrimBody(entries: seq<Entry>)
    requires entries != [] && forall e :: e in entries ==> EntryOk(e)
    ensures TrimRight(Body(entries)) != ""
    ensures TrimRight(Body(entries))
            == if |entries| == 1 then Block(Shortened(entries[0]))
              else Block(entries[0]) + "\n\n--- " + TrimRight(Body(entries[1..]))
  {
    if |entries| == 1 {
      ShortenedBlock(entries[0]);
    } else {
      TrimBody(entries[1..]);
      TrimRightAppend(Block(entries[0]) + "\n\n--- ", Body(entries[1..]));
    }
  }

  lemma PlainFirst(e: Entry, rest: string)
    requires EntryOk(e)
    ensures Split(Block(e) + "\n\n--- " + rest) == [Block(e) + "\n"] + Split(rest)
  {
    OpenedFirst("", e, rest);
    assert "" + (Block(e) + "\n\n--- " + rest) == Block(e) + "\n\n--- " + rest;
    assert "" + (Block(e) + "\n") == Block(e) + "\n";
  }

  /** Splitting the right-trimmed body of a text yields its blocks. */
  lemma {:induction false} SplitBody(entries: seq<Entry>)
    requires entries != [] && forall e :: e in entries ==> EntryOk(e)
    ensures Split(TrimRight(Body(entries))) == Pieces(entries)
  {
    TrimBody(entries);
    if |entries| == 1 {
      OpenedOne("", entries[0]);
      assert "" + Block(Shortened(entries[0])) == Block(Shortened(entries[0]));
    } else {
      SplitBody(entries[1..]);
      PlainFirst(entries[0], TrimRight(Body(entries[1..])));
    }
  }

  lemma TrimRendered(entries: seq<Entry>)
    requires entries != [] && forall e :: e in entries ==> EntryOk(e)
    ensures TrimSpace(Render(entries)) == "--- " + TrimRight(Body(entries))
  {
    assert Render(entries)[0] == '-';
    TrimBody(entries);
    TrimRightAppend("--- ", Body(entries));
  }

  /** The whole text starts with the marker's "--- ", which stays on the first block. */
  lemma SplitRendered(entries: seq<Entry>)
    requires entries != [] && forall e :: e in entries ==> EntryOk(e)
    ensures TrimSpace(Render(entries)) != ""
    ensures Split(TrimSpace(Render(entries))) == ["--- " + Pieces(entries)[0]] + Pieces(entries)[1..]
  {
    TrimRendered(entries);
    TrimBody(entries);
    if |entries| == 1 {
      OpenedOne("--- ", entries[0]);
    } else {
      SplitBody(entries[1..]);
      OpenedFirst("--- ", entries[0], TrimRight(Body(entries[1..])));
    }
  }

  /** The blocks as the splitter returns them. */
  function Pieces(entries: seq<Entry>): (r: seq<string>)
    requires entries != []
    ensures |r| == |entries|
  {
    if |entries| == 1 then [Block(Shortened(entries[0]))]
    else [Block(entries[0]) + "\n"] + Pieces(entries[1..])
  }
}
