// The two parsers of the raw artifact text, and the round trip through the printer.
module RawParser {
  import opened Instants
  import opened Text
  import opened RawFormat

  datatype Lines = OneLine | TwoLines(head: string, rest: string)

  /** strings.SplitN(s, "\n", 2). */
  function SplitLine(s: string): Lines {
    IndexExact(s, "\n");
    var i := Index(s, "\n");
    if i < 0 then OneLine else TwoLines(s[..i], s[i + 1..])
  }

  datatype Parsed = Parsed(name: string, body: string)

  function SummaryHeader(lines: Lines): Option<Parsed> {
    match lines
    case OneLine => None
    case TwoLines(head, rest) =>
      var name := TrimSuffix(TrimSpace(head), " ---");
      var body := TrimSpace(rest);
      if name == "" || body == "" then None else Some(Parsed(name, body))
  }

  /** Header and body of one block of a worker summary. */
  function SummaryBlock(block: string, first: bool): Option<Parsed> {
    SummaryHeader(SplitLine(TrimPrefix(if first then block else "--- " + block, "--- ")))
  }

  function AuthHeader(lines: Lines): Option<Parsed> {
    match lines
    case OneLine => None
    case TwoLines(head, rest) =>
      var name := TrimSuffix(TrimPrefix(TrimSpace(head), "--- "), " ---");
      var body := TrimSpace(rest);
      if name == "" || body == "" then None else Some(Parsed(name, body))
  }

  /** The same for auth summaries, where a first block that already starts with "--- "
      gets a second one. */
  function AuthBlock(block: string, first: bool): Option<Parsed> {
    AuthHeader(SplitLine(if first && !StartsWith(block, "--- ") then TrimPrefix(block, "--- ") else "--- " + block))
  }

  datatype Named<K> = Named(name: string, summary: K)

  function Decoded<K>(p: Option<Parsed>, decode: string -> Option<K>): seq<Named<K>> {
    if p.None? then []
    else
      match decode(p.value.body)
      case None => []
      case Some(k) => [Named(p.value.name, k)]
  }

  /** The decodable blocks among the first `n`. */
  function Collected<K>(blocks: seq<string>, n: nat, parse: (string, bool) -> Option<Parsed>,
                        decode: string -> Option<K>): seq<Named<K>>
    requires n <= |blocks|
  {
    if n == 0 then []
    else Collected(blocks, n - 1, parse, decode) + Decoded(parse(blocks[n - 1], n == 1), decode)
  }

  function ParseRaw<K>(content: string, parse: (string, bool) -> Option<Parsed>,
                       decode: string -> Option<K>): Option<seq<Named<K>>> {
    var trimmed := TrimSpace(content);
    if trimmed == "" then None
    else
      var blocks := Split(trimmed);
      var all := Collected(blocks, |blocks|, parse, decode);
      if all == [] then None else Some(all)
  }

  /** The loop both parsers run over the blocks. */
  method CollectBlocks<K>(blocks: seq<string>, parse: (string, bool) -> Option<Parsed>, decode: string -> Option<K>)
    returns (summaries: seq<Named<K>>)
    ensures summaries == Collected(blocks, |blocks|, parse, decode)
  {
    summaries := [];
    for idx := 0 to |blocks|
      invariant summaries == Collected(blocks, idx, parse, decode)
    {
      var parsed := parse(blocks[idx], idx == 0);
      if parsed.None? {
        continue;
      }
      var summary := decode(parsed.value.body);
      if summary.None? {
        continue;
      }
      summaries := summaries + [Named(parsed.value.name, summary.value)];
    }
  }

  method ParseRawSummaryContent<K>(content: string, decode: string -> Option<K>) returns (r: Option<seq<Named<K>>>)
    ensures r == ParseRaw(content, SummaryBlock, decode)
  {
    var trimmed := TrimSpace(content);
    if trimmed == "" {
      return None;
    }
    var summaries := CollectBlocks(Split(trimmed), SummaryBlock, decode);
    return if summaries == [] then None else Some(summaries);
  }

  method ParseRawAuthSummaryContent<K>(content: string, decode: string -> Option<K>) returns (r: Option<seq<Named<K>>>)
    ensures r == ParseRaw(content, AuthBlock, decode)
  {
    var trimmed := TrimSpace(content);
    if trimmed == "" {
      return None;
    }
    var summaries := CollectBlocks(Split(trimmed), AuthBlock, decode);
    return if summaries == [] then None else Some(summaries);
  }

  // ------------------------------------------------ one block back

  lemma SplitLineAt(head: string, rest: string)
    requires NoNewline(head)
    ensures SplitLine(head + "\n" + rest) == TwoLines(head, rest)
  {
    var s := head + "\n" + rest;
    IndexExact(s, "\n");
    assert s[|head|..|head| + 1] == "\n";
    assert OccursAt(s, "\n", |head|);
    forall j | 0 <= j < |head| ensures !OccursAt(s, "\n", j) {
      assert s[j..j + 1][0] == head[j];
    }
    assert s[..|head|] == head && s[|head| + 1..] == rest;
  }

  lemma HeaderName(name: string)
    requires NameOk(name)
    ensures TrimSpace(name + " ---") == name + " ---"
    ensures TrimSuffix(name + " ---", " ---") == name
    ensures TrimSpace("--- " + name + " ---") == "--- " + name + " ---"
    ensures TrimSuffix("--- " + name + " ---", " ---") == "--- " + name
    ensures NoNewline(name + " ---") && NoNewline("--- " + name + " ---")
  {
    var header := name + " ---";
    assert header[..|header| - 4] == name && header[|header| - 4..] == " ---";
    TrimmedIsFixed(header);
    var marked := "--- " + name + " ---";
    assert marked[..|marked| - 4] == "--- " + name && marked[|marked| - 4..] == " ---";
    TrimmedIsFixed(marked);
  }

  /** A block whose body differs from the content by trailing white space only. */
  ghost predicate BlockFor(e: Entry, piece: string) {
    exists c :: piece == e.name + " ---\n" + c && TrimSpace(c) == TrimSpace(e.content)
  }

  lemma {:induction false} PiecesAreBlocks(entries: seq<Entry>, i: nat)
    requires i < |entries| && forall e :: e in entries ==> EntryOk(e)
    ensures BlockFor(entries[i], Pieces(entries)[i])
  {
    var e := entries[0];
    assert EntryOk(e);
    if i > 0 {
      PiecesAreBlocks(entries[1..], i - 1);
    } else if |entries| == 1 {
      TrimOfTrimRight(e.content);
      assert Pieces(entries)[0] == e.name + " ---\n" + TrimRight(e.content);
    } else {
      TrimBehind(e.content, "\n");
      assert Pieces(entries)[0] == e.name + " ---\n" + (e.content + "\n");
    }
  }

  lemma MarkedText(piece: string)
    ensures TrimPrefix("--- " + piece, "--- ") == piece
  {
    var marked := "--- " + piece;
    assert marked[..4] == "--- " && marked[4..] == piece;
  }

  lemma SummaryHeaderBack(e: Entry, c: string)
    requires EntryOk(e) && TrimSpace(c) == TrimSpace(e.content)
    ensures SummaryHeader(TwoLines(e.name + " ---", c)) == Some(Parsed(e.name, TrimSpace(e.content)))
  {
    HeaderName(e.name);
  }

  lemma SummaryBlockBack(e: Entry, piece: string, first: bool)
    requires EntryOk(e) && BlockFor(e, piece)
    ensures SummaryBlock(if first then "--- " + piece else piece, first) == Some(Parsed(e.name, TrimSpace(e.content)))
  {
    var c :| piece == e.name + " ---\n" + c && TrimSpace(c) == TrimSpace(e.content);
    MarkedText(piece);
    NamedLines(e.name, c);
    SummaryHeaderBack(e, c);
  }

  lemma NamedLines(name: string, c: string)
    requires NameOk(name)
    ensures SplitLine(name + " ---\n" + c) == TwoLines(name + " ---", c)
  {
    HeaderName(name);
    SplitLineAt(name + " ---", c);
    assert name + " ---\n" + c == (name + " ---") + "\n" + c;
  }

  lemma AuthLinesFirst(name: string, c: string)
    requires NameOk(name)
    ensures SplitLine("--- " + ("--- " + (name + " ---\n" + c))) == TwoLines("--- " + ("--- " + name + " ---"), c)
  {
    var header := "--- " + ("--- " + name + " ---");
    DoubleHeader(name);
    SplitLineAt(header, c);
    assert "--- " + ("--- " + (name + " ---\n" + c)) == header + "\n" + c;
  }

  lemma AuthBlockFirst(e: Entry, c: string)
    requires EntryOk(e) && TrimSpace(c) == TrimSpace(e.content)
    ensures AuthBlock("--- " + (e.name + " ---\n" + c), true) == Some(Parsed("--- " + e.name, TrimSpace(e.content)))
  {
    var block := "--- " + (e.name + " ---\n" + c);
    assert block[..4] == "--- ";
    AuthLinesFirst(e.name, c);
    AuthHeaderFirst(e, c);
  }

  lemma AuthHeaderFirst(e: Entry, c: string)
    requires EntryOk(e) && TrimSpace(c) == TrimSpace(e.content)
    ensures AuthHeader(TwoLines("--- " + ("--- " + e.name + " ---"), c))
            == Some(Parsed("--- " + e.name, TrimSpace(e.content)))
  {
    HeaderName(e.name);
    DoubleHeader(e.name);
  }

  lemma AuthHeaderNext(e: Entry, c: string)
    requires EntryOk(e) && TrimSpace(c) == TrimSpace(e.content)
    ensures AuthHeader(TwoLines("--- " + e.name + " ---", c)) == Some(Parsed(e.name, TrimSpace(e.content)))
  {
    HeaderName(e.name);
    var header := "--- " + e.name + " ---";
    assert header[..4] == "--- " && header[4..] == e.name + " ---";
  }

  lemma AuthBlockNext(e: Entry, c: string)
    requires EntryOk(e) && TrimSpace(c) == TrimSpace(e.content)
    ensures AuthBlock(e.name + " ---\n" + c, false) == Some(Parsed(e.name, TrimSpace(e.content)))
  {
    HeaderName(e.name);
    var header := "--- " + e.name + " ---";
    SplitLineAt(header, c);
    assert "--- " + (e.name + " ---\n" + c) == header + "\n" + c;
    AuthHeaderNext(e, c);
  }

  lemma AuthBlockBack(e: Entry, piece: string, first: bool)
    requires EntryOk(e) && BlockFor(e, piece)
    ensures AuthBlock(if first then "--- " + piece else piece, first)
            == Some(Parsed(if first then "--- " + e.name else e.name, TrimSpace(e.content)))
  {
    var c :| piece == e.name + " ---\n" + c && TrimSpace(c) == TrimSpace(e.content);
    if first {
      AuthBlockFirst(e, c);
    } else {
      AuthBlockNext(e, c);
    }
  }

  lemma DoubleHeader(name: string)
    requires NameOk(name)
    ensures var header := "--- " + ("--- " + name + " ---");
            && NoNewline(header) && TrimSpace(header) == header
            && TrimPrefix(header, "--- ") == "--- " + name + " ---"
  {
    var header := "--- " + ("--- " + name + " ---");
    assert header[..4] == "--- " && header[4..] == "--- " + name + " ---";
    TrimmedIsFixed(header);
  }

  // ------------------------------------------------ round trips

  /** What parsing must give back, with each name rewritten as the parser does. */
  function Expected<K>(entries: seq<Entry>, n: nat, decode: string -> Option<K>, marksFirst: bool): seq<Named<K>>
    requires n <= |entries|
    requires forall e :: e in entries ==> decode(TrimSpace(e.content)).Some?
  {
    if n == 0 then []
    else
      var e := entries[n - 1];
      Expected(entries, n - 1, decode, marksFirst)
      + [Named(if marksFirst && n == 1 then "--- " + e.name else e.name, decode(TrimSpace(e.content)).value)]
  }

  /** What each block reads as. */
  function Readings(entries: seq<Entry>, marksFirst: bool): (ps: seq<Parsed>)
    ensures |ps| == |entries|
    ensures forall i :: 0 <= i < |ps| ==>
              ps[i] == Parsed(if marksFirst && i == 0 then "--- " + entries[i].name else entries[i].name,
                              TrimSpace(entries[i].content))
  {
    seq(|entries|, i requires 0 <= i < |entries| =>
      Parsed(if marksFirst && i == 0 then "--- " + entries[i].name else entries[i].name, TrimSpace(entries[i].content)))
  }

  ghost predicate AllRead(blocks: seq<string>, parse: (string, bool) -> Option<Parsed>, ps: seq<Parsed>) {
    && |blocks| == |ps|
    && forall i :: 0 <= i < |blocks| ==> parse(blocks[i], i == 0) == Some(ps[i])
  }

  lemma {:induction false} CollectedIs<K>(entries: seq<Entry>, blocks: seq<string>, n: nat, decode: string -> Option<K>,
                                          parse: (string, bool) -> Option<Parsed>, marksFirst: bool)
    requires forall e :: e in entries ==> decode(TrimSpace(e.content)).Some?
    requires AllRead(blocks, parse, Readings(entries, marksFirst)) && n <= |entries|
    ensures Collected(blocks, n, parse, decode) == Expected(entries, n, decode, marksFirst)
  {
    if n > 0 {
      CollectedIs(entries, blocks, n - 1, decode, parse, marksFirst);
      assert parse(blocks[n - 1], n - 1 == 0) == Some(Readings(entries, marksFirst)[n - 1]);
    }
  }

  /** Block `i` of a text: the marker is still in front of the first one. */
  function Opened(pieces: seq<string>, i: nat): string
    requires i < |pieces|
  {
    if i == 0 then "--- " + pieces[i] else pieces[i]
  }

  lemma AllReadIntro(blocks: seq<string>, pieces: seq<string>, parse: (string, bool) -> Option<Parsed>, ps: seq<Parsed>)
    requires pieces != [] && |pieces| == |ps| && blocks == ["--- " + pieces[0]] + pieces[1..]
    requires forall i: nat :: i < |pieces| ==> parse(Opened(pieces, i), i == 0) == Some(ps[i])
    ensures AllRead(blocks, parse, ps)
  {
    forall i | 0 <= i < |blocks| ensures parse(blocks[i], i == 0) == Some(ps[i]) {
      assert blocks[i] == Opened(pieces, i);
    }
  }

  lemma SummaryReads(entries: seq<Entry>, blocks: seq<string>)
    requires entries != [] && forall e :: e in entries ==> EntryOk(e)
    requires blocks == ["--- " + Pieces(entries)[0]] + Pieces(entries)[1..]
    ensures AllRead(blocks, SummaryBlock, Readings(entries, false))
  {
    var pieces, ps := Pieces(entries), Readings(entries, false);
    forall i: nat | i < |pieces| ensures SummaryBlock(Opened(pieces, i), i == 0) == Some(ps[i]) {
      SummaryReadsAt(entries, i);
    }
    AllReadIntro(blocks, pieces, SummaryBlock, ps);
  }

  lemma SummaryReadsAt(entries: seq<Entry>, i: nat)
    requires i < |entries| && forall e :: e in entries ==> EntryOk(e)
    ensures SummaryBlock(Opened(Pieces(entries), i), i == 0) == Some(Readings(entries, false)[i])
  {
    PiecesAreBlocks(entries, i);
    SummaryBlockBack(entries[i], Pieces(entries)[i], i == 0);
  }

  lemma AuthReadsAt(entries: seq<Entry>, i: nat)
    requires i < |entries| && forall e :: e in entries ==> EntryOk(e)
    ensures AuthBlock(Opened(Pieces(entries), i), i == 0) == Some(Readings(entries, true)[i])
  {
    PiecesAreBlocks(entries, i);
    AuthBlockBack(entries[i], Pieces(entries)[i], i == 0);
  }

  lemma AuthReads(entries: seq<Entry>, blocks: seq<string>)
    requires entries != [] && forall e :: e in entries ==> EntryOk(e)
    requires blocks == ["--- " + Pieces(entries)[0]] + Pieces(entries)[1..]
    ensures AllRead(blocks, AuthBlock, Readings(entries, true))
  {
    var pieces, ps := Pieces(entries), Readings(entries, true);
    forall i: nat | i < |pieces| ensures AuthBlock(Opened(pieces, i), i == 0) == Some(ps[i]) {
      AuthReadsAt(entries, i);
    }
    AllReadIntro(blocks, pieces, AuthBlock, ps);
  }

  lemma ParsedBack<K>(entries: seq<Entry>, decode: string -> Option<K>, parse: (string, bool) -> Option<Parsed>,
                      marksFirst: bool)
    requires entries != [] && forall e :: e in entries ==> EntryOk(e) && decode(TrimSpace(e.content)).Some?
    requires AllRead(Split(TrimSpace(Render(entries))), parse, Readings(entries, marksFirst))
    requires TrimSpace(Render(entries)) != ""
    ensures ParseRaw(Render(entries), parse, decode) == Some(Expected(entries, |entries|, decode, marksFirst))
  {
    CollectedIs(entries, Split(TrimSpace(Render(entries))), |entries|, decode, parse, marksFirst);
  }

  /** Printing and parsing undo each other: every worker comes back with its own name
      and its body trimmed, in the order printed. */
  lemma SummaryRoundTrip<K>(entries: seq<Entry>, decode: string -> Option<K>)
    requires forall e :: e in entries ==> EntryOk(e) && decode(TrimSpace(e.content)).Some?
    ensures ParseRaw(Render(entries), SummaryBlock, decode)
            == if entries == [] then None else Some(Expected(entries, |entries|, decode, false))
  {
    if entries != [] {
      SplitRendered(entries);
      SummaryReads(entries, Split(TrimSpace(Render(entries))));
      ParsedBack(entries, decode, SummaryBlock, false);
    }
  }

  /** The auth parser returns the same bodies in the same order, but leaves the
      marker on the first name. */
  lemma AuthRoundTrip<K>(entries: seq<Entry>, decode: string -> Option<K>)
    requires forall e :: e in entries ==> EntryOk(e) && decode(TrimSpace(e.content)).Some?
    ensures ParseRaw(Render(entries), AuthBlock, decode)
            == if entries == [] then None else Some(Expected(entries, |entries|, decode, true))
  {
    if entries != [] {
      SplitRendered(entries);
      AuthReads(entries, Split(TrimSpace(Render(entries))));
      ParsedBack(entries, decode, AuthBlock, true);
    }
  }

  // ------------------------------------------------ why JSON bodies are safe

  datatype Mode = Outside | InString | Escaped | AfterMinus

  /** The lexical state after `c`, or None where JSON does not allow it. */
  function NextMode(mode: Mode, c: char): Option<Mode> {
    match mode
    case Outside => Some(if c == '\"' then InString else if c == '-' then AfterMinus else Outside)
    case InString =>
      if c < ' ' then None
      else Some(if c == '\"' then Outside else if c == '\\' then Escaped else InString)
    case Escaped => if c < ' ' then None else Some(InString)
    case AfterMinus => if '0' <= c <= '9' then Some(Outside) else None
  }

  /** A lexical necessity of JSON (sections 6 and 7 of RFC 8259): strings hold no
      control characters, and outside of them a minus sign starts a number. */
  predicate Scan(mode: Mode, s: string)
    decreases |s|
  {
    if s == "" then mode.Outside?
    else
      var next := NextMode(mode, s[0]);
      next.Some? && Scan(next.value, s[1..])
  }

  predicate JsonLexical(s: string) {
    Scan(Outside, s)
  }

  /** What may stand between the quotes of a JSON string. */
  predicate Characters(s: string)
    decreases |s|
  {
    s == ""
    || (s[0] == '\\' && |s| >= 2 && s[1] >= ' ' && Characters(s[2..]))
    || (s[0] >= ' ' && s[0] != '\"' && s[0] != '\\' && Characters(s[1..]))
  }

  /** Strings are read over whatever they hold, so what follows one is judged as if it were not there; a minus sign
      wants a digit behind it; everything else is read over. */
  lemma ScanReadsOver(s: string, rest: string)
    requires Characters(s)
    ensures Scan(Outside, "\"" + s + "\"" + rest) <==> Scan(Outside, rest)
  {
    StringScans(s, rest);
    var text := "\"" + s + "\"" + rest;
    assert text[0] == '\"' && text[1..] == s + "\"" + rest;
  }

  lemma {:induction false} StringScans(s: string, rest: string)
    requires Characters(s)
    ensures Scan(InString, s + "\"" + rest) <==> Scan(Outside, rest)
    decreases |s|
  {
    var text := s + "\"" + rest;
    if s == "" {
      assert text[0] == '\"' && text[1..] == rest;
    } else if s[0] == '\\' {
      StringScans(s[2..], rest);
      assert text[0] == '\\' && text[1..][0] == s[1] && text[1..][1..] == s[2..] + "\"" + rest;
    } else {
      StringScans(s[1..], rest);
      assert text[0] == s[0] && text[1..] == s[1..] + "\"" + rest;
    }
  }

  lemma ScanOneOver(c: char, s: string)
    ensures c != '-' && c != '\"' ==> (Scan(Outside, [c] + s) <==> Scan(Outside, s))
    ensures Scan(Outside, "-" + s) <==> s != "" && '0' <= s[0] <= '9' && Scan(Outside, s[1..])
  {
    assert ([c] + s)[1..] == s && ("-" + s)[1..] == s;
  }

  lemma OpeningDashes(s: string)
    ensures StartsWith(s, "--- ") ==> s[0] == '-' && s[1..] != "" && s[1..][0] == '-'
  {
    if StartsWith(s, "--- ") {
      assert s[..4] == "--- ";
      assert s[1] == s[..4][1];
    }
  }

  lemma MarkerInFront(s: string)
    ensures OccursAt(s, MARKER, 0) ==> s[0] == '\n' && StartsWith(s[1..], "--- ")
  {
    if OccursAt(s, MARKER, 0) {
      assert s[0] == s[0..5][0];
      assert s[1..][..4] == s[0..5][1..] == "--- ";
    }
  }

  lemma {:induction false} ScanNoMarker(mode: Mode, s: string)
    requires Scan(mode, s)
    ensures mode.Outside? ==> !StartsWith(s, "--- ")
    ensures forall j :: !OccursAt(s, MARKER, j)
    decreases |s|
  {
    if s != "" {
      ScanNoMarker(NextMode(mode, s[0]).value, s[1..]);
      OpeningDashes(s);
      MarkerInFront(s);
      forall j | 1 <= j <= |s| - 5 ensures !OccursAt(s, MARKER, j) {
        SliceBehindFirst(s, j, 5);
        assert !OccursAt(s[1..], MARKER, j - 1);
      }
    }
  }

  lemma {:induction false} ScanPadded(mode: Mode, left: string, core: string, right: string)
    requires Scan(mode, core)
    requires forall i :: 0 <= i < |left| ==> IsSpace(left[i])
    requires forall i :: 0 <= i < |right| ==> IsSpace(right[i])
    requires left != "" ==> mode.Outside?
    ensures Scan(mode, left + core + right)
    decreases |left|
  {
    if left != "" {
      ScanPadded(Outside, left[1..], core, right);
      assert left[1..] + core + right == left[1..] + (core + right);
      Prepended(left, core + right);
      assert left + core + right == left + (core + right);
    } else {
      ScanBehind(mode, core, right);
      assert "" + core + right == core + right;
    }
  }

  lemma Prepended(left: string, rest: string)
    requires left != "" && IsSpace(left[0]) && Scan(Outside, left[1..] + rest)
    ensures Scan(Outside, left + rest)
  {
    assert (left + rest)[1..] == left[1..] + rest;
  }

  /** White space behind a text. */
  lemma {:induction false} ScanBehind(mode: Mode, core: string, right: string)
    requires Scan(mode, core)
    requires forall i :: 0 <= i < |right| ==> IsSpace(right[i])
    ensures Scan(mode, core + right)
    decreases |core| + |right|
  {
    var s := core + right;
    if core != "" {
      assert s[0] == core[0] && s[1..] == core[1..] + right;
      ScanBehind(NextMode(mode, core[0]).value, core[1..], right);
    } else if right != "" {
      assert s[0] == right[0] && s[1..] == "" + right[1..];
      ScanBehind(Outside, "", right[1..]);
    }
  }

  lemma PaddedMarkerFree(left: string, core: string, right: string)
    requires JsonLexical(core)
    requires forall i :: 0 <= i < |left| ==> IsSpace(left[i])
    requires forall i :: 0 <= i < |right| ==> IsSpace(right[i])
    ensures Free("\n" + (left + core + right))
  {
    ScanPadded(Outside, "\n" + left, core, right);
    var text := ("\n" + left) + core + right;
    assert text == "\n" + (left + core + right);
    ScanNoMarker(Outside, text);
    FreeExact(text);
  }

  /** A body that is JSON once trimmed cannot be cut by the marker. */
  lemma JsonContentOk(content: string)
    requires !Blank(content) && JsonLexical(TrimSpace(content))
    ensures ContentOk(content)
  {
    var a, b := TrimSpaceShape(content);
    assert content == content[..a] + content[a..b] + content[b..];
    PaddedMarkerFree(content[..a], content[a..b], content[b..]);
  }

  // ------------------------------------------------ which blocks come through

  /** Block `i` has a header and a body that the decoder accepts. */
  predicate Decodable<K>(blocks: seq<string>, i: nat, parse: (string, bool) -> Option<Parsed>,
                         decode: string -> Option<K>) {
    && i < |blocks|
    && parse(blocks[i], i == 0).Some?
    && decode(parse(blocks[i], i == 0).value.body).Some?
  }

  /** Its name and what the decoder makes of its body. */
  ghost predicate Yields<K>(blocks: seq<string>, i: nat, parse: (string, bool) -> Option<Parsed>,
                      decode: string -> Option<K>, out: Named<K>) {
    && Decodable(blocks, i, parse, decode)
    && out.name == parse(blocks[i], i == 0).value.name
    && Some(out.summary) == decode(parse(blocks[i], i == 0).value.body)
  }

  /** Each result stems from the block at its position. */
  ghost predicate Stems<K>(blocks: seq<string>, positions: seq<nat>, parse: (string, bool) -> Option<Parsed>,
                           decode: string -> Option<K>, all: seq<Named<K>>) {
    |positions| == |all| && forall k :: 0 <= k < |all| ==> Yields(blocks, positions[k], parse, decode, all[k])
  }

  ghost predicate AllFound<K>(blocks: seq<string>, n: nat, positions: seq<nat>,
                              parse: (string, bool) -> Option<Parsed>, decode: string -> Option<K>) {
    && (forall k :: 0 <= k < |positions| ==> positions[k] < n)
    && (forall k, l :: 0 <= k < l < |positions| ==> positions[k] < positions[l])
    && (forall i: nat :: i < n && Decodable(blocks, i, parse, decode) ==> i in positions)
  }

  lemma LastDecoded<K>(blocks: seq<string>, n: nat, parse: (string, bool) -> Option<Parsed>,
                       decode: string -> Option<K>)
    requires 0 < n <= |blocks|
    ensures var last := Decoded(parse(blocks[n - 1], n == 1), decode);
            && |last| == (if Decodable(blocks, n - 1, parse, decode) then 1 else 0)
            && (last != [] ==> Yields(blocks, n - 1, parse, decode, last[0]))
            && Collected(blocks, n, parse, decode) == Collected(blocks, n - 1, parse, decode) + last
  {
  }

  lemma FoundNext<K>(blocks: seq<string>, n: nat, before: seq<nat>, parse: (string, bool) -> Option<Parsed>,
                     decode: string -> Option<K>)
    requires n > 0 && AllFound(blocks, n - 1, before, parse, decode)
    ensures AllFound(blocks, n, if Decodable(blocks, n - 1, parse, decode) then before + [n - 1] else before,
                     parse, decode)
  {
    var positions := if Decodable(blocks, n - 1, parse, decode) then before + [n - 1] else before;
    assert forall i :: i in before ==> i in positions;
  }

  lemma StemsNext<K>(blocks: seq<string>, before: seq<nat>, all: seq<Named<K>>, i: nat, out: Named<K>,
                     parse: (string, bool) -> Option<Parsed>, decode: string -> Option<K>)
    requires Stems(blocks, before, parse, decode, all) && Yields(blocks, i, parse, decode, out)
    ensures Stems(blocks, before + [i], parse, decode, all + [out])
  {
    var positions, more := before + [i], all + [out];
    forall k | 0 <= k < |more| ensures Yields(blocks, positions[k], parse, decode, more[k]) {
      if k < |all| {
        assert Yields(blocks, before[k], parse, decode, all[k]);
      }
    }
  }

  lemma CollectedNext<K>(blocks: seq<string>, n: nat, before: seq<nat>, parse: (string, bool) -> Option<Parsed>,
                         decode: string -> Option<K>)
    requires 0 < n <= |blocks|
    requires Stems(blocks, before, parse, decode, Collected(blocks, n - 1, parse, decode))
    ensures Stems(blocks, if Decodable(blocks, n - 1, parse, decode) then before + [n - 1] else before,
                  parse, decode, Collected(blocks, n, parse, decode))
  {
    var last := Decoded(parse(blocks[n - 1], n == 1), decode);
    LastDecoded(blocks, n, parse, decode);
    if last == [] {
      assert Collected(blocks, n, parse, decode) == Collected(blocks, n - 1, parse, decode);
    } else {
      assert last == [last[0]];
      StemsNext(blocks, before, Collected(blocks, n - 1, parse, decode), n - 1, last[0], parse, decode);
    }
  }

  /** The parsers collect exactly the blocks that can be decoded, in their order; what cannot be is skipped, wherever
      it stands. */
  lemma {:induction false} CollectedExact<K>(blocks: seq<string>, n: nat, parse: (string, bool) -> Option<Parsed>,
                                             decode: string -> Option<K>) returns (positions: seq<nat>)
    requires n <= |blocks|
    ensures Stems(blocks, positions, parse, decode, Collected(blocks, n, parse, decode))
    ensures AllFound(blocks, n, positions, parse, decode)
  {
    positions := [];
    if n > 0 {
      var before := CollectedExact(blocks, n - 1, parse, decode);
      CollectedNext(blocks, n, before, parse, decode);
      FoundNext(blocks, n, before, parse, decode);
      positions := if Decodable(blocks, n - 1, parse, decode) then before + [n - 1] else before;
    }
  }
}
