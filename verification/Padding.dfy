// Padding a JSON object to an exact number of bytes. Strings here are byte strings: one char stands for one byte.
module Padding {
  import opened Instants
  import opened Text

  /** A field's value: a string, kept decoded, or anything else, kept as it is serialized. */
  datatype Value = Text(s: string) | Raw(json: string)

  datatype Field = Field(key: string, value: Value)

  /** What the JSON decoder produced: an object, as its fields in key order, or another value as serialized. */
  datatype Parsed = Object(fields: seq<Field>) | Scalar(json: string)

  datatype Outcome =
    | Content(json: string)
    | NotAString      // the reserved field is there and is not a string
    | TargetTooSmall
    | NotAnObject
    | Unsized         // the corrections did not converge
    | OutOfRange      // a slice bound below zero: the original stops with a run-time error

  const PAD: string := "_shiva_padding"

  // ------------------------------------------------ serialization

  function HexDigit(d: nat): char
    requires d < 16
  {
    "0123456789abcdef"[d]
  }

  /** One byte as json.Marshal writes it inside a string; bytes of longer characters pass through. */
  function EscapeByte(c: char): string {
    if c == '"' then "\\\""
    else if c == '\\' then "\\\\"
    else if c == '\n' then "\\n"
    else if c == '\r' then "\\r"
    else if c == '\t' then "\\t"
    else if c < ' ' || c == '<' || c == '>' || c == '&' then
      "\\u00" + [HexDigit(c as int / 16 % 16), HexDigit(c as int % 16)]
    else [c]
  }

  /** The line and paragraph separators, three bytes each, are escaped too. */
  predicate Separator(s: string) {
    |s| >= 3 && s[0] == '\U{E2}' && s[1] == '\U{80}' && (s[2] == '\U{A8}' || s[2] == '\U{A9}')
  }

  function Head(s: string): string
    requires s != ""
  {
    if Separator(s) then "\\u202" + [HexDigit(s[2] as int % 16)] else EscapeByte(s[0])
  }

  function Width(s: string): (n: nat)
    requires s != ""
    ensures 0 < n <= |s|
  {
    if Separator(s) then 3 else 1
  }

  function Escape(s: string): string {
    if s == "" then "" else Head(s) + Escape(s[Width(s)..])
  }

  function Quoted(s: string): string {
    "\"" + Escape(s) + "\""
  }

  function Encoded(v: Value): string {
    match v
    case Text(s) => Quoted(s)
    case Raw(json) => json
  }

  function Entry(f: Field): string {
    Quoted(f.key) + ":" + Encoded(f.value)
  }

  function Entries(fields: seq<Field>): string {
    if fields == [] then ""
    else if |fields| == 1 then Entry(fields[0])
    else Entry(fields[0]) + "," + Entries(fields[1..])
  }

  function Serialize(fields: seq<Field>): string {
    "{" + Entries(fields) + "}"
  }

  // ------------------------------------------------ objects

  predicate Has(fields: seq<Field>, key: string) {
    exists i :: 0 <= i < |fields| && fields[i].key == key
  }

  /** The keys of a Go map are distinct. */
  predicate Distinct(fields: seq<Field>) {
    forall i, j :: 0 <= i < j < |fields| ==> fields[i].key != fields[j].key
  }

  function Lookup(fields: seq<Field>, key: string): (v: Value)
    requires Has(fields, key)
    ensures Field(key, v) in fields
  {
    if fields[0].key == key then fields[0].value
    else
      assert Has(fields[1..], key) by {
        var i :| 0 <= i < |fields| && fields[i].key == key;
        assert fields[1..][i - 1].key == key;
      }
      Lookup(fields[1..], key)
  }

  function Replace(fields: seq<Field>, key: string, v: Value): (r: seq<Field>)
    ensures |r| == |fields|
    ensures forall i :: 0 <= i < |r| ==> r[i] == if fields[i].key == key then Field(key, v) else fields[i]
  {
    if fields == [] then []
    else [if fields[0].key == key then Field(key, v) else fields[0]] + Replace(fields[1..], key, v)
  }

  function Insert(fields: seq<Field>, f: Field): seq<Field> {
    if fields == [] || Less(f.key, fields[0].key) then [f] + fields else [fields[0]] + Insert(fields[1..], f)
  }

  /** Assigning to a key of the map, seen in key order. */
  function Put(fields: seq<Field>, key: string, v: Value): seq<Field> {
    if Has(fields, key) then Replace(fields, key, v) else Insert(fields, Field(key, v))
  }

  function Xs(n: int): string {
    seq(if n < 0 then 0 else n, i => 'x')
  }

  // ------------------------------------------------ sizes

  lemma Regroup(a: string, b: string, c: string)
    ensures a + (b + c) == (a + b) + c
  {
  }

  lemma {:induction false} EscapeAppend(s: string, n: nat)
    ensures Escape(s + Xs(n)) == Escape(s) + Xs(n)
  {
    var t := s + Xs(n);
    if s == "" {
      EscapeXs(n);
      assert t == Xs(n);
    } else {
      var w := Width(s);
      HeadUnchanged(s, n);
      EscapeAppend(s[w..], n);
      assert t[w..] == s[w..] + Xs(n);
      Regroup(Head(s), Escape(s[w..]), Xs(n));
    }
  }

  /** Padding never completes a separator that was cut short. */
  lemma HeadUnchanged(s: string, n: nat)
    requires s != ""
    ensures Head(s + Xs(n)) == Head(s) && Width(s + Xs(n)) == Width(s)
  {
    assert (s + Xs(n))[0] == s[0];
    assert Separator(s + Xs(n)) <==> Separator(s);
  }

  lemma {:induction false} EscapeXs(n: nat)
    ensures Escape(Xs(n)) == Xs(n)
  {
    if n > 0 {
      EscapeXs(n - 1);
      assert Xs(n)[1..] == Xs(n - 1) && Xs(n) == ['x'] + Xs(n - 1);
    }
  }

  function Comma(rest: seq<Field>): nat {
    if rest == [] then 0 else 1
  }

  lemma EntriesCons(f: Field, rest: seq<Field>)
    ensures |Entries([f] + rest)| == |Entry(f)| + Comma(rest) + |Entries(rest)|
  {
    assert ([f] + rest)[1..] == rest;
  }

  lemma {:induction false} InsertSize(fields: seq<Field>, f: Field)
    ensures |Entries(Insert(fields, f))| == |Entries(fields)| + |Entry(f)| + Comma(fields)
    ensures Insert(fields, f) != []
  {
    if fields == [] || Less(f.key, fields[0].key) {
      EntriesCons(f, fields);
    } else {
      InsertSize(fields[1..], f);
      EntriesCons(fields[0], Insert(fields[1..], f));
      EntriesCons(fields[0], fields[1..]);
      assert [fields[0]] + fields[1..] == fields;
    }
  }

  lemma {:induction false} ReplaceAbsentKey(fields: seq<Field>, key: string, v: Value)
    requires !Has(fields, key)
    ensures Replace(fields, key, v) == fields
  {
  }

  lemma EntrySize(key: string, v: Value)
    ensures |Entry(Field(key, v))| == |Quoted(key)| + 1 + |Encoded(v)|
  {
  }

  lemma {:induction false} ReplaceSize(fields: seq<Field>, key: string, was: Value, v: Value)
    requires Distinct(fields) && Field(key, was) in fields
    ensures |Entries(Replace(fields, key, v))| == |Entries(fields)| + |Encoded(v)| - |Encoded(was)|
  {
    var first, rest := fields[0], fields[1..];
    var after := Replace(rest, key, v);
    assert fields == [first] + rest;
    EntriesCons(first, rest);
    if first.key == key {
      assert !Has(rest, key);
      ReplaceAbsentKey(rest, key, v);
      EntriesCons(Field(key, v), rest);
      EntrySize(key, v);
      EntrySize(key, was);
      assert Replace(fields, key, v) == [Field(key, v)] + rest;
    } else {
      assert Field(key, was) in rest;
      ReplaceSize(rest, key, was, v);
      EntriesCons(first, after);
      assert Replace(fields, key, v) == [first] + after;
    }
  }

  /** Setting the padding to `text`: the size of the new field when it is absent, or the change of the old one. */
  function Overhead(fields: seq<Field>): nat {
    19 + Comma(fields)
  }

  lemma PadEntrySize(n: nat)
    ensures |Entry(Field(PAD, Text(Xs(n))))| == 19 + n
  {
    EscapeXs(n);
    var p := PAD;
    assert |p| == 14;
    PlainEscape(p);
  }

  predicate Plain(c: char) {
    c == '_' || 'a' <= c <= 'z'
  }

  lemma PlainHead(s: string)
    requires s != "" && Plain(s[0])
    ensures Head(s) == [s[0]] && Width(s) == 1
  {
  }

  /** A string of letters and underscores is written as it is. */
  lemma {:induction false} PlainEscape(s: string)
    requires forall i :: 0 <= i < |s| ==> Plain(s[i])
    ensures Escape(s) == s
  {
    if s != "" {
      PlainHead(s);
      PlainEscape(s[1..]);
      assert Escape(s) == Head(s) + Escape(s[Width(s)..]);
      assert s == [s[0]] + s[1..];
    }
  }

  /** The object with `n` bytes of padding: appended to the string that is there, or as a new field. */
  function Padded(fields: seq<Field>, n: nat): seq<Field>
    requires Has(fields, PAD) ==> Lookup(fields, PAD).Text?
  {
    Put(fields, PAD, Text((if Has(fields, PAD) then Lookup(fields, PAD).s else "") + Xs(n)))
  }

  lemma PaddedSize(fields: seq<Field>, n: nat)
    requires Distinct(fields) && (Has(fields, PAD) ==> Lookup(fields, PAD).Text?)
    ensures |Serialize(Padded(fields, n))|
         == |Serialize(fields)| + n + (if Has(fields, PAD) then 0 else Overhead(fields))
  {
    if Has(fields, PAD) {
      var pad := Lookup(fields, PAD);
      EscapeAppend(pad.s, n);
      ReplaceSize(fields, PAD, pad, Text(pad.s + Xs(n)));
    } else {
      assert "" + Xs(n) == Xs(n);
      PadEntrySize(n);
      InsertSize(fields, Field(PAD, Text(Xs(n))));
    }
  }

  // ------------------------------------------------ the two procedures

  /** Everything sizeObjectPayload can end in, told from the input alone. */
  function Sized(fields: seq<Field>, target: int): Outcome
    requires Distinct(fields)
  {
    var actual := |Serialize(fields)|;
    if Has(fields, PAD) && Lookup(fields, PAD).Raw? then NotAString
    else if actual > target then TargetTooSmall
    else if actual == target then Content(Serialize(fields))
    else if Has(fields, PAD) then Content(Serialize(Padded(fields, target - actual)))
    else if target - actual < Overhead(fields) then OutOfRange
    else Content(Serialize(Padded(fields, target - actual - Overhead(fields))))
  }

  // ------------------------------------------------ what the outcome means

  ghost predicate Sorted(fields: seq<Field>) {
    forall i, j :: 0 <= i < j < |fields| ==> Less(fields[i].key, fields[j].key)
  }

  /** The padding that is there already. */
  function OldPadding(fields: seq<Field>): string {
    if Has(fields, PAD) && Lookup(fields, PAD).Text? then Lookup(fields, PAD).s else ""
  }

  /** `g` has the same other fields, and one padding field, whose text continues the old one with letters x. The order
      of the keys is kept. */
  ghost predicate Extends(fields: seq<Field>, g: seq<Field>) {
    && (forall f: Field :: f.key != PAD ==> (f in g <==> f in fields))
    && Distinct(g) && (Sorted(fields) ==> Sorted(g))
    && exists n: nat :: PadIs(g, OldPadding(fields) + Xs(n))
  }

  /** When which outcome is due: an error for a padding field that is not a string, or for an object that is too large;
      an object of exactly the requested size that extends the given one if it has that size, has a padding field, or
      is short by at least the bytes of an empty one; and a run-time error otherwise. */
  ghost predicate Sizing(fields: seq<Field>, target: int, outcome: Outcome) {
    var size := |Serialize(fields)|;
    var blocked := exists json :: Field(PAD, Raw(json)) in fields;
    var present := exists text :: Field(PAD, Text(text)) in fields;
    var least := if fields == [] then 19 else 20;
    && (outcome == NotAString <==> blocked)
    && (outcome == TargetTooSmall <==> !blocked && target < size)
    && (outcome.Content? <==> !blocked && size <= target && (size == target || present || size + least <= target))
    && (outcome == OutOfRange <==> !blocked && !present && size < target < size + least)
    && (outcome.Content? ==>
          && |outcome.json| == target
          && (size == target ==> outcome.json == Serialize(fields))
          && (size < target ==> exists g :: Extends(fields, g) && outcome.json == Serialize(g)))
  }

  lemma {:induction false} LookupField(fields: seq<Field>, key: string, v: Value)
    requires Distinct(fields)
    ensures Field(key, v) in fields <==> Has(fields, key) && Lookup(fields, key) == v
  {
    if Field(key, v) in fields {
      var i :| 0 <= i < |fields| && fields[i] == Field(key, v);
      assert Has(fields, key);
      var j :| 0 <= j < |fields| && fields[j] == Field(key, Lookup(fields, key));
    }
  }

  lemma {:induction false} InsertSorted(fields: seq<Field>, f: Field)
    requires Sorted(fields) && !Has(fields, f.key)
    ensures Sorted(Insert(fields, f))
    ensures forall g :: g in Insert(fields, f) <==> g == f || g in fields
  {
    if fields != [] {
      LessTotal(f.key, fields[0].key);
      assert fields[0].key != f.key;
      if Less(f.key, fields[0].key) {
        forall j | 0 < j < |fields| ensures Less(f.key, fields[j].key) {
          LessTransitive(f.key, fields[0].key, fields[j].key);
        }
      } else {
        var rest := fields[1..];
        forall i | 0 <= i < |rest| ensures rest[i].key != f.key { assert rest[i] == fields[i + 1]; }
        InsertSorted(rest, f);
        var after := Insert(rest, f);
        forall j | 0 <= j < |after| ensures Less(fields[0].key, after[j].key) {
          assert after[j] in after;
          if after[j] != f {
            var k :| 0 <= k < |rest| && rest[k] == after[j];
            assert rest[k] == fields[k + 1];
          }
        }
        assert fields == [fields[0]] + rest;
      }
    }
  }

  lemma {:induction false} InsertDistinct(fields: seq<Field>, f: Field)
    requires Distinct(fields) && !Has(fields, f.key)
    ensures Distinct(Insert(fields, f))
  {
    if fields != [] && !Less(f.key, fields[0].key) {
      var rest := fields[1..];
      forall i | 0 <= i < |rest| ensures rest[i].key != f.key { assert rest[i] == fields[i + 1]; }
      InsertDistinct(rest, f);
      var after := Insert(rest, f);
      forall j | 0 <= j < |after| ensures after[j].key != fields[0].key {
        InsertKeeps(rest, f, after[j]);
        assert after[j] in after;
        if after[j] != f {
          var k :| 0 <= k < |rest| && rest[k] == after[j];
          assert rest[k] == fields[k + 1];
        }
      }
    }
  }

  /** The text of the one padding field. */
  ghost predicate PadIs(g: seq<Field>, text: string) {
    forall f: Field :: f in g && f.key == PAD <==> f == Field(PAD, Text(text))
  }

  lemma PaddedOrdered(fields: seq<Field>, n: nat)
    requires Distinct(fields) && (Has(fields, PAD) ==> Lookup(fields, PAD).Text?)
    ensures Distinct(Padded(fields, n)) && (Sorted(fields) ==> Sorted(Padded(fields, n)))
  {
    var f := Field(PAD, Text((if Has(fields, PAD) then Lookup(fields, PAD).s else "") + Xs(n)));
    if !Has(fields, PAD) {
      InsertDistinct(fields, f);
      if Sorted(fields) {
        InsertSorted(fields, f);
      }
    }
  }

  lemma PaddedPad(fields: seq<Field>, n: nat)
    requires Distinct(fields) && (Has(fields, PAD) ==> Lookup(fields, PAD).Text?)
    ensures PadIs(Padded(fields, n), OldPadding(fields) + Xs(n))
  {
    var pad := Field(PAD, Text(OldPadding(fields) + Xs(n)));
    var after := Padded(fields, n);
    if Has(fields, PAD) {
      var i :| 0 <= i < |fields| && fields[i].key == PAD;
      assert after[i] == pad;
    } else {
      InsertKeeps(fields, pad, pad);
    }
    forall f: Field ensures f in after && f.key == PAD <==> f == pad {
      PaddingTouchesNothingElse(fields, n, f);
    }
  }

  lemma PaddedExtends(fields: seq<Field>, n: nat)
    requires Distinct(fields) && (Has(fields, PAD) ==> Lookup(fields, PAD).Text?)
    ensures Extends(fields, Padded(fields, n))
  {
    forall f: Field ensures f.key != PAD ==> (f in Padded(fields, n) <==> f in fields) {
      PaddingTouchesNothingElse(fields, n, f);
    }
    PaddedOrdered(fields, n);
    PaddedPad(fields, n);
  }

  lemma SizedMeaning(fields: seq<Field>, target: int)
    requires Distinct(fields)
    ensures Sizing(fields, target, Sized(fields, target))
  {
    if Has(fields, PAD) {
      LookupField(fields, PAD, Lookup(fields, PAD));
    }
    forall v ensures Field(PAD, v) in fields <==> Has(fields, PAD) && Lookup(fields, PAD) == v {
      LookupField(fields, PAD, v);
    }
    SizedExactly(fields, target);
    var shortfall := target - |Serialize(fields)|;
    if Sized(fields, target).Content? && shortfall > 0 {
      PaddedExtends(fields, if Has(fields, PAD) then shortfall else shortfall - Overhead(fields));
    }
  }

  /** sizeObjectPayload; a correction is one round of its loop. */
  method SizeObjectPayload(fields: seq<Field>, target: int) returns (outcome: Outcome, corrections: nat)
    requires Distinct(fields)
    ensures outcome == Sized(fields, target) && Sizing(fields, target, outcome)
    ensures corrections <= 1
    ensures corrections == 1 ==> !Has(fields, PAD)
  {
    outcome, corrections := SizeFields(fields, target);
    SizedMeaning(fields, target);
  }

  method SizeFields(fields: seq<Field>, target: int) returns (outcome: Outcome, corrections: nat)
    requires Distinct(fields)
    ensures outcome == Sized(fields, target)
    ensures corrections <= 1
    ensures corrections == 1 ==> !Has(fields, PAD)
  {
    corrections := 0;
    if Has(fields, PAD) && Lookup(fields, PAD).Raw? {
      return NotAString, 0;
    }
    var content := Serialize(fields);
    if |content| == target {
      return Content(content), 0;
    }
    if |content| > target {
      return TargetTooSmall, 0;
    }
    var original := if Has(fields, PAD) then Lookup(fields, PAD).s else "";
    var shortfall := target - |content|;
    var padding := original + Xs(shortfall);
    PaddedSize(fields, shortfall);
    content := Serialize(Put(fields, PAD, Text(padding)));
    ghost var absent := !Has(fields, PAD);
    var guard := 0;
    while |content| != target && guard < 8
      invariant guard == corrections <= 1
      invariant guard == 0 ==> padding == original + Xs(shortfall) && content == Serialize(Padded(fields, shortfall))
      invariant guard == 1 ==> absent && shortfall >= Overhead(fields)
                               && content == Serialize(Padded(fields, shortfall - Overhead(fields)))
                               && |content| == target
      decreases 8 - guard
    {
      var diff := target - |content|;
      assert absent && diff == -(Overhead(fields) as int) && padding == Xs(shortfall);
      if diff > 0 {
        padding := padding + Xs(diff);
      } else {
        if |padding| + diff < 0 {
          return OutOfRange, 0;
        }
        padding := padding[..|padding| + diff];
      }
      ghost var kept := shortfall - Overhead(fields);
      assert padding == Xs(kept) && original + Xs(kept) == Xs(kept);
      PaddedSize(fields, kept);
      content := Serialize(Put(fields, PAD, Text(padding)));
      guard := guard + 1;
      corrections := corrections + 1;
    }
    if |content| != target {
      return Unsized, corrections;
    }
    return Content(content), corrections;
  }

  /** Whatever comes out as content has exactly the requested size, and the corrections always converge. */
  lemma SizedExactly(fields: seq<Field>, target: int)
    requires Distinct(fields)
    ensures Sized(fields, target).Content? ==> |Sized(fields, target).json| == target
    ensures Sized(fields, target) != Unsized
  {
    var r, shortfall := Sized(fields, target), target - |Serialize(fields)|;
    if r.Content? && shortfall > 0 {
      var n := if Has(fields, PAD) then shortfall else shortfall - Overhead(fields);
      PaddedSize(fields, n);
      assert r == Content(Serialize(Padded(fields, n)));
    }
  }

  /** The original runs out of a slice's range exactly when there is no padding field and the shortfall does not even
      cover an empty one. */
  lemma OutOfRangeIff(fields: seq<Field>, target: int)
    requires Distinct(fields)
    ensures Sized(fields, target).OutOfRange?
       <==> !Has(fields, PAD) && 0 < target - |Serialize(fields)| < (if fields == [] then 19 else 20)
  {
  }

  lemma OneFieldSize(n: nat)
    ensures |Serialize([Field("a", Text(Xs(n)))])| == 8 + n
  {
    EscapeXs(n);
    PlainEscape("a");
    EntrySize("a", Text(Xs(n)));
    assert Entries([Field("a", Text(Xs(n)))]) == Entry(Field("a", Text(Xs(n))));
  }

  /** An object of 1014 bytes cannot be padded to 1024: the ten bytes missing do not hold the field. */
  lemma TenBytesShort()
    ensures var fields := [Field("a", Text(Xs(1006)))];
            Distinct(fields) && |Serialize(fields)| == 1014 && Sized(fields, 1024) == OutOfRange
  {
    var fields := [Field("a", Text(Xs(1006)))];
    OneFieldSize(1006);
    var p := PAD;
    assert |p| == 14;
    assert !Has(fields, PAD) by {
      assert fields[0].key == "a" && |"a"| == 1;
    }
    OutOfRangeIff(fields, 1024);
  }

  lemma {:induction false} InsertKeeps(fields: seq<Field>, f: Field, g: Field)
    ensures g in Insert(fields, f) <==> g == f || g in fields
  {
    if fields != [] && !Less(f.key, fields[0].key) {
      InsertKeeps(fields[1..], f, g);
      assert fields == [fields[0]] + fields[1..];
    }
  }

  /** Padding changes no other field, and the padding string only by appending to it. */
  lemma PaddingTouchesNothingElse(fields: seq<Field>, n: nat, g: Field)
    requires Distinct(fields) && (Has(fields, PAD) ==> Lookup(fields, PAD).Text?)
    ensures g.key != PAD ==> (g in Padded(fields, n) <==> g in fields)
    ensures g.key == PAD && g in Padded(fields, n) ==>
              g.value == Text((if Has(fields, PAD) then Lookup(fields, PAD).s else "") + Xs(n))
  {
    var text := Text((if Has(fields, PAD) then Lookup(fields, PAD).s else "") + Xs(n));
    if Has(fields, PAD) {
      var after := Replace(fields, PAD, text);
      if g in fields && g.key != PAD {
        var i :| 0 <= i < |fields| && fields[i] == g;
        assert after[i] == g;
      }
    } else {
      InsertKeeps(fields, Field(PAD, text), g);
    }
  }

  /** buildExactPayloadContent; target 0 means no target. */
  method BuildExactPayloadContent(parsed: Parsed, target: nat) returns (outcome: Outcome)
    requires parsed.Object? ==> Distinct(parsed.fields)
    ensures var content := if parsed.Object? then Serialize(parsed.fields) else parsed.json;
            && (target == 0 || |content| == target ==> outcome == Content(content))
            && (target > 0 ==> (outcome.Content? ==> |outcome.json| == target))
            && (0 < target < |content| ==> outcome == TargetTooSmall)
            && (target > |content| ==>
                  if parsed.Object? then Sizing(parsed.fields, target, outcome) else outcome == NotAnObject)
  {
    var content := if parsed.Object? then Serialize(parsed.fields) else parsed.json;
    if target == 0 || |content| == target {
      return Content(content);
    }
    if |content| > target {
      return TargetTooSmall;
    }
    if parsed.Scalar? {
      return NotAnObject;
    }
    var corrections;
    outcome, corrections := SizeObjectPayload(parsed.fields, target);
    SizedExactly(parsed.fields, target);
  }

  // ------------------------------------------------ what the escapes mean

  function HexValue(c: char): Option<nat> {
    if '0' <= c <= '9' then Some(c as int - '0' as int)
    else if 'a' <= c <= 'f' then Some(c as int - 'a' as int + 10)
    else if 'A' <= c <= 'F' then Some(c as int - 'A' as int + 10)
    else None
  }

  function HexNumber(s: string): Option<nat> {
    if s == "" then Some(0)
    else
      match (HexNumber(s[..|s| - 1]), HexValue(s[|s| - 1]))
      case (Some(high), Some(low)) => Some(16 * high + low)
      case _ => None
  }

  /** The bytes of a character below 128, and of the characters U+2028 and U+2029; no other is ever escaped. */
  function Bytes(code: nat): Option<string> {
    if code < 128 then Some([code as char])
    else if code == 0x2028 then Some("\U{E2}\U{80}\U{A8}")
    else if code == 0x2029 then Some("\U{E2}\U{80}\U{A9}")
    else None
  }

  /** The characters of a JSON string between its quotes (section 7 of RFC 8259): what one escape or byte stands for,
      and how long it is. */
  function Unit(t: string): Option<(string, nat)>
    requires t != ""
  {
    if t[0] == '\"' || t[0] < ' ' then None
    else if t[0] != '\\' then Some(([t[0]], 1))
    else if |t| < 2 then None
    else if t[1] == '\"' || t[1] == '\\' || t[1] == '/' then Some(([t[1]], 2))
    else if t[1] == 'n' then Some(("\n", 2))
    else if t[1] == 'r' then Some(("\r", 2))
    else if t[1] == 't' then Some(("\t", 2))
    else if t[1] == 'u' && |t| >= 6 then
      match HexNumber(t[2..6])
      case None => None
      case Some(code) => if Bytes(code).Some? then Some((Bytes(code).value, 6)) else None
    else None
  }

  function Unescape(t: string): Option<string>
    decreases |t|
  {
    if t == "" then Some("")
    else
      match Unit(t)
      case None => None
      case Some(u) =>
        if u.1 == 0 || |t| < u.1 then None
        else
          match Unescape(t[u.1..])
          case None => None
          case Some(rest) => Some(u.0 + rest)
  }

  lemma HexPair(n: nat)
    requires n < 128
    ensures HexNumber("00" + [HexDigit(n / 16 % 16), HexDigit(n % 16)]) == Some(n)
  {
    var s := "00" + [HexDigit(n / 16 % 16), HexDigit(n % 16)];
    HexDigitValue(n / 16 % 16);
    HexDigitValue(n % 16);
    assert s[..3] == "00" + [HexDigit(n / 16 % 16)] && s[..3][..2] == "00" && "00"[..1] == "0" && "0"[..0] == "";
    assert HexNumber("0") == Some(0) && HexNumber("00") == Some(0);
    assert HexNumber(s[..3]) == Some(n / 16 % 16);
  }

  lemma HexDigitValue(d: nat)
    requires d < 16
    ensures HexValue(HexDigit(d)) == Some(d)
  {
  }

  /** One head reads back as the bytes it stands for. */
  lemma HeadReadsBack(s: string, rest: string)
    requires s != ""
    ensures Unit(Head(s) + rest) == Some((s[..Width(s)], |Head(s)|))
  {
    var t := Head(s) + rest;
    var c := s[0];
    if Separator(s) {
      SeparatorReadsBack(s, rest);
    } else if c != '\"' && c != '\\' && c != '\n' && c != '\r' && c != '\t'
              && (c < ' ' || c == '<' || c == '>' || c == '&') {
      ControlReadsBack(c, rest);
      assert s[..1] == [c];
    } else {
      assert s[..1] == [c];
      assert t[0] == Head(s)[0];
      assert |Head(s)| == 2 ==> t[1] == Head(s)[1];
    }
  }

  lemma ControlReadsBack(c: char, rest: string)
    requires c < ' ' || c == '<' || c == '>' || c == '&'
    ensures Unit("\\u00" + [HexDigit(c as int / 16 % 16), HexDigit(c as int % 16)] + rest) == Some(([c], 6))
  {
    var hex := "00" + [HexDigit(c as int / 16 % 16), HexDigit(c as int % 16)];
    var t := "\\u00" + [HexDigit(c as int / 16 % 16), HexDigit(c as int % 16)] + rest;
    assert t == "\\u" + hex + rest;
    assert t[0] == '\\' && t[1] == 'u' && t[2..6] == hex;
    HexPair(c as int);
  }

  lemma SeparatorNumber(digit: int)
    requires digit == 8 || digit == 9
    ensures HexNumber("202" + [HexDigit(digit)]) == Some(0x2020 + digit)
  {
    HexDigitValue(digit);
    var hex := "202" + [HexDigit(digit)];
    assert hex[..3] == "202" && "202"[..2] == "20" && "20"[..1] == "2" && "2"[..0] == "";
    assert HexNumber("2") == Some(2) && HexNumber("20") == Some(32) && HexNumber("202") == Some(514);
  }

  lemma SeparatorReadsBack(s: string, rest: string)
    requires Separator(s)
    ensures Unit(Head(s) + rest) == Some((s[..3], 6))
  {
    var t := Head(s) + rest;
    var hex := "202" + [HexDigit(s[2] as int % 16)];
    assert t == "\\u" + hex + rest;
    assert t[0] == '\\' && t[1] == 'u' && t[2..6] == hex;
    SeparatorNumber(s[2] as int % 16);
    assert s[..3] == [s[0], s[1], s[2]];
  }

  /** Escaping loses nothing: a JSON reader gets the text back. */
  lemma {:induction false} EscapeReadsBack(s: string)
    ensures Unescape(Escape(s)) == Some(s)
  {
    if s != "" {
      var w := Width(s);
      var rest := Escape(s[w..]);
      var t := Head(s) + rest;
      HeadReadsBack(s, rest);
      EscapeReadsBack(s[w..]);
      assert t[|Head(s)|..] == rest;
      assert s[..w] + s[w..] == s;
    }
  }

  predicate Harmless(t: string) {
    forall i :: 0 <= i < |t| ==> t[i] >= ' ' && t[i] != '<' && t[i] != '>' && t[i] != '&'
  }

  lemma HeadIsSafe(s: string)
    requires s != ""
    ensures Harmless(Head(s))
  {
  }

  /** And no text ends up with a control character or looking like markup. */
  lemma {:induction false} EscapeIsSafe(s: string)
    ensures Harmless(Escape(s))
  {
    if s != "" {
      HeadIsSafe(s);
      EscapeIsSafe(s[Width(s)..]);
    }
  }

  /** The text of one entry. */
  lemma EntryShape(f: Field)
    ensures Serialize([]) == "{}" && Serialize([f]) == "{" + Entry(f) + "}"
    ensures Entry(f) == "\"" + Escape(f.key) + "\":" + Encoded(f.value)
    ensures Encoded(f.value) == if f.value.Raw? then f.value.json else "\"" + Escape(f.value.s) + "\""
  {
  }

  /** One more entry stands behind a comma. */
  lemma {:induction false} EntriesShape(fields: seq<Field>, f: Field)
    requires fields != []
    ensures Entries(fields + [f]) == Entries(fields) + "," + Entry(f)
  {
    var all := fields + [f];
    if |fields| == 1 {
      assert all[1..] == [f];
    } else {
      EntriesShape(fields[1..], f);
      assert all[1..] == fields[1..] + [f];
      assert all[0] == fields[0];
    }
  }
}
