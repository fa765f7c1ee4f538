/** The CSV text of wallet/src/contacts.rs: printing a contact, splitting text into lines, parsing a line. */
module Csv {
  import opened Wrappers

  /** Name, address and note of one line. */
  datatype Row = Row(name: string, address: string, note: Option<string>)

  /** Unicode White_Space, which `trim` removes. */
  predicate IsSpace(c: char) {
    var n := c as int;
    || 9 <= n <= 13 || n == 0x20 || n == 0x85 || n == 0xA0 || n == 0x1680 || 0x2000 <= n <= 0x200A
    || n == 0x2028 || n == 0x2029 || n == 0x202F || n == 0x205F || n == 0x3000
  }

  function TrimStart(s: string): string {
    if s != [] && IsSpace(s[0]) then TrimStart(s[1..]) else s
  }

  function TrimEnd(s: string): string {
    if s != [] && IsSpace(s[|s| - 1]) then TrimEnd(s[..|s| - 1]) else s
  }

  function Trim(s: string): string {
    TrimEnd(TrimStart(s))
  }

  /** `trim_matches('"')` */
  function TrimQuotes(s: string): string {
    if s != [] && s[0] == '"' then TrimQuotes(s[1..])
    else if s != [] && s[|s| - 1] == '"' then TrimQuotes(s[..|s| - 1])
    else s
  }

  /** The position of the first `c`, or the length of the text. */
  function Find(s: string, c: char): (k: nat)
    ensures k <= |s|
    ensures c !in s[..k] && (k < |s| ==> s[k] == c) && (k == |s| <==> c !in s)
  {
    if s == [] || s[0] == c then 0
    else
      var k := Find(s[1..], c);
      assert s[..1 + k] == [s[0]] + s[1..][..k];
      1 + k
  }

  /** What `splitn(3, ',')` gives: the text up to the first comma, up to the second, and the rest. */
  datatype Parts =
    | One(first: string)
    | Two(first: string, second: string)
    | Three(first: string, second: string, third: string)

  function SplitThree(s: string): Parts {
    var k := Find(s, ',');
    if k == |s| then One(s)
    else
      var rest := s[k + 1..];
      var m := Find(rest, ',');
      if m == |rest| then Two(s[..k], rest) else Three(s[..k], rest[..m], rest[m + 1..])
  }

  /** What `import_csv` reads from a line, or None where it skips the line. */
  function ParseLine(line: string): Option<Row> {
    var trimmed := Trim(line);
    var parts := SplitThree(trimmed);
    if trimmed == [] || parts.One? then None
    else
      var name, address := Trim(parts.first), Trim(parts.second);
      if name == [] || address == [] then None
      else Some(Row(name, address, if parts.Three? then Some(TrimQuotes(Trim(parts.third))) else None))
  }

  /** `replace('"', "\"\"")` */
  function DoubleQuotes(s: string): string {
    if s == [] then [] else (if s[0] == '"' then ['"', '"'] else [s[0]]) + DoubleQuotes(s[1..])
  }

  function Escaped(note: string): string {
    if ',' in note || '"' in note then ['"'] + DoubleQuotes(note) + ['"'] else note
  }

  /** The line `to_csv` writes, without its newline. */
  function RenderLine(name: string, address: string, note: string): string {
    name + [','] + (address + [','] + Escaped(note))
  }

  // ---- Trimming ----

  ghost predicate NoEdgeSpace(s: string) {
    s == [] || (!IsSpace(s[0]) && !IsSpace(s[|s| - 1]))
  }

  lemma {:induction false} TrimStartShape(s: string)
    ensures TrimStart(s) == [] || !IsSpace(TrimStart(s)[0])
    ensures |TrimStart(s)| <= |s| && TrimStart(s) == s[|s| - |TrimStart(s)|..]
  {
    if s != [] && IsSpace(s[0]) {
      TrimStartShape(s[1..]);
    }
  }

  lemma {:induction false} TrimEndShape(s: string)
    ensures TrimEnd(s) == [] || !IsSpace(TrimEnd(s)[|TrimEnd(s)| - 1])
    ensures |TrimEnd(s)| <= |s| && TrimEnd(s) == s[..|TrimEnd(s)|]
  {
    if s != [] && IsSpace(s[|s| - 1]) {
      TrimEndShape(s[..|s| - 1]);
      assert TrimEnd(s) == s[..|s| - 1][..|TrimEnd(s)|];
    }
  }

  lemma TrimShape(s: string)
    ensures NoEdgeSpace(Trim(s))
    ensures forall c :: c in Trim(s) ==> c in s
  {
    TrimStartShape(s);
    TrimEndShape(TrimStart(s));
    var t := Trim(s);
    if t != [] {
      assert t[0] == TrimStart(s)[0];
    }
  }

  lemma TrimKeepsIff(s: string)
    ensures Trim(s) == s <==> NoEdgeSpace(s)
  {
    TrimShape(s);
  }

  /** Trimming the end of a text stops at a non-space before the part trimmed. */
  lemma {:induction false} TrimEndOfSum(p: string, s: string)
    requires p != [] && !IsSpace(p[|p| - 1])
    ensures TrimEnd(p + s) == p + TrimEnd(s)
  {
    if s == [] {
      assert p + s == p;
    } else if IsSpace(s[|s| - 1]) {
      assert (p + s)[..|p + s| - 1] == p + s[..|s| - 1];
      TrimEndOfSum(p, s[..|s| - 1]);
    }
  }

  lemma {:induction false} TrimOfTrimEnd(s: string)
    ensures Trim(TrimEnd(s)) == Trim(s)
  {
    if s != [] && IsSpace(s[|s| - 1]) {
      TrimOfTrimEnd(s[..|s| - 1]);
      TrimDropsLast(s);
    }
  }

  lemma {:induction false} TrimDropsLast(s: string)
    requires s != [] && IsSpace(s[|s| - 1])
    ensures Trim(s) == Trim(s[..|s| - 1])
  {
    if IsSpace(s[0]) {
      if |s| > 1 {
        TrimDropsLast(s[1..]);
        assert s[1..][..|s| - 2] == s[..|s| - 1][1..];
      } else {
        assert s[1..] == [] && s[..0] == [];
      }
    }
  }

  // ---- Quotes ----

  lemma {:induction false} TrimQuotesShape(s: string)
    ensures var r := TrimQuotes(s); r == [] || (r[0] != '"' && r[|r| - 1] != '"')
    ensures |TrimQuotes(s)| <= |s|
  {
    if s != [] && s[0] == '"' {
      TrimQuotesShape(s[1..]);
    } else if s != [] && s[|s| - 1] == '"' {
      TrimQuotesShape(s[..|s| - 1]);
    }
  }

  lemma QuotesRemoved(s: string)
    requires s != [] && s[0] != '"' && s[|s| - 1] != '"'
    ensures TrimQuotes(['"'] + s + ['"']) == s
  {
    var q := ['"'] + s + ['"'];
    assert q[1..] == s + ['"'];
    assert (s + ['"'])[..|s|] == s;
    assert TrimQuotes(q) == TrimQuotes(s + ['"']) == TrimQuotes(s) == s;
  }

  lemma {:induction false} DoubledWithoutQuotes(s: string)
    requires '"' !in s
    ensures DoubleQuotes(s) == s
  {
    if s != [] {
      DoubledWithoutQuotes(s[1..]);
    }
  }

  lemma {:induction false} DoubledWithQuotes(s: string)
    ensures |DoubleQuotes(s)| >= |s| && ('"' in s ==> |DoubleQuotes(s)| > |s|)
    ensures s != [] ==>
              var d := DoubleQuotes(s);
              d != [] && d[0] == s[0] && d[|d| - 1] == s[|s| - 1]
  {
    if s != [] {
      DoubledWithQuotes(s[1..]);
    }
  }

  /** A note comes back from its escaped form exactly when it has no quotes, and either has a comma or no
      space at its edges. */
  ghost predicate NoteClean(note: string) {
    '"' !in note && (',' in note || NoEdgeSpace(note))
  }

  lemma NoteReadsBackIff(note: string)
    ensures TrimQuotes(Trim(Escaped(note))) == note <==> NoteClean(note)
  {
    var e := Escaped(note);
    if '"' in note {
      QuotedNeverReadsBack(note);
    } else if ',' in note {
      DoubledWithoutQuotes(note);
      assert !IsSpace('"');
      TrimKeepsIff(e);
      QuotesRemoved(note);
    } else {
      TrimShape(note);
      TrimKeepsIff(note);
      NoQuotesKept(Trim(note));
    }
  }

  lemma NoQuotesKept(s: string)
    requires '"' !in s
    ensures TrimQuotes(s) == s
  {
  }

  lemma QuotedNeverReadsBack(note: string)
    requires '"' in note
    ensures TrimQuotes(Trim(Escaped(note))) != note
  {
    var d := DoubleQuotes(note);
    var e := ['"'] + d + ['"'];
    DoubledWithQuotes(note);
    assert !IsSpace('"');
    TrimKeepsIff(e);
    TrimQuotesShape(e);
    if note[0] != '"' && note[|note| - 1] != '"' {
      QuotesRemoved(d);
    }
  }

  lemma EscapedWithoutQuotes(note: string)
    requires '"' !in note
    ensures Escaped(note) == if ',' in note then ['"'] + note + ['"'] else note
  {
    DoubledWithoutQuotes(note);
  }

  // ---- A whole line ----

  /** A field that survives between commas. */
  ghost predicate FieldClean(f: string) {
    f != [] && ',' !in f && NoEdgeSpace(f)
  }

  lemma SplitOfTwo(a: string, b: string, rest: string)
    requires ',' !in a && ',' !in b
    ensures SplitThree(a + [','] + (b + [','] + rest)) == Three(a, b, rest)
  {
    var tail := b + [','] + rest;
    var s := a + [','] + tail;
    FindAfter(a, ',', tail);
    assert s[..|a|] == a && s[|a| + 1..] == tail;
    FindAfter(b, ',', rest);
    assert tail[..|b|] == b && tail[|b| + 1..] == rest;
  }

  lemma FindAfter(a: string, c: char, rest: string)
    requires c !in a
    ensures Find(a + [c] + rest, c) == |a|
  {
    var s := a + [c] + rest;
    var k := Find(s, c);
    assert s[|a|] == c && c !in s[..k];
    assert forall i :: 0 <= i < |a| ==> s[i] == a[i];
  }

  lemma Regrouped(a: string, b: string, c: string)
    ensures (a + b) + c == a + (b + c)
  {
  }

  lemma TrimOfCleanLine(name: string, address: string, e: string)
    requires FieldClean(name)
    ensures Trim(name + [','] + (address + [','] + e)) == name + [','] + (address + [','] + TrimEnd(e))
  {
    var head := name + [','] + (address + [',']);
    assert !IsSpace(',') && head[|head| - 1] == ',' && head[0] == name[0];
    TrimEndOfSum(head, e);
    Regrouped(name + [','], address + [','], e);
    Regrouped(name + [','], address + [','], TrimEnd(e));
    assert TrimStart(head + e) == head + e;
  }

  /** With clean name and address the line parses to them and to the trimmed rest. */
  lemma CleanFieldsParse(name: string, address: string, e: string)
    requires FieldClean(name) && FieldClean(address)
    ensures ParseLine(name + [','] + (address + [','] + e)) == Some(Row(name, address, Some(TrimQuotes(Trim(e)))))
  {
    TrimOfCleanLine(name, address, e);
    SplitOfTwo(name, address, TrimEnd(e));
    TrimKeepsIff(name);
    TrimKeepsIff(address);
    TrimOfTrimEnd(e);
  }

  lemma ParsedFieldsClean(line: string)
    requires ParseLine(line).Some?
    ensures FieldClean(ParseLine(line).value.name) && FieldClean(ParseLine(line).value.address)
  {
    var parts := SplitThree(Trim(line));
    SplitHasNoCommas(Trim(line));
    TrimShape(parts.first);
    TrimShape(parts.second);
  }

  lemma SplitHasNoCommas(s: string)
    ensures !SplitThree(s).One? ==> ',' !in SplitThree(s).first && ',' !in SplitThree(s).second
  {
  }

  /** A printed line reads back as the same name, address and note exactly when the fields are clean. */
  lemma LineReadsBackIff(name: string, address: string, note: string)
    ensures ParseLine(RenderLine(name, address, note)) == Some(Row(name, address, Some(note)))
            <==> FieldClean(name) && FieldClean(address) && NoteClean(note)
  {
    var line := RenderLine(name, address, note);
    if FieldClean(name) && FieldClean(address) {
      CleanFieldsParse(name, address, Escaped(note));
      NoteReadsBackIff(note);
    } else if ParseLine(line).Some? {
      ParsedFieldsClean(line);
    }
  }

  // ---- Any line ----

  /** What the parts give: blank names and addresses give nothing, and without a third part there is no note. */
  function RowOf(parts: Parts): Option<Row> {
    if parts.One? || Trim(parts.first) == [] || Trim(parts.second) == [] then None
    else Some(Row(Trim(parts.first), Trim(parts.second),
                  if parts.Three? then Some(TrimQuotes(Trim(parts.third))) else None))
  }

  /** The same parts with something more in front of the first, or behind the last. */
  function InFront(c: char, parts: Parts): Parts {
    match parts
    case One(a) => One([c] + a)
    case Two(a, b) => Two([c] + a, b)
    case Three(a, b, d) => Three([c] + a, b, d)
  }

  function Behind(parts: Parts, c: char): Parts {
    match parts
    case One(a) => One(a + [c])
    case Two(a, b) => Two(a, b + [c])
    case Three(a, b, d) => Three(a, b, d + [c])
  }

  lemma TrimIgnoresFirst(c: char, s: string)
    requires IsSpace(c)
    ensures Trim([c] + s) == Trim(s)
  {
    assert ([c] + s)[1..] == s;
  }

  lemma TrimIgnoresLast(s: string, c: char)
    requires IsSpace(c)
    ensures Trim(s + [c]) == Trim(s)
  {
    TrimDropsLast(s + [c]);
    assert (s + [c])[..|s|] == s;
  }

  lemma RowIgnoresEdges(parts: Parts, c: char)
    requires IsSpace(c)
    ensures RowOf(InFront(c, parts)) == RowOf(parts) && RowOf(Behind(parts, c)) == RowOf(parts)
  {
    TrimIgnoresFirst(c, parts.first);
    match parts
    case One(a) =>
    case Two(a, b) => TrimIgnoresLast(b, c);
    case Three(a, b, d) => TrimIgnoresLast(d, c);
  }

  /** The parts of a text whose first comma is between `a` and `rest`. */
  function Headed(a: string, rest: string): Parts {
    var m := Find(rest, ',');
    if m == |rest| then Two(a, rest) else Three(a, rest[..m], rest[m + 1..])
  }

  lemma AroundComma(a: string, rest: string)
    ensures (a + [','] + rest)[..|a|] == a && (a + [','] + rest)[|a| + 1..] == rest
  {
  }

  lemma SplitAtComma(a: string, rest: string)
    requires ',' !in a
    ensures SplitThree(a + [','] + rest) == Headed(a, rest)
  {
    FindAfter(a, ',', rest);
    AroundComma(a, rest);
  }

  lemma HeadedAtComma(a: string, b: string, rest: string)
    requires ',' !in b
    ensures Headed(a, b + [','] + rest) == Three(a, b, rest)
  {
    FindAfter(b, ',', rest);
    AroundComma(b, rest);
  }

  lemma FirstComma(s: string) returns (a: string, rest: string)
    requires ',' in s
    ensures ',' !in a && s == a + [','] + rest
  {
    var k := Find(s, ',');
    a, rest := s[..k], s[k + 1..];
  }

  lemma SplitWithoutComma(s: string)
    requires ',' !in s
    ensures SplitThree(s) == One(s)
  {
  }

  lemma HeadedInFront(c: char, a: string, rest: string)
    ensures Headed([c] + a, rest) == InFront(c, Headed(a, rest))
  {
  }

  lemma CommaBehind(c: char, a: string, rest: string)
    ensures [c] + (a + [','] + rest) == ([c] + a) + [','] + rest
  {
  }

  /** A leading space belongs to the first part. */
  lemma SplitLeading(c: char, s: string)
    requires IsSpace(c)
    ensures SplitThree([c] + s) == InFront(c, SplitThree(s))
  {
    if ',' in s {
      var a, rest := FirstComma(s);
      calc {
        SplitThree([c] + s);
        { CommaBehind(c, a, rest); }
        SplitThree(([c] + a) + [','] + rest);
        { SplitAtComma([c] + a, rest); }
        Headed([c] + a, rest);
        { HeadedInFront(c, a, rest); }
        InFront(c, Headed(a, rest));
        { SplitAtComma(a, rest); }
        InFront(c, SplitThree(s));
      }
    } else {
      SplitWithoutComma(s);
      SplitWithoutComma([c] + s);
    }
  }

  lemma HeadedTrailing(a: string, rest: string, c: char)
    requires IsSpace(c)
    ensures Headed(a, rest + [c]) == Behind(Headed(a, rest), c)
  {
    if ',' in rest {
      var b, more := FirstComma(rest);
      HeadedAtComma(a, b, more);
      HeadedAtComma(a, b, more + [c]);
      assert (b + [','] + more) + [c] == b + [','] + (more + [c]);
    } else {
      assert ',' !in rest + [c];
    }
  }

  /** A trailing space belongs to the last part. */
  lemma SplitTrailing(s: string, c: char)
    requires IsSpace(c)
    ensures SplitThree(s + [c]) == Behind(SplitThree(s), c)
  {
    if ',' in s {
      var a, rest := FirstComma(s);
      SplitAtComma(a, rest);
      SplitAtComma(a, rest + [c]);
      HeadedTrailing(a, rest, c);
      assert (a + [','] + rest) + [c] == a + [','] + (rest + [c]);
    } else {
      assert ',' !in s + [c];
    }
  }

  lemma RowIgnoresLeading(c: char, s: string)
    requires IsSpace(c)
    ensures RowOf(SplitThree([c] + s)) == RowOf(SplitThree(s))
  {
    SplitLeading(c, s);
    RowIgnoresEdges(SplitThree(s), c);
  }

  lemma RowIgnoresTrailing(s: string, c: char)
    requires IsSpace(c)
    ensures RowOf(SplitThree(s + [c])) == RowOf(SplitThree(s))
  {
    SplitTrailing(s, c);
    RowIgnoresEdges(SplitThree(s), c);
  }

  lemma {:induction false} RowOfTrimStart(s: string)
    ensures RowOf(SplitThree(TrimStart(s))) == RowOf(SplitThree(s))
  {
    if s != [] && IsSpace(s[0]) {
      RowOfTrimStart(s[1..]);
      RowIgnoresLeading(s[0], s[1..]);
      assert s == [s[0]] + s[1..];
    }
  }

  lemma {:induction false} RowOfTrimEnd(s: string)
    ensures RowOf(SplitThree(TrimEnd(s))) == RowOf(SplitThree(s))
  {
    if s != [] && IsSpace(s[|s| - 1]) {
      var front, c := s[..|s| - 1], s[|s| - 1];
      calc {
        RowOf(SplitThree(TrimEnd(s)));
        RowOf(SplitThree(TrimEnd(front)));
        { RowOfTrimEnd(front); }
        RowOf(SplitThree(front));
        { RowIgnoresTrailing(front, c); }
        RowOf(SplitThree(front + [c]));
        { assert s == front + [c]; }
        RowOf(SplitThree(s));
      }
    }
  }

  /** Every line is read as its text up to the first comma, up to the second, and the rest, each trimmed; trimming
      the line first makes no difference. */
  lemma LineReadAsFields(line: string)
    ensures ParseLine(line) == RowOf(SplitThree(line))
  {
    RowOfTrimStart(line);
    RowOfTrimEnd(TrimStart(line));
  }

  lemma SplitOnce(a: string, b: string)
    requires ',' !in a && ',' !in b
    ensures SplitThree(a + [','] + b) == Two(a, b)
  {
    SplitAtComma(a, b);
  }

  /** A line of two fields gives a contact without a note exactly when both are clean. */
  lemma TwoFieldLine(name: string, address: string)
    ensures ParseLine(name + [','] + address) == Some(Row(name, address, None)) <==>
            FieldClean(name) && FieldClean(address)
  {
    var line := name + [','] + address;
    if FieldClean(name) && FieldClean(address) {
      LineReadAsFields(line);
      SplitOnce(name, address);
      TrimKeepsIff(name);
      TrimKeepsIff(address);
    } else if ParseLine(line).Some? {
      ParsedFieldsClean(line);
    }
  }
}
