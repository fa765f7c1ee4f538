/** Exporting a book as CSV and importing the text into an empty book: exactly which books come back. */
module ContactsRoundTrip {
  import opened Wrappers
  import opened Csv
  import opened Contacts

  // ---- Parsing invents no characters ----

  ghost predicate Within(part: string, whole: string) {
    forall c :: c in part ==> c in whole
  }

  lemma {:induction false} TrimQuotesWithin(s: string)
    ensures Within(TrimQuotes(s), s)
  {
    if s != [] && s[0] == '"' {
      TrimQuotesWithin(s[1..]);
    } else if s != [] && s[|s| - 1] == '"' {
      TrimQuotesWithin(s[..|s| - 1]);
    }
  }

  lemma SplitWithin(s: string)
    ensures var parts := SplitThree(s);
            && Within(parts.first, s) && (!parts.One? ==> Within(parts.second, s))
            && (parts.Three? ==> Within(parts.third, s))
  {
  }

  lemma ParsedWithin(line: string)
    requires ParseLine(line).Some?
    ensures var row := ParseLine(line).value;
            Within(row.name, line) && Within(row.address, line) && (row.note.Some? ==> Within(row.note.value, line))
  {
    var parts := SplitThree(Trim(line));
    TrimShape(line);
    SplitWithin(Trim(line));
    TrimShape(parts.first);
    TrimShape(parts.second);
    if parts.Three? {
      TrimShape(parts.third);
      TrimQuotesWithin(Trim(parts.third));
    }
  }

  // ---- No imported field has a newline ----

  ghost predicate OneLine(c: Contact) {
    '\n' !in c.name && '\n' !in c.address && '\n' !in NoteText(c)
  }

  lemma {:induction false} LinesHaveNoNewline(s: string)
    ensures forall line :: line in Lines(s) ==> '\n' !in line
  {
    if s != [] && Find(s, '\n') < |s| {
      LinesHaveNoNewline(s[Find(s, '\n') + 1..]);
    }
  }

  lemma {:induction false} ImportedOnOneLine(lines: seq<string>, now: string)
    requires forall line :: line in lines ==> '\n' !in line
    ensures forall c :: c in ImportLines([], lines, now) ==> OneLine(c)
  {
    if lines != [] {
      var n := |lines| - 1;
      ImportedOnOneLine(lines[..n], now);
      if ParseLine(lines[n]).Some? {
        ParsedWithin(lines[n]);
      }
    }
  }

  // ---- The lines of the text when no field has a newline ----

  lemma {:induction false} DoubledWithin(s: string)
    ensures Within(DoubleQuotes(s), s)
  {
    if s != [] {
      DoubledWithin(s[1..]);
    }
  }

  lemma LineOnOneLine(c: Contact)
    requires OneLine(c)
    ensures '\n' !in CsvLine(c)
  {
    var e := Escaped(NoteText(c));
    DoubledWithin(NoteText(c));
    assert '\n' !in e;
    assert '\n' !in c.address + [','] + e;
  }

  ghost predicate Stripped(read: seq<string>, lines: seq<string>) {
    |read| == |lines| && forall i :: 0 <= i < |lines| ==> read[i] == StripReturn(lines[i])
  }

  lemma StrippedMore(read: seq<string>, lines: seq<string>, line: string)
    requires Stripped(read, lines)
    ensures Stripped([StripReturn(line)] + read, [line] + lines)
  {
  }

  lemma {:induction false} LinesOfText(lines: seq<string>)
    requires forall i :: 0 <= i < |lines| ==> '\n' !in lines[i]
    ensures Stripped(Lines(Joined(lines)), lines)
  {
    if lines != [] {
      LinesOfText(lines[1..]);
      LinesOfSum(lines[0], Joined(lines[1..]));
      StrippedMore(Lines(Joined(lines[1..])), lines[1..], lines[0]);
      assert [lines[0]] + lines[1..] == lines;
    }
  }

  lemma {:induction false} ExportedAt(contacts: seq<Contact>, n: nat)
    requires n <= |contacts|
    ensures var l := ExportedLines(contacts, n);
            |l| == n + 1 && l[0] == HEADER && forall i :: 0 <= i < n ==> l[i + 1] == CsvLine(contacts[i])
  {
    if n > 0 {
      ExportedAt(contacts, n - 1);
    }
  }

  lemma {:induction false} ExportedOnOneLine(contacts: seq<Contact>, n: nat)
    requires n <= |contacts| && forall i :: 0 <= i < n ==> OneLine(contacts[i])
    ensures forall line :: line in ExportedLines(contacts, n) ==> '\n' !in line
  {
    if n == 0 {
      HeaderFacts();
    } else {
      ExportedOnOneLine(contacts, n - 1);
      LineOnOneLine(contacts[n - 1]);
    }
  }

  /** The header, then one line a contact. */
  ghost predicate LinesOf(lines: seq<string>, contacts: seq<Contact>) {
    && |lines| == |contacts| + 1 && lines[0] == HEADER
    && forall i :: 0 <= i < |contacts| ==> lines[i + 1] == StripReturn(CsvLine(contacts[i]))
  }

  lemma StrippedAre(exported: seq<string>, lines: seq<string>, contacts: seq<Contact>)
    requires |exported| == |contacts| + 1 && exported[0] == HEADER
    requires forall i :: 0 <= i < |contacts| ==> exported[i + 1] == CsvLine(contacts[i])
    requires Stripped(lines, exported)
    ensures LinesOf(lines, contacts)
  {
    HeaderFacts();
  }

  lemma TextReads(contacts: seq<Contact>)
    requires forall i :: 0 <= i < |contacts| ==> OneLine(contacts[i])
    ensures LinesOf(Lines(CsvText(contacts, |contacts|)), contacts)
  {
    var exported := ExportedLines(contacts, |contacts|);
    TextIsJoined(contacts, |contacts|);
    ExportedAt(contacts, |contacts|);
    ExportedOnOneLine(contacts, |contacts|);
    LinesOfText(exported);
    StrippedAre(exported, Lines(Joined(exported)), contacts);
  }

  lemma StrippedParses(line: string)
    ensures ParseLine(StripReturn(line)) == ParseLine(line)
  {
    if line != [] && line[|line| - 1] == '\r' {
      TrimDropsLast(line);
    }
  }

  // ---- A full import took every line ----

  ghost predicate Took(line: string, c: Contact) {
    ParseLine(line) == Some(Row(c.name, c.address, c.note))
  }

  /** One contact for each line after the header, each parsed from its line. */
  ghost predicate AllTaken(lines: seq<string>, r: seq<Contact>) {
    if |lines| <= 1 then r == []
    else r != [] && Took(lines[|lines| - 1], r[|r| - 1]) && AllTaken(lines[..|lines| - 1], r[..|r| - 1])
  }

  lemma {:induction false} TakenAt(lines: seq<string>, r: seq<Contact>, i: nat)
    requires AllTaken(lines, r) && |lines| == |r| + 1 && i < |r|
    ensures Took(lines[i + 1], r[i])
    decreases |r|
  {
    if i < |r| - 1 {
      TakenAt(lines[..|lines| - 1], r[..|r| - 1], i);
    }
  }

  lemma ImportLineAdds(contacts: seq<Contact>, line: string, i: nat, now: string)
    ensures var r := ImportLine(contacts, line, i, now);
            r == contacts || (|r| == |contacts| + 1 && r[..|contacts|] == contacts && Took(line, r[|contacts|]))
  {
  }

  /** An import adds at most one contact a line after the header, and one for each only if every line parsed
      to the contact at its position. */
  lemma {:induction false} FullImport(lines: seq<string>, now: string)
    requires lines != [] && lines[0] == HEADER
    ensures |ImportLines([], lines, now)| < |lines|
    ensures |ImportLines([], lines, now)| == |lines| - 1 ==> AllTaken(lines, ImportLines([], lines, now))
  {
    var n := |lines| - 1;
    if n == 0 {
      assert lines == [HEADER];
      ImportHeader(now);
    } else {
      FullImport(lines[..n], now);
      var r := ImportLines([], lines[..n], now);
      ImportLineAdds(r, lines[n], n, now);
    }
  }

  /** The import gave back every contact, in order. */
  ghost predicate ComesBack(contacts: seq<Contact>, now: string) {
    var r := ImportLines([], Lines(CsvText(contacts, |contacts|)), now);
    |r| == |contacts| && forall i :: 0 <= i < |contacts| ==> r[i] == Reimported(contacts[i], now)
  }

  lemma ComesBackOnOneLine(contacts: seq<Contact>, now: string)
    requires ComesBack(contacts, now)
    ensures forall i :: 0 <= i < |contacts| ==> OneLine(contacts[i])
  {
    var lines := Lines(CsvText(contacts, |contacts|));
    var r := ImportLines([], lines, now);
    LinesHaveNoNewline(CsvText(contacts, |contacts|));
    ImportedOnOneLine(lines, now);
    forall i | 0 <= i < |contacts|
      ensures OneLine(contacts[i])
    {
      assert r[i] in r && r[i] == Reimported(contacts[i], now);
    }
  }

  lemma ComesBackPortable(contacts: seq<Contact>, now: string, i: nat)
    requires ComesBack(contacts, now) && i < |contacts|
    ensures Portable(contacts[i])
  {
    ComesBackOnOneLine(contacts, now);
    TextReads(contacts);
    var lines := Lines(CsvText(contacts, |contacts|));
    FullImport(lines, now);
    var c := contacts[i];
    TakenAt(lines, ImportLines([], lines, now), i);
    StrippedParses(CsvLine(c));
    LineReadsBackIff(c.name, c.address, NoteText(c));
  }

  /** A book comes back from its CSV text, with names, addresses, notes and order, exactly when each of its
      contacts is portable. */
  lemma RoundTripIff(contacts: seq<Contact>, now: string)
    requires DistinctNames(contacts)
    ensures ComesBack(contacts, now) <==> forall i :: 0 <= i < |contacts| ==> Portable(contacts[i])
  {
    if ComesBack(contacts, now) {
      forall i | 0 <= i < |contacts|
        ensures Portable(contacts[i])
      {
        ComesBackPortable(contacts, now, i);
      }
    } else if forall i :: 0 <= i < |contacts| ==> Portable(contacts[i]) {
      RoundTrip(contacts, now);
    }
  }

  // ---- Importing any text into any book ----

  /** The contact was read from one of the lines. */
  ghost predicate FromLine(c: Contact, lines: seq<string>, now: string) {
    exists i :: 0 <= i < |lines| && !IsHeader(lines[i], i) && Took(lines[i], c) && c.createdAt == now
  }

  lemma FromLineGrows(c: Contact, lines: seq<string>, n: nat, now: string)
    requires n <= |lines| && FromLine(c, lines[..n], now)
    ensures FromLine(c, lines, now)
  {
    var i :| 0 <= i < n && !IsHeader(lines[..n][i], i) && Took(lines[..n][i], c) && c.createdAt == now;
    assert lines[..n][i] == lines[i];
  }

  /** Importing keeps what the book holds, in place, and only appends contacts read from lines. */
  lemma {:induction false} ImportOnlyAppends(contacts: seq<Contact>, lines: seq<string>, now: string)
    ensures contacts <= ImportLines(contacts, lines, now)
    ensures forall i :: |contacts| <= i < |ImportLines(contacts, lines, now)| ==>
              FromLine(ImportLines(contacts, lines, now)[i], lines, now)
    decreases |lines|
  {
    if lines != [] {
      var n := |lines| - 1;
      ImportOnlyAppends(contacts, lines[..n], now);
      var r, r' := ImportLines(contacts, lines[..n], now), ImportLines(contacts, lines, now);
      forall i | |contacts| <= i < |r'|
        ensures FromLine(r'[i], lines, now)
      {
        if i < |r| {
          FromLineGrows(r[i], lines, n, now);
        } else {
          assert Took(lines[n], r'[i]);
        }
      }
    }
  }

  /** The line is no header and gives a contact of the name. */
  ghost predicate Names(line: string, i: nat, name: string) {
    !IsHeader(line, i) && ParseLine(line).Some? && ParseLine(line).value.name == name
  }

  lemma ImportLineNames(contacts: seq<Contact>, line: string, i: nat, now: string, name: string)
    requires Names(line, i, name)
    ensures HasName(ImportLine(contacts, line, i, now), name)
  {
    if !HasName(contacts, name) {
      assert ImportLine(contacts, line, i, now)[|contacts|].name == name;
    }
  }

  lemma ImportLineKeepsName(contacts: seq<Contact>, line: string, i: nat, now: string, name: string)
    requires HasName(contacts, name)
    ensures HasName(ImportLine(contacts, line, i, now), name)
  {
    var k :| 0 <= k < |contacts| && contacts[k].name == name;
    assert ImportLine(contacts, line, i, now)[k] == contacts[k];
  }

  lemma ImportStepKeepsName(contacts: seq<Contact>, lines: seq<string>, now: string, name: string)
    requires lines != [] && HasName(ImportLines(contacts, lines[..|lines| - 1], now), name)
    ensures HasName(ImportLines(contacts, lines, now), name)
  {
    var n := |lines| - 1;
    ImportLineKeepsName(ImportLines(contacts, lines[..n], now), lines[n], n, now, name);
  }

  lemma {:induction false} ImportKeepsName(contacts: seq<Contact>, lines: seq<string>, m: nat, now: string,
                                           name: string)
    requires m <= |lines| && HasName(ImportLines(contacts, lines[..m], now), name)
    ensures HasName(ImportLines(contacts, lines, now), name)
    decreases |lines|
  {
    var n := |lines| - 1;
    if m <= n {
      assert lines[..n][..m] == lines[..m];
      ImportKeepsName(contacts, lines[..n], m, now, name);
      ImportStepKeepsName(contacts, lines, now, name);
    } else {
      assert lines[..m] == lines;
    }
  }

  /** After importing, the book has the name of every line that is no header and parses. */
  lemma ImportTakesEveryName(contacts: seq<Contact>, lines: seq<string>, now: string, i: nat, name: string)
    requires i < |lines| && Names(lines[i], i, name)
    ensures HasName(ImportLines(contacts, lines, now), name)
  {
    ImportLineNames(ImportLines(contacts, lines[..i], now), lines[i], i, now, name);
    ImportAppended(contacts, lines[..i], lines[i], now);
    assert lines[..i + 1] == lines[..i] + [lines[i]];
    ImportKeepsName(contacts, lines, i + 1, now, name);
  }
}
