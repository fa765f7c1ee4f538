/** The address book of wallet/src/contacts.rs: contacts in order, a name index, CSV export and import. */
module Contacts {
  import opened Wrappers
  import opened Csv

  datatype Contact = Contact(name: string, address: string, note: Option<string>, createdAt: string)

  datatype ContactError = Duplicate(name: string) | NotFound(name: string)

  // ---- Names ----

  ghost predicate DistinctNames(contacts: seq<Contact>) {
    forall i, j :: 0 <= i < j < |contacts| ==> contacts[i].name != contacts[j].name
  }

  /** The first position that holds the name. */
  function Search(contacts: seq<Contact>, name: string): Option<nat> {
    if contacts == [] then None
    else if contacts[0].name == name then Some(0)
    else
      var r := Search(contacts[1..], name);
      if r.None? then None else Some(r.value + 1)
  }

  /** The index gives, for every name, what linear search gives. */
  ghost predicate IndexIsSearch(contacts: seq<Contact>, index: map<string, nat>) {
    forall name :: (if name in index then Some(index[name]) else None) == Search(contacts, name)
  }

  lemma {:induction false} SearchFinds(contacts: seq<Contact>, name: string)
    ensures var r := Search(contacts, name);
            if r.None? then forall i :: 0 <= i < |contacts| ==> contacts[i].name != name
            else r.value < |contacts| && contacts[r.value].name == name
                 && forall i :: 0 <= i < r.value ==> contacts[i].name != name
  {
    if contacts != [] && contacts[0].name != name {
      SearchFinds(contacts[1..], name);
      var rest := contacts[1..];
      assert forall i :: 1 <= i < |contacts| ==> contacts[i] == rest[i - 1];
    }
  }

  /** The entries of an index: each name's last position among the first `n` contacts. */
  ghost predicate LastPositions(contacts: seq<Contact>, n: nat, index: map<string, nat>)
    requires n <= |contacts|
  {
    && (forall i :: 0 <= i < n ==> contacts[i].name in index)
    && (forall name :: name in index ==>
          && index[name] < n && contacts[index[name]].name == name
          && forall i :: index[name] < i < n ==> contacts[i].name != name)
  }

  /** The loop of `rebuild_index`; of equal names, as a loaded file may have, the last one wins. */
  method RebuildIndex(contacts: seq<Contact>) returns (index: map<string, nat>)
    ensures LastPositions(contacts, |contacts|, index)
  {
    index := map[];
    for i := 0 to |contacts|
      invariant LastPositions(contacts, i, index)
    {
      index := index[contacts[i].name := i];
    }
  }

  lemma LastIsSearch(contacts: seq<Contact>, index: map<string, nat>)
    requires DistinctNames(contacts) && LastPositions(contacts, |contacts|, index)
    ensures IndexIsSearch(contacts, index)
  {
    forall name
      ensures (if name in index then Some(index[name]) else None) == Search(contacts, name)
    {
      SearchFinds(contacts, name);
    }
  }

  lemma SearchIsLast(contacts: seq<Contact>, index: map<string, nat>)
    requires DistinctNames(contacts) && IndexIsSearch(contacts, index)
    ensures LastPositions(contacts, |contacts|, index)
  {
    forall name | name in index
      ensures index[name] < |contacts| && contacts[index[name]].name == name
    {
      SearchFinds(contacts, name);
      assert Search(contacts, name) == Some(index[name]);
    }
    forall i | 0 <= i < |contacts|
      ensures contacts[i].name in index
    {
      SearchFinds(contacts, contacts[i].name);
    }
  }

  lemma LastPositionsAppended(contacts: seq<Contact>, index: map<string, nat>, c: Contact)
    requires LastPositions(contacts, |contacts|, index)
    ensures LastPositions(contacts + [c], |contacts| + 1, index[c.name := |contacts|])
  {
    var index' := index[c.name := |contacts|];
    forall name | name in index'
      ensures index'[name] < |contacts| + 1 && (contacts + [c])[index'[name]].name == name
      ensures forall i :: index'[name] < i < |contacts| + 1 ==> (contacts + [c])[i].name != name
    {
      assert name != c.name ==> name in index;
    }
  }

  lemma AppendedKeepsIndex(contacts: seq<Contact>, index: map<string, nat>, c: Contact)
    requires DistinctNames(contacts) && IndexIsSearch(contacts, index) && Search(contacts, c.name).None?
    ensures DistinctNames(contacts + [c]) && IndexIsSearch(contacts + [c], index[c.name := |contacts|])
  {
    SearchFinds(contacts, c.name);
    SearchIsLast(contacts, index);
    LastPositionsAppended(contacts, index, c);
    LastIsSearch(contacts + [c], index[c.name := |contacts|]);
  }

  lemma ReplacedKeepsIndex(contacts: seq<Contact>, index: map<string, nat>, i: nat, c: Contact)
    requires DistinctNames(contacts) && IndexIsSearch(contacts, index) && i < |contacts| && c.name == contacts[i].name
    ensures DistinctNames(contacts[i := c]) && IndexIsSearch(contacts[i := c], index)
  {
    SearchIsLast(contacts, index);
    LastIsSearch(contacts[i := c], index);
  }

  /** `retain(|c| c.name != name)` */
  function Without(contacts: seq<Contact>, name: string): seq<Contact> {
    if contacts == [] then []
    else (if contacts[0].name == name then [] else [contacts[0]]) + Without(contacts[1..], name)
  }

  lemma {:induction false} WithoutKeepsDistinct(contacts: seq<Contact>, name: string)
    requires DistinctNames(contacts)
    ensures DistinctNames(Without(contacts, name))
    ensures forall c :: c in Without(contacts, name) <==> c in contacts && c.name != name
  {
    if contacts != [] {
      WithoutKeepsDistinct(contacts[1..], name);
    }
  }

  lemma {:induction false} WithoutAbsent(contacts: seq<Contact>, name: string)
    requires forall i :: 0 <= i < |contacts| ==> contacts[i].name != name
    ensures Without(contacts, name) == contacts
  {
    if contacts != [] {
      WithoutAbsent(contacts[1..], name);
    }
  }

  lemma CutBehindFirst<T>(s: seq<T>, k: nat)
    requires k + 1 < |s|
    ensures [s[0]] + (s[1..][..k] + s[1..][k + 1..]) == s[..k + 1] + s[k + 2..]
  {
  }

  /** Of distinct names, removing one takes out its position and keeps the others in order. */
  lemma {:induction false} WithoutKeepsOrder(contacts: seq<Contact>, name: string)
    requires DistinctNames(contacts)
    ensures var k := Search(contacts, name);
            if k.None? then Without(contacts, name) == contacts
            else k.value < |contacts| && Without(contacts, name) == contacts[..k.value] + contacts[k.value + 1..]
  {
    SearchFinds(contacts, name);
    if contacts != [] {
      if contacts[0].name == name {
        WithoutAbsent(contacts[1..], name);
      } else {
        WithoutKeepsOrder(contacts[1..], name);
        if Search(contacts, name).Some? {
          CutBehindFirst(contacts, Search(contacts, name).value - 1);
        }
      }
    }
  }

  // ---- CSV export and import on values ----

  const HEADER := "name,address,note"

  function NoteText(c: Contact): string {
    if c.note.Some? then c.note.value else ""
  }

  function CsvLine(c: Contact): string {
    RenderLine(c.name, c.address, NoteText(c))
  }

  /** The text of the first `n` contacts. */
  function CsvText(contacts: seq<Contact>, n: nat): string
    requires n <= |contacts|
  {
    if n == 0 then HEADER + ['\n'] else CsvText(contacts, n - 1) + (CsvLine(contacts[n - 1]) + ['\n'])
  }

  /** `str::lines`: split at newlines, drop a carriage return before each, no empty last line. */
  function Lines(s: string): seq<string> {
    if s == [] then []
    else
      var k := Find(s, '\n');
      if k == |s| then [s] else [StripReturn(s[..k])] + Lines(s[k + 1..])
  }

  function StripReturn(s: string): string {
    if s != [] && s[|s| - 1] == '\r' then s[..|s| - 1] else s
  }

  predicate IsHeader(line: string, i: nat) {
    i == 0 && "name" <= line
  }

  function HasName(contacts: seq<Contact>, name: string): bool {
    exists i :: 0 <= i < |contacts| && contacts[i].name == name
  }

  /** The contacts after importing the line at position `i`. */
  function ImportLine(contacts: seq<Contact>, line: string, i: nat, now: string): seq<Contact> {
    var row := ParseLine(line);
    if IsHeader(line, i) || row.None? || HasName(contacts, row.value.name) then contacts
    else contacts + [Contact(row.value.name, row.value.address, row.value.note, now)]
  }

  function ImportLines(contacts: seq<Contact>, lines: seq<string>, now: string): seq<Contact> {
    if lines == [] then contacts
    else
      var n := |lines| - 1;
      ImportLine(ImportLines(contacts, lines[..n], now), lines[n], n, now)
  }

  // ---- The book ----

  class AddressBook {
    var contacts: seq<Contact>
    var nameIndex: map<string, nat>

    /** Names are unique and the index agrees with linear search. */
    ghost predicate Valid()
      reads this
    {
      DistinctNames(contacts) && IndexIsSearch(contacts, nameIndex)
    }

    constructor ()
      ensures Valid() && contacts == []
    {
      contacts, nameIndex := [], map[];
    }

    method Add(name: string, address: string, note: Option<string>, now: string) returns (r: Result<(), ContactError>)
      requires Valid()
      modifies this
      ensures Valid()
      ensures r == if HasName(old(contacts), name) then Err(Duplicate(name)) else Ok(())
      ensures contacts == if r.Ok? then old(contacts) + [Contact(name, address, note, now)] else old(contacts)
    {
      SearchFinds(contacts, name);
      assert name in nameIndex <==> Search(contacts, name).Some?;
      if name in nameIndex {
        return Err(Duplicate(name));
      }
      AppendedKeepsIndex(contacts, nameIndex, Contact(name, address, note, now));
      contacts, nameIndex := contacts + [Contact(name, address, note, now)], nameIndex[name := |contacts|];
      return Ok(());
    }

    method Remove(name: string) returns (r: Result<(), ContactError>)
      requires Valid()
      modifies this
      ensures Valid()
      ensures r == if HasName(old(contacts), name) then Ok(()) else Err(NotFound(name))
      ensures contacts == if r.Ok? then Without(old(contacts), name) else old(contacts)
    {
      SearchFinds(contacts, name);
      assert name in nameIndex <==> Search(contacts, name).Some?;
      if name !in nameIndex {
        return Err(NotFound(name));
      }
      WithoutKeepsDistinct(contacts, name);
      contacts := Without(contacts, name);
      nameIndex := RebuildIndex(contacts);
      LastIsSearch(contacts, nameIndex);
      return Ok(());
    }

    /** The indexed lookup answers as linear search. */
    method GetByName(name: string) returns (r: Option<Contact>)
      requires Valid()
      ensures r.None? <==> !HasName(contacts, name)
      ensures r.Some? ==> Search(contacts, name).Some? && Search(contacts, name).value < |contacts|
                          && r.value == contacts[Search(contacts, name).value] && r.value.name == name
    {
      SearchFinds(contacts, name);
      assert name in nameIndex <==> Search(contacts, name).Some?;
      return if name in nameIndex then Some(contacts[nameIndex[name]]) else None;
    }

    method Update(name: string, newAddress: Option<string>, newNote: Option<Option<string>>)
      returns (r: Result<(), ContactError>)
      requires Valid()
      modifies this
      ensures Valid()
      ensures r == if HasName(old(contacts), name) then Ok(()) else Err(NotFound(name))
      ensures r.Err? ==> contacts == old(contacts)
      ensures |contacts| == |old(contacts)|
      ensures forall i :: 0 <= i < |contacts| && old(contacts)[i].name != name ==> contacts[i] == old(contacts)[i]
      ensures forall i :: 0 <= i < |contacts| && old(contacts)[i].name == name ==>
                var c := old(contacts)[i];
                contacts[i] == c.(address := if newAddress.Some? then newAddress.value else c.address,
                                  note := if newNote.Some? then newNote.value else c.note)
    {
      SearchFinds(contacts, name);
      assert name in nameIndex <==> Search(contacts, name).Some?;
      if name !in nameIndex {
        return Err(NotFound(name));
      }
      var idx := nameIndex[name];
      var c := contacts[idx];
      if newAddress.Some? {
        c := c.(address := newAddress.value);
      }
      if newNote.Some? {
        c := c.(note := newNote.value);
      }
      ReplacedKeepsIndex(contacts, nameIndex, idx, c);
      contacts := contacts[idx := c];
      return Ok(());
    }

    method ToCsv() returns (csv: string)
      ensures csv == CsvText(contacts, |contacts|) && "name,address,note\n" <= csv
    {
      csv := HEADER + "\n";
      for i := 0 to |contacts|
        invariant csv == CsvText(contacts, i) && "name,address,note\n" <= csv
      {
        var c := contacts[i];
        var note := if c.note.Some? then c.note.value else "";
        var escaped := if ',' in note || '"' in note then "\"" + DoubleQuotes(note) + "\"" else note;
        csv := csv + (c.name + "," + (c.address + "," + escaped) + "\n");
      }
    }

    /** The body of the import loop. */
    method ImportOne(line: string, i: nat, now: string) returns (added: nat)
      requires Valid()
      modifies this
      ensures Valid()
      ensures contacts == ImportLine(old(contacts), line, i, now)
      ensures |contacts| == |old(contacts)| + added
    {
      var row := ParseLine(line);
      added := 0;
      if !IsHeader(line, i) && row.Some? {
        var r := Add(row.value.name, row.value.address, row.value.note, now);
        added := if r.Ok? then 1 else 0;
      }
    }

    /** Imports the lines that parse and whose name is new; returns how many contacts that added. */
    method ImportCsv(csv: string, now: string) returns (imported: nat)
      requires Valid()
      modifies this
      ensures Valid()
      ensures contacts == ImportLines(old(contacts), Lines(csv), now)
      ensures |contacts| == |old(contacts)| + imported
    {
      var lines := Lines(csv);
      imported := 0;
      for i := 0 to |lines|
        invariant Valid()
        invariant contacts == ImportLines(old(contacts), lines[..i], now)
        invariant |contacts| == |old(contacts)| + imported
      {
        var added := ImportOne(lines[i], i, now);
        imported := imported + added;
        assert lines[..i + 1][..i] == lines[..i];
      }
      assert lines[..|lines|] == lines;
    }
  }

  // ---- Exporting and importing again ----

  /** Fields that survive in a line, and no newline to break it. */
  ghost predicate Portable(c: Contact) {
    && FieldClean(c.name) && FieldClean(c.address) && NoteClean(NoteText(c))
    && '\n' !in c.name && '\n' !in c.address && '\n' !in NoteText(c)
  }

  /** What comes back: the note is present, and empty where there was none. */
  function Reimported(c: Contact, now: string): Contact {
    Contact(c.name, c.address, Some(if c.note.Some? then c.note.value else ""), now)
  }

  lemma PortableParses(c: Contact)
    requires Portable(c)
    ensures ParseLine(CsvLine(c)) == Some(Row(c.name, c.address, Some(NoteText(c))))
  {
    LineReadsBackIff(c.name, c.address, NoteText(c));
  }

  lemma PortableLine(c: Contact)
    requires Portable(c)
    ensures '\n' !in CsvLine(c) && StripReturn(CsvLine(c)) == CsvLine(c)
  {
    var n := NoteText(c);
    EscapedWithoutQuotes(n);
    var e := Escaped(n);
    assert '\n' !in e;
    assert '\n' !in c.address + [','] + e;
    assert IsSpace('\r');
    assert e == [] || e[|e| - 1] != '\r';
    var line := CsvLine(c);
    assert e == [] ==> line[|line| - 1] == ',';
    assert e != [] ==> line[|line| - 1] == e[|e| - 1];
  }

  lemma LinesOfSum(line: string, rest: string)
    requires '\n' !in line
    ensures Lines(line + ['\n'] + rest) == [StripReturn(line)] + Lines(rest)
  {
    var s := line + ['\n'] + rest;
    FindAfter(line, '\n', rest);
    assert s[..|line|] == line && s[|line| + 1..] == rest;
  }

  /** Lines written one after the other, each with its newline. */
  function Joined(lines: seq<string>): string {
    if lines == [] then [] else lines[0] + ['\n'] + Joined(lines[1..])
  }

  lemma {:induction false} JoinedAppend(lines: seq<string>, line: string)
    ensures Joined(lines + [line]) == Joined(lines) + (line + ['\n'])
  {
    if lines == [] {
      assert [line][1..] == [];
    } else {
      assert (lines + [line])[1..] == lines[1..] + [line];
      JoinedAppend(lines[1..], line);
    }
  }

  ghost predicate Plain(line: string) {
    '\n' !in line && StripReturn(line) == line
  }

  lemma {:induction false} LinesOfJoined(lines: seq<string>)
    requires forall i :: 0 <= i < |lines| ==> Plain(lines[i])
    ensures Lines(Joined(lines)) == lines
  {
    if lines != [] {
      LinesOfJoined(lines[1..]);
      LinesOfSum(lines[0], Joined(lines[1..]));
    }
  }

  /** The lines of the exported text, and the contacts that importing them gives. */
  function ExportedLines(contacts: seq<Contact>, n: nat): seq<string>
    requires n <= |contacts|
  {
    if n == 0 then [HEADER] else ExportedLines(contacts, n - 1) + [CsvLine(contacts[n - 1])]
  }

  function Restored(contacts: seq<Contact>, n: nat, now: string): (r: seq<Contact>)
    requires n <= |contacts|
    ensures |r| == n && forall i :: 0 <= i < n ==> r[i] == Reimported(contacts[i], now)
  {
    if n == 0 then [] else Restored(contacts, n - 1, now) + [Reimported(contacts[n - 1], now)]
  }

  lemma HeaderFacts()
    ensures Plain(HEADER) && IsHeader(HEADER, 0)
  {
  }

  lemma {:induction false} TextIsJoined(contacts: seq<Contact>, n: nat)
    requires n <= |contacts|
    ensures CsvText(contacts, n) == Joined(ExportedLines(contacts, n))
  {
    if n == 0 {
      assert [HEADER][1..] == [];
    } else {
      TextIsJoined(contacts, n - 1);
      JoinedAppend(ExportedLines(contacts, n - 1), CsvLine(contacts[n - 1]));
    }
  }

  lemma {:induction false} ExportedLinesPlain(contacts: seq<Contact>, n: nat)
    requires n <= |contacts| && forall i :: 0 <= i < n ==> Portable(contacts[i])
    ensures |ExportedLines(contacts, n)| == n + 1
    ensures forall i :: 0 <= i <= n ==> Plain(ExportedLines(contacts, n)[i])
  {
    if n == 0 {
      HeaderFacts();
    } else {
      ExportedLinesPlain(contacts, n - 1);
      PortableLine(contacts[n - 1]);
    }
  }

  lemma ImportOneMore(contacts: seq<Contact>, n: nat, now: string)
    requires DistinctNames(contacts) && n < |contacts| && Portable(contacts[n])
    ensures ImportLine(Restored(contacts, n, now), CsvLine(contacts[n]), n + 1, now) == Restored(contacts, n + 1, now)
  {
    PortableParses(contacts[n]);
    assert !HasName(Restored(contacts, n, now), contacts[n].name);
  }

  lemma {:induction false} ImportRestores(contacts: seq<Contact>, n: nat, now: string)
    requires DistinctNames(contacts) && n <= |contacts| && forall i :: 0 <= i < n ==> Portable(contacts[i])
    ensures ImportLines([], ExportedLines(contacts, n), now) == Restored(contacts, n, now)
  {
    if n == 0 {
      ImportHeader(now);
    } else {
      ImportRestores(contacts, n - 1, now);
      ImportRestoresStep(contacts, n - 1, now);
    }
  }

  lemma ImportRestoresStep(contacts: seq<Contact>, n: nat, now: string)
    requires DistinctNames(contacts) && n < |contacts| && Portable(contacts[n])
    requires ImportLines([], ExportedLines(contacts, n), now) == Restored(contacts, n, now)
    ensures ImportLines([], ExportedLines(contacts, n + 1), now) == Restored(contacts, n + 1, now)
  {
    var lines, line := ExportedLines(contacts, n), CsvLine(contacts[n]);
    ExportedCount(contacts, n);
    ImportAppended([], lines, line, now);
    ImportOneMore(contacts, n, now);
    assert ExportedLines(contacts, n + 1) == lines + [line];
  }

  lemma {:induction false} ExportedCount(contacts: seq<Contact>, n: nat)
    requires n <= |contacts|
    ensures |ExportedLines(contacts, n)| == n + 1
  {
    if n > 0 {
      ExportedCount(contacts, n - 1);
    }
  }

  lemma ImportAppended(contacts: seq<Contact>, lines: seq<string>, line: string, now: string)
    ensures ImportLines(contacts, lines + [line], now)
            == ImportLine(ImportLines(contacts, lines, now), line, |lines|, now)
  {
    assert (lines + [line])[..|lines|] == lines && (lines + [line])[|lines|] == line;
  }

  lemma ImportHeader(now: string)
    ensures ImportLines([], [HEADER], now) == []
  {
    HeaderFacts();
    assert [HEADER][..0] == [];
  }

  /** Importing the exported text into an empty book restores names, addresses, notes and order, for every
      book whose contacts are portable. */
  lemma RoundTrip(contacts: seq<Contact>, now: string)
    requires DistinctNames(contacts) && forall i :: 0 <= i < |contacts| ==> Portable(contacts[i])
    ensures var r := ImportLines([], Lines(CsvText(contacts, |contacts|)), now);
            |r| == |contacts| && forall i :: 0 <= i < |contacts| ==> r[i] == Reimported(contacts[i], now)
  {
    TextIsJoined(contacts, |contacts|);
    ExportedLinesPlain(contacts, |contacts|);
    LinesOfJoined(ExportedLines(contacts, |contacts|));
    ImportRestores(contacts, |contacts|, now);
  }
}
