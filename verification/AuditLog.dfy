/** The capped, hash-chained audit log (wallet/src/audit_log.rs). */
module AuditLogs {
  import opened Wrappers
  import opened Text

  datatype Severity = Info | Warning | Critical

  /** `action` is the action's label and `metadata` its rendering as text. */
  datatype AuditEntry = AuditEntry(
    index: nat, timestamp: string, action: string, severity: Severity, account: string,
    description: string, metadata: string, prevHash: string, hash: string)

  /** What a caller of `append` supplies, with the clock reading. */
  datatype Draft = Draft(
    timestamp: string, action: string, severity: Severity, account: string, description: string, metadata: string)

  const ZEROS := "0000000000000000"
  const GENESIS: string := ZEROS + ZEROS + ZEROS + ZEROS

  function SeverityName(s: Severity): string {
    match s
    case Info => "Info"
    case Warning => "Warning"
    case Critical => "Critical"
  }

  /** The eight fields whose text, with bars between, is hashed. */
  function Fields(e: AuditEntry): seq<string> {
    [Decimal(e.index), e.timestamp, e.action, SeverityName(e.severity), e.account, e.description, e.metadata,
     e.prevHash]
  }

  /** The text whose digest is the entry's hash. */
  function HashedText(e: AuditEntry): string {
    Barred(Fields(e))
  }

  predicate Verifies(digest: string -> string, e: AuditEntry) {
    e.hash == digest(HashedText(e))
  }

  /** The self-hash and link checks for the entry at position `i`. */
  predicate EntryOk(digest: string -> string, entries: seq<AuditEntry>, i: nat)
    requires i < |entries|
  {
    && Verifies(digest, entries[i])
    && (if i == 0 then entries[0].index == 0 ==> entries[0].prevHash == GENESIS
        else entries[i].prevHash == entries[i - 1].hash)
  }

  ghost predicate ChainOk(digest: string -> string, entries: seq<AuditEntry>) {
    forall i {:trigger EntryOk(digest, entries, i)} :: 0 <= i < |entries| ==> EntryOk(digest, entries, i)
  }

  /** The entry `append` builds on top of `entries`. */
  function NewEntry(digest: string -> string, entries: seq<AuditEntry>, d: Draft): AuditEntry {
    var prevHash := if entries == [] then GENESIS else entries[|entries| - 1].hash;
    var e := AuditEntry(|entries|, d.timestamp, d.action, d.severity, d.account, d.description, d.metadata,
                        prevHash, "");
    e.(hash := digest(HashedText(e)))
  }

  predicate Evicts(entries: seq<AuditEntry>, maxEntries: nat) {
    maxEntries > 0 && |entries| + 1 > maxEntries
  }

  function Appended(digest: string -> string, entries: seq<AuditEntry>, maxEntries: nat, d: Draft): seq<AuditEntry> {
    var pushed := entries + [NewEntry(digest, entries, d)];
    if Evicts(entries, maxEntries) then pushed[1..] else pushed
  }

  class AuditLog {
    const digest: string -> string
    const maxEntries: nat
    var entries: seq<AuditEntry>

    constructor (digest: string -> string, maxEntries: nat)
      ensures this.digest == digest && this.maxEntries == maxEntries && entries == []
    {
      this.digest, this.maxEntries, entries := digest, maxEntries, [];
    }

    method Append(d: Draft) returns (e: AuditEntry)
      modifies this
      ensures entries == Appended(digest, old(entries), maxEntries, d)
      ensures entries != [] && e == entries[|entries| - 1] == NewEntry(digest, old(entries), d)
    {
      var index := |entries|;
      var prevHash := if entries == [] then GENESIS else entries[|entries| - 1].hash;
      var entry := AuditEntry(index, d.timestamp, d.action, d.severity, d.account, d.description, d.metadata,
                              prevHash, "");
      entry := entry.(hash := digest(HashedText(entry)));
      entries := entries + [entry];
      if maxEntries > 0 && |entries| > maxEntries {
        entries := entries[1..];
      }
      e := entries[|entries| - 1];
    }

    /** Reports the first position whose self-hash or link check fails. */
    method VerifyChain() returns (r: Result<(), nat>)
      ensures r.Ok? <==> ChainOk(digest, entries)
      ensures r.Err? ==> r.error < |entries| && !EntryOk(digest, entries, r.error)
      ensures r.Err? ==> forall i :: 0 <= i < r.error ==> EntryOk(digest, entries, i)
    {
      for i := 0 to |entries|
        invariant forall k :: 0 <= k < i ==> EntryOk(digest, entries, k)
      {
        if !Verifies(digest, entries[i]) {
          assert !EntryOk(digest, entries, i);
          return Err(i);
        }
        if i == 0 {
          if entries[0].index == 0 && entries[0].prevHash != GENESIS {
            assert !EntryOk(digest, entries, 0);
            return Err(0);
          }
        } else if entries[i].prevHash != entries[i - 1].hash {
          assert !EntryOk(digest, entries, i);
          return Err(i);
        }
      }
      return Ok(());
    }
  }

  // ---- Appending keeps the chain intact ----

  lemma NewEntryOk(digest: string -> string, entries: seq<AuditEntry>, d: Draft)
    requires ChainOk(digest, entries)
    ensures ChainOk(digest, entries + [NewEntry(digest, entries, d)])
  {
    var pushed := entries + [NewEntry(digest, entries, d)];
    var e := NewEntry(digest, entries, d);
    assert HashedText(e) == HashedText(e.(hash := ""));
    forall i | 0 <= i < |pushed|
      ensures EntryOk(digest, pushed, i)
    {
      if i < |entries| {
        assert EntryOk(digest, entries, i);
      }
    }
  }

  /** Dropping the first entry is harmless unless it turns a non-genesis entry of index 0 into the first. */
  lemma DropFirstIff(digest: string -> string, entries: seq<AuditEntry>)
    requires ChainOk(digest, entries) && |entries| >= 2
    ensures ChainOk(digest, entries[1..]) <==> (entries[1].index == 0 ==> entries[1].prevHash == GENESIS)
  {
    var rest := entries[1..];
    if entries[1].index == 0 ==> entries[1].prevHash == GENESIS {
      forall i | 0 <= i < |rest|
        ensures EntryOk(digest, rest, i)
      {
        assert EntryOk(digest, entries, i + 1);
      }
    } else {
      assert !EntryOk(digest, rest, 0);
    }
  }

  /** For any verifying log, loaded ones included: appending keeps it verifying exactly when it does not
      evict down to an entry of index 0 that is not a genesis entry. */
  lemma AppendKeepsChainIff(digest: string -> string, entries: seq<AuditEntry>, maxEntries: nat, d: Draft)
    requires ChainOk(digest, entries)
    ensures ChainOk(digest, Appended(digest, entries, maxEntries, d)) <==>
            (Evicts(entries, maxEntries) && |entries| >= 2 && entries[1].index == 0 ==> entries[1].prevHash == GENESIS)
  {
    NewEntryOk(digest, entries, d);
    var pushed := entries + [NewEntry(digest, entries, d)];
    if Evicts(entries, maxEntries) {
      DropFirstIff(digest, pushed);
    }
  }

  /** An entry of index 0 on top of the given hash. */
  function ZeroEntry(digest: string -> string, prevHash: string): AuditEntry {
    var e := AuditEntry(0, "", "", Info, "", "", "", prevHash, "");
    e.(hash := digest(HashedText(e)))
  }

  /** A log that can be loaded though no appends make it: two entries of index 0. With cap 2 it verifies, and
      after any append it does not. */
  lemma LoadedLogStopsVerifying(digest: string -> string, d: Draft)
    requires ZeroEntry(digest, GENESIS).hash != GENESIS
    ensures var first := ZeroEntry(digest, GENESIS);
            var log := [first, ZeroEntry(digest, first.hash)];
            ChainOk(digest, log) && !ChainOk(digest, Appended(digest, log, 2, d))
  {
    var first := ZeroEntry(digest, GENESIS);
    var second := ZeroEntry(digest, first.hash);
    assert HashedText(first) == HashedText(first.(hash := ""));
    assert HashedText(second) == HashedText(second.(hash := ""));
    assert EntryOk(digest, [first, second], 0) && EntryOk(digest, [first, second], 1);
    AppendKeepsChainIff(digest, [first, second], 2, d);
  }

  /** `n` limited to the cap, where 0 means no cap. */
  function Capped(n: nat, maxEntries: nat): nat {
    if maxEntries > 0 && n > maxEntries then maxEntries else n
  }

  /** The log after a sequence of appends to a new one. */
  function LogAfter(digest: string -> string, maxEntries: nat, drafts: seq<Draft>): seq<AuditEntry> {
    if drafts == [] then []
    else
      var before := drafts[..|drafts| - 1];
      Appended(digest, LogAfter(digest, maxEntries, before), maxEntries, drafts[|drafts| - 1])
  }

  function DraftOf(e: AuditEntry): Draft {
    Draft(e.timestamp, e.action, e.severity, e.account, e.description, e.metadata)
  }

  /** The log holds the last drafts, up to its cap; the entry of the n-th append (from 0) carries index n, or
      the cap once n has reached it. */
  ghost predicate Holds(log: seq<AuditEntry>, maxEntries: nat, drafts: seq<Draft>) {
    && |log| == Capped(|drafts|, maxEntries)
    && (forall i :: 0 <= i < |log| ==> DraftOf(log[i]) == drafts[|drafts| - |log| + i])
    && (forall i :: 0 <= i < |log| ==> log[i].index == Capped(|drafts| - |log| + i, maxEntries))
  }

  /** Pushing an entry of the next index below the cap. */
  lemma PushHolds(log: seq<AuditEntry>, maxEntries: nat, drafts: seq<Draft>, e: AuditEntry)
    requires Holds(log, maxEntries, drafts) && e.index == |log| && !Evicts(log, maxEntries)
    ensures Holds(log + [e], maxEntries, drafts + [DraftOf(e)])
  {
    var log', drafts' := log + [e], drafts + [DraftOf(e)];
    forall i | 0 <= i < |log'|
      ensures DraftOf(log'[i]) == drafts'[|drafts'| - |log'| + i]
      ensures log'[i].index == Capped(|drafts'| - |log'| + i, maxEntries)
    {
      assert i < |log| ==> log'[i] == log[i];
    }
  }

  /** Pushing one at the cap, and dropping the first. */
  lemma PushAndDropHolds(log: seq<AuditEntry>, maxEntries: nat, drafts: seq<Draft>, e: AuditEntry)
    requires Holds(log, maxEntries, drafts) && e.index == |log| && Evicts(log, maxEntries)
    ensures Holds((log + [e])[1..], maxEntries, drafts + [DraftOf(e)])
  {
    var log', drafts' := (log + [e])[1..], drafts + [DraftOf(e)];
    forall i | 0 <= i < |log'|
      ensures DraftOf(log'[i]) == drafts'[|drafts'| - |log'| + i]
      ensures log'[i].index == Capped(|drafts'| - |log'| + i, maxEntries)
    {
      assert i + 1 < |log| ==> log'[i] == log[i + 1];
    }
  }

  lemma NewEntryFrom(digest: string -> string, entries: seq<AuditEntry>, d: Draft)
    ensures NewEntry(digest, entries, d).index == |entries| && DraftOf(NewEntry(digest, entries, d)) == d
  {
  }

  lemma SecondIsNotFirst(log: seq<AuditEntry>, maxEntries: nat, drafts: seq<Draft>)
    requires Holds(log, maxEntries, drafts)
    ensures |log| >= 2 ==> log[1].index > 0
  {
  }

  lemma AppendKeepsChain(digest: string -> string, log: seq<AuditEntry>, maxEntries: nat, d: Draft)
    requires ChainOk(digest, log) && (|log| >= 2 ==> log[1].index > 0)
    ensures ChainOk(digest, Appended(digest, log, maxEntries, d))
  {
    AppendKeepsChainIff(digest, log, maxEntries, d);
  }

  lemma AppendHolds(digest: string -> string, log: seq<AuditEntry>, maxEntries: nat, drafts: seq<Draft>, d: Draft)
    requires Holds(log, maxEntries, drafts)
    ensures Holds(Appended(digest, log, maxEntries, d), maxEntries, drafts + [d])
  {
    NewEntryFrom(digest, log, d);
    if Evicts(log, maxEntries) {
      PushAndDropHolds(log, maxEntries, drafts, NewEntry(digest, log, d));
    } else {
      PushHolds(log, maxEntries, drafts, NewEntry(digest, log, d));
    }
  }

  lemma {:induction false} LogOneMore(digest: string -> string, maxEntries: nat, drafts: seq<Draft>, d: Draft)
    ensures LogAfter(digest, maxEntries, drafts + [d])
            == Appended(digest, LogAfter(digest, maxEntries, drafts), maxEntries, d)
  {
    assert (drafts + [d])[..|drafts|] == drafts;
  }

  ghost predicate Intact(digest: string -> string, log: seq<AuditEntry>, maxEntries: nat, drafts: seq<Draft>) {
    ChainOk(digest, log) && Holds(log, maxEntries, drafts)
  }

  lemma EmptyIsIntact(digest: string -> string, maxEntries: nat)
    ensures Intact(digest, [], maxEntries, [])
  {
  }

  lemma AppendKeepsIntact(digest: string -> string, log: seq<AuditEntry>, maxEntries: nat, drafts: seq<Draft>, d: Draft)
    requires Intact(digest, log, maxEntries, drafts)
    ensures Intact(digest, Appended(digest, log, maxEntries, d), maxEntries, drafts + [d])
  {
    assert Holds(Appended(digest, log, maxEntries, d), maxEntries, drafts + [d]) by {
      AppendHolds(digest, log, maxEntries, drafts, d);
    }
    SecondIsNotFirst(log, maxEntries, drafts);
    AppendKeepsChain(digest, log, maxEntries, d);
  }

  /** After any sequence of appends the chain verifies and the log holds what `Holds` says. */
  lemma {:induction false} AppendsKeepChain(digest: string -> string, maxEntries: nat, drafts: seq<Draft>)
    ensures Intact(digest, LogAfter(digest, maxEntries, drafts), maxEntries, drafts)
    decreases |drafts|
  {
    if drafts == [] {
      EmptyIsIntact(digest, maxEntries);
    } else {
      var before, d := drafts[..|drafts| - 1], drafts[|drafts| - 1];
      assert Intact(digest, LogAfter(digest, maxEntries, before + [d]), maxEntries, before + [d]) by {
        AppendsKeepChain(digest, maxEntries, before);
        AppendKeepsIntact(digest, LogAfter(digest, maxEntries, before), maxEntries, before, d);
        LogOneMore(digest, maxEntries, before, d);
      }
      assert before + [d] == drafts;
    }
  }

  // ---- Tamper evidence ----

  ghost function Texts(entries: seq<AuditEntry>): set<string> {
    set e | e in entries :: HashedText(e)
  }

  /** The layout of the hashed text. */
  lemma TextLayout(e: AuditEntry)
    ensures HashedText(e)
            == Decimal(e.index) + ['|'] + (e.timestamp + ['|'] + (e.action + ['|'] + (SeverityName(e.severity) + ['|']
               + (e.account + ['|'] + (e.description + ['|'] + (e.metadata + ['|'] + e.prevHash))))))
  {
    var f := Fields(e);
    assert f[1..][1..] == f[2..] && f[2..][1..] == f[3..] && f[3..][1..] == f[4..];
    assert f[4..][1..] == f[5..] && f[5..][1..] == f[6..] && f[6..][1..] == f[7..] && f[7..] == [e.prevHash];
    assert Barred(f[6..]) == e.metadata + ['|'] + Barred(f[7..]);
    assert Barred(f[5..]) == e.description + ['|'] + Barred(f[6..]);
    assert Barred(f[4..]) == e.account + ['|'] + Barred(f[5..]);
    assert Barred(f[3..]) == SeverityName(e.severity) + ['|'] + Barred(f[4..]);
    assert Barred(f[2..]) == e.action + ['|'] + Barred(f[3..]);
    assert Barred(f[1..]) == e.timestamp + ['|'] + Barred(f[2..]);
  }

  lemma TextDeterminesIndex(e: AuditEntry, e': AuditEntry)
    requires HashedText(e) == HashedText(e')
    ensures e.index == e'.index
  {
    NumberReadsBack(e.index, e'.index, '|', Barred(Fields(e)[1..]), Barred(Fields(e')[1..]));
  }

  /** The hashed text determines the index, and the previous hash when that is a full digest. */
  lemma TextDetermines(e: AuditEntry, e': AuditEntry)
    requires HashedText(e) == HashedText(e')
    ensures e.index == e'.index
    ensures |e.prevHash| == |e'.prevHash| ==> e.prevHash == e'.prevHash
  {
    TextDeterminesIndex(e, e');
    if |e.prevHash| == |e'.prevHash| {
      LastFieldReadsBack(Fields(e), Fields(e'));
    }
  }

  lemma SameHashSameText(digest: string -> string, a: seq<AuditEntry>, b: seq<AuditEntry>, i: nat, j: nat)
    requires CollisionFreeOn(digest, Texts(a) + Texts(b))
    requires ChainOk(digest, a) && ChainOk(digest, b) && i < |a| && j < |b| && a[i].hash == b[j].hash
    ensures HashedText(a[i]) == HashedText(b[j])
  {
    assert EntryOk(digest, a, i) && EntryOk(digest, b, j);
    assert a[i] in a && b[j] in b;
    assert HashedText(a[i]) in Texts(a) && HashedText(b[j]) in Texts(b);
  }

  lemma SameTextSameLink(digest: string -> string, a: seq<AuditEntry>, b: seq<AuditEntry>, i: nat, j: nat)
    requires HexDigests(digest) && ChainOk(digest, a) && ChainOk(digest, b)
    requires i + 1 < |a| && j + 1 < |b| && HashedText(a[i + 1]) == HashedText(b[j + 1])
    ensures a[i].hash == b[j].hash
  {
    assert EntryOk(digest, a, i) && EntryOk(digest, b, j) && EntryOk(digest, a, i + 1) && EntryOk(digest, b, j + 1);
    assert IsHex(digest(HashedText(a[i]))) && IsHex(digest(HashedText(b[j])));
    TextDetermines(a[i + 1], b[j + 1]);
  }

  lemma LinkBack(digest: string -> string, a: seq<AuditEntry>, b: seq<AuditEntry>, i: nat, j: nat)
    requires HexDigests(digest) && CollisionFreeOn(digest, Texts(a) + Texts(b))
    requires ChainOk(digest, a) && ChainOk(digest, b) && i + 1 < |a| && j + 1 < |b|
    requires a[i + 1].hash == b[j + 1].hash
    ensures a[i].hash == b[j].hash
  {
    SameHashSameText(digest, a, b, i + 1, j + 1);
    SameTextSameLink(digest, a, b, i, j);
  }

  lemma {:induction false} HashesAgree(digest: string -> string, a: seq<AuditEntry>, b: seq<AuditEntry>, k: nat)
    requires HexDigests(digest) && CollisionFreeOn(digest, Texts(a) + Texts(b))
    requires ChainOk(digest, a) && ChainOk(digest, b) && k < |a| && k < |b|
    requires a[|a| - 1].hash == b[|b| - 1].hash
    ensures a[|a| - 1 - k].hash == b[|b| - 1 - k].hash
  {
    if k > 0 {
      HashesAgree(digest, a, b, k - 1);
      LinkBack(digest, a, b, |a| - 1 - k, |b| - 1 - k);
    }
  }

  /** Two verifying chains that end in the same hash hash the same text at every position counted from the
      end, as far as the shorter chain goes. */
  lemma TailsAgree(digest: string -> string, a: seq<AuditEntry>, b: seq<AuditEntry>, k: nat)
    requires HexDigests(digest) && CollisionFreeOn(digest, Texts(a) + Texts(b))
    requires ChainOk(digest, a) && ChainOk(digest, b) && k < |a| && k < |b|
    requires a[|a| - 1].hash == b[|b| - 1].hash
    ensures a[|a| - 1 - k].hash == b[|b| - 1 - k].hash
    ensures HashedText(a[|a| - 1 - k]) == HashedText(b[|b| - 1 - k])
  {
    HashesAgree(digest, a, b, k);
    SameHashSameText(digest, a, b, |a| - 1 - k, |b| - 1 - k);
  }

  lemma SameLastIndex(digest: string -> string, a: seq<AuditEntry>, b: seq<AuditEntry>)
    requires HexDigests(digest) && CollisionFreeOn(digest, Texts(a) + Texts(b))
    requires ChainOk(digest, a) && ChainOk(digest, b) && a != [] && b != []
    requires a[|a| - 1].hash == b[|b| - 1].hash
    ensures a[|a| - 1].index == b[|b| - 1].index
  {
    SameHashSameText(digest, a, b, |a| - 1, |b| - 1);
    TextDeterminesIndex(a[|a| - 1], b[|b| - 1]);
  }

  /** Logs whose indices are positions, as uncapped logs are, are pinned down in length as well. */
  lemma SameHeadSameLength(digest: string -> string, a: seq<AuditEntry>, b: seq<AuditEntry>)
    requires HexDigests(digest) && CollisionFreeOn(digest, Texts(a) + Texts(b))
    requires ChainOk(digest, a) && ChainOk(digest, b) && a != [] && b != []
    requires a[|a| - 1].hash == b[|b| - 1].hash
    requires a[|a| - 1].index == |a| - 1 && b[|b| - 1].index == |b| - 1
    ensures |a| == |b|
    ensures forall i :: 0 <= i < |a| ==> HashedText(a[i]) == HashedText(b[i])
  {
    SameLastIndex(digest, a, b);
    forall i | 0 <= i < |a|
      ensures HashedText(a[i]) == HashedText(b[i])
    {
      TailsAgree(digest, a, b, |a| - 1 - i);
    }
  }

  // ---- Edits of single fields ----

  lemma GenesisIsZeros()
    ensures |GENESIS| == 64 && forall c :: c in GENESIS ==> c == '0'
  {
    assert forall c :: c in ZEROS ==> c == '0';
    assert forall c :: c in GENESIS ==> c in ZEROS;
  }

  lemma SeverityNamesDistinct(s: Severity, s': Severity)
    ensures SeverityName(s) == SeverityName(s') ==> s == s'
  {
  }

  /** The hashed fields of two entries differ in at most the `i`-th. */
  ghost predicate EditsField(e: AuditEntry, e': AuditEntry, i: nat) {
    i < 8 && Fields(e') == Fields(e)[i := Fields(e')[i]]
  }

  /** Exactly one of the nine fields was changed. */
  ghost predicate OneFieldEdited(e: AuditEntry, e': AuditEntry) {
    && e' != e
    && (|| e' == e.(index := e'.index) || e' == e.(timestamp := e'.timestamp) || e' == e.(action := e'.action)
        || e' == e.(severity := e'.severity) || e' == e.(account := e'.account)
        || e' == e.(description := e'.description) || e' == e.(metadata := e'.metadata)
        || e' == e.(prevHash := e'.prevHash) || e' == e.(hash := e'.hash))
  }

  lemma FieldsTellApart(e: AuditEntry, e': AuditEntry)
    requires Fields(e) == Fields(e')
    ensures e == e'.(hash := e.hash)
  {
    assert Fields(e)[0] == Fields(e')[0] && Fields(e)[1] == Fields(e')[1] && Fields(e)[2] == Fields(e')[2];
    assert Fields(e)[3] == Fields(e')[3] && Fields(e)[4] == Fields(e')[4] && Fields(e)[5] == Fields(e')[5];
    assert Fields(e)[6] == Fields(e')[6] && Fields(e)[7] == Fields(e')[7];
    DecimalInjective(e.index, e'.index);
    SeverityNamesDistinct(e.severity, e'.severity);
  }

  lemma EditedField(e: AuditEntry, e': AuditEntry) returns (i: nat)
    requires OneFieldEdited(e, e') && e'.hash == e.hash
    ensures EditsField(e, e', i)
  {
    i := if e'.index != e.index then 0 else if e'.timestamp != e.timestamp then 1
         else if e'.action != e.action then 2 else if e'.severity != e.severity then 3
         else if e'.account != e.account then 4 else if e'.description != e.description then 5
         else if e'.metadata != e.metadata then 6 else 7;
  }

  /** Two entries that differ in one hashed field, be it index, time, action, severity, account, description,
      metadata or previous hash, have different hashed texts. */
  lemma EditShowsInText(e: AuditEntry, e': AuditEntry)
    requires OneFieldEdited(e, e') && e'.hash == e.hash
    ensures HashedText(e) != HashedText(e')
  {
    var i := EditedField(e, e');
    if HashedText(e) == HashedText(e') {
      OneFieldShows(Fields(e), i, Fields(e')[i]);
      assert Fields(e') == Fields(e);
      FieldsTellApart(e, e');
    }
  }

  lemma EditFailsItsHash(digest: string -> string, e: AuditEntry, e': AuditEntry)
    requires Verifies(digest, e) && OneFieldEdited(e, e')
    requires CollisionFreeOn(digest, {HashedText(e), HashedText(e')})
    ensures !Verifies(digest, e')
  {
    if e'.hash == e.hash {
      EditShowsInText(e, e');
    } else {
      assert Fields(e') == Fields(e);
    }
  }

  /** The position `verify_chain` reports. */
  ghost predicate FirstFailure(digest: string -> string, entries: seq<AuditEntry>, i: nat) {
    i < |entries| && !EntryOk(digest, entries, i) && forall j :: 0 <= j < i ==> EntryOk(digest, entries, j)
  }

  /** Changing any one field of any entry of an intact log is reported at that entry, when the digest tells the
      two texts apart. */
  lemma EditIsReported(digest: string -> string, entries: seq<AuditEntry>, i: nat, e: AuditEntry)
    requires ChainOk(digest, entries) && i < |entries| && OneFieldEdited(entries[i], e)
    requires CollisionFreeOn(digest, {HashedText(entries[i]), HashedText(e)})
    ensures FirstFailure(digest, entries[i := e], i)
  {
    assert EntryOk(digest, entries, i);
    EditFailsItsHash(digest, entries[i], e);
    var edited := entries[i := e];
    forall j | 0 <= j < i
      ensures EntryOk(digest, edited, j)
    {
      assert EntryOk(digest, entries, j);
    }
  }

  // ---- Whole entries ----

  /** The fields before the metadata hold no bar. */
  ghost predicate NoBars(e: AuditEntry) {
    '|' !in e.timestamp && '|' !in e.action && '|' !in e.account && '|' !in e.description
  }

  lemma LeadingHasNoBars(e: AuditEntry)
    requires NoBars(e)
    ensures forall i :: 0 <= i < 6 ==> '|' !in Fields(e)[i]
  {
  }

  lemma MetadataReadsBack(m: string, p: string, m': string, p': string)
    requires Barred([m, p]) == Barred([m', p']) && |p| == |p'|
    ensures m == m' && p == p'
  {
    assert [m, p][1..] == [p] && [m', p'][1..] == [p'];
    assert Barred([m, p]) == m + ['|'] + p && Barred([m', p']) == m' + ['|'] + p';
    SameEnds(m + ['|'], p, m' + ['|'], p');
    SameEnds(m, ['|'], m', ['|']);
  }

  /** Without bars in the fields before the metadata, the text determines the whole entry. */
  lemma TextDeterminesEntry(e: AuditEntry, e': AuditEntry)
    requires HashedText(e) == HashedText(e') && |e.prevHash| == |e'.prevHash| && NoBars(e) && NoBars(e')
    ensures e == e'.(hash := e.hash)
  {
    LeadingHasNoBars(e);
    LeadingHasNoBars(e');
    LeadingFieldsReadBack(Fields(e), Fields(e'), 6);
    assert Fields(e)[6..] == [e.metadata, e.prevHash] && Fields(e')[6..] == [e'.metadata, e'.prevHash];
    MetadataReadsBack(e.metadata, e.prevHash, e'.metadata, e'.prevHash);
    assert Fields(e) == Fields(e)[..6] + Fields(e)[6..] && Fields(e') == Fields(e')[..6] + Fields(e')[6..];
    FieldsTellApart(e, e');
  }

  /** With bars it does not: the bar can belong to either of two neighbouring fields. */
  lemma BarsBlurFields(e: AuditEntry)
    ensures HashedText(e.(account := "a|b", description := "c")) == HashedText(e.(account := "a", description := "b|c"))
  {
    var x, y := e.(account := "a|b", description := "c"), e.(account := "a", description := "b|c");
    var rest := [e.metadata, e.prevHash];
    assert Fields(x)[4..] == ["a|b", "c"] + rest && Fields(y)[4..] == ["a", "b|c"] + rest;
    TwoThenRest("a|b", "c", rest);
    TwoThenRest("a", "b|c", rest);
    assert "a|b" + ['|'] + "c" == "a" + ['|'] + "b|c";
    assert Fields(x)[..4] == Fields(y)[..4];
    SameTailSameText(Fields(x), Fields(y), 4);
  }

  lemma TwoThenRest(f: string, g: string, rest: seq<string>)
    requires rest != []
    ensures Barred([f, g] + rest) == (f + ['|'] + g) + (['|'] + Barred(rest))
  {
    assert ([f, g] + rest)[1..] == [g] + rest && ([g] + rest)[1..] == rest;
    assert Barred([g] + rest) == g + ['|'] + Barred(rest);
    assert f + ['|'] + (g + ['|'] + Barred(rest)) == (f + ['|'] + g) + (['|'] + Barred(rest));
  }

  lemma {:induction false} SameTailSameText(fields: seq<string>, fields': seq<string>, k: nat)
    requires k < |fields| == |fields'| && fields[..k] == fields'[..k] && Barred(fields[k..]) == Barred(fields'[k..])
    ensures Barred(fields) == Barred(fields')
    decreases k
  {
    if k == 0 {
      assert fields[0..] == fields && fields'[0..] == fields';
    } else {
      assert fields[0] == fields[..k][0] && fields'[0] == fields'[..k][0];
      assert fields[1..][k - 1..] == fields[k..] && fields'[1..][k - 1..] == fields'[k..];
      assert fields[1..][..k - 1] == fields[..k][1..] && fields'[1..][..k - 1] == fields'[..k][1..];
      SameTailSameText(fields[1..], fields'[1..], k - 1);
    }
  }

  lemma LinkedPrevHash(digest: string -> string, entries: seq<AuditEntry>, i: nat)
    requires HexDigests(digest) && ChainOk(digest, entries) && i < |entries|
    requires i > 0 || entries[0].index == 0
    ensures |entries[i].prevHash| == 64
  {
    assert EntryOk(digest, entries, i);
    GenesisIsZeros();
    if i > 0 {
      assert EntryOk(digest, entries, i - 1);
      assert IsHex(digest(HashedText(entries[i - 1])));
    }
  }

  /** Two verifying chains without such bars that end in the same hash hold the same entries, counted from the
      end, as far as both have a linked or genesis entry there. */
  lemma TailEntriesAgree(digest: string -> string, a: seq<AuditEntry>, b: seq<AuditEntry>, k: nat)
    requires HexDigests(digest) && CollisionFreeOn(digest, Texts(a) + Texts(b))
    requires ChainOk(digest, a) && ChainOk(digest, b) && k < |a| && k < |b|
    requires a[|a| - 1].hash == b[|b| - 1].hash
    requires k < |a| - 1 || a[0].index == 0
    requires k < |b| - 1 || b[0].index == 0
    requires NoBars(a[|a| - 1 - k]) && NoBars(b[|b| - 1 - k])
    ensures a[|a| - 1 - k] == b[|b| - 1 - k]
  {
    var i, j := |a| - 1 - k, |b| - 1 - k;
    TailsAgree(digest, a, b, k);
    LinkedPrevHash(digest, a, i);
    LinkedPrevHash(digest, b, j);
    TextDeterminesEntry(a[i], b[j]);
  }
}
