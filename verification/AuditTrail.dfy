/** The uncapped audit trail (wallet/src/audit_trail.rs): only sequence, previous hash, action and time are
    hashed. */
module AuditTrails {
  import opened Wrappers
  import opened Text

  datatype AuditSeverity = Info | Warning | Critical

  /** `action` is the rendering of the action. */
  datatype AuditEntry = AuditEntry(
    id: string, sequence: nat, action: string, severity: AuditSeverity, actor: string, target: string,
    details: map<string, string>, timestamp: string, prevHash: string, entryHash: string)

  datatype VerifyResult = Valid | Broken(index: nat)

  const GENESIS := "genesis"

  function HashInput(e: AuditEntry): string {
    Decimal(e.sequence) + [':'] + (e.prevHash + [':'] + (e.action + [':'] + e.timestamp))
  }

  function ExpectedPrev(entries: seq<AuditEntry>, i: nat): string
    requires i <= |entries|
  {
    if i == 0 then GENESIS else entries[i - 1].entryHash
  }

  predicate EntryOk(digest: string -> string, entries: seq<AuditEntry>, i: nat)
    requires i < |entries|
  {
    entries[i].prevHash == ExpectedPrev(entries, i) && entries[i].entryHash == digest(HashInput(entries[i]))
  }

  ghost predicate ChainOk(digest: string -> string, entries: seq<AuditEntry>) {
    forall i :: 0 <= i < |entries| ==> EntryOk(digest, entries, i)
  }

  function EntryId(sequence: nat, entryHash: string): string
    requires |entryHash| >= 8
  {
    "audit-" + (Decimal(sequence) + ['-'] + entryHash[..8])
  }

  /** The chain verifies, sequence numbers are positions, and ids are built from them. */
  ghost predicate Recorded(digest: string -> string, entries: seq<AuditEntry>) {
    && ChainOk(digest, entries)
    && (forall i :: 0 <= i < |entries| ==> entries[i].sequence == i)
    && (forall i :: 0 <= i < |entries| ==>
          |entries[i].entryHash| >= 8 && entries[i].id == EntryId(i, entries[i].entryHash))
  }

  class AuditTrail {
    const digest: string -> string
    var entries: seq<AuditEntry>
    var nextSequence: nat

    ghost predicate Valid()
      reads this
    {
      HexDigests(digest) && nextSequence == |entries| && Recorded(digest, entries)
    }

    constructor (digest: string -> string)
      requires HexDigests(digest)
      ensures Valid() && this.digest == digest && entries == []
    {
      this.digest, entries, nextSequence := digest, [], 0;
    }

    /** Appends one entry and returns its id. */
    method Record(action: string, severity: AuditSeverity, actor: string, target: string,
                  details: map<string, string>, timestamp: string) returns (id: string)
      requires Valid()
      modifies this
      ensures Valid()
      ensures |entries| == |old(entries)| + 1 && entries[..|old(entries)|] == old(entries)
      ensures var e := entries[|old(entries)|];
              && e.id == id && e.action == action && e.severity == severity && e.actor == actor
              && e.target == target && e.details == details && e.timestamp == timestamp
      ensures forall i :: 0 <= i < |old(entries)| ==> old(entries)[i].id != id
    {
      var sequence := nextSequence;
      var prevHash := if entries == [] then GENESIS else entries[|entries| - 1].entryHash;
      var hashInput := Decimal(sequence) + ":" + prevHash + ":" + action + ":" + timestamp;
      var entryHash := digest(hashInput);
      assert IsHex(entryHash);
      id := "audit-" + Decimal(sequence) + "-" + entryHash[..8];
      var entry := AuditEntry(id, sequence, action, severity, actor, target, details, timestamp, prevHash, entryHash);
      assert hashInput == HashInput(entry);
      assert id == EntryId(sequence, entryHash);
      RecordedGrows(digest, entries, entry);
      entries := entries + [entry];
      nextSequence := nextSequence + 1;
      IdsDistinct(digest, entries);
    }

    /** Reports the first position whose link or hash check fails. */
    method VerifyChain() returns (r: VerifyResult)
      ensures r == VerifyResult.Valid <==> ChainOk(digest, entries)
      ensures r.Broken? ==> r.index < |entries| && !EntryOk(digest, entries, r.index)
      ensures r.Broken? ==> forall i :: 0 <= i < r.index ==> EntryOk(digest, entries, i)
    {
      for i := 0 to |entries|
        invariant forall k :: 0 <= k < i ==> EntryOk(digest, entries, k)
      {
        var expectedPrev := if i == 0 then GENESIS else entries[i - 1].entryHash;
        if entries[i].prevHash != expectedPrev {
          assert !EntryOk(digest, entries, i);
          return Broken(i);
        }
        if entries[i].entryHash != digest(HashInput(entries[i])) {
          assert !EntryOk(digest, entries, i);
          return Broken(i);
        }
      }
      return VerifyResult.Valid;
    }
  }

  lemma RecordedGrows(digest: string -> string, entries: seq<AuditEntry>, e: AuditEntry)
    requires Recorded(digest, entries)
    requires e.sequence == |entries| && e.prevHash == ExpectedPrev(entries, |entries|)
    requires e.entryHash == digest(HashInput(e)) && |e.entryHash| >= 8 && e.id == EntryId(e.sequence, e.entryHash)
    ensures Recorded(digest, entries + [e])
  {
    var grown := entries + [e];
    forall i | 0 <= i < |grown|
      ensures EntryOk(digest, grown, i)
    {
      if i < |entries| {
        assert EntryOk(digest, entries, i);
      }
    }
  }

  /** No two recorded entries share an id. */
  lemma IdsDistinct(digest: string -> string, entries: seq<AuditEntry>)
    requires Recorded(digest, entries)
    ensures forall i, j :: 0 <= i < j < |entries| ==> entries[i].id != entries[j].id
  {
    forall i, j | 0 <= i < j < |entries|
      ensures entries[i].id != entries[j].id
    {
      IdDeterminesSequence(i, entries[i].entryHash, j, entries[j].entryHash);
    }
  }

  lemma IdDeterminesSequence(n: nat, h: string, n': nat, h': string)
    requires |h| >= 8 && |h'| >= 8
    ensures EntryId(n, h) == EntryId(n', h') ==> n == n'
  {
    if EntryId(n, h) == EntryId(n', h') {
      var x, x' := Decimal(n) + ['-'] + h[..8], Decimal(n') + ['-'] + h'[..8];
      assert x == EntryId(n, h)[6..] == x';
      NumberReadsBack(n, n', '-', h[..8], h'[..8]);
    }
  }

  // ---- Tamper evidence ----

  ghost function Inputs(entries: seq<AuditEntry>): set<string> {
    set e | e in entries :: HashInput(e)
  }

  /** The hashed text determines the sequence number and the previous hash. */
  lemma InputDetermines(e: AuditEntry, e': AuditEntry)
    requires HashInput(e) == HashInput(e') && ':' !in e.prevHash && ':' !in e'.prevHash
    ensures e.sequence == e'.sequence && e.prevHash == e'.prevHash
  {
    var rest, rest' := e.action + [':'] + e.timestamp, e'.action + [':'] + e'.timestamp;
    NumberReadsBack(e.sequence, e'.sequence, ':', e.prevHash + [':'] + rest, e'.prevHash + [':'] + rest');
    FieldReadsBack(e.prevHash, e'.prevHash, ':', rest, rest');
  }

  /** In a verifying trail a previous hash is a digest, except the first, which is the genesis marker. */
  lemma PrevHashShape(digest: string -> string, entries: seq<AuditEntry>, i: nat)
    requires HexDigests(digest) && ChainOk(digest, entries) && i < |entries|
    ensures ':' !in entries[i].prevHash
    ensures entries[i].prevHash == GENESIS <==> i == 0
    ensures i > 0 ==> entries[i].prevHash == entries[i - 1].entryHash
  {
    assert EntryOk(digest, entries, i);
    if i > 0 {
      assert EntryOk(digest, entries, i - 1);
      assert IsHex(digest(HashInput(entries[i - 1])));
    }
  }

  lemma SameHashSameInput(digest: string -> string, a: seq<AuditEntry>, b: seq<AuditEntry>, i: nat, j: nat)
    requires CollisionFreeOn(digest, Inputs(a) + Inputs(b))
    requires i < |a| && j < |b| && EntryOk(digest, a, i) && EntryOk(digest, b, j) && a[i].entryHash == b[j].entryHash
    ensures HashInput(a[i]) == HashInput(b[j])
  {
    assert a[i] in a && b[j] in b;
    assert HashInput(a[i]) in Inputs(a) && HashInput(b[j]) in Inputs(b);
  }

  ghost predicate SameHashed(e: AuditEntry, e': AuditEntry) {
    && HashInput(e) == HashInput(e')
    && e.sequence == e'.sequence && e.prevHash == e'.prevHash && e.entryHash == e'.entryHash
  }

  /** Entries with equal hashes in two verifying trails agree on everything hashed, and are first together. */
  lemma EntriesAgree(digest: string -> string, a: seq<AuditEntry>, b: seq<AuditEntry>, i: nat, j: nat)
    requires HexDigests(digest) && CollisionFreeOn(digest, Inputs(a) + Inputs(b))
    requires ChainOk(digest, a) && ChainOk(digest, b) && i < |a| && j < |b| && a[i].entryHash == b[j].entryHash
    ensures SameHashed(a[i], b[j])
    ensures i == 0 <==> j == 0
    ensures i > 0 && j > 0 ==> a[i - 1].entryHash == b[j - 1].entryHash
  {
    assert EntryOk(digest, a, i) && EntryOk(digest, b, j);
    SameHashSameInput(digest, a, b, i, j);
    PrevHashShape(digest, a, i);
    PrevHashShape(digest, b, j);
    InputDetermines(a[i], b[j]);
  }

  /** The same, for all entries at and before two positions with equal hashes. */
  lemma {:induction false} PrefixesAgree(digest: string -> string, a: seq<AuditEntry>, b: seq<AuditEntry>, i: nat,
                                         j: nat)
    requires HexDigests(digest) && CollisionFreeOn(digest, Inputs(a) + Inputs(b))
    requires ChainOk(digest, a) && ChainOk(digest, b) && i < |a| && j < |b| && a[i].entryHash == b[j].entryHash
    ensures i == j
    ensures forall k :: 0 <= k <= i ==> SameHashed(a[k], b[k])
  {
    EntriesAgree(digest, a, b, i, j);
    if i > 0 {
      PrefixesAgree(digest, a, b, i - 1, j - 1);
    }
  }

  /** Two verifying trails with the same last hash have the same length and agree, at every position, on the
      hashed text and with it on sequence number and hashes. */
  lemma SameHeadSameTrail(digest: string -> string, a: seq<AuditEntry>, b: seq<AuditEntry>)
    requires HexDigests(digest) && CollisionFreeOn(digest, Inputs(a) + Inputs(b))
    requires ChainOk(digest, a) && ChainOk(digest, b) && a != [] && b != []
    requires a[|a| - 1].entryHash == b[|b| - 1].entryHash
    ensures |a| == |b|
    ensures forall i :: 0 <= i < |a| ==> SameHashed(a[i], b[i])
  {
    PrefixesAgree(digest, a, b, |a| - 1, |b| - 1);
  }

  // ---- Edits ----

  /** Nothing that is hashed or linked was changed. */
  ghost predicate OnlyUnhashedEdited(e: AuditEntry, e': AuditEntry) {
    e' == e.(id := e'.id, severity := e'.severity, actor := e'.actor, target := e'.target, details := e'.details)
  }

  /** Exactly one of the hashed or linked fields was changed, whatever became of the others. */
  ghost predicate OneHashedEdited(e: AuditEntry, e': AuditEntry) {
    && !OnlyUnhashedEdited(e, e')
    && (|| OnlyUnhashedEdited(e, e'.(sequence := e.sequence)) || OnlyUnhashedEdited(e, e'.(action := e.action))
        || OnlyUnhashedEdited(e, e'.(timestamp := e.timestamp)) || OnlyUnhashedEdited(e, e'.(prevHash := e.prevHash))
        || OnlyUnhashedEdited(e, e'.(entryHash := e.entryHash)))
  }

  lemma SameSequenceText(n: nat, n': nat, rest: string)
    requires Decimal(n) + [':'] + rest == Decimal(n') + [':'] + rest
    ensures n == n'
  {
    NumberReadsBack(n, n', ':', rest, rest);
  }

  /** Two inputs that agree in sequence number and previous hash agree in what follows. */
  lemma SameFront(e: AuditEntry, e': AuditEntry)
    requires HashInput(e) == HashInput(e') && e.sequence == e'.sequence && e.prevHash == e'.prevHash
    ensures e.action + [':'] + e.timestamp == e'.action + [':'] + e'.timestamp
  {
    var rest, rest' := e.action + [':'] + e.timestamp, e'.action + [':'] + e'.timestamp;
    SameStart(Decimal(e.sequence) + [':'], e.prevHash + [':'] + rest, e.prevHash + [':'] + rest');
    SameStart(e.prevHash + [':'], rest, rest');
  }

  /** Changing the sequence number, the action or the time changes the hashed text. */
  lemma EditShowsInInput(e: AuditEntry, e': AuditEntry)
    requires OneHashedEdited(e, e') && e'.entryHash == e.entryHash && e'.prevHash == e.prevHash
    ensures HashInput(e) != HashInput(e')
  {
    if HashInput(e) == HashInput(e') {
      if e'.sequence != e.sequence {
        SameSequenceText(e.sequence, e'.sequence, e.prevHash + [':'] + (e.action + [':'] + e.timestamp));
      } else {
        SameFront(e, e');
        if e'.action != e.action {
          SameBefore(e.action, e'.action, ':', e.timestamp);
        } else {
          SameStart(e.action + [':'], e.timestamp, e'.timestamp);
        }
      }
    }
  }

  ghost predicate FirstFailure(digest: string -> string, entries: seq<AuditEntry>, i: nat) {
    i < |entries| && !EntryOk(digest, entries, i) && forall j :: 0 <= j < i ==> EntryOk(digest, entries, j)
  }

  lemma EarlierStayOk(digest: string -> string, entries: seq<AuditEntry>, i: nat, e: AuditEntry, j: nat)
    requires ChainOk(digest, entries) && j < i < |entries|
    ensures EntryOk(digest, entries[i := e], j)
  {
    assert EntryOk(digest, entries, j);
  }

  /** Changing the sequence number, action, time, previous hash or hash of an entry of an intact trail is
      reported at that entry, when the digest tells the two texts apart. */
  lemma EditIsReported(digest: string -> string, entries: seq<AuditEntry>, i: nat, e: AuditEntry)
    requires ChainOk(digest, entries) && i < |entries| && OneHashedEdited(entries[i], e)
    requires CollisionFreeOn(digest, {HashInput(entries[i]), HashInput(e)})
    ensures FirstFailure(digest, entries[i := e], i)
  {
    var edited := entries[i := e];
    assert EntryOk(digest, entries, i);
    if e.prevHash == entries[i].prevHash && e.entryHash == entries[i].entryHash {
      EditShowsInInput(entries[i], e);
    } else if e.prevHash == entries[i].prevHash {
      assert HashInput(e) == HashInput(entries[i]);
    } else {
      assert ExpectedPrev(edited, i) == ExpectedPrev(entries, i);
    }
    forall j | 0 <= j < i
      ensures EntryOk(digest, edited, j)
    {
      EarlierStayOk(digest, entries, i, e, j);
    }
  }

  /** Changing only id, severity, actor, target or details is never reported: they are not hashed. */
  lemma UnhashedEditPasses(digest: string -> string, entries: seq<AuditEntry>, i: nat, e: AuditEntry)
    requires i < |entries| && OnlyUnhashedEdited(entries[i], e)
    ensures ChainOk(digest, entries[i := e]) <==> ChainOk(digest, entries)
  {
    var edited := entries[i := e];
    assert HashInput(e) == HashInput(entries[i]);
    forall j | 0 <= j < |entries|
      ensures EntryOk(digest, edited, j) <==> EntryOk(digest, entries, j)
    {
      assert ExpectedPrev(edited, j) == ExpectedPrev(entries, j);
    }
  }

  /** Rendered actions without a colon can be read back, so that two verifying trails with the same last hash
      agree in every action and time too. */
  lemma SameHeadSameActions(digest: string -> string, a: seq<AuditEntry>, b: seq<AuditEntry>, i: nat)
    requires HexDigests(digest) && CollisionFreeOn(digest, Inputs(a) + Inputs(b))
    requires ChainOk(digest, a) && ChainOk(digest, b) && a != [] && b != []
    requires a[|a| - 1].entryHash == b[|b| - 1].entryHash
    requires i < |a| && i < |b| && ':' !in a[i].action && ':' !in b[i].action
    ensures a[i].action == b[i].action && a[i].timestamp == b[i].timestamp
  {
    SameHeadSameTrail(digest, a, b);
    assert SameHashed(a[i], b[i]);
    SameFront(a[i], b[i]);
    FieldReadsBack(a[i].action, b[i].action, ':', a[i].timestamp, b[i].timestamp);
  }
}
