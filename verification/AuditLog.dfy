/** The tamper-evident audit log of scrapyard/admin/audit_logs.py: a hash chain whose verifier
    accepts exactly the well-formed chains. */
module AuditLog {
  import opened Wrappers

  /** A datetime: the wall-clock reading in microseconds and, when aware, its offset from UTC */
  datatype Stamp = Naive(micros: int) | Aware(micros: int, offset: int)

  /** The reading that is hashed: UTC for an aware value, the plain reading for a naive one */
  function Ts(t: Stamp): int {
    match t
    case Naive(m) => m
    case Aware(m, off) => m - off
  }

  /** What SQLite gives back for a stored datetime: the same reading, without its offset */
  function Stored(t: Stamp): Stamp {
    Naive(t.micros)
  }

  datatype Payload = Payload(actor: Option<int>, action: string, target: string, detail: string, ts: int, prev: string)

  /** A row of audit_logs, without its primary key; `seal` is the witness column. */
  datatype Entry = Entry(
    actor: Option<int>,
    action: string,
    target: string,
    detail: string,
    createdAt: Stamp,
    prevHash: string,
    entryHash: string,
    seal: string)

  /** SHA-256 of the canonical JSON, the witness key pair, and which strings bytes.fromhex accepts.
      `sign` yields "" when signing is not available. */
  datatype Crypto = Crypto(
    hash: Payload -> string,
    sign: string -> string,
    verify: (string, string) -> bool,
    hex: string -> bool)

  const GENESIS := "0000000000000000000000000000000000000000000000000000000000000000"

  /** What is assumed of them: no two payloads share a hash, none has the genesis or the empty one,
      and what was signed is hex and verifies. */
  ghost predicate Sound(c: Crypto) {
    && (forall p, q :: c.hash(p) == c.hash(q) ==> p == q)
    && (forall p :: c.hash(p) != GENESIS && c.hash(p) != "")
    && (forall m :: c.sign(m) != "" ==> c.hex(c.sign(m)) && c.verify(m, c.sign(m)))
  }

  function PayloadOf(e: Entry): Payload {
    Payload(e.actor, e.action, e.target, e.detail, Ts(e.createdAt), e.prevHash)
  }

  /** The hash the next entry must name as its predecessor */
  function Head(log: seq<Entry>): string {
    if log == [] then GENESIS else log[|log| - 1].entryHash
  }

  datatype Reason = Mutated | Unlinked | BadWitness

  /** The findings on one row */
  function FindingsAt(c: Crypto, e: Entry, expected: string): seq<Reason> {
    (if c.hash(PayloadOf(e)) != e.entryHash then [Mutated] else [])
    + (if e.prevHash != expected then [Unlinked] else [])
    + (if e.seal != "" && !c.verify(e.entryHash, e.seal) then [BadWitness] else [])
  }

  datatype Report = Report(ok: bool, count: nat, broken: seq<(int, Reason)>, witnessed: nat)

  datatype Row = Row(id: int, entry: Entry)

  function Entries(rows: seq<Row>): seq<Entry> {
    seq(|rows|, i requires 0 <= i < |rows| => rows[i].entry)
  }

  // ---------------------------------------------------------------------------------
  // Well-formed chains, position by position
  // ---------------------------------------------------------------------------------

  function ExpectedAt(log: seq<Entry>, i: nat): string
    requires i <= |log|
  {
    if i == 0 then GENESIS else log[i - 1].entryHash
  }

  predicate GoodAt(c: Crypto, log: seq<Entry>, i: nat)
    requires i < |log|
  {
    && log[i].entryHash == c.hash(PayloadOf(log[i]))
    && log[i].prevHash == ExpectedAt(log, i)
    && (log[i].seal != "" ==> c.verify(log[i].entryHash, log[i].seal))
  }

  ghost predicate WellFormed(c: Crypto, log: seq<Entry>) {
    forall i: nat :: i < |log| ==> GoodAt(c, log, i)
  }

  /** Every witness there is can be decoded. */
  ghost predicate Readable(c: Crypto, log: seq<Entry>) {
    forall e :: e in log && e.seal != "" ==> c.hex(e.seal)
  }

  // ---------------------------------------------------------------------------------
  // record and verify_chain
  // ---------------------------------------------------------------------------------

  /** One call of record(): the time is datetime.now(timezone.utc); `signing` is whether the witness
      could be made. */
  datatype Call = Call(actor: Option<int>, action: string, target: string, detail: string, now: int, signing: bool)

  function NewEntry(c: Crypto, log: seq<Entry>, call: Call): Entry {
    var prev := if Head(log) != "" then Head(log) else GENESIS;
    var eh := c.hash(Payload(call.actor, call.action, call.target, call.detail, call.now, prev));
    Entry(call.actor, call.action, call.target, call.detail, Naive(call.now), prev, eh,
          if call.signing then c.sign(eh) else "")
  }

  /** The log a run of record() leaves */
  function Built(c: Crypto, calls: seq<Call>): seq<Entry>
    decreases |calls|
  {
    if calls == [] then []
    else
      var log := Built(c, calls[..|calls| - 1]);
      log + [NewEntry(c, log, calls[|calls| - 1])]
  }

  function Tagged(id: int, reasons: seq<Reason>): seq<(int, Reason)> {
    seq(|reasons|, i requires 0 <= i < |reasons| => (id, reasons[i]))
  }

  /** The findings on all rows, in order */
  function AllFindings(c: Crypto, rows: seq<Row>): seq<(int, Reason)> {
    if rows == [] then []
    else
      var front, last := rows[..|rows| - 1], rows[|rows| - 1];
      AllFindings(c, front) + Tagged(last.id, FindingsAt(c, last.entry, Head(Entries(front))))
  }

  class Log {
    const crypto: Crypto
    var rows: seq<Row>

    ghost predicate Ordered()
      reads this`rows
    {
      forall i, j :: 0 <= i < j < |rows| ==> rows[i].id < rows[j].id
    }

    constructor (crypto: Crypto)
      ensures this.crypto == crypto && rows == [] && Ordered()
    {
      this.crypto := crypto;
      rows := [];
    }

    /** record(): chain to the last entry, hash, sign if signing works, append */
    method Record(call: Call) returns (entry: Entry)
      requires Ordered()
      modifies this`rows
      ensures Ordered() && |rows| == |old(rows)| + 1 && rows[..|old(rows)|] == old(rows)
      ensures Entries(rows) == Entries(old(rows)) + [entry]
      ensures entry == NewEntry(crypto, Entries(old(rows)), call)
      ensures entry.actor == call.actor && entry.action == call.action
              && entry.target == call.target && entry.detail == call.detail
      ensures entry.createdAt == Naive(call.now)
      ensures entry.prevHash == if old(rows) == [] || old(rows)[|old(rows)| - 1].entry.entryHash == "" then GENESIS
                                else old(rows)[|old(rows)| - 1].entry.entryHash
      ensures entry.entryHash == crypto.hash(Payload(call.actor, call.action, call.target, call.detail, call.now,
                                                     entry.prevHash))
      ensures entry.seal == if call.signing then crypto.sign(entry.entryHash) else ""
    {
      var prevHash := if rows != [] && rows[|rows| - 1].entry.entryHash != "" then rows[|rows| - 1].entry.entryHash
                      else GENESIS;
      var createdAt := Aware(call.now, 0);
      var eh := crypto.hash(Payload(call.actor, call.action, call.target, call.detail, Ts(createdAt), prevHash));
      var seal := "";
      if call.signing {
        seal := crypto.sign(eh);
      }
      entry := Entry(call.actor, call.action, call.target, call.detail, Stored(createdAt), prevHash, eh, seal);
      var id := if rows == [] then 1 else rows[|rows| - 1].id + 1;
      rows := rows + [Row(id, entry)];
    }

    /** verify_chain(): every row against its own hash, the row before it, and its witness. None is an
        exception: the signing module is not `available`, or a witness is not hex. */
    method VerifyChain(available: bool) returns (r: Option<Report>)
      ensures r.Some? <==> available && Readable(crypto, Entries(rows))
      ensures r.Some? ==> (r.value.ok <==> WellFormed(crypto, Entries(rows)))
      ensures r.Some? ==> r.value.broken == AllFindings(crypto, rows)
      ensures r.Some? ==> r.value.count == |rows| && r.value.witnessed == Witnessed(Entries(rows))
    {
      if !available {
        return None;
      }
      var broken: seq<(int, Reason)>, witnessed, expected := [], 0, GENESIS;
      for i := 0 to |rows|
        invariant expected == Head(Entries(rows[..i]))
        invariant broken == AllFindings(crypto, rows[..i])
        invariant witnessed == Witnessed(Entries(rows[..i]))
        invariant Readable(crypto, Entries(rows[..i]))
      {
        var e := rows[i].entry;
        NextRow(crypto, rows, i);
        if e.seal != "" {
          if !crypto.hex(e.seal) {
            assert Entries(rows)[i] == e;
            return None;
          }
          witnessed := witnessed + 1;
        }
        broken := broken + Tagged(rows[i].id, FindingsAt(crypto, e, expected));
        expected := e.entryHash;
      }
      assert rows[..|rows|] == rows;
      NoFindings(crypto, rows);
      r := Some(Report(broken == [], |rows|, broken, witnessed));
    }
  }

  lemma NextRow(c: Crypto, rows: seq<Row>, i: nat)
    requires i < |rows|
    ensures Head(Entries(rows[..i + 1])) == rows[i].entry.entryHash
    ensures AllFindings(c, rows[..i + 1])
            == AllFindings(c, rows[..i]) + Tagged(rows[i].id, FindingsAt(c, rows[i].entry, Head(Entries(rows[..i]))))
    ensures Witnessed(Entries(rows[..i + 1]))
            == Witnessed(Entries(rows[..i])) + (if rows[i].entry.seal != "" then 1 else 0)
    ensures Readable(c, Entries(rows[..i + 1])) <==>
            Readable(c, Entries(rows[..i])) && (rows[i].entry.seal != "" ==> c.hex(rows[i].entry.seal))
  {
    assert rows[..i + 1][..i] == rows[..i];
    assert Entries(rows[..i + 1]) == Entries(rows[..i]) + [rows[i].entry];
    WitnessedAppend(Entries(rows[..i]), rows[i].entry);
  }

  /** There is nothing to report exactly when the chain is well formed. */
  lemma {:induction false} NoFindings(c: Crypto, rows: seq<Row>)
    ensures AllFindings(c, rows) == [] <==> WellFormed(c, Entries(rows))
    decreases |rows|
  {
    if rows == [] {
    } else {
      var n := |rows| - 1;
      var front, log := rows[..n], Entries(rows);
      NoFindings(c, front);
      assert log == Entries(front) + [rows[n].entry];
      NoFindingsAt(c, log);
      WellFormedSplits(c, log);
      assert log[..n] == Entries(front);
    }
  }

  lemma NoFindingsAt(c: Crypto, log: seq<Entry>)
    requires log != []
    ensures var n := |log| - 1; FindingsAt(c, log[n], Head(log[..n])) == [] <==> GoodAt(c, log, n)
  {
  }

  lemma WellFormedSplits(c: Crypto, log: seq<Entry>)
    requires log != []
    ensures var n := |log| - 1; WellFormed(c, log) <==> WellFormed(c, log[..n]) && GoodAt(c, log, n)
  {
    var n := |log| - 1;
    if WellFormed(c, log) {
      FrontWellFormed(c, log);
    } else if WellFormed(c, log[..n]) && GoodAt(c, log, n) {
      assert log == log[..n] + [log[n]];
      AppendWellFormed(c, log[..n], log[n]);
    }
  }

  /** The finding is one on row `i`. */
  ghost predicate FoundAt(c: Crypto, rows: seq<Row>, f: (int, Reason), i: nat)
    requires i < |rows|
  {
    f.0 == rows[i].id && f.1 in FindingsAt(c, rows[i].entry, Head(Entries(rows[..i])))
  }

  lemma FoundInFront(c: Crypto, rows: seq<Row>, f: (int, Reason), i: nat)
    requires i < |rows| - 1
    ensures FoundAt(c, rows, f, i) <==> FoundAt(c, rows[..|rows| - 1], f, i)
  {
    assert rows[..|rows| - 1][..i] == rows[..i];
  }

  /** A finding is reported exactly where the row's contents, link or witness is wrong. */
  lemma {:induction false} FindingsExact(c: Crypto, rows: seq<Row>, f: (int, Reason))
    ensures f in AllFindings(c, rows) <==> exists i: nat :: i < |rows| && FoundAt(c, rows, f, i)
    decreases |rows|
  {
    if rows == [] {
    } else {
      var n := |rows| - 1;
      FindingsExact(c, rows[..n], f);
      TaggedMembers(rows[n].id, FindingsAt(c, rows[n].entry, Head(Entries(rows[..n]))));
      assert f in AllFindings(c, rows) <==> f in AllFindings(c, rows[..n]) || FoundAt(c, rows, f, n);
      forall i: nat | i < n
        ensures FoundAt(c, rows, f, i) <==> FoundAt(c, rows[..n], f, i)
      {
        FoundInFront(c, rows, f, i);
      }
    }
  }

  function Witnessed(log: seq<Entry>): nat {
    if log == [] then 0 else (if log[0].seal != "" then 1 else 0) + Witnessed(log[1..])
  }

  lemma {:induction false} WitnessedAppend(log: seq<Entry>, e: Entry)
    ensures Witnessed(log + [e]) == Witnessed(log) + (if e.seal != "" then 1 else 0)
    decreases |log|
  {
    if log == [] {
    } else {
      assert (log + [e])[0] == log[0] && (log + [e])[1..] == log[1..] + [e];
      WitnessedAppend(log[1..], e);
    }
  }

  lemma TaggedMembers(id: int, reasons: seq<Reason>)
    ensures forall f :: f in Tagged(id, reasons) <==> f.0 == id && f.1 in reasons
  {
    forall f: (int, Reason) | f.0 == id && f.1 in reasons
      ensures f in Tagged(id, reasons)
    {
      var i :| 0 <= i < |reasons| && reasons[i] == f.1;
      assert Tagged(id, reasons)[i] == f;
    }
  }

  lemma AppendWellFormed(c: Crypto, log: seq<Entry>, e: Entry)
    requires WellFormed(c, log) && GoodAt(c, log + [e], |log|)
    ensures WellFormed(c, log + [e])
  {
    forall i: nat | i < |log + [e]|
      ensures GoodAt(c, log + [e], i)
    {
      if i < |log| {
        assert GoodAt(c, log, i);
      }
    }
  }

  lemma FrontWellFormed(c: Crypto, log: seq<Entry>)
    requires WellFormed(c, log) && log != []
    ensures WellFormed(c, log[..|log| - 1]) && GoodAt(c, log, |log| - 1)
  {
    var front := log[..|log| - 1];
    forall i: nat | i < |front|
      ensures GoodAt(c, front, i)
    {
      assert GoodAt(c, log, i);
    }
  }

  // ---------------------------------------------------------------------------------
  // What the chain makes evident
  // ---------------------------------------------------------------------------------

  lemma NewEntryIsGood(c: Crypto, log: seq<Entry>, call: Call)
    requires Sound(c) && WellFormed(c, log)
    ensures GoodAt(c, log + [NewEntry(c, log, call)], |log|)
    ensures var e := NewEntry(c, log, call); e.seal != "" ==> c.hex(e.seal)
  {
    if log != [] {
      assert GoodAt(c, log, |log| - 1);
    }
  }

  /** Every log built by record(), with or without signatures, verifies. */
  lemma {:induction false} BuiltLogsVerify(c: Crypto, calls: seq<Call>)
    requires Sound(c)
    ensures WellFormed(c, Built(c, calls)) && Readable(c, Built(c, calls)) && |Built(c, calls)| == |calls|
    decreases |calls|
  {
    if calls == [] {
    } else {
      var n := |calls| - 1;
      var log := Built(c, calls[..n]);
      BuiltLogsVerify(c, calls[..n]);
      NewEntryIsGood(c, log, calls[n]);
      AppendWellFormed(c, log, NewEntry(c, log, calls[n]));
    }
  }

  /** No two entries of a well-formed chain have the same hash: equal hashes would have equal
      predecessors, all the way down to the genesis value no entry has. */
  lemma {:induction false} HashesDistinct(c: Crypto, log: seq<Entry>, i: nat, j: nat)
    requires Sound(c) && WellFormed(c, log) && i < j < |log|
    ensures log[i].entryHash != log[j].entryHash
    decreases i
  {
    assert GoodAt(c, log, i) && GoodAt(c, log, j);
    if log[i].entryHash == log[j].entryHash {
      assert PayloadOf(log[i]) == PayloadOf(log[j]);
      assert GoodAt(c, log, j - 1);
      if i > 0 {
        HashesDistinct(c, log, i - 1, j - 1);
      }
    }
  }

  /** Rows of a log, picked in any order, with any left out or repeated: they pass as a chain exactly when
      they are the log's first rows in order. Deleting, reordering and repeating all show. */
  lemma {:induction false} OnlyPrefixesVerify(c: Crypto, log: seq<Entry>, picked: seq<Entry>)
    requires Sound(c) && WellFormed(c, log)
    requires forall e :: e in picked ==> e in log
    ensures WellFormed(c, picked) <==> picked <= log
    decreases |picked|
  {
    if picked <= log {
      forall i: nat | i < |picked|
        ensures GoodAt(c, picked, i)
      {
        assert GoodAt(c, log, i);
      }
    }
    if WellFormed(c, picked) && picked != [] {
      var n := |picked| - 1;
      var front := picked[..n];
      FrontWellFormed(c, picked);
      OnlyPrefixesVerify(c, log, front);
      assert picked[n] in log;
      var j :| 0 <= j < |log| && log[j] == picked[n];
      assert GoodAt(c, log, j);
      PredecessorIsUnique(c, log, j, n);
      assert picked == front + [picked[n]];
    }
  }

  lemma PredecessorIsUnique(c: Crypto, log: seq<Entry>, j: nat, n: nat)
    requires Sound(c) && WellFormed(c, log) && j < |log| && n <= |log|
    requires ExpectedAt(log, j) == ExpectedAt(log, n)
    ensures j == n
  {
    if j > 0 {
      assert GoodAt(c, log, j - 1);
    }
    if n > 0 {
      assert GoodAt(c, log, n - 1);
    }
    if 0 < j < n {
      HashesDistinct(c, log, j - 1, n - 1);
    } else if 0 < n < j {
      HashesDistinct(c, log, n - 1, j - 1);
    }
  }

  /** Two logs that verify and end in the same hash have, row by row, the same actor, action, target, detail, instant,
      predecessor and hash: nothing before a known head can be rewritten. */
  lemma {:induction false} SameHeadSameHistory(c: Crypto, a: seq<Entry>, b: seq<Entry>)
    requires Sound(c) && WellFormed(c, a) && WellFormed(c, b) && Head(a) == Head(b)
    ensures |a| == |b|
    ensures forall i :: 0 <= i < |a| ==>
      && a[i].actor == b[i].actor && a[i].action == b[i].action && a[i].target == b[i].target
      && a[i].detail == b[i].detail && a[i].prevHash == b[i].prevHash && a[i].entryHash == b[i].entryHash
      && a[i].createdAt.micros - (if a[i].createdAt.Aware? then a[i].createdAt.offset else 0)
         == b[i].createdAt.micros - (if b[i].createdAt.Aware? then b[i].createdAt.offset else 0)
    decreases |a|
  {
    if a == [] && b == [] {
    } else if a == [] {
      FrontWellFormed(c, b);
    } else if b == [] {
      FrontWellFormed(c, a);
    } else {
      FrontWellFormed(c, a);
      FrontWellFormed(c, b);
      SameHeadSameHistory(c, a[..|a| - 1], b[..|b| - 1]);
    }
  }

  /** Any change of the actor, action, target, detail, predecessor or instant of a row that leaves its hash in place is
      found at that row. */
  lemma MutationIsFound(c: Crypto, log: seq<Entry>, i: nat, changed: Entry)
    requires Sound(c) && WellFormed(c, log) && i < |log| && changed.entryHash == log[i].entryHash
    requires
      || changed.actor != log[i].actor || changed.action != log[i].action || changed.target != log[i].target
      || changed.detail != log[i].detail || changed.prevHash != log[i].prevHash
      || changed.createdAt.micros - (if changed.createdAt.Aware? then changed.createdAt.offset else 0)
         != log[i].createdAt.micros - (if log[i].createdAt.Aware? then log[i].createdAt.offset else 0)
    ensures Mutated in FindingsAt(c, changed, ExpectedAt(log, i)) && !WellFormed(c, log[i := changed])
  {
    assert GoodAt(c, log, i);
    assert !GoodAt(c, log[i := changed], i);
  }

  /** What is checked of a row: that its hash is that of its contents, that it names the hash of the row before as its
      predecessor, or the genesis value if there is none, and that its witness, if any, verifies. */
  lemma FindingsExactly(c: Crypto, e: Entry, expected: string)
    ensures var instant := e.createdAt.micros - (if e.createdAt.Aware? then e.createdAt.offset else 0);
      && (Mutated in FindingsAt(c, e, expected) <==>
            c.hash(Payload(e.actor, e.action, e.target, e.detail, instant, e.prevHash)) != e.entryHash)
      && (Unlinked in FindingsAt(c, e, expected) <==> e.prevHash != expected)
      && (BadWitness in FindingsAt(c, e, expected) <==> e.seal != "" && !c.verify(e.entryHash, e.seal))
  {
    var findings := FindingsAt(c, e, expected);
    var m := if c.hash(PayloadOf(e)) != e.entryHash then [Mutated] else [];
    var u := if e.prevHash != expected then [Unlinked] else [];
    var w := if e.seal != "" && !c.verify(e.entryHash, e.seal) then [BadWitness] else [];
    assert findings == m + u + w;
  }

  lemma GoodExactly(c: Crypto, log: seq<Entry>, i: nat)
    requires i < |log|
    ensures GoodAt(c, log, i) <==>
      var e := log[i];
      var instant := e.createdAt.micros - (if e.createdAt.Aware? then e.createdAt.offset else 0);
      && c.hash(Payload(e.actor, e.action, e.target, e.detail, instant, e.prevHash)) == e.entryHash
      && e.prevHash == (if i == 0 then GENESIS else log[i - 1].entryHash)
      && (e.seal != "" ==> c.verify(e.entryHash, e.seal))
  {
  }

  /** The witnesses counted are the rows that carry one. */
  lemma {:induction false} WitnessedCounts(log: seq<Entry>)
    ensures Witnessed(log) == |WithSeal(log)|
    decreases |log|
  {
    if log == [] {
    } else {
      var n := |log| - 1;
      WitnessedCounts(log[..n]);
      assert log == log[..n] + [log[n]];
      WitnessedAppend(log[..n], log[n]);
      assert WithSeal(log) == if log[n].seal != "" then WithSeal(log[..n]) + {n} else WithSeal(log[..n]);
    }
  }

  function WithSeal(log: seq<Entry>): set<int> {
    set i | 0 <= i < |log| && log[i].seal != ""
  }

  /** What the database gives back for an entry */
  function Reread(e: Entry): Entry {
    e.(createdAt := Stored(e.createdAt))
  }

  function RereadAll(log: seq<Entry>): seq<Entry> {
    seq(|log|, i requires 0 <= i < |log| => Reread(log[i]))
  }

  /** A log that verifies still does after a round trip through the database exactly when every time in it is
      naive or in UTC, as record() has it. */
  lemma TimestampsSurvive(c: Crypto, log: seq<Entry>)
    requires Sound(c) && WellFormed(c, log)
    ensures WellFormed(c, RereadAll(log)) <==> forall e :: e in log ==> e.createdAt.Naive? || e.createdAt.offset == 0
  {
    var back := RereadAll(log);
    forall i: nat | i < |log|
      ensures GoodAt(c, back, i) <==> log[i].createdAt.Naive? || log[i].createdAt.offset == 0
    {
      assert GoodAt(c, log, i);
      assert ExpectedAt(back, i) == ExpectedAt(log, i);
      assert PayloadOf(back[i]) == PayloadOf(log[i]).(ts := log[i].createdAt.micros);
    }
  }
}
