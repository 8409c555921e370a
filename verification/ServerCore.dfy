/** The server core object: a document, its version and the log of the submissions since the last commit. */
module ServerCores {
  import opened Wrappers
  import opened Engine
  import opened Commands
  import opened CommandExecution
  import opened Payloads
  import opened Cores
  import opened Documents
  import opened OpTables

  class ServerCore {
    const doc: Document
    var currentVersion: Version
    var pending: seq<Entry>
    var pendingCount: nat

    ghost function State(): Core
      reads this, doc, doc.table, doc.table.spine
    {
      Core(doc.State(), currentVersion, pending)
    }

    ghost predicate Ok()
      reads this, doc, doc.table, doc.table.spine
    {
      doc.table.Ok() && Consistent(State()) && pendingCount == |pending|
    }

    constructor ()
      ensures State() == INITIAL && Ok() && fresh(doc) && fresh(doc.table) && doc.table.spine == []
    {
      var table := new OpTable();
      doc := new Document(table, 0);
      currentVersion, pending, pendingCount := 0, [], 0;
      new;
      InitialIsConsistent();
    }

    method AppendLogEntry(user: string, line: string, result: CommandResult)
      modifies this`pending, this`pendingCount
      ensures pending == old(pending) + [LogEntry(user, line, result)]
      ensures pendingCount == old(pendingCount) + 1
    {
      var entry := Entry(user, WithoutTrailingNewline(line), result);
      pending := pending + [entry];
      pendingCount := pendingCount + 1;
    }

    /** Executes one command line and logs it whatever its result. */
    method Submit(user: string, role: Role, line: string) returns (result: CommandResult)
      requires Ok()
      modifies this`pending, this`pendingCount, doc.table, doc.table.spine
      ensures Ok() && doc.table.Keeps(doc.address)
      ensures (result, State()) == Cores.Submit(old(State()), user, role, line)
    {
      SubmitKeepsConsistent(State(), user, role, line);
      result := CommandExecute(doc, currentVersion, role, line);
      AppendLogEntry(user, line, result);
    }

    /** The first pass over the log: how long the payload will be. */
    method BroadcastPayloadSize(nextVersion: Version) returns (total: nat)
      ensures total == |Print(Payload(nextVersion, pending))|
    {
      total := |PrintHead(nextVersion)|;
      var i := 0;
      while i < |pending|
        invariant i <= |pending|
        invariant total == |PrintHead(nextVersion)| + |PrintEntries(pending[..i])|
      {
        PrefixGrows(pending, i);
        total := total + |PrintEntry(pending[i])|;
        i := i + 1;
      }
      assert pending[..i] == pending;
      total := total + |"END\n"|;
    }

    /** The second pass: the payload is written piece by piece into a buffer of the computed size, which is
        why no piece is cut off. */
    method WritePayload(nextVersion: Version, size: nat) returns (payload: array<char>)
      requires size == |Print(Payload(nextVersion, pending))|
      ensures payload.Length == size + 1
      ensures payload[..size] == Print(Payload(nextVersion, pending)) && payload[size] == '\0'
    {
      hide PrintHead, PrintEntries;
      payload := new char[size + 1];
      SizeSplits(nextVersion, pending);
      var off := Snprintf(payload, 0, PrintHead(nextVersion));
      off := WriteEntries(nextVersion, payload, off);
      var n := Snprintf(payload, off, "END\n");
    }

    method WriteEntries(ghost nextVersion: Version, payload: array<char>, start: nat) returns (off: nat)
      requires payload.Length == |Print(Payload(nextVersion, pending))| + 1
      requires start == |PrintHead(nextVersion)| < payload.Length && payload[..start] == PrintHead(nextVersion)
      modifies payload
      ensures off + |"END\n"| + 1 == payload.Length
      ensures payload[..off] == PrintHead(nextVersion) + PrintEntries(pending)
    {
      off := start;
      ghost var done := PrintHead(nextVersion);
      SizeSplits(nextVersion, pending);
      var i := 0;
      while i < |pending|
        invariant i <= |pending|
        invariant off == |done| < payload.Length
        invariant done == PrintHead(nextVersion) + PrintEntries(pending[..i])
        invariant payload[..off] == done
      {
        Extend(nextVersion, pending, i);
        var n := Snprintf(payload, off, PrintEntry(pending[i]));
        done := done + PrintEntry(pending[i]);
        off := off + n;
        i := i + 1;
      }
      assert pending[..i] == pending;
    }

    /** The log as a payload: sized first, then written. */
    method PrintLog(nextVersion: Version) returns (payload: string)
      ensures payload == Print(Payload(nextVersion, pending))
    {
      var size := BroadcastPayloadSize(nextVersion);
      var buffer := WritePayload(nextVersion, size);
      payload := buffer[..size];
    }

    /** Makes a new version unless nothing was submitted. */
    method CommitDocument() returns (nextVersion: Version)
      requires Ok()
      modifies this`currentVersion, doc, doc.table, doc.table.spine
      ensures doc.table.Keeps(doc.address)
      ensures nextVersion == currentVersion
      ensures var (payload, core) := Publish(old(State()));
              Payload(nextVersion, pending) == payload && Core(doc.State(), currentVersion, []) == core
    {
      nextVersion := currentVersion;
      if pendingCount > 0 {
        doc.IncrementVersion();
        currentVersion := doc.currentVersion;
        nextVersion := currentVersion;
      }
    }

    /** Commits and publishes what is logged; returns the payload as a string. */
    method Commit() returns (payload: string)
      requires Ok()
      modifies this, doc, doc.table, doc.table.spine
      ensures Ok() && doc.table.Keeps(doc.address)
      ensures payload == Print(Publish(old(State())).0)
      ensures State() == Publish(old(State())).1
    {
      hide Publish, Consistent, Print, OpTable.Ok, OpTable.Queue;
      PublishKeepsConsistent(State());
      var nextVersion := CommitDocument();
      payload := PrintLog(nextVersion);
      pending, pendingCount := [], 0;
    }
  }

  lemma SizeSplits(version: Version, es: seq<Entry>)
    ensures |Print(Payload(version, es))| == |PrintHead(version)| + |PrintEntries(es)| + 4
    ensures PrintHead(version) + PrintEntries(es[..0]) == PrintHead(version)
  {
  }

  /** One more entry still fits. */
  lemma Extend(version: Version, es: seq<Entry>, i: nat)
    requires i < |es|
    ensures PrintHead(version) + PrintEntries(es[..i + 1]) ==
            PrintHead(version) + PrintEntries(es[..i]) + PrintEntry(es[i])
    ensures |PrintHead(version) + PrintEntries(es[..i + 1])| + 4 <= |Print(Payload(version, es))|
  {
    PrefixGrows(es, i);
    PrefixIsShorter(es, i + 1);
    Assoc(PrintHead(version), PrintEntries(es[..i]), PrintEntry(es[i]));
  }

  lemma PrefixGrows(es: seq<Entry>, i: nat)
    requires i < |es|
    ensures PrintEntries(es[..i + 1]) == PrintEntries(es[..i]) + PrintEntry(es[i])
  {
    assert es[..i + 1] == es[..i] + [es[i]];
    PrintEntriesSnoc(es[..i], es[i]);
  }

  lemma {:induction false} PrefixIsShorter(es: seq<Entry>, i: nat)
    requires i <= |es|
    ensures |PrintEntries(es[..i])| <= |PrintEntries(es)|
    decreases |es| - i
  {
    if i == |es| {
      assert es[..i] == es;
    } else {
      PrefixGrows(es, i);
      PrefixIsShorter(es, i + 1);
    }
  }

  /** snprintf of a whole string into the rest of a buffer: as much as fits before the terminator is written,
      and the full length is returned. */
  method Snprintf(buffer: array<char>, off: nat, s: string) returns (n: nat)
    requires off < buffer.Length
    modifies buffer
    ensures n == |s|
    ensures off + |s| < buffer.Length ==> buffer[..off + |s|] == old(buffer[..off]) + s && buffer[off + |s|] == '\0'
    ensures off + |s| >= buffer.Length ==>
              buffer[..buffer.Length - 1] == old(buffer[..off]) + s[..buffer.Length - 1 - off] &&
              buffer[buffer.Length - 1] == '\0'
  {
    var written := Min(|s|, buffer.Length - off - 1);
    forall k | 0 <= k < written {
      buffer[off + k] := s[k];
    }
    buffer[off + written] := '\0';
    n := |s|;
  }
}
