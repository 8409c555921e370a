/** The document object: a committed text, a version and, in the table that all documents share, a queue of
    pending operations that the editing methods append to one operation at a time. */
module Documents {
  import opened Wrappers
  import opened Ops
  import opened Engine
  import opened OpTables
  import Renumbering

  // ----- how the compound commands come apart

  /** The document after a space that stands at the position has been deleted. */
  function WithoutSpace(d: Doc, pos: nat): Doc {
    if BeforeSpace(Working(d), pos) then d.(ops := d.ops + [Op.Delete(pos, 1)]) else d
  }

  /** The document after a tag has been put at the start of a line. */
  function Blocked(d: Doc, pos: nat, tag: string): Doc {
    d.(ops := d.ops + BlockOps(Working(d), pos, tag))
  }

  /** The document after a deletion that runs at most to the end of its text. */
  function Cut(d: Doc, pos: nat, len: nat): Doc
    requires pos <= |Working(d)|
  {
    if len == 0 then d else d.(ops := d.ops + [Op.Delete(pos, Min(len, |Working(d)| - pos))])
  }

  lemma WithoutSpaceMeans(d: Doc, pos: nat)
    requires Valid(d) && BeforeSpace(Working(d), pos)
    ensures Exec(d, d.version, Command.Del(pos, 1)) == (Success, WithoutSpace(d, pos))
    ensures Working(WithoutSpace(d, pos)) == Working(d)[..pos] + Working(d)[pos + 1..]
  {
    CutMeans(Working(d), pos, 1);
    Append(d.committed, d.ops, [Op.Delete(pos, 1)]);
  }

  lemma DeleteSteps(d: Doc, pos: nat, len: nat)
    requires Valid(d) && pos <= |Working(d)|
    ensures Exec(d, d.version, Command.Del(pos, len)) == (Success, Cut(d, pos, len)) && Valid(Cut(d, pos, len))
  {
    assert d.ops + [] == d.ops;
    ExecKeepsValid(d, d.version, Command.Del(pos, len));
  }

  lemma HashesAre(level: nat)
    ensures seq(level, _ => '#') == Hashes(level)
  {
  }

  lemma TwoSteps(ops: seq<Op<char>>, a: Op<char>, b: Op<char>)
    ensures ops + [a] + [b] == ops + [a, b]
  {
  }

  lemma NewlineSteps(d: Doc, pos: nat)
    requires Valid(d) && pos <= |Working(d)|
    ensures Exec(d, d.version, Command.Newline(pos)) == Exec(WithoutSpace(d, pos), d.version, Command.Insert(pos, "\n"))
  {
    if BeforeSpace(Working(d), pos) {
      WithoutSpaceMeans(d, pos);
      assert d.ops + [Op.Delete(pos, 1)] + [Op.Insert(pos, "\n")] == d.ops + [Op.Delete(pos, 1), Op.Insert(pos, "\n")];
    }
  }

  lemma WithoutSpaceBounds(d: Doc, pos: nat)
    requires Valid(d) && pos <= |Working(d)|
    ensures pos <= |Working(WithoutSpace(d, pos))|
  {
    if BeforeSpace(Working(d), pos) {
      WithoutSpaceMeans(d, pos);
    }
  }

  lemma OrderedListSteps(d: Doc, pos: nat)
    requires Valid(d) && pos <= |Working(d)|
    ensures var swallowed := WithoutSpace(d, pos);
            && pos <= |Working(swallowed)|
            && Exec(d, d.version, Command.OrderedList(pos)) == (Success, Blocked(swallowed, pos, "1. "))
  {
    if BeforeSpace(Working(d), pos) {
      WithoutSpaceMeans(d, pos);
      var rest := BlockOps(Working(WithoutSpace(d, pos)), pos, "1. ");
      assert d.ops + [Op.Delete(pos, 1)] + rest == d.ops + ([Op.Delete(pos, 1)] + rest);
    }
  }

  lemma CommitIsValid(d: Doc)
    ensures Valid(Commit(d)) && Commit(d) == Doc(Renumbering.Renumber(Working(d)), [], NextVersion(d.version))
  {
    CommitKeepsValid(d);
  }

  class Document {
    const table: OpTable
    const address: Address
    var committed: string
    var currentVersion: Version

    ghost function Ops(): seq<Op<char>>
      reads table, table.spine
    {
      table.Queue(address)
    }

    ghost function State(): Doc
      reads this, table, table.spine
    {
      Doc(committed, Ops(), currentVersion)
    }

    ghost predicate Ok()
      reads this, table, table.spine
    {
      table.Ok() && Valid(State())
    }

    /** A new document is empty, except for a queue that waits at its address. */
    constructor (table: OpTable, address: Address)
      requires table.Ok()
      ensures this.table == table && this.address == address
      ensures State() == EMPTY.(ops := table.Queue(address))
      ensures table.Queue(address) == [] ==> Ok()
    {
      this.table, this.address := table, address;
      committed, currentVersion := "", 0;
      new;
      EmptyIsValid();
    }

    /** A freed document leaves no queue behind. */
    method Free()
      requires table.Ok()
      modifies table, table.spine
      ensures table.Keeps(address) && Ops() == []
    {
      table.FreeOps(address);
    }

    /** No edit of this document changes another document of the same table. */
    twostate lemma OthersAreKept(other: Document)
      requires table.Keeps(address) && other.table == table && other.address != address && unchanged(other)
      ensures other.State() == old(other.State())
      ensures old(other.Ok()) ==> other.Ok()
    {
    }

    // ----- the queue

    method GetWorkingText() returns (text: string)
      requires table.Ok()
      ensures text == Working(State())
    {
      text := committed;
      var node, index := table.FindOps(address);
      if node == null {
        return;
      }
      var i, ops := 0, node.ops;
      while i < |ops|
        invariant i <= |ops|
        invariant text == ApplyAll(committed, ops[..i])
      {
        assert ops[..i + 1][..i] == ops[..i];
        text := Apply(text, ops[i]);
        i := i + 1;
      }
      assert ops[..i] == ops;
    }

    method EnqueueInsert(pos: nat, content: string)
      requires table.Ok()
      modifies table, table.spine
      ensures table.Keeps(address) && Ops() == old(Ops()) + [Op.Insert(pos, content)]
    {
      table.EnqueueOp(address, Op.Insert(pos, content));
    }

    method EnqueueDelete(pos: nat, len: nat)
      requires table.Ok()
      modifies table, table.spine
      ensures table.Keeps(address) && Ops() == old(Ops()) + [Op.Delete(pos, len)]
    {
      table.EnqueueOp(address, Op.Delete(pos, len));
    }

    method ValidateVersionAndGetText(version: Version) returns (r: Outcome, working: string)
      requires table.Ok()
      ensures r == if version == currentVersion then Success else OutdatedVersion
      ensures r.Success? ==> working == Working(State())
    {
      working := "";
      if version != currentVersion {
        return OutdatedVersion, working;
      }
      working := GetWorkingText();
      r := Success;
    }

    method TransformPosition(originalPos: nat) returns (r: Outcome, adjusted: nat)
      requires table.Ok()
      ensures match Transform(Ops(), originalPos)
              case Some(p) => r == Success && adjusted == p
              case None => r == DeletedPosition
    {
      adjusted := originalPos;
      var node, index := table.FindOps(address);
      if node == null {
        return Success, adjusted;
      }
      var i, ops := 0, node.ops;
      while i < |ops|
        invariant i <= |ops|
        invariant Transform(ops[..i], originalPos) == Some(adjusted)
      {
        assert ops[..i + 1][..i] == ops[..i];
        match ops[i] {
          case Insert(pos, data) =>
            if pos < adjusted {
              adjusted := adjusted + |data|;
            }
          case Delete(pos, len) =>
            var delStart, delEnd := pos, pos + len;
            if adjusted > delStart && adjusted < delEnd {
              TransformLost(ops, i + 1, originalPos);
              return DeletedPosition, adjusted;
            }
            if delStart < adjusted {
              var removedBeforePos := if delEnd <= adjusted then len else adjusted - delStart;
              adjusted := adjusted - removedBeforePos;
            }
        }
        i := i + 1;
      }
      assert ops[..i] == ops;
      r := Success;
    }

    // ----- edit commands

    method Insert(version: Version, pos: nat, content: string) returns (r: Outcome)
      requires Ok()
      modifies table, table.spine
      ensures Ok() && table.Keeps(address)
      ensures (r, State()) == Exec(old(State()), version, Command.Insert(pos, content))
    {
      ExecKeepsValid(State(), version, Command.Insert(pos, content));
      var working;
      r, working := ValidateVersionAndGetText(version);
      if r != Success {
        return r;
      }
      if pos > |working| {
        return InvalidCursorPos;
      }
      EnqueueInsert(pos, content);
    }

    method Delete(version: Version, pos: nat, len: nat) returns (r: Outcome)
      requires Ok()
      modifies table, table.spine
      ensures Ok() && table.Keeps(address)
      ensures (r, State()) == Exec(old(State()), version, Command.Del(pos, len))
    {
      hide ApplyAll, WellFormed, OpTable.Ok, OpTable.Queue;
      var working;
      r, working := ValidateVersionAndGetText(version);
      if r != Success {
        return r;
      }
      if pos > |working| {
        return InvalidCursorPos;
      }
      DeleteSteps(State(), pos, len);
      if len == 0 {
        return Success;
      }
      var l := len;
      if pos + len > |working| {
        l := |working| - pos;
      }
      EnqueueDelete(pos, l);
    }

    // ----- formatting commands

    /** Both line breaks and list items first delete a space that stands at their position. */
    method SwallowSpace(version: Version, pos: nat, working: string) returns (r: Outcome)
      requires Ok() && version == currentVersion && working == Working(State())
      modifies table, table.spine
      ensures Ok() && table.Keeps(address)
      ensures r == Success && State() == WithoutSpace(old(State()), pos)
    {
      if pos < |working| && working[pos] == ' ' {
        WithoutSpaceMeans(State(), pos);
        r := Delete(version, pos, 1);
        return r;
      }
      r := Success;
    }

    /** The remaining steps of a line break at a checked position. */
    method BreakLine(version: Version, pos: nat, working: string) returns (r: Outcome)
      requires Ok() && version == currentVersion && working == Working(State())
      modifies table, table.spine
      ensures Ok() && table.Keeps(address)
      ensures (r, State()) == Exec(WithoutSpace(old(State()), pos), version, Command.Insert(pos, "\n"))
    {
      hide ApplyAll, WellFormed, Exec, WithoutSpace, OpTable.Ok, OpTable.Queue;
      r := SwallowSpace(version, pos, working);
      if r != Success {
        return r;
      }
      r := Insert(version, pos, "\n");
    }

    method Newline(version: Version, pos: nat) returns (r: Outcome)
      requires Ok()
      modifies table, table.spine
      ensures Ok() && table.Keeps(address)
      ensures (r, State()) == Exec(old(State()), version, Command.Newline(pos))
    {
      var working;
      r, working := ValidateVersionAndGetText(version);
      if r != Success {
        return r;
      }
      if pos > |working| {
        return InvalidCursorPos;
      }
      NewlineSteps(State(), pos);
      r := BreakLine(version, pos, working);
    }

    /** Breaks the line at the position unless a line starts there, and returns the start of the line. */
    method EnsureBlockPrefixPosition(version: Version, pos: nat) returns (r: Outcome, start: nat)
      requires Ok()
      modifies table, table.spine
      ensures Ok() && table.Keeps(address)
      ensures r == if version != currentVersion then OutdatedVersion
                   else if pos > |Working(old(State()))| then InvalidCursorPos else Success
      ensures !r.Success? ==> Ops() == old(Ops())
      ensures r.Success? ==>
                var broken := !Renumbering.LineStart(Working(old(State())), pos);
                && Ops() == (if broken then old(Ops()) + [Op.Insert(pos, "\n")] else old(Ops()))
                && start == (if broken then pos + 1 else pos) <= |Working(State())|
    {
      start := pos;
      var working;
      r, working := ValidateVersionAndGetText(version);
      if r != Success {
        return r, start;
      }
      if pos > |working| {
        return InvalidCursorPos, start;
      }
      if pos > 0 && working[pos - 1] != '\n' {
        ExecMeans(State(), version, Command.Insert(pos, "\n"));
        r := Insert(version, pos, "\n");
        if r != Success {
          return r, start;
        }
        start := start + 1;
        return Success, start;
      }
    }

    method Block(version: Version, pos: nat, tag: string) returns (r: Outcome)
      requires Ok()
      modifies table, table.spine
      ensures Ok() && table.Keeps(address)
      ensures r == if version != currentVersion then OutdatedVersion
                   else if pos > |Working(old(State()))| then InvalidCursorPos else Success
      ensures State() == if r.Success? then Blocked(old(State()), pos, tag) else old(State())
    {
      hide ApplyAll, WellFormed, OpTable.Ok, OpTable.Queue;
      var start;
      r, start := EnsureBlockPrefixPosition(version, pos);
      if r != Success {
        return r;
      }
      r := Insert(version, start, tag);
      TwoSteps(old(Ops()), Op.Insert(pos, "\n"), Op.Insert(pos + 1, tag));
    }

    method Heading(version: Version, level: nat, pos: nat) returns (r: Outcome)
      requires Ok()
      modifies table, table.spine
      ensures Ok() && table.Keeps(address)
      ensures (r, State()) == Exec(old(State()), version, Command.Heading(level, pos))
    {
      if level < 1 || level > 3 {
        return InvalidCursorPos;
      }
      hide ApplyAll, WellFormed, OpTable.Ok, OpTable.Queue, Hashes;
      var tag := seq(level, _ => '#') + " ";
      HashesAre(level);
      r := Block(version, pos, tag);
    }

    method Blockquote(version: Version, pos: nat) returns (r: Outcome)
      requires Ok()
      modifies table, table.spine
      ensures Ok() && table.Keeps(address)
      ensures (r, State()) == Exec(old(State()), version, Command.Blockquote(pos))
    {
      r := Block(version, pos, "> ");
    }

    method UnorderedList(version: Version, pos: nat) returns (r: Outcome)
      requires Ok()
      modifies table, table.spine
      ensures Ok() && table.Keeps(address)
      ensures (r, State()) == Exec(old(State()), version, Command.UnorderedList(pos))
    {
      r := Block(version, pos, "- ");
    }

    method HorizontalRule(version: Version, pos: nat) returns (r: Outcome)
      requires Ok()
      modifies table, table.spine
      ensures Ok() && table.Keeps(address)
      ensures (r, State()) == Exec(old(State()), version, Command.HorizontalRule(pos))
    {
      r := Block(version, pos, "---\n");
    }

    /** The remaining steps of an ordered list item at a checked position. */
    method ListItem(version: Version, pos: nat, working: string) returns (r: Outcome)
      requires Ok() && version == currentVersion && working == Working(State()) && pos <= |working|
      modifies table, table.spine
      ensures Ok() && table.Keeps(address)
      ensures r == Success && State() == Blocked(WithoutSpace(old(State()), pos), pos, "1. ")
    {
      WithoutSpaceBounds(State(), pos);
      r := SwallowSpace(version, pos, working);
      if r != Success {
        return r;
      }
      r := Block(version, pos, "1. ");
    }

    method OrderedList(version: Version, pos: nat) returns (r: Outcome)
      requires Ok()
      modifies table, table.spine
      ensures Ok() && table.Keeps(address)
      ensures (r, State()) == Exec(old(State()), version, Command.OrderedList(pos))
    {
      var working;
      r, working := ValidateVersionAndGetText(version);
      if r != Success {
        return r;
      }
      if pos > |working| {
        return InvalidCursorPos;
      }
      OrderedListSteps(State(), pos);
      r := ListItem(version, pos, working);
    }

    /** The closing marker is inserted first, so that the position of the opening one stays right. */
    method InsertMarkers(version: Version, start: nat, end: nat, open: string, close: string) returns (r: Outcome)
      requires Ok() && version == currentVersion && start <= end <= |Working(State())|
      modifies table, table.spine
      ensures Ok() && table.Keeps(address)
      ensures r == Success && Ops() == old(Ops()) + [Op.Insert(end, close), Op.Insert(start, open)]
    {
      hide ApplyAll, WellFormed, OpTable.Ok;
      ExecMeans(State(), version, Command.Insert(end, close));
      r := Insert(version, end, close);
      if r != Success {
        return r;
      }
      r := Insert(version, start, open);
      TwoSteps(old(Ops()), Op.Insert(end, close), Op.Insert(start, open));
    }

    /** The shared body of the range commands: positions refer to the committed text. */
    method Wrap(version: Version, start: nat, end: nat, open: string, close: string) returns (r: Outcome)
      requires Ok()
      modifies table, table.spine
      ensures Ok() && table.Keeps(address)
      ensures version != currentVersion ==> r == OutdatedVersion && Ops() == old(Ops())
      ensures version == currentVersion ==>
                match PlanRange(old(State()), start, end, open, close)
                case Enqueue(plan) => r == Success && Ops() == old(Ops()) + plan
                case Refuse(why) => r == why && Ops() == old(Ops())
    {
      if version != currentVersion {
        return OutdatedVersion;
      }
      if start >= end || end > |committed| {
        return InvalidCursorPos;
      }
      var adjustedStart, adjustedEnd;
      r, adjustedStart := TransformPosition(start);
      if r != Success {
        return r;
      }
      r, adjustedEnd := TransformPosition(end);
      if r != Success {
        return r;
      }
      CarriedRange(State(), start, end);
      r := InsertMarkers(version, adjustedStart, adjustedEnd, open, close);
    }

    method Bold(version: Version, start: nat, end: nat) returns (r: Outcome)
      requires Ok()
      modifies table, table.spine
      ensures Ok() && table.Keeps(address)
      ensures (r, State()) == Exec(old(State()), version, Command.Bold(start, end))
    {
      r := Wrap(version, start, end, "**", "**");
    }

    method Italic(version: Version, start: nat, end: nat) returns (r: Outcome)
      requires Ok()
      modifies table, table.spine
      ensures Ok() && table.Keeps(address)
      ensures (r, State()) == Exec(old(State()), version, Command.Italic(start, end))
    {
      r := Wrap(version, start, end, "*", "*");
    }

    method Code(version: Version, start: nat, end: nat) returns (r: Outcome)
      requires Ok()
      modifies table, table.spine
      ensures Ok() && table.Keeps(address)
      ensures (r, State()) == Exec(old(State()), version, Command.Code(start, end))
    {
      r := Wrap(version, start, end, "`", "`");
    }

    method Link(version: Version, start: nat, end: nat, url: string) returns (r: Outcome)
      requires Ok()
      modifies table, table.spine
      ensures Ok() && table.Keeps(address)
      ensures (r, State()) == Exec(old(State()), version, Command.Link(start, end, url))
    {
      r := Wrap(version, start, end, "[", "](" + url + ")");
    }

    // ----- versioning

    /** The working text, renumbered. */
    method RenumberedText() returns (text: string)
      requires table.Ok()
      ensures text == Renumbering.Renumber(Working(State()))
    {
      var newText := GetWorkingText();
      var renumbered := Renumbering.RenumberOrderedLists(newText);
      text := renumbered[..|newText|];
    }

    /** Commits the pending operations, in normal form, as the next version. */
    method IncrementVersion()
      requires table.Ok()
      modifies this, table, table.spine
      ensures Ok() && table.Keeps(address)
      ensures State() == Commit(old(State()))
    {
      hide ApplyAll, OpTable.Ok, Renumbering.Renumber;
      CommitIsValid(State());
      committed := RenumberedText();
      table.ClearOps(address);
      currentVersion := NextVersion(currentVersion);
    }
  }
}
