/** Command execution step by step: the tokens are taken off the line one at a time and the document
    object is edited. */
module CommandExecution {
  import opened Wrappers
  import opened Engine
  import opened Commands
  import opened Documents

  /** Exactly one argument, a size. */
  method ReadOneSize(save: string) returns (r: Option<nat>)
    ensures r == OneSize(save)
  {
    var (first, save1) := NextToken(save);
    var (extra, save2) := NextToken(save1);
    assert first.Some? ==> Tokens(save) == [first.value] + Tokens(save1);
    if first.None? || extra.Some? {
      return None;
    }
    r := ParseSize(first.value);
  }

  /** Exactly two arguments, both sizes. */
  method ReadTwoSizes(save: string) returns (r: Option<(nat, nat)>)
    ensures r == JustTwoSizes(save)
  {
    var (first, save1) := NextToken(save);
    var (second, save2) := NextToken(save1);
    var (extra, save3) := NextToken(save2);
    assert first.Some? ==> Tokens(save) == [first.value] + Tokens(save1);
    assert second.Some? ==> Tokens(save1) == [second.value] + Tokens(save2);
    if first.None? || second.None? || extra.Some? {
      return None;
    }
    var a, b := ParseSize(first.value), ParseSize(second.value);
    if a.None? || b.None? {
      return None;
    }
    r := Some((a.value, b.value));
  }

  /** Exactly three arguments: two sizes and a URL. */
  method ReadLink(save: string) returns (r: Option<Command>)
    ensures r == ParseLink(save)
  {
    var (first, save1) := NextToken(save);
    var (second, save2) := NextToken(save1);
    var (url, save3) := NextToken(save2);
    var (extra, save4) := NextToken(save3);
    assert first.Some? ==> Tokens(save) == [first.value] + Tokens(save1);
    assert second.Some? ==> Tokens(save1) == [second.value] + Tokens(save2);
    assert url.Some? ==> Tokens(save2) == [url.value] + Tokens(save3);
    if first.None? || second.None? || url.None? || extra.Some? {
      return None;
    }
    var a, b := ParseSize(first.value), ParseSize(second.value);
    if a.None? || b.None? {
      return None;
    }
    r := Some(Command.Link(a.value, b.value, url.value));
  }

  method DispatchTwoSizes(doc: Document, version: Version, verb: Verb, a: nat, b: nat) returns (result: CommandResult)
    requires doc.Ok() && verb in {DEL, HEADING, BOLD, ITALIC, CODE}
    modifies doc.table, doc.table.spine
    ensures doc.Ok() && doc.table.Keeps(doc.address)
    ensures var (o, d) := Exec(old(doc.State()), version, MakeTwo(verb, a, b));
            result == MapResult(o) && doc.State() == d
  {
    var r;
    if verb == DEL {
      r := doc.Delete(version, a, b);
    } else if verb == HEADING {
      r := doc.Heading(version, a, b);
    } else if verb == BOLD {
      r := doc.Bold(version, a, b);
    } else if verb == ITALIC {
      r := doc.Italic(version, a, b);
    } else {
      r := doc.Code(version, a, b);
    }
    result := MapResult(r);
  }

  method DispatchOneSize(doc: Document, version: Version, verb: Verb, pos: nat) returns (result: CommandResult)
    requires doc.Ok() && verb in {NEWLINE, BLOCKQUOTE, ORDERED_LIST, UNORDERED_LIST, HORIZONTAL_RULE}
    modifies doc.table, doc.table.spine
    ensures doc.Ok() && doc.table.Keeps(doc.address)
    ensures var (o, d) := Exec(old(doc.State()), version, MakeOne(verb, pos));
            result == MapResult(o) && doc.State() == d
  {
    var r;
    if verb == NEWLINE {
      r := doc.Newline(version, pos);
    } else if verb == BLOCKQUOTE {
      r := doc.Blockquote(version, pos);
    } else if verb == ORDERED_LIST {
      r := doc.OrderedList(version, pos);
    } else if verb == UNORDERED_LIST {
      r := doc.UnorderedList(version, pos);
    } else {
      r := doc.HorizontalRule(version, pos);
    }
    result := MapResult(r);
  }

  /** What a verb does with the rest of its line. */
  function Dispatched(d: Doc, version: Version, verb: Verb, rest: string): (CommandResult, Doc) {
    match ParseArguments(verb, rest)
    case None => (RejectInvalidCommand, d)
    case Some(c) => (MapResult(Exec(d, version, c).0), Exec(d, version, c).1)
  }

  /** Reads the arguments of a verb and edits the document. */
  method Dispatch(doc: Document, version: Version, verb: Verb, save: string) returns (result: CommandResult)
    requires doc.Ok()
    modifies doc.table, doc.table.spine
    ensures doc.Ok() && doc.table.Keeps(doc.address)
    ensures (result, doc.State()) == Dispatched(old(doc.State()), version, verb, save)
  {
    if verb == INSERT {
      var (posToken, content) := NextToken(save);
      if posToken.None? || content == "" {
        return RejectInvalidCommand;
      }
      var pos := ParseSize(posToken.value);
      if pos.None? {
        return RejectInvalidCommand;
      }
      var r := doc.Insert(version, pos.value, content);
      return MapResult(r);
    } else if verb == LINK {
      var link := ReadLink(save);
      if link.None? {
        return RejectInvalidCommand;
      }
      var r := doc.Link(version, link.value.start, link.value.end, link.value.url);
      return MapResult(r);
    } else if verb in {DEL, HEADING, BOLD, ITALIC, CODE} {
      var sizes := ReadTwoSizes(save);
      if sizes.None? {
        return RejectInvalidCommand;
      }
      result := DispatchTwoSizes(doc, version, verb, sizes.value.0, sizes.value.1);
    } else {
      var pos := ReadOneSize(save);
      if pos.None? {
        return RejectInvalidCommand;
      }
      result := DispatchOneSize(doc, version, verb, pos.value);
    }
  }

  /** Checks, authorises and dispatches one line. */
  method CommandExecute(doc: Document, version: Version, role: Role, line: string) returns (result: CommandResult)
    requires doc.Ok()
    modifies doc.table, doc.table.spine
    ensures doc.Ok() && doc.table.Keeps(doc.address)
    ensures (result, doc.State()) == Execute(old(doc.State()), version, role, line)
  {
    var valid := ValidateRawCommandLine(line);
    if !valid {
      return RejectInvalidCommand;
    }
    var (cmd, save) := NextToken(WithoutTrailingNewline(line));
    if cmd.None? {
      return RejectInvalidCommand;
    }
    var verb := VerbOf(cmd.value);
    if verb.Some? && role != WriteRole {
      return RejectUnauthorised;
    }
    if verb.None? {
      return RejectInvalidCommand;
    }
    result := Dispatch(doc, version, verb.value, save);
  }
}
