/** What every line does to the document when it is submitted, spelled out character by character. */
module LineMeanings {
  import opened Wrappers
  import opened Ops
  import opened Engine
  import opened Commands
  import opened Cores

  /** A line of printable characters, with or without a newline at its end, that fits the limit. */
  predicate Sends(line: string, bare: string) {
    && (line == bare || line == bare + "\n") && |line| <= 256
    && forall i :: 0 <= i < |bare| ==> ' ' <= bare[i] <= '~'
  }

  /** The line is answered with a refusal and leaves the document as it was. */
  predicate Refused(core: Core, user: string, role: Role, line: string, why: CommandResult) {
    Submit(core, user, role, line).0 == why && Submit(core, user, role, line).1.doc == core.doc
  }

  /** The line succeeds and makes this the working text. */
  predicate Yields(core: Core, user: string, role: Role, line: string, text: string) {
    Submit(core, user, role, line).0 == CmdSuccess && Working(Submit(core, user, role, line).1.doc) == text
  }

  // ----- lines that are no commands

  /** A line that is empty, too long or not printable is refused to everybody. */
  lemma UnprintableLine(core: Core, user: string, role: Role, line: string)
    requires line == "" || |line| > 256 ||
             exists i :: 0 <= i < |line| && !(' ' <= line[i] <= '~') && !(line[i] == '\n' && i == |line| - 1)
    ensures Refused(core, user, role, line, RejectInvalidCommand)
  {
  }

  lemma BareLine(line: string, bare: string)
    requires Sends(line, bare) && bare != ""
    ensures ValidLine(line) && WithoutTrailingNewline(line) == bare
  {
    assert (bare + "\n")[..|bare|] == bare;
    assert ' ' <= bare[|bare| - 1] <= '~';
  }

  lemma FirstToken(bare: string)
    ensures Tokens(bare) == [] <==> NextToken(bare).0.None?
    ensures Tokens(bare) != [] ==>
              && NextToken(bare).0 == Some(Tokens(bare)[0])
              && Tokens(bare)[1..] == Tokens(NextToken(bare).1)
  {
  }

  lemma NoTokens()
    ensures Tokens("") == []
  {
  }

  /** A line without a word, or whose first word names no command, is refused to everybody. */
  lemma UnknownLine(core: Core, user: string, role: Role, line: string, bare: string)
    requires Sends(line, bare)
    requires Tokens(bare) == [] ||
             var word := Tokens(bare)[0];
             && word != "INSERT" && word != "DEL" && word != "NEWLINE" && word != "HEADING" && word != "BOLD"
             && word != "ITALIC" && word != "BLOCKQUOTE" && word != "ORDERED_LIST" && word != "UNORDERED_LIST"
             && word != "CODE" && word != "HORIZONTAL_RULE" && word != "LINK"
    ensures Refused(core, user, role, line, RejectInvalidCommand)
  {
    hide Tokens, ParseArguments, NextToken;
    FirstToken(bare);
    if bare == "" {
      EmptyLine(core, user, role, line);
    } else {
      BareLine(line, bare);
    }
  }

  lemma EmptyLine(core: Core, user: string, role: Role, line: string)
    requires line == "" || line == "\n"
    ensures Refused(core, user, role, line, RejectInvalidCommand)
  {
    assert line == "\n" ==> WithoutTrailingNewline(line) == "";
  }

  /** Every command is refused to a reader. */
  lemma ReaderLine(core: Core, user: string, line: string, bare: string)
    requires Sends(line, bare) && Tokens(bare) != []
    requires var word := Tokens(bare)[0];
             || word == "INSERT" || word == "DEL" || word == "NEWLINE" || word == "HEADING" || word == "BOLD"
             || word == "ITALIC" || word == "BLOCKQUOTE" || word == "ORDERED_LIST" || word == "UNORDERED_LIST"
             || word == "CODE" || word == "HORIZONTAL_RULE" || word == "LINK"
    ensures Refused(core, user, ReadRole, line, RejectUnauthorised)
  {
    NoTokens();
    hide Tokens, ParseArguments, NextToken;
    FirstToken(bare);
    BareLine(line, bare);
  }

  // ----- lines of commands

  /** A writer's submission whose line parses as a command executes it. */
  predicate Executes(core: Core, user: string, line: string, c: Command) {
    && Submit(core, user, WriteRole, line).0 == MapResult(Exec(core.doc, core.version, c).0)
    && Submit(core, user, WriteRole, line).1.doc == Exec(core.doc, core.version, c).1
  }

  lemma VerbLine(core: Core, user: string, line: string, bare: string, verb: Verb)
    requires Sends(line, bare) && Tokens(bare) != [] && VerbOf(Tokens(bare)[0]) == Some(verb)
    ensures var rest := NextToken(bare).1;
            && Tokens(bare)[1..] == Tokens(rest)
            && match ParseArguments(verb, rest)
               case None => Refused(core, user, WriteRole, line, RejectInvalidCommand)
               case Some(c) => Executes(core, user, line, c)
  {
    NoTokens();
    hide Tokens, ParseArguments, NextToken, VerbOf, Exec;
    FirstToken(bare);
    BareLine(line, bare);
  }

  /** An executed command either takes its effect or is refused with the code of the first check it fails. */
  lemma ExecutesMeans(core: Core, user: string, line: string, c: Command)
    requires Consistent(core) && Executes(core, user, line, c)
    ensures Accepts(core.doc, core.version, c) ==>
              var s := if IsRange(c) then Transform(core.doc.ops, c.start).value else 0;
              var e := if IsRange(c) then Transform(core.doc.ops, c.end).value else 0;
              && (IsRange(c) ==> s <= e <= |Working(core.doc)|)
              && Yields(core, user, WriteRole, line, Effect(Working(core.doc), s, e, c))
    ensures !Accepts(core.doc, core.version, c) ==>
              Refused(core, user, WriteRole, line,
                      if IsRange(c) && c.start < c.end <= |core.doc.committed| then RejectDeletedPosition
                      else RejectInvalidPosition)
  {
    hide Exec, Effect, Accepts, Submit, Working;
    ExecMeans(core.doc, core.version, c);
    if Accepts(core.doc, core.version, c) {
    } else {
      RefusalIs(core.doc, core.version, c);
      HeadingIsNoRange(core, c);
    }
  }

  lemma HeadingIsNoRange(core: Core, c: Command)
    requires Consistent(core)
    ensures core.version == core.doc.version && (c.Heading? ==> !IsRange(c))
  {
  }

  lemma OneSizeLine(core: Core, user: string, line: string, bare: string, verb: Verb, a: string)
    requires Consistent(core) && Sends(line, bare) && |Tokens(bare)| == 2 && Tokens(bare)[1] == a
    requires VerbOf(Tokens(bare)[0]) == Some(verb)
    requires verb in {NEWLINE, BLOCKQUOTE, ORDERED_LIST, UNORDERED_LIST, HORIZONTAL_RULE}
    ensures ParseSize(a).None? ==> Refused(core, user, WriteRole, line, RejectInvalidCommand)
    ensures ParseSize(a).Some? ==>
              var c := MakeOne(verb, ParseSize(a).value);
              && !IsRange(c) && c.pos == ParseSize(a).value
              && (c.pos > |Working(core.doc)| ==> Refused(core, user, WriteRole, line, RejectInvalidPosition))
              && (c.pos <= |Working(core.doc)| ==>
                    Yields(core, user, WriteRole, line, Effect(Working(core.doc), 0, 0, c)))
  {
    hide Tokens, NextToken, ParseSize, VerbOf, Executes, Refused, Yields, Effect, Working;
    VerbLine(core, user, line, bare, verb);
    if ParseSize(a).Some? {
      var c := MakeOne(verb, ParseSize(a).value);
      ExecutesMeans(core, user, line, c);
      SameVersion(core);
    }
  }

  lemma SameVersion(core: Core)
    requires Consistent(core)
    ensures core.version == core.doc.version
  {
  }

  lemma TwoSizeLine(core: Core, user: string, line: string, bare: string, verb: Verb, a: string, b: string)
    requires Consistent(core) && Sends(line, bare)
    requires |Tokens(bare)| == 3 && Tokens(bare)[1] == a && Tokens(bare)[2] == b
    requires VerbOf(Tokens(bare)[0]) == Some(verb) && verb in {DEL, HEADING, BOLD, ITALIC, CODE}
    ensures ParseSize(a).None? || ParseSize(b).None? ==> Refused(core, user, WriteRole, line, RejectInvalidCommand)
    ensures ParseSize(a).Some? && ParseSize(b).Some? ==>
              Executes(core, user, line, MakeTwo(verb, ParseSize(a).value, ParseSize(b).value))
  {
    hide Tokens, NextToken, ParseSize, VerbOf, Executes, Refused;
    VerbLine(core, user, line, bare, verb);
  }

  lemma WordsOfVerbs(word: string)
    ensures word == "DEL" || word == "HEADING" || word == "BOLD" || word == "ITALIC" || word == "CODE" ==>
              VerbOf(word).Some? && VerbOf(word).value in {DEL, HEADING, BOLD, ITALIC, CODE}
    ensures word == "NEWLINE" || word == "BLOCKQUOTE" || word == "ORDERED_LIST" || word == "UNORDERED_LIST" ||
            word == "HORIZONTAL_RULE" ==>
              VerbOf(word).Some? &&
              VerbOf(word).value in {NEWLINE, BLOCKQUOTE, ORDERED_LIST, UNORDERED_LIST, HORIZONTAL_RULE}
    ensures word == "LINK" ==> VerbOf(word) == Some(LINK)
    ensures word == "INSERT" ==> VerbOf(word) == Some(INSERT)
  {
  }

  lemma MiscountedArguments(verb: Verb, rest: string)
    requires var n := |Tokens(rest)|;
             || (verb in {DEL, HEADING, BOLD, ITALIC, CODE} && n != 2)
             || (verb in {NEWLINE, BLOCKQUOTE, ORDERED_LIST, UNORDERED_LIST, HORIZONTAL_RULE} && n != 1)
             || (verb == LINK && n != 3)
             || (verb == INSERT && n == 0)
    ensures ParseArguments(verb, rest).None?
  {
    FirstToken(rest);
    hide Tokens, NextToken, ParseSize;
  }

  /** A line with too few or too many words is refused. */
  lemma MiscountedLine(core: Core, user: string, line: string, bare: string)
    requires Sends(line, bare) && Tokens(bare) != []
    requires var word, n := Tokens(bare)[0], |Tokens(bare)|;
             || ((word == "DEL" || word == "HEADING" || word == "BOLD" || word == "ITALIC" || word == "CODE") && n != 3)
             || ((word == "NEWLINE" || word == "BLOCKQUOTE" || word == "ORDERED_LIST" || word == "UNORDERED_LIST" ||
                  word == "HORIZONTAL_RULE") && n != 2)
             || (word == "LINK" && n != 4)
             || (word == "INSERT" && n < 2)
    ensures Refused(core, user, WriteRole, line, RejectInvalidCommand)
  {
    hide Tokens, NextToken, ParseArguments, VerbOf, Refused;
    var word := Tokens(bare)[0];
    WordsOfVerbs(word);
    VerbLine(core, user, line, bare, VerbOf(word).value);
    MiscountedArguments(VerbOf(word).value, NextToken(bare).1);
  }

  /** A submitted canonical line, whoever sends it: a writer's takes its effect exactly when the document accepts
      the command and otherwise changes nothing; a reader's is refused. */
  lemma CanonicalLineSubmitted(core: Core, user: string, role: Role, c: Command, line: string)
    requires Consistent(core) && Writable(c) && |line| <= 256
    requires line == Canonical(c) || line == Canonical(c) + "\n"
    ensures role == ReadRole ==> Refused(core, user, role, line, RejectUnauthorised)
    ensures role == WriteRole ==>
              (Submit(core, user, role, line).0 == CmdSuccess <==> Accepts(core.doc, core.version, c))
    ensures role == WriteRole && Accepts(core.doc, core.version, c) ==>
              var s := if IsRange(c) then Transform(core.doc.ops, c.start).value else 0;
              var e := if IsRange(c) then Transform(core.doc.ops, c.end).value else 0;
              && (IsRange(c) ==> s <= e <= |Working(core.doc)|)
              && Yields(core, user, role, line, Effect(Working(core.doc), s, e, c))
    ensures role == WriteRole && !Accepts(core.doc, core.version, c) ==>
              Refused(core, user, role, line,
                      if IsRange(c) && c.start < c.end <= |core.doc.committed| then RejectDeletedPosition
                      else RejectInvalidPosition)
  {
    hide Writable, Canonical, Exec, Accepts, Effect, Execute;
    CanonicalLineIsExecuted(core.doc, core.version, role, c, line);
    if role == WriteRole {
      ExecutesMeans(core, user, line, c);
    }
  }

  // ----- the twelve commands

  /** INSERT pos content: the content is all that follows the one blank behind the position. */
  lemma InsertLine(core: Core, user: string, line: string, bare: string,
                   lead: string, gap: string, a: string, content: string)
    requires Consistent(core) && Sends(line, bare) && bare == lead + ("INSERT " + (gap + (a + (" " + content))))
    requires (forall i :: 0 <= i < |lead| ==> lead[i] == ' ') && forall i :: 0 <= i < |gap| ==> gap[i] == ' '
    requires a != "" && ' ' !in a
    ensures content == "" || ParseSize(a).None? ==> Refused(core, user, WriteRole, line, RejectInvalidCommand)
    ensures content != "" && ParseSize(a).Some? ==>
              var w, p := Working(core.doc), ParseSize(a).value;
              && (p > |w| ==> Refused(core, user, WriteRole, line, RejectInvalidPosition))
              && (p <= |w| ==> Yields(core, user, WriteRole, line, w[..p] + content + w[p..]))
  {
    hide Tokens, NextToken, ParseSize, Executes, Refused, Yields, Working;
    InsertParts(bare, lead, gap, a, content);
    VerbLine(core, user, line, bare, INSERT);
    if content != "" && ParseSize(a).Some? {
      SameVersion(core);
      ExecutesMeans(core, user, line, Command.Insert(ParseSize(a).value, content));
    }
  }

  lemma InsertParts(bare: string, lead: string, gap: string, a: string, content: string)
    requires bare == lead + ("INSERT " + (gap + (a + (" " + content))))
    requires (forall i :: 0 <= i < |lead| ==> lead[i] == ' ') && forall i :: 0 <= i < |gap| ==> gap[i] == ' '
    requires a != "" && ' ' !in a
    ensures Tokens(bare) != [] && VerbOf(Tokens(bare)[0]) == Some(INSERT)
    ensures NextToken(NextToken(bare).1) == (Some(a), content)
  {
    var rest := gap + (a + (" " + content));
    FirstToken(bare);
    hide Tokens, NextToken;
    SkipBlanks(lead, "INSERT " + rest);
    assert "INSERT " + rest == "INSERT" + " " + rest;
    NextTokenOfWord("INSERT", rest);
    SkipBlanks(gap, a + (" " + content));
    Assoc(a, " ", content);
    NextTokenOfWord(a, content);
  }

  lemma {:induction false} SkipBlanks(blanks: string, s: string)
    requires forall i :: 0 <= i < |blanks| ==> blanks[i] == ' '
    ensures NextToken(blanks + s) == NextToken(s)
    decreases |blanks|
  {
    if |blanks| == 0 {
      assert blanks + s == s;
    } else {
      SkipBlanks(blanks[1..], s);
      assert blanks + s == " " + (blanks[1..] + s);
      SkipOne(blanks[1..] + s);
    }
  }

  /** INSERT pos without content, and INSERT alone. */
  lemma InsertNothingLine(core: Core, user: string, line: string, bare: string, lead: string, gap: string, a: string)
    requires Sends(line, bare) && bare == lead + ("INSERT " + (gap + a))
    requires (forall i :: 0 <= i < |lead| ==> lead[i] == ' ') && forall i :: 0 <= i < |gap| ==> gap[i] == ' '
    requires ' ' !in a
    ensures Refused(core, user, WriteRole, line, RejectInvalidCommand)
  {
    hide Tokens, NextToken, ParseSize, Refused;
    InsertNothingParts(bare, lead, gap, a);
    VerbLine(core, user, line, bare, INSERT);
  }

  lemma InsertNothingParts(bare: string, lead: string, gap: string, a: string)
    requires bare == lead + ("INSERT " + (gap + a))
    requires (forall i :: 0 <= i < |lead| ==> lead[i] == ' ') && forall i :: 0 <= i < |gap| ==> gap[i] == ' '
    requires ' ' !in a
    ensures Tokens(bare) != [] && VerbOf(Tokens(bare)[0]) == Some(INSERT)
    ensures NextToken(NextToken(bare).1) == if a == "" then (None, "") else (Some(a), "")
  {
    var rest := gap + a;
    FirstToken(bare);
    NoToken();
    hide Tokens, NextToken;
    SkipBlanks(lead, "INSERT " + rest);
    assert "INSERT " + rest == "INSERT" + " " + rest;
    NextTokenOfWord("INSERT", rest);
    SkipBlanks(gap, a);
    if a != "" {
      NextTokenOfWord(a, "");
    }
  }

  lemma NoToken()
    ensures NextToken("") == (None, "")
  {
  }

  /** DEL pos len: deletes at most to the end of the text. */
  lemma DelLine(core: Core, user: string, line: string, bare: string, a: string, b: string)
    requires Consistent(core) && Sends(line, bare) && Tokens(bare) == ["DEL", a, b]
    ensures ParseSize(a).None? || ParseSize(b).None? ==> Refused(core, user, WriteRole, line, RejectInvalidCommand)
    ensures ParseSize(a).Some? && ParseSize(b).Some? ==>
              var w, p, n := Working(core.doc), ParseSize(a).value, ParseSize(b).value;
              && (p > |w| ==> Refused(core, user, WriteRole, line, RejectInvalidPosition))
              && (p <= |w| ==>
                    Yields(core, user, WriteRole, line, w[..p] + w[if p + n < |w| then p + n else |w|..]))
  {
    hide Tokens, NextToken, ParseSize, Executes, Refused, Yields, Working;
    TwoSizeLine(core, user, line, bare, DEL, a, b);
    if ParseSize(a).Some? && ParseSize(b).Some? {
      SameVersion(core);
      ExecutesMeans(core, user, line, Del(ParseSize(a).value, ParseSize(b).value));
      NothingDeleted(Working(core.doc), ParseSize(a).value);
    }
  }

  lemma NothingDeleted(w: string, p: nat)
    ensures p <= |w| ==> w[..p] + w[p..] == w
  {
  }

  /** NEWLINE pos: a blank at the position gives way to the newline. */
  lemma NewlineLine(core: Core, user: string, line: string, bare: string, a: string)
    requires Consistent(core) && Sends(line, bare) && Tokens(bare) == ["NEWLINE", a]
    ensures ParseSize(a).None? ==> Refused(core, user, WriteRole, line, RejectInvalidCommand)
    ensures ParseSize(a).Some? ==>
              var w, p := Working(core.doc), ParseSize(a).value;
              && (p > |w| ==> Refused(core, user, WriteRole, line, RejectInvalidPosition))
              && (p <= |w| ==> Yields(core, user, WriteRole, line,
                                      w[..p] + "\n" + (if p < |w| && w[p] == ' ' then w[p + 1..] else w[p..])))
  {
    hide Tokens, NextToken, ParseSize, Refused, Yields, Working;
    OneSizeLine(core, user, line, bare, NEWLINE, a);
  }

  /** HEADING level pos: one to three hashes and a blank open a line at the position. */
  lemma HeadingLine(core: Core, user: string, line: string, bare: string, a: string, b: string)
    requires Consistent(core) && Sends(line, bare) && Tokens(bare) == ["HEADING", a, b]
    ensures ParseSize(a).None? || ParseSize(b).None? ==> Refused(core, user, WriteRole, line, RejectInvalidCommand)
    ensures ParseSize(a).Some? && ParseSize(b).Some? ==>
              var w, level, p := Working(core.doc), ParseSize(a).value, ParseSize(b).value;
              && (level < 1 || level > 3 || p > |w| ==> Refused(core, user, WriteRole, line, RejectInvalidPosition))
              && (1 <= level <= 3 && p <= |w| ==>
                    Yields(core, user, WriteRole, line,
                           w[..p] + (if p == 0 || w[p - 1] == '\n' then "" else "\n")
                           + ("###"[..level] + " ") + w[p..]))
  {
    hide Tokens, NextToken, ParseSize, Executes, Refused, Yields, Working;
    TwoSizeLine(core, user, line, bare, HEADING, a, b);
    if ParseSize(a).Some? && ParseSize(b).Some? {
      var level, p := ParseSize(a).value, ParseSize(b).value;
      SameVersion(core);
      ExecutesMeans(core, user, line, Heading(level, p));
      if 1 <= level <= 3 {
        assert BlockTag(Heading(level, p)) == "###"[..level] + " ";
        BlockSpelled(Working(core.doc), p, "###"[..level] + " ");
      }
    }
  }

  lemma BlockSpelled(w: string, p: nat, tag: string)
    ensures p <= |w| ==>
              WithBlock(w, p, tag) == w[..p] + (if p == 0 || w[p - 1] == '\n' then "" else "\n") + tag + w[p..]
  {
  }

  /** BLOCKQUOTE pos. */
  lemma BlockquoteLine(core: Core, user: string, line: string, bare: string, a: string)
    requires Consistent(core) && Sends(line, bare) && Tokens(bare) == ["BLOCKQUOTE", a]
    ensures ParseSize(a).None? ==> Refused(core, user, WriteRole, line, RejectInvalidCommand)
    ensures ParseSize(a).Some? ==>
              var w, p := Working(core.doc), ParseSize(a).value;
              && (p > |w| ==> Refused(core, user, WriteRole, line, RejectInvalidPosition))
              && (p <= |w| ==> Yields(core, user, WriteRole, line,
                                      w[..p] + (if p == 0 || w[p - 1] == '\n' then "" else "\n") + "> " + w[p..]))
  {
    hide Tokens, NextToken, ParseSize, Refused, Yields, Working;
    OneSizeLine(core, user, line, bare, BLOCKQUOTE, a);
    if ParseSize(a).Some? {
      BlockSpelled(Working(core.doc), ParseSize(a).value, "> ");
    }
  }

  /** UNORDERED_LIST pos. */
  lemma UnorderedListLine(core: Core, user: string, line: string, bare: string, a: string)
    requires Consistent(core) && Sends(line, bare) && Tokens(bare) == ["UNORDERED_LIST", a]
    ensures ParseSize(a).None? ==> Refused(core, user, WriteRole, line, RejectInvalidCommand)
    ensures ParseSize(a).Some? ==>
              var w, p := Working(core.doc), ParseSize(a).value;
              && (p > |w| ==> Refused(core, user, WriteRole, line, RejectInvalidPosition))
              && (p <= |w| ==> Yields(core, user, WriteRole, line,
                                      w[..p] + (if p == 0 || w[p - 1] == '\n' then "" else "\n") + "- " + w[p..]))
  {
    hide Tokens, NextToken, ParseSize, Refused, Yields, Working;
    OneSizeLine(core, user, line, bare, UNORDERED_LIST, a);
    if ParseSize(a).Some? {
      BlockSpelled(Working(core.doc), ParseSize(a).value, "- ");
    }
  }

  /** HORIZONTAL_RULE pos. */
  lemma HorizontalRuleLine(core: Core, user: string, line: string, bare: string, a: string)
    requires Consistent(core) && Sends(line, bare) && Tokens(bare) == ["HORIZONTAL_RULE", a]
    ensures ParseSize(a).None? ==> Refused(core, user, WriteRole, line, RejectInvalidCommand)
    ensures ParseSize(a).Some? ==>
              var w, p := Working(core.doc), ParseSize(a).value;
              && (p > |w| ==> Refused(core, user, WriteRole, line, RejectInvalidPosition))
              && (p <= |w| ==> Yields(core, user, WriteRole, line,
                                      w[..p] + (if p == 0 || w[p - 1] == '\n' then "" else "\n") + "---\n" + w[p..]))
  {
    hide Tokens, NextToken, ParseSize, Refused, Yields, Working;
    OneSizeLine(core, user, line, bare, HORIZONTAL_RULE, a);
    if ParseSize(a).Some? {
      BlockSpelled(Working(core.doc), ParseSize(a).value, "---\n");
    }
  }

  /** ORDERED_LIST pos: a blank at the position goes, and the item opens a line. */
  lemma OrderedListLine(core: Core, user: string, line: string, bare: string, a: string)
    requires Consistent(core) && Sends(line, bare) && Tokens(bare) == ["ORDERED_LIST", a]
    ensures ParseSize(a).None? ==> Refused(core, user, WriteRole, line, RejectInvalidCommand)
    ensures ParseSize(a).Some? ==>
              var w, p := Working(core.doc), ParseSize(a).value;
              && (p > |w| ==> Refused(core, user, WriteRole, line, RejectInvalidPosition))
              && (p <= |w| ==> Yields(core, user, WriteRole, line,
                                      w[..p] + (if p == 0 || w[p - 1] == '\n' then "" else "\n") + "1. "
                                      + (if p < |w| && w[p] == ' ' then w[p + 1..] else w[p..])))
  {
    hide Tokens, NextToken, ParseSize, Refused, Yields, Working;
    OneSizeLine(core, user, line, bare, ORDERED_LIST, a);
    if ParseSize(a).Some? {
      ListItemSpelled(Working(core.doc), ParseSize(a).value);
    }
  }

  lemma ListItemSpelled(w: string, p: nat)
    ensures p <= |w| ==>
              WithListItem(w, p, "1. ") == w[..p] + (if p == 0 || w[p - 1] == '\n' then "" else "\n") + "1. "
                                           + (if p < |w| && w[p] == ' ' then w[p + 1..] else w[p..])
  {
    if p < |w| && w[p] == ' ' {
      var base := w[..p] + w[p + 1..];
      assert base[..p] == w[..p] && base[p..] == w[p + 1..];
      BlockSpelled(base, p, "1. ");
    } else {
      BlockSpelled(w, p, "1. ");
    }
  }

  /** The answer to a range command on the committed characters from start to end. Its markers go to the places
      to which the two ends are carried. */
  predicate RangeLine(core: Core, user: string, line: string, start: nat, end: nat, open: string, close: string) {
    var w, n := Working(core.doc), |core.doc.committed|;
    var s, e := Transform(core.doc.ops, start), Transform(core.doc.ops, end);
    if start >= end || end > n then Refused(core, user, WriteRole, line, RejectInvalidPosition)
    else if s.None? || e.None? then Refused(core, user, WriteRole, line, RejectDeletedPosition)
    else
      && s.value <= e.value <= |w|
      && Yields(core, user, WriteRole, line, w[..s.value] + open + w[s.value..e.value] + close + w[e.value..])
  }

  lemma RangeExecuted(core: Core, user: string, line: string, c: Command)
    requires Consistent(core) && IsRange(c) && Executes(core, user, line, c)
    ensures RangeLine(core, user, line, c.start, c.end, Opening(c), Closing(c))
  {
    hide Executes, Refused, Yields, Working, Opening, Closing, Transform;
    SameVersion(core);
    ExecutesMeans(core, user, line, c);
  }

  /** BOLD start end. */
  lemma BoldLine(core: Core, user: string, line: string, bare: string, a: string, b: string)
    requires Consistent(core) && Sends(line, bare) && Tokens(bare) == ["BOLD", a, b]
    ensures ParseSize(a).None? || ParseSize(b).None? ==> Refused(core, user, WriteRole, line, RejectInvalidCommand)
    ensures ParseSize(a).Some? && ParseSize(b).Some? ==>
              RangeLine(core, user, line, ParseSize(a).value, ParseSize(b).value, "**", "**")
  {
    hide Tokens, NextToken, ParseSize, Executes, Refused, Yields, Working, Transform;
    TwoSizeLine(core, user, line, bare, BOLD, a, b);
    if ParseSize(a).Some? && ParseSize(b).Some? {
      RangeExecuted(core, user, line, Bold(ParseSize(a).value, ParseSize(b).value));
    }
  }

  /** ITALIC start end. */
  lemma ItalicLine(core: Core, user: string, line: string, bare: string, a: string, b: string)
    requires Consistent(core) && Sends(line, bare) && Tokens(bare) == ["ITALIC", a, b]
    ensures ParseSize(a).None? || ParseSize(b).None? ==> Refused(core, user, WriteRole, line, RejectInvalidCommand)
    ensures ParseSize(a).Some? && ParseSize(b).Some? ==>
              RangeLine(core, user, line, ParseSize(a).value, ParseSize(b).value, "*", "*")
  {
    hide Tokens, NextToken, ParseSize, Executes, Refused, Yields, Working, Transform;
    TwoSizeLine(core, user, line, bare, ITALIC, a, b);
    if ParseSize(a).Some? && ParseSize(b).Some? {
      RangeExecuted(core, user, line, Italic(ParseSize(a).value, ParseSize(b).value));
    }
  }

  /** CODE start end. */
  lemma CodeLine(core: Core, user: string, line: string, bare: string, a: string, b: string)
    requires Consistent(core) && Sends(line, bare) && Tokens(bare) == ["CODE", a, b]
    ensures ParseSize(a).None? || ParseSize(b).None? ==> Refused(core, user, WriteRole, line, RejectInvalidCommand)
    ensures ParseSize(a).Some? && ParseSize(b).Some? ==>
              RangeLine(core, user, line, ParseSize(a).value, ParseSize(b).value, "`", "`")
  {
    hide Tokens, NextToken, ParseSize, Executes, Refused, Yields, Working, Transform;
    TwoSizeLine(core, user, line, bare, CODE, a, b);
    if ParseSize(a).Some? && ParseSize(b).Some? {
      RangeExecuted(core, user, line, Code(ParseSize(a).value, ParseSize(b).value));
    }
  }

  /** LINK start end url. */
  lemma LinkLine(core: Core, user: string, line: string, bare: string, a: string, b: string, url: string)
    requires Consistent(core) && Sends(line, bare) && Tokens(bare) == ["LINK", a, b, url]
    ensures ParseSize(a).None? || ParseSize(b).None? ==> Refused(core, user, WriteRole, line, RejectInvalidCommand)
    ensures ParseSize(a).Some? && ParseSize(b).Some? ==>
              RangeLine(core, user, line, ParseSize(a).value, ParseSize(b).value, "[", "](" + url + ")")
  {
    hide Tokens, NextToken, ParseSize, Executes, Refused, Yields, Working, Transform;
    VerbLine(core, user, line, bare, LINK);
    if ParseSize(a).Some? && ParseSize(b).Some? {
      RangeExecuted(core, user, line, Link(ParseSize(a).value, ParseSize(b).value, url));
    }
  }
}
