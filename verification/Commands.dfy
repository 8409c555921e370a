/** Command lines: checking, tokenising, authorising and dispatching them to the document engine. */
module Commands {
  import opened Wrappers
  import opened Text
  import opened Engine

  const MAX_COMMAND_LEN: nat := 256

  datatype Role = ReadRole | WriteRole

  datatype CommandResult =
    | CmdSuccess
    | RejectUnauthorised
    | RejectInvalidPosition
    | RejectDeletedPosition
    | RejectOutdatedVersion
    | RejectInvalidCommand

  function MapResult(o: Outcome): CommandResult {
    match o
    case Success => CmdSuccess
    case InvalidCursorPos => RejectInvalidPosition
    case DeletedPosition => RejectDeletedPosition
    case OutdatedVersion => RejectOutdatedVersion
  }

  datatype Verb = INSERT | DEL | NEWLINE | HEADING | BOLD | ITALIC | BLOCKQUOTE | ORDERED_LIST | UNORDERED_LIST
                | CODE | HORIZONTAL_RULE | LINK

  function VerbName(v: Verb): string {
    match v
    case INSERT => "INSERT"
    case DEL => "DEL"
    case NEWLINE => "NEWLINE"
    case HEADING => "HEADING"
    case BOLD => "BOLD"
    case ITALIC => "ITALIC"
    case BLOCKQUOTE => "BLOCKQUOTE"
    case ORDERED_LIST => "ORDERED_LIST"
    case UNORDERED_LIST => "UNORDERED_LIST"
    case CODE => "CODE"
    case HORIZONTAL_RULE => "HORIZONTAL_RULE"
    case LINK => "LINK"
  }

  /** The verb a word names; every verb is a write command. */
  function VerbOf(word: string): Option<Verb> {
    if word == "INSERT" then Some(INSERT)
    else if word == "DEL" then Some(DEL)
    else if word == "NEWLINE" then Some(NEWLINE)
    else if word == "HEADING" then Some(HEADING)
    else if word == "BOLD" then Some(BOLD)
    else if word == "ITALIC" then Some(ITALIC)
    else if word == "BLOCKQUOTE" then Some(BLOCKQUOTE)
    else if word == "ORDERED_LIST" then Some(ORDERED_LIST)
    else if word == "UNORDERED_LIST" then Some(UNORDERED_LIST)
    else if word == "CODE" then Some(CODE)
    else if word == "HORIZONTAL_RULE" then Some(HORIZONTAL_RULE)
    else if word == "LINK" then Some(LINK)
    else None
  }

  // ----- lines

  predicate Printable(c: char) {
    32 <= c as int <= 126
  }

  /** Printable characters, at most 256 of them with the newline that may end the line. */
  predicate ValidLine(line: string) {
    && 0 < |line| <= MAX_COMMAND_LEN
    && forall i :: 0 <= i < |line| ==> Printable(line[i]) || (line[i] == '\n' && i == |line| - 1)
  }

  method ValidateRawCommandLine(line: string) returns (ok: bool)
    ensures ok <==> ValidLine(line)
    ensures ok <==> 0 < |line| <= 256 &&
                    forall i :: 0 <= i < |line| ==> ' ' <= line[i] <= '~' || (line[i] == '\n' && i == |line| - 1)
  {
    var len := |line|;
    if len == 0 || len > MAX_COMMAND_LEN {
      return false;
    }
    var i := 0;
    while i < len
      invariant i <= len
      invariant forall k :: 0 <= k < i ==> Printable(line[k]) || (line[k] == '\n' && k == len - 1)
    {
      var c := line[i];
      if c == '\n' {
        if i != len - 1 {
          return false;
        }
      } else if c as int < 32 || c as int > 126 {
        return false;
      }
      i := i + 1;
    }
    ok := true;
  }

  function WithoutTrailingNewline(line: string): string {
    if |line| > 0 && line[|line| - 1] == '\n' then line[..|line| - 1] else line
  }

  // ----- tokens

  function SkipSpaces(s: string): (r: string)
    ensures |r| <= |s| && (|r| > 0 ==> r[0] != ' ')
  {
    if |s| > 0 && s[0] == ' ' then SkipSpaces(s[1..]) else s
  }

  /** One step of strtok_r with the separator " ": the next token, and where the cursor stands after it. */
  function NextToken(save: string): (r: (Option<string>, string))
    ensures r.0.Some? ==> |r.1| < |save| && r.0.value != "" && ' ' !in r.0.value
  {
    var s := SkipSpaces(save);
    if s == "" then (None, "")
    else
      var k := IndexOf(s, ' ');
      (Some(s[..k]), if k < |s| then s[k + 1..] else "")
  }

  /** All tokens of a string. */
  function Tokens(s: string): seq<string>
    decreases |s|
  {
    match NextToken(s)
    case (None, _) => []
    case (Some(t), rest) => [t] + Tokens(rest)
  }

  /** strtoul in base 10 on a whole token: an optional sign and digits; too large a number saturates and a
      minus sign negates modulo 2^64. */
  function ParseSize(s: string): (r: Option<nat>)
    ensures r.Some? ==> r.value < SIZE_MODULUS
  {
    var signed := |s| > 0 && (s[0] == '-' || s[0] == '+');
    var digits := if signed then s[1..] else s;
    if digits == "" || !AllDigits(digits) then None
    else if DecimalValue(digits) >= SIZE_MODULUS then Some(SIZE_MODULUS - 1)
    else if signed && s[0] == '-' then Some((SIZE_MODULUS - DecimalValue(digits)) % SIZE_MODULUS)
    else Some(DecimalValue(digits))
  }

  function OneSize(rest: string): Option<nat> {
    var ts := Tokens(rest);
    if |ts| == 1 then ParseSize(ts[0]) else None
  }

  function TwoSizes(ts: seq<string>): Option<(nat, nat)> {
    if |ts| < 2 then None
    else
      match (ParseSize(ts[0]), ParseSize(ts[1]))
      case (Some(a), Some(b)) => Some((a, b))
      case _ => None
  }

  function JustTwoSizes(rest: string): Option<(nat, nat)> {
    if |Tokens(rest)| == 2 then TwoSizes(Tokens(rest)) else None
  }

  /** The content of an insertion is everything after the one space behind its position. */
  function ParseInsert(rest: string): Option<Command> {
    match NextToken(rest)
    case (None, _) => None
    case (Some(p), content) =>
      if content == "" || ParseSize(p).None? then None else Some(Command.Insert(ParseSize(p).value, content))
  }

  function ParseLink(rest: string): Option<Command> {
    var ts := Tokens(rest);
    if |ts| != 3 || TwoSizes(ts).None? then None else Some(Link(TwoSizes(ts).value.0, TwoSizes(ts).value.1, ts[2]))
  }

  /** The command a verb and its arguments denote. */
  function ParseArguments(verb: Verb, rest: string): Option<Command> {
    if verb == INSERT then ParseInsert(rest)
    else if verb == LINK then ParseLink(rest)
    else if verb in {DEL, HEADING, BOLD, ITALIC, CODE} then
      match JustTwoSizes(rest)
      case None => None
      case Some((a, b)) => Some(MakeTwo(verb, a, b))
    else
      match OneSize(rest)
      case None => None
      case Some(p) => Some(MakeOne(verb, p))
  }

  function MakeTwo(verb: Verb, a: nat, b: nat): Command {
    if verb == DEL then Del(a, b)
    else if verb == HEADING then Heading(a, b)
    else if verb == BOLD then Bold(a, b)
    else if verb == ITALIC then Italic(a, b)
    else Code(a, b)
  }

  function MakeOne(verb: Verb, p: nat): Command {
    if verb == NEWLINE then Newline(p)
    else if verb == BLOCKQUOTE then Blockquote(p)
    else if verb == ORDERED_LIST then OrderedList(p)
    else if verb == UNORDERED_LIST then UnorderedList(p)
    else HorizontalRule(p)
  }

  // ----- execution

  /** The result of a command line and the document after it. */
  function Execute(d: Doc, version: Version, role: Role, line: string): (CommandResult, Doc) {
    if !ValidLine(line) then (RejectInvalidCommand, d)
    else ExecuteBare(d, version, role, WithoutTrailingNewline(line))
  }

  function ExecuteBare(d: Doc, version: Version, role: Role, bare: string): (CommandResult, Doc) {
    match NextToken(bare)
    case (None, _) => (RejectInvalidCommand, d)
    case (Some(word), rest) =>
      match VerbOf(word)
      case None => (RejectInvalidCommand, d)
      case Some(verb) =>
        if role != WriteRole then (RejectUnauthorised, d)
        else
          match ParseArguments(verb, rest)
          case None => (RejectInvalidCommand, d)
          case Some(c) => (MapResult(Exec(d, version, c).0), Exec(d, version, c).1)
  }

  lemma ExecuteKeepsValid(d: Doc, version: Version, role: Role, line: string)
    requires Valid(d)
    ensures var (r, d') := Execute(d, version, role, line);
            && Valid(d') && d'.committed == d.committed && d'.version == d.version
            && (r != CmdSuccess ==> d' == d)
  {
    var (token, rest) := NextToken(WithoutTrailingNewline(line));
    if token.Some? && VerbOf(token.value).Some? {
      var c := ParseArguments(VerbOf(token.value).value, rest);
      if c.Some? {
        ExecKeepsValid(d, version, c.value);
      }
    }
  }

  /** Readers never change a document, whatever they send. */
  lemma ReadersChangeNothing(d: Doc, version: Version, line: string)
    ensures Execute(d, version, ReadRole, line).1 == d
    ensures Execute(d, version, ReadRole, line).0 in {RejectUnauthorised, RejectInvalidCommand}
  {
  }

  /** A command that succeeded does the same when its line is sent again without its newline by a writer,
      against the current version of a document with the same text and queue. */
  lemma SuccessIsReplayable(d: Doc, version: Version, role: Role, line: string, e: Doc)
    requires e.committed == d.committed && e.ops == d.ops
    ensures Execute(d, version, role, line).0 == CmdSuccess ==>
              && role == WriteRole && version == d.version
              && Execute(e, e.version, WriteRole, WithoutTrailingNewline(line)) ==
                 (CmdSuccess, Execute(d, version, role, line).1.(version := e.version))
  {
    if Execute(d, version, role, line).0 == CmdSuccess {
      var bare := WithoutTrailingNewline(line);
      BareLineIsStable(line);
      var (token, rest) := NextToken(bare);
      var c := ParseArguments(VerbOf(token.value).value, rest).value;
      assert Exec(d, version, c).0 == Success;
      ExecIgnoresVersion(d, e, c);
    }
  }

  lemma BareLineIsStable(line: string)
    requires ValidLine(line) && NextToken(WithoutTrailingNewline(line)).0.Some?
    ensures ValidLine(WithoutTrailingNewline(line))
    ensures WithoutTrailingNewline(WithoutTrailingNewline(line)) == WithoutTrailingNewline(line)
  {
    assert WithoutTrailingNewline(line) != "";
  }

  /** A command does the same on documents that differ only in their version, sent at that version. */
  lemma ExecIgnoresVersion(d: Doc, e: Doc, c: Command)
    requires d.committed == e.committed && d.ops == e.ops
    ensures Exec(e, e.version, c).0 == Exec(d, d.version, c).0
    ensures Exec(e, e.version, c).1 == Exec(d, d.version, c).1.(version := e.version)
  {
    assert PlanOf(e, e.version, c) == PlanOf(d, d.version, c);
  }

  // ----- canonical lines

  predicate AllPrintable(s: string) {
    forall i :: 0 <= i < |s| ==> Printable(s[i])
  }

  /** Commands that can be written on a line: sizes fit 64 bits, inserted content is not empty, and a URL is
      one word. */
  predicate Writable(c: Command) {
    && (forall n :: n in Sizes(c) ==> n < SIZE_MODULUS)
    && (c.Insert? ==> c.content != "" && AllPrintable(c.content))
    && (c.Link? ==> IsWord(c.url) && AllPrintable(c.url))
  }

  /** The numbers of a command, in the order in which they stand on its line. */
  function Sizes(c: Command): seq<nat> {
    if c.Heading? then [c.level, c.pos]
    else if c.Del? then [c.pos, c.len]
    else if IsRange(c) then [c.start, c.end]
    else [c.pos]
  }

  predicate IsWord(s: string) {
    s != "" && ' ' !in s
  }

  lemma NextTokenOfWord(w: string, rest: string)
    requires IsWord(w)
    ensures NextToken(w + " " + rest) == (Some(w), rest)
    ensures NextToken(w) == (Some(w), "")
  {
    var s := w + " " + rest;
    assert w[0] in w && s[0] == w[0];
    assert SkipSpaces(s) == s && SkipSpaces(w) == w;
    assert w[..|w|] == w;
    IndexOfFirst(w, ' ', rest);
    IndexOfAbsent(w, ' ');
  }

  lemma DecimalIsWord(n: nat)
    ensures IsWord(Decimal(n)) && AllPrintable(Decimal(n))
    ensures n < SIZE_MODULUS ==> ParseSize(Decimal(n)) == Some(n)
  {
    DecimalRoundTrip(n);
  }

  lemma TokensOfOne(a: string)
    requires IsWord(a)
    ensures Tokens(a) == [a]
  {
    NextTokenOfWord(a, "");
    assert Tokens("") == [];
  }

  /** Tokens, told by their laws: blanks in front do not count, and a word ends at a blank or at the end. */
  lemma TokenLaws(word: string, rest: string)
    requires word != "" && ' ' !in word
    ensures Tokens("") == [] && Tokens(" " + rest) == Tokens(rest)
    ensures Tokens(word) == [word] && Tokens(word + " " + rest) == [word] + Tokens(rest)
  {
    TokensOfOne(word);
    TokensOfMore(word, rest);
    SkipOne(rest);
  }

  lemma SkipOne(rest: string)
    ensures NextToken(" " + rest) == NextToken(rest)
  {
    assert (" " + rest)[1..] == rest;
  }

  lemma TokensOfMore(a: string, rest: string)
    requires IsWord(a)
    ensures Tokens(a + " " + rest) == [a] + Tokens(rest)
  {
    NextTokenOfWord(a, rest);
  }

  function VerbFor(c: Command): Verb {
    match c
    case Insert(_, _) => INSERT
    case Del(_, _) => DEL
    case Newline(_) => NEWLINE
    case Heading(_, _) => HEADING
    case Bold(_, _) => BOLD
    case Italic(_, _) => ITALIC
    case Blockquote(_) => BLOCKQUOTE
    case OrderedList(_) => ORDERED_LIST
    case UnorderedList(_) => UNORDERED_LIST
    case Code(_, _) => CODE
    case HorizontalRule(_) => HORIZONTAL_RULE
    case Link(_, _, _) => LINK
  }

  function Arguments(c: Command): string {
    var sizes := Sizes(c);
    if c.Insert? then Decimal(c.pos) + " " + c.content
    else if c.Link? then Decimal(c.start) + " " + (Decimal(c.end) + " " + c.url)
    else if |sizes| == 2 then Decimal(sizes[0]) + " " + Decimal(sizes[1])
    else Decimal(sizes[0])
  }

  function Canonical(c: Command): string {
    VerbName(VerbFor(c)) + " " + Arguments(c)
  }

  lemma VerbRoundTrip(v: Verb)
    ensures VerbOf(VerbName(v)) == Some(v)
  {
  }

  lemma ShortVerbNameIsWord(v: Verb)
    requires v in {INSERT, DEL, NEWLINE, HEADING, BOLD, ITALIC, CODE, LINK}
    ensures IsWord(VerbName(v)) && AllPrintable(VerbName(v))
  {
  }

  lemma VerbNameIsWord(v: Verb)
    ensures IsWord(VerbName(v)) && AllPrintable(VerbName(v))
  {
    if v in {INSERT, DEL, NEWLINE, HEADING, BOLD, ITALIC, CODE, LINK} {
      ShortVerbNameIsWord(v);
    }
  }

  lemma OneSizeReadBack(a: nat)
    requires a < SIZE_MODULUS
    ensures OneSize(Decimal(a)) == Some(a)
  {
    DecimalIsWord(a);
    TokensOfOne(Decimal(a));
  }

  lemma TwoSizesReadBack(a: nat, b: nat)
    requires a < SIZE_MODULUS && b < SIZE_MODULUS
    ensures JustTwoSizes(Decimal(a) + " " + Decimal(b)) == Some((a, b))
  {
    DecimalIsWord(a);
    DecimalIsWord(b);
    TokensOfMore(Decimal(a), Decimal(b));
    TokensOfOne(Decimal(b));
    assert Tokens(Decimal(a) + " " + Decimal(b)) == [Decimal(a), Decimal(b)];
  }

  lemma ThreeTokens(a: string, b: string, c: string)
    requires IsWord(a) && IsWord(b) && IsWord(c)
    ensures Tokens(a + " " + (b + " " + c)) == [a, b, c]
  {
    TokensOfMore(a, b + " " + c);
    TokensOfMore(b, c);
    TokensOfOne(c);
  }

  lemma LinkReadBack(a: nat, b: nat, url: string)
    requires a < SIZE_MODULUS && b < SIZE_MODULUS && IsWord(url)
    ensures ParseLink(Decimal(a) + " " + (Decimal(b) + " " + url)) == Some(Link(a, b, url))
  {
    DecimalIsWord(a);
    DecimalIsWord(b);
    ThreeTokens(Decimal(a), Decimal(b), url);
  }

  lemma TwoSizeCommandReadBack(c: Command, a: nat, b: nat)
    requires !c.Link? && Sizes(c) == [a, b] && a < SIZE_MODULUS && b < SIZE_MODULUS
    ensures ParseArguments(VerbFor(c), Arguments(c)) == Some(c)
  {
    hide JustTwoSizes, Decimal;
    TwoSizesReadBack(a, b);
    assert Arguments(c) == Decimal(a) + " " + Decimal(b);
    assert MakeTwo(VerbFor(c), a, b) == c;
  }

  lemma OneSizeCommandReadBack(c: Command, a: nat)
    requires !c.Insert? && Sizes(c) == [a] && a < SIZE_MODULUS
    ensures ParseArguments(VerbFor(c), Arguments(c)) == Some(c)
  {
    OneSizeReadBack(a);
    assert Arguments(c) == Decimal(a);
    assert MakeOne(VerbFor(c), a) == c;
  }

  lemma ArgumentsReadBack(c: Command)
    requires Writable(c)
    ensures ParseArguments(VerbFor(c), Arguments(c)) == Some(c)
  {
    var sizes := Sizes(c);
    assert sizes[0] in sizes;
    assert |sizes| == 2 ==> sizes[1] in sizes;
    if c.Insert? {
      InsertReadBack(c.pos, c.content);
    } else if c.Link? {
      LinkReadBack(c.start, c.end, c.url);
    } else if |sizes| == 2 {
      TwoSizeCommandReadBack(c, sizes[0], sizes[1]);
    } else {
      OneSizeCommandReadBack(c, sizes[0]);
    }
  }

  lemma InsertReadBack(pos: nat, content: string)
    requires pos < SIZE_MODULUS && content != ""
    ensures ParseInsert(Decimal(pos) + " " + content) == Some(Command.Insert(pos, content))
  {
    DecimalIsWord(pos);
    NextTokenOfWord(Decimal(pos), content);
  }

  lemma ArgumentsArePrintable(c: Command)
    requires Writable(c)
    ensures AllPrintable(Arguments(c)) && Arguments(c) != ""
  {
    var sizes := Sizes(c);
    DecimalIsWord(sizes[0]);
    if |sizes| == 2 {
      DecimalIsWord(sizes[1]);
    }
  }

  /** The canonical line of a command, with or without a newline, is executed as exactly that command. */
  lemma CanonicalLineIsExecuted(d: Doc, version: Version, role: Role, c: Command, line: string)
    requires Writable(c)
    requires line == Canonical(c) || line == Canonical(c) + "\n"
    requires |line| <= 256
    ensures Execute(d, version, role, line) ==
            if role == WriteRole then (MapResult(Exec(d, version, c).0), Exec(d, version, c).1)
            else (RejectUnauthorised, d)
  {
    var name := VerbName(VerbFor(c));
    VerbRoundTrip(VerbFor(c));
    VerbNameIsWord(VerbFor(c));
    ArgumentsArePrintable(c);
    CanonicalIsValid(name, Arguments(c), line);
    NextTokenOfWord(name, Arguments(c));
    ArgumentsReadBack(c);
  }

  lemma CanonicalIsValid(name: string, arguments: string, line: string)
    requires AllPrintable(name) && AllPrintable(arguments) && arguments != ""
    requires line == name + " " + arguments || line == name + " " + arguments + "\n"
    requires |line| <= 256
    ensures ValidLine(line) && WithoutTrailingNewline(line) == name + " " + arguments
  {
    var bare := name + " " + arguments;
    assert AllPrintable(bare);
    assert Printable(bare[|bare| - 1]);
    assert (bare + "\n")[..|bare|] == bare;
  }

  /** What a writer is told about a canonical line, in terms of the document alone. */
  lemma CanonicalLineOutcome(d: Doc, version: Version, c: Command)
    requires Writable(c) && |Canonical(c)| <= 256 && Valid(d)
    ensures Execute(d, version, WriteRole, Canonical(c)).0 ==
            if Accepts(d, version, c) then CmdSuccess
            else if c.Heading? && !(1 <= c.level <= 3) then RejectInvalidPosition
            else if version != d.version then RejectOutdatedVersion
            else if IsRange(c) && c.start < c.end <= |d.committed| then RejectDeletedPosition
            else RejectInvalidPosition
  {
    CanonicalLineIsExecuted(d, version, WriteRole, c, Canonical(c));
    if Accepts(d, version, c) {
      ExecMeans(d, version, c);
    } else {
      RefusalIs(d, version, c);
    }
  }

  /** A number is an optional sign and one or more digits, and nothing else. */
  lemma NumbersAre(s: string)
    ensures ParseSize(s).Some? <==>
            exists sign, digits: string :: (sign == "" || sign == "+" || sign == "-") && s == sign + digits
              && |digits| > 0 && forall i :: 0 <= i < |digits| ==> '0' <= digits[i] <= '9'
  {
    hide DecimalValue;
    if ParseSize(s).Some? {
      var k := if s[0] == '-' || s[0] == '+' then 1 else 0;
      assert s == s[..k] + s[k..];
    }
    if sign, digits :| (sign == "" || sign == "+" || sign == "-") && s == sign + digits
                       && |digits| > 0 && forall i :: 0 <= i < |digits| ==> '0' <= digits[i] <= '9' {
      SignedNumber(sign, digits);
    }
  }

  /** The number that a sign and digits denote: too large a number saturates, and a minus sign negates modulo
      2^64. Leading zeros do not matter. */
  lemma SignedNumber(sign: string, digits: string)
    requires (sign == "" || sign == "+" || sign == "-") && |digits| > 0 && AllDigits(digits)
    ensures ParseSize(sign + digits) ==
            var n := DecimalValue(digits);
            Some(if n > 0xFFFF_FFFF_FFFF_FFFF then 0xFFFF_FFFF_FFFF_FFFF
                 else if sign == "-" && n > 0 then 0x1_0000_0000_0000_0000 - n else n)
  {
    hide DecimalValue;
    var s := sign + digits;
    if sign == "" {
      assert s == digits && IsDigit(digits[0]);
    } else {
      assert s[0] == sign[0] && s[1..] == digits;
    }
  }

  /** Signs and large numbers, as strtoul reads them. */
  lemma SignedSizes(n: nat)
    ensures ParseSize("+" + Decimal(n)) == Some(if n < SIZE_MODULUS then n else SIZE_MODULUS - 1)
    ensures ParseSize("-" + Decimal(n)) ==
            Some(if n == 0 then 0 else if n < SIZE_MODULUS then SIZE_MODULUS - n else SIZE_MODULUS - 1)
  {
    PositiveSize(n);
    NegativeSize(n);
  }

  lemma PositiveSize(n: nat)
    ensures ParseSize("+" + Decimal(n)) == Some(if n < SIZE_MODULUS then n else SIZE_MODULUS - 1)
  {
    DecimalRoundTrip(n);
    assert ("+" + Decimal(n))[1..] == Decimal(n);
  }

  lemma NegativeSize(n: nat)
    ensures ParseSize("-" + Decimal(n)) ==
            Some(if n == 0 then 0 else if n < SIZE_MODULUS then SIZE_MODULUS - n else SIZE_MODULUS - 1)
  {
    DecimalRoundTrip(n);
    var s := "-" + Decimal(n);
    assert s[0] == '-' && s[1..] == Decimal(n);
  }
}
