/**
 Shell quoting, against a reader of POSIX shell words.

 The reader follows sections 2.2.1 to 2.2.3 of the POSIX.1-2017 Shell Command
 Language for quoting, splits words at blanks and commands at `&&`, and refuses
 everything else that is special to the shell: operators, expansions, empty
 commands, and reserved words (section 2.4) where a command is expected.
 */
module ShellQuote {
  import opened Common
  import opened Text

  function Quote(s: string): string {
    "'" + ReplaceAll(s, "'", "'\"'\"'") + "'"
  }

  // ---- The reader ----

  datatype Mode = Gap | Word | Escaped | Single | Double | DoubleEscaped | Ampersand

  /** A word, and whether no part of it was quoted. */
  datatype Token = Token(text: string, bare: bool)

  datatype Reader =
    | Refused
    | Reading(mode: Mode, word: string, bare: bool, words: seq<Token>, commands: seq<seq<Token>>)

  const RESERVED := {"!", "{", "}", "case", "do", "done", "elif", "else", "esac", "fi", "for", "if", "in", "then", "until", "while"}

  /** A list of words that the shell runs as a simple command. */
  predicate Runs(command: seq<Token>) {
    command != [] && !(command[0].bare && command[0].text in RESERVED)
  }

  function Texts(command: seq<Token>): seq<string> {
    seq(|command|, i requires 0 <= i < |command| => command[i].text)
  }

  function AllTexts(commands: seq<seq<Token>>): seq<seq<string>> {
    seq(|commands|, i requires 0 <= i < |commands| => Texts(commands[i]))
  }

  predicate Blank(c: char) { c == ' ' || c == '\t' }

  /** Unquoted characters that are special to the shell, other than quotes, backslash, blanks and `&`. */
  predicate Special(c: char) {
    c in "|;<>()$`*?[]#~=%!{}\n"
  }

  function Put(r: Reader, mode: Mode, text: string): Reader
    requires r.Reading?
  {
    r.(mode := mode, word := r.word + text)
  }

  function EndWord(r: Reader, mode: Mode): Reader
    requires r.Reading?
  {
    r.(mode := mode, word := "", bare := true, words := r.words + [Token(r.word, r.bare)])
  }

  function Unquoted(r: Reader, c: char): Reader
    requires r.Reading?
  {
    if c == '\'' then Put(r.(bare := false), Single, "")
    else if c == '"' then Put(r.(bare := false), Double, "")
    else if c == '\\' then Put(r.(bare := false), Escaped, "")
    else if Special(c) then Refused
    else Put(r, Word, [c])
  }

  function Read(r: Reader, c: char): Reader {
    if r.Refused? || c == '\0' then Refused
    else match r.mode
      case Gap => if Blank(c) then r else if c == '&' then r.(mode := Ampersand) else Unquoted(r, c)
      case Word => if Blank(c) then EndWord(r, Gap) else if c == '&' then EndWord(r, Ampersand) else Unquoted(r, c)
      case Escaped => if c == '\n' then Refused else Put(r, Word, [c])
      case Single => if c == '\'' then Put(r, Word, "") else Put(r, Single, [c])
      case Double =>
        if c == '"' then Put(r, Word, "")
        else if c == '\\' then Put(r, DoubleEscaped, "")
        else if c == '$' || c == '`' then Refused
        else Put(r, Double, [c])
      case DoubleEscaped =>
        if c in "$`\"\\" then Put(r, Double, [c]) else if c == '\n' then Put(r, Double, "") else Put(r, Double, ['\\', c])
      case Ampersand =>
        if c == '&' then Reading(Gap, "", true, [], r.commands + [r.words]) else Refused
  }

  function ReadAll(r: Reader, s: string): Reader
    decreases s
  {
    if s == "" then r else ReadAll(Read(r, s[0]), s[1..])
  }

  const START := Reading(Gap, "", true, [], [])

  /** The and-list of commands, as far as it has been read; None inside quotes. */
  function Commands(r: Reader): Option<seq<seq<Token>>> {
    if r.Refused? then None
    else match r.mode
      case Gap => Some(r.commands + [r.words])
      case Word => Some(r.commands + [r.words + [Token(r.word, r.bare)]])
      case _ => None
  }

  /** The and-list of commands, each a list of words; None if the text ends
      inside quotes, goes beyond what the reader understands, or has a command
      that does not run. */
  function Parse(s: string): Option<seq<seq<string>>> {
    var cs := Commands(ReadAll(START, s));
    if cs.Some? && forall c :: c in cs.value ==> Runs(c) then Some(AllTexts(cs.value)) else None
  }

  // ---- Quoting is undone by reading ----

  lemma {:induction false} ReadAllConcat(r: Reader, s: string, t: string)
    ensures ReadAll(r, s + t) == ReadAll(ReadAll(r, s), t)
    decreases s
  {
    if s == "" {
      assert s + t == t;
    } else {
      assert (s + t)[1..] == s[1..] + t;
      ReadAllConcat(Read(r, s[0]), s[1..], t);
    }
  }

  /** Inside single quotes, the replacement text adds one single quote to the word. */
  lemma ReadReplacement(r: Reader)
    requires r.Reading? && r.mode == Single && !r.bare
    ensures ReadAll(r, "'\"'\"'") == Put(r, Single, "'")
  {
    var q := "'\"'\"'";
    var w := r.(mode := Word);
    assert Read(r, q[0]) == w;
    assert Read(w, q[1]) == r.(mode := Double);
    assert Read(r.(mode := Double), q[2]) == Put(r, Double, "'");
    assert Read(Put(r, Double, "'"), q[3]) == Put(r, Word, "'");
    assert Read(Put(r, Word, "'"), q[4]) == Put(r, Single, "'");
    assert q[1..] == "\"'\"'" && q[1..][1..] == "'\"'" && q[1..][1..][1..] == "\"'" && q[1..][1..][1..][1..] == "'"
           && q[1..][1..][1..][1..][1..] == "";
    ReadFiveChars(r, q);
  }

  lemma ReadFiveChars(r: Reader, q: string)
    requires |q| == 5
    ensures ReadAll(r, q) == Read(Read(Read(Read(Read(r, q[0]), q[1]), q[2]), q[3]), q[4])
  {
    var r1 := Read(r, q[0]);
    assert ReadAll(r, q) == ReadAll(r1, q[1..]);
    assert ReadAll(r1, q[1..]) == ReadAll(Read(r1, q[1]), q[2..]) by { assert q[1..][1..] == q[2..]; }
    var r2 := Read(r1, q[1]);
    assert ReadAll(r2, q[2..]) == ReadAll(Read(r2, q[2]), q[3..]) by { assert q[2..][1..] == q[3..]; }
    var r3 := Read(r2, q[2]);
    assert ReadAll(r3, q[3..]) == ReadAll(Read(r3, q[3]), q[4..]) by { assert q[3..][1..] == q[4..]; }
    var r4 := Read(r3, q[3]);
    assert ReadAll(r4, q[4..]) == Read(r4, q[4]) by { assert q[4..][1..] == ""; }
  }

  lemma {:induction false} ReadBody(r: Reader, s: string)
    requires r.Reading? && r.mode == Single && !r.bare
    ensures ReadAll(r, Subst(s, '\'', "'\"'\"'")) == if '\0' in s then Refused else Put(r, Single, s)
    decreases s
  {
    if s == "" {
      assert r.word + "" == r.word;
    } else {
      var c, rest := s[0], s[1..];
      var head := if c == '\'' then "'\"'\"'" else [c];
      var tail := Subst(rest, '\'', "'\"'\"'");
      assert Subst(s, '\'', "'\"'\"'") == head + tail;
      ReadAllConcat(r, head, tail);
      if c == '\'' {
        ReadReplacement(r);
      } else {
        assert ReadAll(r, [c]) == Read(r, c) by { assert [c][1..] == ""; }
      }
      if c == '\0' {
        RefusedStays(tail);
      } else {
        ReadBody(Put(r, Single, [c]), rest);
        assert r.word + [c] + rest == r.word + s;
      }
    }
  }

  lemma {:induction false} RefusedStays(s: string)
    ensures ReadAll(Refused, s) == Refused
  {
    if s != "" { RefusedStays(s[1..]); }
  }

  /** A quoted string, read where a word may start or go on, adds exactly itself to
      the word and ends outside quotes. */
  lemma ReadQuoted(r: Reader, s: string)
    requires r.Reading? && (r.mode == Gap || r.mode == Word)
    ensures ReadAll(r, Quote(s)) == if '\0' in s then Refused else Put(r.(bare := false), Word, s)
  {
    hide ReplaceAll, Subst;
    ReplaceAllIsSubst(s, '\'', "'\"'\"'");
    var body := Subst(s, '\'', "'\"'\"'");
    assert Quote(s) == "'" + body + "'";
    ReadAllConcat(r, "'" + body, "'");
    ReadAllConcat(r, "'", body);
    var inside := Put(r.(bare := false), Single, "");
    assert ReadAll(r, "'") == inside by { assert "'"[1..] == ""; }
    ReadBody(inside, s);
    if '\0' in s {
      RefusedStays("'");
    } else {
      var full := Put(inside, Single, s);
      assert ReadAll(full, "'") == Put(full, Word, "") by { assert "'"[1..] == ""; }
    }
  }

  /** Quoting round trip: a shell reads the quoted text as one word, the string
      itself, exactly if the string contains no NUL. */
  lemma QuoteRoundTrip(s: string)
    ensures Parse(Quote(s)) == (if '\0' in s then None else Some([[s]]))
  {
    hide Quote, ReadAll;
    ReadQuoted(START, s);
    assert "" + s == s;
    var command := [Token(s, false)];
    if '\0' !in s {
      assert START.words + command == command && START.commands + [command] == [command];
      assert Texts(command) == [s] && AllTexts([command]) == [[s]];
    }
  }

  // ---- Command lines ----

  /** A command line as the program composes it: fixed words, quoted arguments and `&&`, one space apart. */
  datatype Item = Literal(text: string) | Argument(value: string) | AndThen

  function RenderItem(i: Item): string {
    match i
    case Literal(t) => t
    case Argument(v) => Quote(v)
    case AndThen => "&&"
  }

  function Render(items: seq<Item>): string {
    if items == [] then ""
    else if |items| == 1 then RenderItem(items[0])
    else Render(items[..|items| - 1]) + " " + RenderItem(items[|items| - 1])
  }

  /** The commands it stands for. */
  function Meaning(items: seq<Item>): (m: seq<seq<Token>>)
    ensures m != []
  {
    if items == [] then [[]]
    else
      var m := Meaning(items[..|items| - 1]);
      match items[|items| - 1]
      case AndThen => m + [[]]
      case Literal(t) => m[..|m| - 1] + [m[|m| - 1] + [Token(t, true)]]
      case Argument(v) => m[..|m| - 1] + [m[|m| - 1] + [Token(v, false)]]
  }

  /** Text without any character the shell treats specially. */
  ghost predicate Plain(s: string) {
    s != "" && forall c :: c in s ==> !Special(c) && !Blank(c) && c !in "'\"\\&\0"
  }

  ghost predicate Composable(i: Item) {
    match i
    case Literal(t) => Plain(t)
    case Argument(v) => '\0' !in v
    case AndThen => true
  }

  lemma {:induction false} ReadPlain(r: Reader, s: string)
    requires r.Reading? && (r.mode == Gap || r.mode == Word) && Plain(s)
    ensures ReadAll(r, s) == Put(r, Word, s)
    decreases s
  {
    assert Read(r, s[0]) == Put(r, Word, [s[0]]) by { assert s[0] in s; }
    if s[1..] == "" {
      assert s == [s[0]];
    } else {
      ReadPlain(Put(r, Word, [s[0]]), s[1..]);
      assert r.word + [s[0]] + s[1..] == r.word + s;
    }
  }

  /** The reader at the start of the next item. */
  function Ready(m: seq<seq<Token>>): Reader
    requires m != []
  {
    Reading(Gap, "", true, m[|m| - 1], m[..|m| - 1])
  }

  /** The reader right after an item, given the commands before it. */
  function After(m: seq<seq<Token>>, i: Item): Reader
    requires m != []
  {
    match i
    case AndThen => Reading(Gap, "", true, [], m)
    case Literal(t) => Ready(m).(mode := Word, word := t)
    case Argument(v) => Ready(m).(mode := Word, word := v, bare := false)
  }

  lemma ReadItem(m: seq<seq<Token>>, i: Item)
    requires m != [] && Composable(i)
    ensures ReadAll(Ready(m), RenderItem(i)) == After(m, i)
  {
    match i
    case Literal(t) =>
      ReadPlain(Ready(m), t);
      assert "" + t == t;
    case Argument(v) =>
      ReadQuoted(Ready(m), v);
      assert "" + v == v;
    case AndThen =>
      var r := Ready(m);
      var r1 := r.(mode := Ampersand);
      assert Read(r, '&') == r1;
      assert m == m[..|m| - 1] + [m[|m| - 1]];
      assert Read(r1, '&') == Reading(Gap, "", true, [], m);
      assert ReadAll(r, "&&") == ReadAll(r1, "&") by { assert "&&"[1..] == "&"; }
      assert ReadAll(r1, "&") == Read(r1, '&') by { assert "&"[1..] == ""; }
  }

  lemma ReadSeparator(items: seq<Item>)
    requires items != []
    ensures ReadAll(After(Meaning(items[..|items| - 1]), items[|items| - 1]), " ") == Ready(Meaning(items))
  {
    var m, i := Meaning(items[..|items| - 1]), items[|items| - 1];
    var r := After(m, i);
    assert ReadAll(r, " ") == Read(r, ' ') by { assert " "[1..] == ""; }
    var full := Meaning(items);
    match i
    case AndThen => assert full[..|full| - 1] == m;
    case Literal(t) => assert full[..|full| - 1] == m[..|m| - 1];
    case Argument(v) => assert full[..|full| - 1] == m[..|m| - 1];
  }

  lemma {:induction false} ReadRendered(items: seq<Item>)
    requires items != [] && forall i :: i in items ==> Composable(i)
    ensures ReadAll(Ready([[]]), Render(items)) == After(Meaning(items[..|items| - 1]), items[|items| - 1])
  {
    hide ReadAll, Read, RenderItem, After, Quote;
    var init, last := items[..|items| - 1], items[|items| - 1];
    ReadItem(Meaning(init), last);
    if |items| > 1 {
      ReadRendered(init);
      ReadSeparator(init);
      ReadAllConcat(Ready([[]]), Render(init) + " ", RenderItem(last));
      ReadAllConcat(Ready([[]]), Render(init), " ");
    } else {
      assert init == [] && items == [last];
    }
  }

  lemma CommandsRendered(items: seq<Item>)
    requires items != [] && forall i :: i in items ==> Composable(i)
    ensures Commands(ReadAll(START, Render(items))) == Some(Meaning(items))
  {
    hide ReadAll, Read, Render, Quote;
    ReadRendered(items);
    assert Ready([[]]) == START;
    var m := Meaning(items[..|items| - 1]);
    if items[|items| - 1].AndThen? {
      assert m + [[]] == Meaning(items);
    }
  }

  /** Whatever the arguments contain, short of NUL, the shell runs exactly the
      composed commands on exactly the given arguments, provided that none is empty
      or starts with a reserved word; else it refuses the line. */
  lemma RenderRoundTrip(items: seq<Item>)
    requires items != [] && forall i :: i in items ==> Composable(i)
    ensures Parse(Render(items)) ==
            if forall c :: c in Meaning(items) ==> Runs(c) then Some(AllTexts(Meaning(items))) else None
  {
    hide ReadAll, Read, Render, Quote, Meaning, Runs;
    CommandsRendered(items);
  }

  /** Quoted arguments one space apart are read back as exactly those arguments. */
  lemma QuotedArgumentsRoundTrip(args: seq<string>)
    requires args != [] && forall s :: s in args ==> '\0' !in s
    ensures Parse(Render(Arguments(args))) == Some([args])
  {
    hide Parse, Render, Meaning;
    RenderRoundTrip(Arguments(args));
    MeaningOfArguments(args);
    var q := Quoted(args);
    assert Runs(q);
    assert AllTexts([q]) == [args] by { assert Texts(q) == args; }
  }

  function Quoted(args: seq<string>): seq<Token> {
    seq(|args|, i requires 0 <= i < |args| => Token(args[i], false))
  }

  function Arguments(args: seq<string>): seq<Item> {
    seq(|args|, i requires 0 <= i < |args| => Argument(args[i]))
  }

  lemma {:induction false} MeaningOfArguments(args: seq<string>)
    ensures Meaning(Arguments(args)) == [Quoted(args)]
  {
    if args == [] {
      assert Quoted(args) == [];
    } else {
      var init, last := args[..|args| - 1], args[|args| - 1];
      MeaningOfArguments(init);
      assert Arguments(args)[..|args| - 1] == Arguments(init);
      assert Quoted(args) == Quoted(init) + [Token(last, false)];
      var m := [Quoted(init)];
      assert m[..|m| - 1] + [m[|m| - 1] + [Token(last, false)]] == [Quoted(args)];
    }
  }
}
