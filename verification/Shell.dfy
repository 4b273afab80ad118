/** The shell command that starts the server in WSL, and what a shell makes of it
    (spawn_wsl_server and shell_quote in crates/netfilum-client/src/mount.rs,
    windows_path_to_wsl in crates/netfilum-client/src/path.rs). */
module Shell {
  import opened Wrappers
  import opened Paths

  // ---- The client's strings ----

  function Escaped(value: string): string {
    if value == "" then ""
    else (if value[0] == '\'' then "'\"'\"'" else [value[0]]) + Escaped(value[1..])
  }

  function ShellQuote(value: string): string {
    "'" + Escaped(value) + "'"
  }

  const DEFAULT_WSL_ROOT := "/home/$USER/netfilum-root"

  function RootArgument(root: string): string {
    if root == DEFAULT_WSL_ROOT then "\"$HOME/netfilum-root\"" else ShellQuote(root)
  }

  function OptionText(name: string, argument: string): string {
    " " + name + " " + argument
  }

  function BuildCommand(daemon: string, root: string, addr: string, volumeLabel: string, password: string): string {
    "set -e; exec " + ShellQuote(daemon)
    + OptionText("--root", RootArgument(root))
    + OptionText("--addr", ShellQuote(addr))
    + OptionText("--volume-label", ShellQuote(volumeLabel))
    + OptionText("--password", ShellQuote(password))
  }

  function AsciiLower(c: char): char {
    if 'A' <= c <= 'Z' then c + 32 as char else c
  }

  function WindowsPathToWsl(raw: string): Result<string, string> {
    if |raw| < 3 || raw[0] >= 128 as char || raw[1] != ':' then Err("unsupported Windows path: " + raw)
    else Ok("/mnt/" + [AsciiLower(raw[0])] + "/" + TrimStart(Slashed(raw[2..])))
  }

  // ---- Sections 2.2 and 2.3 of the POSIX Shell Command Language ----

  // A word is what quote removal leaves of it, with double-quoted parameters still to expand.
  datatype Part = Ch(c: char) | Param(name: string)

  datatype Token = Word(parts: seq<Part>) | Separator

  // Where the tokeniser is: outside quotes, after a backslash, in single quotes (2.2.2), in
  // double quotes (2.2.3), after a backslash there, in a parameter name there.
  datatype Mode = Plain | PlainEscape | Single | Double | DoubleEscape | Dollar(name: string)

  // Bad is anything this fragment does not cover, so that success means none of it occurred.
  datatype Lexer =
    | At(mode: Mode, word: Option<seq<Part>>, tokens: seq<Token>)
    | Bad

  predicate IsBlank(c: char) {
    c == ' ' || c == '\t'
  }

  // Characters with a meaning of their own outside quotes that this fragment does not cover.
  predicate IsUncovered(c: char) {
    || c == '|' || c == '&' || c == '<' || c == '>' || c == '(' || c == ')' || c == '$' || c == '`' || c == '*'
    || c == '?' || c == '[' || c == '#' || c == '~' || c == '=' || c == '%' || c == '{' || c == '}' || c == '!' || c == '\0'
  }

  predicate IsOrdinary(c: char) {
    !IsBlank(c) && !IsUncovered(c) && c != '\n' && c != ';' && c != '\'' && c != '"' && c != '\\'
  }

  predicate IsNameChar(c: char, first: bool) {
    c == '_' || 'a' <= c <= 'z' || 'A' <= c <= 'Z' || (!first && '0' <= c <= '9')
  }

  function Added(l: Lexer, part: Part, mode: Mode): Lexer
    requires l.At?
  {
    l.(mode := mode, word := Some((if l.word.Some? then l.word.value else []) + [part]))
  }

  function Opened(l: Lexer, mode: Mode): Lexer
    requires l.At?
  {
    l.(mode := mode, word := if l.word.Some? then l.word else Some([]))
  }

  function Delimited(l: Lexer): Lexer
    requires l.At?
  {
    if l.word.Some? then l.(word := None, tokens := l.tokens + [Word(l.word.value)]) else l
  }

  function InDouble(l: Lexer, c: char): Lexer
    requires l.At?
  {
    if c == '"' then l.(mode := Plain)
    else if c == '\\' then l.(mode := DoubleEscape)
    else if c == '$' then l.(mode := Dollar(""))
    else if c == '`' then Bad
    else Added(l, Ch(c), Double)
  }

  function Next(l: Lexer, c: char): Lexer {
    if l.Bad? || c == '\0' then Bad
    else match l.mode
      case Plain =>
        if IsBlank(c) then Delimited(l)
        else if c == '\n' || c == ';' then
          var d := Delimited(l);
          d.(tokens := d.tokens + [Separator])
        else if c == '\'' then Opened(l, Single)
        else if c == '"' then Opened(l, Double)
        else if c == '\\' then l.(mode := PlainEscape)
        else if IsUncovered(c) then Bad
        else Added(l, Ch(c), Plain)
      case PlainEscape => if c == '\n' then l.(mode := Plain) else Added(l, Ch(c), Plain)
      case Single => if c == '\'' then l.(mode := Plain) else Added(l, Ch(c), Single)
      case Double => InDouble(l, c)
      case DoubleEscape =>
        if c == '\n' then l.(mode := Double)
        else if c == '$' || c == '`' || c == '"' || c == '\\' then Added(l, Ch(c), Double)
        else Added(Added(l, Ch('\\'), Double), Ch(c), Double)
      case Dollar(name) =>
        if IsNameChar(c, name == "") then l.(mode := Dollar(name + [c]))
        else if name == "" then Bad
        else InDouble(Added(l, Param(name), Double), c)
  }

  function Scan(l: Lexer, s: string): Lexer
    decreases s
  {
    if s == "" then l else Scan(Next(l, s[0]), s[1..])
  }

  // The tokens of a whole command line; quotes must be closed.
  function Tokenize(s: string): Option<seq<Token>> {
    var l := Scan(At(Plain, None, []), s);
    if l.At? && l.mode.Plain? then Some(Delimited(l).tokens) else None
  }

  // Expanding a word's parameters, with no field splitting: it is one argument.
  function Expand(parts: seq<Part>, home: string): string {
    if parts == [] then ""
    else (match parts[0]
          case Ch(c) => [c]
          case Param(name) => if name == "HOME" then home else "") + Expand(parts[1..], home)
  }

  // ---- Laws ----

  function Chars(s: string): (parts: seq<Part>)
    ensures |parts| == |s| && forall i :: 0 <= i < |s| ==> parts[i] == Ch(s[i])
  {
    seq(|s|, i requires 0 <= i < |s| => Ch(s[i]))
  }

  lemma {:induction false} ExpandChars(s: string, home: string)
    ensures Expand(Chars(s), home) == s
  {
    if s != "" {
      ExpandChars(s[1..], home);
      assert Chars(s)[1..] == Chars(s[1..]);
      assert s == [s[0]] + s[1..];
    }
  }

  lemma {:induction false} ScanConcat(l: Lexer, a: string, b: string)
    ensures Scan(l, a + b) == Scan(Scan(l, a), b)
    decreases a
  {
    if a == "" {
      assert a + b == b;
    } else {
      assert (a + b)[1..] == a[1..] + b;
      ScanConcat(Next(l, a[0]), a[1..], b);
    }
  }

  lemma {:induction false} ScanBad(s: string)
    ensures Scan(Bad, s) == Bad
  {
    if s != "" {
      ScanBad(s[1..]);
    }
  }

  predicate AllOrdinary(s: string) {
    forall i :: 0 <= i < |s| ==> IsOrdinary(s[i])
  }

  // Ordinary characters outside quotes join the word being read.
  lemma {:induction false} ScanOrdinary(word: seq<Part>, tokens: seq<Token>, s: string)
    requires AllOrdinary(s)
    ensures Scan(At(Plain, Some(word), tokens), s) == At(Plain, Some(word + Chars(s)), tokens)
    decreases s
  {
    if s == "" {
      assert word + Chars(s) == word;
    } else {
      ScanOrdinary(word + [Ch(s[0])], tokens, s[1..]);
      assert word + Chars(s) == (word + [Ch(s[0])]) + Chars(s[1..]);
    }
  }

  function EscapedChar(c: char): string {
    if c == '\'' then "'\"'\"'" else [c]
  }

  lemma ScanEscapedChar(word: seq<Part>, tokens: seq<Token>, c: char)
    ensures Scan(At(Single, Some(word), tokens), EscapedChar(c)) ==
            if c == '\0' then Bad else At(Single, Some(word + [Ch(c)]), tokens)
  {
    if c == '\'' {
      ScanQuoteOut(word, tokens);
    } else {
      ScanOne(At(Single, Some(word), tokens), c);
    }
  }

  // Inside single quotes the escaped value is read back character for character: a quote in it
  // leaves the single quotes, is read in double quotes, and comes back.
  lemma {:induction false} ScanEscaped(word: seq<Part>, tokens: seq<Token>, value: string)
    ensures Scan(At(Single, Some(word), tokens), Escaped(value)) ==
            if '\0' in value then Bad else At(Single, Some(word + Chars(value)), tokens)
    decreases value
  {
    if value == "" {
      assert word + Chars(value) == word;
    } else {
      var l := At(Single, Some(word), tokens);
      assert Escaped(value) == EscapedChar(value[0]) + Escaped(value[1..]);
      hide Scan, EscapedChar, Next;
      ScanConcat(l, EscapedChar(value[0]), Escaped(value[1..]));
      ScanEscapedChar(word, tokens, value[0]);
      if value[0] == '\0' {
        ScanBad(Escaped(value[1..]));
      } else {
        ScanEscaped(word + [Ch(value[0])], tokens, value[1..]);
        assert word + Chars(value) == word + [Ch(value[0])] + Chars(value[1..]);
      }
    }
  }

  lemma ScanOne(l: Lexer, c: char)
    ensures Scan(l, [c]) == Next(l, c)
  {
    assert [c][1..] == "";
  }

  lemma ScanTwo(l: Lexer, a: char, b: char)
    ensures Scan(l, [a, b]) == Next(Next(l, a), b)
  {
    ScanOne(Next(l, a), b);
    assert [a, b][1..] == [b];
  }

  lemma ScanQuoteOut(word: seq<Part>, tokens: seq<Token>)
    ensures Scan(At(Single, Some(word), tokens), "'\"'\"'") == At(Single, Some(word + [Ch('\'')]), tokens)
  {
    var l := At(Single, Some(word), tokens);
    assert "'\"'\"'" == ['\'', '"'] + (['\'', '"'] + ['\'']);
    ScanConcat(l, ['\'', '"'], ['\'', '"'] + ['\'']);
    ScanTwo(l, '\'', '"');
    var l2 := At(Double, Some(word), tokens);
    ScanConcat(l2, ['\'', '"'], ['\'']);
    ScanTwo(l2, '\'', '"');
    ScanOne(At(Plain, Some(word + [Ch('\'')]), tokens), '\'');
  }

  // A quoted value is one word, the value itself; a NUL in it is the only thing that cannot be.
  lemma ScanQuoted(tokens: seq<Token>, value: string)
    ensures Scan(At(Plain, None, tokens), ShellQuote(value)) ==
            if '\0' in value then Bad else At(Plain, Some(Chars(value)), tokens)
  {
    var l := At(Plain, None, tokens);
    ScanConcat(l, "'" + Escaped(value), "'");
    ScanConcat(l, "'", Escaped(value));
    assert "'"[1..] == "";
    assert Scan(l, "'") == At(Single, Some([]), tokens);
    ScanEscaped([], tokens, value);
    assert [] + Chars(value) == Chars(value);
    if '\0' in value {
      ScanBad("'");
    }
  }

  lemma ScanSpace(word: seq<Part>, tokens: seq<Token>)
    ensures Scan(At(Plain, Some(word), tokens), " ") == At(Plain, None, tokens + [Word(word)])
  {
    assert " "[1..] == "";
  }

  // A literal option between spaces, after a finished word.
  lemma ScanOption(word: seq<Part>, tokens: seq<Token>, option: string)
    requires AllOrdinary(option) && option != ""
    ensures Scan(At(Plain, Some(word), tokens), " " + option + " ") ==
            At(Plain, None, tokens + [Word(word), Word(Chars(option))])
  {
    var l := At(Plain, Some(word), tokens);
    ScanConcat(l, " " + option, " ");
    ScanConcat(l, " ", option);
    ScanSpace(word, tokens);
    ScanFirstWord(tokens + [Word(word)], option);
    ScanSpace(Chars(option), tokens + [Word(word)]);
    assert tokens + [Word(word)] + [Word(Chars(option))] == tokens + [Word(word), Word(Chars(option))];
  }

  lemma ScanFirstWord(tokens: seq<Token>, s: string)
    requires AllOrdinary(s) && s != ""
    ensures Scan(At(Plain, None, tokens), s) == At(Plain, Some(Chars(s)), tokens)
  {
    ScanOrdinary([Ch(s[0])], tokens, s[1..]);
    assert [] + [Ch(s[0])] == [Ch(s[0])];
    assert Chars(s) == [Ch(s[0])] + Chars(s[1..]);
  }

  function RootParts(root: string): seq<Part> {
    if root == DEFAULT_WSL_ROOT then [Param("HOME")] + Chars("/netfilum-root") else Chars(root)
  }

  lemma ScanRoot(tokens: seq<Token>, root: string)
    ensures Scan(At(Plain, None, tokens), RootArgument(root)) ==
            if '\0' in root then Bad else At(Plain, Some(RootParts(root)), tokens)
  {
    DefaultHasNoNul();
    if root == DEFAULT_WSL_ROOT {
      ScanHome(tokens);
      hide Scan, Chars;
    } else {
      ScanQuoted(tokens, root);
    }
  }

  lemma DefaultHasNoNul()
    ensures '\0' !in DEFAULT_WSL_ROOT
  {
  }

  predicate AllDoubled(s: string) {
    forall i :: 0 <= i < |s| ==> s[i] != '"' && s[i] != '\\' && s[i] != '$' && s[i] != '`' && s[i] != '\0'
  }

  lemma {:induction false} ScanDoubled(word: seq<Part>, tokens: seq<Token>, s: string)
    requires AllDoubled(s)
    ensures Scan(At(Double, Some(word), tokens), s) == At(Double, Some(word + Chars(s)), tokens)
    decreases s
  {
    if s == "" {
      assert word + Chars(s) == word;
    } else {
      ScanDoubled(word + [Ch(s[0])], tokens, s[1..]);
      assert word + Chars(s) == (word + [Ch(s[0])]) + Chars(s[1..]);
    }
  }

  lemma ScanHome(tokens: seq<Token>)
    ensures Scan(At(Plain, None, tokens), "\"$HOME/netfilum-root\"") ==
            At(Plain, Some([Param("HOME")] + Chars("/netfilum-root")), tokens)
  {
    hide Scan, AllDoubled, Chars;
    HomeSuffix();
    HomeLiteral();
    ScanToHome(tokens);
    ScanInHome(tokens, "netfilum-root", [Param("HOME")] + Chars("/netfilum-root"));
    ScanConcat(At(Plain, None, tokens), "\"$HOME/", "netfilum-root" + "\"");
  }

  lemma HomeLiteral()
    ensures "\"$HOME/netfilum-root\"" == "\"$HOME/" + ("netfilum-root" + "\"")
  {
  }

  lemma HomeSuffix()
    ensures AllDoubled("netfilum-root")
    ensures [Param("HOME"), Ch('/')] + Chars("netfilum-root") == [Param("HOME")] + Chars("/netfilum-root")
  {
  }

  lemma ScanInHome(tokens: seq<Token>, suffix: string, parts: seq<Part>)
    requires AllDoubled(suffix) && parts == [Param("HOME"), Ch('/')] + Chars(suffix)
    ensures Scan(At(Double, Some([Param("HOME"), Ch('/')]), tokens), suffix + "\"") == At(Plain, Some(parts), tokens)
  {
    ScanDoubled([Param("HOME"), Ch('/')], tokens, suffix);
    ScanConcat(At(Double, Some([Param("HOME"), Ch('/')]), tokens), suffix, "\"");
    ScanOne(At(Double, Some(parts), tokens), '"');
  }

  lemma ScanToHome(tokens: seq<Token>)
    ensures Scan(At(Plain, None, tokens), "\"$HOME/") == At(Double, Some([Param("HOME"), Ch('/')]), tokens)
  {
    hide Scan;
    var l := At(Plain, None, tokens);
    var l2, l4, l6 := At(Dollar(""), Some([]), tokens), At(Dollar("HO"), Some([]), tokens), At(Dollar("HOME"), Some([]), tokens);
    assert "\"$HOME/" == ['"', '$'] + (['H', 'O'] + (['M', 'E'] + ['/']));
    ScanConcat(l, ['"', '$'], ['H', 'O'] + (['M', 'E'] + ['/']));
    ScanTwo(l, '"', '$');
    ScanConcat(l2, ['H', 'O'], ['M', 'E'] + ['/']);
    ScanTwo(l2, 'H', 'O');
    assert "" + ['H'] + ['O'] == "HO" && "HO" + ['M'] + ['E'] == "HOME";
    ScanConcat(l4, ['M', 'E'], ['/']);
    ScanTwo(l4, 'M', 'E');
    ScanOne(l6, '/');
    assert [] + [Param("HOME")] + [Ch('/')] == [Param("HOME"), Ch('/')];
  }

  const STARTED: seq<Token> := [Word(Chars("set")), Word(Chars("-e")), Separator, Word(Chars("exec"))]

  lemma LiteralsAreOrdinary()
    ensures AllOrdinary("set") && AllOrdinary("-e") && AllOrdinary("exec")
    ensures AllOrdinary("--root") && AllOrdinary("--addr") && AllOrdinary("--volume-label") && AllOrdinary("--password")
  {
  }

  // A word closed by a space, or by `;` and a space.
  lemma ScanWordSpace(tokens: seq<Token>, word: string, rest: string)
    requires AllOrdinary(word) && word != ""
    ensures Scan(At(Plain, None, tokens), word + (" " + rest)) == Scan(At(Plain, None, tokens + [Word(Chars(word))]), rest)
  {
    ScanConcat(At(Plain, None, tokens), word, " " + rest);
    ScanFirstWord(tokens, word);
    ScanConcat(At(Plain, Some(Chars(word)), tokens), " ", rest);
    ScanSpace(Chars(word), tokens);
  }

  lemma ScanWordSemicolon(tokens: seq<Token>, word: string, rest: string)
    requires AllOrdinary(word) && word != ""
    ensures Scan(At(Plain, None, tokens), word + ("; " + rest)) == Scan(At(Plain, None, tokens + [Word(Chars(word)), Separator]), rest)
  {
    ScanConcat(At(Plain, None, tokens), word, "; " + rest);
    ScanFirstWord(tokens, word);
    ScanConcat(At(Plain, Some(Chars(word)), tokens), "; ", rest);
    ScanTwo(At(Plain, Some(Chars(word)), tokens), ';', ' ');
    assert tokens + [Word(Chars(word))] + [Separator] == tokens + [Word(Chars(word)), Separator];
  }

  lemma ScanStart()
    ensures Scan(At(Plain, None, []), "set -e; exec ") == At(Plain, None, STARTED)
  {
    LiteralsAreOrdinary();
    hide AllOrdinary, Chars;
    var t1, t2 := [Word(Chars("set"))], [Word(Chars("set")), Word(Chars("-e")), Separator];
    assert [] + t1 == t1 && t1 + [Word(Chars("-e")), Separator] == t2 && t2 + [Word(Chars("exec"))] == STARTED;
    assert Scan(At(Plain, None, STARTED), "") == At(Plain, None, STARTED);
    hide Scan;
    assert "set -e; exec " == "set" + (" " + ("-e" + ("; " + ("exec" + (" " + "")))));
    ScanWordSpace([], "set", "-e" + ("; " + ("exec" + (" " + ""))));
    ScanWordSemicolon(t1, "-e", "exec" + (" " + ""));
    ScanWordSpace(t2, "exec", "");
  }

  // What the shell is meant to see.
  function Intended(daemon: string, root: string, addr: string, volumeLabel: string, password: string): seq<Token> {
    STARTED +
    [Word(Chars(daemon)),
     Word(Chars("--root")), Word(RootParts(root)), Word(Chars("--addr")), Word(Chars(addr)),
     Word(Chars("--volume-label")), Word(Chars(volumeLabel)), Word(Chars("--password")), Word(Chars(password))]
  }

  predicate NoNul(daemon: string, root: string, addr: string, volumeLabel: string, password: string) {
    '\0' !in daemon && '\0' !in root && '\0' !in addr && '\0' !in volumeLabel && '\0' !in password
  }

  // One option with its argument, read after a finished word.
  lemma ScanOptionValue(l: Lexer, name: string, argument: string, after: Lexer)
    requires l.At? ==> l.mode.Plain? && l.word.Some?
    requires AllOrdinary(name) && name != ""
    requires l.At? ==> after == Scan(At(Plain, None, l.tokens + [Word(l.word.value), Word(Chars(name))]), argument)
    requires l.Bad? ==> after == Bad
    ensures Scan(l, OptionText(name, argument)) == after
  {
    if l.Bad? {
      ScanBad(OptionText(name, argument));
    } else {
      ScanConcat(l, " " + name + " ", argument);
      ScanOption(l.word.value, l.tokens, name);
    }
  }

  // The tokeniser after a quoted value that followed `tokens`.
  function Read(tokens: seq<Token>, value: string, parts: seq<Part>): Lexer {
    if '\0' in value then Bad else At(Plain, Some(parts), tokens)
  }

  // ... and after one more option and value.
  function ReadMore(l: Lexer, name: string, value: string, parts: seq<Part>): (r: Lexer)
    requires l.At? ==> l.mode.Plain? && l.word.Some?
    ensures r.At? ==> r.mode.Plain? && r.word.Some?
  {
    if l.Bad? then Bad else Read(l.tokens + [Word(l.word.value), Word(Chars(name))], value, parts)
  }

  lemma ScanOptionQuoted(l: Lexer, name: string, value: string)
    requires l.At? ==> l.mode.Plain? && l.word.Some?
    requires AllOrdinary(name) && name != ""
    ensures Scan(l, OptionText(name, ShellQuote(value))) == ReadMore(l, name, value, Chars(value))
  {
    if l.At? {
      ScanQuoted(l.tokens + [Word(l.word.value), Word(Chars(name))], value);
    }
    ScanOptionValue(l, name, ShellQuote(value), ReadMore(l, name, value, Chars(value)));
  }

  lemma ScanOptionRoot(l: Lexer, name: string, root: string)
    requires l.At? ==> l.mode.Plain? && l.word.Some?
    requires AllOrdinary(name) && name != ""
    ensures Scan(l, OptionText(name, RootArgument(root))) == ReadMore(l, name, root, RootParts(root))
  {
    hide RootParts, RootArgument, AllOrdinary;
    if l.At? {
      ScanRoot(l.tokens + [Word(l.word.value), Word(Chars(name))], root);
    }
    ScanOptionValue(l, name, RootArgument(root), ReadMore(l, name, root, RootParts(root)));
  }

  lemma ScanCommand(daemon: string, root: string, addr: string, volumeLabel: string, password: string)
    ensures Scan(At(Plain, None, []), BuildCommand(daemon, root, addr, volumeLabel, password)) ==
            ReadMore(ReadMore(ReadMore(ReadMore(Read(STARTED, daemon, Chars(daemon)),
              "--root", root, RootParts(root)),
              "--addr", addr, Chars(addr)),
              "--volume-label", volumeLabel, Chars(volumeLabel)),
              "--password", password, Chars(password))
  {
    hide Scan, Chars, AllOrdinary, ShellQuote, RootArgument, RootParts, OptionText, ReadMore;
    ScanConcat(At(Plain, None, []), "set -e; exec ", ShellQuote(daemon));
    ScanStart();
    ScanQuoted(STARTED, daemon);
    LiteralsAreOrdinary();
    ScanOptions("set -e; exec " + ShellQuote(daemon), Read(STARTED, daemon, Chars(daemon)),
                "--root", root, "--addr", addr, "--volume-label", volumeLabel, "--password", password);
  }

  lemma ScanOptions(start: string, l1: Lexer, n1: string, root: string, n2: string, addr: string, n3: string, volumeLabel: string, n4: string, password: string)
    requires Scan(At(Plain, None, []), start) == l1
    requires l1.At? ==> l1.mode.Plain? && l1.word.Some?
    requires AllOrdinary(n1) && AllOrdinary(n2) && AllOrdinary(n3) && AllOrdinary(n4)
    requires n1 != "" && n2 != "" && n3 != "" && n4 != ""
    ensures Scan(At(Plain, None, []), start + OptionText(n1, RootArgument(root)) + OptionText(n2, ShellQuote(addr))
                                      + OptionText(n3, ShellQuote(volumeLabel)) + OptionText(n4, ShellQuote(password))) ==
            ReadMore(ReadMore(ReadMore(ReadMore(l1, n1, root, RootParts(root)), n2, addr, Chars(addr)),
              n3, volumeLabel, Chars(volumeLabel)), n4, password, Chars(password))
  {
    hide ShellQuote, RootArgument, RootParts, AllOrdinary, Scan, Chars, OptionText;
    var l0 := At(Plain, None, []);
    var s2 := start + OptionText(n1, RootArgument(root));
    var s3 := s2 + OptionText(n2, ShellQuote(addr));
    var s4 := s3 + OptionText(n3, ShellQuote(volumeLabel));
    ScanConcat(l0, start, OptionText(n1, RootArgument(root)));
    ScanOptionRoot(l1, n1, root);
    var l2 := ReadMore(l1, n1, root, RootParts(root));
    ScanConcat(l0, s2, OptionText(n2, ShellQuote(addr)));
    ScanOptionQuoted(l2, n2, addr);
    var l3 := ReadMore(l2, n2, addr, Chars(addr));
    ScanConcat(l0, s3, OptionText(n3, ShellQuote(volumeLabel)));
    ScanOptionQuoted(l3, n3, volumeLabel);
    var l4 := ReadMore(l3, n3, volumeLabel, Chars(volumeLabel));
    ScanConcat(l0, s4, OptionText(n4, ShellQuote(password)));
    ScanOptionQuoted(l4, n4, password);
  }

  // The command reads as intended for all values free of NUL, and for no others.
  lemma CommandReadsAsIntended(daemon: string, root: string, addr: string, volumeLabel: string, password: string)
    ensures Tokenize(BuildCommand(daemon, root, addr, volumeLabel, password)) ==
            if NoNul(daemon, root, addr, volumeLabel, password) then Some(Intended(daemon, root, addr, volumeLabel, password)) else None
  {
    ScanCommand(daemon, root, addr, volumeLabel, password);
    hide BuildCommand, RootParts, Scan;
    assert STARTED + [Word(Chars(daemon)), Word(Chars("--root"))] + [Word(RootParts(root)), Word(Chars("--addr"))]
           + [Word(Chars(addr)), Word(Chars("--volume-label"))] + [Word(Chars(volumeLabel)), Word(Chars("--password"))]
           + [Word(Chars(password))] == Intended(daemon, root, addr, volumeLabel, password);
  }

  // As arguments: every value comes back unchanged, and the default root is $HOME plus its suffix.
  lemma ArgumentsComeBack(root: string, value: string, home: string)
    ensures Expand(Chars(value), home) == value
    ensures Expand(RootParts(root), home) == if root == DEFAULT_WSL_ROOT then home + "/netfilum-root" else root
  {
    ExpandChars(value, home);
    ExpandChars(root, home);
    ExpandChars("/netfilum-root", home);
    var parts := [Param("HOME")] + Chars("/netfilum-root");
    assert parts[1..] == Chars("/netfilum-root");
  }

  function Argument(token: Token, home: string): string {
    match token
    case Word(parts) => Expand(parts, home)
    case Separator => ";"
  }

  function Arguments(tokens: seq<Token>, home: string): (r: seq<string>)
    ensures |r| == |tokens| && forall i :: 0 <= i < |r| ==> r[i] == Argument(tokens[i], home)
  {
    seq(|tokens|, i requires 0 <= i < |tokens| => Argument(tokens[i], home))
  }

  // What the shell runs, spelled out.
  lemma CommandRuns(daemon: string, root: string, addr: string, volumeLabel: string, password: string, home: string)
    requires NoNul(daemon, root, addr, volumeLabel, password)
    ensures Tokenize(BuildCommand(daemon, root, addr, volumeLabel, password)).Some?
    ensures var tokens := Tokenize(BuildCommand(daemon, root, addr, volumeLabel, password)).value;
            && (forall i :: 0 <= i < |tokens| ==> (tokens[i].Separator? <==> i == 2))
            && Arguments(tokens, home) ==
               ["set", "-e", ";", "exec", daemon,
                "--root", if root == "/home/$USER/netfilum-root" then home + "/netfilum-root" else root,
                "--addr", addr, "--volume-label", volumeLabel, "--password", password]
  {
    hide BuildCommand, Tokenize, Expand, Chars, RootParts;
    CommandReadsAsIntended(daemon, root, addr, volumeLabel, password);
    ArgumentsComeBack(root, "set", home);
    ArgumentsComeBack(root, "-e", home);
    ArgumentsComeBack(root, "exec", home);
    ArgumentsComeBack(root, daemon, home);
    ArgumentsComeBack(root, "--root", home);
    ArgumentsComeBack(root, "--addr", home);
    ArgumentsComeBack(root, addr, home);
    ArgumentsComeBack(root, "--volume-label", home);
    ArgumentsComeBack(root, volumeLabel, home);
    ArgumentsComeBack(root, "--password", home);
    ArgumentsComeBack(root, password, home);
  }

  lemma {:induction false} EscapedConcat(a: string, b: string)
    ensures Escaped(a + b) == Escaped(a) + Escaped(b)
  {
    if a == "" {
      assert a + b == b;
    } else {
      assert (a + b)[1..] == a[1..] + b;
      EscapedConcat(a[1..], b);
    }
  }

  lemma {:induction false} EscapedPlain(value: string)
    requires '\'' !in value
    ensures Escaped(value) == value
  {
    if value != "" {
      EscapedPlain(value[1..]);
    }
  }

  // Without a single quote a value is put between two; at one, it is closed, the quote put between
  // double quotes, and the rest quoted again.
  lemma QuotingOut(value: string, a: string, b: string)
    ensures '\'' !in value ==> ShellQuote(value) == "'" + value + "'"
    ensures ShellQuote(a + "'" + b) == ShellQuote(a) + "\"'\"" + ShellQuote(b)
  {
    hide Escaped;
    if '\'' !in value {
      EscapedPlain(value);
    }
    EscapedConcat(a + "'", b);
    EscapedConcat(a, "'");
    EscapedQuote();
    Regrouped("'", Escaped(a), "\"'\"", Escaped(b));
  }

  lemma EscapedQuote()
    ensures Escaped("'") == "'" + "\"'\"" + "'"
  {
    assert "'"[1..] == "";
  }

  lemma Regrouped(q: string, a: string, m: string, b: string)
    ensures q + (a + (q + m + q) + b) + q == (q + a + q) + m + (q + b + q)
  {
  }

  // The path the repository's own test converts.
  lemma ConvertsWindowsPathToWsl()
    ensures WindowsPathToWsl("D:\\GitHub\\netfilum") == Ok("/mnt/d/GitHub/netfilum")
  {
    hide Slashed, TrimStart, AsciiLower;
    SampleTail();
    assert AsciiLower('D') == 'd' by { DriveLetters("D:\\"); }
    assert "D:\\GitHub\\netfilum"[2..] == "\\GitHub\\netfilum";
    assert "/mnt/" + ['d'] + "/" + "GitHub/netfilum" == "/mnt/d/GitHub/netfilum";
  }

  lemma SampleTail()
    ensures TrimStart(Slashed("\\GitHub\\netfilum")) == "GitHub/netfilum"
  {
    assert Slashed("\\GitHub\\netfilum") == "/GitHub/netfilum";
    assert "/GitHub/netfilum"[1..] == "GitHub/netfilum";
  }

  // Which paths are refused, and which letters change: only the capitals, by 32.
  lemma DriveLetters(raw: string)
    ensures WindowsPathToWsl(raw).Err? <==> |raw| < 3 || raw[0] as int >= 128 || raw[1] != ':'
    ensures WindowsPathToWsl(raw).Ok? ==>
              var s := WindowsPathToWsl(raw).value;
              && |s| >= 7 && s[..5] == "/mnt/" && s[6] == '/'
              && s[5] as int == raw[0] as int + if 65 <= raw[0] as int <= 90 then 32 else 0
  {
  }

  // The path handed to WSL is /mnt, the drive character in lower case, and then exactly the Windows
  // components; a drive letter is one component.
  lemma WslPathComponents(raw: string)
    requires WindowsPathToWsl(raw).Ok?
    ensures var drive := [AsciiLower(raw[0])];
            && Kept(Split(WindowsPathToWsl(raw).value)) == ["mnt"] + Kept(Split(drive)) + Kept(Pieces(raw[2..]))
            && (raw[0] != '/' && raw[0] != '.' ==> Kept(Split(drive)) == [drive])
    ensures WindowsPathToWsl(raw).value[0] == '/'
    ensures '\\' in WindowsPathToWsl(raw).value <==> raw[0] == '\\'
  {
    var drive, rest := [AsciiLower(raw[0])], TrimStart(Slashed(raw[2..]));
    var s := WindowsPathToWsl(raw).value;
    assert s == (("" + "/" + "mnt") + "/" + drive) + "/" + rest;
    hide WindowsPathToWsl;
    MountPrefix(drive);
    SplitConcat(("" + "/" + "mnt") + "/" + drive, rest);
    KeptConcat(Split(("" + "/" + "mnt") + "/" + drive), Split(rest));
    if raw[0] != '/' && raw[0] != '.' {
      SplitPlain(drive);
      KeptMeaning([drive]);
    }
    TrimKeepsParts(Slashed(raw[2..]));
    PiecesAreSlashedSplit(raw[2..]);
    TrimHasNoMore(Slashed(raw[2..]), '\\');
  }

  lemma MountPrefix(drive: string)
    ensures Kept(Split(("" + "/" + "mnt") + "/" + drive)) == ["mnt"] + Kept(Split(drive))
  {
    SplitConcat("" + "/" + "mnt", drive);
    SplitConcat("", "mnt");
    SplitPlain("mnt");
    KeptConcat(["", "mnt"], Split(drive));
    KeptMeaning(["mnt"]);
    assert ["", "mnt"][1..] == ["mnt"];
  }

  lemma {:induction false} TrimHasNoMore(s: string, c: char)
    requires c !in s
    ensures c !in TrimStart(s)
  {
    if s != "" && s[0] == '/' {
      TrimHasNoMore(s[1..], c);
    }
  }
}
