/** The launcher script's argument handling: quoting option tokens for `eval`, and converting paths in place. */
module Gradlew {
  import opened Options

  // ----- Quoting -----

  /** The `[:alnum:]` class of the locale. */
  type Alnum = char -> bool

  const BLANKS: set<char> := {' ', '\t'}

  /** Characters that mean something to the shell when unquoted (section 2.2 of the POSIX Shell Command Language). */
  const SPECIAL: set<char> :=
    {'|', '&', ';', '<', '>', '(', ')', '$', '`', '"', '\'', '\n', '*', '?', '[', '#', '~'}

  ghost predicate LawfulAlnum(alnum: Alnum) {
    forall c: char :: alnum(c) ==> c !in BLANKS && c !in SPECIAL && c != '\\'
  }

  const KEPT_PUNCTUATION: set<char> := {'-', '+', ',', '.', '/', ':', '=', '@', '_'}

  predicate Kept(alnum: Alnum, c: char) {
    alnum(c) || c in KEPT_PUNCTUATION
  }

  /** What the `echo` that `xargs` runs prints for its one argument. */
  type Echo = string -> string

  /** The argument and a newline. */
  predicate Prints(echo: Echo, token: string) {
    echo(token) == token + "\n"
  }

  /** An argument that `echo` takes as an option of its own is not printed: there is no line or an empty one. */
  ghost predicate LawfulEcho(echo: Echo) {
    forall token: string :: Prints(echo, token) || echo(token) in {"", "\n"}
  }

  /** The text `xargs -n1` prints, one `echo` for each token. */
  function Printed(echo: Echo, tokens: seq<string>): string {
    if tokens == [] then "" else echo(tokens[0]) + Printed(echo, tokens[1..])
  }

  /** `sed`: within each line, a backslash before every character not kept. */
  function Escape(alnum: Alnum, text: string): string {
    if text == [] then ""
    else
      (if text[0] == '\n' || Kept(alnum, text[0]) then [text[0]] else ['\\', text[0]]) + Escape(alnum, text[1..])
  }

  /** The escaping adds a backslash before every character that is not kept, and changes nothing else. */
  lemma {:induction false} EscapedLength(alnum: Alnum, text: string)
    ensures Escape(alnum, text) == text <==>
              forall i :: 0 <= i < |text| ==>
                alnum(text[i]) || text[i] in {'-', '+', ',', '.', '/', ':', '=', '@', '_', '\n'}
    ensures |text| <= |Escape(alnum, text)| <= 2 * |text|
    ensures |Escape(alnum, text)| == |text| <==> Escape(alnum, text) == text
  {
    if text != [] {
      EscapedLength(alnum, text[1..]);
      assert text == [text[0]] + text[1..];
    }
  }

  /** `tr '\n' ' '`. */
  function JoinLines(text: string): string {
    if text == [] then "" else [if text[0] == '\n' then ' ' else text[0]] + JoinLines(text[1..])
  }

  /** The command handed to `eval` when `xargs` has printed the text. */
  function Command(alnum: Alnum, text: string): string {
    "set -- " + JoinLines(Escape(alnum, text)) + ALL_ARGS
  }

  const ALL_ARGS: string := " \"$@\""

  // ----- The shell's reading of it -----

  datatype Word = Literal(text: string) | AllArgs

  /**
   Token recognition (sections 2.2.1 and 2.3): blanks end a word, a backslash quotes the next character and joins
   lines before a newline, `"$@"` as a word is the argument list. Any other special character is `None`: the text
   would not be a list of plain words.
   */
  function Words(text: string, word: Option<string>): Option<seq<Word>>
    decreases |text|
  {
    var done := if word.Some? then [Literal(word.value)] else [];
    var sofar := if word.Some? then word.value else "";
    if text == [] then
      Some(done)
    else if text[0] in BLANKS then
      Prepend(done, Words(text[1..], None))
    else if text[0] == '\\' then
      if |text| == 1 then None
      else if text[1] == '\n' then Words(text[2..], word)
      else Words(text[2..], Some(sofar + [text[1]]))
    else if word.None? && IsArgumentList(text) then
      Prepend([AllArgs], Words(text[4..], None))
    else if text[0] in SPECIAL then
      None
    else
      Words(text[1..], Some(sofar + [text[0]]))
  }

  /** The text starts with `"$@"` as a whole word. */
  predicate IsArgumentList(text: string) {
    && |text| >= 4 && text[0] == '"' && text[1] == '$' && text[2] == '@' && text[3] == '"'
    && (|text| == 4 || text[4] in BLANKS)
  }

  function Prepend(ws: seq<Word>, rest: Option<seq<Word>>): Option<seq<Word>> {
    if rest.None? then None else Some(ws + rest.value)
  }

  function Expand(words: seq<Word>, args: seq<string>): seq<string> {
    if words == [] then []
    else (match words[0] case Literal(text) => [text] case AllArgs => args) + Expand(words[1..], args)
  }

  /** The positional parameters after evaluating a `set --` command. */
  function EvalSet(command: string, args: seq<string>): Option<seq<string>> {
    var words := Words(command, None);
    if words.None? || |words.value| < 2 || words.value[..2] != [Literal("set"), Literal("--")] then None
    else Some(Expand(words.value[2..], args))
  }

  // ----- Round trip -----

  /** The non-empty lines of a text, the first continuing `line`. */
  function Pieces(text: string, line: string): seq<string> {
    if text == [] then
      if line == "" then [] else [line]
    else if text[0] == '\n' then
      (if line == "" then [] else [line]) + Pieces(text[1..], "")
    else
      Pieces(text[1..], line + [text[0]])
  }

  function Literals(texts: seq<string>): seq<Word> {
    if texts == [] then [] else [Literal(texts[0])] + Literals(texts[1..])
  }

  function WordSoFar(line: string): Option<string> {
    if line == "" then None else Some(line)
  }

  /** How the shell reads the rest of the command when it is inside, or not inside, a word `line`. */
  function Reading(alnum: Alnum, text: string, line: string): Option<seq<Word>> {
    Words(JoinLines(Escape(alnum, text)) + ALL_ARGS, WordSoFar(line))
  }

  /** One character of the text, escaped or not, extends the word; a newline ends it. */
  lemma ReadingStep(alnum: Alnum, text: string, line: string)
    requires LawfulAlnum(alnum) && text != ""
    ensures text[0] != '\n' ==> Reading(alnum, text, line) == Reading(alnum, text[1..], line + [text[0]])
    ensures text[0] == '\n' ==>
              Reading(alnum, text, line)
              == Prepend(if line == "" then [] else [Literal(line)], Reading(alnum, text[1..], ""))
  {
    var c, tail := text[0], Escape(alnum, text[1..]);
    var rest := JoinLines(tail) + ALL_ARGS;
    if c == '\n' {
      JoinOfKept(c, tail);
      assert JoinLines(Escape(alnum, text)) + ALL_ARGS == [' '] + rest;
      BlankReads(rest, WordSoFar(line));
    } else if Kept(alnum, c) {
      JoinOfKept(c, tail);
      assert JoinLines(Escape(alnum, text)) + ALL_ARGS == [c] + rest;
      OrdinaryReads(c, rest, WordSoFar(line));
    } else {
      JoinOfEscaped(c, tail);
      assert JoinLines(Escape(alnum, text)) + ALL_ARGS == ['\\', c] + rest;
      QuotedReads(c, rest, WordSoFar(line));
    }
  }

  lemma LiteralsPrepend(text: string, texts: seq<string>)
    ensures Literals([text] + texts) == [Literal(text)] + Literals(texts)
  {
    assert ([text] + texts)[1..] == texts;
  }

  lemma {:induction false} EscapedTextReadsAsPieces(alnum: Alnum, text: string, line: string)
    requires LawfulAlnum(alnum)
    ensures Reading(alnum, text, line) == Some(Literals(Pieces(text, line)) + [AllArgs])
    decreases |text|
  {
    if text == [] {
      assert JoinLines(Escape(alnum, text)) + ALL_ARGS == ALL_ARGS;
      ArgumentListReads(WordSoFar(line));
      LiteralsPrepend(line, []);
      assert [line] + [] == [line] && [Literal(line)] + [] == [Literal(line)];
      assert [] + [AllArgs] == [AllArgs];
    } else {
      ReadingStep(alnum, text, line);
      if text[0] == '\n' {
        EscapedTextReadsAsPieces(alnum, text[1..], "");
        var pieces := Pieces(text[1..], "");
        LiteralsPrepend(line, pieces);
        assert [Literal(line)] + (Literals(pieces) + [AllArgs]) == [Literal(line)] + Literals(pieces) + [AllArgs];
        assert [] + (Literals(pieces) + [AllArgs]) == Literals(pieces) + [AllArgs];
        assert [] + pieces == pieces;
      } else {
        EscapedTextReadsAsPieces(alnum, text[1..], line + [text[0]]);
      }
    }
  }

  lemma JoinOfKept(c: char, rest: string)
    ensures JoinLines([c] + rest) == [if c == '\n' then ' ' else c] + JoinLines(rest)
  {
    assert ([c] + rest)[1..] == rest;
  }

  lemma JoinOfEscaped(c: char, rest: string)
    requires c != '\n'
    ensures JoinLines(['\\', c] + rest) == ['\\', c] + JoinLines(rest)
  {
    assert (['\\', c] + rest)[1..] == [c] + rest;
    assert ([c] + rest)[1..] == rest;
  }

  lemma ArgumentListReads(word: Option<string>)
    ensures Words(ALL_ARGS, word) == Some((if word.Some? then [Literal(word.value)] else []) + [AllArgs])
  {
    var args := "\"$@\"";
    assert IsArgumentList(args) && args[4..] == "";
    assert Words("", None) == Some([]);
    assert [AllArgs] + [] == [AllArgs] && [] + [AllArgs] == [AllArgs];
    assert Words(args, None) == Some([AllArgs]);
    assert ALL_ARGS == [' '] + args;
    BlankReads(args, word);
  }

  predicate Ordinary(c: char) {
    c !in BLANKS && c !in SPECIAL && c != '\\'
  }

  lemma OrdinaryReads(c: char, rest: string, word: Option<string>)
    requires Ordinary(c)
    ensures Words([c] + rest, word) == Words(rest, Some((if word.Some? then word.value else "") + [c]))
  {
    assert ([c] + rest)[1..] == rest;
  }

  lemma QuotedReads(c: char, rest: string, word: Option<string>)
    requires c != '\n'
    ensures Words(['\\', c] + rest, word) == Words(rest, Some((if word.Some? then word.value else "") + [c]))
  {
    assert (['\\', c] + rest)[2..] == rest;
  }

  lemma BlankReads(rest: string, word: Option<string>)
    ensures Words([' '] + rest, word)
         == Prepend(if word.Some? then [Literal(word.value)] else [], Words(rest, None))
  {
    assert ([' '] + rest)[1..] == rest;
  }

  lemma {:induction false} ExpandLiterals(texts: seq<string>, args: seq<string>)
    ensures Expand(Literals(texts) + [AllArgs], args) == texts + args
  {
    var words := Literals(texts) + [AllArgs];
    if texts == [] {
      assert words == [AllArgs] && words[1..] == [];
    } else {
      assert words[1..] == Literals(texts[1..]) + [AllArgs];
      ExpandLiterals(texts[1..], args);
    }
  }

  /** A word of ordinary characters before a blank reads as itself. */
  lemma {:induction false} PlainWordReads(w: string, rest: string, sofar: string)
    requires w != "" || sofar != ""
    requires forall i :: 0 <= i < |w| ==> Ordinary(w[i])
    ensures Words(w + " " + rest, WordSoFar(sofar)) == Prepend([Literal(sofar + w)], Words(rest, None))
    decreases |w|
  {
    if w == "" {
      assert w + " " + rest == [' '] + rest && sofar + w == sofar;
      BlankReads(rest, WordSoFar(sofar));
    } else {
      assert w + " " + rest == [w[0]] + (w[1..] + " " + rest);
      OrdinaryReads(w[0], w[1..] + " " + rest, WordSoFar(sofar));
      PlainWordReads(w[1..], rest, sofar + [w[0]]);
      assert sofar + [w[0]] + w[1..] == sofar + w;
    }
  }

  /** The prefix of the command reads as the two words before the tokens. */
  lemma SetPrefixReads(rest: string)
    requires Words(rest, None).Some?
    ensures Words("set -- " + rest, None) == Some([Literal("set"), Literal("--")] + Words(rest, None).value)
  {
    assert "set -- " + rest == "set" + " " + ("--" + " " + rest);
    PlainWordReads("set", "--" + " " + rest, "");
    PlainWordReads("--", rest, "");
    assert "" + "set" == "set" && "" + "--" == "--";
    var words := Words(rest, None).value;
    assert Words("--" + " " + rest, None) == Some([Literal("--")] + words);
    assert [Literal("set")] + ([Literal("--")] + words) == [Literal("set"), Literal("--")] + words;
  }

  /** Whatever `xargs` prints, `eval` sets the parameters to its non-empty lines, then the old arguments. */
  lemma EvalYieldsPieces(alnum: Alnum, text: string, args: seq<string>)
    requires LawfulAlnum(alnum)
    ensures EvalSet(Command(alnum, text), args) == Some(Pieces(text, "") + args)
  {
    EscapedTextReadsAsPieces(alnum, text, "");
    var rest := JoinLines(Escape(alnum, text)) + ALL_ARGS;
    SetPrefixReads(rest);
    assert Command(alnum, text) == "set -- " + rest;
    var words := Words(Command(alnum, text), None).value;
    assert words[2..] == Literals(Pieces(text, "")) + [AllArgs];
    ExpandLiterals(Pieces(text, ""), args);
  }

  function NonEmpty(tokens: seq<string>): seq<string> {
    if tokens == [] then []
    else (if tokens[0] == "" then [] else [tokens[0]]) + NonEmpty(tokens[1..])
  }

  /** The tokens that `echo` prints. */
  function OnlyPrinted(echo: Echo, tokens: seq<string>): seq<string> {
    if tokens == [] then []
    else (if Prints(echo, tokens[0]) then [tokens[0]] else []) + OnlyPrinted(echo, tokens[1..])
  }

  lemma {:induction false} PiecesOfLine(line: string, token: string, rest: string)
    requires '\n' !in token
    ensures Pieces(token + "\n" + rest, line)
         == (if line + token == "" then [] else [line + token]) + Pieces(rest, "")
    decreases |token|
  {
    var text := token + "\n" + rest;
    if token == "" {
      assert text == "\n" + rest;
      assert text[1..] == rest;
      assert line + token == line;
    } else {
      assert text[1..] == token[1..] + "\n" + rest;
      PiecesOfLine(line + [token[0]], token[1..], rest);
      assert line + [token[0]] + token[1..] == line + token;
    }
  }

  lemma PiecesOfUnprinted(line: string, rest: string)
    requires line in {"", "\n"}
    ensures Pieces(line + rest, "") == Pieces(rest, "")
  {
    if line == "" {
      assert line + rest == rest;
    } else {
      assert (line + rest)[1..] == rest;
    }
  }

  lemma {:induction false} PiecesOfTokens(echo: Echo, tokens: seq<string>)
    requires LawfulEcho(echo)
    requires forall i :: 0 <= i < |tokens| ==> '\n' !in tokens[i]
    ensures Pieces(Printed(echo, tokens), "") == NonEmpty(OnlyPrinted(echo, tokens))
  {
    if tokens != [] {
      var token, rest := tokens[0], Printed(echo, tokens[1..]);
      PiecesOfTokens(echo, tokens[1..]);
      if Prints(echo, token) {
        PiecesOfLine("", token, rest);
        assert "" + token == token;
        assert ([token] + OnlyPrinted(echo, tokens[1..]))[1..] == OnlyPrinted(echo, tokens[1..]);
      } else {
        assert echo(token) in {"", "\n"};
        assert [] + OnlyPrinted(echo, tokens[1..]) == OnlyPrinted(echo, tokens[1..]);
        PiecesOfUnprinted(echo(token), rest);
      }
    }
  }

  /**
   The round trip: the non-empty tokens that `echo` prints come back unchanged and in order, before the untouched
   arguments.
   */
  lemma QuotingRoundTrip(alnum: Alnum, echo: Echo, tokens: seq<string>, args: seq<string>)
    requires LawfulAlnum(alnum) && LawfulEcho(echo)
    requires forall i :: 0 <= i < |tokens| ==> '\n' !in tokens[i]
    ensures EvalSet(Command(alnum, Printed(echo, tokens)), args)
         == Some(NonEmpty(OnlyPrinted(echo, tokens)) + args)
    ensures (forall i :: 0 <= i < |tokens| ==> Prints(echo, tokens[i])) ==> OnlyPrinted(echo, tokens) == tokens
  {
    EvalYieldsPieces(alnum, Printed(echo, tokens), args);
    PiecesOfTokens(echo, tokens);
    AllPrinted(echo, tokens);
  }

  lemma {:induction false} AllPrinted(echo: Echo, tokens: seq<string>)
    ensures |OnlyPrinted(echo, tokens)| <= |tokens|
    ensures (forall i :: 0 <= i < |tokens| ==> Prints(echo, tokens[i])) ==> OnlyPrinted(echo, tokens) == tokens
    ensures |OnlyPrinted(echo, tokens)| == |tokens| ==> forall i :: 0 <= i < |tokens| ==> Prints(echo, tokens[i])
  {
    if tokens != [] {
      AllPrinted(echo, tokens[1..]);
      assert tokens == [tokens[0]] + tokens[1..];
    }
  }

  predicate PlainLine(s: string) {
    s != "" && '\n' !in s
  }

  lemma {:induction false} PiecesArePlain(text: string, line: string)
    requires '\n' !in line
    ensures forall i :: 0 <= i < |Pieces(text, line)| ==> PlainLine(Pieces(text, line)[i])
    decreases |text|
  {
    if text != [] {
      PiecesArePlain(text[1..], if text[0] == '\n' then "" else line + [text[0]]);
    }
  }

  lemma {:induction false} NonEmptyIsAll(tokens: seq<string>)
    ensures |NonEmpty(tokens)| <= |tokens|
    ensures (forall i :: 0 <= i < |tokens| ==> tokens[i] != "") ==> NonEmpty(tokens) == tokens
  {
    if tokens != [] {
      NonEmptyIsAll(tokens[1..]);
      assert tokens == [tokens[0]] + tokens[1..];
    }
  }

  /** All tokens come back exactly if `echo` prints them all, none is empty and none contains a newline. */
  lemma ExactRoundTripIff(alnum: Alnum, echo: Echo, tokens: seq<string>, args: seq<string>)
    requires LawfulAlnum(alnum) && LawfulEcho(echo)
    ensures EvalSet(Command(alnum, Printed(echo, tokens)), args) == Some(tokens + args)
       <==> forall i :: 0 <= i < |tokens| ==> PlainLine(tokens[i]) && Prints(echo, tokens[i])
  {
    var pieces := Pieces(Printed(echo, tokens), "");
    EvalYieldsPieces(alnum, Printed(echo, tokens), args);
    if pieces + args == tokens + args {
      assert |pieces| == |tokens|;
      assert pieces == (pieces + args)[..|pieces|] == tokens;
      PiecesArePlain(Printed(echo, tokens), "");
    }
    if forall i :: 0 <= i < |tokens| ==> PlainLine(tokens[i]) {
      PlainTokensComeBackIff(echo, tokens);
    }
  }

  lemma PlainTokensComeBackIff(echo: Echo, tokens: seq<string>)
    requires LawfulEcho(echo)
    requires forall i :: 0 <= i < |tokens| ==> PlainLine(tokens[i])
    ensures Pieces(Printed(echo, tokens), "") == tokens <==> forall i :: 0 <= i < |tokens| ==> Prints(echo, tokens[i])
  {
    forall i | 0 <= i < |tokens|
      ensures '\n' !in tokens[i] && tokens[i] != ""
    {
      assert PlainLine(tokens[i]);
    }
    PiecesOfTokens(echo, tokens);
    AllPrinted(echo, tokens);
    NonEmptyIsAll(OnlyPrinted(echo, tokens));
  }

  // ----- Converting the arguments in place -----

  function UpToSlash(s: string): string {
    if s == "" || s[0] == '/' then "" else [s[0]] + UpToSlash(s[1..])
  }

  /** Not an option, a path of more than one character, and its first component exists. */
  predicate LooksLikePath(exists_: string -> bool, arg: string) {
    |arg| >= 2 && arg[0] == '/' && exists_("/" + UpToSlash(arg[1..]))
  }

  /** An absolute path, its first component, and what follows that. */
  predicate Splits(arg: string, head: string, tail: string) {
    arg == "/" + head + tail && |arg| >= 2 && '/' !in head && (tail == "" || tail[0] == '/')
  }

  lemma FirstComponent(arg: string, head: string, tail: string)
    requires Splits(arg, head, tail)
    ensures arg[0] == '/' && UpToSlash(arg[1..]) == head
  {
    assert arg[1..] == head + tail;
    UpToSlashSplits(head, tail);
  }

  lemma {:induction false} UpToSlashSplits(head: string, tail: string)
    requires '/' !in head && (tail == "" || tail[0] == '/')
    ensures UpToSlash(head + tail) == head
  {
    if head == "" {
      assert head + tail == tail;
    } else {
      assert (head + tail)[1..] == head[1..] + tail;
      UpToSlashSplits(head[1..], tail);
    }
  }

  /** Every argument that looks absolute splits so, hence the loop's contract speaks of all arguments. */
  lemma {:induction false} AbsoluteSplits(arg: string) returns (head: string, tail: string)
    requires |arg| >= 2 && arg[0] == '/'
    ensures Splits(arg, head, tail)
  {
    head, tail := SlashSplits(arg[1..]);
    assert arg == "/" + arg[1..] == "/" + head + tail;
  }

  lemma {:induction false} SlashSplits(s: string) returns (head: string, tail: string)
    ensures s == head + tail && '/' !in head && (tail == "" || tail[0] == '/')
  {
    if s == "" || s[0] == '/' {
      head, tail := "", s;
    } else {
      head, tail := SlashSplits(s[1..]);
      head := [s[0]] + head;
    }
  }

  function Converted(exists_: string -> bool, cygpath: string -> string, arg: string): string {
    if LooksLikePath(exists_, arg) then cygpath(arg) else arg
  }

  /** Shifting one element off the front and pushing one on the back. */
  lemma Rotated<T>(front: seq<T>, back: seq<T>, x: T)
    requires front != []
    ensures (front + back)[1..] + [x] == front[1..] + (back + [x])
  {
  }

  class Shell {
    var params: seq<string>

    constructor (args: seq<string>)
      ensures params == args
    {
      params := args;
    }

    /** The `for arg do` loop: shift one argument off the front, push it, possibly converted, on the back. */
    method ConvertArguments(exists_: string -> bool, cygpath: string -> string)
      modifies this
      ensures |params| == |old(params)|
      ensures forall i :: 0 <= i < |params| ==> params[i] == Converted(exists_, cygpath, old(params)[i])
      ensures forall i, head, tail :: 0 <= i < |params| && Splits(old(params)[i], head, tail) ==>
                params[i] == if exists_("/" + head) then cygpath(old(params)[i]) else old(params)[i]
      ensures forall i :: 0 <= i < |params| && (|old(params)[i]| < 2 || old(params)[i][0] != '/') ==>
                params[i] == old(params)[i]
    {
      var args := params;
      ghost var done := [];
      for i := 0 to |args|
        invariant params == args[i..] + done && |done| == i
        invariant forall j :: 0 <= j < i ==> done[j] == Converted(exists_, cygpath, args[j])
      {
        var arg := args[i];
        if LooksLikePath(exists_, arg) {
          arg := cygpath(arg);
        }
        Rotated(args[i..], done, arg);
        params := params[1..];
        params := params + [arg];
        done := done + [arg];
      }
      forall i, head, tail | 0 <= i < |params| && Splits(args[i], head, tail)
        ensures params[i] == if exists_("/" + head) then cygpath(args[i]) else args[i]
      {
        FirstComponent(args[i], head, tail);
      }
    }
  }
}
