// Printing a long text to a client, a few lines per server command: PrintToClient of Features/Cvars.cpp.

module LinePrinter {
  import opened QString
  import Tokenizer

  const CHUNK_SIZE := 1000
  /** SendServerCommand drops anything longer. */
  const MAX_COMMAND := 1022

  /** Single quotes for double ones, which delimit the text of the command. */
  function Unquoted(s: string): (r: string)
    ensures |r| == |s| && forall i | 0 <= i < |s| :: r[i] == if s[i] == '"' then '\'' else s[i]
  {
    seq(|s|, i requires 0 <= i < |s| => if s[i] == '"' then '\'' else s[i])
  }

  function Command(chunk: string): string { "print \"" + chunk + "\"" }

  /** The length of the first line, with its line break if it has one. */
  function LineLength(s: string): (n: nat)
    ensures n <= |s| && (s != "" ==> 0 < n)
    ensures n == |s| || s[n - 1] == '\n'
    ensures forall i | 0 <= i < n - 1 :: s[i] != '\n'
  {
    if s == "" then 0 else if s[0] == '\n' then 1 else 1 + LineLength(s[1..])
  }

  /**
   * How n characters at the start of a text make a chunk: whole lines, as many as there is room for, or the first
   * 999 characters of a line that is longer.
   */
  ghost predicate IsChunk(text: string, n: nat) {
    && 0 < n <= |text| && n < CHUNK_SIZE
    && (n == |text| || text[n - 1] == '\n' || (n == CHUNK_SIZE - 1 && '\n' !in text[..n]))
    && (n < |text| && text[n - 1] == '\n' ==> n + LineLength(text[n..]) >= CHUNK_SIZE)
  }

  /** A command prints the first n characters of a text. */
  ghost predicate PrintsChunk(text: string, n: nat, command: string) {
    0 < n <= |text| && IsChunk(text, n) && command == Command(Unquoted(text[..n]))
  }

  /** The commands print this text, chunk after chunk. */
  ghost predicate Prints(text: string, commands: seq<string>)
    decreases |text|
  {
    if text == "" then commands == []
    else
      && commands != []
      && exists n: nat :: PrintsChunk(text, n, commands[0]) && Prints(text[n..], commands[1..])
  }

  /** What a client shows of the commands. */
  function Shown(commands: seq<string>): string
    requires forall i | 0 <= i < |commands| :: 8 <= |commands[i]|
  {
    if commands == [] then "" else commands[0][7..|commands[0]| - 1] + Shown(commands[1..])
  }

  /** No command is dropped for its length. */
  lemma {:induction false} CommandsFit(text: string, commands: seq<string>)
    requires Prints(text, commands)
    ensures forall i | 0 <= i < |commands| :: 8 <= |commands[i]| <= MAX_COMMAND
    decreases |text|
  {
    hide Command, Unquoted;
    if text != "" {
      var n: nat :| PrintsChunk(text, n, commands[0]) && Prints(text[n..], commands[1..]);
      CommandsFit(text[n..], commands[1..]);
      assert forall i | 0 < i < |commands| :: commands[i] == commands[1..][i - 1];
      CommandShows(Unquoted(text[..n]));
    }
  }

  /** The tokenizer reads a command as two words, the second of which is the chunk: that is why its quotes are replaced. */
  lemma CommandIsTwoTokens(chunk: string)
    requires |chunk| < CHUNK_SIZE
    ensures Tokenizer.Tokens(Command(Unquoted(chunk)), false) == ["print", Unquoted(chunk)]
  {
    hide Command, Unquoted, Tokenizer.Tokens;
    var shown := Unquoted(chunk);
    var pieces := [Tokenizer.Plain("print"), Tokenizer.Blank(' '), Tokenizer.Quoted(shown)];
    NoQuotesLeft(chunk);
    IsACommandLine(shown);
    Tokenizer.TokensAreWords(pieces, "", false);
  }

  lemma NoQuotesLeft(chunk: string)
    ensures '"' !in Unquoted(chunk)
  {
  }

  lemma IsACommandLine(shown: string)
    requires '"' !in shown
    ensures var pieces := [Tokenizer.Plain("print"), Tokenizer.Blank(' '), Tokenizer.Quoted(shown)];
      && Tokenizer.IsLine(pieces, "", false) && Tokenizer.WordsOf(pieces) == ["print", shown]
      && Tokenizer.TextOf(pieces) + "" == Command(shown) && |Command(shown)| == 8 + |shown|
  {
    var three := [Tokenizer.Plain("print"), Tokenizer.Blank(' '), Tokenizer.Quoted(shown)];
    var two, one := [Tokenizer.Blank(' '), Tokenizer.Quoted(shown)], [Tokenizer.Quoted(shown)];
    assert three[1..] == two && two[1..] == one && one[1..] == [];
    assert Tokenizer.IsLine([], "", false);
    assert Tokenizer.TextOf(one) == "\"" + shown + "\"";
    assert Tokenizer.TextOf(two) == " " + ("\"" + shown + "\"");
    assert Tokenizer.TextOf(three) == "print" + (" " + ("\"" + shown + "\""));
    assert Tokenizer.IsLine(one, "", false);
    assert Tokenizer.IsLine(two, "", false);
    assert Tokenizer.WordsOf(one) == [shown];
    assert Tokenizer.WordsOf(two) == [shown];
  }

  /** Nothing is lost: the chunks, one after the other, are the text with its quotes replaced. */
  lemma {:induction false} PrintsEverything(text: string, commands: seq<string>)
    requires Prints(text, commands)
    requires forall i | 0 <= i < |commands| :: 8 <= |commands[i]|
    ensures Shown(commands) == Unquoted(text)
    decreases |text|
  {
    hide Command, Unquoted, IsChunk;
    if text != "" {
      var n: nat :| PrintsChunk(text, n, commands[0]) && Prints(text[n..], commands[1..]);
      PrintsEverything(text[n..], commands[1..]);
      CommandShows(Unquoted(text[..n]));
      UnquotedAppend(text, n);
    } else {
      assert Unquoted(text) == "";
    }
  }

  lemma CommandShows(chunk: string)
    ensures |Command(chunk)| == 8 + |chunk| && Command(chunk)[7..|Command(chunk)| - 1] == chunk
  {
  }

  lemma UnquotedAppend(text: string, n: nat)
    requires n <= |text|
    ensures Unquoted(text) == Unquoted(text[..n]) + Unquoted(text[n..])
  {
  }

  /** memcpy(chunk + at, text + from, count). */
  method CopyInto(chunk: array<char>, at: nat, text: string, from: nat, count: nat)
    requires at + count <= chunk.Length && from + count <= |text|
    modifies chunk
    ensures chunk[..at + count] == old(chunk[..at]) + text[from..from + count]
  {
    for i := 0 to count
      invariant chunk[..at + i] == old(chunk[..at]) + text[from..from + i]
    {
      ghost var before := chunk[..at + i];
      chunk[at + i] := text[from + i];
      assert chunk[..at + i + 1] == before + [text[from + i]];
    }
  }

  /** The loop over the quotes of a chunk. */
  method ReplaceQuotes(chunk: array<char>)
    requires Terminated(chunk[..])
    modifies chunk
    ensures Terminated(chunk[..]) && CStr(chunk[..]) == Unquoted(old(CStr(chunk[..])))
  {
    hide CStr, StrLen;
    ghost var s := CStr(chunk[..]);
    BufferOf(chunk[..]);
    var c := 0;
    while chunk[c] != NUL
      invariant 0 <= c <= |s| < chunk.Length
      invariant forall i | c <= i < |s| :: chunk[i] == s[i] && s[i] != NUL
      invariant chunk[|s|] == NUL
      invariant forall i | 0 <= i < c :: chunk[i] == Unquoted(s)[i]
      decreases |s| - c
    {
      if chunk[c] == '"' {
        chunk[c] := '\'';
      }
      c := c + 1;
    }
    CStrIs(chunk[..], Unquoted(s));
  }

  method PrintToClient(text: string) returns (commands: seq<string>)
    requires IsCString(text)
    ensures Prints(text, commands)
  {
    hide Prints, CStr, StrLen;
    commands := [];
    var start := 0;
    assert text[0..] == text && forall done: seq<string> :: [] + done == done;
    while start < |text|
      invariant start <= |text|
      invariant forall rest | Prints(text[start..], rest) :: Prints(text, commands + rest)
      decreases |text| - start
    {
      var chunk := new char[CHUNK_SIZE];
      var length := FillChunk(chunk, text, start);
      assert IsChunk(text[start..], length);
      chunk[length] := NUL;
      CStrIs(chunk[..], text[start..start + length]);
      ReplaceQuotes(chunk);
      var command := Command(CStr(chunk[..]));
      MorePrinted(text, start, length, commands, command);
      commands := commands + [command];
      start := start + length;
    }
    NothingToPrint(text[start..]);
    assert commands + [] == commands;
  }

  lemma NothingToPrint(text: string)
    requires text == ""
    ensures Prints(text, [])
  {
  }

  lemma MorePrinted(text: string, start: nat, n: nat, commands: seq<string>, command: string)
    requires start < |text| && 0 < n && start + n <= |text| && IsChunk(text[start..], n)
    requires command == Command(Unquoted(text[start..start + n]))
    requires forall rest | Prints(text[start..], rest) :: Prints(text, commands + rest)
    ensures forall rest | Prints(text[start + n..], rest) :: Prints(text, commands + [command] + rest)
  {
    hide IsChunk, Command, Unquoted;
    assert text[start..][..n] == text[start..start + n] && text[start..][n..] == text[start + n..];
    assert PrintsChunk(text[start..], n, command);
    forall rest | Prints(text[start + n..], rest)
      ensures Prints(text, commands + [command] + rest)
    {
      var both := [command] + rest;
      assert both[1..] == rest;
      assert Prints(text[start..], both);
      assert commands + both == commands + [command] + rest;
    }
  }

  /** The lines that go in one chunk. */
  method FillChunk(chunk: array<char>, text: string, start: nat) returns (length: nat)
    requires chunk.Length == CHUNK_SIZE && start < |text| && IsCString(text)
    modifies chunk
    ensures IsChunk(text[start..], length) && chunk[..length] == text[start..start + length]
  {
    hide IsChunk, LineLength, IsCString;
    length := TakeLines(chunk, text, start);
    if length == 0 {
      LongLineIsChunk(text, start);
      length := CHUNK_SIZE - 1;
      CopyInto(chunk, 0, text, start, length);
    } else {
      LinesAreChunk(text, start, length);
    }
  }

  /** The lines that fit, from the start. */
  method TakeLines(chunk: array<char>, text: string, start: nat) returns (length: nat)
    requires chunk.Length == CHUNK_SIZE && start < |text|
    modifies chunk
    ensures length < CHUNK_SIZE && start + length <= |text| && chunk[..length] == text[start..start + length]
    ensures length > 0 ==> start + length == |text| || text[start + length - 1] == '\n'
    ensures start + length < |text| ==> length + LineLength(text[start + length..]) >= CHUNK_SIZE
  {
    hide LineLength, Taken;
    length := 0;
    NothingTaken(text, start, chunk[..]);
    while start + length < |text|
      invariant start + length <= |text| && length < CHUNK_SIZE && Taken(text, start, length, chunk[..])
      decreases |text| - length
    {
      var line := start + length;
      var lineLength := LineLength(text[line..]);
      if length + lineLength >= CHUNK_SIZE {
        break;
      }
      ghost var before := chunk[..];
      LineEnd(text, start, line, lineLength);
      CopyInto(chunk, length, text, line, lineLength);
      assert chunk[..][..length + lineLength] == chunk[..length + lineLength];
      OneMoreTaken(text, start, length, lineLength, before, chunk[..]);
      length := length + lineLength;
    }
    TakenIs(text, start, length, chunk[..]);
    assert chunk[..][..length] == chunk[..length];
  }

  /** Whole lines of the text, in a chunk. */
  ghost predicate Taken(text: string, start: nat, length: nat, chunk: seq<char>) {
    && start + length <= |text| && length <= |chunk|
    && chunk[..length] == text[start..start + length]
    && (length > 0 ==> start + length == |text| || text[start + length - 1] == '\n')
  }

  lemma NothingTaken(text: string, start: nat, chunk: seq<char>)
    requires start <= |text|
    ensures Taken(text, start, 0, chunk)
  {
  }

  lemma TakenIs(text: string, start: nat, length: nat, chunk: seq<char>)
    requires Taken(text, start, length, chunk)
    ensures start + length <= |text| && length <= |chunk| && chunk[..length] == text[start..start + length]
    ensures length > 0 ==> start + length == |text| || text[start + length - 1] == '\n'
  {
  }

  lemma OneMoreTaken(text: string, start: nat, length: nat, n: nat, before: seq<char>, after: seq<char>)
    requires Taken(text, start, length, before) && start + length < |text| && n == LineLength(text[start + length..])
    requires start + length + n <= |text| && length + n <= |after|
    requires after[..length + n] == before[..length] + text[start + length..start + length + n]
    ensures Taken(text, start, length + n, after)
  {
    hide LineLength;
    LineEnd(text, start, start + length, n);
  }

  lemma LineEnd(text: string, start: nat, line: nat, n: nat)
    requires start <= line < |text| && n == LineLength(text[line..])
    ensures 0 < n && line + n <= |text|
    ensures text[start..line] + text[line..line + n] == text[start..line + n]
    ensures line + n == |text| || text[line + n - 1] == '\n'
  {
    hide LineLength;
    assert n > 0 ==> text[line..][n - 1] == text[line + n - 1];
  }

  lemma LinesAreChunk(text: string, start: nat, n: nat)
    requires 0 < n < CHUNK_SIZE && start + n <= |text|
    requires start + n == |text| || text[start + n - 1] == '\n'
    requires start + n < |text| ==> n + LineLength(text[start + n..]) >= CHUNK_SIZE
    ensures IsChunk(text[start..], n)
  {
    hide LineLength;
    assert text[start..][n..] == text[start + n..] && text[start..][n - 1] == text[start + n - 1];
  }

  lemma LongLineIsChunk(text: string, start: nat)
    requires start <= |text| && LineLength(text[start..]) >= CHUNK_SIZE
    ensures IsChunk(text[start..], CHUNK_SIZE - 1)
  {
    hide LineLength;
    var rest := text[start..];
    assert forall i | 0 <= i < CHUNK_SIZE - 1 :: rest[i] != '\n';
    assert rest[CHUNK_SIZE - 2] != '\n';
  }
}
