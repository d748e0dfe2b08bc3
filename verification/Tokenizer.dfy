// The command tokenizer: Engine/Hooks/qcommon/cmd.cpp.

module Tokenizer {
  import opened Wrappers
  import opened QString

  const MAX_STRING_TOKENS := 1024
  const QUOTE: char := '"'

  // ---------- What the tokens of a text are ----------

  predicate IsBlank(c: char) { c <= ' ' }

  predicate Starts(t: string, i: int, a: char, b: char) {
    0 <= i && i + 1 < |t| && t[i] == a && t[i + 1] == b
  }

  predicate StartsComment(t: string, i: int) { Starts(t, i, '/', '/') || Starts(t, i, '/', '*') }

  function SkipBlanks(t: string, i: nat): (j: nat)
    requires i <= |t|
    ensures i <= j <= |t| && (j < |t| ==> !IsBlank(t[j]))
    ensures forall k | i <= k < j :: IsBlank(t[k])
    decreases |t| - i
  {
    if i == |t| || !IsBlank(t[i]) then i else SkipBlanks(t, i + 1)
  }

  /** Where the first star and slash from i on is, or the end. */
  function CommentEnd(t: string, i: nat): (j: nat)
    requires i <= |t|
    ensures i <= j <= |t| && (j < |t| ==> Starts(t, j, '*', '/'))
    decreases |t| - i
  {
    if i == |t| || Starts(t, i, '*', '/') then i else CommentEnd(t, i + 1)
  }

  /** Where the next token starts, after blanks and comments; the end when there is none. */
  function TokenStart(t: string, i: nat): (j: nat)
    requires i <= |t|
    ensures i <= j <= |t|
    ensures j < |t| ==> !IsBlank(t[j]) && !StartsComment(t, j)
    decreases |t| - i
  {
    var s := SkipBlanks(t, i);
    if s == |t| || Starts(t, s, '/', '/') then |t|
    else if Starts(t, s, '/', '*') then
      var e := CommentEnd(t, s);
      if e == |t| then |t| else TokenStart(t, e + 2)
    else s
  }

  function QuoteEnd(t: string, i: nat): (j: nat)
    requires i <= |t|
    ensures i <= j <= |t| && (j < |t| ==> t[j] == QUOTE)
    ensures forall k | i <= k < j :: t[k] != QUOTE
    decreases |t| - i
  {
    if i == |t| || t[i] == QUOTE then i else QuoteEnd(t, i + 1)
  }

  /** What ends a regular token. */
  predicate Ends(t: string, i: int, ignoreQuotes: bool) {
    i >= |t| || (0 <= i && (IsBlank(t[i]) || (!ignoreQuotes && t[i] == QUOTE) || StartsComment(t, i)))
  }

  function TokenEnd(t: string, i: nat, ignoreQuotes: bool): (j: nat)
    requires i <= |t|
    ensures i <= j <= |t| && Ends(t, j, ignoreQuotes)
    ensures forall k | i <= k < j :: !Ends(t, k, ignoreQuotes)
    decreases |t| - i
  {
    if Ends(t, i, ignoreQuotes) then i else TokenEnd(t, i + 1, ignoreQuotes)
  }

  predicate IsQuoted(t: string, s: nat, ignoreQuotes: bool)
    requires s < |t|
  {
    !ignoreQuotes && t[s] == QUOTE
  }

  /** The first character of the token that starts at s, the end of the token, and where to go on. */
  function TokenFirst(t: string, s: nat, ignoreQuotes: bool): (first: nat)
    requires s < |t|
    ensures s <= first <= |t|
  {
    if IsQuoted(t, s, ignoreQuotes) then s + 1 else s
  }

  function TokenStop(t: string, s: nat, ignoreQuotes: bool): (stop: nat)
    requires s < |t|
    ensures TokenFirst(t, s, ignoreQuotes) <= stop <= |t|
  {
    if IsQuoted(t, s, ignoreQuotes) then QuoteEnd(t, s + 1) else TokenEnd(t, s, ignoreQuotes)
  }

  function TokenNext(t: string, s: nat, ignoreQuotes: bool): (next: nat)
    requires s < |t| && TokenStop(t, s, ignoreQuotes) < |t|
    ensures next <= |t|
  {
    TokenStop(t, s, ignoreQuotes) + if IsQuoted(t, s, ignoreQuotes) then 1 else 0
  }

  /** At most n tokens, from position i on. */
  function TokensFrom(t: string, i: nat, ignoreQuotes: bool, n: nat): (r: seq<string>)
    requires i <= |t|
    ensures |r| <= n
    decreases n
  {
    var s := TokenStart(t, i);
    if n == 0 || s == |t| then []
    else
      var e := TokenStop(t, s, ignoreQuotes);
      [t[TokenFirst(t, s, ignoreQuotes)..e]]
      + if e == |t| then [] else TokensFrom(t, TokenNext(t, s, ignoreQuotes), ignoreQuotes, n - 1)
  }

  /** The tokens of what is given to the tokenizer, which is cut to its buffer. */
  function Tokens(text: string, ignoreQuotes: bool): seq<string> {
    TokensFrom(Take(text, BIG_INFO_STRING - 1), 0, ignoreQuotes, MAX_STRING_TOKENS)
  }

  lemma TokenStartStep(t: string, i: nat)
    requires i <= |t|
    ensures var s := SkipBlanks(t, i);
      TokenStart(t, i) ==
        if s == |t| || Starts(t, s, '/', '/') then |t|
        else if Starts(t, s, '/', '*') then
          var e := CommentEnd(t, s);
          if e == |t| then |t| else assert e + 2 <= |t|; TokenStart(t, e + 2)
        else s
    ensures var e := CommentEnd(t, SkipBlanks(t, i)); e < |t| ==> e + 2 <= |t|
  {
  }

  /** Tokens as they are laid in the buffer, one after the other, each with its NUL. */
  function Flat(tokens: seq<string>): string {
    if tokens == [] then "" else Flat(tokens[..|tokens| - 1]) + tokens[|tokens| - 1] + [NUL]
  }

  lemma FlatAppend(tokens: seq<string>, token: string)
    ensures Flat(tokens + [token]) == Flat(tokens) + token + [NUL]
  {
    assert (tokens + [token])[..|tokens|] == tokens;
  }

  lemma TokensStep(t: string, i: nat, ignoreQuotes: bool, n: nat)
    requires i <= |t|
    ensures n == 0 ==> TokensFrom(t, i, ignoreQuotes, n) == []
    ensures n > 0 ==>
      var s := TokenStart(t, i);
      if s == |t| then TokensFrom(t, i, ignoreQuotes, n) == []
      else
        var e := TokenStop(t, s, ignoreQuotes);
        TokensFrom(t, i, ignoreQuotes, n)
        == [t[TokenFirst(t, s, ignoreQuotes)..e]]
           + if e == |t| then [] else TokensFrom(t, TokenNext(t, s, ignoreQuotes), ignoreQuotes, n - 1)
  {
    hide TokenStart, TokenFirst, TokenStop, TokenNext;
  }

  lemma NoTokens(t: string, ignoreQuotes: bool, n: nat)
    ensures TokensFrom(t, |t|, ignoreQuotes, n) == []
  {
  }

  /** Tokens laid in a buffer, with where each starts. */
  ghost predicate Laid(buffer: seq<char>, argv: seq<nat>, argc: nat, tokens: seq<string>) {
    && argc == |tokens| <= |argv|
    && Flat(tokens) <= buffer
    && forall k | 0 <= k < |tokens| :: argv[k] == |Flat(tokens[..k])|
  }

  lemma NothingLaid(buffer: seq<char>, argv: seq<nat>)
    ensures Laid(buffer, argv, 0, []) && Flat([]) == ""
  {
  }

  lemma LaidCount(buffer: seq<char>, argv: seq<nat>, argc: nat, tokens: seq<string>)
    requires Laid(buffer, argv, argc, tokens)
    ensures argc == |tokens| && |Flat(tokens)| <= |buffer|
  {
  }

  lemma FlatIsFirst(buffer: seq<char>, argv: seq<nat>, argc: nat, tokens: seq<string>)
    requires Laid(buffer, argv, argc, tokens)
    ensures |Flat(tokens)| <= |buffer| && buffer[..|Flat(tokens)|] == Flat(tokens)
  {
  }

  lemma ArgumentIs(buffer: seq<char>, argv: seq<nat>, tokens: seq<string>, k: nat)
    requires Laid(buffer, argv, |tokens|, tokens) && k < |tokens| && IsCString(tokens[k])
    ensures argv[k] < |buffer| && Terminated(buffer[argv[k]..]) && CStr(buffer[argv[k]..]) == tokens[k]
    ensures k + 1 < |tokens| ==> argv[k] + |tokens[k]| + 1 == argv[k + 1]
  {
    hide Flat, CStr, StrLen;
    var token, start := tokens[k], |Flat(tokens[..k])|;
    FlatPrefix(tokens, k + 1);
    assert tokens[..k + 1] == tokens[..k] + [token];
    FlatAppend(tokens[..k], token);
    var flat := Flat(tokens[..k]) + token + [NUL];
    assert flat <= buffer && argv[k] == start;
    var here := buffer[start..];
    assert forall x | 0 <= x <= |token| :: here[x] == buffer[start + x] == flat[start + x];
    assert here[..|token|] == token;
    CStrIs(here, token);
  }

  lemma {:induction false} FlatPrefix(tokens: seq<string>, k: nat)
    requires k <= |tokens|
    ensures Flat(tokens[..k]) <= Flat(tokens)
    decreases |tokens|
  {
    if k < |tokens| {
      FlatPrefix(tokens[..|tokens| - 1], k);
      assert tokens[..|tokens| - 1][..k] == tokens[..k];
    } else {
      assert tokens[..k] == tokens;
    }
  }

  lemma OneMoreLaid(buffer: seq<char>, argv: seq<nat>, tokens: seq<string>, token: string, after: seq<char>)
    requires Laid(buffer, argv, |tokens|, tokens) && |tokens| < |argv|
    requires Flat(tokens) + token + [NUL] <= after
    ensures Laid(after, argv[|tokens| := |Flat(tokens)|], |tokens| + 1, tokens + [token])
    ensures |Flat(tokens + [token])| == |Flat(tokens)| + |token| + 1
  {
    hide Flat;
    FlatAppend(tokens, token);
    var more := tokens + [token];
    assert more[..|tokens|] == tokens;
    assert forall k | 0 <= k < |tokens| :: more[..k] == tokens[..k];
  }

  // ---------- The tokenizer, in place ----------

  class CommandBuffer {
    const cmdCmd: array<char>
    const cmdTokenized: array<char>
    const cmdArgv: array<nat>
    var cmdArgc: nat

    constructor ()
      ensures Valid() && cmdArgc == 0 && fresh(cmdCmd) && fresh(cmdTokenized) && fresh(cmdArgv)
    {
      cmdCmd := new char[BIG_INFO_STRING](_ => NUL);
      cmdTokenized := new char[BIG_INFO_STRING + MAX_STRING_TOKENS](_ => NUL);
      cmdArgv := new nat[MAX_STRING_TOKENS](_ => 0);
      cmdArgc := 0;
    }

    ghost predicate Valid()
      reads this
    {
      && cmdCmd.Length == BIG_INFO_STRING
      && cmdTokenized.Length == BIG_INFO_STRING + MAX_STRING_TOKENS
      && cmdArgv.Length == MAX_STRING_TOKENS
      && cmdCmd != cmdTokenized
      && cmdArgc <= MAX_STRING_TOKENS
    }

    /** The arguments are these tokens, one after the other in the buffer. */
    ghost predicate Holds(tokens: seq<string>)
      requires Valid()
      reads this, cmdTokenized, cmdArgv
    {
      Laid(cmdTokenized[..], cmdArgv[..], cmdArgc, tokens)
    }

    /** An argument, as Cmd_Argv gives it: the string at its place in the buffer. */
    ghost function Argv(k: nat): string
      requires Valid() && k < cmdArgc && cmdArgv[k] < cmdTokenized.Length && Terminated(cmdTokenized[cmdArgv[k]..])
      reads this, cmdTokenized, cmdArgv
    {
      CStr(cmdTokenized[cmdArgv[k]..])
    }

    /** Each argument is the NUL-terminated string of its token, and the arguments do not overlap. */
    lemma ArgumentsAreTokens(tokens: seq<string>, k: nat)
      requires Valid() && Holds(tokens) && k < |tokens| && forall i | 0 <= i < |tokens| :: IsCString(tokens[i])
      ensures cmdArgv[k] < cmdTokenized.Length && Terminated(cmdTokenized[cmdArgv[k]..]) && Argv(k) == tokens[k]
      ensures k + 1 < |tokens| ==> cmdArgv[k] + |tokens[k]| + 1 == cmdArgv[k + 1]
    {
      hide Laid, CStr, StrLen;
      LaidCount(cmdTokenized[..], cmdArgv[..], cmdArgc, tokens);
      ArgumentIs(cmdTokenized[..], cmdArgv[..], tokens, k);
      assert cmdTokenized[..][cmdArgv[k]..] == cmdTokenized[cmdArgv[k]..];
    }

    method SkipBlankRun(t: string, i: nat) returns (text: nat)
      requires i <= |t|
      ensures text == SkipBlanks(t, i)
    {
      text := i;
      while text < |t| && IsBlank(t[text])
        invariant i <= text <= |t| && SkipBlanks(t, text) == SkipBlanks(t, i)
      {
        text := text + 1;
      }
    }

    method SkipComment(t: string, i: nat) returns (text: nat)
      requires i <= |t|
      ensures text == CommentEnd(t, i)
    {
      text := i;
      while text < |t| && !Starts(t, text, '*', '/')
        invariant i <= text <= |t| && CommentEnd(t, text) == CommentEnd(t, i)
      {
        text := text + 1;
      }
    }

    /** The loops over blanks and comments. */
    method SkipToToken(t: string, i: nat) returns (text: nat)
      requires i <= |t|
      ensures text == TokenStart(t, i)
    {
      hide SkipBlanks, CommentEnd, Starts, TokenStart;
      text := i;
      while true
        invariant text <= |t| && TokenStart(t, text) == TokenStart(t, i)
        decreases |t| - text
      {
        ghost var from := text;
        TokenStartStep(t, from);
        text := SkipBlankRun(t, text);
        if text == |t| {
          return;
        }
        if Starts(t, text, '/', '/') {
          return |t|;
        }
        if Starts(t, text, '/', '*') {
          text := SkipComment(t, text);
          if text == |t| {
            return;
          }
          text := text + 2;
        } else {
          return;
        }
      }
    }

    /** The loops that copy a token: up to a quote, or up to what ends a regular token. Then the NUL. */
    method CopyToken(t: string, i: nat, quoted: bool, ignoreQuotes: bool, out: nat) returns (text: nat, textOut: nat)
      requires Valid() && i <= |t| && out + (|t| - i) < cmdTokenized.Length
      modifies cmdTokenized
      ensures text == if quoted then QuoteEnd(t, i) else TokenEnd(t, i, ignoreQuotes)
      ensures textOut == out + (text - i) + 1
      ensures cmdTokenized[..textOut] == old(cmdTokenized[..out]) + t[i..text] + [NUL]
    {
      text, textOut := i, out;
      while text < |t| && (if quoted then t[text] != QUOTE else !Ends(t, text, ignoreQuotes))
        invariant i <= text <= |t| && textOut == out + (text - i)
        invariant if quoted then QuoteEnd(t, text) == QuoteEnd(t, i)
                  else TokenEnd(t, text, ignoreQuotes) == TokenEnd(t, i, ignoreQuotes)
        invariant cmdTokenized[..textOut] == old(cmdTokenized[..out]) + t[i..text]
      {
        ghost var before := cmdTokenized[..textOut];
        cmdTokenized[textOut] := t[text];
        assert cmdTokenized[..textOut + 1] == before + [t[text]];
        assert t[i..text + 1] == t[i..text] + [t[text]];
        text := text + 1;
        textOut := textOut + 1;
      }
      ghost var before := cmdTokenized[..textOut];
      cmdTokenized[textOut] := NUL;
      assert cmdTokenized[..textOut + 1] == before + [NUL];
      textOut := textOut + 1;
    }

    /**
     * Cmd_TokenizeString2. It never writes past the buffer: what is written is at most one character for each one
     * read, and one NUL for each token.
     */
    method TokenizeString2(textIn: Option<string>, ignoreQuotes: bool)
      requires Valid() && (textIn.Some? ==> IsCString(textIn.value))
      modifies this`cmdArgc, cmdCmd, cmdTokenized, cmdArgv
      ensures Valid() && Holds(if textIn.Some? then Tokens(textIn.value, ignoreQuotes) else [])
    {
      hide TokenStart, TokenEnd, QuoteEnd, CStr, StrLen, Flat, TokensFrom, Laid;
      cmdArgc := 0;
      NothingLaid(cmdTokenized[..], cmdArgv[..]);
      if textIn.None? {
        return;
      }
      Q_strncpyz(cmdCmd, textIn.value);
      NothingLaid(cmdTokenized[..], cmdArgv[..]);
      var t := CStr(cmdCmd[..]);
      var text: nat, textOut: nat := 0, 0;
      ghost var tokens: seq<string> := [];
      ghost var all := Tokens(textIn.value, ignoreQuotes);
      assert [] + all == all;
      while true
        invariant Valid() && Holds(tokens) && text <= |t| < BIG_INFO_STRING
        invariant textOut == |Flat(tokens)| <= text + cmdArgc
        invariant all == tokens + TokensFrom(t, text, ignoreQuotes, MAX_STRING_TOKENS - cmdArgc)
        decreases MAX_STRING_TOKENS - cmdArgc
      {
        if cmdArgc == MAX_STRING_TOKENS {
          TokensStep(t, text, ignoreQuotes, 0);
          assert tokens + [] == tokens;
          return;
        }
        ghost var rest := TokensFrom(t, text, ignoreQuotes, MAX_STRING_TOKENS - cmdArgc);
        var found;
        ghost var token;
        text, textOut, found, token := NextToken(t, text, ignoreQuotes, textOut, tokens);
        if !found {
          assert tokens + [] == tokens;
          return;
        }
        assert all == tokens + [token] + rest[1..];
        tokens := tokens + [token];
        if text == |t| {
          NoTokens(t, ignoreQuotes, MAX_STRING_TOKENS - cmdArgc);
          assert tokens + [] == tokens;
          return;
        }
      }
    }

    /** One token of the loop, if there is one. */
    method NextToken(t: string, i: nat, ignoreQuotes: bool, out: nat, ghost tokens: seq<string>)
      returns (text: nat, textOut: nat, found: bool, ghost token: string)
      requires Valid() && Holds(tokens) && cmdArgc < MAX_STRING_TOKENS && i <= |t| < BIG_INFO_STRING
      requires out == |Flat(tokens)| <= i + cmdArgc
      modifies this`cmdArgc, cmdTokenized, cmdArgv
      ensures Valid() && text <= |t|
      ensures !found ==> Holds(tokens) && TokensFrom(t, i, ignoreQuotes, MAX_STRING_TOKENS - old(cmdArgc)) == []
      ensures found ==>
        && Holds(tokens + [token]) && cmdArgc == old(cmdArgc) + 1
        && textOut == |Flat(tokens + [token])| <= text + cmdArgc
        && var rest := TokensFrom(t, i, ignoreQuotes, MAX_STRING_TOKENS - old(cmdArgc));
        && rest != [] && rest[0] == token && rest[1..] == TokensFrom(t, text, ignoreQuotes, MAX_STRING_TOKENS - cmdArgc)
    {
      hide TokenStart, TokenEnd, QuoteEnd, Flat, TokensFrom, Laid;
      ghost var rest := TokensFrom(t, i, ignoreQuotes, MAX_STRING_TOKENS - cmdArgc);
      TokensStep(t, i, ignoreQuotes, MAX_STRING_TOKENS - cmdArgc);
      textOut, token, found := out, "", true;
      text := SkipToToken(t, i);
      if text == |t| {
        found := false;
        return;
      }
      var quoted := !ignoreQuotes && t[text] == QUOTE;
      if quoted {
        text := text + 1;
      }
      ghost var start := text;
      text, textOut := AddToken(t, text, quoted, ignoreQuotes, out, tokens);
      token := t[start..text];
      NoTokens(t, ignoreQuotes, MAX_STRING_TOKENS - cmdArgc);
      if quoted && text < |t| {
        text := text + 1;
      }
    }

    /** Starts an argument at textOut and copies its token there. */
    method AddToken(t: string, i: nat, quoted: bool, ignoreQuotes: bool, out: nat, ghost tokens: seq<string>)
      returns (text: nat, textOut: nat)
      requires Valid() && Holds(tokens) && cmdArgc < MAX_STRING_TOKENS && i <= |t| < BIG_INFO_STRING
      requires out == |Flat(tokens)| <= i + cmdArgc
      modifies this`cmdArgc, cmdTokenized, cmdArgv
      ensures text == if quoted then QuoteEnd(t, i) else TokenEnd(t, i, ignoreQuotes)
      ensures Valid() && Holds(tokens + [t[i..text]])
      ensures textOut == |Flat(tokens + [t[i..text]])| == out + (text - i) + 1
      ensures cmdArgc == old(cmdArgc) + 1
    {
      hide TokenEnd, QuoteEnd, Flat, Laid;
      ghost var buffer, argv := cmdTokenized[..], cmdArgv[..];
      LaidCount(buffer, argv, cmdArgc, tokens);
      FlatIsFirst(buffer, argv, cmdArgc, tokens);
      cmdArgv[cmdArgc] := out;
      cmdArgc := cmdArgc + 1;
      text, textOut := CopyToken(t, i, quoted, ignoreQuotes, out);
      assert cmdTokenized[..textOut] <= cmdTokenized[..];
      OneMoreLaid(buffer, argv, tokens, t[i..text], cmdTokenized[..]);
    }

    method CmdArgv(k: nat, ghost tokens: seq<string>) returns (argument: string)
      requires Valid() && Holds(tokens) && k < cmdArgc && forall i | 0 <= i < |tokens| :: IsCString(tokens[i])
      ensures argument == tokens[k]
    {
      hide Laid;
      LaidCount(cmdTokenized[..], cmdArgv[..], cmdArgc, tokens);
      ArgumentsAreTokens(tokens, k);
      argument := CStr(cmdTokenized[cmdArgv[k]..]);
    }

    /** Cmd_ArgsFrom: the arguments from `arg` on, in a buffer of BIG_INFO_STRING, through Q_strcat. */
    method ArgsFrom(arg: int, ghost tokens: seq<string>) returns (args: string)
      requires Valid() && Holds(tokens) && forall i | 0 <= i < |tokens| :: IsCString(tokens[i])
      ensures args == ArgsFold(tokens, if arg < 0 then 0 else arg, "")
    {
      hide CStr, StrLen, Flat, ArgsFold, Laid, Cat;
      LaidCount(cmdTokenized[..], cmdArgv[..], cmdArgc, tokens);
      var buffer := new char[BIG_INFO_STRING](_ => NUL);
      CStrIs(buffer[..], "");
      var first: nat := if arg < 0 then 0 else arg;
      var i := first;
      while i < cmdArgc
        invariant first <= i && (i <= |tokens| || i == first)
        invariant Terminated(buffer[..])
        invariant ArgsFold(tokens, first, "") == ArgsFold(tokens, i, CStr(buffer[..]))
      {
        ArgsStep(tokens, i, CStr(buffer[..]));
        var argument := CmdArgv(i, tokens);
        CatInPlace(buffer, argument);
        if i != cmdArgc - 1 {
          CatInPlace(buffer, " ");
        }
        i := i + 1;
      }
      args := CStr(buffer[..]);
      ArgsStep(tokens, i, args);
    }
  }

  method CatInPlace(buffer: array<char>, s: string)
    requires Terminated(buffer[..]) && buffer.Length == BIG_INFO_STRING && IsCString(s)
    modifies buffer
    ensures Terminated(buffer[..]) && CStr(buffer[..]) == Cat(old(CStr(buffer[..])), s)
  {
    hide CStr, StrLen;
    Q_strcat(buffer, s);
  }

  lemma ArgsStep(tokens: seq<string>, i: nat, args: string)
    ensures ArgsFold(tokens, i, args) ==
      if i >= |tokens| then args
      else ArgsFold(tokens, i + 1, if i != |tokens| - 1 then Cat(Cat(args, tokens[i]), " ") else Cat(args, tokens[i]))
  {
  }

  // ---------- How a line is read ----------

  /**
   * What a line is made of. A quoted word may be empty, and may hold blanks and what looks like a comment. The last one
   * may be left open.
   */
  datatype Piece = Blank(c: char) | Comment(body: string) | Plain(word: string) | Quoted(word: string)
    | Open(word: string)

  function PieceText(p: Piece): string {
    match p
    case Blank(c) => [c]
    case Comment(body) => "/" + body + "*/"
    case Plain(word) => word
    case Quoted(word) => "\"" + word + "\""
    case Open(word) => "\"" + word
  }

  function TextOf(pieces: seq<Piece>): string {
    if pieces == [] then "" else PieceText(pieces[0]) + TextOf(pieces[1..])
  }

  function WordsOf(pieces: seq<Piece>): seq<string> {
    if pieces == [] then []
    else (if pieces[0].Blank? || pieces[0].Comment? then [] else [pieces[0].word]) + WordsOf(pieces[1..])
  }

  /** One closed comment: it starts with a slash and a star, and has no star and slash before its end. */
  ghost predicate IsComment(text: string) {
    && |text| >= 3 && text[0] == '/' && text[1] == '*' && text[|text| - 2] == '*' && text[|text| - 1] == '/'
    && forall k | 0 <= k < |text| - 2 :: !(text[k] == '*' && text[k + 1] == '/')
  }

  /** A word that needs no quotes, in front of `next`: no part of the two is a comment that starts in the word. */
  ghost predicate IsPlainWord(word: string, next: string, ignoreQuotes: bool) {
    && word != ""
    && (forall c | c in word :: c > ' ' && (c == '"' ==> ignoreQuotes))
    && (forall k | 0 <= k < |word| - 1 && word[k] == '/' :: word[k + 1] != '/' && word[k + 1] != '*')
    && (word[|word| - 1] == '/' && next != "" ==> next[0] != '/' && next[0] != '*')
  }

  /** What ends the reading: nothing more, a comment to the end of the line, or a comment that is not closed. */
  ghost predicate IsTail(tail: string) {
    || tail == ""
    || (|tail| >= 2 && tail[0] == '/' && tail[1] == '/')
    || (|tail| >= 2 && tail[0] == '/' && tail[1] == '*'
        && forall k | 0 <= k < |tail| - 1 :: !(tail[k] == '*' && tail[k + 1] == '/'))
  }

  /** What a piece may be in front of `next`: words are quoted only where quotes count. */
  ghost predicate IsPiece(p: Piece, next: string, ignoreQuotes: bool) {
    match p
    case Blank(c) => c <= ' '
    case Comment(_) => IsComment(PieceText(p))
    case Plain(word) => IsPlainWord(word, next, ignoreQuotes)
    case Quoted(word) => !ignoreQuotes && QUOTE !in word
    case Open(word) => !ignoreQuotes && QUOTE !in word && next == ""
  }

  /** No two plain words touch. */
  ghost predicate Fits(p: Piece, rest: seq<Piece>, tail: string, ignoreQuotes: bool) {
    && IsPiece(p, TextOf(rest) + tail, ignoreQuotes)
    && (rest != [] ==> !p.Open? && !(p.Plain? && rest[0].Plain?))
  }

  ghost predicate IsLine(pieces: seq<Piece>, tail: string, ignoreQuotes: bool) {
    if pieces == [] then IsTail(tail)
    else Fits(pieces[0], pieces[1..], tail, ignoreQuotes) && IsLine(pieces[1..], tail, ignoreQuotes)
  }

  function FirstOf(tokens: seq<string>, n: nat): seq<string> { if n < |tokens| then tokens[..n] else tokens }

  /**
   * The tokens of a line are its words, plain or between quotes, up to the number that there is room for. Blanks and
   * comments only part them; a plain word also ends at a quote, and a quoted one goes on to the next quote, past blanks
   * and comments.
   */
  lemma {:induction false} LineIsRead(front: string, pieces: seq<Piece>, tail: string, ignoreQuotes: bool, n: nat)
    requires IsLine(pieces, tail, ignoreQuotes)
    ensures TokensFrom(front + (TextOf(pieces) + tail), |front|, ignoreQuotes, n) == FirstOf(WordsOf(pieces), n)
    decreases |pieces|
  {
    hide TokensFrom, IsComment, IsPlainWord, IsLine, IsTail, TextOf, WordsOf, FirstOf, PieceText;
    LineStep(pieces, tail, ignoreQuotes);
    if pieces == [] {
      NothingElse(front, tail, ignoreQuotes, n);
    } else {
      var rest := pieces[1..];
      var text, next := PieceText(pieces[0]), TextOf(rest) + tail;
      assert TextOf(pieces) + tail == text + next;
      PieceIsRead(front, pieces, tail, ignoreQuotes, n);
      NoneOf(WordsOf(pieces));
      if pieces[0].Blank? || pieces[0].Comment? {
        LineIsRead(front + text, rest, tail, ignoreQuotes, n);
      } else if n > 0 {
        LineIsRead(front + text, rest, tail, ignoreQuotes, n - 1);
        FirstOfMore(pieces[0].word, WordsOf(rest), n);
      }
    }
  }

  lemma NoneOf(words: seq<string>)
    ensures FirstOf(words, 0) == [] == FirstOf([], 0)
  {
  }

  lemma LineStep(pieces: seq<Piece>, tail: string, ignoreQuotes: bool)
    requires IsLine(pieces, tail, ignoreQuotes)
    ensures if pieces == [] then
              && TextOf(pieces) + tail == tail && IsTail(tail)
              && forall n: nat :: FirstOf(WordsOf(pieces), n) == []
            else
              && IsLine(pieces[1..], tail, ignoreQuotes)
              && TextOf(pieces) == PieceText(pieces[0]) + TextOf(pieces[1..])
              && WordsOf(pieces) == (if pieces[0].Blank? || pieces[0].Comment? then WordsOf(pieces[1..])
                                     else [pieces[0].word] + WordsOf(pieces[1..]))
  {
    hide IsComment, IsPlainWord, PieceText, IsTail;
    if pieces != [] {
      assert [] + WordsOf(pieces[1..]) == WordsOf(pieces[1..]);
    }
  }

  /** One piece: a blank and a comment are passed over, a word is a token. */
  lemma PieceIsRead(front: string, pieces: seq<Piece>, tail: string, ignoreQuotes: bool, n: nat)
    requires IsLine(pieces, tail, ignoreQuotes) && pieces != []
    ensures var p, text, next := pieces[0], PieceText(pieces[0]), TextOf(pieces[1..]) + tail;
      TokensFrom(front + (text + next), |front|, ignoreQuotes, n) ==
        if p.Blank? || p.Comment? then TokensFrom(front + text + next, |front + text|, ignoreQuotes, n)
        else if n == 0 then []
        else [p.word] + TokensFrom(front + text + next, |front + text|, ignoreQuotes, n - 1)
  {
    hide TokensFrom, IsComment, IsPlainWord, TextOf, TokenStart, TokenStop, TokenFirst, TokenNext, IsQuoted, Ends;
    var p, text, next := pieces[0], PieceText(pieces[0]), TextOf(pieces[1..]) + tail;
    var t, i := front + (text + next), |front|;
    assert t == front + text + next;
    match p {
      case Blank(c) =>
        BlankIsPassed(front, c, next);
        SameStart(t, i, |front + text|, ignoreQuotes, n);
      case Comment(_) =>
        CommentIsPassed(front, text, next);
        SameStart(t, i, |front + text|, ignoreQuotes, n);
      case Plain(word) =>
        NextEndsIt(pieces[1..], tail, ignoreQuotes);
        PlainIsRead(front, word, next, ignoreQuotes);
        WordIsToken(t, i, |front + text|, word, |front + text|, ignoreQuotes, n);
      case Quoted(word) =>
        QuotedIsRead(front, word, next);
        WordIsToken(t, i, |front + text| - 1, word, |front + text|, ignoreQuotes, n);
      case Open(word) =>
        OpenIsRead(front, word);
        assert TextOf(pieces[1..]) == "" by { NoText(pieces[1..]); }
        assert t == front + ("\"" + word);
        WordIsToken(t, i, |t|, word, |t|, ignoreQuotes, n);
    }
  }

  lemma WordIsToken(t: string, i: nat, e: nat, word: string, next: nat, ignoreQuotes: bool, n: nat)
    requires i < |t| && TokenStart(t, i) == i && TokenStop(t, i, ignoreQuotes) == e <= next <= |t|
    requires TokenFirst(t, i, ignoreQuotes) <= e && t[TokenFirst(t, i, ignoreQuotes)..e] == word
    requires if e < |t| then TokenNext(t, i, ignoreQuotes) == next else next == |t|
    ensures TokensFrom(t, i, ignoreQuotes, n)
         == if n == 0 then [] else [word] + TokensFrom(t, next, ignoreQuotes, n - 1)
  {
    hide TokensFrom, TokenStart, TokenStop, TokenFirst, TokenNext;
    TokensStep(t, i, ignoreQuotes, n);
    if n > 0 {
      NoTokens(t, ignoreQuotes, n - 1);
    }
  }

  lemma FirstOfMore(word: string, words: seq<string>, n: nat)
    requires 0 < n
    ensures FirstOf([word] + words, n) == [word] + FirstOf(words, n - 1)
  {
  }

  lemma SameStart(t: string, i: nat, j: nat, ignoreQuotes: bool, n: nat)
    requires i <= |t| && j <= |t| && TokenStart(t, i) == TokenStart(t, j)
    ensures TokensFrom(t, i, ignoreQuotes, n) == TokensFrom(t, j, ignoreQuotes, n)
  {
    hide TokensFrom, TokenStart, TokenFirst, TokenStop, TokenNext;
    TokensStep(t, i, ignoreQuotes, n);
    TokensStep(t, j, ignoreQuotes, n);
  }

  lemma NothingElse(front: string, tail: string, ignoreQuotes: bool, n: nat)
    requires IsTail(tail)
    ensures TokensFrom(front + tail, |front|, ignoreQuotes, n) == []
  {
    var t := front + tail;
    TokensStep(t, |front|, ignoreQuotes, n);
    hide TokensFrom;
    if tail != "" {
      assert forall k | 0 <= k < |tail| :: t[|front| + k] == tail[k];
      assert SkipBlanks(t, |front|) == |front| by { assert !IsBlank(t[|front|]); }
      TokenStartStep(t, |front|);
      if tail[1] == '*' {
        forall k | |front| <= k < |t|
          ensures !Starts(t, k, '*', '/')
        {
          assert t[k] == tail[k - |front|] && (k + 1 < |t| ==> t[k + 1] == tail[k + 1 - |front|]);
        }
        CommentEndIs(t, |front|, |t|);
      }
    }
  }

  lemma BlankIsPassed(front: string, c: char, next: string)
    requires c <= ' '
    ensures var text := PieceText(Blank(c));
      TokenStart(front + (text + next), |front|) == TokenStart(front + (text + next), |front + text|)
  {
    var t := front + ([c] + next);
    assert t[|front|] == c;
    assert SkipBlanks(t, |front|) == SkipBlanks(t, |front| + 1);
    hide SkipBlanks;
    TokenStartStep(t, |front|);
    TokenStartStep(t, |front| + 1);
  }

  lemma CommentIsPassed(front: string, text: string, next: string)
    requires IsComment(text)
    ensures TokenStart(front + (text + next), |front|) == TokenStart(front + (text + next), |front + text|)
  {
    var t, i := front + (text + next), |front|;
    assert forall k | 0 <= k < |text| :: t[i + k] == text[k];
    assert SkipBlanks(t, i) == i by { assert !IsBlank(t[i]); }
    var e := i + |text| - 2;
    forall k | i <= k < e
      ensures !Starts(t, k, '*', '/')
    {
      assert t[k] == text[k - i] && t[k + 1] == text[k + 1 - i];
    }
    CommentEndIs(t, i, e);
    TokenStartStep(t, i);
  }

  lemma {:induction false} CommentEndIs(t: string, i: nat, e: nat)
    requires i <= e <= |t| && (e < |t| ==> Starts(t, e, '*', '/'))
    requires forall k | i <= k < e :: !Starts(t, k, '*', '/')
    ensures CommentEnd(t, i) == e
    decreases e - i
  {
    if i < e {
      CommentEndIs(t, i + 1, e);
    }
  }

  /** What follows a plain word ends it. */
  lemma NextEndsIt(rest: seq<Piece>, tail: string, ignoreQuotes: bool)
    requires IsLine(rest, tail, ignoreQuotes) && (rest != [] ==> !rest[0].Plain?)
    ensures Ends(TextOf(rest) + tail, 0, ignoreQuotes)
  {
  }

  lemma PlainIsRead(front: string, word: string, next: string, ignoreQuotes: bool)
    requires IsPlainWord(word, next, ignoreQuotes) && Ends(next, 0, ignoreQuotes)
    ensures var t, i := front + (word + next), |front|;
      && TokenStart(t, i) == i < |t|
      && TokenFirst(t, i, ignoreQuotes) == i && TokenStop(t, i, ignoreQuotes) == i + |word| <= |t|
      && (i + |word| < |t| ==> TokenNext(t, i, ignoreQuotes) == i + |word|)
      && t[i..i + |word|] == word
  {
    var t, i := front + (word + next), |front|;
    var e := i + |word|;
    forall k | i <= k < e
      ensures !Ends(t, k, ignoreQuotes)
    {
      assert t[k] == word[k - i] && word[k - i] in word;
      assert k + 1 < e ==> t[k + 1] == word[k + 1 - i];
      assert k + 1 == e && e < |t| ==> t[e] == next[0];
    }
    assert !Ends(t, i, ignoreQuotes);
    assert SkipBlanks(t, i) == i;
    assert e < |t| ==> t[e] == next[0];
    assert e + 1 < |t| ==> t[e + 1] == next[1];
    assert Ends(t, e, ignoreQuotes);
    TokenEndIs(t, i, e, ignoreQuotes);
  }

  lemma QuotedIsRead(front: string, word: string, next: string)
    requires QUOTE !in word
    ensures var t, i := front + (PieceText(Quoted(word)) + next), |front|;
            var e := i + 1 + |word|;
      && TokenStart(t, i) == i < |t|
      && TokenFirst(t, i, false) == i + 1 && TokenStop(t, i, false) == e < |t| && TokenNext(t, i, false) == e + 1
      && t[i + 1..e] == word
  {
    var t, i := front + (PieceText(Quoted(word)) + next), |front|;
    var e := i + 1 + |word|;
    assert t[i] == QUOTE && t[e] == QUOTE;
    assert t[i + 1..e] == word;
    forall k | i + 1 <= k < e
      ensures t[k] != QUOTE
    {
      assert t[k] == word[k - i - 1] && word[k - i - 1] in word;
    }
    assert SkipBlanks(t, i) == i;
    QuoteEndIs(t, i + 1, e);
  }

  lemma NoText(pieces: seq<Piece>)
    requires pieces == []
    ensures TextOf(pieces) == ""
  {
  }

  lemma OpenIsRead(front: string, word: string)
    requires QUOTE !in word
    ensures var t, i := front + ("\"" + word), |front|;
      && TokenStart(t, i) == i < |t|
      && TokenFirst(t, i, false) == i + 1 && TokenStop(t, i, false) == |t| && t[i + 1..|t|] == word
  {
    var t, i := front + ("\"" + word), |front|;
    assert t[i] == QUOTE && t[i + 1..|t|] == word;
    forall k | i + 1 <= k < |t|
      ensures t[k] != QUOTE
    {
      assert t[k] == word[k - i - 1] && word[k - i - 1] in word;
    }
    assert SkipBlanks(t, i) == i;
    QuoteEndIs(t, i + 1, |t|);
  }

  lemma {:induction false} QuoteEndIs(t: string, i: nat, e: nat)
    requires i <= e <= |t| && (e < |t| ==> t[e] == QUOTE) && forall k | i <= k < e :: t[k] != QUOTE
    ensures QuoteEnd(t, i) == e
    decreases e - i
  {
    if i < e {
      QuoteEndIs(t, i + 1, e);
    }
  }

  /** The first piece of a text, when it is no tail. */
  lemma FirstPiece(t: string, ignoreQuotes: bool) returns (p: Option<Piece>, n: nat)
    ensures p.None? ==> IsTail(t)
    ensures p.Some? ==>
      && 0 < n <= |t| && PieceText(p.value) == t[..n] && IsPiece(p.value, t[n..], ignoreQuotes)
      && (p.value.Plain? ==> !Ends(t, 0, ignoreQuotes) && Ends(t[n..], 0, ignoreQuotes))
  {
    hide IsPiece, PieceText, IsTail;
    if t == "" || Starts(t, 0, '/', '/') {
      LineComment(t);
      return None, 0;
    }
    if IsBlank(t[0]) {
      BlankPiece(t, ignoreQuotes);
      return Some(Blank(t[0])), 1;
    }
    if Starts(t, 0, '/', '*') {
      var e := CommentEnd(t, 0);
      CommentPart(t);
      if e == |t| {
        return None, 0;
      }
      CommentPiece(t, e, ignoreQuotes);
      return Some(Comment(t[1..e])), e + 2;
    }
    if !ignoreQuotes && t[0] == QUOTE {
      var e := QuoteEnd(t, 1);
      QuotedPiece(t, e);
      if e == |t| {
        return Some(Open(t[1..])), |t|;
      }
      return Some(Quoted(t[1..e])), e + 1;
    }
    n := TokenEnd(t, 0, ignoreQuotes);
    PlainPiece(t, n, ignoreQuotes);
    p := Some(Plain(t[..n]));
  }

  lemma BlankPiece(t: string, ignoreQuotes: bool)
    requires t != "" && IsBlank(t[0])
    ensures PieceText(Blank(t[0])) == t[..1] && IsPiece(Blank(t[0]), t[1..], ignoreQuotes)
  {
  }

  lemma CommentPiece(t: string, e: nat, ignoreQuotes: bool)
    requires 1 <= e <= |t| - 2 && IsComment(t[..e + 2])
    ensures PieceText(Comment(t[1..e])) == t[..e + 2] && IsPiece(Comment(t[1..e]), t[e + 2..], ignoreQuotes)
  {
    var text := t[..e + 2];
    assert text[0] == t[0] && text[|text| - 2] == t[e] && text[|text| - 1] == t[e + 1];
    assert PieceText(Comment(t[1..e])) == text;
  }

  lemma QuotedPiece(t: string, e: nat)
    requires t != "" && t[0] == QUOTE && 1 <= e <= |t| && (e < |t| ==> t[e] == QUOTE)
    requires forall k | 1 <= k < e :: t[k] != QUOTE
    ensures if e == |t| then PieceText(Open(t[1..])) == t[..|t|] && IsPiece(Open(t[1..]), t[|t|..], false)
            else PieceText(Quoted(t[1..e])) == t[..e + 1] && IsPiece(Quoted(t[1..e]), t[e + 1..], false)
  {
    var word := t[1..e];
    assert forall k | 0 <= k < |word| :: word[k] == t[k + 1];
    assert t[..e] == "\"" + word;
    if e < |t| {
      assert t[..e + 1] == "\"" + word + "\"";
    }
  }

  lemma PlainPiece(t: string, e: nat, ignoreQuotes: bool)
    requires t != "" && e <= |t| && Ends(t, e, ignoreQuotes) && forall k | 0 <= k < e :: !Ends(t, k, ignoreQuotes)
    requires !Ends(t, 0, ignoreQuotes)
    ensures 0 < e && PieceText(Plain(t[..e])) == t[..e] && IsPiece(Plain(t[..e]), t[e..], ignoreQuotes)
    ensures Ends(t[e..], 0, ignoreQuotes)
  {
    hide IsPlainWord;
    EndsShift(t, e, ignoreQuotes);
    PlainPart(t, e, ignoreQuotes);
  }

  lemma LineComment(t: string)
    requires t == "" || Starts(t, 0, '/', '/')
    ensures IsTail(t)
  {
  }

  /** Every text is such a line, so this is what the tokens of any text are. */
  lemma {:induction false} EveryTextIsALine(t: string, ignoreQuotes: bool) returns (pieces: seq<Piece>, tail: string)
    ensures IsLine(pieces, tail, ignoreQuotes) && TextOf(pieces) + tail == t
    ensures Ends(t, 0, ignoreQuotes) && pieces != [] ==> !pieces[0].Plain?
    decreases |t|
  {
    hide IsLine, TextOf, IsPiece, PieceText, Ends, IsTail;
    var p, n := FirstPiece(t, ignoreQuotes);
    if p.None? {
      pieces, tail := [], t;
      NoPieces(t, ignoreQuotes);
    } else {
      pieces, tail := EveryTextIsALine(t[n..], ignoreQuotes);
      if p.value.Open? {
        NothingBehindOpen(p.value, t[n..], ignoreQuotes);
        pieces, tail := [], "";
      }
      OnePieceMore(p.value, pieces, tail, ignoreQuotes, t, n);
      pieces := [p.value] + pieces;
    }
  }

  lemma NothingBehindOpen(p: Piece, next: string, ignoreQuotes: bool)
    requires p.Open? && IsPiece(p, next, ignoreQuotes)
    ensures next == "" && IsLine([], "", ignoreQuotes) && TextOf([]) + "" == next
  {
  }

  lemma NoPieces(tail: string, ignoreQuotes: bool)
    requires IsTail(tail)
    ensures IsLine([], tail, ignoreQuotes) && TextOf([]) + tail == tail
  {
  }

  lemma {:induction false} NoEarlierEnd(t: string, i: nat)
    requires i <= |t|
    ensures forall k | i <= k < CommentEnd(t, i) :: !Starts(t, k, '*', '/')
    decreases |t| - i
  {
    if i < |t| && !Starts(t, i, '*', '/') {
      NoEarlierEnd(t, i + 1);
    }
  }

  /** A comment up to its end, or to the end of the text. */
  lemma CommentPart(t: string)
    requires Starts(t, 0, '/', '*')
    ensures var e := CommentEnd(t, 0); if e == |t| then IsTail(t) else 1 <= e <= |t| - 2 && IsComment(t[..e + 2])
  {
    var e := CommentEnd(t, 0);
    NoEarlierEnd(t, 0);
    forall k | 0 <= k < e && k + 1 < |t|
      ensures !(t[k] == '*' && t[k + 1] == '/')
    {
      assert !Starts(t, k, '*', '/');
    }
    if e < |t| {
      var text := t[..e + 2];
      assert forall k | 0 <= k < |text| :: text[k] == t[k];
    }
  }

  lemma EndsShift(t: string, e: nat, ignoreQuotes: bool)
    requires e <= |t| && Ends(t, e, ignoreQuotes)
    ensures Ends(t[e..], 0, ignoreQuotes)
  {
  }

  lemma PlainPart(t: string, e: nat, ignoreQuotes: bool)
    requires 0 < e <= |t| && forall k | 0 <= k < e :: !Ends(t, k, ignoreQuotes)
    ensures IsPlainWord(t[..e], t[e..], ignoreQuotes)
  {
    forall c | c in t[..e]
      ensures c > ' ' && (c == '"' ==> ignoreQuotes)
    {
      var k :| 0 <= k < e && t[k] == c;
      assert !Ends(t, k, ignoreQuotes);
    }
    forall k | 0 <= k < e && t[k] == '/'
      ensures k + 1 < |t| ==> t[k + 1] != '/' && t[k + 1] != '*'
    {
      assert !Ends(t, k, ignoreQuotes);
    }
  }

  /** Another piece in front of a line. */
  lemma OnePieceMore(p: Piece, pieces: seq<Piece>, tail: string, ignoreQuotes: bool, t: string, n: nat)
    requires n <= |t| && PieceText(p) == t[..n] && TextOf(pieces) + tail == t[n..] && IsLine(pieces, tail, ignoreQuotes)
    requires IsPiece(p, t[n..], ignoreQuotes) && (pieces != [] ==> !p.Open? && !(p.Plain? && pieces[0].Plain?))
    ensures IsLine([p] + pieces, tail, ignoreQuotes) && TextOf([p] + pieces) + tail == t
  {
    hide IsPiece, PieceText;
    var more := [p] + pieces;
    assert more[1..] == pieces;
    assert TextOf(more) == PieceText(p) + TextOf(pieces);
    assert PieceText(p) + TextOf(pieces) + tail == t[..n] + t[n..];
  }

  /** The whole tokenizer: a line that fits in its buffer has its first 1024 words for tokens. */
  lemma TokensAreWords(pieces: seq<Piece>, tail: string, ignoreQuotes: bool)
    requires IsLine(pieces, tail, ignoreQuotes) && |TextOf(pieces) + tail| < 8192
    ensures Tokens(TextOf(pieces) + tail, ignoreQuotes) == FirstOf(WordsOf(pieces), 1024)
  {
    hide TokensFrom, IsLine, TextOf, WordsOf, FirstOf;
    LineIsRead("", pieces, tail, ignoreQuotes, MAX_STRING_TOKENS);
    assert "" + (TextOf(pieces) + tail) == TextOf(pieces) + tail;
  }

  /** Words between quotes, with a space before each. */
  function InQuotes(words: seq<string>): seq<Piece> {
    if words == [] then [] else [Blank(' '), Quoted(words[0])] + InQuotes(words[1..])
  }

  /** Any words without quotes, the empty one included, survive being put between quotes. */
  lemma {:induction false} QuotedIsReadBack(words: seq<string>)
    requires forall k | 0 <= k < |words| :: QUOTE !in words[k]
    ensures IsLine(InQuotes(words), "", false) && WordsOf(InQuotes(words)) == words
    ensures |TextOf(InQuotes(words))| < 8192 && |words| <= 1024 ==> Tokens(TextOf(InQuotes(words)), false) == words
  {
    hide TextOf, Tokens;
    if words != [] {
      QuotedIsReadBack(words[1..]);
      QuotedInFront(words[0], words[1..], InQuotes(words[1..]));
      assert words == [words[0]] + words[1..];
    }
    if |TextOf(InQuotes(words))| < 8192 {
      assert TextOf(InQuotes(words)) + "" == TextOf(InQuotes(words));
      TokensAreWords(InQuotes(words), "", false);
    }
  }

  lemma QuotedInFront(word: string, words: seq<string>, rest: seq<Piece>)
    requires QUOTE !in word && IsLine(rest, "", false) && WordsOf(rest) == words
    ensures var pieces := [Blank(' '), Quoted(word)] + rest;
      IsLine(pieces, "", false) && WordsOf(pieces) == [word] + words
  {
    hide TextOf;
    var pieces, one := [Blank(' '), Quoted(word)] + rest, [Quoted(word)] + rest;
    assert pieces[1..] == one && one[1..] == rest;
    assert IsLine(one, "", false);
    assert WordsOf(one) == [word] + words;
  }

  // ---------- Tokenizing again ----------

  /** Q_strcat in a buffer of BIG_INFO_STRING. */
  function Cat(a: string, s: string): string { if |a| + |s| < BIG_INFO_STRING then a + s else a }

  function ArgsFold(tokens: seq<string>, i: nat, args: string): string
    decreases |tokens| - i
  {
    if i >= |tokens| then args
    else
      var with := Cat(args, tokens[i]);
      ArgsFold(tokens, i + 1, if i != |tokens| - 1 then Cat(with, " ") else with)
  }

  function Join(tokens: seq<string>): string {
    if tokens == [] then "" else if |tokens| == 1 then tokens[0] else tokens[0] + " " + Join(tokens[1..])
  }

  /** When everything fits, Cmd_ArgsFrom joins the arguments with spaces. */
  lemma {:induction false} ArgsAreJoined(tokens: seq<string>, i: nat, args: string)
    requires i <= |tokens| && |args| + |Join(tokens[i..])| < BIG_INFO_STRING
    ensures ArgsFold(tokens, i, args) == args + Join(tokens[i..])
    decreases |tokens| - i
  {
    if i == |tokens| {
      assert args + "" == args;
    } else {
      var rest := tokens[i..];
      assert rest[1..] == tokens[i + 1..];
      if i == |tokens| - 1 {
        assert tokens[i + 1..] == [];
        assert args + tokens[i] + "" == args + tokens[i];
        ArgsAreJoined(tokens, i + 1, args + tokens[i]);
      } else {
        ArgsAreJoined(tokens, i + 1, args + tokens[i] + " ");
        assert args + tokens[i] + " " + Join(tokens[i + 1..]) == args + (tokens[i] + " " + Join(tokens[i + 1..]));
      }
    }
  }

  /** What a token can be when quotes are ignored. */
  ghost predicate IsToken(x: string) {
    && x != ""
    && (forall k | 0 <= k < |x| :: !IsBlank(x[k]))
    && forall k | 0 <= k < |x| :: !StartsComment(x, k)
  }

  lemma {:induction false} TokensAreTokens(t: string, i: nat, n: nat)
    requires i <= |t|
    ensures forall k | 0 <= k < |TokensFrom(t, i, true, n)| :: IsToken(TokensFrom(t, i, true, n)[k])
    decreases n
  {
    var s := TokenStart(t, i);
    if n > 0 && s < |t| {
      var e := TokenEnd(t, s, true);
      var x := t[s..e];
      assert IsToken(x) by {
        assert !Ends(t, s, true);
        forall k | 0 <= k < |x|
          ensures !IsBlank(x[k]) && !StartsComment(x, k)
        {
          assert !Ends(t, s + k, true) && x[k] == t[s + k] && (k + 1 < |x| ==> x[k + 1] == t[s + k + 1]);
        }
      }
      TokensAreTokens(t, e, n - 1);
    }
  }

  /** No token holds a NUL, so each is the whole string of its argument. */
  lemma {:induction false} TokensAreCStrings(t: string, i: nat, ignoreQuotes: bool, n: nat)
    requires IsCString(t) && i <= |t|
    ensures forall k | 0 <= k < |TokensFrom(t, i, ignoreQuotes, n)| :: IsCString(TokensFrom(t, i, ignoreQuotes, n)[k])
    decreases n
  {
    hide TokenStart, TokenEnd, QuoteEnd, TokensFrom;
    TokensStep(t, i, ignoreQuotes, n);
    var s := TokenStart(t, i);
    if n > 0 && s < |t| {
      if !ignoreQuotes && t[s] == QUOTE {
        var e := QuoteEnd(t, s + 1);
        if e < |t| {
          TokensAreCStrings(t, e + 1, ignoreQuotes, n - 1);
        }
      } else {
        TokensAreCStrings(t, TokenEnd(t, s, ignoreQuotes), ignoreQuotes, n - 1);
      }
    }
  }

  /** A token is followed by at least one character that is in no token, so the tokens joined are not longer. */
  lemma {:induction false} JoinIsNotLonger(t: string, i: nat, n: nat)
    requires i <= |t|
    ensures var r := TokensFrom(t, i, true, n); r != [] ==> |Join(r)| <= |t| - TokenStart(t, i)
    decreases n
  {
    hide TokenStart, TokenEnd, TokensFrom, Join;
    TokensStep(t, i, true, n);
    var s := TokenStart(t, i);
    if n > 0 && s < |t| {
      var e := TokenEnd(t, s, true);
      var rest := if e == |t| then [] else TokensFrom(t, e, true, n - 1);
      if e < |t| {
        JoinIsNotLonger(t, e, n - 1);
        AfterTokenIsNone(t, e);
      }
      JoinedLength(t[s..e], rest);
    }
  }

  lemma JoinedLength(token: string, rest: seq<string>)
    ensures |Join([token] + rest)| == |token| + if rest == [] then 0 else 1 + |Join(rest)|
  {
    assert ([token] + rest)[1..] == rest;
  }

  lemma AfterTokenIsNone(t: string, e: nat)
    requires e < |t| && Ends(t, e, true)
    ensures TokenStart(t, e) > e
  {
    if !IsBlank(t[e]) {
      assert SkipBlanks(t, e) == e;
    }
  }

  /** Tokens joined with spaces, after any text, are read back. */
  lemma {:induction false} JoinIsReadBack(front: string, tokens: seq<string>, n: nat)
    requires |tokens| <= n && forall k | 0 <= k < |tokens| :: IsToken(tokens[k])
    ensures TokensFrom(front + Join(tokens), |front|, true, n) == tokens
    decreases |tokens|
  {
    hide TokenStart, TokenEnd, IsToken, TokensFrom;
    var t, i := front + Join(tokens), |front|;
    if tokens == [] {
      AtEnd(t, n);
    } else {
      var x := tokens[0];
      var back := if |tokens| == 1 then "" else " " + Join(tokens[1..]);
      assert t == front + x + back;
      TokenIsRead(front, x, back);
      OneStep(t, i, n);
      var e := i + |x|;
      assert t[i..e] == x;
      if |tokens| > 1 {
        var front' := front + x + " ";
        assert t == front' + Join(tokens[1..]);
        JoinIsReadBack(front', tokens[1..], n - 1);
        assert t[e] == ' ';
        BlankIsSkipped(t, e, n - 1);
      } else {
        assert tokens == [x];
      }
    }
  }

  lemma AtEnd(t: string, n: nat)
    ensures TokensFrom(t, |t|, true, n) == []
  {
  }

  lemma OneStep(t: string, i: nat, n: nat)
    requires i <= |t| && 0 < n && TokenStart(t, i) < |t|
    ensures var s := TokenStart(t, i);
            var e := TokenEnd(t, s, true);
      TokensFrom(t, i, true, n) == [t[s..e]] + (if e == |t| then [] else TokensFrom(t, e, true, n - 1))
  {
    hide TokensFrom, TokenStart, TokenEnd;
    TokensStep(t, i, true, n);
  }

  lemma TokenIsRead(front: string, x: string, back: string)
    requires IsToken(x) && (back == "" || back[0] == ' ')
    ensures var t, i := front + x + back, |front|;
      && TokenStart(t, i) == i && i < |t|
      && TokenEnd(t, i, true) == i + |x|
  {
    var t, i := front + x + back, |front|;
    var e := i + |x|;
    forall k | i <= k < e
      ensures !Ends(t, k, true)
    {
      assert t[k] == x[k - i] && (k + 1 < e ==> t[k + 1] == x[k + 1 - i]) && (k + 1 == e && e < |t| ==> t[e] == ' ');
      assert !IsBlank(x[k - i]) && !StartsComment(x, k - i);
    }
    assert !Ends(t, i, true);
    assert SkipBlanks(t, i) == i;
    assert e < |t| ==> t[e] == ' ';
    TokenEndIs(t, i, e, true);
  }

  lemma {:induction false} TokenEndIs(t: string, i: nat, e: nat, ignoreQuotes: bool)
    requires i <= e <= |t| && Ends(t, e, ignoreQuotes) && forall k | i <= k < e :: !Ends(t, k, ignoreQuotes)
    ensures TokenEnd(t, i, ignoreQuotes) == e
    decreases e - i
  {
    if i < e {
      TokenEndIs(t, i + 1, e, ignoreQuotes);
    }
  }

  lemma BlankIsSkipped(t: string, e: nat, n: nat)
    requires e < |t| && IsBlank(t[e])
    ensures TokensFrom(t, e, true, n) == TokensFrom(t, e + 1, true, n)
  {
    assert TokenStart(t, e) == TokenStart(t, e + 1);
  }

  /**
   * Ignoring quotes, a command line and its arguments joined with spaces have the same tokens: what Cmd_ArgsFrom
   * gives can be tokenized again. Nothing is cut on the way: the arguments are never longer than the line.
   */
  lemma ArgsTokenizeToThemselves(text: string)
    ensures var tokens := Tokens(text, true);
      && ArgsFold(tokens, 0, "") == Join(tokens)
      && Tokens(ArgsFold(tokens, 0, ""), true) == tokens
  {
    hide TokensFrom;
    var t := Take(text, BIG_INFO_STRING - 1);
    var tokens := Tokens(text, true);
    TokensAreTokens(t, 0, MAX_STRING_TOKENS);
    JoinIsNotLonger(t, 0, MAX_STRING_TOKENS);
    assert tokens[0..] == tokens && "" + Join(tokens) == Join(tokens);
    ArgsAreJoined(tokens, 0, "");
    JoinIsReadBack("", tokens, MAX_STRING_TOKENS);
  }
}
