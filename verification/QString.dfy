// C strings in buffers: qcommon/q_string.cpp. A buffer is an array of characters; its string is what comes before
// the first NUL.

module QString {
  import opened Wrappers

  const BIG_INFO_STRING := 8192
  const NUL: char := '\0'
  const COLOR_ESCAPE: char := '^'

  // ---------- C strings ----------

  ghost predicate Terminated(buffer: seq<char>) { NUL in buffer }

  /** A string that a C program can hold: no NUL inside. */
  ghost predicate IsCString(s: string) { NUL !in s }

  function StrLen(buffer: seq<char>): (n: nat)
    requires Terminated(buffer)
    ensures n < |buffer| && buffer[n] == NUL
    ensures forall i | 0 <= i < n :: buffer[i] != NUL
  {
    if buffer[0] == NUL then 0 else 1 + StrLen(buffer[1..])
  }

  /** The string in a buffer. */
  function CStr(buffer: seq<char>): (s: string)
    requires Terminated(buffer)
    ensures IsCString(s)
  {
    buffer[..StrLen(buffer)]
  }

  lemma StrLenIs(buffer: seq<char>, n: nat)
    requires n < |buffer| && buffer[n] == NUL && forall i | 0 <= i < n :: buffer[i] != NUL
    ensures Terminated(buffer) && StrLen(buffer) == n && CStr(buffer) == buffer[..n]
  {
  }

  lemma CStrIs(buffer: seq<char>, s: string)
    requires IsCString(s) && |s| < |buffer| && buffer[..|s|] == s && buffer[|s|] == NUL
    ensures Terminated(buffer) && CStr(buffer) == s
  {
    assert forall i | 0 <= i < |s| :: buffer[i] == s[i];
    StrLenIs(buffer, |s|);
  }

  function Take(s: string, n: nat): string { if n < |s| then s[..n] else s }

  /** Copies at most destsize - 1 characters, and pads with NUL. */
  method Q_strncpyz(dest: array<char>, src: string)
    requires 0 < dest.Length && IsCString(src)
    modifies dest
    ensures Terminated(dest[..]) && CStr(dest[..]) == Take(src, dest.Length - 1)
  {
    var i := 0;
    while i < dest.Length - 1
      invariant 0 <= i <= dest.Length - 1
      invariant forall k | 0 <= k < i :: dest[k] == if k < |src| then src[k] else NUL
    {
      dest[i] := if i < |src| then src[i] else NUL;
      i := i + 1;
    }
    dest[dest.Length - 1] := NUL;
    CStrIs(dest[..], Take(src, dest.Length - 1));
  }

  /** Appends the whole of src, or nothing when it does not fit. */
  method Q_strcat(dest: array<char>, src: string)
    requires Terminated(dest[..]) && IsCString(src)
    modifies dest
    ensures Terminated(dest[..])
    ensures CStr(dest[..]) ==
      if |old(CStr(dest[..]))| + |src| < dest.Length then old(CStr(dest[..])) + src else old(CStr(dest[..]))
  {
    var l1 := StrLen(dest[..]);
    ghost var before := CStr(dest[..]);
    if |src| + 1 > dest.Length - l1 {
      return;
    }
    var i := 0;
    while i < dest.Length - l1
      invariant 0 <= i <= dest.Length - l1
      invariant forall k | 0 <= k < l1 :: dest[k] == before[k]
      invariant forall k | l1 <= k < l1 + i :: dest[k] == if k - l1 < |src| then src[k - l1] else NUL
    {
      dest[l1 + i] := if i < |src| then src[i] else NUL;
      i := i + 1;
    }
    assert dest[..][..l1 + |src|] == before + src;
    assert dest[l1 + |src|] == NUL;
    CStrIs(dest[..], before + src);
  }

  // ---------- Numbers ----------

  function Digit(d: nat): char
    requires d < 10
  {
    '0' + d as char
  }

  function DigitValue(c: char): nat
    requires IsDigit(c)
  {
    c as int - '0' as int
  }

  /** "%i" of a number that is not negative. */
  function Decimal(n: nat): (s: string)
    ensures s != "" && forall c | c in s :: IsDigit(c)
  {
    if n < 10 then [Digit(n)] else Decimal(n / 10) + [Digit(n % 10)]
  }

  function DecimalValue(s: string): nat
    requires forall c | c in s :: IsDigit(c)
  {
    if s == "" then 0
    else
      assert IsDigit(s[|s| - 1]);
      10 * DecimalValue(s[..|s| - 1]) + DigitValue(s[|s| - 1])
  }

  lemma {:induction false} DecimalRoundTrip(n: nat)
    ensures DecimalValue(Decimal(n)) == n
  {
    if n >= 10 {
      DecimalRoundTrip(n / 10);
      assert Decimal(n)[..|Decimal(n)| - 1] == Decimal(n / 10);
    }
  }

  // ---------- Comparison without case ----------

  function Upper(c: char): char { if 'a' <= c <= 'z' then c - ('a' - 'A') else c }

  function UpperString(s: string): (r: string)
    ensures |r| == |s| && forall i | 0 <= i < |s| :: r[i] == Upper(s[i])
  {
    seq(|s|, i requires 0 <= i < |s| => Upper(s[i]))
  }

  predicate EqualNoCase(a: string, b: string) { UpperString(a) == UpperString(b) }

  /** The character at i, the terminator included. */
  function CharAt(s: string, i: nat): char { if i < |s| then s[i] else NUL }

  /** char is signed. */
  function SignedCode(c: char): int { if c as int < 128 then c as int else c as int - 256 }

  /**
   * 0 when the two strings are equal without case up to n characters, otherwise the order of the first characters that
   * differ. A null pointer, None here, comes before any string and equals itself.
   */
  method Q_stricmpn(s1: Option<string>, s2: Option<string>, n: nat) returns (r: int)
    requires (s1.Some? ==> IsCString(s1.value)) && (s2.Some? ==> IsCString(s2.value))
    ensures s1.None? || s2.None? ==> r == (if s1.None? then 0 else 1) - (if s2.None? then 0 else 1)
    ensures s1.Some? && s2.Some? ==> ComparedAs(s1.value, s2.value, n, r)
  {
    if s1.None? {
      if s2.None? {
        return 0;
      }
      return -1;
    } else if s2.None? {
      return 1;
    }
    r := CompareStrings(s1.value, s2.value, n);
  }

  /** What the comparison of two strings says. */
  ghost predicate ComparedAs(s1: string, s2: string, n: nat, r: int) {
    && (r == 0 <==> EqualNoCase(Take(s1, n), Take(s2, n)))
    && (r != 0 ==> exists i | 0 <= i < n ::
          && EqualNoCase(Take(s1, i), Take(s2, i)) && Upper(CharAt(s1, i)) != Upper(CharAt(s2, i))
          && r == if SignedCode(Upper(CharAt(s1, i))) < SignedCode(Upper(CharAt(s2, i))) then -1 else 1)
  }

  /** The loop over the characters. */
  method CompareStrings(s1: string, s2: string, n: nat) returns (r: int)
    requires IsCString(s1) && IsCString(s2)
    ensures ComparedAs(s1, s2, n, r)
  {
    var i := 0;
    while true
      invariant 0 <= i <= n && i <= |s1| && i <= |s2|
      invariant forall k | 0 <= k < i :: Upper(s1[k]) == Upper(s2[k])
      decreases n - i
    {
      var c1, c2 := CharAt(s1, i), CharAt(s2, i);
      if i == n {
        return 0;
      }
      if c1 != c2 {
        c1, c2 := Upper(c1), Upper(c2);
        if c1 != c2 {
          assert EqualNoCase(Take(s1, i), Take(s2, i));
          DifferAt(s1, s2, n, i);
          return if SignedCode(c1) < SignedCode(c2) then -1 else 1;
        }
      }
      if c1 == NUL {
        return 0;
      }
      i := i + 1;
    }
  }

  lemma DifferAt(s1: string, s2: string, n: nat, i: nat)
    requires i < n && i <= |s1| && i <= |s2| && Upper(CharAt(s1, i)) != Upper(CharAt(s2, i))
    ensures !EqualNoCase(Take(s1, n), Take(s2, n))
  {
    var a, b := Take(s1, n), Take(s2, n);
    if |a| == |b| {
      assert i < |a|;
      assert UpperString(a)[i] != UpperString(b)[i];
    }
  }

  // ---------- Colour codes ----------

  predicate IsDigit(c: char) { '0' <= c <= '9' }

  /** A colour code, '^' and a digit, at i. */
  predicate ColorAt(s: string, i: int) {
    0 <= i && i + 1 < |s| && s[i] == COLOR_ESCAPE && IsDigit(s[i + 1])
  }

  ghost predicate HasColor(s: string) { exists i :: ColorAt(s, i) }

  /** s with the code at i removed: the rewriting rule. */
  function Without(s: string, i: int): string
    requires ColorAt(s, i)
  {
    s[..i] + s[i + 2..]
  }

  /** One pass, left to right. */
  function Pass(s: string): (r: string)
    ensures |r| <= |s|
    ensures forall c | c in r :: c in s
  {
    if s == [] then []
    else if ColorAt(s, 0) then Pass(s[2..])
    else [s[0]] + Pass(s[1..])
  }

  /** A single reading with a stack: a digit on top of an escape removes both. */
  function Feed(stack: string, s: string): string
    decreases |s|
  {
    if s == [] then stack
    else if stack != [] && stack[|stack| - 1] == COLOR_ESCAPE && IsDigit(s[0]) then Feed(stack[..|stack| - 1], s[1..])
    else Feed(stack + [s[0]], s[1..])
  }

  function Stripped(s: string): string { Feed([], s) }

  lemma {:induction false} FeedAppend(stack: string, a: string, b: string)
    ensures Feed(stack, a + b) == Feed(Feed(stack, a), b)
    decreases |a|
  {
    if a == [] {
      assert a + b == b;
    } else {
      assert (a + b)[1..] == a[1..] + b;
      if stack != [] && stack[|stack| - 1] == COLOR_ESCAPE && IsDigit(a[0]) {
        FeedAppend(stack[..|stack| - 1], a[1..], b);
      } else {
        FeedAppend(stack + [a[0]], a[1..], b);
      }
    }
  }

  /** A code changes nothing to what the stack ends with, whatever is under it. */
  lemma FeedColor(stack: string, s: string)
    requires ColorAt(s, 0)
    ensures Feed(stack, s) == Feed(stack, s[2..])
  {
    assert s[1..][1..] == s[2..];
    assert (stack + [s[0]])[..|stack|] == stack;
  }

  /** Removing any code, anywhere, keeps the stripped string. */
  lemma RewritingKeepsStripped(s: string, i: int)
    requires ColorAt(s, i)
    ensures Stripped(Without(s, i)) == Stripped(s)
  {
    assert s == s[..i] + s[i..];
    FeedAppend([], s[..i], s[i..]);
    FeedColor(Feed([], s[..i]), s[i..]);
    assert s[i..][2..] == s[i + 2..];
    FeedAppend([], s[..i], s[i + 2..]);
  }

  lemma {:induction false} PassKeepsFeed(stack: string, s: string)
    ensures Feed(stack, Pass(s)) == Feed(stack, s)
    decreases |s|
  {
    if s != [] {
      if ColorAt(s, 0) {
        FeedColor(stack, s);
        PassKeepsFeed(stack, s[2..]);
      } else {
        assert ([s[0]] + Pass(s[1..]))[1..] == Pass(s[1..]);
        if stack != [] && stack[|stack| - 1] == COLOR_ESCAPE && IsDigit(s[0]) {
          PassKeepsFeed(stack[..|stack| - 1], s[1..]);
        } else {
          PassKeepsFeed(stack + [s[0]], s[1..]);
        }
      }
    }
  }

  /** A pass changes nothing if and only if there is no code. */
  lemma {:induction false} PassFindsColors(s: string)
    ensures if HasColor(s) then |Pass(s)| < |s| else Pass(s) == s
    decreases |s|
  {
    if s != [] && !ColorAt(s, 0) {
      PassFindsColors(s[1..]);
      if HasColor(s) {
        var i :| ColorAt(s, i);
        assert ColorAt(s[1..], i - 1);
      } else {
        forall i
          ensures !ColorAt(s[1..], i)
        {
          assert !ColorAt(s, i + 1);
        }
      }
    }
  }

  lemma {:induction false} NoColorIsStripped(stack: string, s: string)
    requires !HasColor(stack + s)
    ensures Feed(stack, s) == stack + s
    decreases |s|
  {
    if s == [] {
      assert stack + s == stack;
    } else {
      assert !ColorAt(stack + s, |stack| - 1);
      assert stack + s == (stack + [s[0]]) + s[1..];
      NoColorIsStripped(stack + [s[0]], s[1..]);
    }
  }

  lemma {:induction false} FeedHasNoColor(stack: string, s: string)
    requires !HasColor(stack)
    ensures !HasColor(Feed(stack, s))
    decreases |s|
  {
    if s != [] {
      if stack != [] && stack[|stack| - 1] == COLOR_ESCAPE && IsDigit(s[0]) {
        var popped := stack[..|stack| - 1];
        assert forall i | ColorAt(popped, i) :: ColorAt(stack, i);
        FeedHasNoColor(popped, s[1..]);
      } else {
        var pushed := stack + [s[0]];
        assert forall i | ColorAt(pushed, i) :: ColorAt(stack, i);
        FeedHasNoColor(pushed, s[1..]);
      }
    }
  }

  lemma ColorsAre(s: string)
    ensures HasColor(s) <==> exists i | 0 <= i < |s| - 1 :: s[i] == '^' && '0' <= s[i + 1] <= '9'
  {
    if i :| 0 <= i < |s| - 1 && s[i] == '^' && '0' <= s[i + 1] <= '9' {
      assert ColorAt(s, i);
    }
  }

  /** Stripping leaves no code, does nothing to a string without one, and doing it again changes nothing. */
  lemma StrippedIsNormal(s: string)
    ensures !HasColor(Stripped(s))
    ensures !HasColor(s) ==> Stripped(s) == s
    ensures Stripped(Stripped(s)) == Stripped(s)
    ensures forall i | 0 <= i < |Stripped(s)| - 1 && Stripped(s)[i] == '^' :: !('0' <= Stripped(s)[i + 1] <= '9')
    ensures (forall i | 0 <= i < |s| - 1 && s[i] == '^' :: !('0' <= s[i + 1] <= '9')) ==> Stripped(s) == s
  {
    hide Feed;
    ColorsAre(s);
    ColorsAre(Stripped(s));
    FeedHasNoColor([], s);
    assert [] + Stripped(s) == Stripped(s);
    NoColorIsStripped([], Stripped(s));
    if !HasColor(s) {
      assert [] + s == s;
      NoColorIsStripped([], s);
    }
  }

  ghost predicate Rewrites(s: string, t: string) { exists i :: ColorAt(s, i) && t == Without(s, i) }

  /** Some way to remove codes one at a time. */
  ghost predicate IsRewriting(steps: seq<string>) {
    && steps != []
    && (|steps| > 1 ==> Rewrites(steps[0], steps[1]) && IsRewriting(steps[1..]))
  }

  /** Whatever codes are removed, and in whatever order, what is left when there is none is the stripped string. */
  lemma {:induction false} OrderDoesNotMatter(steps: seq<string>)
    requires IsRewriting(steps) && !HasColor(steps[|steps| - 1])
    ensures steps[|steps| - 1] == Stripped(steps[0])
    decreases |steps|
  {
    if |steps| == 1 {
      StrippedIsNormal(steps[0]);
    } else {
      var i :| ColorAt(steps[0], i) && steps[1] == Without(steps[0], i);
      RewritingKeepsStripped(steps[0], i);
      OrderDoesNotMatter(steps[1..]);
    }
  }

  /** And that string is reached by removing codes. */
  lemma {:induction false} StrippedIsReached(s: string) returns (steps: seq<string>)
    ensures IsRewriting(steps) && steps[0] == s && steps[|steps| - 1] == Stripped(s)
    decreases |s|
  {
    hide Feed, Stripped;
    if HasColor(s) {
      var i :| ColorAt(s, i);
      var t := Without(s, i);
      RewritingKeepsStripped(s, i);
      assert Rewrites(s, t);
      var rest := StrippedIsReached(t);
      steps := [s] + rest;
      assert steps[1..] == rest;
    } else {
      StrippedIsNormal(s);
      steps := [s];
    }
  }

  lemma {:induction false} FeedIsShorter(stack: string, s: string)
    ensures |Feed(stack, s)| <= |stack| + |s|
    ensures forall c | c in Feed(stack, s) :: c in stack || c in s
    decreases |s|
  {
    if s != [] {
      if stack != [] && stack[|stack| - 1] == COLOR_ESCAPE && IsDigit(s[0]) {
        FeedIsShorter(stack[..|stack| - 1], s[1..]);
      } else {
        FeedIsShorter(stack + [s[0]], s[1..]);
      }
    }
  }

  /** One pass over the buffer, with a read and a write index. Returns whether it removed something. */
  method StripPass(text: array<char>) returns (removed: bool)
    requires Terminated(text[..])
    modifies text
    ensures Terminated(text[..]) && CStr(text[..]) == Pass(old(CStr(text[..])))
    ensures removed <==> HasColor(old(CStr(text[..])))
    ensures forall i | old(StrLen(text[..])) < i < text.Length :: text[i] == old(text[i])
  {
    hide Pass, CStr, StrLen, HasColor;
    ghost var s := CStr(text[..]);
    ghost var n := |s|;
    BufferOf(text[..]);
    var read, write := 0, 0;
    removed := false;
    while text[read] != NUL
      invariant 0 <= write <= read <= n
      invariant forall i | read <= i < text.Length :: text[i] == old(text[i])
      invariant forall i | 0 <= i < write :: text[i] != NUL
      invariant text[..write] + Pass(s[read..]) == Pass(s)
      invariant removed <==> write < read
      decreases n - read
    {
      assert s[read] == text[read] && (read + 1 < n ==> s[read + 1] == text[read + 1]);
      PassStep(s, read);
      if text[read] == COLOR_ESCAPE && IsDigit(text[read + 1]) {
        removed := true;
        read := read + 2;
      } else {
        ghost var before := text[..write];
        if write != read {
          text[write] := text[read];
        }
        assert text[..write + 1] == before + [s[read]];
        assert before + ([s[read]] + Pass(s[read + 1..])) == (before + [s[read]]) + Pass(s[read + 1..]);
        write := write + 1;
        read := read + 1;
      }
    }
    PassStep(s, n);
    if write < read {
      text[write] := NUL;
    }
    StrLenIs(text[..], write);
    PassFindsColors(s);
  }

  lemma BufferOf(buffer: seq<char>)
    requires Terminated(buffer)
    ensures |CStr(buffer)| == StrLen(buffer) < |buffer| && buffer[StrLen(buffer)] == NUL
    ensures forall i | 0 <= i < |CStr(buffer)| :: CStr(buffer)[i] == buffer[i] && buffer[i] != NUL
  {
  }

  /** What a pass does at position i of s. */
  lemma PassStep(s: string, i: nat)
    requires i <= |s|
    ensures s[0..] == s
    ensures if i == |s| then Pass(s[i..]) == []
      else if ColorAt(s, i) then Pass(s[i..]) == Pass(s[i + 2..])
      else Pass(s[i..]) == [s[i]] + Pass(s[i + 1..])
  {
    if i < |s| {
      assert s[i..][1..] == s[i + 1..];
      if ColorAt(s, i) {
        assert ColorAt(s[i..], 0) && s[i..][2..] == s[i + 2..];
      } else {
        assert !ColorAt(s[i..], 0);
      }
    }
  }

  /** Passes until one removes nothing. */
  method Q_StripColor(text: array<char>)
    requires Terminated(text[..])
    modifies text
    ensures Terminated(text[..]) && CStr(text[..]) == Stripped(old(CStr(text[..])))
    ensures forall i | old(StrLen(text[..])) < i < text.Length :: text[i] == old(text[i])
  {
    var doPass := true;
    ghost var n := StrLen(text[..]);
    while doPass
      invariant Terminated(text[..]) && StrLen(text[..]) <= n
      invariant Stripped(CStr(text[..])) == Stripped(old(CStr(text[..])))
      invariant !doPass ==> !HasColor(CStr(text[..]))
      invariant forall i | n < i < text.Length :: text[i] == old(text[i])
      decreases StrLen(text[..]), doPass
    {
      ghost var s := CStr(text[..]);
      PassKeepsFeed([], s);
      PassFindsColors(s);
      doPass := StripPass(text);
    }
    StrippedIsNormal(CStr(text[..]));
  }

  /** Text with no escape in it, after something that it cannot complete, is kept. */
  lemma {:induction false} FeedPlain(stack: string, s: string)
    requires COLOR_ESCAPE !in s
    requires stack != [] && s != [] && stack[|stack| - 1] == COLOR_ESCAPE ==> !IsDigit(s[0])
    ensures Feed(stack, s) == stack + s
    decreases |s|
  {
    if s == [] {
      assert stack + s == stack;
    } else {
      FeedPlain(stack + [s[0]], s[1..]);
      assert stack + [s[0]] + s[1..] == stack + s;
    }
  }

  lemma UpperAppend(a: string, b: string)
    ensures UpperString(a + b) == UpperString(a) + UpperString(b)
  {
  }
}
