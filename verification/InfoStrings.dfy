// Info strings, \key\value\key\value...: qcommon/q_shared.cpp, against the list of pairs that they hold.

module InfoStrings {
  import opened Wrappers
  import opened QString

  const SLASH: char := '\\'
  const MAX_INFO_STRING := 1024

  // ---------- Parsing ----------

  /** The next backslash from i on, or the end. */
  function SlashFrom(s: string, i: nat): (j: nat)
    requires i <= |s|
    ensures i <= j <= |s|
    ensures forall k | i <= k < j :: s[k] != SLASH
    ensures j < |s| ==> s[j] == SLASH
    decreases |s| - i
  {
    if i == |s| || s[i] == SLASH then i else SlashFrom(s, i + 1)
  }

  lemma SlashFromIs(s: string, i: nat, j: nat)
    requires i <= j <= |s| && (forall k | i <= k < j :: s[k] != SLASH) && (j < |s| ==> s[j] == SLASH)
    ensures SlashFrom(s, i) == j
  {
  }

  datatype Pair = Pair(key: string, value: string)
  datatype Parsed = Parsed(pair: Pair, end: nat)

  /** The pair at i, with or without its leading backslash; none when there is no value. */
  function ParseAt(s: string, i: nat): (r: Option<Parsed>)
    requires i <= |s|
    ensures r.Some? ==> i < r.value.end <= |s| && (r.value.end < |s| ==> s[r.value.end] == SLASH)
  {
    var start := if i < |s| && s[i] == SLASH then i + 1 else i;
    var middle := SlashFrom(s, start);
    if middle == |s| then None
    else
      var end := SlashFrom(s, middle + 1);
      Some(Parsed(Pair(s[start..middle], s[middle + 1..end]), end))
  }

  function PairsFrom(s: string, i: nat): seq<Pair>
    requires i <= |s|
    decreases |s| - i
  {
    match ParseAt(s, i)
    case None => []
    case Some(p) => [p.pair] + PairsFrom(s, p.end)
  }

  /** The list that an info string stands for. */
  function Pairs(s: string): seq<Pair> { PairsFrom(s, 0) }

  /** The value of the first pair with that key, without case. */
  function Lookup(pairs: seq<Pair>, key: string): string {
    if pairs == [] then ""
    else if EqualNoCase(pairs[0].key, key) then pairs[0].value
    else Lookup(pairs[1..], key)
  }

  /** A lookup finds the first pair with the key in any spelling, and nothing when there is none. */
  lemma {:induction false} LookupIsFirst(pairs: seq<Pair>, key: string)
    ensures if forall i | 0 <= i < |pairs| :: !EqualNoCase(pairs[i].key, key) then Lookup(pairs, key) == ""
            else exists i | 0 <= i < |pairs| :: EqualNoCase(pairs[i].key, key) && Lookup(pairs, key) == pairs[i].value
                                               && forall j | 0 <= j < i :: !EqualNoCase(pairs[j].key, key)
  {
    hide EqualNoCase;
    if pairs != [] && !EqualNoCase(pairs[0].key, key) {
      var rest := pairs[1..];
      LookupIsFirst(rest, key);
      assert forall i | 0 < i < |pairs| :: pairs[i] == rest[i - 1];
      if i :| 0 <= i < |pairs| && EqualNoCase(pairs[i].key, key) {
        assert EqualNoCase(rest[i - 1].key, key);
        var k :| 0 <= k < |rest| && EqualNoCase(rest[k].key, key) && Lookup(rest, key) == rest[k].value
                 && forall j | 0 <= j < k :: !EqualNoCase(rest[j].key, key);
        assert pairs[k + 1] == rest[k];
      } else {
        assert forall i | 0 <= i < |rest| :: rest[i] == pairs[i + 1];
      }
    }
  }

  /** Without the first pair with exactly that key. */
  function RemoveFirst(pairs: seq<Pair>, key: string): seq<Pair> {
    if pairs == [] then []
    else if pairs[0].key == key then pairs[1..]
    else [pairs[0]] + RemoveFirst(pairs[1..], key)
  }

  function RemoveFrom(s: string, i: nat, key: string): (r: string)
    requires i <= |s|
    ensures |r| <= |s|
    decreases |s| - i
  {
    match ParseAt(s, i)
    case None => s
    case Some(p) =>
      if p.pair.key == key then s[..i] + s[p.end..] else RemoveFrom(s, p.end, key)
  }

  // ---------- The functions of the source ----------

  /** The loops that copy a key or a value up to the next backslash. */
  method CopyWord(s: string, i: nat) returns (word: string, j: nat)
    requires i <= |s|
    ensures j == SlashFrom(s, i) && word == s[i..j]
  {
    word, j := "", i;
    while j < |s| && s[j] != SLASH
      invariant i <= j <= |s| && word == s[i..j]
      invariant forall k | i <= k < j :: s[k] != SLASH
    {
      word := word + [s[j]];
      j := j + 1;
    }
    SlashFromIs(s, i, j);
  }

  /** The body of the three loops over an info string: skip a leading backslash, copy a key, copy a value. */
  method ReadPair(s: string, i: nat) returns (r: Option<Parsed>)
    requires i <= |s|
    ensures r == ParseAt(s, i)
  {
    var start := i;
    if start < |s| && s[start] == SLASH {
      start := start + 1;
    }
    var pkey, middle := CopyWord(s, start);
    if middle == |s| {
      return None;
    }
    var value, end := CopyWord(s, middle + 1);
    return Some(Parsed(Pair(pkey, value), end));
  }

  /** At the end, or at a key without a value, true and nothing; false, and no step, at an empty key. */
  method Info_NextPair(s: string, head: nat) returns (ok: bool, next: nat, key: string, value: string)
    requires head <= |s|
    ensures match ParseAt(s, head)
            case None => ok && next == |s| && key == "" && value == ""
            case Some(p) =>
              if p.pair.key == "" then !ok && next == head && key == "" && value == ""
              else ok && next == p.end && Pair(key, value) == p.pair
  {
    var parsed := ReadPair(s, head);
    if parsed.None? {
      return true, |s|, "", "";
    }
    if parsed.value.pair.key == "" {
      return false, head, "", "";
    }
    return true, parsed.value.end, parsed.value.pair.key, parsed.value.pair.value;
  }

  /** A null pointer (None) has no value. None when the string is oversize: Com_Error does not return. */
  method Info_ValueForKey(s: Option<string>, key: Option<string>) returns (value: Option<string>)
    requires (s.Some? ==> IsCString(s.value)) && (key.Some? ==> IsCString(key.value))
    ensures value ==
      if s.None? || key.None? then Some("")
      else if |s.value| >= BIG_INFO_STRING then None
      else Some(Lookup(Pairs(s.value), key.value))
  {
    if s.None? || key.None? {
      return Some("");
    }
    if |s.value| >= BIG_INFO_STRING {
      return None;
    }
    var found := FindValue(s.value, key.value);
    return Some(found);
  }

  /** The loop over the pairs. */
  method FindValue(s: string, key: string) returns (value: string)
    ensures value == Lookup(Pairs(s), key)
  {
    hide ParseAt, EqualNoCase;
    var i := 0;
    while true
      invariant i <= |s|
      invariant Lookup(Pairs(s), key) == Lookup(PairsFrom(s, i), key)
      decreases |s| - i
    {
      var p := ReadPair(s, i);
      if p.None? {
        return "";
      }
      if EqualNoCase(p.value.pair.key, key) {
        return p.value.pair.value;
      }
      assert PairsFrom(s, i)[1..] == PairsFrom(s, p.value.end);
      i := p.value.end;
    }
  }

  /** In place. False when the string is oversize: Com_Error does not return. */
  method Info_RemoveKey(s: array<char>, key: string) returns (ok: bool)
    requires Terminated(s[..]) && IsCString(key)
    modifies s
    ensures Terminated(s[..])
    ensures ok <==> |old(CStr(s[..]))| < MAX_INFO_STRING
    ensures CStr(s[..]) == if ok then RemoveFrom(old(CStr(s[..])), 0, key) else old(CStr(s[..]))
  {
    hide ParseAt, CStr, StrLen;
    BufferOf(s[..]);
    var text := CStr(s[..]);
    if |text| >= MAX_INFO_STRING {
      return false;
    }
    if SLASH in key {
      NoSuchKey(text, 0, key);
      return true;
    }
    var i := 0;
    while true
      invariant i <= |text| && s[..] == old(s[..])
      invariant RemoveFrom(text, 0, key) == RemoveFrom(text, i, key)
      decreases |text| - i
    {
      var p := ReadPair(text, i);
      if p.None? {
        return true;
      }
      if p.value.pair.key == key {
        MoveDown(s, i, p.value.end);
        return true;
      }
      i := p.value.end;
    }
  }

  /** memmove(s + start, s + end, strlen(s + end) + 1). */
  method MoveDown(s: array<char>, start: nat, end: nat)
    requires Terminated(s[..]) && start <= end <= |CStr(s[..])|
    modifies s
    ensures Terminated(s[..])
    ensures CStr(s[..]) == old(CStr(s[..]))[..start] + old(CStr(s[..]))[end..]
  {
    hide CStr, StrLen;
    ghost var before := s[..];
    ghost var text := CStr(before);
    BufferOf(before);
    var length := StrLen(s[..]) - end + 1;
    assert before[..|text|] == text && IsCString(text);
    MoveBytes(s, start, end, length);
    MovedText(before, s[..], text, start, end);
  }

  /** memmove to an earlier place. */
  method MoveBytes(s: array<char>, start: nat, end: nat, length: nat)
    requires start <= end && end + length <= s.Length
    modifies s
    ensures s[..start] == old(s[..start]) && s[start..start + length] == old(s[end..end + length])
  {
    for k := 0 to length
      invariant s[..start] == old(s[..start]) && s[start..start + k] == old(s[end..end + k])
      invariant forall x | start + k <= x < s.Length :: s[x] == old(s[x])
    {
      s[start + k] := s[end + k];
      assert s[start..start + k + 1] == s[start..start + k] + [s[start + k]];
    }
  }

  lemma MovedText(before: seq<char>, after: seq<char>, text: string, start: nat, end: nat)
    requires |before| == |after| && start <= end <= |text| < |before|
    requires before[..|text|] == text && before[|text|] == NUL && IsCString(text)
    requires after[..start] == before[..start]
    requires after[start..start + |text| - end + 1] == before[end..|text| + 1]
    ensures Terminated(after) && CStr(after) == text[..start] + text[end..]
  {
    hide CStr, StrLen;
    var result, n := text[..start] + text[end..], start + |text| - end;
    assert |result| == n;
    assert after[..n + 1] == after[..start] + after[start..n + 1];
    assert after[..n + 1] == result + [NUL];
    assert after[..n] == (result + [NUL])[..n] == result;
    assert after[n] == after[..n + 1][n] == (result + [NUL])[n] == NUL;
    CStrIs(after, result);
  }

  lemma {:induction false} NoSuchKey(s: string, i: nat, key: string)
    requires i <= |s| && SLASH in key
    ensures RemoveFrom(s, i, key) == s
    decreases |s| - i
  {
    var p := ParseAt(s, i);
    if p.Some? {
      assert SLASH !in p.value.pair.key;
      NoSuchKey(s, p.value.end, key);
    }
  }

  const BLACKLIST := [SLASH, ';', '"']

  predicate Forbidden(key: string, value: string) {
    exists c | c in BLACKLIST :: c in key || c in value
  }

  /** Com_sprintf in a buffer of 1024: what does not fit is cut. */
  function NewPair(key: string, value: string): string {
    Take([SLASH] + key + [SLASH] + value, MAX_INFO_STRING - 1)
  }

  /** The string after Info_SetValueForKey, and what it returns; none when it does not return. */
  function SetOutcome(s: string, key: string, value: string): (string, Option<bool>) {
    if |s| >= MAX_INFO_STRING then (s, None)
    else if Forbidden(key, value) then (s, Some(false))
    else
      var rest := RemoveFrom(s, 0, key);
      if value == "" then (rest, Some(true))
      else if |NewPair(key, value)| + |rest| >= MAX_INFO_STRING then (rest, Some(false))
      else (NewPair(key, value) + rest, Some(true))
  }

  method StrCpy(s: array<char>, source: string)
    requires IsCString(source) && |source| < s.Length
    modifies s
    ensures Terminated(s[..]) && CStr(s[..]) == source
  {
    for i := 0 to |source|
      invariant forall k | 0 <= k < i :: s[k] == source[k]
    {
      s[i] := source[i];
    }
    s[|source|] := NUL;
    CStrIs(s[..], source);
  }

  /** In a buffer of at least 1024 characters. */
  method Info_SetValueForKey(s: array<char>, key: string, value: string) returns (ok: Option<bool>)
    requires Terminated(s[..]) && MAX_INFO_STRING <= s.Length && IsCString(key) && IsCString(value)
    modifies s
    ensures Terminated(s[..])
    ensures (CStr(s[..]), ok) == SetOutcome(old(CStr(s[..])), key, value)
  {
    hide CStr, StrLen, RemoveFrom;
    BufferOf(s[..]);
    if StrLen(s[..]) >= MAX_INFO_STRING {
      return None;
    }
    var i := 0;
    while i < |BLACKLIST|
      invariant 0 <= i <= |BLACKLIST|
      invariant forall k | 0 <= k < i :: BLACKLIST[k] !in key && BLACKLIST[k] !in value
    {
      if BLACKLIST[i] in key || BLACKLIST[i] in value {
        assert BLACKLIST[i] in BLACKLIST;
        return Some(false);
      }
      i := i + 1;
    }
    assert !Forbidden(key, value);
    var removed := Info_RemoveKey(s, key);
    if value == "" {
      return Some(true);
    }
    var newi := NewPair(key, value);
    var rest := CStr(s[..]);
    if |newi| + |rest| >= MAX_INFO_STRING {
      return Some(false);
    }
    StrCpy(s, newi + rest);
    return Some(true);
  }

  // ---------- An info string is its list of pairs ----------

  /** Every info string in use: empty, or starting with a backslash. */
  predicate WellStarted(s: string) { s == "" || s[0] == SLASH }

  /** How to see that there is a pair at i. */
  lemma ParseAtIs(s: string, i: nat, middle: nat, end: nat)
    requires i <= |s| && middle < end <= |s| && s[middle] == SLASH
    requires var start := if i < |s| && s[i] == SLASH then i + 1 else i;
      start <= middle && forall k | start <= k < middle :: s[k] != SLASH
    requires forall k | middle < k < end :: s[k] != SLASH
    requires end < |s| ==> s[end] == SLASH
    ensures var start := if i < |s| && s[i] == SLASH then i + 1 else i;
      ParseAt(s, i) == Some(Parsed(Pair(s[start..middle], s[middle + 1..end]), end))
  {
    hide SlashFrom;
    SlashFromIs(s, if i < |s| && s[i] == SLASH then i + 1 else i, middle);
    SlashFromIs(s, middle + 1, end);
  }

  lemma SlashFromShift(a: string, b: string, i: nat)
    requires i <= |b|
    ensures SlashFrom(a + b, |a| + i) == |a| + SlashFrom(b, i)
  {
    var j := SlashFrom(b, i);
    assert forall k | i <= k < j :: (a + b)[|a| + k] == b[k];
    assert forall k | |a| + i <= k < |a| + j :: (a + b)[k] == b[k - |a|];
    SlashFromIs(a + b, |a| + i, |a| + j);
  }

  lemma ParseAtShift(a: string, b: string, i: nat)
    requires i <= |b|
    ensures ParseAt(a + b, |a| + i) ==
      match ParseAt(b, i) case None => None case Some(p) => Some(Parsed(p.pair, |a| + p.end))
  {
    hide SlashFrom;
    var start := if i < |b| && b[i] == SLASH then i + 1 else i;
    SlashFromShift(a, b, start);
    var middle := SlashFrom(b, start);
    SliceShift(a, b, start, middle);
    if middle < |b| {
      SlashFromShift(a, b, middle + 1);
      SliceShift(a, b, middle + 1, SlashFrom(b, middle + 1));
    }
  }

  lemma SliceShift(a: string, b: string, i: nat, j: nat)
    requires i <= j <= |b|
    ensures (a + b)[|a| + i..|a| + j] == b[i..j]
  {
  }

  /** What is before a pair does not matter to it. */
  lemma {:induction false} PairsShift(a: string, b: string, i: nat)
    requires i <= |b|
    ensures PairsFrom(a + b, |a| + i) == PairsFrom(b, i)
    decreases |b| - i
  {
    hide ParseAt;
    ParseAtShift(a, b, i);
    var p := ParseAt(b, i);
    if p.Some? {
      PairsShift(a, b, p.value.end);
    }
  }

  /** What is after a pair does not matter to it, when it starts with a backslash. */
  lemma ParseAtPrefix(s: string, t: string, i: nat)
    requires i <= |s| && ParseAt(s, i).Some?
    requires var end := ParseAt(s, i).value.end;
      end <= |t| && t[..end] == s[..end] && (end < |t| ==> t[end] == SLASH)
    ensures ParseAt(t, i) == ParseAt(s, i)
  {
    hide SlashFrom;
    var end := ParseAt(s, i).value.end;
    var start := if s[i] == SLASH then i + 1 else i;
    var middle := SlashFrom(s, start);
    assert forall k | 0 <= k < end :: t[k] == s[k] by {
      assert forall k | 0 <= k < end :: t[..end][k] == s[..end][k];
    }
    assert t[start..middle] == s[start..middle] && t[middle + 1..end] == s[middle + 1..end];
    ParseAtIs(t, i, middle, end);
  }

  lemma {:induction false} RemoveKeepsStart(s: string, i: nat, key: string)
    requires i <= |s| && (i < |s| ==> s[i] == SLASH)
    ensures var r := RemoveFrom(s, i, key);
      i <= |r| && r[..i] == s[..i] && (i < |r| ==> r[i] == SLASH)
    decreases |s| - i
  {
    hide ParseAt;
    var p := ParseAt(s, i);
    if p.Some? && p.value.pair.key != key {
      RemoveKeepsStart(s, p.value.end, key);
      var r := RemoveFrom(s, p.value.end, key);
      assert r[..i] == r[..p.value.end][..i];
    }
  }

  /** Info_RemoveKey removes the first pair with that key from the list. */
  lemma {:induction false} RemovePairs(s: string, i: nat, key: string)
    requires i <= |s|
    ensures i <= |RemoveFrom(s, i, key)|
    ensures PairsFrom(RemoveFrom(s, i, key), i) == RemoveFirst(PairsFrom(s, i), key)
    decreases |s| - i
  {
    hide ParseAt;
    var p := ParseAt(s, i);
    if p.Some? {
      var end := p.value.end;
      assert PairsFrom(s, i)[1..] == PairsFrom(s, end);
      if p.value.pair.key == key {
        assert s == s[..end] + s[end..];
        PairsShift(s[..end], s[end..], 0);
        PairsShift(s[..i], s[end..], 0);
      } else {
        var r := RemoveFrom(s, end, key);
        RemoveKeepsStart(s, end, key);
        ParseAtPrefix(s, r, i);
        RemovePairs(s, end, key);
      }
    }
  }

  /** A new pair goes in front of the list. */
  lemma NewPairInFront(key: string, value: string, rest: string)
    requires SLASH !in key && SLASH !in value && WellStarted(rest)
    ensures Pairs([SLASH] + key + [SLASH] + value + rest) == [Pair(key, value)] + Pairs(rest)
  {
    hide SlashFrom;
    var front := [SLASH] + key + [SLASH] + value;
    var s := front + rest;
    FrontLayout(key, value, rest);
    ParseAtIs(s, 0, 1 + |key|, |front|);
    hide ParseAt;
    PairsShift(front, rest, 0);
  }

  /** A list of pairs as a text. */
  function Text(pairs: seq<Pair>): string {
    if pairs == [] then "" else [SLASH] + pairs[0].key + [SLASH] + pairs[0].value + Text(pairs[1..])
  }

  /** The text of a list without backslashes in its words reads back. */
  lemma {:induction false} TextIsReadBack(pairs: seq<Pair>)
    requires forall i | 0 <= i < |pairs| :: SLASH !in pairs[i].key && SLASH !in pairs[i].value
    ensures WellStarted(Text(pairs)) && Pairs(Text(pairs)) == pairs
  {
    hide Pairs;
    if pairs == [] {
      NoPairs();
    } else {
      TextIsReadBack(pairs[1..]);
      NewPairInFront(pairs[0].key, pairs[0].value, Text(pairs[1..]));
      assert pairs == [pairs[0]] + pairs[1..];
    }
  }

  /** The text that a pair was read from, or why there is none. */
  lemma ParsedText(s: string, i: nat)
    requires i < |s| && s[i] == SLASH
    ensures match ParseAt(s, i)
            case None => SLASH !in s[i + 1..]
            case Some(p) =>
              && s[i..p.end] == [SLASH] + p.pair.key + [SLASH] + p.pair.value
              && SLASH !in p.pair.key && SLASH !in p.pair.value
  {
    hide SlashFrom;
    var middle := SlashFrom(s, i + 1);
    if middle < |s| {
      var end := SlashFrom(s, middle + 1);
      assert s[i..end] == s[i..middle] + s[middle..end];
      assert s[i..middle] == [SLASH] + s[i + 1..middle] && s[middle..end] == [SLASH] + s[middle + 1..end];
    }
  }

  lemma NothingAtTheEnd(s: string)
    ensures PairsFrom(s, |s|) == []
  {
  }

  lemma FrontLayout(key: string, value: string, rest: string)
    requires SLASH !in key && SLASH !in value
    ensures var front := [SLASH] + key + [SLASH] + value;
            var s, middle, end := front + rest, 1 + |key|, |front|;
      && s[0] == SLASH && s[middle] == SLASH
      && s[1..middle] == key && s[middle + 1..end] == value
      && (forall k | 1 <= k < middle :: s[k] != SLASH)
      && (forall k | middle < k < end :: s[k] != SLASH)
      && (end < |s| ==> s[end] == rest[0])
  {
    var s := [SLASH] + key + [SLASH] + value + rest;
    var middle := 1 + |key|;
    assert forall k | 1 <= k < middle :: s[k] == key[k - 1];
    assert forall k | middle < k <= middle + |value| :: s[k] == value[k - middle - 1];
  }

  lemma {:induction false} LookupWithout(pairs: seq<Pair>, key: string, other: string)
    requires !EqualNoCase(key, other)
    ensures Lookup(RemoveFirst(pairs, key), other) == Lookup(pairs, other)
  {
    hide EqualNoCase;
    if pairs != [] && pairs[0].key != key {
      LookupWithout(pairs[1..], key, other);
    }
  }

  // ---------- The laws ----------

  ghost predicate Fits(key: string, value: string) { |key| + |value| + 2 < MAX_INFO_STRING }

  /** The characters that no key and no value may have. */
  ghost predicate HasBadCharacter(s: string) { '\\' in s || ';' in s || '"' in s }

  /** When each result is given: room is the place that the old pair leaves, and the new pair as far as it is printed. */
  lemma SetResult(s: string, key: string, value: string)
    ensures var ok := SetOutcome(s, key, value).1;
            var bad := HasBadCharacter(key) || HasBadCharacter(value);
            var printed := if |key| + |value| + 2 < 1024 then |key| + |value| + 2 else 1023;
            var full := value != "" && printed + |RemoveFrom(s, 0, key)| >= 1024;
      && (ok == None <==> |s| >= 1024)
      && (ok == Some(false) <==> |s| < 1024 && (bad || full))
      && (ok == Some(true) <==> |s| < 1024 && !bad && !full)
      && (|s| >= 1024 || bad ==> SetOutcome(s, key, value).0 == s)
  {
    hide RemoveFrom;
    BadIsForbidden(key, value);
  }

  lemma BadIsForbidden(key: string, value: string)
    ensures Forbidden(key, value) <==> HasBadCharacter(key) || HasBadCharacter(value)
  {
    assert BLACKLIST[0] in BLACKLIST && BLACKLIST[1] in BLACKLIST && BLACKLIST[2] in BLACKLIST;
  }

  /**
   * After a successful set of a value: it reads back under any spelling of the key if and only if the pair fits in
   * the buffer it is printed to, every other key reads as before, the list has the pair in front of the others, and
   * the result is an info string of less than 1024 characters.
   */
  lemma SetThenGet(s: string, key: string, value: string, other: string)
    requires WellStarted(s) && value != ""
    requires SetOutcome(s, key, value).1 == Some(true)
    ensures var s' := SetOutcome(s, key, value).0;
      && |s'| < MAX_INFO_STRING && WellStarted(s')
      && (EqualNoCase(key, other) ==> (Lookup(Pairs(s'), other) == value <==> Fits(key, value)))
      && (!EqualNoCase(key, other) ==> Lookup(Pairs(s'), other) == Lookup(Pairs(s), other))
      && (Fits(key, value) ==> Pairs(s') == [Pair(key, value)] + RemoveFirst(Pairs(s), key))
  {
    hide ParseAt, EqualNoCase, RemoveFrom, PairsFrom;
    var rest := RemoveFrom(s, 0, key);
    RemoveKeepsStart(s, 0, key);
    RemovePairs(s, 0, key);
    assert SLASH in BLACKLIST;
    if !EqualNoCase(key, other) {
      LookupWithout(Pairs(s), key, other);
    }
    if Fits(key, value) {
      NewPairInFront(key, value, rest);
    } else {
      assert rest == "";
      CutPair(key, value, other);
      assert NewPair(key, value) + "" == NewPair(key, value);
      assert PairsFrom("", 0) == [] by { NoPairs(); }
    }
  }

  /** A pair that is cut by the buffer does not read back. */
  lemma CutPair(key: string, value: string, other: string)
    requires SLASH !in key && SLASH !in value && !Fits(key, value) && value != ""
    ensures var s := NewPair(key, value);
      && |s| == MAX_INFO_STRING - 1 && s[0] == SLASH
      && (EqualNoCase(key, other) ==> Lookup(Pairs(s), other) != value)
      && (!EqualNoCase(key, other) ==> Lookup(Pairs(s), other) == "")
  {
    hide EqualNoCase;
    var whole := [SLASH] + key + [SLASH] + value;
    var s := NewPair(key, value);
    if 1 + |key| < |s| {
      var front, cut := [SLASH] + key + [SLASH], s[2 + |key|..];
      assert s[..|front|] == whole[..|front|] == front && front + cut == s && cut + "" == cut;
      assert [SLASH] + key + [SLASH] + cut + "" == s;
      assert |cut| < |value| && SLASH !in cut by {
        assert cut == value[..|cut|];
      }
      NewPairInFront(key, cut, "");
      NoPairs();
      assert Pairs(s) == [Pair(key, cut)];
      assert Lookup([], other) == "";
    } else {
      assert forall k | 1 <= k < |s| :: s[k] == key[k - 1];
      SlashFromIs(s, 1, |s|);
      assert Pairs(s) == [];
    }
  }

  /** The set that returns true and does not read back: a key of one letter and a value of 1022, in an empty string. */
  lemma CutIsStored()
    ensures var value := seq(1022, _ => 'v');
      && SetOutcome("", "k", value) == (NewPair("k", value), Some(true))
      && Lookup(Pairs(NewPair("k", value)), "k") != value
  {
    hide NewPair, PairsFrom, ParseAt, EqualNoCase;
    var value := seq(1022, _ => 'v');
    NothingToRemove("", 0, "k");
    NothingForbidden("k", value);
    CutPair("k", value, "k");
    LettersDiffer();
    assert NewPair("k", value) + "" == NewPair("k", value);
  }

  lemma NothingToRemove(s: string, i: nat, key: string)
    requires s == "" && i == 0
    ensures RemoveFrom(s, i, key) == s
  {
  }

  lemma NothingForbidden(key: string, value: string)
    requires forall c | c in key || c in value :: c != SLASH && c != ';' && c != '"'
    ensures !Forbidden(key, value)
  {
  }

  ghost predicate HasKey(pairs: seq<Pair>, key: string) { exists i :: 0 <= i < |pairs| && pairs[i].key == key }

  /** Only the first pair with exactly that key goes, and every other one stays where it was. */
  lemma {:induction false} RemoveFirstIs(pairs: seq<Pair>, key: string) returns (i: nat)
    ensures i <= |pairs| && forall j | 0 <= j < i :: pairs[j].key != key
    ensures if i < |pairs| then pairs[i].key == key && RemoveFirst(pairs, key) == pairs[..i] + pairs[i + 1..]
            else RemoveFirst(pairs, key) == pairs
  {
    hide RemoveFirst;
    RemoveFirstStep(pairs, key);
    i := 0;
    if pairs != [] && pairs[0].key != key {
      var rest := pairs[1..];
      var k := RemoveFirstIs(rest, key);
      CutBehind(pairs, k);
      NotBefore(pairs, rest, k, key);
      i := k + 1;
    }
  }

  lemma RemoveFirstStep(pairs: seq<Pair>, key: string)
    ensures pairs == [] ==> RemoveFirst(pairs, key) == []
    ensures pairs != [] && pairs[0].key == key ==> RemoveFirst(pairs, key) == pairs[..0] + pairs[0 + 1..]
    ensures pairs != [] && pairs[0].key != key ==> RemoveFirst(pairs, key) == [pairs[0]] + RemoveFirst(pairs[1..], key)
  {
    if pairs != [] {
      assert pairs[..0] + pairs[1..] == pairs[1..];
    }
  }

  lemma NotBefore(pairs: seq<Pair>, rest: seq<Pair>, k: nat, key: string)
    requires pairs != [] && rest == pairs[1..] && k <= |rest| && pairs[0].key != key
    requires forall j | 0 <= j < k :: rest[j].key != key
    ensures forall j | 0 <= j < k + 1 :: pairs[j].key != key
  {
    forall j | 0 <= j < k + 1
      ensures pairs[j].key != key
    {
      assert j > 0 ==> rest[j - 1] == pairs[j];
    }
  }

  lemma CutBehind(pairs: seq<Pair>, k: nat)
    requires pairs != [] && k < |pairs|
    ensures [pairs[0]] + pairs[1..] == pairs
    ensures k == |pairs[1..]| ==> k + 1 == |pairs|
    ensures k + 1 < |pairs| ==>
      pairs[1..][k] == pairs[k + 1]
      && [pairs[0]] + (pairs[1..][..k] + pairs[1..][k + 1..]) == pairs[..k + 1] + pairs[k + 2..]
  {
  }

  lemma RemoveFirstChanges(pairs: seq<Pair>, key: string)
    ensures if HasKey(pairs, key) then |RemoveFirst(pairs, key)| < |pairs| else RemoveFirst(pairs, key) == pairs
  {
    hide RemoveFirst;
    var i := RemoveFirstIs(pairs, key);
  }

  /** The guard of the refusal for want of room: the pair as it was printed, and what is left without the old pair. */
  predicate HasNoRoom(s: string, key: string, value: string) {
    |NewPair(key, value)| + |RemoveFrom(s, 0, key)| >= MAX_INFO_STRING
  }

  /**
   * What the other results mean. A refused character changes nothing. An empty value only removes. When there is no
   * room, the old pair is gone all the same: the list is as before if and only if the characters were refused or no
   * pair had exactly that key. The other keys read as before.
   */
  lemma SetOtherwise(s: string, key: string, value: string, other: string)
    requires WellStarted(s) && |s| < MAX_INFO_STRING
    requires value == "" || Forbidden(key, value) || HasNoRoom(s, key, value)
    ensures var (s', ok) := SetOutcome(s, key, value);
      && ok == Some(value == "" && !Forbidden(key, value))
      && WellStarted(s') && |s'| <= |s|
      && Pairs(s') == (if Forbidden(key, value) then Pairs(s) else RemoveFirst(Pairs(s), key))
      && (Pairs(s') == Pairs(s) <==> Forbidden(key, value) || !HasKey(Pairs(s), key))
      && (!EqualNoCase(key, other) ==> Lookup(Pairs(s'), other) == Lookup(Pairs(s), other))
  {
    hide ParseAt, EqualNoCase, PairsFrom, RemoveFrom, NewPair, Forbidden;
    RemoveKeepsStart(s, 0, key);
    RemovePairs(s, 0, key);
    RemoveFirstChanges(Pairs(s), key);
    if !EqualNoCase(key, other) {
      LookupWithout(Pairs(s), key, other);
    }
  }

  /** The refused set that forgets: a value of 1022 letters for the key k, which had the value v. */
  lemma RefusedSetForgets()
    ensures var s, value := "\\k\\v\\a\\b", seq(1022, _ => 'x');
      && Lookup(Pairs(s), "k") == "v"
      && SetOutcome(s, "k", value) == ("\\a\\b", Some(false))
      && Lookup(Pairs("\\a\\b"), "k") == ""
  {
    hide ParseAt, PairsFrom, RemoveFrom, EqualNoCase, Pairs;
    var s, rest, value := "\\k\\v\\a\\b", "\\a\\b", seq(1022, _ => 'x');
    TwoPairs();
    NothingForbidden("k", value);
    LettersDiffer();
    assert |NewPair("k", value)| == MAX_INFO_STRING - 1;
  }

  lemma LettersDiffer()
    ensures EqualNoCase("k", "k") && !EqualNoCase("a", "k")
  {
    assert UpperString("a")[0] == 'A' && UpperString("k")[0] == 'K';
  }

  lemma TwoPairs()
    ensures Pairs("\\a\\b") == [Pair("a", "b")]
    ensures Pairs("\\k\\v\\a\\b") == [Pair("k", "v"), Pair("a", "b")]
    ensures RemoveFrom("\\k\\v\\a\\b", 0, "k") == "\\a\\b"
  {
    hide Pairs, RemoveFrom;
    var rest, s := "\\a\\b", "\\k\\v\\a\\b";
    assert [SLASH] + "a" + [SLASH] + "b" + "" == rest;
    NewPairInFront("a", "b", "");
    NoPairs();
    assert [SLASH] + "k" + [SLASH] + "v" + rest == s;
    NewPairInFront("k", "v", rest);
    FirstPairCut(s);
  }

  lemma NoPairs()
    ensures Pairs("") == []
  {
  }

  lemma FirstPairCut(s: string)
    requires |s| == 8 && s[0] == s[2] == s[4] == SLASH && s[1] == 'k' && s[3] == 'v'
    ensures RemoveFrom(s, 0, "k") == s[4..]
  {
    hide ParseAt;
    ParseAtIs(s, 0, 2, 4);
    assert s[1..2] == "k" && s[..0] + s[4..] == s[4..];
  }
}
