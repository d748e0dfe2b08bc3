// Names and force powers of a userinfo: Features/Userinfo.cpp.

module Userinfo {
  import opened Wrappers
  import opened QString
  import InfoStrings

  const MAX_CLIENTS := 32
  const MAX_NETNAME := 36

  // ---------- Name keys ----------

  function NoSpaces(s: string): (r: string)
    ensures |r| <= |s| && forall c | c in r :: c in s
  {
    if s == "" then "" else (if s[0] == ' ' then "" else [s[0]]) + NoSpaces(s[1..])
  }

  lemma {:induction false} NoSpacesAppend(a: string, b: string)
    ensures NoSpaces(a + b) == NoSpaces(a) + NoSpaces(b)
    decreases |a|
  {
    if a == "" {
      assert a + b == b;
    } else {
      assert (a + b)[1..] == a[1..] + b;
      NoSpacesAppend(a[1..], b);
    }
  }

  /** What counts of a name, in a buffer of that size. */
  function Key(name: string, size: nat): string
    requires 0 < size
  {
    NoSpaces(Stripped(Take(name, size - 1)))
  }

  method NameKey(name: string, key: array<char>)
    requires IsCString(name) && 0 < key.Length
    modifies key
    ensures Terminated(key[..]) && CStr(key[..]) == Key(name, key.Length)
  {
    hide CStr, StrLen, Stripped, NoSpaces, Take;
    Q_strncpyz(key, name);
    Q_StripColor(key);
    RemoveSpaces(key);
  }

  /** The loop that compacts the key. */
  method RemoveSpaces(key: array<char>)
    requires Terminated(key[..])
    modifies key
    ensures Terminated(key[..]) && CStr(key[..]) == NoSpaces(old(CStr(key[..])))
  {
    hide CStr, NoSpaces, Compacted;
    ghost var s := CStr(key[..]);
    var input, out := 0, 0;
    NothingCompacted(key[..]);
    while key[input] != NUL
      invariant 0 <= out <= input <= |s| < key.Length && Compacted(key[..], s, out, input)
      decreases |s| - input
    {
      ghost var before := key[..];
      CompactedStep(before, s, out, input);
      if key[input] != ' ' {
        key[out] := key[input];
        assert key[..] == before[out := before[input]];
        out := out + 1;
      }
      input := input + 1;
    }
    ghost var before := key[..];
    CompactedEnd(before, s, out, input);
    key[out] := NUL;
    assert key[..] == before[out := NUL];
  }

  /** Up to `input` the string has been moved to the front, without its spaces; the rest is where it was. */
  ghost predicate Compacted(b: seq<char>, s: string, out: nat, input: nat) {
    && out <= input <= |s| < |b|
    && (forall i | input <= i < |s| :: b[i] == s[i] && s[i] != NUL)
    && b[|s|] == NUL && NUL !in s
    && b[..out] + NoSpaces(s[input..]) == NoSpaces(s)
  }

  lemma NothingCompacted(b: seq<char>)
    requires Terminated(b)
    ensures |CStr(b)| < |b| && Compacted(b, CStr(b), 0, 0)
  {
    hide CStr, NoSpaces;
    var s := CStr(b);
    BufferOf(b);
    assert s[0..] == s && b[..0] + NoSpaces(s) == NoSpaces(s);
  }

  lemma CompactedStep(b: seq<char>, s: string, out: nat, input: nat)
    requires Compacted(b, s, out, input) && b[input] != NUL
    ensures input < |s|
    ensures if b[input] == ' ' then Compacted(b, s, out, input + 1)
            else Compacted(b[out := b[input]], s, out + 1, input + 1)
  {
    hide NoSpaces;
    NoSpacesMoved(b[..out], s, input);
    assert b[out := b[input]][..out + 1] == b[..out] + [b[input]];
  }

  lemma CompactedEnd(b: seq<char>, s: string, out: nat, input: nat)
    requires Compacted(b, s, out, input) && b[input] == NUL
    ensures Terminated(b[out := NUL]) && CStr(b[out := NUL]) == NoSpaces(s)
  {
    hide CStr, NoSpaces;
    NoSpacesStep(s, |s|);
    var ended := b[out := NUL];
    assert ended[..out] == b[..out] == NoSpaces(s);
    assert forall i | 0 <= i < out :: ended[i] == NoSpaces(s)[i] && NoSpaces(s)[i] in s;
    assert ended[out] == NUL;
    StrLenIs(ended, out);
  }

  lemma NoSpacesMoved(before: string, s: string, i: nat)
    requires i < |s|
    ensures before + NoSpaces(s[i..]) == (if s[i] == ' ' then before else before + [s[i]]) + NoSpaces(s[i + 1..])
  {
    hide NoSpaces;
    NoSpacesStep(s, i);
    assert before + ([s[i]] + NoSpaces(s[i + 1..])) == before + [s[i]] + NoSpaces(s[i + 1..]);
    assert "" + NoSpaces(s[i + 1..]) == NoSpaces(s[i + 1..]);
  }

  lemma NoSpacesStep(s: string, i: nat)
    requires i <= |s|
    ensures s[0..] == s
    ensures NoSpaces(s[i..]) == if i == |s| then "" else (if s[i] == ' ' then "" else [s[i]]) + NoSpaces(s[i + 1..])
  {
    if i < |s| {
      assert s[i..][1..] == s[i + 1..];
    }
  }

  // ---------- Unique names ----------

  /** The keys of the names of the clients from i on, but one. The name is the value of "n" in a configstring. */
  function OtherKeys(clientNum: int, infos: seq<string>, i: nat): seq<string>
    requires i <= |infos|
    decreases |infos| - i
  {
    if i == |infos| then []
    else
      (if i != clientNum && infos[i] != "" then [Key(InfoStrings.Lookup(InfoStrings.Pairs(infos[i]), "n"), MAX_NETNAME)]
       else [])
      + OtherKeys(clientNum, infos, i + 1)
  }

  ghost predicate InUse(name: string, others: seq<string>) {
    exists i :: 0 <= i < |others| && EqualNoCase(Key(name, MAX_NETNAME), others[i])
  }

  /** The name in the configstring of a client. */
  function NameOf(info: string): string { InfoStrings.Lookup(InfoStrings.Pairs(info), "n") }

  /** Another client, one that is there, has a name that looks like this one. */
  ghost predicate LooksTaken(name: string, clientNum: int, infos: seq<string>) {
    exists j | 0 <= j < |infos| && j != clientNum && infos[j] != "" ::
      EqualNoCase(Key(name, MAX_NETNAME), Key(NameOf(infos[j]), MAX_NETNAME))
  }

  lemma {:induction false} OtherKeysAre(clientNum: int, infos: seq<string>, i: nat)
    requires i <= |infos|
    ensures forall k :: k in OtherKeys(clientNum, infos, i) <==>
      exists j | i <= j < |infos| && j != clientNum && infos[j] != "" :: k == Key(NameOf(infos[j]), MAX_NETNAME)
    decreases |infos| - i
  {
    hide Key, NameOf;
    if i < |infos| {
      OtherKeysAre(clientNum, infos, i + 1);
      forall k
        ensures k in OtherKeys(clientNum, infos, i) <==>
          (i != clientNum && infos[i] != "" && k == Key(NameOf(infos[i]), MAX_NETNAME))
          || k in OtherKeys(clientNum, infos, i + 1)
      {
        OneMoreKey(clientNum, infos, i, k);
      }
    }
  }

  lemma OneMoreKey(clientNum: int, infos: seq<string>, i: nat, k: string)
    requires i < |infos|
    ensures k in OtherKeys(clientNum, infos, i) <==>
      (i != clientNum && infos[i] != "" && k == Key(NameOf(infos[i]), MAX_NETNAME))
      || k in OtherKeys(clientNum, infos, i + 1)
  {
    hide Key;
  }

  /** A name is in use when it looks like that of another client. */
  lemma InUseMeans(name: string, clientNum: int, infos: seq<string>)
    ensures InUse(name, OtherKeys(clientNum, infos, 0)) <==> LooksTaken(name, clientNum, infos)
  {
    hide Key, NameOf, OtherKeys, EqualNoCase;
    OtherKeysAre(clientNum, infos, 0);
    var others := OtherKeys(clientNum, infos, 0);
    if InUse(name, others) {
      var i :| 0 <= i < |others| && EqualNoCase(Key(name, MAX_NETNAME), others[i]);
      assert others[i] in others;
    }
    if LooksTaken(name, clientNum, infos) {
      var j :| 0 <= j < |infos| && j != clientNum && infos[j] != ""
               && EqualNoCase(Key(name, MAX_NETNAME), Key(NameOf(infos[j]), MAX_NETNAME));
      assert Key(NameOf(infos[j]), MAX_NETNAME) in others;
    }
  }

  /** What does not count in a name: spaces, case, and for a name that fits in the buffer, colour codes. */
  lemma {:induction false} NamesLookAlike(a: string, b: string, i: int)
    ensures NoSpaces(a + " " + b) == NoSpaces(a + b) && ' ' !in NoSpaces(a)
    ensures ' ' !in a ==> NoSpaces(a) == a
    ensures ColorAt(a, i) && |a| < MAX_NETNAME ==> Key(Without(a, i), MAX_NETNAME) == Key(a, MAX_NETNAME)
  {
    hide Stripped, NoSpaces;
    NoSpacesAppend(a + " ", b);
    NoSpacesAppend(a, " ");
    NoSpacesAppend(a, b);
    SpaceIsNone();
    assert NoSpaces(a) + "" == NoSpaces(a);
    NoSpaceLeft(a);
    if ' ' !in a {
      NoSpaceToRemove(a);
    }
    if ColorAt(a, i) {
      RewritingKeepsStripped(a, i);
    }
  }

  lemma SpaceIsNone()
    ensures NoSpaces(" ") == ""
  {
    assert " "[1..] == "";
  }

  lemma {:induction false} NoSpaceLeft(s: string)
    ensures ' ' !in NoSpaces(s)
  {
    if s != "" {
      NoSpaceLeft(s[1..]);
    }
  }

  /** What is kept of a name that gets a number: 29 characters, and no colour escape last. */
  function Base(name: string): string {
    var base := Take(name, MAX_NETNAME - 7);
    if base != "" && base[|base| - 1] == COLOR_ESCAPE then base[..|base| - 1] else base
  }

  /** It is a front of the name, with the first 29 characters of it unless the last of these is an escape. */
  lemma BaseIsAFront(name: string)
    ensures Base(name) <= name && Base(name) + "^7[" <= Candidate(name, 1)
    ensures var kept := if |name| < 29 then |name| else 29;
      |Base(name)| == if kept > 0 && name[kept - 1] == '^' then kept - 1 else kept
  {
  }

  function Suffix(number: nat): string { "^7[" + Decimal(number) + "]" }

  function Candidate(name: string, number: nat): string { Base(name) + Suffix(number) }

  /** The numbered name fits in its buffer, whatever the name. */
  lemma CandidateFits(name: string, number: nat)
    requires 1 <= number <= MAX_CLIENTS
    ensures |Candidate(name, number)| < MAX_NETNAME
    ensures IsCString(name) ==> IsCString(Candidate(name, number))
  {
    assert |Decimal(number)| <= 2 by {
      if number >= 10 {
        assert number / 10 < 10;
      }
    }
  }

  /** Its key is the key of the base, then the number in brackets. */
  lemma CandidateKey(name: string, number: nat)
    requires 1 <= number <= MAX_CLIENTS
    ensures Key(Candidate(name, number), MAX_NETNAME) == NoSpaces(Stripped(Base(name))) + "[" + Decimal(number) + "]"
  {
    hide Feed, NoSpaces, Base, Suffix, Decimal;
    CandidateFits(name, number);
    var stack, bracket := Stripped(Base(name)), "[" + Decimal(number) + "]";
    FeedAppend([], Base(name), Suffix(number));
    SuffixIsFed(stack, number);
    NoSpacesAppend(stack, bracket);
    NoSpaceToRemove(bracket);
    assert Take(Candidate(name, number), MAX_NETNAME - 1) == Candidate(name, number);
    BracketsAppend(NoSpaces(stack), Decimal(number));
  }

  lemma BracketsAppend(key: string, digits: string)
    ensures key + ("[" + digits + "]") == key + "[" + digits + "]"
  {
  }

  lemma SuffixIsFed(stack: string, number: nat)
    ensures Feed(stack, Suffix(number)) == stack + ("[" + Decimal(number) + "]")
  {
    hide Feed, Decimal;
    var bracket := "[" + Decimal(number) + "]";
    assert Suffix(number) == "^7" + bracket;
    FeedColor(stack, Suffix(number));
    assert Suffix(number)[2..] == bracket;
    assert COLOR_ESCAPE !in bracket;
    FeedPlain(stack, bracket);
  }

  lemma {:induction false} NoSpaceToRemove(s: string)
    requires ' ' !in s
    ensures NoSpaces(s) == s
    decreases |s|
  {
    if s != "" {
      NoSpaceToRemove(s[1..]);
    }
  }

  lemma CandidatesDiffer(name: string, a: nat, b: nat)
    requires 1 <= a <= MAX_CLIENTS && 1 <= b <= MAX_CLIENTS
    requires EqualNoCase(Key(Candidate(name, a), MAX_NETNAME), Key(Candidate(name, b), MAX_NETNAME))
    ensures a == b
  {
    hide Stripped, NoSpaces, Decimal, UpperString, Candidate, Key;
    CandidateKey(name, a);
    CandidateKey(name, b);
    var front := NoSpaces(Stripped(Base(name))) + "[";
    UpperOfNumber(front, a);
    UpperOfNumber(front, b);
    var x, y := UpperString(front + Decimal(a) + "]"), UpperString(front + Decimal(b) + "]");
    assert x[|front|..|x| - 1] == Decimal(a);
    assert y[|front|..|y| - 1] == Decimal(b);
    DecimalRoundTrip(a);
    DecimalRoundTrip(b);
  }

  lemma UpperOfNumber(front: string, number: nat)
    ensures UpperString(front + Decimal(number) + "]") == UpperString(front) + Decimal(number) + "]"
  {
    UpperAppend(front + Decimal(number), "]");
    UpperAppend(front, Decimal(number));
    forall i | 0 <= i < |Decimal(number)|
      ensures Upper(Decimal(number)[i]) == Decimal(number)[i]
    {
      assert Decimal(number)[i] in Decimal(number);
    }
    assert UpperString(Decimal(number)) == Decimal(number);
    assert UpperString("]") == "]";
  }

  /** The keys in use, without case. */
  function KeySet(others: seq<string>): (r: set<string>)
    ensures |r| <= |others|
    ensures forall i | 0 <= i < |others| :: UpperString(others[i]) in r
  {
    if others == [] then {} else KeySet(others[..|others| - 1]) + {UpperString(others[|others| - 1])}
  }

  /** The first n numbered names have n different keys. */
  lemma {:induction false} CandidateKeys(name: string, n: nat) returns (keys: set<string>)
    requires n <= MAX_CLIENTS
    ensures |keys| == n
    ensures forall k | k in keys :: exists i :: 1 <= i <= n && k == UpperString(Key(Candidate(name, i), MAX_NETNAME))
    ensures forall i | 1 <= i <= n :: UpperString(Key(Candidate(name, i), MAX_NETNAME)) in keys
  {
    hide Key, Candidate, UpperString;
    if n == 0 {
      keys := {};
    } else {
      var rest := CandidateKeys(name, n - 1);
      var k := UpperString(Key(Candidate(name, n), MAX_NETNAME));
      if k in rest {
        var i :| 1 <= i <= n - 1 && k == UpperString(Key(Candidate(name, i), MAX_NETNAME));
        CandidatesDiffer(name, i, n);
      }
      keys := rest + {k};
    }
  }

  /** Pigeonhole: with at most 31 other clients, one of the 32 numbered names is free. */
  lemma SomeCandidateIsFree(name: string, others: seq<string>) returns (number: nat)
    requires |others| < MAX_CLIENTS
    ensures 1 <= number <= MAX_CLIENTS && !InUse(Candidate(name, number), others)
    ensures forall n | 1 <= n < number :: InUse(Candidate(name, n), others)
  {
    hide Key, Candidate, UpperString;
    number := 1;
    while number <= MAX_CLIENTS && InUse(Candidate(name, number), others)
      invariant 1 <= number <= MAX_CLIENTS + 1
      invariant forall n | 1 <= n < number :: InUse(Candidate(name, n), others)
    {
      number := number + 1;
    }
    if number > MAX_CLIENTS {
      var keys := CandidateKeys(name, MAX_CLIENTS);
      var used := KeySet(others);
      forall k | k in keys
        ensures k in used
      {
        var i :| 1 <= i <= MAX_CLIENTS && k == UpperString(Key(Candidate(name, i), MAX_NETNAME));
        assert InUse(Candidate(name, i), others);
      }
      Subset(keys, used);
    }
  }

  lemma Subset<A>(a: set<A>, b: set<A>)
    requires a <= b
    ensures |a| <= |b|
  {
    assert b == a + (b - a);
  }

  lemma {:induction false} OthersAreFewer(clientNum: int, infos: seq<string>, i: nat)
    requires i <= |infos| == MAX_CLIENTS && 0 <= clientNum < MAX_CLIENTS
    ensures |OtherKeys(clientNum, infos, i)| <= |infos| - i - (if i <= clientNum then 1 else 0)
    decreases |infos| - i
  {
    if i < |infos| {
      OthersAreFewer(clientNum, infos, i + 1);
    }
  }

  method IsInUse(candidate: string, others: seq<string>) returns (used: bool)
    requires IsCString(candidate)
    ensures used <==> InUse(candidate, others)
  {
    var buffer := new char[MAX_NETNAME];
    NameKey(candidate, buffer);
    var key := CStr(buffer[..]);
    for i := 0 to |others|
      invariant forall k | 0 <= k < i :: !EqualNoCase(key, others[k])
    {
      if EqualNoCase(key, others[i]) {
        return true;
      }
    }
    return false;
  }

  /**
   * Leaves in `name` a name whose key no other client has: the name itself when it is free, otherwise the lowest free
   * number after its base. There always is one.
   */
  method UniqueName(clientNum: int, infos: seq<string>, name: array<char>)
    requires |infos| == MAX_CLIENTS && 0 <= clientNum < MAX_CLIENTS
    requires forall i | 0 <= i < |infos| :: IsCString(infos[i]) && |infos[i]| < InfoStrings.MAX_INFO_STRING
    requires name.Length == MAX_NETNAME && Terminated(name[..])
    modifies name
    ensures Terminated(name[..])
    ensures var others := OtherKeys(clientNum, infos, 0);
            var before, after := old(CStr(name[..])), CStr(name[..]);
      && !InUse(after, others) && !LooksTaken(after, clientNum, infos)
      && (!LooksTaken(before, clientNum, infos) ==> after == before)
      && (InUse(before, others) ==>
            exists n :: 1 <= n <= MAX_CLIENTS && after == Candidate(before, n)
                     && forall m | 1 <= m < n :: InUse(Candidate(before, m), others))
  {
    hide CStr, StrLen, Candidate, Key, Base, InUse, OtherKeys, Suffix, LooksTaken;
    var others := OthersOf(clientNum, infos);
    OthersAreFewer(clientNum, infos, 0);
    var text := CStr(name[..]);
    var used := IsInUse(text, others);
    InUseMeans(text, clientNum, infos);
    if !used {
      return;
    }
    var base := BaseInBuffer(text);
    ghost var free := SomeCandidateIsFree(text, others);
    var number := 1;
    while number <= MAX_CLIENTS
      invariant 1 <= number <= free
      invariant name[..] == old(name[..])
      invariant forall m | 1 <= m < number :: InUse(Candidate(text, m), others)
    {
      var candidate := base + Suffix(number);
      CandidateIs(text, number);
      CandidateFits(text, number);
      used := IsInUse(candidate, others);
      InUseMeans(candidate, clientNum, infos);
      if !used {
        Q_strncpyz(name, candidate);
        assert CStr(name[..]) == candidate;
        return;
      }
      number := number + 1;
    }
  }

  /** The keys that are taken. */
  method OthersOf(clientNum: int, infos: seq<string>) returns (others: seq<string>)
    requires forall i | 0 <= i < |infos| :: IsCString(infos[i]) && |infos[i]| < InfoStrings.MAX_INFO_STRING
    ensures others == OtherKeys(clientNum, infos, 0)
  {
    hide CStr, StrLen, Key, OtherKeys;
    others := [];
    for i := 0 to |infos|
      invariant others + OtherKeys(clientNum, infos, i) == OtherKeys(clientNum, infos, 0)
    {
      var info := infos[i];
      OtherKeysStep(clientNum, infos, i);
      if i != clientNum && info != "" {
        var value := InfoStrings.Info_ValueForKey(Some(info), Some("n"));
        ValueIsCString(info, "n");
        var buffer := new char[MAX_NETNAME];
        NameKey(value.value, buffer);
        var key := CStr(buffer[..]);
        assert others + ([key] + OtherKeys(clientNum, infos, i + 1)) == others + [key] + OtherKeys(clientNum, infos, i + 1);
        others := others + [key];
      }
    }
    assert OtherKeys(clientNum, infos, |infos|) == [] by { NoMoreKeys(clientNum, infos); }
  }

  lemma NoMoreKeys(clientNum: int, infos: seq<string>)
    ensures OtherKeys(clientNum, infos, |infos|) == []
  {
  }

  lemma OtherKeysStep(clientNum: int, infos: seq<string>, i: nat)
    requires i < |infos|
    ensures OtherKeys(clientNum, infos, i) ==
      if i != clientNum && infos[i] != ""
      then [Key(InfoStrings.Lookup(InfoStrings.Pairs(infos[i]), "n"), MAX_NETNAME)] + OtherKeys(clientNum, infos, i + 1)
      else OtherKeys(clientNum, infos, i + 1)
  {
  }

  lemma CandidateIs(name: string, number: nat)
    ensures Candidate(name, number) == Base(name) + Suffix(number)
  {
  }

  lemma {:induction false} ValueIsCString(s: string, key: string)
    requires IsCString(s)
    ensures IsCString(InfoStrings.Lookup(InfoStrings.Pairs(s), key))
  {
    ValuesAreCStrings(s, 0);
    LookupIsCString(InfoStrings.Pairs(s), key);
  }

  lemma {:induction false} ValuesAreCStrings(s: string, i: nat)
    requires IsCString(s) && i <= |s|
    ensures forall p | p in InfoStrings.PairsFrom(s, i) :: IsCString(p.value)
    decreases |s| - i
  {
    var p := InfoStrings.ParseAt(s, i);
    if p.Some? {
      ValuesAreCStrings(s, p.value.end);
    }
  }

  lemma {:induction false} LookupIsCString(pairs: seq<InfoStrings.Pair>, key: string)
    requires forall p | p in pairs :: IsCString(p.value)
    ensures IsCString(InfoStrings.Lookup(pairs, key))
    decreases |pairs|
  {
    if pairs != [] {
      LookupIsCString(pairs[1..], key);
    }
  }

  /** The buffer `base`: the copy, then the escape cut off. */
  method BaseInBuffer(name: string) returns (base: string)
    requires IsCString(name)
    ensures base == Base(name)
  {
    hide CStr, StrLen;
    var buffer := new char[MAX_NETNAME - 6];
    Q_strncpyz(buffer, name);
    BufferOf(buffer[..]);
    var baseLength := StrLen(buffer[..]);
    if baseLength > 0 && buffer[baseLength - 1] == COLOR_ESCAPE {
      ghost var before := CStr(buffer[..]);
      buffer[baseLength - 1] := NUL;
      assert buffer[..baseLength - 1] == before[..baseLength - 1];
      CStrIs(buffer[..], before[..baseLength - 1]);
    }
    base := CStr(buffer[..]);
  }

  // ---------- Force powers ----------

  const NUM_FORCE_POWERS := 18
  const DEFAULT_FORCE_POWERS := "7-1-030000000000003332"

  /**
   * rank-side-powers: digits, with a dash at p and at q and nowhere else, and at least 18 powers of 0 to 3, which is
   * what the game reads without a check of its own.
   */
  ghost predicate ForcePowersAt(s: string, p: int, q: int) {
    && 22 <= |s| <= 24
    && 1 <= p && p + 1 < q <= 5
    && (forall i | 0 <= i < |s| :: if i == p || i == q then s[i] == '-' else IsDigit(s[i]))
    && (forall i | q < i < |s| :: s[i] <= '3')
    && |s| - (q + 1) >= NUM_FORCE_POWERS
  }

  ghost predicate WellFormed(s: string) { exists p, q :: ForcePowersAt(s, p, q) }

  /** The dashes of the first n characters, in order. */
  function Dashes(s: string, n: nat): seq<nat>
    requires n <= |s|
  {
    if n == 0 then [] else Dashes(s, n - 1) + if s[n - 1] == '-' then [n - 1] else []
  }

  lemma {:induction false} DashesAre(s: string, n: nat)
    requires n <= |s|
    ensures forall x | x in Dashes(s, n) :: x < n && s[x] == '-'
    ensures forall i | 0 <= i < n && s[i] == '-' :: i in Dashes(s, n)
    ensures forall x, y | 0 <= x < y < |Dashes(s, n)| :: Dashes(s, n)[x] < Dashes(s, n)[y]
  {
    if n > 0 {
      DashesAre(s, n - 1);
      var before := Dashes(s, n - 1);
      assert forall x | 0 <= x < |before| :: before[x] in before;
    }
  }

  lemma WellFormedDashes(s: string, p: int, q: int)
    requires ForcePowersAt(s, p, q)
    ensures Dashes(s, |s|) == [p, q]
  {
    DashesAre(s, |s|);
    var d := Dashes(s, |s|);
    assert s[p] == '-' && s[q] == '-';
    assert p in d && q in d;
    ThirdDash(s);
    assert |d| == 2;
  }

  lemma ThirdDash(s: string)
    ensures var d := Dashes(s, |s|);
      && (|d| > 0 ==> d[0] < |s| && s[d[0]] == '-')
      && (|d| > 1 ==> d[0] < d[1] < |s| && s[d[1]] == '-')
      && (|d| > 2 ==> d[1] < d[2] < |s| && s[d[2]] == '-')
  {
    DashesAre(s, |s|);
    var d := Dashes(s, |s|);
    assert forall k | 0 <= k < |d| :: d[k] in d;
  }

  /** What the loop knows of the characters that it has let through, with their dashes and where the powers start. */
  ghost predicate Scanned(s: string, i: nat, seps: nat, powersStart: nat) {
    && i <= |s|
    && (forall k | 0 <= k < i :: s[k] == '-' || IsDigit(s[k]))
    && (forall k | 0 <= k < i && s[k] == '-' :: 1 <= k <= 5 && (k + 1 < i ==> s[k + 1] != '-'))
    && seps == |Dashes(s, i)|
    && (seps > 0 ==> powersStart == Dashes(s, i)[seps - 1] + 1 <= i)
    && (seps == 2 ==> forall k | powersStart <= k < i :: s[k] <= '3')
  }

  lemma NothingScanned(s: string)
    ensures Scanned(s, 0, 0, 0)
  {
  }

  lemma ScannedNext(s: string, i: nat, seps: nat, powersStart: nat)
    requires Scanned(s, i, seps, powersStart) && i < |s|
    requires if s[i] == '-' then 1 <= i <= 5 && s[i - 1] != '-' else IsDigit(s[i])
    requires seps == 2 ==> s[i] <= '3'
    ensures Scanned(s, i + 1, if s[i] == '-' then seps + 1 else seps, if s[i] == '-' then i + 1 else powersStart)
  {
    hide Dashes;
    NextDash(s, i + 1);
  }

  /** The loop over the characters. */
  method ForcePowersAreBad(s: string) returns (bad: bool)
    ensures bad <==> !WellFormed(s)
  {
    if !(22 <= |s| <= 24) {
      return true;
    }
    hide WellFormed, Dashes, ForcePowersAt, Scanned;
    var seps, powersStart, i := 0, 0, 0;
    NothingScanned(s);
    while i < |s|
      invariant 0 <= i <= |s| && Scanned(s, i, seps, powersStart)
    {
      if s[i] != '-' && (s[i] < '0' || s[i] > '9') {
        NotADash(s, i);
        return true;
      }
      if (i < 1 || i > 5) && s[i] == '-' {
        NotADash(s, i);
        return true;
      }
      if i > 0 && s[i - 1] == '-' && s[i] == '-' {
        TwoDashes(s, i - 1);
        return true;
      }
      if seps == 2 && s[i] > '3' {
        HighPower(s, i, powersStart);
        return true;
      }
      ScannedNext(s, i, seps, powersStart);
      if s[i] == '-' {
        seps := seps + 1;
        powersStart := i + 1;
      }
      i := i + 1;
    }
    if seps != 2 || |s| - powersStart < NUM_FORCE_POWERS {
      OtherDashes(s, seps, powersStart);
      return true;
    }
    AcceptedIsWellFormed(s, powersStart);
    return false;
  }

  lemma AcceptedIsWellFormed(s: string, powersStart: nat)
    requires 22 <= |s| <= 24 && Scanned(s, |s|, 2, powersStart) && |s| - powersStart >= NUM_FORCE_POWERS
    ensures WellFormed(s)
  {
    hide Dashes;
    ThirdDash(s);
    DashesAre(s, |s|);
    assert ForcePowersAt(s, Dashes(s, |s|)[0], Dashes(s, |s|)[1]);
  }

  lemma NextDash(s: string, n: nat)
    requires n <= |s|
    ensures Dashes(s, n) == if n == 0 then [] else Dashes(s, n - 1) + if s[n - 1] == '-' then [n - 1] else []
  {
  }

  lemma OtherDashes(s: string, seps: nat, powersStart: nat)
    requires Scanned(s, |s|, seps, powersStart) && (seps != 2 || |s| - powersStart < NUM_FORCE_POWERS)
    ensures !WellFormed(s)
  {
    if WellFormed(s) {
      var p, q :| ForcePowersAt(s, p, q);
      WellFormedDashes(s, p, q);
    }
  }

  lemma NotADash(s: string, i: nat)
    requires i < |s| && if s[i] == '-' then i < 1 || i > 5 else !IsDigit(s[i])
    ensures !WellFormed(s)
  {
  }

  lemma TwoDashes(s: string, i: nat)
    requires i + 1 < |s| && s[i] == '-' && s[i + 1] == '-'
    ensures !WellFormed(s)
  {
  }

  lemma HighPower(s: string, i: nat, powersStart: nat)
    requires i < |s| && Scanned(s, i, 2, powersStart) && s[i] > '3'
    ensures !WellFormed(s)
  {
    hide Dashes;
    var d := Dashes(s, i);
    DashesAre(s, i);
    assert d[0] in d && d[1] in d;
    assert s[d[0]] == '-' && s[d[1]] == '-' && d[0] < d[1] < i;
  }

  /** The value that goes in the userinfo: the first 29 characters when the game can read them, a default otherwise. */
  method ReadableForcePowers(value: string) returns (forcePowers: string)
    requires IsCString(value)
    ensures WellFormed(forcePowers) && IsCString(forcePowers)
    ensures forcePowers == if WellFormed(Take(value, 29)) then Take(value, 29) else DEFAULT_FORCE_POWERS
  {
    hide CStr, StrLen;
    var buffer := new char[30];
    Q_strncpyz(buffer, value);
    forcePowers := CStr(buffer[..]);
    var bad := ForcePowersAreBad(forcePowers);
    if bad {
      forcePowers := DEFAULT_FORCE_POWERS;
      assert ForcePowersAt(forcePowers, 1, 3);
    }
  }

  const FORCE_POWERS := "forcepowers"

  /**
   * The part of Sanitize about the force powers. False when the userinfo has no room for them, which refuses it.
   * Otherwise the game can read what the userinfo then says, and every other key reads as before.
   */
  method SanitizeForcePowers(userinfo: array<char>) returns (ok: bool)
    requires Terminated(userinfo[..]) && InfoStrings.MAX_INFO_STRING <= userinfo.Length
    requires |CStr(userinfo[..])| < InfoStrings.MAX_INFO_STRING && InfoStrings.WellStarted(CStr(userinfo[..]))
    modifies userinfo
    ensures Terminated(userinfo[..])
    ensures var (before, after) := (old(CStr(userinfo[..])), CStr(userinfo[..]));
            var value := Take(InfoStrings.Lookup(InfoStrings.Pairs(before), FORCE_POWERS), 29);
      && (after, Some(ok))
         == InfoStrings.SetOutcome(before, FORCE_POWERS, if WellFormed(value) then value else DEFAULT_FORCE_POWERS)
      && (ok ==> WellFormed(InfoStrings.Lookup(InfoStrings.Pairs(after), FORCE_POWERS)))
      && (ok ==> forall other | !EqualNoCase(FORCE_POWERS, other) ::
            InfoStrings.Lookup(InfoStrings.Pairs(after), other) == InfoStrings.Lookup(InfoStrings.Pairs(before), other))
  {
    hide CStr, StrLen, WellFormed, InfoStrings.SetOutcome, InfoStrings.Lookup, InfoStrings.Pairs, Take, EqualNoCase;
    var before := CStr(userinfo[..]);
    StringIsCString(userinfo[..]);
    var value := InfoStrings.Info_ValueForKey(Some(before), Some(FORCE_POWERS));
    ValueIsCString(before, FORCE_POWERS);
    var forcePowers := ReadableForcePowers(value.value);
    WellFormedIsShort(forcePowers);
    var result := InfoStrings.Info_SetValueForKey(userinfo, FORCE_POWERS, forcePowers);
    ForcePowersAreSet(before, forcePowers);
    ok := result == Some(true);
  }

  lemma StringIsCString(buffer: seq<char>)
    requires Terminated(buffer)
    ensures IsCString(CStr(buffer))
  {
    hide CStr, StrLen;
    BufferOf(buffer);
  }

  lemma WellFormedIsShort(s: string)
    requires WellFormed(s)
    ensures 22 <= |s| <= 24
  {
  }

  lemma ForcePowersAreSet(before: string, value: string)
    requires |before| < InfoStrings.MAX_INFO_STRING && InfoStrings.WellStarted(before) && 22 <= |value| <= 24
    ensures var (after, ok) := InfoStrings.SetOutcome(before, FORCE_POWERS, value);
      && ok.Some?
      && (ok.value ==> InfoStrings.Lookup(InfoStrings.Pairs(after), FORCE_POWERS) == value)
      && (ok.value ==> forall other | !EqualNoCase(FORCE_POWERS, other) ::
            InfoStrings.Lookup(InfoStrings.Pairs(after), other) == InfoStrings.Lookup(InfoStrings.Pairs(before), other))
  {
    hide EqualNoCase, InfoStrings.Lookup, InfoStrings.Pairs, InfoStrings.RemoveFrom, InfoStrings.NewPair;
    var (after, ok) := InfoStrings.SetOutcome(before, FORCE_POWERS, value);
    if ok == Some(true) {
      SameKey(FORCE_POWERS);
      InfoStrings.SetThenGet(before, FORCE_POWERS, value, FORCE_POWERS);
      forall other | !EqualNoCase(FORCE_POWERS, other)
        ensures InfoStrings.Lookup(InfoStrings.Pairs(after), other) == InfoStrings.Lookup(InfoStrings.Pairs(before), other)
      {
        InfoStrings.SetThenGet(before, FORCE_POWERS, value, other);
      }
    }
  }

  lemma SameKey(key: string)
    ensures EqualNoCase(key, key)
  {
  }

  // ---------- Validation ----------

  datatype Field = Field(name: string, minCount: nat, maxCount: nat)

  const FIELDS: seq<Field> := [
    Field("cl_guid", 0, 0), Field("cl_punkbuster", 0, 0), Field("ip", 0, 1), Field("name", 1, 1), Field("rate", 1, 1),
    Field("snaps", 1, 1), Field("model", 1, 1), Field("forcepowers", 1, 1), Field("color1", 1, 1), Field("color2", 1, 1),
    Field("handicap", 1, 1), Field("sex", 0, 1), Field("cg_predictItems", 1, 1), Field("saber1", 1, 1),
    Field("saber2", 1, 1), Field("char_color_red", 1, 1), Field("char_color_green", 1, 1), Field("char_color_blue", 1, 1),
    Field("teamtask", 0, 1), Field("password", 0, 1), Field("teamoverlay", 0, 1)
  ]

  datatype Reason =
    | TooShort | TooLong | MissingLeadingSlash | TrailingSlash | BadNumberOfSlashes | InvalidCharacters
    | FieldNotFound(name: string) | TooManyFields(name: string)

  function Slashes(s: string): nat {
    if s == "" then 0 else Slashes(s[..|s| - 1]) + if s[|s| - 1] == InfoStrings.SLASH then 1 else 0
  }

  predicate IsInvalid(c: char) { c == '\n' || c == '\r' || c == ';' || c == '"' }

  /** The pairs that are counted: the count stops at an empty key. */
  function UpToEmptyKey(pairs: seq<InfoStrings.Pair>): seq<InfoStrings.Pair> {
    if pairs == [] || pairs[0].key == "" then [] else [pairs[0]] + UpToEmptyKey(pairs[1..])
  }

  function Count(pairs: seq<InfoStrings.Pair>, name: string): nat {
    if pairs == [] then 0 else (if EqualNoCase(pairs[0].key, name) then 1 else 0) + Count(pairs[1..], name)
  }

  predicate IsMissing(pairs: seq<InfoStrings.Pair>, f: Field) { f.minCount > 0 && Count(pairs, f.name) == 0 }

  predicate IsTooOften(pairs: seq<InfoStrings.Pair>, f: Field) { Count(pairs, f.name) > f.maxCount }

  /** The first problem of the fields from i on. */
  function FieldProblem(pairs: seq<InfoStrings.Pair>, i: nat): Option<Reason>
    requires i <= |FIELDS|
    decreases |FIELDS| - i
  {
    if i == |FIELDS| then None
    else if IsMissing(pairs, FIELDS[i]) then Some(FieldNotFound(FIELDS[i].name))
    else if IsTooOften(pairs, FIELDS[i]) then Some(TooManyFields(FIELDS[i].name))
    else FieldProblem(pairs, i + 1)
  }

  function Validation(s: string): Option<Reason> {
    if |s| < 1 then Some(TooShort)
    else if |s| >= InfoStrings.MAX_INFO_STRING then Some(TooLong)
    else if s[0] != InfoStrings.SLASH then Some(MissingLeadingSlash)
    else if s[|s| - 1] == InfoStrings.SLASH then Some(TrailingSlash)
    else if Slashes(s) % 2 == 1 then Some(BadNumberOfSlashes)
    else if exists i | 0 <= i < |s| :: IsInvalid(s[i]) then Some(InvalidCharacters)
    else FieldProblem(UpToEmptyKey(InfoStrings.Pairs(s)), 0)
  }

  method HasInvalid(s: string) returns (found: bool)
    ensures found <==> exists i | 0 <= i < |s| :: IsInvalid(s[i])
  {
    for i := 0 to |s|
      invariant forall k | 0 <= k < i :: !IsInvalid(s[k])
    {
      if IsInvalid(s[i]) {
        return true;
      }
    }
    return false;
  }

  method CountSlashes(s: string) returns (slashes: nat)
    ensures slashes == Slashes(s)
  {
    slashes := 0;
    for i := 0 to |s|
      invariant slashes == Slashes(s[..i])
    {
      assert s[..i + 1][..i] == s[..i];
      if s[i] == InfoStrings.SLASH {
        slashes := slashes + 1;
      }
    }
    assert s[..|s|] == s;
  }

  ghost predicate AreCounts(counts: seq<nat>, done: seq<InfoStrings.Pair>) {
    |counts| == |FIELDS| && forall i | 0 <= i < |FIELDS| :: counts[i] == Count(done, FIELDS[i].name)
  }

  /** One more pair, for each field that it is. */
  method CountPair(counts: array<nat>, key: string, ghost done: seq<InfoStrings.Pair>, ghost pair: InfoStrings.Pair)
    requires counts.Length == |FIELDS| && AreCounts(counts[..], done) && key == pair.key
    modifies counts
    ensures AreCounts(counts[..], done + [pair])
  {
    hide EqualNoCase, Count, FIELDS;
    for i := 0 to |FIELDS|
      invariant forall k | 0 <= k < i :: counts[k] == Count(done + [pair], FIELDS[k].name)
      invariant forall k | i <= k < |FIELDS| :: counts[k] == Count(done, FIELDS[k].name)
    {
      CountMore(done, pair, FIELDS[i].name);
      if EqualNoCase(key, FIELDS[i].name) {
        counts[i] := counts[i] + 1;
      }
    }
  }

  lemma {:induction false} CountMore(done: seq<InfoStrings.Pair>, pair: InfoStrings.Pair, name: string)
    ensures Count(done + [pair], name) == Count(done, name) + if EqualNoCase(pair.key, name) then 1 else 0
    decreases |done|
  {
    hide EqualNoCase;
    if done == [] {
      assert [pair][1..] == [];
    } else {
      assert (done + [pair])[1..] == done[1..] + [pair];
      CountMore(done[1..], pair, name);
    }
  }

  /** The loop over the pairs, and over the fields for each. */
  method CountFields(s: string) returns (counts: array<nat>)
    ensures fresh(counts) && AreCounts(counts[..], UpToEmptyKey(InfoStrings.Pairs(s)))
  {
    hide InfoStrings.ParseAt, InfoStrings.PairsFrom, AreCounts, UpToEmptyKey, FIELDS;
    counts := new nat[|FIELDS|](_ => 0);
    NothingCounted(counts[..]);
    ghost var done: seq<InfoStrings.Pair> := [];
    var head := 0;
    ghost var all := UpToEmptyKey(InfoStrings.Pairs(s));
    assert [] + all == all;
    while true
      invariant head <= |s| && AreCounts(counts[..], done)
      invariant all == done + UpToEmptyKey(InfoStrings.PairsFrom(s, head))
      decreases |s| - head
    {
      PairsStep(s, head, done);
      var good, next, key, value := InfoStrings.Info_NextPair(s, head);
      if key == "" {
        return;
      }
      CountPair(counts, key, done, InfoStrings.Pair(key, value));
      done := done + [InfoStrings.Pair(key, value)];
      head := next;
    }
  }

  lemma NothingCounted(counts: seq<nat>)
    requires |counts| == |FIELDS| && forall i | 0 <= i < |counts| :: counts[i] == 0
    ensures AreCounts(counts, [])
  {
  }

  lemma PairsStep(s: string, head: nat, done: seq<InfoStrings.Pair>)
    requires head <= |s|
    ensures var p := InfoStrings.ParseAt(s, head);
            done + UpToEmptyKey(InfoStrings.PairsFrom(s, head)) ==
              if p.None? || p.value.pair.key == "" then done
              else done + [p.value.pair] + UpToEmptyKey(InfoStrings.PairsFrom(s, p.value.end))
  {
    hide InfoStrings.ParseAt;
    var p := InfoStrings.ParseAt(s, head);
    if p.Some? {
      var rest := InfoStrings.PairsFrom(s, p.value.end);
      assert ([p.value.pair] + rest)[1..] == rest;
    }
  }

  method Validate(userinfo: string) returns (reason: Option<Reason>)
    ensures reason == Validation(userinfo)
  {
    hide Slashes, IsInvalid, InfoStrings.Pairs, UpToEmptyKey, AreCounts, FIELDS, Count;
    if |userinfo| < 1 {
      return Some(TooShort);
    }
    if |userinfo| >= InfoStrings.MAX_INFO_STRING {
      return Some(TooLong);
    }
    if userinfo[0] != InfoStrings.SLASH {
      return Some(MissingLeadingSlash);
    }
    if userinfo[|userinfo| - 1] == InfoStrings.SLASH {
      return Some(TrailingSlash);
    }
    var slashes := CountSlashes(userinfo);
    if slashes % 2 == 1 {
      return Some(BadNumberOfSlashes);
    }
    var invalid := HasInvalid(userinfo);
    if invalid {
      return Some(InvalidCharacters);
    }
    var counts := CountFields(userinfo);
    ghost var pairs := UpToEmptyKey(InfoStrings.Pairs(userinfo));
    for i := 0 to |FIELDS|
      invariant FieldProblem(pairs, 0) == FieldProblem(pairs, i) && AreCounts(counts[..], pairs)
    {
      CountAt(counts[..], pairs, i);
      if FIELDS[i].minCount > 0 && counts[i] == 0 {
        return Some(FieldNotFound(FIELDS[i].name));
      }
      if counts[i] > FIELDS[i].maxCount {
        return Some(TooManyFields(FIELDS[i].name));
      }
    }
    return None;
  }

  lemma CountAt(counts: seq<nat>, pairs: seq<InfoStrings.Pair>, i: nat)
    requires AreCounts(counts, pairs) && i < |FIELDS|
    ensures |counts| == |FIELDS| && counts[i] == Count(pairs, FIELDS[i].name)
  {
    hide FIELDS, Count;
  }

  /** The checks before the count of the fields. */
  ghost predicate HasForm(s: string) {
    && 1 <= |s| < InfoStrings.MAX_INFO_STRING
    && s[0] == InfoStrings.SLASH && s[|s| - 1] != InfoStrings.SLASH && Slashes(s) % 2 == 0
    && forall i | 0 <= i < |s| :: !IsInvalid(s[i])
  }

  /** Each field is there if it must be, and not more often than it may: none that is forbidden, and none twice. */
  ghost predicate WithinLimits(pairs: seq<InfoStrings.Pair>) {
    forall i | 0 <= i < |FIELDS| ::
      var count := Count(pairs, FIELDS[i].name);
      (FIELDS[i].minCount > 0 ==> count > 0) && count <= FIELDS[i].maxCount
  }

  /** A userinfo has no problem exactly when it has the form, and its pairs up to an empty key are within the limits. */
  lemma ValidMeans(s: string)
    ensures Validation(s) == None <==> HasForm(s) && WithinLimits(UpToEmptyKey(InfoStrings.Pairs(s)))
  {
    hide Slashes, IsInvalid, InfoStrings.Pairs, UpToEmptyKey, FIELDS, Count;
    NoProblemMeans(UpToEmptyKey(InfoStrings.Pairs(s)), 0);
  }

  lemma {:induction false} NoProblemMeans(pairs: seq<InfoStrings.Pair>, i: nat)
    requires i <= |FIELDS|
    ensures FieldProblem(pairs, i) == None <==>
      forall j | i <= j < |FIELDS| ::
        (FIELDS[j].minCount > 0 ==> Count(pairs, FIELDS[j].name) > 0) && Count(pairs, FIELDS[j].name) <= FIELDS[j].maxCount
    decreases |FIELDS| - i
  {
    hide FIELDS, Count;
    if i < |FIELDS| {
      NoProblemMeans(pairs, i + 1);
    }
  }

  ghost predicate IsFine(pairs: seq<InfoStrings.Pair>, f: Field) {
    (f.minCount > 0 ==> Count(pairs, f.name) > 0) && Count(pairs, f.name) <= f.maxCount
  }

  /** The first field of the table that is missing or there too often. */
  ghost predicate IsFirstProblem(pairs: seq<InfoStrings.Pair>, i: nat, k: nat, reason: Reason) {
    && i <= k < |FIELDS|
    && (forall j | i <= j < k :: IsFine(pairs, FIELDS[j]))
    && (if FIELDS[k].minCount > 0 && Count(pairs, FIELDS[k].name) == 0 then reason == FieldNotFound(FIELDS[k].name)
        else Count(pairs, FIELDS[k].name) > FIELDS[k].maxCount && reason == TooManyFields(FIELDS[k].name))
  }

  lemma {:induction false} ProblemIsFirst(pairs: seq<InfoStrings.Pair>, i: nat)
    requires i <= |FIELDS|
    ensures var r := FieldProblem(pairs, i); r.Some? ==> exists k: nat :: IsFirstProblem(pairs, i, k, r.value)
    decreases |FIELDS| - i
  {
    hide FIELDS, Count;
    if i < |FIELDS| {
      var r := FieldProblem(pairs, i);
      if IsMissing(pairs, FIELDS[i]) || IsTooOften(pairs, FIELDS[i]) {
        assert IsFirstProblem(pairs, i, i, r.value);
      } else if r.Some? {
        ProblemIsFirst(pairs, i + 1);
        var k: nat :| IsFirstProblem(pairs, i + 1, k, r.value);
        assert IsFirstProblem(pairs, i, k, r.value);
      }
    }
  }

  /** Which reason is given: the checks in their order, the fields in the order of the table. */
  lemma ReasonIs(s: string)
    ensures var r := Validation(s);
            var sized := 1 <= |s| < 1024;
            var framed := sized && s[0] == '\\' && s[|s| - 1] != '\\';
            var paired := framed && Slashes(s) % 2 == 0;
            var bad := '\n' in s || '\r' in s || ';' in s || '"' in s;
      && (r == Some(TooShort) <==> s == "")
      && (r == Some(TooLong) <==> |s| >= 1024)
      && (r == Some(MissingLeadingSlash) <==> sized && s[0] != '\\')
      && (r == Some(TrailingSlash) <==> sized && s[0] == '\\' && s[|s| - 1] == '\\')
      && (r == Some(BadNumberOfSlashes) <==> framed && !paired)
      && (r == Some(InvalidCharacters) <==> paired && bad)
      && (paired && !bad <==> HasForm(s))
      && (HasForm(s) && r.Some? ==>
            exists k: nat :: IsFirstProblem(UpToEmptyKey(InfoStrings.Pairs(s)), 0, k, r.value))
  {
    hide Slashes, InfoStrings.Pairs, UpToEmptyKey, FIELDS, Count, IsFirstProblem;
    ProblemIsFirst(UpToEmptyKey(InfoStrings.Pairs(s)), 0);
    InvalidIs(s);
    NoSuchProblem(UpToEmptyKey(InfoStrings.Pairs(s)), 0);
  }

  lemma InvalidIs(s: string)
    ensures (exists i | 0 <= i < |s| :: IsInvalid(s[i])) <==> '\n' in s || '\r' in s || ';' in s || '"' in s
  {
    if c :| c in s && IsInvalid(c) {
      var i :| 0 <= i < |s| && s[i] == c;
      assert IsInvalid(s[i]);
    }
  }

  lemma {:induction false} NoSuchProblem(pairs: seq<InfoStrings.Pair>, i: nat)
    requires i <= |FIELDS|
    ensures var r := FieldProblem(pairs, i); r.Some? ==> r.value.FieldNotFound? || r.value.TooManyFields?
    decreases |FIELDS| - i
  {
    hide FIELDS, Count;
    if i < |FIELDS| {
      NoSuchProblem(pairs, i + 1);
    }
  }

  // ---------- What an accepted userinfo holds ----------

  ghost predicate NoEmptyKey(pairs: seq<InfoStrings.Pair>) { forall i | 0 <= i < |pairs| :: pairs[i].key != "" }

  /** The pairs that are not counted. */
  function BehindEmptyKey(pairs: seq<InfoStrings.Pair>): seq<InfoStrings.Pair> {
    if pairs == [] || pairs[0].key == "" then pairs else BehindEmptyKey(pairs[1..])
  }

  lemma {:induction false} CountedAndBehind(pairs: seq<InfoStrings.Pair>)
    ensures UpToEmptyKey(pairs) + BehindEmptyKey(pairs) == pairs
    ensures BehindEmptyKey(pairs) == [] <==> NoEmptyKey(pairs)
  {
    if pairs != [] && pairs[0].key != "" {
      var rest := pairs[1..];
      CountedAndBehind(rest);
      assert forall i | 0 <= i < |rest| :: rest[i] == pairs[i + 1];
      assert pairs == [pairs[0]] + (UpToEmptyKey(rest) + BehindEmptyKey(rest));
    } else if pairs == [] {
      assert [] + pairs == pairs;
    }
  }

  lemma {:induction false} CountAppend(a: seq<InfoStrings.Pair>, b: seq<InfoStrings.Pair>, name: string)
    ensures Count(a + b, name) == Count(a, name) + Count(b, name)
    decreases |a|
  {
    hide EqualNoCase;
    if a == [] {
      assert a + b == b;
    } else {
      assert (a + b)[1..] == a[1..] + b;
      CountAppend(a[1..], b, name);
    }
  }

  /**
   * Validate is there so that no accepted userinfo has a forbidden key, or a key twice. When no key is empty it does
   * that: it accepts exactly the userinfos that have the form and are within the limits as a whole.
   */
  lemma ValidIsWithinLimits(s: string)
    requires NoEmptyKey(InfoStrings.Pairs(s))
    ensures Validation(s) == None <==> HasForm(s) && WithinLimits(InfoStrings.Pairs(s))
  {
    hide Validation, HasForm, WithinLimits, InfoStrings.Pairs;
    var pairs := InfoStrings.Pairs(s);
    ValidMeans(s);
    CountedAndBehind(pairs);
    assert UpToEmptyKey(pairs) + [] == UpToEmptyKey(pairs);
  }

  /** In general, an accepted userinfo is within the limits exactly when what is behind an empty key fits in the rest. */
  lemma AcceptedWithinLimits(s: string)
    requires Validation(s) == None
    ensures var pairs := InfoStrings.Pairs(s);
            WithinLimits(pairs) <==>
            forall i | 0 <= i < |FIELDS| ::
              Count(BehindEmptyKey(pairs), FIELDS[i].name)
              <= FIELDS[i].maxCount - Count(UpToEmptyKey(pairs), FIELDS[i].name)
  {
    hide Validation, HasForm, InfoStrings.Pairs, FIELDS, Count, UpToEmptyKey, BehindEmptyKey;
    var pairs := InfoStrings.Pairs(s);
    ValidMeans(s);
    CountedAndBehind(pairs);
    forall i | 0 <= i < |FIELDS|
      ensures Count(pairs, FIELDS[i].name)
           == Count(UpToEmptyKey(pairs), FIELDS[i].name) + Count(BehindEmptyKey(pairs), FIELDS[i].name)
    {
      CountAppend(UpToEmptyKey(pairs), BehindEmptyKey(pairs), FIELDS[i].name);
    }
  }

  lemma {:induction false} SlashesAppend(a: string, b: string)
    ensures Slashes(a + b) == Slashes(a) + Slashes(b)
    decreases |b|
  {
    if b == "" {
      assert a + b == a;
    } else {
      assert (a + b)[..|a + b| - 1] == a + b[..|b| - 1];
      SlashesAppend(a, b[..|b| - 1]);
    }
  }

  lemma {:induction false} NoSlashes(s: string)
    requires InfoStrings.SLASH !in s
    ensures Slashes(s) == 0
  {
    if s != "" {
      NoSlashes(s[..|s| - 1]);
    }
  }

  lemma SlashesOfPair(key: string, value: string)
    requires InfoStrings.SLASH !in key && InfoStrings.SLASH !in value
    ensures Slashes([InfoStrings.SLASH] + key + [InfoStrings.SLASH] + value) == 2
    ensures Slashes([InfoStrings.SLASH]) == 1
  {
    var slash := [InfoStrings.SLASH];
    assert slash[..0] == "";
    assert Slashes(slash) == 1;
    NoSlashes(key);
    NoSlashes(value);
    SlashesAppend(slash, key);
    SlashesAppend(slash + key, slash);
    SlashesAppend(slash + key + slash, value);
  }

  /** An even number of backslashes makes whole pairs: what follows makes pairs of its own. */
  lemma {:induction false} PairsOfBoth(s: string, i: nat, tail: string)
    requires i <= |s| && (i < |s| ==> s[i] == InfoStrings.SLASH) && Slashes(s[i..]) % 2 == 0
    requires tail != "" && tail[0] == InfoStrings.SLASH
    ensures InfoStrings.PairsFrom(s + tail, i) == InfoStrings.PairsFrom(s, i) + InfoStrings.Pairs(tail)
    decreases |s| - i
  {
    hide Slashes, InfoStrings.ParseAt;
    if i == |s| {
      InfoStrings.PairsShift(s, tail, 0);
      InfoStrings.NothingAtTheEnd(s);
      assert [] + InfoStrings.Pairs(tail) == InfoStrings.Pairs(tail);
    } else {
      InfoStrings.ParsedText(s, i);
      var p := InfoStrings.ParseAt(s, i);
      if p.None? {
        assert s[i..] == [InfoStrings.SLASH] + s[i + 1..];
        SlashesOfPair("", "");
        NoSlashes(s[i + 1..]);
        SlashesAppend([InfoStrings.SLASH], s[i + 1..]);
        assert false;
      } else {
        var end := p.value.end;
        assert s[i..] == s[i..end] + s[end..];
        SlashesOfPair(p.value.pair.key, p.value.pair.value);
        SlashesAppend(s[i..end], s[end..]);
        assert (s + tail)[..end] == s[..end];
        InfoStrings.ParseAtPrefix(s, s + tail, i);
        PairsOfBoth(s, end, tail);
        assert [p.value.pair] + (InfoStrings.PairsFrom(s, end) + InfoStrings.Pairs(tail))
            == [p.value.pair] + InfoStrings.PairsFrom(s, end) + InfoStrings.Pairs(tail);
      }
    }
  }

  lemma {:induction false} CountStopsThere(a: seq<InfoStrings.Pair>, b: seq<InfoStrings.Pair>)
    requires b != [] && b[0].key == ""
    ensures UpToEmptyKey(a + b) == UpToEmptyKey(a)
    decreases |a|
  {
    if a == [] {
      assert a + b == b;
    } else {
      assert (a + b)[1..] == a[1..] + b;
      CountStopsThere(a[1..], b);
    }
  }

  /** A text that starts with an empty key. */
  ghost predicate StartsWithEmptyKey(tail: string) {
    |tail| >= 2 && tail[0] == InfoStrings.SLASH && tail[1] == InfoStrings.SLASH
  }

  /** What a tail may do to the form of a userinfo that has it: nothing that its own characters do not show. */
  ghost predicate KeepsForm(s: string, tail: string)
    requires tail != ""
  {
    && |s| + |tail| < InfoStrings.MAX_INFO_STRING
    && tail[|tail| - 1] != InfoStrings.SLASH && Slashes(tail) % 2 == 0
    && forall i | 0 <= i < |tail| :: !IsInvalid(tail[i])
  }

  /**
   * With an empty key it does not: behind any accepted userinfo, any tail that starts with an empty key and keeps the
   * form is accepted, whatever fields it has, and they all are in the list of pairs.
   */
  lemma AnythingPassesBehindEmptyKey(s: string, tail: string)
    requires Validation(s) == None && StartsWithEmptyKey(tail)
    ensures Validation(s + tail) == None <==> KeepsForm(s, tail)
    ensures InfoStrings.Pairs(s + tail) == InfoStrings.Pairs(s) + InfoStrings.Pairs(tail)
  {
    hide Validation, WithinLimits, Slashes, IsInvalid, InfoStrings.ParseAt, UpToEmptyKey;
    ValidMeans(s);
    ValidMeans(s + tail);
    assert s[0..] == s;
    PairsOfBoth(s, 0, tail);
    EmptyKeyFirst(tail);
    CountStopsThere(InfoStrings.Pairs(s), InfoStrings.Pairs(tail));
    SlashesAppend(s, tail);
    FormOfBoth(s, tail);
  }

  lemma FormOfBoth(s: string, tail: string)
    requires HasForm(s) && StartsWithEmptyKey(tail) && Slashes(s + tail) == Slashes(s) + Slashes(tail)
    ensures HasForm(s + tail) <==> KeepsForm(s, tail)
  {
    hide Slashes, IsInvalid;
    var both := s + tail;
    assert both[|both| - 1] == tail[|tail| - 1];
    assert forall i | 0 <= i < |tail| :: both[|s| + i] == tail[i];
    assert forall i | 0 <= i < |both| :: both[i] == if i < |s| then s[i] else tail[i - |s|];
    if HasForm(both) {
      forall i | 0 <= i < |tail|
        ensures !IsInvalid(tail[i])
      {
        assert !IsInvalid(both[|s| + i]);
      }
    }
  }

  lemma EmptyKeyFirst(tail: string)
    requires StartsWithEmptyKey(tail)
    ensures InfoStrings.Pairs(tail) != [] && InfoStrings.Pairs(tail)[0].key == ""
  {
    hide InfoStrings.SlashFrom;
    InfoStrings.SlashFromIs(tail, 1, 1);
  }

  // ---------- One such userinfo ----------

  /** A pair for each field from i on that must be there. */
  function Required(i: nat): seq<InfoStrings.Pair>
    requires i <= |FIELDS|
    decreases |FIELDS| - i
  {
    if i == |FIELDS| then []
    else (if FIELDS[i].minCount > 0 then [InfoStrings.Pair(FIELDS[i].name, "0")] else []) + Required(i + 1)
  }

  const HIDDEN := [InfoStrings.Pair("", "x"), InfoStrings.Pair("cl_guid", "1"), InfoStrings.Pair("NAME", "a"),
                   InfoStrings.Pair("name", "b")]

  /** Three names and a forbidden field, accepted: what is required, and the rest behind an empty key. */
  lemma SomeAcceptedAreOverLimits()
    ensures var s := InfoStrings.Text(Required(0)) + InfoStrings.Text(HIDDEN);
      && Validation(InfoStrings.Text(Required(0))) == None
      && Validation(s) == None
      && InfoStrings.Pairs(s) == Required(0) + HIDDEN
      && Count(InfoStrings.Pairs(s), "name") == 3 && Count(InfoStrings.Pairs(s), "cl_guid") == 1
      && !WithinLimits(InfoStrings.Pairs(s))
  {
    hide Validation, Required, Count, FIELDS, WithinLimits, InfoStrings.Pairs, InfoStrings.Text, HIDDEN;
    var s, tail := InfoStrings.Text(Required(0)), InfoStrings.Text(HIDDEN);
    RequiredIsValid();
    RequiredIsPlain(0);
    HiddenIsPlain();
    FieldNames();
    RequiredCount(0, 3);
    NothingToCount(Required(0), "name");
    PlainText(Required(0));
    PlainText(HIDDEN);
    HiddenStart();
    AnythingPassesBehindEmptyKey(s, tail);
    InfoStrings.TextIsReadBack(Required(0));
    InfoStrings.TextIsReadBack(HIDDEN);
    HiddenCounts();
    RequiredCount(0, 0);
    CountAppend(Required(0), HIDDEN, "name");
    CountAppend(Required(0), HIDDEN, "cl_guid");
    NotWithin(Required(0) + HIDDEN);
  }

  lemma NotWithin(pairs: seq<InfoStrings.Pair>)
    requires Count(pairs, "name") == 3
    ensures !WithinLimits(pairs)
  {
    hide Count;
    assert FIELDS[3].name == "name";
  }

  /** A number that tells the names of the fields apart: their length, and their first and last letters without case. */
  function NameCode(s: string): int {
    if s == "" then 0 else (|s| * 256 + Upper(s[0]) as int) * 256 + Upper(s[|s| - 1]) as int
  }

  lemma EqualCodes(a: string, b: string)
    requires EqualNoCase(a, b)
    ensures NameCode(a) == NameCode(b)
  {
    if a != "" {
      assert UpperString(a)[0] == UpperString(b)[0] && UpperString(a)[|a| - 1] == UpperString(b)[|b| - 1];
    }
  }

  const NAME_CODES: seq<int> := [
    0x074344, 0x0d4352, 0x024950, 0x044e45, 0x045245, 0x055353, 0x054d4c,
    0x0b4653, 0x064331, 0x064332, 0x084850, 0x035358, 0x0f4353, 0x065331,
    0x065332, 0x0e4344, 0x10434e, 0x0f4345, 0x08544b, 0x085044, 0x0b5459
  ]

  lemma NameCodes1()
    ensures NameCode("cl_guid") == 0x074344
    ensures NameCode("cl_punkbuster") == 0x0d4352
    ensures NameCode("ip") == 0x024950
    ensures NameCode("name") == 0x044e45
    ensures NameCode("rate") == 0x045245
    ensures NameCode("snaps") == 0x055353
    ensures NameCode("model") == 0x054d4c
  {
  }

  lemma NameCodes2()
    ensures NameCode("forcepowers") == 0x0b4653
    ensures NameCode("color1") == 0x064331
    ensures NameCode("color2") == 0x064332
    ensures NameCode("handicap") == 0x084850
    ensures NameCode("sex") == 0x035358
    ensures NameCode("cg_predictItems") == 0x0f4353
    ensures NameCode("saber1") == 0x065331
  {
  }

  lemma NameCodes3()
    ensures NameCode("saber2") == 0x065332
    ensures NameCode("char_color_red") == 0x0e4344
    ensures NameCode("char_color_green") == 0x10434e
    ensures NameCode("char_color_blue") == 0x0f4345
    ensures NameCode("teamtask") == 0x08544b
    ensures NameCode("password") == 0x085044
    ensures NameCode("teamoverlay") == 0x0b5459
  {
  }

  lemma NameCodeAt(i: nat)
    requires i < |FIELDS|
    ensures i < |NAME_CODES| && NameCode(FIELDS[i].name) == NAME_CODES[i]
  {
    hide NameCode;
    NameCodes1();
    NameCodes2();
    NameCodes3();
  }

  lemma CodesDiffer(i: nat, j: nat)
    requires i < |NAME_CODES| && j < |NAME_CODES| && i != j
    ensures NAME_CODES[i] != NAME_CODES[j]
  {
  }

  lemma NamesDiffer(i: nat, j: nat)
    requires i < |FIELDS| && j < |FIELDS| && i != j
    ensures !EqualNoCase(FIELDS[i].name, FIELDS[j].name)
  {
    hide FIELDS, NAME_CODES, EqualNoCase, NameCode;
    NameCodeAt(i);
    NameCodeAt(j);
    CodesDiffer(i, j);
    if EqualNoCase(FIELDS[i].name, FIELDS[j].name) {
      EqualCodes(FIELDS[i].name, FIELDS[j].name);
    }
  }

  ghost predicate IsPlain(word: string) { forall c | c in word :: c != InfoStrings.SLASH && !IsInvalid(c) }

  ghost predicate ArePlain(pairs: seq<InfoStrings.Pair>) {
    forall i | 0 <= i < |pairs| ::
      IsPlain(pairs[i].key) && IsPlain(pairs[i].value) && pairs[i].value != "" && |pairs[i].key| + |pairs[i].value| <= 18
  }

  /** The text of short plain pairs keeps the form. */
  lemma {:induction false} PlainText(pairs: seq<InfoStrings.Pair>)
    requires pairs != [] && ArePlain(pairs)
    ensures var text := InfoStrings.Text(pairs);
      && 0 < |text| <= 20 * |pairs| && text[0] == InfoStrings.SLASH && text[|text| - 1] != InfoStrings.SLASH
      && Slashes(text) % 2 == 0
      && forall i | 0 <= i < |text| :: !IsInvalid(text[i])
  {
    hide Slashes;
    var p, rest := pairs[0], pairs[1..];
    var front := [InfoStrings.SLASH] + p.key + [InfoStrings.SLASH] + p.value;
    SlashesOfPair(p.key, p.value);
    if rest == [] {
      assert InfoStrings.Text(rest) == "";
      assert InfoStrings.Text(pairs) == front;
    } else {
      assert forall i | 0 <= i < |rest| :: rest[i] == pairs[i + 1];
      PlainText(rest);
      SlashesAppend(front, InfoStrings.Text(rest));
    }
  }

  lemma PlainNames1()
    ensures IsPlain("cl_guid") && IsPlain("cl_punkbuster") && IsPlain("ip")
    ensures IsPlain("name") && IsPlain("rate") && IsPlain("snaps")
    ensures IsPlain("model")
  {
  }

  lemma PlainNames2()
    ensures IsPlain("forcepowers") && IsPlain("color1") && IsPlain("color2")
    ensures IsPlain("handicap") && IsPlain("sex")
  {
  }

  lemma PlainNames3()
    ensures IsPlain("cg_predictItems") && IsPlain("saber1") && IsPlain("saber2")
    ensures IsPlain("char_color_red")
  {
  }

  lemma PlainNames4()
    ensures IsPlain("char_color_green") && IsPlain("char_color_blue")
  {
  }

  lemma PlainNames5()
    ensures IsPlain("teamtask") && IsPlain("password") && IsPlain("teamoverlay")
  {
  }

  lemma NamesArePlain(i: nat)
    requires i < |FIELDS|
    ensures IsPlain(FIELDS[i].name) && 0 < |FIELDS[i].name| <= 16
    ensures FIELDS[i].minCount > 0 ==> FIELDS[i].maxCount == 1
  {
    hide IsPlain;
    PlainNames1();
    PlainNames2();
    PlainNames3();
    PlainNames4();
    PlainNames5();
  }

  lemma {:induction false} RequiredIsPlain(i: nat)
    requires i <= |FIELDS|
    ensures ArePlain(Required(i)) && |Required(i)| <= |FIELDS| - i && NoEmptyKey(Required(i))
    decreases |FIELDS| - i
  {
    hide FIELDS;
    if i < |FIELDS| {
      NamesArePlain(i);
      RequiredIsPlain(i + 1);
    }
  }

  lemma {:induction false} RequiredCount(i: nat, j: nat)
    requires i <= |FIELDS| && j < |FIELDS|
    ensures Count(Required(i), FIELDS[j].name) == if i <= j && FIELDS[j].minCount > 0 then 1 else 0
    decreases |FIELDS| - i
  {
    hide FIELDS, EqualNoCase;
    if i < |FIELDS| {
      RequiredCount(i + 1, j);
      if FIELDS[i].minCount > 0 {
        var p := InfoStrings.Pair(FIELDS[i].name, "0");
        assert ([p] + Required(i + 1))[1..] == Required(i + 1);
        if i == j {
          SameKey(FIELDS[i].name);
        } else {
          NamesDiffer(i, j);
        }
      } else {
        assert [] + Required(i + 1) == Required(i + 1);
      }
    }
  }

  lemma NothingToCount(pairs: seq<InfoStrings.Pair>, name: string)
    ensures Count(pairs, name) > 0 ==> pairs != []
  {
  }

  lemma RequiredIsValid()
    ensures Validation(InfoStrings.Text(Required(0))) == None
  {
    hide FIELDS, Validation, Required, Slashes, IsInvalid, InfoStrings.Pairs, InfoStrings.Text, Count;
    var text := InfoStrings.Text(Required(0));
    FieldNames();
    RequiredCount(0, 3);
    NothingToCount(Required(0), "name");
    RequiredIsPlain(0);
    PlainText(Required(0));
    InfoStrings.TextIsReadBack(Required(0));
    forall i | 0 <= i < |FIELDS|
      ensures Count(Required(0), FIELDS[i].name) == if FIELDS[i].minCount > 0 then 1 else 0
      ensures FIELDS[i].minCount > 0 ==> FIELDS[i].maxCount == 1
    {
      RequiredCount(0, i);
      NamesArePlain(i);
    }
    ValidIsWithinLimits(text);
  }

  lemma HiddenIsPlain()
    ensures ArePlain(HIDDEN) && |HIDDEN| == 4 && HIDDEN[0] == InfoStrings.Pair("", "x")
  {
  }

  lemma HiddenCounts()
    ensures Count(HIDDEN, "name") == 2 && Count(HIDDEN, "cl_guid") == 1
  {
    hide EqualNoCase;
    LengthsDiffer("", "name");
    LengthsDiffer("cl_guid", "name");
    LengthsDiffer("", "cl_guid");
    LengthsDiffer("name", "cl_guid");
    LengthsDiffer("NAME", "cl_guid");
    SameKey("name");
    SameKey("cl_guid");
    assert EqualNoCase("NAME", "name") by { UpperName(); }
    var (p1, p2, p3) := (HIDDEN[1], HIDDEN[2], HIDDEN[3]);
    assert HIDDEN[1..] == [p1, p2, p3] && [p1, p2, p3][1..] == [p2, p3] && [p2, p3][1..] == [p3] && [p3][1..] == [];
  }

  lemma HiddenStart()
    ensures StartsWithEmptyKey(InfoStrings.Text(HIDDEN))
  {
  }

  lemma UpperName()
    ensures EqualNoCase("NAME", "name")
  {
  }

  lemma FieldNames()
    ensures FIELDS[0] == Field("cl_guid", 0, 0) && FIELDS[3] == Field("name", 1, 1) && |FIELDS| == 21
  {
  }

  lemma LengthsDiffer(a: string, b: string)
    requires |a| != |b|
    ensures !EqualNoCase(a, b)
  {
  }
}
