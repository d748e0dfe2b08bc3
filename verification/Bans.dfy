// IP bans: Features/Bans.cpp.

module Bans {
  import opened Wrappers
  import opened QString

  const MAX_IP_FILTERS := 1024
  const BUFFER_SIZE := MAX_IP_FILTERS * 20
  const WORD_SIZE := 64
  const MAX_CVAR_VALUE_STRING := 256

  /** An octet is compared when its mask is 255, and is a wildcard when it is 0. */
  datatype FilterEntry = IpFilter(used: bool, compare: seq<nat>, mask: seq<nat>)

  type IpFilter = f: FilterEntry | |f.compare| == 4 && |f.mask| == 4 witness IpFilter(false, [0, 0, 0, 0], [0, 0, 0, 0])

  const NO_FILTER: IpFilter := IpFilter(false, [0, 0, 0, 0], [0, 0, 0, 0])

  ghost predicate Normal(f: IpFilter) {
    forall j | 0 <= j < 4 :: (f.mask[j] == 255 && f.compare[j] <= 255) || (f.mask[j] == 0 && f.compare[j] == 0)
  }

  // ---------- Reading an address ----------

  /** The length of the number at i, and its value; none when it has more than 3 digits or is above 255. */
  function NumberFrom(s: string, i: nat, value: nat, digits: nat): (r: Option<(nat, nat)>)
    requires i <= |s|
    ensures r.Some? ==> i <= r.value.0 <= |s|
    ensures r.Some? && value <= 255 ==> r.value.1 <= 255
    decreases |s| - i
  {
    if i == |s| || !IsDigit(s[i]) then Some((i, value))
    else
      var next := value * 10 + DigitValue(s[i]);
      if digits + 1 > 3 || next > 255 then None else NumberFrom(s, i + 1, next, digits + 1)
  }

  function WithOctet(f: IpFilter, j: nat, value: nat, wildcard: bool): IpFilter
    requires j < 4
  {
    f.(compare := f.compare[j := value], mask := f.mask[j := if wildcard then 0 else 255])
  }

  /** The filter read from position i on, for the octets from j on. In the legacy reading a 0 stands for any octet. */
  function FilterFrom(s: string, i: nat, j: nat, f: IpFilter, legacy: bool): Option<IpFilter>
    requires i <= |s| && j <= 4
    decreases 4 - j
  {
    if j == 4 then Some(f.(used := true))
    else if CharAt(s, i) == '*' then
      if i + 1 == |s| then Some(f.(used := true))
      else if s[i + 1] != '.' then None
      else FilterFrom(s, i + 2, j + 1, f, legacy)
    else if !IsDigit(CharAt(s, i)) then None
    else
      match NumberFrom(s, i, 0, 0)
      case None => None
      case Some((end, value)) =>
        var g := WithOctet(f, j, value, legacy && value == 0);
        if end == |s| then Some(g.(used := true)) else FilterFrom(s, end + 1, j + 1, g, legacy)
  }

  function Filter(s: string, legacy: bool): Option<IpFilter> { FilterFrom(s, 0, 0, NO_FILTER, legacy) }

  method StringToFilter(s: string, legacy: bool) returns (f: Option<IpFilter>)
    requires IsCString(s)
    ensures f == Filter(s, legacy)
  {
    var filter: IpFilter := NO_FILTER;
    var i, j := 0, 0;
    while j < 4
      invariant 0 <= j <= 4 && i <= |s|
      invariant Filter(s, legacy) == FilterFrom(s, i, j, filter, legacy)
    {
      if CharAt(s, i) == '*' {
        i := i + 1;
        if CharAt(s, i) == NUL {
          break;
        }
        if CharAt(s, i) != '.' {
          return None;
        }
        i := i + 1;
        j := j + 1;
        continue;
      }
      if CharAt(s, i) < '0' || CharAt(s, i) > '9' {
        return None;
      }
      var value: nat, digits: nat := 0, 0;
      ghost var start := i;
      while '0' <= CharAt(s, i) <= '9'
        invariant start <= i <= |s|
        invariant NumberFrom(s, start, 0, 0) == NumberFrom(s, i, value, digits)
        decreases |s| - i
      {
        value := value * 10 + DigitValue(s[i]);
        digits := digits + 1;
        if digits > 3 || value > 255 {
          return None;
        }
        i := i + 1;
      }
      filter := WithOctet(filter, j, value, legacy && value == 0);
      if CharAt(s, i) == NUL {
        break;
      }
      i := i + 1;
      j := j + 1;
    }
    return Some(filter.(used := true));
  }

  lemma UsedIsNormal(f: IpFilter)
    requires Normal(f)
    ensures Normal(f.(used := true))
  {
  }

  lemma WithOctetIsNormal(f: IpFilter, j: nat, value: nat, wildcard: bool)
    requires j < 4 && Normal(f) && value <= 255 && (wildcard ==> value == 0)
    ensures Normal(WithOctet(f, j, value, wildcard))
  {
  }

  lemma {:induction false} FilterIsNormal(s: string, i: nat, j: nat, f: IpFilter, legacy: bool)
    requires i <= |s| && j <= 4 && Normal(f)
    requires FilterFrom(s, i, j, f, legacy).Some?
    ensures var r := FilterFrom(s, i, j, f, legacy).value; r.used && Normal(r)
    decreases 4 - j
  {
    hide NumberFrom, Normal, WithOctet;
    UsedIsNormal(f);
    if j < 4 {
      if CharAt(s, i) == '*' {
        if i + 1 < |s| {
          FilterIsNormal(s, i + 2, j + 1, f, legacy);
        }
      } else {
        var (end, value) := NumberFrom(s, i, 0, 0).value;
        var g := WithOctet(f, j, value, legacy && value == 0);
        WithOctetIsNormal(f, j, value, legacy && value == 0);
        UsedIsNormal(g);
        if end < |s| {
          FilterIsNormal(s, end + 1, j + 1, g, legacy);
        }
      }
    }
  }

  // ---------- Writing a filter ----------

  function OctetText(f: IpFilter, j: nat): (r: string)
    requires j < 4
    ensures r != ""
  {
    if f.mask[j] != 255 then "*" else Decimal(f.compare[j])
  }

  /** The text of the octets from j on. */
  function OctetsText(f: IpFilter, j: nat): string
    requires j < 4
    decreases 4 - j
  {
    if j == 3 then OctetText(f, 3) else OctetText(f, j) + "." + OctetsText(f, j + 1)
  }

  /** "152.0.*.*" */
  function FilterText(f: IpFilter): string
  {
    OctetsText(f, 0)
  }

  lemma DecimalIsShort(n: nat)
    requires n <= 255
    ensures |Decimal(n)| <= 3
  {
    assert n >= 10 ==> |Decimal(n)| == 1 + |Decimal(n / 10)|;
    assert n >= 100 ==> |Decimal(n / 10)| == 1 + |Decimal(n / 100)|;
  }

  /** Digits that are followed by something else are read as their value. */
  lemma {:induction false} NumberIsRead(s: string, i: nat, end: nat, value: nat, digits: nat)
    requires i <= end <= |s| && digits + (end - i) <= 3
    requires forall k | i <= k < end :: IsDigit(s[k])
    requires end < |s| ==> !IsDigit(s[end])
    requires Accumulated(value, s[i..end]) <= 255
    ensures NumberFrom(s, i, value, digits) == Some((end, Accumulated(value, s[i..end])))
    decreases end - i
  {
    if i < end {
      assert s[i..end][1..] == s[i + 1..end];
      var next := value * 10 + DigitValue(s[i]);
      AccumulatedGrows(next, s[i + 1..end]);
      NumberIsRead(s, i + 1, end, next, digits + 1);
    }
  }

  /** The digits of s read after a value, from left to right. */
  function Accumulated(value: nat, s: string): nat
    requires forall c | c in s :: IsDigit(c)
    decreases |s|
  {
    if s == "" then value
    else
      assert IsDigit(s[0]);
      Accumulated(value * 10 + DigitValue(s[0]), s[1..])
  }

  lemma {:induction false} AccumulatedGrows(value: nat, s: string)
    requires forall c | c in s :: IsDigit(c)
    ensures value <= Accumulated(value, s)
    decreases |s|
  {
    if s != "" {
      assert IsDigit(s[0]);
      AccumulatedGrows(value * 10 + DigitValue(s[0]), s[1..]);
    }
  }

  lemma {:induction false} AccumulatedLast(value: nat, s: string, c: char)
    requires (forall c | c in s :: IsDigit(c)) && IsDigit(c)
    ensures forall d | d in s + [c] :: IsDigit(d)
    ensures Accumulated(value, s + [c]) == Accumulated(value, s) * 10 + DigitValue(c)
    decreases |s|
  {
    if s == "" {
      assert s + [c] == [c];
    } else {
      assert (s + [c])[1..] == s[1..] + [c];
      assert IsDigit(s[0]);
      AccumulatedLast(value * 10 + DigitValue(s[0]), s[1..], c);
    }
  }

  lemma {:induction false} DecimalIsRead(n: nat)
    ensures Accumulated(0, Decimal(n)) == n
  {
    if n >= 10 {
      DecimalIsRead(n / 10);
      AccumulatedLast(0, Decimal(n / 10), Digit(n % 10));
    } else {
      assert Decimal(n)[1..] == "";
    }
  }

  /** g has the octets of f up to j, and wildcards after. */
  ghost predicate ReadUpTo(f: IpFilter, g: IpFilter, j: nat) {
    forall k | 0 <= k < 4 ::
      if k < j then g.compare[k] == f.compare[k] && g.mask[k] == f.mask[k] else g.compare[k] == 0 && g.mask[k] == 0
  }

  lemma AllRead(f: IpFilter, g: IpFilter)
    requires ReadUpTo(f, g, 4)
    ensures g.(used := true) == f.(used := true)
  {
    assert g.compare == f.compare && g.mask == f.mask;
  }

  lemma Between(front: string, text: string, back: string)
    requires forall c | c in text :: IsDigit(c)
    ensures var s, end := front + text + back, |front| + |text|;
      && s[|front|..end] == text
      && (forall k | |front| <= k < end :: IsDigit(s[k]))
      && (end < |s| ==> s[end] == back[0])
  {
    var s, end := front + text + back, |front| + |text|;
    forall k | |front| <= k < end
      ensures IsDigit(s[k])
    {
      assert s[k] == text[k - |front|] && text[k - |front|] in text;
    }
  }

  /** The number written at the end of `front` is read back, up to what follows it. */
  lemma NumberReadBack(front: string, n: nat, back: string)
    requires n <= 255 && (back == "" || !IsDigit(back[0]))
    ensures var s := front + Decimal(n) + back;
      && IsDigit(CharAt(s, |front|))
      && NumberFrom(s, |front|, 0, 0) == Some((|front| + |Decimal(n)|, n))
  {
    hide Decimal;
    Between(front, Decimal(n), back);
    DecimalIsShort(n);
    DecimalIsRead(n);
    NumberIsRead(front + Decimal(n) + back, |front|, |front| + |Decimal(n)|, 0, 0);
  }

  /** g with the octet j of f. */
  function OctetOf(f: IpFilter, g: IpFilter, j: nat): IpFilter
    requires j < 4
  {
    if f.mask[j] == 255 then WithOctet(g, j, f.compare[j], false) else g
  }

  lemma OctetIsRead(front: string, f: IpFilter, j: nat, g: IpFilter, back: string)
    requires Normal(f) && j < 4 && (back == "" || back[0] == '.')
    ensures var s, end := front + OctetText(f, j) + back, |front| + |OctetText(f, j)|;
      FilterFrom(s, |front|, j, g, false) ==
        if back == "" then Some(OctetOf(f, g, j).(used := true)) else FilterFrom(s, end + 1, j + 1, OctetOf(f, g, j), false)
  {
    hide NumberFrom, Decimal;
    var s := front + OctetText(f, j) + back;
    if f.mask[j] == 255 {
      NumberReadBack(front, f.compare[j], back);
    } else {
      assert s[|front|] == '*' && (back != "" ==> s[|front| + 1] == back[0]);
    }
  }

  /** What is written is read back, octet after octet. */
  lemma {:induction false} OctetsReadBack(front: string, f: IpFilter, j: nat, g: IpFilter)
    requires Normal(f) && j < 4 && ReadUpTo(f, g, j)
    ensures FilterFrom(front + OctetsText(f, j), |front|, j, g, false) == Some(f.(used := true))
    decreases 4 - j
  {
    hide FilterFrom, OctetText;
    var g' := OctetOf(f, g, j);
    assert ReadUpTo(f, g', j + 1);
    var back := if j == 3 then "" else "." + OctetsText(f, j + 1);
    assert front + OctetsText(f, j) == front + OctetText(f, j) + back;
    OctetIsRead(front, f, j, g, back);
    if j == 3 {
      AllRead(f, g');
    } else {
      var front' := front + OctetText(f, j) + ".";
      assert front + OctetsText(f, j) == front' + OctetsText(f, j + 1);
      OctetsReadBack(front', f, j + 1, g');
    }
  }

  lemma FilterReadBack(f: IpFilter)
    requires Normal(f)
    ensures Filter(FilterText(f), false) == Some(f.(used := true))
  {
    assert "" + FilterText(f) == FilterText(f);
    OctetsReadBack("", f, 0, NO_FILTER);
  }

  /** A line of the file is at most 15 characters and a line break, with no blank in it. */
  lemma {:induction false} OctetsTextIsShort(f: IpFilter, j: nat)
    requires Normal(f) && j < 4
    ensures 0 < |OctetsText(f, j)| <= 4 * (4 - j) - 1
    ensures forall c | c in OctetsText(f, j) :: !IsBlank(c) && c != NUL
    decreases 4 - j
  {
    if f.mask[j] == 255 {
      DecimalIsShort(f.compare[j]);
    }
    if j < 3 {
      OctetsTextIsShort(f, j + 1);
    }
  }

  // ---------- What a filter may be spelled like ----------

  /** One octet: a star, or one to three digits of a number up to 255. */
  ghost predicate IsOctetText(w: string) {
    w == "*" || (1 <= |w| <= 3 && (forall c | c in w :: IsDigit(c)) && Accumulated(0, w) <= 255)
  }

  ghost function OctetNumber(w: string): nat
    requires IsOctetText(w) && w != "*"
  {
    Accumulated(0, w)
  }

  /** What may stand behind an octet: a dot behind a star, and behind a number anything that is no digit. */
  ghost predicate MayFollow(w: string, c: char) { if w == "*" then c == '.' else !IsDigit(c) }

  /** These octets, at most as many as are left, and all of them when more follows, which then does not matter. */
  ghost predicate Spells(s: string, words: seq<string>, left: nat)
    decreases |words|
  {
    && words != [] && |words| <= left && IsOctetText(words[0]) && words[0] <= s
    && var n := |words[0]|;
    if |s| == n then |words| == 1
    else MayFollow(words[0], s[n]) && if |words| == 1 then left == 1 else Spells(s[n + 1..], words[1..], left - 1)
  }

  /** The filter that compares what is spelled, and nothing that is not; a legacy 0 is not compared. */
  ghost predicate IsFilterOf(g: IpFilter, f: IpFilter, j: nat, words: seq<string>, legacy: bool)
    requires forall w | w in words :: IsOctetText(w)
  {
    && g.used
    && forall k | 0 <= k < 4 ::
         if j <= k < j + |words| && words[k - j] != "*" then
           assert words[k - j] in words && IsOctetText(words[k - j]);
           var value := OctetNumber(words[k - j]);
           g.compare[k] == value && g.mask[k] == if legacy && value == 0 then 0 else 255
         else g.compare[k] == f.compare[k] && g.mask[k] == f.mask[k]
  }

  lemma {:induction false} OctetsAreOctets(s: string, words: seq<string>, left: nat)
    requires Spells(s, words, left)
    ensures forall w | w in words :: IsOctetText(w)
    decreases |words|
  {
    if |words| > 1 {
      OctetsAreOctets(s[|words[0]| + 1..], words[1..], left - 1);
    }
  }

  lemma {:induction false} SpelledIsRead(s: string, i: nat, j: nat, f: IpFilter, legacy: bool, words: seq<string>)
    requires i <= |s| && j < 4 && Spells(s[i..], words, 4 - j)
    ensures forall w | w in words :: IsOctetText(w)
    ensures FilterFrom(s, i, j, f, legacy).Some?
    ensures IsFilterOf(FilterFrom(s, i, j, f, legacy).value, f, j, words, legacy)
    decreases |words|
  {
    hide FilterFrom, Spells, IsOctetText, MayFollow;
    OctetsAreOctets(s[i..], words, 4 - j);
    SpellsStep(s, i, words, 4 - j);
    var w, end := words[0], i + |words[0]|;
    var g := WithWord(f, j, w, legacy);
    WordIsRead(s, i, j, f, legacy, w);
    if end < |s| && |words| > 1 {
      SpelledIsRead(s, end + 1, j + 1, g, legacy, words[1..]);
    } else if end < |s| {
      FourRead(s, end + 1, g, legacy);
    }
    WordsCompared(f, g, j, words, legacy);
  }

  lemma SpellsStep(s: string, i: nat, words: seq<string>, left: nat)
    requires i <= |s| && Spells(s[i..], words, left)
    ensures words != [] && |words| <= left && IsOctetText(words[0])
    ensures i + |words[0]| <= |s| && s[i..i + |words[0]|] == words[0]
    ensures i + |words[0]| == |s| ==> |words| == 1
    ensures i + |words[0]| < |s| ==>
      && MayFollow(words[0], s[i + |words[0]|])
      && if |words| == 1 then left == 1 else Spells(s[i + |words[0]| + 1..], words[1..], left - 1)
  {
    hide IsOctetText, MayFollow;
    var n := |words[0]|;
    assert s[i..][..n] == s[i..i + n];
    assert i + n < |s| ==> s[i..][n] == s[i + n] && s[i..][n + 1..] == s[i + n + 1..];
  }

  /** The filter with one more octet. */
  ghost function WithWord(f: IpFilter, j: nat, w: string, legacy: bool): IpFilter
    requires IsOctetText(w) && j < 4
  {
    if w == "*" then f else WithOctet(f, j, Accumulated(0, w), legacy && Accumulated(0, w) == 0)
  }

  lemma WordIsRead(s: string, i: nat, j: nat, f: IpFilter, legacy: bool, w: string)
    requires j < 4 && IsOctetText(w) && i + |w| <= |s| && s[i..i + |w|] == w
    requires i + |w| < |s| ==> MayFollow(w, s[i + |w|])
    ensures var end, g := i + |w|, WithWord(f, j, w, legacy);
      FilterFrom(s, i, j, f, legacy)
      == if end == |s| then Some(g.(used := true)) else FilterFrom(s, end + 1, j + 1, g, legacy)
  {
    hide NumberFrom;
    var end := i + |w|;
    assert w != "" && s[i] == w[0];
    if w != "*" {
      forall k | i <= k < end
        ensures IsDigit(s[k])
      {
        assert w[k - i] in w && s[k] == w[k - i];
      }
      NumberIsRead(s, i, end, 0, 0);
      assert w[0] in w;
    }
  }

  lemma FourRead(s: string, i: nat, f: IpFilter, legacy: bool)
    requires i <= |s|
    ensures FilterFrom(s, i, 4, f, legacy) == Some(f.(used := true))
  {
  }

  lemma WordsCompared(f: IpFilter, g: IpFilter, j: nat, words: seq<string>, legacy: bool)
    requires words != [] && j < 4 && forall w | w in words :: IsOctetText(w)
    requires g == WithWord(f, j, words[0], legacy)
    ensures forall w | w in words[1..] :: IsOctetText(w)
    ensures forall h: IpFilter | IsFilterOf(h, g, j + 1, words[1..], legacy) :: IsFilterOf(h, f, j, words, legacy)
    ensures |words| == 1 ==> IsFilterOf(g.(used := true), f, j, words, legacy)
  {
    hide IsOctetText;
    forall h: IpFilter | IsFilterOf(h, g, j + 1, words[1..], legacy)
      ensures IsFilterOf(h, f, j, words, legacy)
    {
      assert forall k | 0 < k < |words| :: words[k] == words[1..][k - 1];
    }
  }

  lemma {:induction false} ReadIsSpelled(s: string, i: nat, j: nat, f: IpFilter, legacy: bool) returns (words: seq<string>)
    requires i <= |s| && j < 4 && FilterFrom(s, i, j, f, legacy).Some?
    ensures Spells(s[i..], words, 4 - j)
    decreases 4 - j
  {
    hide FilterFrom, Spells, IsOctetText, MayFollow, WithWord;
    var w := OctetAt(s, i, j, f, legacy);
    var end := i + |w|;
    words := [w];
    if end < |s| && j < 3 {
      WordIsRead(s, i, j, f, legacy, w);
      var more := ReadIsSpelled(s, end + 1, j + 1, WithWord(f, j, w, legacy), legacy);
      words := [w] + more;
      SpellsMore(s, i, w, more, 4 - j);
    } else {
      SpellsLast(s, i, w, 4 - j);
    }
  }

  lemma SpellsMore(s: string, i: nat, w: string, more: seq<string>, left: nat)
    requires i + |w| < |s| && s[i..i + |w|] == w && IsOctetText(w) && MayFollow(w, s[i + |w|])
    requires left > 1 && Spells(s[i + |w| + 1..], more, left - 1)
    ensures Spells(s[i..], [w] + more, left)
  {
    hide IsOctetText, MayFollow;
    var here, n := s[i..], |w|;
    assert here[..n] == w && here[n] == s[i + n] && here[n + 1..] == s[i + n + 1..];
    assert ([w] + more)[1..] == more;
  }

  lemma SpellsLast(s: string, i: nat, w: string, left: nat)
    requires i + |w| <= |s| && s[i..i + |w|] == w && IsOctetText(w) && 0 < left
    requires i + |w| < |s| ==> MayFollow(w, s[i + |w|]) && left == 1
    ensures Spells(s[i..], [w], left)
  {
    hide IsOctetText, MayFollow;
    var here, n := s[i..], |w|;
    assert here[..n] == w && (i + n < |s| ==> here[n] == s[i + n]);
  }

  /** What was read as an octet. */
  lemma OctetAt(s: string, i: nat, j: nat, f: IpFilter, legacy: bool) returns (w: string)
    requires i <= |s| && j < 4 && FilterFrom(s, i, j, f, legacy).Some?
    ensures IsOctetText(w) && i + |w| <= |s| && s[i..i + |w|] == w
    ensures i + |w| < |s| ==> MayFollow(w, s[i + |w|])
  {
    if CharAt(s, i) == '*' {
      w := "*";
    } else {
      var end := NumberFrom(s, i, 0, 0).value.0;
      NumberWas(s, i, 0, 0);
      assert IsDigit(s[i]);
      w := s[i..end];
    }
  }

  /** A number that was read: all the digits there are, three at most with those before. */
  lemma {:induction false} NumberWas(s: string, i: nat, value: nat, digits: nat)
    requires i <= |s| && value <= 255 && digits <= 3 && NumberFrom(s, i, value, digits).Some?
    ensures var (end, number) := NumberFrom(s, i, value, digits).value;
      && i <= end <= |s| && digits + (end - i) <= 3 && (end < |s| ==> !IsDigit(s[end]))
      && (forall c | c in s[i..end] :: IsDigit(c)) && number == Accumulated(value, s[i..end]) <= 255
      && (i < |s| && IsDigit(s[i]) ==> i < end)
    decreases |s| - i
  {
    if i < |s| && IsDigit(s[i]) {
      var next := value * 10 + DigitValue(s[i]);
      NumberWas(s, i + 1, next, digits + 1);
      var end := NumberFrom(s, i, value, digits).value.0;
      assert s[i..end] == [s[i]] + s[i + 1..end];
      assert s[i..end][1..] == s[i + 1..end];
    }
  }

  /** Exactly which texts are filters, and what each compares. */
  lemma FilterMeans(s: string, legacy: bool)
    ensures Filter(s, legacy).Some? <==> exists words: seq<string> :: Spells(s, words, 4)
    ensures forall words: seq<string> | Spells(s, words, 4) ::
      (forall w | w in words :: IsOctetText(w)) && IsFilterOf(Filter(s, legacy).value, NO_FILTER, 0, words, legacy)
  {
    hide Spells, IsFilterOf, IsOctetText, FilterFrom;
    assert s[0..] == s;
    if Filter(s, legacy).Some? {
      var words := ReadIsSpelled(s, 0, 0, NO_FILTER, legacy);
      assert Spells(s, words, 4);
    }
    forall words: seq<string> | Spells(s, words, 4)
      ensures Filter(s, legacy).Some?
      ensures (forall w | w in words :: IsOctetText(w)) && IsFilterOf(Filter(s, legacy).value, NO_FILTER, 0, words, legacy)
    {
      SpelledIsRead(s, 0, 0, NO_FILTER, legacy, words);
    }
  }

  /** An address that does not start with a digit, as that of a bot or of the host, is never banned. */
  lemma NoAddressIsNotBanned(fs: seq<IpFilter>, ip: string)
    ensures (ip == "" || ip[0] < '0' || ip[0] > '9') ==> !Banned(fs, ip)
  {
    assert !IsDigit(NUL);
  }

  // ---------- The list as words ----------

  predicate IsBlank(c: char) { c == ' ' || c == '\t' || c == '\r' || c == '\n' }

  function Ended(word: string): seq<string> { if word == "" then [] else [word] }

  /** The words of a list, each cut to 63 characters; `word` is what has been read of the current one. */
  function WordsFrom(list: string, word: string): seq<string> {
    if list == "" then Ended(word)
    else if IsBlank(list[0]) then Ended(word) + WordsFrom(list[1..], "")
    else WordsFrom(list[1..], if |word| < WORD_SIZE - 1 then word + [list[0]] else word)
  }

  function Words(list: string): seq<string> { WordsFrom(list, "") }

  lemma {:induction false} WordsAppend(a: string, b: string, word: string)
    requires a != "" && IsBlank(a[|a| - 1])
    ensures WordsFrom(a + b, word) == WordsFrom(a, word) + WordsFrom(b, "")
    decreases |a|
  {
    assert (a + b)[1..] == a[1..] + b;
    if |a| > 1 {
      WordsAppend(a[1..], b, if IsBlank(a[0]) then "" else if |word| < WORD_SIZE - 1 then word + [a[0]] else word);
    } else {
      assert a[1..] + b == b;
      assert WordsFrom(a[1..], "") == [];
    }
  }

  lemma {:induction false} OneWord(text: string, word: string)
    requires |word| + |text| < WORD_SIZE && word + text != "" && forall c | c in text :: !IsBlank(c)
    ensures WordsFrom(text + "\n", word) == [word + text]
    decreases |text|
  {
    if text == "" {
      assert text + "\n" == "\n" && word + text == word;
      assert "\n"[1..] == "";
    } else {
      assert (text + "\n")[1..] == text[1..] + "\n";
      assert word + [text[0]] + text[1..] == word + text;
      OneWord(text[1..], word + [text[0]]);
    }
  }

  // ---------- The list of filters ----------

  predicate SameFilter(a: IpFilter, b: IpFilter) {
    a.used && b.used && a.compare == b.compare && a.mask == b.mask
  }

  /** The first free slot from i on, or the length. */
  function FreeSlot(fs: seq<IpFilter>, i: nat): (r: nat)
    requires i <= |fs|
    ensures i <= r <= |fs| && (r < |fs| ==> !fs[r].used) && forall k | i <= k < r :: fs[k].used
    decreases |fs| - i
  {
    if i == |fs| || !fs[i].used then i else FreeSlot(fs, i + 1)
  }

  lemma FreeSlotStep(fs: seq<IpFilter>, i: nat)
    requires i <= |fs|
    ensures FreeSlot(fs, i) == if i == |fs| || !fs[i].used then i else FreeSlot(fs, i + 1)
  {
  }

  lemma HasAt(fs: seq<IpFilter>, i: nat, f: IpFilter)
    requires i < |fs| && SameFilter(fs[i], f)
    ensures Has(fs, f)
  {
  }

  lemma HasNot(fs: seq<IpFilter>, f: IpFilter)
    requires forall k | 0 <= k < |fs| :: !SameFilter(fs[k], f)
    ensures !Has(fs, f)
  {
  }

  ghost predicate Has(fs: seq<IpFilter>, f: IpFilter) { exists i :: 0 <= i < |fs| && SameFilter(fs[i], f) }

  /** The list with a filter; the same list when it is full. */
  ghost function Added(fs: seq<IpFilter>, f: IpFilter): seq<IpFilter> {
    if Has(fs, f) then fs
    else
      var slot := FreeSlot(fs, 0);
      if slot < |fs| then fs[slot := f] else if |fs| >= MAX_IP_FILTERS then fs else fs + [f]
  }

  ghost function AddedWord(fs: seq<IpFilter>, word: string, legacy: bool): seq<IpFilter> {
    match Filter(word, legacy)
    case None => fs
    case Some(f) => Added(fs, f)
  }

  ghost function AddedWords(fs: seq<IpFilter>, words: seq<string>, legacy: bool): seq<IpFilter>
    decreases |words|
  {
    if words == [] then fs else AddedWords(AddedWord(fs, words[0], legacy), words[1..], legacy)
  }

  /** The slot that removeip frees, or the length. */
  function RemovedSlot(fs: seq<IpFilter>, i: nat, f: IpFilter, legacy: Option<IpFilter>): (r: nat)
    requires i <= |fs|
    ensures i <= r <= |fs|
    decreases |fs| - i
  {
    if i == |fs| || SameFilter(fs[i], f) || (legacy.Some? && SameFilter(fs[i], legacy.value)) then i
    else RemovedSlot(fs, i + 1, f, legacy)
  }

  function Removed(fs: seq<IpFilter>, s: string): seq<IpFilter> {
    match Filter(s, false)
    case None => fs
    case Some(f) =>
      var i := RemovedSlot(fs, 0, f, Filter(s, true));
      if i < |fs| then fs[i := fs[i].(used := false)] else fs
  }

  function FileText(fs: seq<IpFilter>): string
    decreases |fs|
  {
    if fs == [] then ""
    else (if fs[0].used then FilterText(fs[0]) + "\n" else "") + FileText(fs[1..])
  }

  /** What the read of the file keeps of it: what fits in the buffer, up to its last whole word. */
  function FileRead(text: string): (r: string)
    ensures r <= text
  {
    if |text| < BUFFER_SIZE then text else text[..LastBlank(text, BUFFER_SIZE - 1)]
  }

  /** The position after the last blank before `end`, or 0. */
  function LastBlank(text: string, end: nat): (r: nat)
    requires end <= |text|
    ensures r <= end && (r > 0 ==> IsBlank(text[r - 1]))
  {
    if end > 0 && !IsBlank(text[end - 1]) then LastBlank(text, end - 1) else end
  }

  // ---------- The laws ----------

  /** Used filters are pairwise distinct, there are at most 1024, and each can be written. */
  ghost predicate Sound(fs: seq<IpFilter>) {
    && |fs| <= MAX_IP_FILTERS
    && (forall i | 0 <= i < |fs| :: Normal(fs[i]))
    && (forall i, j | 0 <= i < j < |fs| :: !SameFilter(fs[i], fs[j]))
  }

  lemma AddedIsSound(fs: seq<IpFilter>, f: IpFilter)
    requires Sound(fs) && f.used && Normal(f)
    ensures Sound(Added(fs, f))
    ensures |fs| < MAX_IP_FILTERS || FreeSlot(fs, 0) < |fs| ==> Has(Added(fs, f), f)
    ensures forall g | Has(Added(fs, f), g) :: Has(fs, g) || SameFilter(f, g)
    ensures forall g | Has(fs, g) :: Has(Added(fs, f), g)
  {
    hide Sound, Has, FreeSlot, Normal;
    var slot := FreeSlot(fs, 0);
    if !Has(fs, f) && (slot < |fs| || |fs| < MAX_IP_FILTERS) {
      PutAt(fs, slot, f, Added(fs, f));
      PutIsSound(fs, slot, f, Added(fs, f));
    }
  }

  /** A filter in a free slot, or at the end: the list has what it had, and the filter. */
  lemma PutAt(fs: seq<IpFilter>, slot: nat, f: IpFilter, r: seq<IpFilter>)
    requires slot <= |fs| && (slot < |fs| ==> !fs[slot].used) && f.used
    requires r == if slot < |fs| then fs[slot := f] else fs + [f]
    ensures Has(r, f)
    ensures forall g | Has(r, g) :: Has(fs, g) || SameFilter(f, g)
    ensures forall g | Has(fs, g) :: Has(r, g)
  {
    assert SameFilter(r[slot], f);
    forall g | Has(fs, g)
      ensures Has(r, g)
    {
      var i :| 0 <= i < |fs| && SameFilter(fs[i], g);
      assert i != slot && r[i] == fs[i];
    }
    forall g | Has(r, g)
      ensures Has(fs, g) || SameFilter(f, g)
    {
      var i :| 0 <= i < |r| && SameFilter(r[i], g);
      assert i != slot ==> r[i] == fs[i];
    }
  }

  lemma PutIsSound(fs: seq<IpFilter>, slot: nat, f: IpFilter, r: seq<IpFilter>)
    requires Sound(fs) && slot <= |fs| && (slot < |fs| || |fs| < MAX_IP_FILTERS) && Normal(f) && !Has(fs, f)
    requires r == if slot < |fs| then fs[slot := f] else fs + [f]
    ensures Sound(r)
  {
    hide Normal;
    assert forall k | 0 <= k < |fs| :: !SameFilter(fs[k], f) && !SameFilter(f, fs[k]);
    assert forall k | 0 <= k < |r| && k != slot :: r[k] == fs[k];
  }

  lemma AddedWordIsSound(fs: seq<IpFilter>, word: string, legacy: bool)
    requires Sound(fs)
    ensures Sound(AddedWord(fs, word, legacy))
  {
    var f := Filter(word, legacy);
    if f.Some? {
      FilterIsNormal(word, 0, 0, NO_FILTER, legacy);
      AddedIsSound(fs, f.value);
    }
  }

  lemma {:induction false} AddedWordsIsSound(fs: seq<IpFilter>, words: seq<string>, legacy: bool)
    requires Sound(fs)
    ensures Sound(AddedWords(fs, words, legacy))
    decreases |words|
  {
    if words != [] {
      AddedWordIsSound(fs, words[0], legacy);
      AddedWordsIsSound(AddedWord(fs, words[0], legacy), words[1..], legacy);
    }
  }

  lemma RemovedIsSound(fs: seq<IpFilter>, s: string)
    requires Sound(fs)
    ensures Sound(Removed(fs, s))
  {
    var f := Filter(s, false);
    if f.Some? {
      var i := RemovedSlot(fs, 0, f.value, Filter(s, true));
      var r := Removed(fs, s);
      forall a, b | 0 <= a < b < |r|
        ensures !SameFilter(r[a], r[b])
      {
        assert !SameFilter(fs[a], fs[b]);
      }
    }
  }

  function Used(fs: seq<IpFilter>): seq<IpFilter> {
    if fs == [] then [] else (if fs[0].used then [fs[0]] else []) + Used(fs[1..])
  }

  function Texts(fs: seq<IpFilter>): seq<string>
  {
    if fs == [] then [] else [FilterText(fs[0])] + Texts(fs[1..])
  }

  lemma {:induction false} UsedIs(fs: seq<IpFilter>)
    ensures forall f :: f in Used(fs) <==> f in fs && f.used
    ensures |Used(fs)| <= |fs|
    decreases |fs|
  {
    if fs != [] {
      UsedIs(fs[1..]);
      assert forall f :: f in fs <==> f == fs[0] || f in fs[1..];
    }
  }

  /** The words of the file are the used filters, one a line. */
  lemma {:induction false} FileWords(fs: seq<IpFilter>)
    requires forall i | 0 <= i < |fs| :: Normal(fs[i])
    ensures Words(FileText(fs)) == Texts(Used(fs))
    ensures |FileText(fs)| <= 16 * |fs|
    ensures IsCString(FileText(fs))
    decreases |fs|
  {
    hide FilterText;
    UsedIs(fs);
    if fs != [] {
      FileWords(fs[1..]);
      if fs[0].used {
        FilterTextIsAWord(fs[0]);
        var line := FilterText(fs[0]) + "\n";
        OneWord(FilterText(fs[0]), "");
        assert "" + FilterText(fs[0]) == FilterText(fs[0]);
        WordsAppend(line, FileText(fs[1..]), "");
        assert Used(fs)[1..] == Used(fs[1..]);
      } else {
        assert FileText(fs) == FileText(fs[1..]) && Used(fs) == Used(fs[1..]);
      }
    }
  }

  lemma FilterTextIsAWord(f: IpFilter)
    requires Normal(f)
    ensures 0 < |FilterText(f)| <= 15
    ensures forall c | c in FilterText(f) :: !IsBlank(c) && c != NUL
  {
    OctetsTextIsShort(f, 0);
  }

  /** Distinct filters are appended in order. */
  lemma AddedAtEnd(done: seq<IpFilter>, fs: seq<IpFilter>)
    requires Sound(done + fs) && fs != [] && forall f | f in done + fs :: f.used
    ensures Added(done, fs[0]) == done + [fs[0]]
  {
    hide Normal, SameFilter, FreeSlot;
    var all := done + fs;
    assert all[|done|] == fs[0];
    forall i | 0 <= i < |done|
      ensures !SameFilter(done[i], fs[0]) && done[i].used
    {
      assert done[i] == all[i] && all[i] in all;
    }
  }

  lemma {:induction false} TextsReadBack(done: seq<IpFilter>, fs: seq<IpFilter>)
    requires Sound(done + fs) && forall f | f in done + fs :: f.used
    ensures AddedWords(done, Texts(fs), false) == done + fs
    decreases |fs|
  {
    hide FilterText, Filter, Normal, Added, SameFilter;
    if fs == [] {
      assert done + fs == done;
    } else {
      var f := fs[0];
      assert f == (done + fs)[|done|] && f in done + fs;
      FilterReadBack(f);
      assert f.(used := true) == f;
      AddedAtEnd(done, fs);
      assert done + [f] + fs[1..] == done + fs;
      TextsReadBack(done + [f], fs[1..]);
    }
  }

  lemma {:induction false} UsedIsSound(fs: seq<IpFilter>)
    requires Sound(fs)
    ensures Sound(Used(fs))
    decreases |fs|
  {
    hide Normal;
    if fs != [] {
      UsedIsSound(fs[1..]);
      UsedIs(fs[1..]);
      var rest := Used(fs[1..]);
      forall j | 0 <= j < |rest|
        ensures !SameFilter(fs[0], rest[j])
      {
        assert rest[j] in rest;
        var k :| 0 <= k < |fs[1..]| && fs[1..][k] == rest[j];
        assert !SameFilter(fs[0], fs[k + 1]);
      }
    }
  }

  /**
   * A map change loses nothing: the file that is written from a list fits in the buffer that reads it, and gives back
   * its used filters, in the same order and in slots of their own.
   */
  lemma FileRoundTrip(fs: seq<IpFilter>)
    requires Sound(fs)
    ensures FileRead(FileText(fs)) == FileText(fs)
    ensures AddedWords([], Words(FileRead(FileText(fs))), false) == Used(fs)
  {
    FileWords(fs);
    UsedIsSound(fs);
    UsedIs(fs);
    assert [] + Used(fs) == Used(fs);
    TextsReadBack([], Used(fs));
  }

  /** A file that does not fit only ever adds whole words of it, in order. */
  lemma ReadAddsWholeWords(text: string)
    ensures Words(FileRead(text)) <= Words(text)
    ensures |text| < BUFFER_SIZE ==> FileRead(text) == text
  {
    var r := FileRead(text);
    assert text == r + text[|r|..];
    if r != "" && |r| < |text| {
      WordsAppend(r, text[|r|..], "");
    } else if r == "" {
      assert Words(r) == [];
    } else {
      assert r == text;
    }
  }

  // ---------- A list that is cut ----------

  /** What has been read of the last word of a list. */
  function Pending(list: string): (word: string)
    ensures |word| < WORD_SIZE
  {
    if list == "" || IsBlank(list[|list| - 1]) then ""
    else
      var word := Pending(list[..|list| - 1]);
      if |word| < WORD_SIZE - 1 then word + [list[|list| - 1]] else word
  }

  /** The words before it. */
  function Finished(list: string): seq<string> {
    if list == "" then []
    else
      var rest := list[..|list| - 1];
      Finished(rest) + if IsBlank(list[|list| - 1]) then Ended(Pending(rest)) else []
  }

  lemma {:induction false} WordsSplit(a: string, b: string)
    ensures Words(a + b) == Finished(a) + WordsFrom(b, Pending(a))
    decreases |a|
  {
    if a == "" {
      assert a + b == b && [] + Words(b) == Words(b);
    } else {
      var rest, c := a[..|a| - 1], a[|a| - 1];
      assert rest + ([c] + b) == a + b && ([c] + b)[1..] == b;
      WordsSplit(rest, [c] + b);
      if IsBlank(c) {
        assert Finished(rest) + (Ended(Pending(rest)) + WordsFrom(b, ""))
            == Finished(rest) + Ended(Pending(rest)) + WordsFrom(b, "");
      }
    }
  }

  /** The pending word has m characters exactly when the last m are no blanks. */
  lemma {:induction false} PendingIsLong(list: string, m: nat)
    requires m < WORD_SIZE
    ensures m <= |Pending(list)| <==> m <= |list| && forall k | |list| - m <= k < |list| :: !IsBlank(list[k])
    decreases |list|
  {
    if list != "" && m > 0 {
      var rest := list[..|list| - 1];
      PendingIsLong(rest, m - 1);
      if m < WORD_SIZE - 1 || |Pending(rest)| < WORD_SIZE - 1 {
        assert forall k | 0 <= k < |rest| :: rest[k] == list[k];
      }
    }
  }

  lemma {:induction false} FirstWordGoesOn(b: string, word: string)
    requires word != ""
    ensures WordsFrom(b, word) != [] && word <= WordsFrom(b, word)[0]
    decreases |b|
  {
    if b != "" && !IsBlank(b[0]) {
      FirstWordGoesOn(b[1..], if |word| < WORD_SIZE - 1 then word + [b[0]] else word);
    }
  }

  lemma {:induction false} LongWordStays(b: string, word: string)
    requires |word| == WORD_SIZE - 1
    ensures WordsFrom(b, word) != [] && WordsFrom(b, word)[0] == word
    decreases |b|
  {
    if b != "" && !IsBlank(b[0]) {
      LongWordStays(b[1..], word);
    }
  }

  /** What is seen at the cut: the end of the list, a blank on either side, or a word that has its 63 characters. */
  predicate CutsNoWord(list: string, n: nat)
    requires n <= |list|
  {
    || n == |list| || IsBlank(list[n]) || n == 0 || IsBlank(list[n - 1])
    || (WORD_SIZE - 1 <= n && forall k | n - (WORD_SIZE - 1) <= k < n :: !IsBlank(list[k]))
  }

  /** A list that is cut at n gives only words of it, and the first ones, if and only if no word is cut there. */
  lemma CutGivesWholeWords(list: string, n: nat)
    requires n <= |list|
    ensures Words(list[..n]) <= Words(list) <==> CutsNoWord(list, n)
  {
    hide IsBlank, WordsFrom, Finished, Pending;
    var a, b := list[..n], list[n..];
    assert a + b == list && a + "" == a;
    WordsSplit(a, b);
    WordsSplit(a, "");
    PendingIsLong(a, 1);
    PendingIsLong(a, WORD_SIZE - 1);
    WordAtTheCut(b, Pending(a));
    PrefixBehind(Finished(a), WordsFrom("", Pending(a)), WordsFrom(b, Pending(a)));
  }

  lemma PrefixBehind(a: seq<string>, x: seq<string>, y: seq<string>)
    ensures a + x <= a + y <==> x <= y
  {
    if a + x <= a + y {
      assert x == (a + x)[|a|..] && y == (a + y)[|a|..];
      assert (a + x)[|a|..] == (a + y)[|a|..|a| + |x|];
    }
  }

  lemma WordAtTheCut(b: string, word: string)
    requires |word| < WORD_SIZE
    ensures WordsFrom("", word) == Ended(word)
    ensures Ended(word) <= WordsFrom(b, word) <==>
            b == "" || IsBlank(b[0]) || word == "" || |word| == WORD_SIZE - 1
  {
    hide IsBlank;
    if |word| == WORD_SIZE - 1 {
      LongWordStays(b, word);
    } else if b != "" && !IsBlank(b[0]) && word != "" {
      FirstWordGoesOn(b[1..], word + [b[0]]);
      assert WordsFrom(b, word)[0] != word;
    }
  }

  /**
   * The legacy list is read into 256 characters, with no regard for words: it gives whole words of the cvar if and only
   * if the cvar fits or no word is cut.
   */
  lemma LegacyReadAddsWholeWords(banIPs: string)
    ensures var list := Take(banIPs, MAX_CVAR_VALUE_STRING - 1);
            Words(list) <= Words(banIPs) <==>
            |banIPs| < MAX_CVAR_VALUE_STRING || CutsNoWord(banIPs, MAX_CVAR_VALUE_STRING - 1)
  {
    hide Words, CutsNoWord;
    if |banIPs| >= MAX_CVAR_VALUE_STRING {
      CutGivesWholeWords(banIPs, MAX_CVAR_VALUE_STRING - 1);
    }
  }

  /** The cut that widens a ban: 152.12.*.* behind 250 blanks becomes 152.1.*.*, and 152.1.2.3 is banned. */
  lemma LegacyCutIsWider()
    ensures var banIPs := seq(250, _ => ' ') + "152.12";
            var list := Take(banIPs, MAX_CVAR_VALUE_STRING - 1);
            var wide := IpFilter(true, [152, 1, 0, 0], [255, 255, 0, 0]);
            var meant := IpFilter(true, [152, 12, 0, 0], [255, 255, 0, 0]);
      && AddedWords([], Words(banIPs), true) == [meant]
      && AddedWords([], Words(list), true) == [wide]
      && Matches(wide, [152, 1, 2, 3]) && !Matches(meant, [152, 1, 2, 3])
  {
    hide Filter, WordsFrom, AddedWords;
    var blanks := seq(250, _ => ' ');
    var banIPs := blanks + "152.12";
    assert Take(banIPs, MAX_CVAR_VALUE_STRING - 1) == blanks + "152.1" by {
      assert banIPs[..250] == blanks && "152.12"[..5] == "152.1";
    }
    WordBehindBlanks(blanks, "152.12");
    WordBehindBlanks(blanks, "152.1");
    TwoOctets();
    OneAdded("152.12");
    OneAdded("152.1");
    var wide := IpFilter(true, [152, 1, 0, 0], [255, 255, 0, 0]);
    var meant := IpFilter(true, [152, 12, 0, 0], [255, 255, 0, 0]);
    assert Words(banIPs) == ["152.12"];
    assert AddedWords([], Words(banIPs), true) == [meant];
    assert Words(Take(banIPs, MAX_CVAR_VALUE_STRING - 1)) == ["152.1"];
    assert AddedWords([], Words(Take(banIPs, MAX_CVAR_VALUE_STRING - 1)), true) == [wide];
    assert Matches(wide, [152, 1, 2, 3]);
    assert Masked([152, 1, 2, 3][1], meant.mask[1]) != meant.compare[1];
    assert !Matches(meant, [152, 1, 2, 3]);
  }

  lemma WordBehindBlanks(blanks: string, word: string)
    requires blanks != "" && (forall c | c in blanks :: IsBlank(c))
    requires (forall c | c in word :: !IsBlank(c)) && 0 < |word| < WORD_SIZE
    ensures Words(blanks + word) == [word]
  {
    hide IsBlank;
    assert blanks[|blanks| - 1] in blanks;
    WordsAppend(blanks, word, "");
    OnlyBlanks(blanks);
    WordsSplit(word, "");
    assert word + "" == word;
    PendingWord(word);
  }

  lemma {:induction false} OnlyBlanks(blanks: string)
    requires forall c | c in blanks :: IsBlank(c)
    ensures Words(blanks) == []
  {
    hide IsBlank;
    if blanks != "" {
      assert blanks[0] in blanks;
      OnlyBlanks(blanks[1..]);
    }
  }

  lemma {:induction false} PendingWord(word: string)
    requires |word| < WORD_SIZE && forall c | c in word :: !IsBlank(c)
    ensures Pending(word) == word && Finished(word) == []
  {
    hide IsBlank;
    if word != "" {
      assert word[|word| - 1] in word;
      PendingWord(word[..|word| - 1]);
    }
  }

  lemma OneAdded(word: string)
    ensures Filter(word, true).Some? ==> AddedWords([], [word], true) == [Filter(word, true).value]
  {
    hide Filter, FreeSlot;
    assert [word][1..] == [];
    assert FreeSlot([], 0) == 0;
  }

  lemma TwoOctets()
    ensures Filter("152.12", true) == Some(IpFilter(true, [152, 12, 0, 0], [255, 255, 0, 0]))
    ensures Filter("152.1", true) == Some(IpFilter(true, [152, 1, 0, 0], [255, 255, 0, 0]))
  {
    hide FilterFrom, NumberFrom, CharAt, IsDigit;
    var f: IpFilter := IpFilter(false, [152, 0, 0, 0], [255, 0, 0, 0]);
    assert "152.12"[..4] == "152." && "152.1"[..4] == "152." && !IsDigit('.') by { DotIsNoDigit(); }
    FirstNumber("152.12");
    FirstNumber("152.1");
    LastNumbers("152.12", "152.1");
    OctetStep("152.12", 0, 0, NO_FILTER, true, 3, 152, f);
    OctetStep("152.12", 4, 1, f, true, 6, 12, IpFilter(false, [152, 12, 0, 0], [255, 255, 0, 0]));
    OctetStep("152.1", 0, 0, NO_FILTER, true, 3, 152, f);
    OctetStep("152.1", 4, 1, f, true, 5, 1, IpFilter(false, [152, 1, 0, 0], [255, 255, 0, 0]));
  }

  lemma LastNumbers(a: string, b: string)
    requires |a| == 6 && |b| == 5 && a[4] == b[4] == '1' && a[5] == '2'
    ensures NumberFrom(a, 4, 0, 0) == Some((6, 12)) && NumberFrom(b, 4, 0, 0) == Some((5, 1))
    ensures IsDigit(CharAt(a, 4)) && IsDigit(CharAt(b, 4))
  {
    assert NumberFrom(a, 6, 12, 2) == Some((6, 12));
    assert NumberFrom(a, 5, 1, 1) == Some((6, 12));
    assert NumberFrom(b, 5, 1, 1) == Some((5, 1));
  }

  /** The slots before the one where AddIP puts a new filter do not hold the legacy reading of the same text. */
  ghost predicate LegacyComesAfter(fs: seq<IpFilter>, s: string) {
    forall i | 0 <= i < FreeSlot(fs, 0) :: Filter(s, true).Some? ==> !SameFilter(fs[i], Filter(s, true).value)
  }

  /**
   * removeip after addip of the same text: the used filters are those from before if and only if no earlier slot
   * holds the legacy reading of the text, which removeip would take first.
   */
  lemma RemoveUndoesAdd(fs: seq<IpFilter>, s: string)
    requires Sound(fs) && Filter(s, false).Some? && !Has(fs, Filter(s, false).value)
    requires |fs| < MAX_IP_FILTERS || FreeSlot(fs, 0) < |fs|
    ensures var after := Removed(AddedWord(fs, s, false), s);
      (forall g :: Has(after, g) <==> Has(fs, g)) <==> LegacyComesAfter(fs, s)
  {
    hide Filter, Has, SameFilter, Sound, FreeSlot, RemovedSlot;
    var f, legacy := Filter(s, false).value, Filter(s, true);
    FilterIsUsed(s, false);
    UndoneWhen(fs, FreeSlot(fs, 0), f, legacy, AddedWord(fs, s, false), Removed(AddedWord(fs, s, false), s));
  }

  lemma UndoneWhen(fs: seq<IpFilter>, slot: nat, f: IpFilter, legacy: Option<IpFilter>, added: seq<IpFilter>,
                   after: seq<IpFilter>)
    requires Sound(fs) && !Has(fs, f) && f.used && slot <= |fs| && (slot < |fs| ==> !fs[slot].used)
    requires added == if slot < |fs| then fs[slot := f] else fs + [f]
    requires var taken := RemovedSlot(added, 0, f, legacy);
             after == if taken < |added| then added[taken := added[taken].(used := false)] else added
    ensures (forall g :: Has(after, g) <==> Has(fs, g))
       <==> forall i | 0 <= i < slot :: legacy.Some? ==> !SameFilter(fs[i], legacy.value)
  {
    hide Has, SameFilter, Sound, RemovedSlot;
    NoneIs(fs, f);
    SameAsItself(f);
    RemovedSlotIsFirst(added, 0, f, legacy);
    var taken := RemovedSlot(added, 0, f, legacy);
    assert added[slot] == f && forall i | 0 <= i < |added| && i != slot :: added[i] == fs[i];
    if taken == slot {
      SameUsed(fs, slot, after);
    } else {
      SameAsOneFilter(fs[taken], f, legacy.value);
      OtherTaken(fs, taken, slot, f, legacy.value, after);
    }
  }

  lemma SameAsOneFilter(a: IpFilter, b: IpFilter, c: IpFilter)
    ensures SameFilter(a, c) && SameFilter(b, c) ==> SameFilter(a, b)
  {
  }

  lemma NoneIs(fs: seq<IpFilter>, f: IpFilter)
    requires !Has(fs, f)
    ensures forall i | 0 <= i < |fs| :: !SameFilter(fs[i], f)
  {
  }

  lemma SameAsItself(f: IpFilter)
    ensures f.used ==> SameFilter(f, f)
  {
  }

  /** When another slot is taken, the list has lost its filter. */
  lemma OtherTaken(fs: seq<IpFilter>, taken: nat, slot: nat, f: IpFilter, legacy: IpFilter, after: seq<IpFilter>)
    requires Sound(fs) && taken < slot <= |fs| && taken < |fs| && SameFilter(fs[taken], legacy)
    requires slot < |after| && |fs| <= |after| <= |fs| + 1 && !after[taken].used
    requires after[slot] == f && !SameFilter(f, legacy)
    requires forall i | 0 <= i < |fs| && i != slot && i != taken :: after[i] == fs[i]
    requires |after| == |fs| + 1 ==> slot == |fs|
    ensures Has(fs, legacy) && !Has(after, legacy)
  {
    hide Normal;
    forall i | 0 <= i < |after|
      ensures !SameFilter(after[i], legacy)
    {
      if i != taken && i != slot {
        assert !SameFilter(fs[if i < taken then i else taken], fs[if i < taken then taken else i]);
      }
    }
  }

  /** The removal that takes another filter: 152.0.0.0, when 152.*.*.* is in the list. */
  lemma LegacyIsTakenFirst()
    ensures var wide := IpFilter(true, [152, 0, 0, 0], [255, 0, 0, 0]);
            var fs, s := [wide], "152.0.0.0";
            var after := Removed(AddedWord(fs, s, false), s);
      && Sound(fs) && Filter(s, false).Some? && !Has(fs, Filter(s, false).value)
      && Has(fs, wide) && !Has(after, wide) && Has(after, Filter(s, false).value)
  {
    hide Filter, Added, RemovedSlot;
    var wide: IpFilter := IpFilter(true, [152, 0, 0, 0], [255, 0, 0, 0]);
    var one: IpFilter := IpFilter(true, [152, 0, 0, 0], [255, 255, 255, 255]);
    BothReadings();
    assert Added([wide], one) == [wide, one] by { AddedSecond(wide, one); }
    assert RemovedSlot([wide, one], 0, one, Some(wide)) == 0 by { TakenFirst([wide, one], one, wide); }
    assert Removed([wide, one], "152.0.0.0") == [wide.(used := false), one];
    assert SameFilter([wide.(used := false), one][1], one) && SameFilter([wide][0], wide);
  }

  lemma AddedSecond(a: IpFilter, b: IpFilter)
    requires a.used && !SameFilter(a, b)
    ensures Added([a], b) == [a, b]
  {
    assert FreeSlot([a], 1) == 1;
  }

  lemma TakenFirst(fs: seq<IpFilter>, f: IpFilter, legacy: IpFilter)
    requires fs != [] && SameFilter(fs[0], legacy)
    ensures RemovedSlot(fs, 0, f, Some(legacy)) == 0
  {
  }

  lemma BothReadings()
    ensures Filter("152.0.0.0", false) == Some(IpFilter(true, [152, 0, 0, 0], [255, 255, 255, 255]))
    ensures Filter("152.0.0.0", true) == Some(IpFilter(true, [152, 0, 0, 0], [255, 0, 0, 0]))
  {
    hide FilterFrom, NumberFrom, CharAt, IsDigit;
    var s := "152.0.0.0";
    assert s[..4] == "152." && s[3] == s[5] == s[7] == '.' && !IsDigit('.') by { DotIsNoDigit(); }
    FirstNumber(s);
    ZeroAt(s, 4);
    ZeroAt(s, 6);
    ZeroAt(s, 8);
    forall legacy: bool
      ensures Filter(s, legacy)
           == Some(IpFilter(true, [152, 0, 0, 0], if legacy then [255, 0, 0, 0] else [255, 255, 255, 255]))
    {
      var mask := if legacy then 0 else 255;
      var f1: IpFilter := IpFilter(false, [152, 0, 0, 0], [255, 0, 0, 0]);
      var f2: IpFilter := IpFilter(false, [152, 0, 0, 0], [255, mask, 0, 0]);
      var f3: IpFilter := IpFilter(false, [152, 0, 0, 0], [255, mask, mask, 0]);
      var f4: IpFilter := IpFilter(false, [152, 0, 0, 0], [255, mask, mask, mask]);
      OctetStep(s, 0, 0, NO_FILTER, legacy, 3, 152, f1);
      OctetStep(s, 4, 1, f1, legacy, 5, 0, f2);
      OctetStep(s, 6, 2, f2, legacy, 7, 0, f3);
      OctetStep(s, 8, 3, f3, legacy, 9, 0, f4);
    }
  }

  lemma DotIsNoDigit()
    ensures !IsDigit('.')
  {
  }

  lemma OctetStep(s: string, i: nat, j: nat, f: IpFilter, legacy: bool, end: nat, value: nat, g: IpFilter)
    requires i < |s| && j < 4 && IsDigit(CharAt(s, i)) && NumberFrom(s, i, 0, 0) == Some((end, value)) && end <= |s|
    requires g.used == f.used && g.compare == f.compare[j := value]
    requires g.mask == f.mask[j := if legacy && value == 0 then 0 else 255]
    ensures FilterFrom(s, i, j, f, legacy)
         == if end == |s| then Some(g.(used := true)) else FilterFrom(s, end + 1, j + 1, g, legacy)
  {
    hide NumberFrom;
  }

  lemma FirstNumber(s: string)
    requires |s| > 4 && s[..4] == "152."
    ensures NumberFrom(s, 0, 0, 0) == Some((3, 152)) && IsDigit(CharAt(s, 0))
  {
    assert s[0] == s[..4][0] && s[1] == s[..4][1] && s[2] == s[..4][2] && s[3] == s[..4][3];
    assert NumberFrom(s, 3, 152, 3) == Some((3, 152));
    assert NumberFrom(s, 2, 15, 2) == Some((3, 152));
    assert NumberFrom(s, 1, 1, 1) == Some((3, 152));
  }

  lemma ZeroAt(s: string, i: nat)
    requires i < |s| && s[i] == '0' && (i + 1 < |s| ==> !IsDigit(s[i + 1]))
    ensures NumberFrom(s, i, 0, 0) == Some((i + 1, 0)) && IsDigit(CharAt(s, i))
  {
    assert NumberFrom(s, i + 1, 0, 1) == Some((i + 1, 0));
  }

  /** That is always so for a text without a 0, of which the two readings are the same. */
  lemma WithoutZeroIsUndone(fs: seq<IpFilter>, s: string)
    requires '0' !in s && Filter(s, false).Some? && !Has(fs, Filter(s, false).value)
    ensures Filter(s, true) == Filter(s, false) && LegacyComesAfter(fs, s)
  {
    hide FilterFrom;
    SameWithoutZero(s, 0, 0, NO_FILTER);
  }

  lemma {:induction false} SameWithoutZero(s: string, i: nat, j: nat, f: IpFilter)
    requires '0' !in s && i <= |s| && j <= 4
    ensures FilterFrom(s, i, j, f, true) == FilterFrom(s, i, j, f, false)
    decreases 4 - j
  {
    hide NumberFrom;
    if j < 4 {
      if CharAt(s, i) == '*' {
        if i + 1 < |s| && s[i + 1] == '.' {
          SameWithoutZero(s, i + 2, j + 1, f);
        }
      } else if IsDigit(CharAt(s, i)) {
        var number := NumberFrom(s, i, 0, 0);
        if number.Some? {
          var (end, value) := number.value;
          FirstDigitCounts(s, i);
          if end < |s| {
            SameWithoutZero(s, end + 1, j + 1, WithOctet(f, j, value, false));
          }
        }
      }
    }
  }

  lemma FirstDigitCounts(s: string, i: nat)
    requires i < |s| && IsDigit(s[i]) && '0' !in s && NumberFrom(s, i, 0, 0).Some?
    ensures NumberFrom(s, i, 0, 0).value.1 > 0
  {
    assert s[i] != '0';
    NumberGrows(s, i + 1, DigitValue(s[i]), 1);
  }

  lemma {:induction false} NumberGrows(s: string, i: nat, value: nat, digits: nat)
    requires i <= |s| && NumberFrom(s, i, value, digits).Some?
    ensures NumberFrom(s, i, value, digits).value.1 >= value
    decreases |s| - i
  {
    if i < |s| && IsDigit(s[i]) {
      NumberGrows(s, i + 1, value * 10 + DigitValue(s[i]), digits + 1);
    }
  }

  lemma SameUsed(fs: seq<IpFilter>, slot: nat, after: seq<IpFilter>)
    requires slot <= |fs| && slot < |after| && |fs| <= |after| <= |fs| + 1
    requires slot < |fs| ==> |after| == |fs| && !fs[slot].used
    requires !after[slot].used && forall i | 0 <= i < |fs| && i != slot :: after[i] == fs[i]
    ensures forall g :: Has(after, g) <==> Has(fs, g)
  {
    forall g
      ensures Has(after, g) <==> Has(fs, g)
    {
      if Has(after, g) {
        var i :| 0 <= i < |after| && SameFilter(after[i], g);
        assert i != slot && SameFilter(fs[i], g);
      }
      if Has(fs, g) {
        var i :| 0 <= i < |fs| && SameFilter(fs[i], g);
        assert i != slot && SameFilter(after[i], g);
      }
    }
  }

  lemma FilterIsUsed(s: string, legacy: bool)
    requires Filter(s, legacy).Some?
    ensures Filter(s, legacy).value.used && Normal(Filter(s, legacy).value)
  {
    FilterIsNormal(s, 0, 0, NO_FILTER, legacy);
  }

  lemma {:induction false} RemovedSlotIsFirst(fs: seq<IpFilter>, i: nat, f: IpFilter, legacy: Option<IpFilter>)
    requires i <= |fs|
    ensures var r := RemovedSlot(fs, i, f, legacy);
      && (r < |fs| ==> SameFilter(fs[r], f) || (legacy.Some? && SameFilter(fs[r], legacy.value)))
      && forall k | i <= k < r :: !SameFilter(fs[k], f) && !(legacy.Some? && SameFilter(fs[k], legacy.value))
    decreases |fs| - i
  {
    if i < |fs| && RemovedSlot(fs, i, f, legacy) != i {
      RemovedSlotIsFirst(fs, i + 1, f, legacy);
    }
  }

  // ---------- Who is banned ----------

  type Address = a: seq<nat> | |a| == 4 witness [0, 0, 0, 0]

  /** The digits at i added to an octet, which is an unsigned char: where they end, and its value. */
  function OctetFrom(ip: string, i: nat, value: nat): (r: (nat, nat))
    requires i <= |ip|
    ensures i <= r.0 <= |ip|
    decreases |ip| - i
  {
    if i == |ip| || !IsDigit(ip[i]) then (i, value) else OctetFrom(ip, i + 1, (value * 10 + DigitValue(ip[i])) % 256)
  }

  function AddressFrom(ip: string, i: nat, part: nat, a: Address): Address
    requires i <= |ip| && part <= 4
    decreases 4 - part
  {
    if i == |ip| || part == 4 then a
    else
      var (end, value) := OctetFrom(ip, i, a[part]);
      var b := a[part := value];
      if end == |ip| || ip[end] == ':' then b else AddressFrom(ip, end + 1, part + 1, b)
  }

  /** in & mask: the masks are 0 or 255. */
  function Masked(octet: nat, mask: nat): nat { if mask == 255 then octet else 0 }

  predicate Matches(f: IpFilter, a: Address) {
    f.used && forall j | 0 <= j < 4 :: Masked(a[j], f.mask[j]) == f.compare[j]
  }

  ghost predicate Banned(fs: seq<IpFilter>, ip: string) {
    IsDigit(CharAt(ip, 0)) && exists i :: 0 <= i < |fs| && Matches(fs[i], AddressFrom(ip, 0, 0, [0, 0, 0, 0]))
  }

  /** The map change changes nobody's answer. */
  lemma SameAnswerAfterReload(fs: seq<IpFilter>, ip: string)
    requires Sound(fs)
    ensures Banned(AddedWords([], Words(FileRead(FileText(fs))), false), ip) <==> Banned(fs, ip)
  {
    FileRoundTrip(fs);
    UsedIs(fs);
    var a := AddressFrom(ip, 0, 0, [0, 0, 0, 0]);
    var used := Used(fs);
    if i :| 0 <= i < |fs| && Matches(fs[i], a) {
      assert fs[i] in fs && fs[i] in used;
    }
    if i :| 0 <= i < |used| && Matches(used[i], a) {
      assert used[i] in used && used[i] in fs;
    }
  }

  /** a.b.c.d, and maybe a port. */
  predicate IsDotted(ip: string, a: Address, rest: string) {
    && (forall j | 0 <= j < 4 :: a[j] <= 255)
    && ip == AddressText(a, 0) + rest
    && (rest == "" || rest[0] == ':')
  }

  function AddressText(a: Address, j: nat): string
    requires j < 4
    decreases 4 - j
  {
    if j == 3 then Decimal(a[3]) else Decimal(a[j]) + "." + AddressText(a, j + 1)
  }

  lemma AccumulatedStep(ip: string, i: nat, end: nat, value: nat)
    requires i <= end <= |ip| && forall k | i <= k < end :: IsDigit(ip[k])
    ensures Accumulated(value, ip[i..end]) ==
      if i == end then value else Accumulated(value * 10 + DigitValue(ip[i]), ip[i + 1..end])
  {
    hide DigitValue;
    assert i < end ==> ip[i..end][1..] == ip[i + 1..end];
  }

  lemma {:induction false} OctetIsAccumulated(ip: string, i: nat, end: nat, value: nat)
    requires i <= end <= |ip| && (end < |ip| ==> !IsDigit(ip[end]))
    requires forall k | i <= k < end :: IsDigit(ip[k])
    requires Accumulated(value, ip[i..end]) <= 255
    ensures OctetFrom(ip, i, value) == (end, Accumulated(value, ip[i..end]))
    decreases end - i
  {
    hide Accumulated, DigitValue;
    AccumulatedStep(ip, i, end, value);
    if i < end {
      var next := value * 10 + DigitValue(ip[i]);
      AccumulatedGrows(next, ip[i + 1..end]);
      OctetIsAccumulated(ip, i + 1, end, next);
    }
  }

  lemma DigitsAreRead(ip: string, i: nat, end: nat, digits: string)
    requires i <= end <= |ip| && (end < |ip| ==> !IsDigit(ip[end])) && ip[i..end] == digits
    requires (forall k | i <= k < end :: IsDigit(ip[k])) && forall c | c in digits :: IsDigit(c)
    requires Accumulated(0, digits) <= 255
    ensures OctetFrom(ip, i, 0) == (end, Accumulated(0, digits))
  {
    hide OctetFrom, Accumulated, IsDigit;
    OctetIsAccumulated(ip, i, end, 0);
  }

  lemma OctetReadBack(front: string, n: nat, back: string)
    requires n <= 255 && (back == "" || !IsDigit(back[0]))
    ensures OctetFrom(front + Decimal(n) + back, |front|, 0) == (|front| + |Decimal(n)|, n)
  {
    hide Decimal, OctetFrom, Accumulated, IsDigit;
    var digits := Decimal(n);
    Between(front, digits, back);
    DecimalIsRead(n);
    DigitsAreRead(front + digits + back, |front|, |front| + |digits|, digits);
  }

  lemma AddressStep(ip: string, i: nat, part: nat, a: Address, end: nat, value: nat)
    requires i < |ip| && part < 4 && OctetFrom(ip, i, 0) == (end, value) && a[part] == 0
    ensures end <= |ip|
    ensures AddressFrom(ip, i, part, a) ==
      if end == |ip| || ip[end] == ':' then a[part := value] else AddressFrom(ip, end + 1, part + 1, a[part := value])
  {
    hide OctetFrom;
  }

  lemma OctetSplit(front: string, a: Address, j: nat, rest: string)
    requires j < 4
    ensures |Decimal(a[j])| > 0
    ensures front + AddressText(a, j) + rest
         == front + Decimal(a[j]) + (if j == 3 then rest else "." + AddressText(a, j + 1) + rest)
    ensures j < 3 ==> front + AddressText(a, j) + rest == front + Decimal(a[j]) + "." + AddressText(a, j + 1) + rest
  {
    hide Decimal;
  }

  lemma {:induction false} AddressReadBack(front: string, a: Address, j: nat, rest: string, b: Address)
    requires j < 4 && (forall k | 0 <= k < 4 :: a[k] <= 255) && (rest == "" || rest[0] == ':')
    requires forall k | 0 <= k < 4 :: b[k] == if k < j then a[k] else 0
    ensures AddressFrom(front + AddressText(a, j) + rest, |front|, j, b) == a
    decreases 4 - j
  {
    hide OctetFrom, Decimal, AddressFrom, AddressText;
    var digits := Decimal(a[j]);
    var back := if j == 3 then rest else "." + AddressText(a, j + 1) + rest;
    var ip, end := front + AddressText(a, j) + rest, |front| + |digits|;
    OctetSplit(front, a, j, rest);
    OctetReadBack(front, a[j], back);
    assert |ip| == end + |back| && (back != "" ==> ip[end] == back[0]);
    AddressStep(ip, |front|, j, b, end, a[j]);
    var b' := b[j := a[j]];
    if j == 3 {
      assert b' == a;
    } else {
      AddressReadBack(front + digits + ".", a, j + 1, rest, b');
    }
  }

  /** What a ban means, for the address of a player: some filter has each of its octets, or a wildcard there. */
  lemma BannedMeansMatched(fs: seq<IpFilter>, ip: string, a: Address, rest: string)
    requires Sound(fs) && IsDotted(ip, a, rest)
    ensures Banned(fs, ip) <==>
      exists i :: 0 <= i < |fs| && fs[i].used && forall j | 0 <= j < 4 :: fs[i].mask[j] == 255 ==> fs[i].compare[j] == a[j]
  {
    hide Decimal, OctetFrom;
    assert ip == "" + AddressText(a, 0) + rest;
    AddressReadBack("", a, 0, rest, [0, 0, 0, 0]);
    assert ip[0] == Decimal(a[0])[0] && Decimal(a[0])[0] in Decimal(a[0]);
    forall i | 0 <= i < |fs|
      ensures Matches(fs[i], a) <==>
        fs[i].used && forall j | 0 <= j < 4 :: fs[i].mask[j] == 255 ==> fs[i].compare[j] == a[j]
    {
      assert Normal(fs[i]);
    }
  }

  // ---------- The list in place ----------

  class BanList {
    const ipFilters: array<IpFilter>
    var numIpFilters: nat
    var active: bool
    /** What outlives the module: ybeproxy_bans.txt, if it exists, and the cvar g_banIPs. */
    var file: Option<string>
    var banIPs: string

    constructor (file: Option<string>, banIPs: string)
      ensures Valid() && Filters() == [] && !active && fresh(ipFilters)
      ensures this.file == file && this.banIPs == banIPs
    {
      ipFilters := new IpFilter[MAX_IP_FILTERS](_ => NO_FILTER);
      numIpFilters, active := 0, false;
      this.file, this.banIPs := file, banIPs;
    }

    ghost predicate Valid()
      reads this, ipFilters
    {
      ipFilters.Length == MAX_IP_FILTERS && numIpFilters <= MAX_IP_FILTERS && Sound(Filters())
    }

    ghost function Filters(): seq<IpFilter>
      requires numIpFilters <= ipFilters.Length
      reads this, ipFilters
    {
      ipFilters[..numIpFilters]
    }

    /** Whether the filter of the text is in the list afterwards; the file is left as it is. */
    method AddIP(str: string, legacy: bool) returns (ok: bool)
      requires Valid() && IsCString(str)
      modifies this`numIpFilters, ipFilters
      ensures Valid() && Filters() == AddedWord(old(Filters()), str, legacy)
      ensures ok <==> Filter(str, legacy).Some? && Has(Filters(), Filter(str, legacy).value)
    {
      hide Filter, Normal, Sound, Has, SameFilter, FreeSlot;
      var parsed := StringToFilter(str, legacy);
      if parsed.None? {
        return false;
      }
      var filter := parsed.value;
      FilterIsUsed(str, legacy);
      ghost var fs := Filters();
      AddedIsSound(fs, filter);

      var freeSlot := -1;
      var i := 0;
      while i < numIpFilters
        invariant 0 <= i <= numIpFilters <= MAX_IP_FILTERS && Filters() == fs
        invariant forall k | 0 <= k < i :: !SameFilter(fs[k], filter)
        invariant -1 <= freeSlot < i
        invariant freeSlot < 0 ==> FreeSlot(fs, 0) == FreeSlot(fs, i)
        invariant freeSlot >= 0 ==> FreeSlot(fs, 0) == freeSlot
      {
        assert fs[i] == ipFilters[i];
        FreeSlotStep(fs, i);
        if SameFilter(ipFilters[i], filter) {
          HasAt(fs, i, filter);
          return true;
        }
        if !ipFilters[i].used && freeSlot < 0 {
          freeSlot := i;
        }
        i := i + 1;
      }
      HasNot(fs, filter);
      FreeSlotStep(fs, |fs|);
      if freeSlot < 0 {
        if numIpFilters == MAX_IP_FILTERS {
          return false;
        }
        freeSlot := numIpFilters;
        numIpFilters := numIpFilters + 1;
      }
      ipFilters[freeSlot] := filter;
      assert Filters() == Added(fs, filter);
      return true;
    }

    /** A removal saves the list, if the file can be opened. */
    method RemoveIP(str: string, opens: bool)
      requires Valid() && IsCString(str)
      modifies this`file, ipFilters
      ensures Valid() && Filters() == Removed(old(Filters()), str)
      ensures file == if Filters() != old(Filters()) && opens then Some(FileText(Filters())) else old(file)
    {
      hide Filter, Normal;
      var filter := StringToFilter(str, false);
      if filter.None? {
        return;
      }
      var legacyFilter := StringToFilter(str, true);
      ghost var fs := Filters();
      RemovedIsSound(fs, str);
      for i := 0 to numIpFilters
        invariant RemovedSlot(fs, 0, filter.value, legacyFilter) == RemovedSlot(fs, i, filter.value, legacyFilter)
      {
        assert fs[i] == ipFilters[i];
        if SameFilter(ipFilters[i], filter.value) || (legacyFilter.Some? && SameFilter(ipFilters[i], legacyFilter.value)) {
          var freed: IpFilter := ipFilters[i].(used := false);
          ipFilters[i] := freed;
          assert Filters() == fs[i := freed];
          assert Filters()[i] != fs[i];
          UpdateIPBans(opens);
          return;
        }
      }
    }

    /** Replaces the whole file, if it can be opened. */
    method UpdateIPBans(opens: bool)
      requires Valid()
      modifies this`file
      ensures Valid() && file == if opens then Some(FileText(Filters())) else old(file)
    {
      if !opens {
        return;
      }
      var text := TextOfFilters();
      file := Some(text);
    }

    method TextOfFilters() returns (text: string)
      requires Valid()
      ensures text == FileText(Filters())
    {
      hide FilterText, Normal;
      text := "";
      ghost var fs := Filters();
      for i := 0 to numIpFilters
        invariant text + FileText(fs[i..]) == FileText(fs)
      {
        assert fs[i] == ipFilters[i] && fs[i..][1..] == fs[i + 1..];
        if ipFilters[i].used {
          assert Normal(fs[i]);
          var ip := FilterLine(ipFilters[i]);
          assert text + (ip + FileText(fs[i + 1..])) == text + ip + FileText(fs[i + 1..]);
          text := text + ip;
        } else {
          assert "" + FileText(fs[i + 1..]) == FileText(fs[i + 1..]);
        }
      }
      assert fs[numIpFilters..] == [];
    }

    method MatchesAddress(f: IpFilter, a: Address) returns (matches: bool)
      requires f.used
      ensures matches <==> Matches(f, a)
    {
      matches := true;
      var j := 0;
      while j < 4 && matches
        invariant 0 <= j <= 4
        invariant matches ==> forall k | 0 <= k < j :: Masked(a[k], f.mask[k]) == f.compare[k]
        invariant !matches ==> !Matches(f, a)
      {
        matches := Masked(a[j], f.mask[j]) == f.compare[j];
        j := j + 1;
      }
    }

    method IsBanned(ip: string) returns (banned: bool)
      requires Valid() && IsCString(ip)
      ensures banned <==> active && Banned(Filters(), ip)
    {
      if !active || CharAt(ip, 0) < '0' || CharAt(ip, 0) > '9' {
        return false;
      }
      hide Matches, Sound;
      var a := ParseAddress(ip);
      ghost var fs := Filters();
      for i := 0 to numIpFilters
        invariant forall k | 0 <= k < i :: !Matches(fs[k], a)
      {
        assert fs[i] == ipFilters[i];
        if ipFilters[i].used {
          var matches := MatchesAddress(ipFilters[i], a);
          if matches {
            return true;
          }
        }
      }
      return false;
    }

    /** The words of a list, added one by one. */
    method AddIPList(list: string, legacy: bool)
      requires Valid() && IsCString(list)
      modifies this`numIpFilters, ipFilters
      ensures Valid() && Filters() == AddedWords(old(Filters()), Words(list), legacy)
    {
      hide AddedWord, Normal, Filter;
      var word := "";
      var c := 0;
      assert list[0..] == list;
      while true
        invariant 0 <= c <= |list| && |word| < WORD_SIZE && IsCString(word)
        invariant Valid()
        invariant AddedWords(old(Filters()), Words(list), legacy)
               == AddedWords(Filters(), WordsFrom(list[c..], word), legacy)
        decreases |list| - c
      {
        if c < |list| {
          assert list[c..][1..] == list[c + 1..];
        }
        if c < |list| && !IsBlank(list[c]) {
          if |word| < WORD_SIZE - 1 {
            word := word + [list[c]];
          }
          c := c + 1;
          continue;
        }
        ghost var rest := if c < |list| then WordsFrom(list[c + 1..], "") else [];
        assert WordsFrom(list[c..], word) == Ended(word) + rest;
        if word != "" {
          assert ([word] + rest)[1..] == rest;
          var _ := AddIP(word, legacy);
          word := "";
        } else {
          assert [] + rest == rest;
        }
        if c == |list| {
          break;
        }
        c := c + 1;
      }
    }

    /**
     * At each map change: the list starts again from the file, then takes over, in the legacy reading, what the retail
     * game had left in g_banIPs, which is emptied and saved with the rest.
     */
    method BeforeGameInit(gameKeepsItsList: bool, opens: bool)
      requires Valid() && (file.Some? ==> IsCString(file.value)) && IsCString(banIPs)
      modifies this, ipFilters
      ensures Valid() && active == !gameKeepsItsList
      ensures gameKeepsItsList ==> Filters() == [] && unchanged(`file, `banIPs)
      ensures !gameKeepsItsList ==>
        var fromFile := if old(file).Some? then AddedWords([], Words(FileRead(old(file).value)), false) else [];
        && Filters() == AddedWords(fromFile, Words(Take(old(banIPs), MAX_CVAR_VALUE_STRING - 1)), true)
        && banIPs == ""
        && file == if old(banIPs) != "" && opens then Some(FileText(Filters())) else old(file)
    {
      active := false;
      numIpFilters := 0;
      for i := 0 to ipFilters.Length
        invariant numIpFilters == 0 && !active && unchanged(`file, `banIPs)
      {
        ipFilters[i] := NO_FILTER;
      }
      if gameKeepsItsList {
        return;
      }
      if file.Some? {
        var buffer := ReadFile(file.value);
        AddIPList(buffer, false);
      }
      if banIPs != "" {
        var list := new char[MAX_CVAR_VALUE_STRING];
        Q_strncpyz(list, banIPs);
        var text := CStr(list[..]);
        AddIPList(text, true);
        banIPs := "";
        UpdateIPBans(opens);
      }
      active := true;
    }
  }

  /** One line, in a buffer of 32 characters. */
  method FilterLine(f: IpFilter) returns (line: string)
    requires Normal(f)
    ensures line == FilterText(f) + "\n"
  {
    hide CStr, StrLen, OctetText, OctetsText;
    var ip := new char[32](_ => NUL);
    CStrIs(ip[..], "");
    ghost var done := "";
    OctetsLine(f, 0);
    for j := 0 to 4
      invariant Terminated(ip[..]) && CStr(ip[..]) == done && |done| <= 4 * j
      invariant done + LineFrom(f, j) == FilterText(f) + "\n"
    {
      OctetTextIsShort(f, j);
      OctetTextIs(f, j);
      Q_strcat(ip, if f.mask[j] != 255 then "*" else Decimal(f.compare[j]));
      ghost var octet := CStr(ip[..]);
      Q_strcat(ip, if j < 3 then "." else "\n");
      OctetsLine(f, j);
      LineStep(done, OctetText(f, j), if j < 3 then "." else "\n", LineFrom(f, j + 1));
      done := CStr(ip[..]);
    }
    line := CStr(ip[..]);
    assert done + "" == done;
  }

  /** What is left to write from octet j on. */
  function LineFrom(f: IpFilter, j: nat): string
    requires j <= 4
  {
    if j == 4 then "" else OctetsText(f, j) + "\n"
  }

  lemma OctetsLine(f: IpFilter, j: nat)
    requires j < 4
    ensures LineFrom(f, j) == OctetText(f, j) + (if j < 3 then "." else "\n") + LineFrom(f, j + 1)
    ensures "" + LineFrom(f, 0) == FilterText(f) + "\n"
  {
    if j < 3 {
      assert OctetText(f, j) + "." + OctetsText(f, j + 1) + "\n"
          == OctetText(f, j) + "." + (OctetsText(f, j + 1) + "\n");
    } else {
      assert OctetText(f, 3) + "\n" + "" == OctetText(f, 3) + "\n";
    }
  }

  lemma LineStep(done: string, octet: string, separator: string, rest: string)
    ensures done + (octet + separator + rest) == done + octet + separator + rest
  {
  }

  lemma OctetTextIs(f: IpFilter, j: nat)
    requires j < 4
    ensures OctetText(f, j) == if f.mask[j] != 255 then "*" else Decimal(f.compare[j])
  {
  }

  lemma OctetTextIsShort(f: IpFilter, j: nat)
    requires Normal(f) && j < 4
    ensures |OctetText(f, j)| <= 3 && IsCString(OctetText(f, j))
  {
    if f.mask[j] == 255 {
      DecimalIsShort(f.compare[j]);
    }
  }

  /** The bytes of the file that the buffer holds, cut at the last whole word when they are not all of it. */
  method ReadFile(text: string) returns (buffer: string)
    requires IsCString(text)
    ensures buffer == FileRead(text) && IsCString(buffer)
  {
    var size := if |text| < BUFFER_SIZE then |text| else BUFFER_SIZE - 1;
    buffer := text[..size];
    if size < |text| {
      var end := size;
      while end > 0 && !IsBlank(buffer[end - 1])
        invariant 0 <= end <= size && LastBlank(text, size) == LastBlank(text, end)
      {
        end := end - 1;
      }
      buffer := buffer[..end];
    }
  }

  method ParseAddress(ip: string) returns (a: Address)
    requires IsCString(ip)
    ensures a == AddressFrom(ip, 0, 0, [0, 0, 0, 0])
  {
    a := [0, 0, 0, 0];
    var part, p := 0, 0;
    while p < |ip| && part < 4
      invariant 0 <= p <= |ip| && 0 <= part <= 4
      invariant AddressFrom(ip, 0, 0, [0, 0, 0, 0]) == AddressFrom(ip, p, part, a)
      decreases 4 - part
    {
      ghost var start, before := p, a;
      while p < |ip| && IsDigit(ip[p])
        invariant start <= p <= |ip| && a == before[part := a[part]]
        invariant OctetFrom(ip, start, before[part]) == OctetFrom(ip, p, a[part])
        decreases |ip| - p
      {
        a := a[part := (a[part] * 10 + DigitValue(ip[p])) % 256];
        p := p + 1;
      }
      if p == |ip| || ip[p] == ':' {
        break;
      }
      part := part + 1;
      p := p + 1;
    }
  }
}
