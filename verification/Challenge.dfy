// Challenges that are not stored, and their key: Engine/Challenge.cpp.

module Challenge {
  import opened Wrappers

  const TWO31 := 0x8000_0000
  const TWO32 := 0x1_0000_0000
  const TWO64 := 0x1_0000_0000_0000_0000
  /** 1 << timestampShift milliseconds. */
  const SLOT := 16384
  const MAX_CHALLENGES := 1024

  type Word = x: int | 0 <= x < TWO64
  type Half = x: int | 0 <= x < TWO32
  type Port = x: int | 0 <= x < 65536

  datatype Key = Key(k0: Word, k1: Word)
  datatype Address = Address(kind: nat, ip: Half, port: Port)

  // ----- SipHash-2-4 -----

  datatype SipState = SipState(v0: bv64, v1: bv64, v2: bv64, v3: bv64)

  function SipRound(v: SipState): SipState {
    var a0 := v.v0 + v.v1;
    var a1 := v.v1.RotateLeft(13) ^ a0;
    var a2 := v.v2 + v.v3;
    var a3 := v.v3.RotateLeft(16) ^ a2;
    var b0 := a0.RotateLeft(32) + a3;
    var b3 := a3.RotateLeft(21) ^ b0;
    var b2 := a2 + a1;
    var b1 := a1.RotateLeft(17) ^ b2;
    SipState(b0, b1, b2.RotateLeft(32), b3)
  }

  function SipAbsorb(v: SipState, m: bv64): SipState {
    var w := SipRound(SipRound(v.(v3 := v.v3 ^ m)));
    w.(v0 := w.v0 ^ m)
  }

  function SipAbsorbAll(v: SipState, message: seq<bv64>): SipState {
    if message == [] then v else SipAbsorb(SipAbsorbAll(v, message[..|message| - 1]), message[|message| - 1])
  }

  function SipFinish(v: SipState): bv64 {
    var w := SipRound(SipRound(SipRound(SipRound(v.(v2 := v.v2 ^ 0xff)))));
    w.v0 ^ w.v1 ^ w.v2 ^ w.v3
  }

  function SipStart(k0: bv64, k1: bv64): SipState {
    SipState(0x736f6d6570736575 ^ k0, 0x646f72616e646f6d ^ k1, 0x6c7967656e657261 ^ k0, 0x7465646279746573 ^ k1)
  }

  /** The last word of a message of two words: its length, 16 bytes, in the top byte. */
  const LENGTH_WORD: bv64 := 0x1000_0000_0000_0000

  function SipHash24(k0: bv64, k1: bv64, m0: bv64, m1: bv64): bv64 {
    SipFinish(SipAbsorbAll(SipStart(k0, k1), [m0, m1, LENGTH_WORD]))
  }

  method ComputeSipHash24(k0: bv64, k1: bv64, m0: bv64, m1: bv64) returns (hash: bv64)
    ensures hash == SipHash24(k0, k1, m0, m1)
  {
    hide SipStart, SipAbsorb, SipFinish;
    var v := SipStart(k0, k1);
    var message := [m0, m1, LENGTH_WORD];
    for i := 0 to |message|
      invariant v == SipAbsorbAll(SipStart(k0, k1), message[..i])
    {
      assert message[..i + 1][..i] == message[..i];
      v := SipAbsorb(v, message[i]);
    }
    assert message[..|message|] == message;
    hash := SipFinish(v);
  }

  /** The published vector: the key and the message are the sixteen bytes 00, 01, ... 0f. */
  lemma ReferenceVector()
    ensures SipHash24(0x0706050403020100, 0x0f0e0d0c0b0a0908, 0x0706050403020100, 0x0f0e0d0c0b0a0908)
         == 0x3f2acc7f57c29bdb
  {
    hide SipAbsorb, SipFinish;
    var m0: bv64, m1: bv64 := 0x0706050403020100, 0x0f0e0d0c0b0a0908;
    var s0 := SipState(0x7469686173716475, 0x6b617f6d656e6665, 0x6b7f62616d677361, 0x7b6b696e727e6c7b);
    var s1 := SipState(0x4a017198de0a59e0, 0x0d52f6f62a4f59a4, 0x634cb3577b01fd3d, 0xa5224d6f55c7d9c8);
    var s2 := SipState(0x3c85b3ab6f55be51, 0x414fc3fb98efe374, 0xccf13ea527b9f4bd, 0x5293f5da84008f82);
    var s3 := SipState(0xf6c6d7ec1865c74f, 0x0638c87527163563, 0x07a5bf3872553dbf, 0x65e9fb586baac831);
    assert SipStart(m0, m1) == s0;
    assert [m0, m1, LENGTH_WORD][..2] == [m0, m1] && [m0, m1][..1] == [m0] && [m0][..0] == [];
    FirstWord(m0, s0, s1);
    SecondWord(m1, s1, s2);
    LastWord(s2, s3);
    assert SipAbsorbAll(s0, [m0]) == s1;
    assert SipAbsorbAll(s0, [m0, m1]) == s2;
    assert SipAbsorbAll(s0, [m0, m1, LENGTH_WORD]) == s3;
    Finished(s3);
  }

  lemma FirstWord(m: bv64, v: SipState, w: SipState)
    requires m == 0x0706050403020100
    requires v == SipState(0x7469686173716475, 0x6b617f6d656e6665, 0x6b7f62616d677361, 0x7b6b696e727e6c7b)
    requires w == SipState(0x4a017198de0a59e0, 0x0d52f6f62a4f59a4, 0x634cb3577b01fd3d, 0xa5224d6f55c7d9c8)
    ensures SipAbsorb(v, m) == w
  {
  }

  lemma SecondWord(m: bv64, v: SipState, w: SipState)
    requires m == 0x0f0e0d0c0b0a0908
    requires v == SipState(0x4a017198de0a59e0, 0x0d52f6f62a4f59a4, 0x634cb3577b01fd3d, 0xa5224d6f55c7d9c8)
    requires w == SipState(0x3c85b3ab6f55be51, 0x414fc3fb98efe374, 0xccf13ea527b9f4bd, 0x5293f5da84008f82)
    ensures SipAbsorb(v, m) == w
  {
  }

  lemma LastWord(v: SipState, w: SipState)
    requires v == SipState(0x3c85b3ab6f55be51, 0x414fc3fb98efe374, 0xccf13ea527b9f4bd, 0x5293f5da84008f82)
    requires w == SipState(0xf6c6d7ec1865c74f, 0x0638c87527163563, 0x07a5bf3872553dbf, 0x65e9fb586baac831)
    ensures SipAbsorb(v, LENGTH_WORD) == w
  {
  }

  lemma Finished(v: SipState)
    requires v == SipState(0xf6c6d7ec1865c74f, 0x0638c87527163563, 0x07a5bf3872553dbf, 0x65e9fb586baac831)
    ensures SipFinish(v) == 0x3f2acc7f57c29bdb
  {
  }

  // ----- The challenges -----

  /** What the hash is given of an address and a timestamp. */
  function Message(from: Address, timestamp: int): (Word, Word) {
    (from.ip + from.port * TWO32, timestamp % TWO32)
  }

  function Bits(w: Word): bv64 { w as bv64 }

  function LowBits(hash: bv64): (h: int)
    ensures 0 <= h < TWO31
  {
    hash as int % TWO31
  }

  /** The low 31 bits of the hash of an address and a timestamp. */
  function Low31(key: Key, from: Address, timestamp: int): (h: int)
    ensures 0 <= h < TWO31
  {
    var m := Message(from, timestamp);
    LowBits(SipHash24(Bits(key.k0), Bits(key.k1), Bits(m.0), Bits(m.1)))
  }

  /** SipHash-2-4 under a key gives two messages the same low 31 bits. */
  predicate Meet(key: Key, m: (Word, Word), m': (Word, Word)) {
    LowBits(SipHash24(Bits(key.k0), Bits(key.k1), Bits(m.0), Bits(m.1)))
    == LowBits(SipHash24(Bits(key.k0), Bits(key.k1), Bits(m'.0), Bits(m'.1)))
  }

  lemma Low31Meet(key: Key, from: Address, timestamp: int, from': Address, timestamp': int)
    ensures Low31(key, from, timestamp) == Low31(key, from', timestamp')
       <==> Meet(key, Message(from, timestamp), Message(from', timestamp'))
  {
    hide SipHash24, Message, Bits, LowBits;
  }

  /** The message tells addresses apart by their number and port, and times by their timestamps, up to 2^32 of them. */
  lemma MessagesDiffer(from: Address, timestamp: int, from': Address, timestamp': int)
    ensures Message(from, timestamp) == Message(from', timestamp')
       <==> from.ip == from'.ip && from.port == from'.port && (timestamp - timestamp') % TWO32 == 0
  {
  }

  /** The timestamp of a server time; the shift of a negative int rounds down, and so does the division. */
  function Timestamp(time: int): int { time / SLOT }

  /** 31 bits of hash, and a sign that tells whether the timestamp is odd. */
  function Challenge(key: Key, from: Address, timestamp: int): (c: int)
    ensures -TWO31 <= c < TWO31
    ensures c < 0 <==> timestamp % 2 == 1
  {
    if timestamp % 2 == 1 then Low31(key, from, timestamp) - TWO31 else Low31(key, from, timestamp)
  }

  /** Of the last two timestamps, the one whose parity the challenge has. */
  function Tried(challenge: int, timestamp: int): int {
    timestamp - if (timestamp % 2 == 1) == (challenge < 0) then 0 else 1
  }

  predicate Accepts(key: Key, challenge: int, from: Address, time: int) {
    challenge == Challenge(key, from, Tried(challenge, Timestamp(time)))
  }

  /** What Verify accepts is exactly the challenge of the current timestamp and the one of the timestamp before. */
  lemma AcceptsTheLastTwo(key: Key, challenge: int, from: Address, time: int)
    ensures Accepts(key, challenge, from, time)
       <==> challenge == Challenge(key, from, Timestamp(time)) || challenge == Challenge(key, from, Timestamp(time) - 1)
  {
    hide Low31, Timestamp;
  }

  /** No challenge expires in its first 16.384 seconds. */
  lemma ValidForOneSlot(key: Key, from: Address, t0: int, t1: int)
    requires t0 <= t1 <= t0 + SLOT
    ensures Accepts(key, Challenge(key, from, Timestamp(t0)), from, t1)
  {
    hide Low31;
    assert Timestamp(t1) == Timestamp(t0) || Timestamp(t1) - 1 == Timestamp(t0);
    AcceptsTheLastTwo(key, Challenge(key, from, Timestamp(t0)), from, t1);
  }

  /**
   * The challenge sent to one address at t0, coming from any address at any later time, is accepted exactly when two
   * hashes meet in 31 bits: that of the first address and its timestamp, and that of the other address with the one of
   * the last two timestamps that has the parity of the first.
   */
  lemma AcceptedWhenHashesMeet(key: Key, to: Address, from: Address, t0: int, t1: int)
    ensures var challenge := Challenge(key, to, Timestamp(t0));
            var tried := Tried(challenge, Timestamp(t1));
            && Timestamp(t1) - 1 <= tried <= Timestamp(t1) && tried % 2 == Timestamp(t0) % 2
            && (Accepts(key, challenge, from, t1)
                <==> Meet(key, Message(to, Timestamp(t0)), Message(from, tried)))
  {
    hide Low31, Timestamp, Meet, Message;
    Low31Meet(key, to, Timestamp(t0), from, Tried(Challenge(key, to, Timestamp(t0)), Timestamp(t1)));
  }

  /**
   * From 32.768 seconds on, a challenge is accepted for its own address only if SipHash gives two different messages the
   * same 31 bits; and at any time, for an address with another number or another port only if it does.
   */
  lemma StaleOrForeignNeedsACollision(key: Key, to: Address, from: Address, t0: int, t1: int)
    requires Accepts(key, Challenge(key, to, Timestamp(t0)), from, t1)
    requires (-TWO31 <= t0 && t0 + 2 * SLOT <= t1 < TWO31) || (to.ip, to.port) != (from.ip, from.port)
    ensures exists m, m', tried: int {:trigger Meet(key, m, m'), Message(from, tried)} ::
      && Timestamp(t1) - 1 <= tried <= Timestamp(t1)
      && m == Message(to, Timestamp(t0)) && m' == Message(from, tried) && m != m'
      && Meet(key, m, m')
  {
    hide Low31, Meet;
    AcceptedWhenHashesMeet(key, to, from, t0, t1);
    var tried := Tried(Challenge(key, to, Timestamp(t0)), Timestamp(t1));
    hide Message;
    MessagesDiffer(to, Timestamp(t0), from, tried);
    assert Meet(key, Message(to, Timestamp(t0)), Message(from, tried));
  }

  // ----- The key in its cvar -----

  function HexDigit(d: int): char
    requires 0 <= d < 16
  {
    "0123456789abcdef"[d]
  }

  /** %0nx. */
  function PrintHex(w: int, n: nat): (s: string)
    requires 0 <= w
    ensures |s| == n
  {
    if n == 0 then "" else PrintHex(w / 16, n - 1) + [HexDigit(w % 16)]
  }

  function HexValue(c: char): Option<int> {
    if '0' <= c <= '9' then Some(c as int - '0' as int)
    else if 'a' <= c <= 'f' then Some(c as int - 'a' as int + 10)
    else if 'A' <= c <= 'F' then Some(c as int - 'A' as int + 10)
    else None
  }

  /** The number of a string of hexadecimal digits. */
  function HexNumber(s: string): Option<nat> {
    if s == "" then Some(0)
    else
      var front, last := HexNumber(s[..|s| - 1]), HexValue(s[|s| - 1]);
      if front.None? || last.None? then None else Some(16 * front.value + last.value)
  }

  /** How many digits %16x takes. */
  function DigitCount(s: string, most: nat): (n: nat)
    ensures n <= |s| && n <= most
    ensures forall i | 0 <= i < n :: HexValue(s[i]).Some?
  {
    if s == "" || most == 0 || HexValue(s[0]).None? then 0 else 1 + DigitCount(s[1..], most - 1)
  }

  function Pow16(n: nat): (p: nat)
    ensures p > 0
  {
    if n == 0 then 1 else 16 * Pow16(n - 1)
  }

  lemma {:induction false} DigitsMakeANumber(s: string)
    requires forall i | 0 <= i < |s| :: HexValue(s[i]).Some?
    ensures HexNumber(s).Some? && HexNumber(s).value < Pow16(|s|)
  {
    if s != "" {
      DigitsMakeANumber(s[..|s| - 1]);
    }
  }

  lemma WordsFit()
    ensures Pow16(16) == TWO64
  {
    assert Pow16(4) == 65536;
    assert Pow16(8) == 65536 * 65536;
    assert Pow16(12) == 65536 * 65536 * 65536;
  }

  function BlankCount(s: string): (n: nat)
    ensures n <= |s|
  {
    if s == "" || !(s[0] == ' ' || '\t' <= s[0] <= '\r') then 0 else 1 + BlankCount(s[1..])
  }

  function SignCount(s: string): nat { if s != "" && (s[0] == '+' || s[0] == '-') then 1 else 0 }

  function PrefixCount(s: string): (n: nat)
    ensures n <= |s|
  {
    if |s| >= 2 && s[0] == '0' && (s[1] == 'x' || s[1] == 'X') then 2 else 0
  }

  datatype Scanned = Scanned(word: Word, end: nat)

  /** %16x: blanks, then a sign, a 0x and digits in 16 characters; none when there is no digit. */
  function ScanWord(s: string): (r: Option<Scanned>)
    ensures r.Some? ==> r.value.end <= |s|
  {
    var blanks := BlankCount(s);
    var item := s[blanks..if |s| - blanks < 16 then |s| else blanks + 16];
    var first := SignCount(item) + PrefixCount(item[SignCount(item)..]);
    var n := DigitCount(item[first..], 16);
    if n == 0 then None
    else
      var value := DigitsWord(item[first..], n);
      Some(Scanned(if item[0] == '-' then (TWO64 - value) % TWO64 else value, blanks + first + n))
  }

  /** %16x twice: two words, or fewer than the scan needs. */
  function ScanKey(s: string): Option<Key> {
    match ScanWord(s)
    case None => None
    case Some(first) =>
      match ScanWord(s[first.end..])
      case None => None
      case Some(second) => Some(Key(first.word, second.word))
  }

  function DigitsWord(s: string, n: nat): Word
    requires n <= |s| && n <= 16
    requires forall i | 0 <= i < n :: HexValue(s[i]).Some?
  {
    DigitsMakeANumber(s[..n]);
    Pow16Grows(n, 16);
    WordsFit();
    HexNumber(s[..n]).value
  }

  lemma {:induction false} Pow16Grows(m: nat, n: nat)
    requires m <= n
    ensures Pow16(m) <= Pow16(n)
    decreases n
  {
    if m < n {
      Pow16Grows(m, n - 1);
    }
  }

  function PrintKey(key: Key): string { PrintHex(key.k0, 16) + PrintHex(key.k1, 16) }

  lemma {:induction false} PrintedNumber(w: int, n: nat)
    requires 0 <= w < Pow16(n)
    ensures HexNumber(PrintHex(w, n)) == Some(w)
    ensures forall i | 0 <= i < n :: HexValue(PrintHex(w, n)[i]).Some?
  {
    hide HexDigit, HexValue;
    if n > 0 {
      var high, low := w / 16, w % 16;
      assert w == 16 * high + low && high < Pow16(n - 1);
      PrintedNumber(high, n - 1);
      DigitReadBack(low);
      assert PrintHex(w, n)[..n - 1] == PrintHex(high, n - 1);
      assert forall i | 0 <= i < n - 1 :: PrintHex(w, n)[i] == PrintHex(high, n - 1)[i];
    }
  }

  lemma DigitReadBack(d: int)
    requires 0 <= d < 16
    ensures HexValue(HexDigit(d)) == Some(d)
  {
  }

  lemma {:induction false} AllDigits(s: string, most: nat)
    requires forall i | 0 <= i < most && i < |s| :: HexValue(s[i]).Some?
    ensures DigitCount(s, most) == if |s| < most then |s| else most
  {
    if s != "" && most > 0 {
      AllDigits(s[1..], most - 1);
    }
  }

  /** A word as it is printed is scanned whole, whatever follows. */
  lemma PrintedWordIsScanned(w: Word, rest: string)
    ensures ScanWord(PrintHex(w, 16) + rest) == Some(Scanned(w, 16))
  {
    hide HexNumber, PrintHex, HexValue, DigitCount;
    WordsFit();
    PrintedNumber(w, 16);
    var digits := PrintHex(w, 16);
    var s := digits + rest;
    assert s[0] == digits[0] && s[1] == digits[1];
    DigitsOnly(digits[0]);
    DigitsOnly(digits[1]);
    AllDigits(digits, 16);
    assert s[0..16] == digits && digits[0..] == digits && digits[..16] == digits;
  }

  lemma DigitsOnly(c: char)
    requires HexValue(c).Some?
    ensures c != ' ' && !('\t' <= c <= '\r') && c != '+' && c != '-' && c != 'x' && c != 'X'
  {
  }

  /** The key that is kept across a reload is the key that is read back. */
  lemma KeyRoundTrip(key: Key)
    ensures ScanKey(PrintKey(key)) == Some(key)
  {
    hide ScanWord, PrintHex;
    var s0, s1 := PrintHex(key.k0, 16), PrintHex(key.k1, 16);
    PrintedWordIsScanned(key.k0, s1);
    PrintedWordIsScanned(key.k1, "");
    assert (s0 + s1)[16..] == s1 && s1 + "" == s1;
  }

  // ----- The table of the engine, and the module -----

  datatype Entry = Entry(adr: Address, challenge: int, time: int, pingTime: int, firstTime: int, connected: bool)

  /** NET_CompareBaseAdr is not part of this model: any way to compare two addresses. */
  type Compare = (Address, Address) -> bool

  predicate Matches(same: Compare, e: Entry, challenge: int, from: Address) {
    e.challenge == challenge && from.port == e.adr.port && same(from, e.adr)
  }

  predicate IsFirstMatch(same: Compare, table: seq<Entry>, i: nat, challenge: int, from: Address) {
    && i < |table| && Matches(same, table[i], challenge, from)
    && forall j | 0 <= j < i :: !Matches(same, table[j], challenge, from)
  }

  predicate IsOldest(table: seq<Entry>, i: nat) {
    && i < |table|
    && (forall j | 0 <= j < |table| :: table[i].time <= table[j].time)
    && forall j | 0 <= j < i :: table[i].time < table[j].time
  }

  /** An entry of the table that no connect has taken yet. */
  predicate Unused(e: Entry) { e.adr == Address(0, 0, 0) && e.challenge == 0 && e.firstTime == 0 }

  /** An entry that was taken by an address that had received its challenge: it was accepted when it came. */
  predicate Answered(key: Option<Key>, e: Entry) {
    Unused(e) || (key.Some? && Accepts(key.value, e.challenge, e.adr, e.firstTime))
  }

  /** ping = max(0, minPing) makes a connect pass both limits. */
  function PingTime(time: int, minPing: int): int { time - if minPing > 0 then minPing else 0 }

  /** Such a ping is neither too low nor too high, unless every ping is one of the two. */
  lemma PingPasses(time: int, minPing: int, maxPing: int)
    ensures var ping := time - PingTime(time, minPing);
      && ping >= 0 && ping >= minPing
      && (0 < maxPing && minPing <= maxPing ==> ping <= maxPing)
  {
  }

  class Challenges {
    var time: int
    /** The cvar outlives the module; the two others do not. */
    var keyCvar: string
    var key: Key
    var keyLoaded: bool
    const challenges: array<Entry>
    const same: Compare

    /** A loaded key is the key of the cvar, and every entry in use was taken by an address that answered. */
    ghost predicate Valid()
      reads this, challenges
    {
      && challenges.Length == MAX_CHALLENGES
      && (keyLoaded ==> ScanKey(keyCvar) == Some(key))
      && forall i | 0 <= i < challenges.Length :: Answered(ScanKey(keyCvar), challenges[i])
    }

    constructor (same: Compare)
      ensures Valid() && !keyLoaded && keyCvar == "" && this.same == same
      ensures forall i | 0 <= i < challenges.Length :: Unused(challenges[i])
    {
      this.same := same;
      time, keyCvar, keyLoaded, key := 0, "", false, Key(0, 0);
      challenges := new Entry[MAX_CHALLENGES](_ => Entry(Address(0, 0, 0), 0, 0, 0, 0, false));
    }

    /** The engine loads the module anew. */
    method Reload()
      requires Valid()
      modifies this
      ensures Valid() && !keyLoaded
      ensures unchanged(`time, `keyCvar)
    {
      hide ScanKey, Accepts;
      keyLoaded, key := false, Key(0, 0);
    }

    /** A key in the cvar is kept; anything else is replaced by a random key. */
    method LoadKey(random: Key)
      requires Valid()
      modifies this
      ensures Valid() && keyLoaded && unchanged(`time)
      ensures ScanKey(keyCvar) == Some(key)
      ensures match old(ScanKey(keyCvar)) case Some(k) => key == k && unchanged(`keyCvar) case None => key == random
    {
      hide ScanKey, Accepts;
      var scanned := ScanKey(keyCvar);
      if scanned.Some? {
        key := scanned.value;
      } else {
        key := random;
        KeyRoundTrip(key);
        keyCvar := PrintKey(key);
      }
      keyLoaded := true;
    }

    method Create(timestamp: int, from: Address, random: Key) returns (challenge: int)
      requires Valid()
      modifies this
      ensures Valid() && keyLoaded && unchanged(`time)
      ensures match old(ScanKey(keyCvar)) case Some(k) => key == k && unchanged(`keyCvar) case None => key == random
      ensures challenge == Challenge(key, from, timestamp)
    {
      hide ScanKey, Accepts;
      if !keyLoaded {
        LoadKey(random);
      }
      challenge := Challenge(key, from, timestamp);
    }

    /** getchallenge: the table does not change. */
    method Answer(from: Address, random: Key) returns (challenge: int)
      requires Valid()
      modifies this
      ensures Valid() && keyLoaded && unchanged(`time)
      ensures match old(ScanKey(keyCvar)) case Some(k) => key == k && unchanged(`keyCvar) case None => key == random
      ensures challenge == Challenge(key, from, Timestamp(time))
    {
      hide ScanKey, Accepts;
      challenge := Create(Timestamp(time), from, random);
    }

    method Verify(challenge: int, from: Address, random: Key) returns (valid: bool)
      requires Valid()
      modifies this
      ensures Valid() && keyLoaded && unchanged(`time)
      ensures match old(ScanKey(keyCvar)) case Some(k) => key == k && unchanged(`keyCvar) case None => key == random
      ensures valid <==> Accepts(key, challenge, from, time)
    {
      hide ScanKey;
      var created := Create(Tried(challenge, Timestamp(time)), from, random);
      valid := challenge == created;
    }

    /** The search of a connect: its entry, or the oldest one. */
    method Find(challenge: int, from: Address) returns (entry: Option<nat>, oldest: nat)
      requires challenges.Length == MAX_CHALLENGES
      ensures match entry
              case Some(i) => IsFirstMatch(same, challenges[..], i, challenge, from)
              case None => IsOldest(challenges[..], oldest)
                           && forall i | 0 <= i < challenges.Length :: !Matches(same, challenges[i], challenge, from)
    {
      oldest := 0;
      for it := 0 to MAX_CHALLENGES
        invariant forall j | 0 <= j < it :: !Matches(same, challenges[j], challenge, from)
        invariant oldest == 0 || oldest < it
        invariant forall j | 0 <= j < it :: challenges[oldest].time <= challenges[j].time
        invariant forall j | 0 <= j < oldest :: challenges[oldest].time < challenges[j].time
      {
        if Matches(same, challenges[it], challenge, from) {
          return Some(it), oldest;
        }
        if challenges[it].time < challenges[oldest].time {
          oldest := it;
        }
      }
      return None, oldest;
    }

    /**
     * A connect. The first entry with its challenge and address, else, when the challenge is valid, the oldest entry,
     * made anew; a connect with neither changes nothing. The original then finds the entry, if an address is the same
     * as itself, and finds none when there was none and the challenge is not valid.
     */
    method Admit(from: Address, challenge: int, minPing: int, random: Key) returns (entry: Option<nat>)
      requires Valid()
      modifies this, challenges
      ensures Valid() && unchanged(`time)
      ensures old(ScanKey(keyCvar)).Some? ==> unchanged(`keyCvar)
      ensures entry.None? ==> challenges[..] == old(challenges[..])
      ensures entry.None? <==>
        && (forall i | 0 <= i < challenges.Length :: !Matches(same, old(challenges[i]), challenge, from))
        && ScanKey(keyCvar).Some? && !Accepts(ScanKey(keyCvar).value, challenge, from, time)
      ensures entry.Some? ==> entry.value < challenges.Length
      ensures entry.Some? ==>
        if exists i | 0 <= i < challenges.Length :: Matches(same, old(challenges[i]), challenge, from) then
          && IsFirstMatch(same, old(challenges[..]), entry.value, challenge, from)
          && challenges[..] == old(challenges[..])[entry.value :=
               old(challenges[entry.value]).(pingTime := PingTime(time, minPing))]
        else
          && IsOldest(old(challenges[..]), entry.value)
          && challenges[..] == old(challenges[..])[entry.value :=
               Entry(from, challenge, time, PingTime(time, minPing), time, false)]
      ensures same(from, from) ==>
        (entry.Some? <==> exists i | 0 <= i < challenges.Length :: Matches(same, challenges[i], challenge, from))
    {
      hide ScanKey, Accepts;
      var oldest;
      entry, oldest := Find(challenge, from);
      if entry.None? {
        var valid := Verify(challenge, from, random);
        if !valid {
          return;
        }
        entry := Some(oldest);
        challenges[oldest] := Entry(from, challenge, time, challenges[oldest].pingTime, time, false);
      }
      challenges[entry.value] := challenges[entry.value].(pingTime := PingTime(time, minPing));
    }

    /** Loading the module anew between the two does not part an answer from its connect. */
    method ConnectAfterReload(from: Address, later: int, minPing: int, random: Key, otherRandom: Key)
      returns (entry: Option<nat>)
      requires Valid() && time <= later <= time + SLOT
      modifies this, challenges
      ensures Valid() && entry.Some? && entry.value < challenges.Length && ScanKey(keyCvar).Some?
      ensures challenges[entry.value].challenge == Challenge(ScanKey(keyCvar).value, from, Timestamp(old(time)))
      ensures challenges[entry.value].adr.port == from.port
    {
      hide ScanKey, Accepts, Timestamp, Low31;
      var sent := time;
      var challenge := Answer(from, random);
      Reload();
      time := later;
      ValidForOneSlot(ScanKey(keyCvar).value, from, sent, later);
      entry := Admit(from, challenge, minPing, otherRandom);
    }
  }
}
