// The check of the paks of a pure client: Proxy_SV_VerifyPaks_f of Engine/Hooks/server/sv_client.cpp.

module PurePaks {
  import opened Wrappers

  const MAX_PAKS := 1024

  /** An argument of the command, as the check reads it: whether it starts with '@', and its value by atoi. */
  datatype Argument = Argument(delimiter: bool, value: bv32)

  function Xor(a: bv32, b: bv32): bv32 { a ^ b }

  /** The exclusive or of the sums, from a seed. */
  function Mix(seed: bv32, sums: seq<bv32>): bv32 {
    if sums == [] then seed else Xor(Mix(seed, sums[..|sums| - 1]), sums[|sums| - 1])
  }

  function Word(n: nat): bv32
    requires n <= MAX_PAKS
  {
    n as bv32
  }

  /** The last sum that a client with these sums has to send. */
  function Checksum(feed: bv32, sums: seq<bv32>): bv32
    requires |sums| <= MAX_PAKS
  {
    Xor(Mix(feed, sums), Word(|sums|))
  }

  /** No sums give the feed; one more takes the old count out, and itself and the new count in. */
  lemma ChecksumOfMore(feed: bv32, sums: seq<bv32>, sum: bv32)
    requires |sums| < MAX_PAKS
    ensures Checksum(feed, []) == feed
    ensures Checksum(feed, sums + [sum]) == Xor(Xor(Xor(Checksum(feed, sums), Word(|sums|)), sum), Word(|sums| + 1))
  {
    hide Mix, Word, Xor;
    MixOfNone(feed);
    MixOfMore(feed, sums, sum);
    OutAgain(Mix(feed, sums), Word(|sums|));
  }

  lemma OutAgain(a: bv32, b: bv32)
    ensures Xor(Xor(a, b), b) == a
  {
  }

  lemma MixOfNone(feed: bv32)
    ensures Mix(feed, []) == feed && Xor(feed, Word(0)) == feed
  {
  }

  lemma MixOfMore(feed: bv32, sums: seq<bv32>, sum: bv32)
    ensures Mix(feed, sums + [sum]) == Xor(Mix(feed, sums), sum)
  {
    hide Xor;
    assert (sums + [sum])[..|sums|] == sums;
  }

  /** The order of the sums does not matter to it. */
  lemma ChecksumIgnoresOrder(feed: bv32, a: seq<bv32>, x: bv32, y: bv32, b: seq<bv32>)
    requires |a| + |b| + 2 <= MAX_PAKS
    ensures Checksum(feed, a + [x, y] + b) == Checksum(feed, a + [y, x] + b)
  {
    hide Mix, Xor, Word;
    MixSwapped(feed, a, x, y, b);
  }

  lemma {:induction false} MixSwapped(feed: bv32, a: seq<bv32>, x: bv32, y: bv32, b: seq<bv32>)
    ensures Mix(feed, a + [x, y] + b) == Mix(feed, a + [y, x] + b)
    decreases |b|
  {
    hide Mix, Xor;
    if b == [] {
      assert a + [x, y] + b == a + [x] + [y] && a + [y, x] + b == a + [y] + [x];
      MixOfMore(feed, a + [x], y);
      MixOfMore(feed, a, x);
      MixOfMore(feed, a + [y], x);
      MixOfMore(feed, a, y);
      Swap(Mix(feed, a), x, y);
    } else {
      var rest, last := b[..|b| - 1], b[|b| - 1];
      assert a + [x, y] + b == a + [x, y] + rest + [last] && a + [y, x] + b == a + [y, x] + rest + [last];
      MixSwapped(feed, a, x, y, rest);
      MixOfMore(feed, a + [x, y] + rest, last);
      MixOfMore(feed, a + [y, x] + rest, last);
    }
  }

  lemma Swap(mix: bv32, x: bv32, y: bv32)
    ensures Xor(Xor(mix, x), y) == Xor(Xor(mix, y), x)
  {
    hide Xor;
    Together(mix, x, y);
    Together(mix, y, x);
    EitherWay(x, y);
  }

  lemma Together(mix: bv32, x: bv32, y: bv32)
    ensures Xor(Xor(mix, x), y) == Xor(mix, Xor(x, y))
  {
  }

  lemma EitherWay(x: bv32, y: bv32)
    ensures Xor(x, y) == Xor(y, x)
  {
  }

  ghost predicate Distinct(sums: seq<bv32>) { forall i, j | 0 <= i < j < |sums| :: sums[i] != sums[j] }

  ghost predicate AllIn(sums: seq<bv32>, server: seq<bv32>) { forall i | 0 <= i < |sums| :: sums[i] in server }

  function Values(args: seq<Argument>): (r: seq<bv32>)
    ensures |r| == |args| && forall i | 0 <= i < |args| :: r[i] == args[i].value
  {
    seq(|args|, i requires 0 <= i < |args| => args[i].value)
  }

  /** "cp" cgame ui @ the sums ... and a last one that says how many there were. */
  function ClientSums(args: seq<Argument>): seq<bv32>
    requires 6 <= |args|
  {
    Values(args[4..|args| - 1])
  }

  /**
   * What a pure client has to say: the sums of the server's cgame and ui, the delimiter, then distinct sums, all of
   * paks that the server has loaded, and a last one made of the feed, the sums and their number.
   */
  ghost predicate Pure(cgame: Option<bv32>, ui: Option<bv32>, args: seq<Argument>, server: seq<bv32>, feed: bv32) {
    && cgame.Some? && ui.Some?
    && 6 <= |args| <= MAX_PAKS
    && !args[1].delimiter && args[1].value == cgame.value
    && !args[2].delimiter && args[2].value == ui.value
    && args[3].delimiter
    && var sums := ClientSums(args);
    && Distinct(sums)
    && AllIn(sums, Loaded(server))
    && args[|args| - 1].value == Checksum(feed, sums)
  }

  /** atoi of the arguments from the fifth on. */
  method StoreSums(args: seq<Argument>) returns (clientSums: array<bv32>, count: nat)
    requires 6 <= |args| <= MAX_PAKS
    ensures fresh(clientSums) && clientSums.Length == MAX_PAKS && count == |args| - 4
    ensures clientSums[..count - 1] == ClientSums(args)
    ensures clientSums[count - 1] == args[|args| - 1].value
  {
    clientSums := new bv32[MAX_PAKS](_ => 0);
    count := 0;
    var arg := 4;
    while arg < |args|
      invariant 4 <= arg <= |args| && count == arg - 4
      invariant forall k | 0 <= k < count :: clientSums[k] == args[4 + k].value
    {
      clientSums[count] := args[arg].value;
      arg := arg + 1;
      count := count + 1;
    }
  }

  /** The first 1024 of the server's sums. */
  function Loaded(server: seq<bv32>): (r: seq<bv32>)
    ensures |r| <= MAX_PAKS && r <= server
  {
    server[..if |server| < MAX_PAKS then |server| else MAX_PAKS]
  }

  method StoreServerSums(server: seq<bv32>) returns (serverSums: array<bv32>, serverPaks: nat)
    ensures fresh(serverSums) && serverPaks <= serverSums.Length && serverSums[..serverPaks] == Loaded(server)
  {
    serverPaks := if |server| > MAX_PAKS then MAX_PAKS else |server|;
    serverSums := new bv32[MAX_PAKS](_ => 0);
    for i := 0 to serverPaks
      invariant serverSums[..i] == server[..i]
    {
      serverSums[i] := server[i];
      assert serverSums[..i + 1] == serverSums[..i] + [server[i]];
    }
  }

  /** The loop of exclusive ors, and the number of sums. */
  method MixSums(feed: bv32, clientSums: array<bv32>, paks: nat) returns (mixed: bv32)
    requires paks <= clientSums.Length == MAX_PAKS
    ensures mixed == Checksum(feed, clientSums[..paks])
  {
    hide Word, Xor;
    mixed := feed;
    for i := 0 to paks
      invariant mixed == Mix(feed, clientSums[..i])
    {
      assert clientSums[..i + 1][..i] == clientSums[..i];
      mixed := Xor(mixed, clientSums[i]);
    }
    mixed := Xor(mixed, Word(paks));
  }

  /** The checks of the loop that is left at the first of them that fails; at most 1024 tokens come out of the tokenizer. */
  method IsGood(cgame: Option<bv32>, ui: Option<bv32>, args: seq<Argument>, server: seq<bv32>, feed: bv32)
    returns (good: bool)
    requires |args| <= MAX_PAKS
    ensures good <==> Pure(cgame, ui, args, server, feed)
  {
    hide Distinct, AllIn, Checksum, Loaded, ClientSums;
    if cgame.None? || ui.None? {
      return false;
    }
    if |args| < 6 {
      return false;
    }
    if args[1].delimiter || args[1].value != cgame.value {
      return false;
    }
    if args[2].delimiter || args[2].value != ui.value {
      return false;
    }
    if !args[3].delimiter {
      return false;
    }

    var clientSums, count := StoreSums(args);
    var paks := count - 1;
    var distinct := AreDistinct(clientSums, paks);
    if !distinct {
      return false;
    }

    var serverSums, serverPaks := StoreServerSums(server);
    var known := AreKnown(clientSums, paks, serverSums, serverPaks);
    if !known {
      return false;
    }

    var mixed := MixSums(feed, clientSums, paks);
    return mixed == clientSums[paks];
  }

  /** The two loops that look for the same sum twice. */
  method AreDistinct(clientSums: array<bv32>, paks: nat) returns (distinct: bool)
    requires paks <= clientSums.Length
    ensures distinct <==> Distinct(clientSums[..paks])
  {
    ghost var sums := clientSums[..paks];
    for i := 0 to paks
      invariant forall a, b | 0 <= a < i && 0 <= b < paks && a != b :: sums[a] != sums[b]
    {
      for j := 0 to paks
        invariant forall b | 0 <= b < j && b != i :: sums[i] != sums[b]
      {
        if i != j && clientSums[i] == clientSums[j] {
          assert sums[if i < j then i else j] == sums[if i < j then j else i];
          return false;
        }
      }
    }
    return true;
  }

  /** The two loops that look for a sum that the server does not have. */
  method AreKnown(clientSums: array<bv32>, paks: nat, serverSums: array<bv32>, serverPaks: nat) returns (known: bool)
    requires paks <= clientSums.Length && serverPaks <= serverSums.Length
    ensures known <==> AllIn(clientSums[..paks], serverSums[..serverPaks])
  {
    ghost var sums, server := clientSums[..paks], serverSums[..serverPaks];
    for i := 0 to paks
      invariant forall a | 0 <= a < i :: sums[a] in server
    {
      var j := 0;
      while j < serverPaks
        invariant 0 <= j <= serverPaks && forall b | 0 <= b < j :: server[b] != sums[i]
      {
        if clientSums[i] == serverSums[j] {
          break;
        }
        j := j + 1;
      }
      if j >= serverPaks {
        assert sums[i] !in server;
        return false;
      }
      assert server[j] == sums[i];
    }
    return true;
  }

  /** Distinct sums that are all in a list are not more than the list. */
  lemma {:induction false} DistinctAreFewer(sums: seq<bv32>, server: seq<bv32>)
    requires Distinct(sums) && AllIn(sums, server)
    ensures |sums| <= |server|
    decreases |sums|
  {
    if sums != [] {
      var last, rest := sums[|sums| - 1], sums[..|sums| - 1];
      var k :| 0 <= k < |server| && server[k] == last;
      var others := server[..k] + server[k + 1..];
      forall i | 0 <= i < |rest|
        ensures rest[i] in others
      {
        assert rest[i] == sums[i] && sums[i] != last;
        var m :| 0 <= m < |server| && server[m] == sums[i];
        assert others[if m < k then m else m - 1] == sums[i];
      }
      DistinctAreFewer(rest, others);
    }
  }

  /** An accepted client lists no more paks than the server has loaded, and the server knows each of them. */
  lemma PureListsNoMore(cgame: Option<bv32>, ui: Option<bv32>, args: seq<Argument>, server: seq<bv32>, feed: bv32)
    requires Pure(cgame, ui, args, server, feed)
    ensures |args| - 5 <= |server| && |args| - 5 <= MAX_PAKS - 5
    ensures forall i | 4 <= i < |args| - 1 :: args[i].value in server
  {
    var sums := ClientSums(args);
    var loaded := Loaded(server);
    DistinctAreFewer(sums, loaded);
    forall i | 4 <= i < |args| - 1
      ensures args[i].value in server
    {
      assert sums[i - 4] == args[i].value && sums[i - 4] in loaded;
    }
  }
}
