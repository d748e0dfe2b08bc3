// The packets of a client: Proxy_SV_ClientCommand, Proxy_SV_UserMove, Proxy_SV_ExecuteClientMessage,
// Proxy_SV_SendClientGameState and Proxy_SV_VerifyPaks_f of Engine/Hooks/server/sv_client.cpp, and the usercmds that
// Engine/NetStatus.cpp counts.

module ClientMessages {
  import opened Wrappers
  import PurePaks

  const MAX_PACKET_USERCMDS := 32
  const MAX_RELIABLE_COMMANDS := 128
  const MAX_STRING_CHARS := 1024

  /** A reliable command, with the number that the client gave it. */
  datatype Command = Command(number: int, text: string)

  /** What a message holds after its header; of a usercmd, its server time. */
  datatype Op = ClientCommand(command: Command) | Move(delta: bool, times: seq<int>) | Eof | Other

  datatype Message = Message(serverId: int, acknowledge: int, reliable: int, ops: seq<Op>)

  datatype Server = Server(time: int, serverId: int, restartedServerId: int, pure: bool, floodProtect: bool,
                           clRunning: bool)

  datatype State = Free | Zombie | Connected | Primed | Active

  /**
   * A command that was run at a time: whether its text counted, whether the flood protection looked at it, and how it
   * left the client.
   */
  datatype Executed = Executed(command: Command, ok: bool, guarded: bool, time: int, state: State, authentic: bool)

  // ----- Reliable commands -----

  /** The commands of a message that are run when the last one that was run had this number. */
  function NewCommands(last: int, commands: seq<Command>): seq<Command>
    decreases |commands|
  {
    if commands == [] then []
    else if commands[0].number <= last then NewCommands(last, commands[1..])
    else if commands[0].number > last + 1 then []
    else [commands[0]] + NewCommands(last + 1, commands[1..])
  }

  /** No command of a message is further on than the next one. */
  predicate NoGap(last: int, commands: seq<Command>)
    decreases |commands|
  {
    commands == []
    || (if commands[0].number <= last then NoGap(last, commands[1..])
        else commands[0].number == last + 1 && NoGap(last + 1, commands[1..]))
  }

  /** The numbers go up one by one to the last. */
  ghost predicate EndsAt(executed: seq<Executed>, last: int) {
    forall i | 0 <= i < |executed| :: executed[i].command.number == last - |executed| + 1 + i
  }

  /** The flood protection lets a command through a second after the one before, and no earlier. */
  ghost predicate Spaced(executed: seq<Executed>) {
    forall i | 0 < i < |executed| ::
      executed[i].guarded ==> (executed[i].ok <==> executed[i].time >= executed[i - 1].time + 1000)
  }

  function Commands(executed: seq<Executed>): seq<Command> {
    seq(|executed|, i requires 0 <= i < |executed| => executed[i].command)
  }

  // ----- The times of the usercmds of a packet -----

  ghost predicate Increasing(times: seq<int>) { forall i, j | 0 <= i < j < |times| :: times[i] < times[j] }

  /** The usercmds that are run: none from after the newest one, and each later than the last one that was run. */
  function Runs(times: seq<int>, newest: int, last: int): seq<int> {
    if times == [] then []
    else if times[0] > newest || times[0] <= last then Runs(times[1..], newest, last)
    else [times[0]] + Runs(times[1..], newest, times[0])
  }

  /** The usercmds that PacketReceived counts beforehand. */
  function Counted(times: seq<int>, newest: int, last: int): seq<int> {
    if times == [] then []
    else if times[0] > newest || times[0] <= last then Counted(times[1..], newest, last)
    else [times[0]] + Counted(times[1..], newest, last)
  }

  /** They run in the order of their times, after what was run before and not after the newest one of the packet. */
  lemma {:induction false} RunsIncrease(times: seq<int>, newest: int, last: int)
    ensures Increasing(Runs(times, newest, last))
    ensures forall i | 0 <= i < |Runs(times, newest, last)| :: last < Runs(times, newest, last)[i] <= newest
  {
    if times != [] {
      if times[0] > newest || times[0] <= last {
        RunsIncrease(times[1..], newest, last);
      } else {
        RunsIncrease(times[1..], newest, times[0]);
      }
    }
  }

  /** The last usercmd that a packet holds always runs, unless it has been run. */
  lemma {:induction false} NewestRuns(times: seq<int>, newest: int, last: int)
    requires times != [] && times[|times| - 1] == newest
    ensures var runs := Runs(times, newest, last);
            if newest <= last then runs == [] else runs != [] && runs[|runs| - 1] == newest
  {
    if |times| > 1 {
      if times[0] > newest || times[0] <= last {
        NewestRuns(times[1..], newest, last);
      } else {
        NewestRuns(times[1..], newest, times[0]);
      }
    } else {
      assert times[1..] == [];
    }
  }

  /** No fewer are counted than run, and as many exactly when those that are counted have increasing times. */
  lemma CountIsUpperBound(times: seq<int>, newest: int, last: int)
    ensures |Runs(times, newest, last)| <= |Counted(times, newest, last)|
    ensures |Runs(times, newest, last)| == |Counted(times, newest, last)| <==> Increasing(Counted(times, newest, last))
  {
    CountFrom(times, newest, last, last);
    CountedInRange(times, newest, last);
  }

  lemma {:induction false} CountedInRange(times: seq<int>, newest: int, last: int)
    ensures forall i | 0 <= i < |Counted(times, newest, last)| :: last < Counted(times, newest, last)[i] <= newest
  {
    if times != [] {
      CountedInRange(times[1..], newest, last);
    }
  }

  lemma {:induction false} CountFrom(times: seq<int>, newest: int, base: int, last: int)
    requires base <= last
    ensures var counted := Counted(times, newest, base);
            && |Runs(times, newest, last)| <= |counted|
            && (|Runs(times, newest, last)| == |counted|
                <==> Increasing(counted) && (counted == [] || last < counted[0]))
  {
    if times != [] {
      var rest := times[1..];
      if times[0] > newest || times[0] <= last {
        CountFrom(rest, newest, base, last);
      } else {
        CountFrom(rest, newest, base, times[0]);
        IncreasingFrom(times[0], Counted(rest, newest, base));
      }
    }
  }

  lemma IncreasingFrom(first: int, rest: seq<int>)
    ensures Increasing([first] + rest) <==> Increasing(rest) && (rest == [] || first < rest[0])
  {
    var all := [first] + rest;
    if Increasing(all) {
      forall i, j | 0 <= i < j < |rest|
        ensures rest[i] < rest[j]
      {
        assert all[i + 1] == rest[i] && all[j + 1] == rest[j];
      }
      assert rest != [] ==> all[0] < all[1];
    }
    if Increasing(rest) && (rest == [] || first < rest[0]) {
      forall i, j | 0 <= i < j < |all|
        ensures all[i] < all[j]
      {
        assert all[j] == rest[j - 1] && (i > 0 ==> all[i] == rest[i - 1]);
      }
    }
  }

  /** Equality holds for a packet whose times strictly increase. */
  lemma {:induction false} CountIsExact(times: seq<int>, newest: int, last: int)
    requires Increasing(times)
    ensures Increasing(Counted(times, newest, last))
    ensures forall i | 0 <= i < |Counted(times, newest, last)| :: Counted(times, newest, last)[i] in times
  {
    if times != [] {
      CountIsExact(times[1..], newest, last);
      IncreasingFrom(times[0], Counted(times[1..], newest, last));
    }
  }

  // ----- A client that repeats itself, over a connection that loses packets -----

  /** The part of a stream that a packet repeats. */
  datatype Window = Window(from: nat, to: nat)

  ghost predicate Windows(windows: seq<Window>, length: nat, most: nat) {
    forall i | 0 <= i < |windows| :: windows[i].from < windows[i].to <= length && windows[i].to - windows[i].from <= most
  }

  /** How much of the stream is known after one more packet. */
  function Further(k: nat, window: Window): nat { if window.to > k then window.to else k }

  function Reach(k: nat, windows: seq<Window>): (r: nat)
    ensures k <= r
    decreases |windows|
  {
    if windows == [] then k else Reach(Further(k, windows[0]), windows[1..])
  }

  /** Each packet goes back at least to what is known. */
  ghost predicate Gapless(k: nat, windows: seq<Window>)
    decreases |windows|
  {
    windows == [] || (windows[0].from <= k && Gapless(Further(k, windows[0]), windows[1..]))
  }

  /** A time that separates the first k of the stream from the others. */
  ghost predicate Between(stream: seq<int>, k: nat, last: int) {
    && k <= |stream|
    && (forall i | 0 <= i < k :: stream[i] <= last)
    && forall i | k <= i < |stream| :: last < stream[i]
  }

  /** What SV_UserMove runs of a packet of an active client. */
  function Handled(times: seq<int>, last: int): seq<int> {
    if 1 <= |times| <= MAX_PACKET_USERCMDS then Runs(times, times[|times| - 1], last) else []
  }

  function LastTime(last: int, runs: seq<int>): int { if runs == [] then last else runs[|runs| - 1] }

  lemma {:induction false} WindowRuns(stream: seq<int>, from: nat, to: nat, k: nat, newest: int, last: int)
    requires Increasing(stream) && Between(stream, k, last)
    requires from <= to <= |stream| && forall i | from <= i < to :: stream[i] <= newest
    ensures Runs(stream[from..to], newest, last)
         == if to <= k then [] else stream[if from > k then from else k..to]
    decreases |stream| - from
  {
    if from < to {
      assert stream[from..to][1..] == stream[from + 1..to];
      if from < k {
        WindowRuns(stream, from + 1, to, k, newest, last);
      } else {
        WindowRuns(stream, from + 1, to, from + 1, newest, stream[from]);
      }
    }
  }

  /** The usercmds that run of all the packets that arrive. */
  function AllRuns(stream: seq<int>, windows: seq<Window>, last: int): seq<int>
    requires Windows(windows, |stream|, MAX_PACKET_USERCMDS)
  {
    if windows == [] then []
    else
      var runs := Handled(stream[windows[0].from..windows[0].to], last);
      runs + AllRuns(stream, windows[1..], LastTime(last, runs))
  }

  /**
   * The usercmds of lost packets come with later ones: each of the stream is run once and in order, up to the newest one
   * that arrived, exactly when no packet leaves a gap. Packets may be lost, repeated or late.
   */
  lemma {:induction false} LossIsRepaired(stream: seq<int>, windows: seq<Window>, k: nat, last: int)
    requires Increasing(stream) && Between(stream, k, last)
    requires Windows(windows, |stream|, MAX_PACKET_USERCMDS)
    ensures Reach(k, windows) <= |stream|
    ensures |AllRuns(stream, windows, last)| <= Reach(k, windows) - k
    ensures AllRuns(stream, windows, last) == stream[k..Reach(k, windows)] <==> Gapless(k, windows)
    decreases |windows|
  {
    hide Runs, Windows;
    if windows == [] {
      assert stream[k..k] == [];
    } else {
      WindowsStep(windows, |stream|, MAX_PACKET_USERCMDS);
      var from, to := windows[0].from, windows[0].to;
      var runs := Handled(stream[from..to], last);
      assert stream[from..to][to - from - 1] == stream[to - 1];
      WindowRuns(stream, from, to, k, stream[to - 1], last);
      var next := Further(k, windows[0]);
      LossIsRepaired(stream, windows[1..], next, LastTime(last, runs));
      Joined(stream, from, k, next, Reach(k, windows), runs, AllRuns(stream, windows[1..], LastTime(last, runs)));
    }
  }

  /** What one packet gives and what the next ones give are the stream together exactly when each is its part. */
  lemma Joined<T>(stream: seq<T>, from: nat, k: nat, next: nat, end: nat, runs: seq<T>, rest: seq<T>)
    requires k <= next <= end <= |stream| && |rest| <= end - next
    requires from < next || next == k
    requires runs == if next == k then [] else stream[if from > k then from else k..next]
    ensures |runs + rest| <= end - k
    ensures next > k || from <= k ==> (runs + rest == stream[k..end] <==> from <= k && rest == stream[next..end])
  {
    if from <= k {
      assert stream[k..end] == runs + stream[next..end];
      if runs + rest == stream[k..end] {
        assert rest == (runs + rest)[next - k..];
      }
    }
  }

  /** The commands of all the messages that arrive, up to the first one with a gap, which drops the client. */
  function AllCommands(first: int, stream: seq<Command>, windows: seq<Window>, k: nat): seq<Command>
    requires Windows(windows, |stream|, |stream|)
  {
    if windows == [] then []
    else
      var message := stream[windows[0].from..windows[0].to];
      var commands := NewCommands(first + k, message);
      commands + if NoGap(first + k, message) then AllCommands(first, stream, windows[1..], k + |commands|) else []
  }

  ghost predicate Numbered(first: int, stream: seq<Command>) {
    forall i | 0 <= i < |stream| :: stream[i].number == first + 1 + i
  }

  lemma {:induction false} WindowCommands(first: int, stream: seq<Command>, from: nat, to: nat, k: nat)
    requires Numbered(first, stream) && from <= to <= |stream|
    ensures NewCommands(first + k, stream[from..to]) == if from > k || to <= k then [] else stream[k..to]
    ensures from < to ==> (NoGap(first + k, stream[from..to]) <==> from <= k)
    decreases |stream| - from
  {
    if from < to {
      assert stream[from..to][1..] == stream[from + 1..to];
      WindowCommands(first, stream, from + 1, to, if from == k then k + 1 else k);
      assert from + 1 == to ==> stream[from..to][1..] == [];
    }
  }

  /**
   * A client that repeats the commands that it has no answer to has each of them run once and in order, up to the last
   * one that arrived, exactly when no message leaves a gap.
   */
  lemma {:induction false} CommandsRunOnce(first: int, stream: seq<Command>, windows: seq<Window>, k: nat)
    requires Numbered(first, stream) && k <= |stream| && Windows(windows, |stream|, |stream|)
    ensures Reach(k, windows) <= |stream|
    ensures |AllCommands(first, stream, windows, k)| <= Reach(k, windows) - k
    ensures AllCommands(first, stream, windows, k) == stream[k..Reach(k, windows)] <==> Gapless(k, windows)
    decreases |windows|
  {
    hide NewCommands, NoGap, AllCommands, Numbered, Windows;
    NoMessages(first, stream, k);
    if windows == [] {
      assert stream[k..k] == [];
    } else {
      WindowsStep(windows, |stream|, |stream|);
      var window := windows[0];
      WindowCommands(first, stream, window.from, window.to, k);
      AllCommandsStep(first, stream, windows, k);
      var next := Further(k, window);
      CommandsRunOnce(first, stream, windows[1..], next);
      if window.from <= k {
        Joined(stream, window.from, k, next, Reach(k, windows), NewCommands(first + k, stream[window.from..window.to]),
               AllCommands(first, stream, windows[1..], next));
      }
    }
  }

  lemma WindowsStep(windows: seq<Window>, length: nat, most: nat)
    requires Windows(windows, length, most) && windows != []
    ensures windows[0].from < windows[0].to <= length && windows[0].to - windows[0].from <= most
    ensures Windows(windows[1..], length, most)
  {
  }

  lemma NoMessages(first: int, stream: seq<Command>, k: nat)
    ensures Windows([], |stream|, |stream|) && AllCommands(first, stream, [], k) == []
  {
  }

  lemma AllCommandsStep(first: int, stream: seq<Command>, windows: seq<Window>, k: nat)
    requires Windows(windows, |stream|, |stream|) && windows != []
    ensures windows[0].from < windows[0].to <= |stream| && Windows(windows[1..], |stream|, |stream|)
    ensures var message := stream[windows[0].from..windows[0].to];
            var commands := NewCommands(first + k, message);
      AllCommands(first, stream, windows, k) == commands +
        if NoGap(first + k, message) then AllCommands(first, stream, windows[1..], k + |commands|) else []
  {
    hide NewCommands, NoGap;
    WindowsStep(windows, |stream|, |stream|);
  }

  // ----- The client -----

  /** The loop of PacketReceived. */
  method CountNewCommands(times: seq<int>, last: int) returns (count: nat)
    requires times != []
    ensures count == |Counted(times, times[|times| - 1], last)|
  {
    count := 0;
    assert times[0..] == times;
    for i := 0 to |times|
      invariant count + |Counted(times[i..], times[|times| - 1], last)| == |Counted(times, times[|times| - 1], last)|
    {
      assert times[i..][1..] == times[i + 1..];
      if times[i] <= times[|times| - 1] && times[i] > last {
        count := count + 1;
      }
    }
  }

  function LeadingCommands(ops: seq<Op>): seq<Command> {
    if ops == [] || !ops[0].ClientCommand? then [] else [ops[0].command] + LeadingCommands(ops[1..])
  }

  /** The first of a message that is no command; a message that ends without one reads as its end. */
  function OpAfter(ops: seq<Op>): Op {
    if ops == [] then Eof else if ops[0].ClientCommand? then OpAfter(ops[1..]) else ops[0]
  }

  /** What a command does to the commands that are still to be run. */
  lemma NextCommand(accepted: seq<Command>, ran: nat, last: int, ops: seq<Op>, next: nat)
    requires next < |ops| && ops[next].ClientCommand? && ran <= |accepted|
    requires accepted[ran..] == NewCommands(last, LeadingCommands(ops[next..]))
    ensures OpAfter(ops[next..]) == OpAfter(ops[next + 1..])
    ensures NoGap(last, LeadingCommands(ops[next..])) <==>
      && ops[next].command.number <= last + 1
      && NoGap(if ops[next].command.number <= last then last else last + 1, LeadingCommands(ops[next + 1..]))
    ensures ops[next].command.number <= last ==>
      accepted[ran..] == NewCommands(last, LeadingCommands(ops[next + 1..]))
    ensures ops[next].command.number == last + 1 ==>
      && ran < |accepted| && accepted[..ran + 1] == accepted[..ran] + [ops[next].command]
      && accepted[ran + 1..] == NewCommands(last + 1, LeadingCommands(ops[next + 1..]))
  {
    assert ops[next..][0] == ops[next] && ops[next..][1..] == ops[next + 1..];
    assert ran < |accepted| ==> accepted[ran..][0] == accepted[ran] && accepted[ran..][1..] == accepted[ran + 1..];
    assert ran < |accepted| ==> accepted[..ran + 1] == accepted[..ran] + [accepted[ran]];
    assert LeadingCommands(ops[next..])[1..] == LeadingCommands(ops[next + 1..]);
  }

  lemma NoMoreCommands(accepted: seq<Command>, ran: nat, last: int, ops: seq<Op>, next: nat)
    requires next == |ops| || (next < |ops| && !ops[next].ClientCommand?)
    requires ran <= |accepted| && accepted[ran..] == NewCommands(last, LeadingCommands(ops[next..]))
    ensures ran == |accepted| && NoGap(last, LeadingCommands(ops[next..]))
    ensures OpAfter(ops[next..]) == if next < |ops| then ops[next] else Eof
  {
  }

  lemma OneMoreCommand(before: seq<Executed>, executed: seq<Executed>, last: int, command: Command)
    requires if command.number == last + 1
             then |executed| > 0 && executed[|executed| - 1].command == command
                  && executed == before + [executed[|executed| - 1]]
             else executed == before
    ensures Commands(executed) == if command.number == last + 1 then Commands(before) + [command] else Commands(before)
  {
  }

  /** Each number up to the last is run once. */
  lemma EachNumberOnce(executed: seq<Executed>, last: int, number: int)
    requires EndsAt(executed, last) && last - |executed| < number <= last
    ensures exists i | 0 <= i < |executed| ::
      executed[i].command.number == number
      && forall j | 0 <= j < |executed| && executed[j].command.number == number :: j == i
  {
    assert executed[number - 1 - last + |executed|].command.number == number;
  }

  /** The usercmds that were run since the client entered the world, the last one, and how often it has entered. */
  datatype Moves = Moves(times: seq<int>, last: int, entries: nat)

  /** What a packet does to them, for a client in that state; unless it is a move, nothing. */
  function MoveOutcome(server: Server, state: State, authentic: bool, m: Moves, op: Op): Moves {
    if !op.Move? || !(1 <= |op.times| <= MAX_PACKET_USERCMDS) then m
    else
      var entered := if state == Primed then Moves([], op.times[0], m.entries + 1) else m;
      if (server.pure && !authentic) || (state != Primed && state != Active) then entered
      else
        var runs := Handled(op.times, entered.last);
        entered.(times := entered.times + runs, last := LastTime(entered.last, runs))
  }

  lemma ZombieIsStill(server: Server, authentic: bool, m: Moves, op: Op)
    ensures MoveOutcome(server, Zombie, authentic, m, op) == m
  {
  }

  lemma NoMove(server: Server, state: State, authentic: bool, m: Moves, op: Op)
    ensures !op.Move? ==> MoveOutcome(server, state, authentic, m, op) == m
  {
  }

  /** How the commands of a message leave a client. */
  function StateAfter(state: State, executed: seq<Executed>): State {
    if executed == [] then state else executed[|executed| - 1].state
  }

  function AuthenticAfter(authentic: bool, executed: seq<Executed>): bool {
    if executed == [] then authentic else executed[|executed| - 1].authentic
  }

  /** strstr. */
  predicate Mentions(s: string, word: string) { word <= s || (s != "" && Mentions(s[1..], word)) }

  /** It finds the word anywhere in the string. */
  lemma {:induction false} MentionsMeans(s: string, word: string)
    ensures Mentions(s, word) <==> exists front: string, back: string :: s == front + word + back
    decreases |s|
  {
    assert forall back: string | s == "" + word + back :: word <= s;
    if word <= s {
      assert s == "" + word + s[|word|..];
    } else if s != "" {
      MentionsMeans(s[1..], word);
      if Mentions(s[1..], word) {
        var front: string, back: string :| s[1..] == front + word + back;
        assert s == ([s[0]] + front) + word + back;
      }
      forall front: string, back: string | front != "" && s == front + word + back
        ensures Mentions(s[1..], word)
      {
        assert s[1..] == front[1..] + word + back;
      }
    }
  }

  /** The commands come first, and what follows them is not one. */
  lemma {:induction false} OpsAreSplit(ops: seq<Op>)
    ensures var n := |LeadingCommands(ops)|;
      && n <= |ops|
      && (forall i | 0 <= i < n :: ops[i] == ClientCommand(LeadingCommands(ops)[i]))
      && (if n == |ops| then OpAfter(ops) == Eof else OpAfter(ops) == ops[n] && !ops[n].ClientCommand?)
  {
    if ops != [] && ops[0].ClientCommand? {
      OpsAreSplit(ops[1..]);
      assert forall i | 0 < i < |ops| :: ops[i] == ops[1..][i - 1];
    }
  }

  /** Who may move: an active client, or one that enters the world with it, and on a pure server an authentic one. */
  ghost predicate MayMove(server: Server, state: State, authentic: bool, times: seq<int>) {
    && 1 <= |times| <= 32 && (state == Active || state == Primed) && (server.pure ==> authentic)
  }

  /**
   * What a packet of usercmds does: a client that may not move runs none. One that may ends at the newest of the packet,
   * unless it is already past that; what it runs is newer than what it had, which for a client that enters is the first
   * of the packet. Entering happens once for each packet of a primed client, and starts its usercmds over.
   */
  lemma MoveMeans(server: Server, state: State, authentic: bool, m: Moves, delta: bool, times: seq<int>)
    ensures var r := MoveOutcome(server, state, authentic, m, Move(delta, times));
            var enters := state == Primed && 1 <= |times| <= 32;
      && r.entries == (if enters then m.entries + 1 else m.entries)
      && (!enters ==> m.times <= r.times)
      && (!MayMove(server, state, authentic, times) ==>
            r.times == (if enters then [] else m.times) && r.last == if enters then times[0] else m.last)
      && (MayMove(server, state, authentic, times) ==>
            var newest, last := times[|times| - 1], if enters then times[0] else m.last;
            var runs := r.times[if enters then 0 else |m.times|..];
            && r.last == (if newest > last then newest else last)
            && (forall x | x in runs :: last < x <= newest && x in times)
            && (newest > last ==> runs != [] && runs[|runs| - 1] == newest)
            && Increasing(runs))
  {
    hide Runs;
    if MayMove(server, state, authentic, times) {
      var newest, last := times[|times| - 1], if state == Primed then times[0] else m.last;
      RunsIncrease(times, newest, last);
      NewestRuns(times, newest, last);
      RunsAreSent(times, newest, last);
    }
  }

  lemma {:induction false} RunsAreSent(times: seq<int>, newest: int, last: int)
    ensures forall x | x in Runs(times, newest, last) :: x in times
  {
    if times != [] {
      RunsAreSent(times[1..], newest, last);
      RunsAreSent(times[1..], newest, times[0]);
    }
  }

  /** Usercmds that have run in order, to the last. */
  ghost predicate Ordered(moves: seq<int>, last: int) {
    Increasing(moves) && (moves != [] ==> moves[|moves| - 1] == last)
  }

  /** What is left to run, and where it ends, is the same after one more turn of the loop. */
  lemma RunsStep(times: seq<int>, i: nat, newest: int, last: int, moves: seq<int>)
    requires i < |times|
    ensures var rest := Runs(times[i..], newest, last);
            var skipped := times[i] > newest || times[i] <= last;
            var moves', last' := if skipped then moves else moves + [times[i]], if skipped then last else times[i];
            var rest' := Runs(times[i + 1..], newest, last');
      moves' + rest' == moves + rest && LastTime(last', rest') == LastTime(last, rest)
  {
    assert times[i..][0] == times[i] && times[i..][1..] == times[i + 1..];
    assert moves + ([times[i]] + Runs(times[i + 1..], newest, times[i]))
        == moves + [times[i]] + Runs(times[i + 1..], newest, times[i]);
  }

  lemma NothingRuns(newest: int, last: int)
    ensures Runs([], newest, last) == [] && LastTime(last, []) == last
  {
  }

  lemma NothingIsOrdered(last: int)
    ensures Ordered([], last)
  {
  }

  lemma OrderedGoesOn(moves: seq<int>, times: seq<int>, newest: int, last: int)
    requires Ordered(moves, last)
    ensures var runs := Runs(times, newest, last); Ordered(moves + runs, LastTime(last, runs))
  {
    hide Runs;
    RunsIncrease(times, newest, last);
    var runs := Runs(times, newest, last);
    forall i, j | 0 <= i < j < |moves + runs|
      ensures (moves + runs)[i] < (moves + runs)[j]
    {
      if i < |moves| <= j {
        assert moves[i] <= last < runs[j - |moves|];
      }
    }
  }

  lemma OneMoreExecuted(executed: seq<Executed>, last: int, e: Executed)
    requires EndsAt(executed, last) && Spaced(executed) && e.command.number == last + 1
    requires executed != [] && e.guarded ==> (e.ok <==> e.time >= executed[|executed| - 1].time + 1000)
    ensures EndsAt(executed + [e], last + 1) && Spaced(executed + [e])
  {
  }

  class Client {
    var state: State
    var lastClientCommand: int
    var lastClientCommandString: string
    var nextReliableTime: int
    /** The server time of the last usercmd. */
    var lastUsercmd: int
    var pureAuthentic: bool
    var nextSnapshotTime: int
    var downloading: bool
    var messageAcknowledge: int
    var reliableAcknowledge: int
    var reliableSequence: int
    var deltaMessage: int
    var gamestateMessageNum: int
    var outgoingSequence: int
    /** What PacketReceived counted last. */
    var newCmds: nat

    /** Every command that was run, and the usercmds that were run since the client entered the world. */
    ghost var executed: seq<Executed>
    ghost var moves: seq<int>
    ghost var entries: nat

    ghost predicate Valid()
      reads this
    {
      && EndsAt(executed, lastClientCommand) && Spaced(executed)
      && (executed != [] ==> nextReliableTime == executed[|executed| - 1].time + 1000)
      && Ordered(moves, lastUsercmd)
    }

    /** A client_t that a connect has just filled with zeros. */
    constructor ()
      ensures Valid() && state == Connected && lastClientCommand == 0 && executed == [] && moves == []
    {
      state := Connected;
      lastClientCommand, lastClientCommandString, nextReliableTime, lastUsercmd := 0, "", 0, 0;
      pureAuthentic, downloading, nextSnapshotTime := false, false, 0;
      messageAcknowledge, reliableAcknowledge, reliableSequence := 0, 0, 0;
      deltaMessage, gamestateMessageNum, outgoingSequence := 0, 0, 0;
      newCmds, executed, moves, entries := 0, [], [], 0;
    }

    /** SV_DropClient is not part of this model: it leaves a zombie. */
    method DropClient()
      modifies `state
      ensures state == Zombie
    {
      state := Zombie;
    }

    /** SV_SendClientSnapshot is not part of this model: it is asked for a snapshot of an active client at once. */
    method EngineSendsSnapshot()
      requires state == Active && nextSnapshotTime == -1
      modifies `nextSnapshotTime
    {
      nextSnapshotTime := *;
    }

    /**
     * With sv_pure, a client is authentic exactly when its sums are those of a pure client. Otherwise it is made active
     * for a last snapshot, and dropped. Without sv_pure nothing changes.
     */
    method VerifyPaks(pure: bool, cgame: Option<bv32>, ui: Option<bv32>, args: seq<PurePaks.Argument>, sums: seq<bv32>,
                      feed: bv32)
      requires |args| <= PurePaks.MAX_PAKS
      modifies `state, `pureAuthentic, `nextSnapshotTime
      ensures !pure ==> unchanged(`state, `pureAuthentic, `nextSnapshotTime)
      ensures pure ==>
        var good := PurePaks.Pure(cgame, ui, args, sums, feed);
        && pureAuthentic == good
        && (good ==> unchanged(`state, `nextSnapshotTime))
        && (!good ==> state == Zombie)
    {
      hide PurePaks.Pure;
      if pure {
        var good := PurePaks.IsGood(cgame, ui, args, sums, feed);
        if good {
          pureAuthentic := true;
        } else {
          pureAuthentic := false;
          nextSnapshotTime := -1;
          state := Active;
          EngineSendsSnapshot();
          DropClient();
        }
      }
    }

    /**
     * SV_ExecuteClientCommand is not part of this model: it may drop the client, check its paks, send it the game state,
     * start or end a download, and send it commands.
     */
    method EngineExecutesCommand()
      modifies `state, `downloading, `pureAuthentic, `gamestateMessageNum, `reliableSequence, `nextSnapshotTime
    {
      state, downloading, pureAuthentic := *, *, *;
      gamestateMessageNum, reliableSequence, nextSnapshotTime := *, *, *;
    }

    /**
     * SV_ClientEnterWorld is not part of this model: it makes the client active, with its first usercmd, and may ask for
     * a full snapshot at once.
     */
    method EngineEntersWorld(time: int)
      modifies `state, `lastUsercmd, `moves, `entries, `reliableSequence, `deltaMessage, `nextSnapshotTime
      ensures state == Active && lastUsercmd == time && moves == [] && entries == old(entries) + 1
    {
      reliableSequence, deltaMessage, nextSnapshotTime := *, *, *;
      state, lastUsercmd, moves, entries := Active, time, [], entries + 1;
    }

    /** SV_ClientThink is not part of this model: it sets the last usercmd and runs it, which may drop the client. */
    method EngineThinks(time: int)
      modifies `state, `lastUsercmd, `moves, `reliableSequence
      ensures lastUsercmd == time && moves == old(moves) + [time]
      ensures state == old(state) || state == Zombie
    {
      if * {
        DropClient();
      }
      reliableSequence := *;
      lastUsercmd, moves := time, moves + [time];
    }

    /** A command that was run is passed over, the next one is run, and one from further on drops the client. */
    method ExecuteCommand(server: Server, command: Command) returns (goOn: bool)
      requires Valid()
      modifies `state, `lastClientCommand, `lastClientCommandString, `nextReliableTime, `executed
      modifies `downloading, `pureAuthentic, `gamestateMessageNum, `reliableSequence, `nextSnapshotTime
      ensures Valid()
      ensures goOn <==> command.number <= old(lastClientCommand) + 1
      ensures command.number != old(lastClientCommand) + 1 ==>
        && unchanged(`lastClientCommand, `lastClientCommandString, `nextReliableTime, `executed)
        && unchanged(`downloading, `pureAuthentic, `gamestateMessageNum, `reliableSequence, `nextSnapshotTime)
      ensures command.number <= old(lastClientCommand) ==> unchanged(`state)
      ensures command.number > old(lastClientCommand) + 1 ==> state == Zombie
      ensures command.number == old(lastClientCommand) + 1 ==>
        && lastClientCommand == command.number && nextReliableTime == server.time + 1000
        && lastClientCommandString == command.text[..if |command.text| < MAX_STRING_CHARS then |command.text|
                                                     else MAX_STRING_CHARS - 1]
        && var guarded := !server.clRunning && old(state) == Active && server.floodProtect;
        && executed == old(executed)
             + [Executed(command, !(guarded && server.time < old(nextReliableTime)), guarded, server.time, state,
                        pureAuthentic)]
    {
      hide EndsAt, Spaced;
      if lastClientCommand >= command.number {
        return true;
      }
      if command.number > lastClientCommand + 1 {
        DropClient();
        return false;
      }
      var ok := true;
      ghost var guarded := !server.clRunning && state == Active && server.floodProtect;
      if !server.clRunning && state == Active && server.floodProtect && server.time < nextReliableTime {
        ok := false;
      }
      nextReliableTime := server.time + 1000;
      EngineExecutesCommand();
      OneMoreExecuted(executed, lastClientCommand, Executed(command, ok, guarded, server.time, state, pureAuthentic));
      executed := executed + [Executed(command, ok, guarded, server.time, state, pureAuthentic)];
      lastClientCommand := command.number;
      lastClientCommandString := command.text[..if |command.text| < MAX_STRING_CHARS then |command.text|
                                                else MAX_STRING_CHARS - 1];
      return true;
    }

    /** The usercmds of a packet. */
    method UserMove(server: Server, delta: bool, times: seq<int>)
      requires Valid()
      modifies `state, `lastUsercmd, `deltaMessage, `newCmds, `moves, `entries, `reliableSequence, `nextSnapshotTime
      ensures Valid()
      ensures old(state) != Primed ==> unchanged(`nextSnapshotTime)
      ensures Moves(moves, lastUsercmd, entries)
           == MoveOutcome(server, old(state), pureAuthentic, old(Moves(moves, lastUsercmd, entries)), Move(delta, times))
      ensures |times| < 1 || |times| > MAX_PACKET_USERCMDS ==>
        unchanged(`state, `newCmds) && deltaMessage == if delta then messageAcknowledge else -1
      ensures 1 <= |times| <= MAX_PACKET_USERCMDS ==>
        if server.pure && !pureAuthentic then state == Zombie && unchanged(`newCmds)
        else if old(state) != Active && old(state) != Primed then unchanged(`state, `newCmds) && deltaMessage == -1
        else
          && (state == Active || state == Zombie)
          && newCmds == |Counted(times, times[|times| - 1], if old(state) == Primed then times[0] else old(lastUsercmd))|
          && (old(state) == Active ==> deltaMessage == if delta then messageAcknowledge else -1)
    {
      hide Counted, Runs, Ordered, EndsAt, Spaced;
      if delta {
        deltaMessage := messageAcknowledge;
      } else {
        deltaMessage := -1;
      }
      if |times| < 1 {
        return;
      }
      if |times| > MAX_PACKET_USERCMDS {
        return;
      }
      if state == Primed {
        EngineEntersWorld(times[0]);
        NothingIsOrdered(times[0]);
      }
      if server.pure && !pureAuthentic {
        DropClient();
        return;
      }
      if state != Active {
        deltaMessage := -1;
        return;
      }
      newCmds := CountNewCommands(times, lastUsercmd);
      OrderedGoesOn(moves, times, times[|times| - 1], lastUsercmd);
      RunMoves(times);
    }

    /** The loop that runs what is new: no repeated usercmd, and none of before a map_restart. */
    method RunMoves(times: seq<int>)
      requires times != []
      modifies `state, `lastUsercmd, `moves, `reliableSequence
      ensures var runs := Runs(times, times[|times| - 1], old(lastUsercmd));
              moves == old(moves) + runs && lastUsercmd == LastTime(old(lastUsercmd), runs)
      ensures state == old(state) || state == Zombie
    {
      hide Runs, LastTime;
      ghost var newest := times[|times| - 1];
      ghost var all := Runs(times, newest, lastUsercmd);
      assert times[0..] == times;
      for i := 0 to |times|
        invariant moves + Runs(times[i..], newest, lastUsercmd) == old(moves) + all
        invariant LastTime(lastUsercmd, Runs(times[i..], newest, lastUsercmd)) == LastTime(old(lastUsercmd), all)
        invariant state == old(state) || state == Zombie
      {
        RunsStep(times, i, newest, lastUsercmd, moves);
        if times[i] > times[|times| - 1] {
          continue;
        }
        if times[i] <= lastUsercmd {
          continue;
        }
        EngineThinks(times[i]);
      }
      NothingRuns(newest, lastUsercmd);
      assert times[|times|..] == [] && moves + [] == moves;
    }

    method SendGameState()
      requires Valid()
      modifies `state, `pureAuthentic, `gamestateMessageNum
      ensures Valid() && !pureAuthentic && gamestateMessageNum == outgoingSequence
      ensures state == if old(state) == Connected then Primed else old(state)
    {
      if state == Connected {
        state := Primed;
      }
      pureAuthentic := false;
      gamestateMessageNum := outgoingSequence;
    }

    /**
     * The loop over the commands of a message, up to what is none. The new ones are run in order, all of them unless the
     * client is dropped, by one of them or by a gap.
     */
    method ExecuteCommands(server: Server, ops: seq<Op>) returns (next: nat, goOn: bool, ghost ran: nat)
      requires Valid()
      modifies `state, `lastClientCommand, `lastClientCommandString, `nextReliableTime, `executed
      modifies `downloading, `pureAuthentic, `gamestateMessageNum, `reliableSequence, `nextSnapshotTime
      ensures Valid()
      ensures var accepted := NewCommands(old(lastClientCommand), LeadingCommands(ops));
              && ran <= |accepted| && Commands(executed) == old(Commands(executed)) + accepted[..ran]
              && (goOn ==> ran == |accepted|)
      ensures goOn ==> next <= |ops| && OpAfter(ops) == if next < |ops| then ops[next] else Eof
      ensures !goOn ==> state == Zombie
      ensures goOn ==> NoGap(old(lastClientCommand), LeadingCommands(ops))
      ensures old(executed) <= executed
      ensures forall i | |old(executed)| <= i < |executed| - 1 :: executed[i].state != Zombie
      ensures goOn ==> state == StateAfter(old(state), executed[|old(executed)|..])
                       && pureAuthentic == AuthenticAfter(old(pureAuthentic), executed[|old(executed)|..])
      ensures !goOn ==> !NoGap(old(lastClientCommand), LeadingCommands(ops))
                        || StateAfter(old(state), executed[|old(executed)|..]) == Zombie
    {
      hide EndsAt, Spaced, Ordered, NoGap, NewCommands, LeadingCommands, OpAfter, Commands;
      next, ran := 0, 0;
      ghost var accepted := NewCommands(lastClientCommand, LeadingCommands(ops));
      assert ops[0..] == ops && accepted[0..] == accepted;
      while next < |ops|
        invariant next <= |ops| && ran <= |accepted| && Valid()
        invariant accepted[ran..] == NewCommands(lastClientCommand, LeadingCommands(ops[next..]))
        invariant OpAfter(ops[next..]) == OpAfter(ops)
        invariant NoGap(lastClientCommand, LeadingCommands(ops[next..]))
             <==> NoGap(old(lastClientCommand), LeadingCommands(ops))
        invariant old(executed) <= executed
        invariant forall i | |old(executed)| <= i < |executed| :: executed[i].state != Zombie
        invariant state == StateAfter(old(state), executed[|old(executed)|..])
        invariant pureAuthentic == AuthenticAfter(old(pureAuthentic), executed[|old(executed)|..])
        invariant Commands(executed) == old(Commands(executed)) + accepted[..ran]
      {
        if !ops[next].ClientCommand? {
          break;
        }
        NextCommand(accepted, ran, lastClientCommand, ops, next);
        ghost var before, last := executed, lastClientCommand;
        var passed := ExecuteCommand(server, ops[next].command);
        OneMoreCommand(before, executed, last, ops[next].command);
        if ops[next].command.number == last + 1 {
          ran := ran + 1;
        }
        if !passed {
          goOn := false;
          return;
        }
        if state == Zombie {
          goOn := false;
          return;
        }
        next := next + 1;
      }
      NoMoreCommands(accepted, ran, lastClientCommand, ops, next);
      goOn := true;
    }

    /** What a message holds after its header: the commands, then the usercmds. */
    method ExecuteOps(server: Server, ops: seq<Op>)
      requires Valid()
      modifies `state, `lastClientCommand, `lastClientCommandString, `nextReliableTime, `executed
      modifies `downloading, `pureAuthentic, `gamestateMessageNum, `reliableSequence, `nextSnapshotTime
      modifies `lastUsercmd, `deltaMessage, `newCmds, `moves, `entries
      ensures Valid()
      ensures var accepted := NewCommands(old(lastClientCommand), LeadingCommands(ops));
              && old(Commands(executed)) <= Commands(executed) <= old(Commands(executed)) + accepted
              && (state == Zombie || Commands(executed) == old(Commands(executed)) + accepted)
      ensures forall i | |old(executed)| <= i < |executed| - 1 :: executed[i].state != Zombie
      ensures !NoGap(old(lastClientCommand), LeadingCommands(ops)) ==>
        state == Zombie && unchanged(`lastUsercmd, `moves, `entries)
      ensures NoGap(old(lastClientCommand), LeadingCommands(ops)) ==>
        var run := executed[|old(executed)|..];
        Moves(moves, lastUsercmd, entries)
        == MoveOutcome(server, StateAfter(old(state), run), AuthenticAfter(old(pureAuthentic), run),
                       old(Moves(moves, lastUsercmd, entries)), OpAfter(ops))
    {
      hide EndsAt, Spaced, Ordered, NoGap, Handled, Counted, NewCommands, OpAfter, LeadingCommands, Runs, Commands,
           MoveOutcome;
      ghost var accepted := NewCommands(lastClientCommand, LeadingCommands(ops));
      var next, goOn, ran := ExecuteCommands(server, ops);
      assert accepted[..ran] <= accepted;
      if !goOn {
        ZombieIsStill(server, AuthenticAfter(old(pureAuthentic), executed[|old(executed)|..]),
                      Moves(moves, lastUsercmd, entries), OpAfter(ops));
        return;
      }
      assert accepted[..ran] == accepted;
      var op := if next < |ops| then ops[next] else Eof;
      NoMove(server, state, pureAuthentic, Moves(moves, lastUsercmd, entries), op);
      if op.Move? {
        UserMove(server, op.delta, op.times);
      }
    }

    method ExecuteClientMessage(server: Server, m: Message)
      requires Valid()
      modifies this
      ensures Valid()
      ensures messageAcknowledge == m.acknowledge
      ensures m.acknowledge < 0 || m.reliable < old(reliableSequence) - MAX_RELIABLE_COMMANDS || old(Ignores(server, m)) ==>
        unchanged(`executed, `moves, `entries, `lastClientCommand, `lastUsercmd, `nextReliableTime, `reliableSequence)
      ensures m.acknowledge >= 0 && m.reliable >= old(reliableSequence) - MAX_RELIABLE_COMMANDS
              && old(Ignores(server, m)) ==>
        if !(server.restartedServerId <= m.serverId < server.serverId)
           && old(state) != Active && m.acknowledge > old(gamestateMessageNum) then
          && state == (if old(state) == Connected then Primed else old(state))
          && !pureAuthentic && gamestateMessageNum == old(outgoingSequence)
        else unchanged(`state, `pureAuthentic, `gamestateMessageNum)
      ensures reliableAcknowledge ==
        if m.acknowledge < 0 then old(reliableAcknowledge)
        else if m.reliable < old(reliableSequence) - MAX_RELIABLE_COMMANDS then old(reliableSequence)
        else m.reliable
      ensures var accepted := NewCommands(old(lastClientCommand), LeadingCommands(m.ops));
              && old(Commands(executed)) <= Commands(executed) <= old(Commands(executed)) + accepted
              && (m.acknowledge < 0 || m.reliable < old(reliableSequence) - MAX_RELIABLE_COMMANDS
                  || old(Ignores(server, m)) || state == Zombie || Commands(executed) == old(Commands(executed)) + accepted)
      ensures forall i | |old(executed)| <= i < |executed| - 1 :: executed[i].state != Zombie
      ensures !NoGap(old(lastClientCommand), LeadingCommands(m.ops)) ==> unchanged(`lastUsercmd, `moves, `entries)
      ensures m.acknowledge >= 0 && m.reliable >= old(reliableSequence) - MAX_RELIABLE_COMMANDS
              && !old(Ignores(server, m)) && NoGap(old(lastClientCommand), LeadingCommands(m.ops)) ==>
        var run := executed[|old(executed)|..];
        Moves(moves, lastUsercmd, entries)
        == MoveOutcome(server, StateAfter(old(state), run), AuthenticAfter(old(pureAuthentic), run),
                       old(Moves(moves, lastUsercmd, entries)), OpAfter(m.ops))
    {
      hide EndsAt, Spaced, Ordered, NoGap, Mentions, Handled, Counted, NewCommands, OpAfter, LeadingCommands,
           Commands, MoveOutcome, StateAfter, AuthenticAfter;
      messageAcknowledge := m.acknowledge;
      if messageAcknowledge < 0 {
        return;
      }
      reliableAcknowledge := m.reliable;
      if reliableAcknowledge < reliableSequence - MAX_RELIABLE_COMMANDS {
        reliableAcknowledge := reliableSequence;
        return;
      }
      MentionsMeans(lastClientCommandString, "nextdl");
      if m.serverId != server.serverId && !downloading && !Mentions(lastClientCommandString, "nextdl") {
        if m.serverId >= server.restartedServerId && m.serverId < server.serverId {
          return;
        }
        if state != Active && messageAcknowledge > gamestateMessageNum {
          SendGameState();
        }
        return;
      }
      ExecuteOps(server, m.ops);
    }

    /** A message from another gamestate than the client's, which is not downloading. */
    ghost predicate Ignores(server: Server, m: Message)
      reads this
    {
      && m.serverId != server.serverId && !downloading
      && !exists front: string, back: string :: lastClientCommandString == front + "nextdl" + back
    }
  }
}
