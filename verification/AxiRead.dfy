// Read bursts through the AXI4 to AXI4-Lite converter.
module AxiRead {
  import opened Words
  import opened AxiBurst

  datatype Command = Command(addr: Word, id: nat, len: Len, kind: Kind)

  /** The inputs of one clock cycle: from the master, and from the lite slave. */
  datatype Input = Input(arvalid: bool, ar: Command, rready: bool, arready: bool, rvalid: bool, answer: Answer)

  /** What the lite slave answers to one read, and what the master gets of it. */
  datatype Answer = Answer(data: Word, resp: nat)
  datatype Reply = Reply(answer: Answer, id: nat, last: bool)

  // ---------------------------------------------------------------------------------------------
  // The converter

  datatype Regs = Regs(armask: bool, arvalid: bool, araddr: Word, arcnt: nat, arid: nat, arlen: Len, arkind: Kind)

  function ResetRegs(): Regs { Regs(false, false, Zero(), 0, 0, 0, 0) }

  predicate OutArValid(r: Regs, i: Input) { (i.arvalid && !r.armask) || r.arvalid }
  function OutArAddr(r: Regs, i: Input): Word { if r.arvalid then r.araddr else i.ar.addr }
  predicate InArReady(r: Regs, i: Input) { i.arready && !r.armask }
  predicate RLast(r: Regs) { r.arcnt == 0 }

  predicate ArAccepted(r: Regs, i: Input) { i.arvalid && InArReady(r, i) }
  predicate LiteAr(r: Regs, i: Input) { OutArValid(r, i) && i.arready }
  predicate RGiven(i: Input) { i.rvalid && i.rready }

  /** An eight-bit counter. */
  function Dec(n: nat): nat { if n == 0 then 255 else n - 1 }

  /** The registers after the clock edge. */
  function Clocked(r: Regs, i: Input): Regs {
    var masked := r.(armask := ArAccepted(r, i) || (r.armask && !(RGiven(i) && RLast(r))));
    if r.arvalid && LiteAr(r, i) then
      masked.(araddr := NextAddr(r.araddr, r.arkind, r.arlen), arvalid := r.arcnt != 1, arcnt := Dec(r.arcnt))
    else if ArAccepted(r, i) then
      masked.(arvalid := i.ar.len != 0, arcnt := i.ar.len, arlen := i.ar.len, arkind := i.ar.kind,
              araddr := NextAddr(i.ar.addr, i.ar.kind, i.ar.len), arid := i.ar.id)
    else masked
  }

  /** The clocked object. */
  class Converter {
    var arvalid_mask: bool
    var arvalid: bool
    var araddr: Word
    var arcnt: nat
    var arid: nat
    var arlen: Len
    var arburst: Kind

    function State(): Regs
      reads this
    {
      Regs(arvalid_mask, arvalid, araddr, arcnt, arid, arlen, arburst)
    }

    constructor ()
      ensures State() == ResetRegs()
    {
      arvalid_mask, arvalid, araddr, arcnt, arid, arlen, arburst := false, false, Zero(), 0, 0, 0, 0;
    }

    method Clock(i: Input)
      modifies this
      ensures State() == Clocked(old(State()), i)
    {
      var r := State();
      if RGiven(i) && RLast(r) {
        arvalid_mask := false;
      }
      if ArAccepted(r, i) {
        arvalid_mask := true;
      }
      if r.arvalid && LiteAr(r, i) {
        araddr := NextAddr(r.araddr, r.arkind, r.arlen);
        if r.arcnt == 1 {
          arvalid := false;
        }
        arcnt := Dec(r.arcnt);
      } else if ArAccepted(r, i) {
        arvalid := i.ar.len != 0;
        arcnt := i.ar.len;
        arlen := i.ar.len;
        arburst := i.ar.kind;
        araddr := NextAddr(i.ar.addr, i.ar.kind, i.ar.len);
        arid := i.ar.id;
      }
    }
  }

  // ---------------------------------------------------------------------------------------------
  // What master and slave have seen

  /** A read burst: the command, the lite reads issued for it and the slave's answers to them. */
  datatype Burst = Burst(ar: Command, issued: nat, answers: seq<Answer>)

  /** The traffic so far. */
  datatype Log = Log(bursts: seq<Burst>, lite: seq<Word>, replies: seq<Reply>, busy: bool)

  predicate Done(b: Burst) { |b.answers| == b.ar.len + 1 }

  function Last(bursts: seq<Burst>): Burst
    requires bursts != []
  {
    bursts[|bursts| - 1]
  }

  function WithLast(bursts: seq<Burst>, b: Burst): seq<Burst>
    requires bursts != []
  {
    bursts[..|bursts| - 1] + [b]
  }

  function Issue(bursts: seq<Burst>): seq<Burst> {
    if bursts == [] then [] else WithLast(bursts, Last(bursts).(issued := Last(bursts).issued + 1))
  }

  function Collect(bursts: seq<Burst>, a: Answer): seq<Burst> {
    if bursts == [] then [] else WithLast(bursts, Last(bursts).(answers := Last(bursts).answers + [a]))
  }

  /** The log after a cycle. An answer is to the read before any that is issued in the same cycle. */
  function Logged(g: Log, r: Regs, i: Input): Log {
    var answered := if RGiven(i) then Collect(g.bursts, i.answer) else g.bursts;
    var started := if ArAccepted(r, i) then answered + [Burst(i.ar, 0, [])] else answered;
    Log(
      if LiteAr(r, i) then Issue(started) else started,
      if LiteAr(r, i) then g.lite + [OutArAddr(r, i)] else g.lite,
      if RGiven(i) then g.replies + [Reply(i.answer, r.arid, RLast(r))] else g.replies,
      LiteAr(r, i) || (g.busy && !RGiven(i)))
  }

  predicate Idle(g: Log) { g.bursts == [] || Done(Last(g.bursts)) }

  /** A read is due: the first of a command offered between bursts, or the next of the burst in progress. */
  predicate ReadDue(g: Log, i: Input) { if Idle(g) then i.arvalid else Last(g.bursts).issued <= Last(g.bursts).ar.len }

  /** The slave answers only what it has taken, and takes a read only when the previous answer is out or goes out. */
  predicate SlaveLegal(g: Log, i: Input) {
    (i.rvalid ==> g.busy) && (ReadDue(g, i) && i.arready ==> !g.busy || (i.rvalid && i.rready))
  }

  // ---------------------------------------------------------------------------------------------
  // What should happen

  function Addresses(b: Burst, n: nat): seq<Word> {
    if n == 0 then [] else Addresses(b, n - 1) + [Beat(b.ar.addr, b.ar.kind, b.ar.len, n - 1)]
  }

  /** The first n answers of a burst as the master gets them: its id on each, and last on beat len only. */
  function Replies(b: Burst, n: nat): seq<Reply>
    requires n <= |b.answers|
  {
    if n == 0 then [] else Replies(b, n - 1) + [Reply(b.answers[n - 1], b.ar.id, n - 1 == b.ar.len)]
  }

  function AllAddresses(bursts: seq<Burst>): seq<Word>
    decreases |bursts|
  {
    if bursts == [] then [] else AllAddresses(bursts[..|bursts| - 1]) + Addresses(Last(bursts), Last(bursts).issued)
  }

  function AllReplies(bursts: seq<Burst>): seq<Reply>
    decreases |bursts|
  {
    if bursts == [] then [] else AllReplies(bursts[..|bursts| - 1]) + Replies(Last(bursts), |Last(bursts).answers|)
  }

  predicate Finished(b: Burst) { b.issued == b.ar.len + 1 && Done(b) }

  /** All bursts but the last have run to the end; reads and replies are those of the bursts, in order. */
  ghost predicate InOrder(g: Log) {
    && (forall k :: 0 <= k < |g.bursts| - 1 ==> Finished(g.bursts[k]))
    && (g.bursts != [] ==>
        var b := Last(g.bursts);
        b.issued <= b.ar.len + 1 && |b.answers| <= b.issued <= |b.answers| + 1)
    && g.lite == AllAddresses(g.bursts) && g.replies == AllReplies(g.bursts)
  }

  predicate Tracks(g: Log, r: Regs) {
    if Idle(g) then !r.armask && !r.arvalid && r.arcnt == 0 && !g.busy && (g.bursts != [] ==> Finished(Last(g.bursts)))
    else
      var b := Last(g.bursts);
      && r.armask && r.arid == b.ar.id && r.arlen == b.ar.len && r.arkind == b.ar.kind
      && 1 <= b.issued <= b.ar.len + 1 && r.arcnt == b.ar.len + 1 - b.issued && r.arvalid == (b.issued <= b.ar.len)
      && r.araddr == Beat(b.ar.addr, b.ar.kind, b.ar.len, b.issued)
      && |b.answers| == (if g.busy then b.issued - 1 else b.issued)
  }

  ghost predicate Good(g: Log, r: Regs) { InOrder(g) && Tracks(g, r) }

  // ---------------------------------------------------------------------------------------------
  // One cycle

  lemma AddressesOf(b: Burst, c: Burst, n: nat)
    requires b.ar == c.ar
    ensures Addresses(b, n) == Addresses(c, n)
  {
    if n > 0 { AddressesOf(b, c, n - 1); }
  }

  lemma RepliesOf(b: Burst, c: Burst, n: nat)
    requires b.ar == c.ar && b.answers <= c.answers && n <= |b.answers|
    ensures Replies(b, n) == Replies(c, n)
  {
    if n > 0 { RepliesOf(b, c, n - 1); }
  }

  lemma IssueOne(bursts: seq<Burst>)
    requires bursts != []
    ensures var b := Last(bursts);
      && AllAddresses(Issue(bursts)) == AllAddresses(bursts) + [Beat(b.ar.addr, b.ar.kind, b.ar.len, b.issued)]
      && AllReplies(Issue(bursts)) == AllReplies(bursts)
  {
    var b := Last(bursts);
    var c := b.(issued := b.issued + 1);
    assert Issue(bursts)[..|bursts| - 1] == bursts[..|bursts| - 1] && Last(Issue(bursts)) == c;
    AddressesOf(b, c, b.issued);
    RepliesOf(b, c, |b.answers|);
    assert Addresses(c, c.issued) == Addresses(b, b.issued) + [Beat(b.ar.addr, b.ar.kind, b.ar.len, b.issued)];
  }

  lemma CollectOne(bursts: seq<Burst>, a: Answer)
    requires bursts != []
    ensures var b := Last(bursts);
      && AllAddresses(Collect(bursts, a)) == AllAddresses(bursts)
      && AllReplies(Collect(bursts, a)) == AllReplies(bursts) + [Reply(a, b.ar.id, |b.answers| == b.ar.len)]
  {
    var b := Last(bursts);
    var c := b.(answers := b.answers + [a]);
    CollectParts(bursts, a, c);
    AddressesOf(b, c, b.issued);
    OneMoreReply(b, c, a);
    assert AllReplies(bursts) == AllReplies(bursts[..|bursts| - 1]) + Replies(b, |b.answers|);
  }

  lemma CollectParts(bursts: seq<Burst>, a: Answer, c: Burst)
    requires bursts != [] && c == Last(bursts).(answers := Last(bursts).answers + [a])
    ensures var after := Collect(bursts, a);
      after != [] && |after| == |bursts| && after[..|after| - 1] == bursts[..|bursts| - 1] && Last(after) == c
  {
  }

  lemma OneMoreReply(b: Burst, c: Burst, a: Answer)
    requires c == b.(answers := b.answers + [a])
    ensures Replies(c, |c.answers|) == Replies(b, |b.answers|) + [Reply(a, b.ar.id, |b.answers| == b.ar.len)]
  {
    RepliesOf(b, c, |b.answers|);
  }

  lemma StartOne(bursts: seq<Burst>, ar: Command)
    ensures var new' := bursts + [Burst(ar, 0, [])];
      AllAddresses(new') == AllAddresses(bursts) && AllReplies(new') == AllReplies(bursts)
  {
    assert (bursts + [Burst(ar, 0, [])])[..|bursts|] == bursts;
  }

  lemma IdleCycle(g: Log, r: Regs, i: Input)
    requires Good(g, r) && Idle(g) && SlaveLegal(g, i)
    ensures Good(Logged(g, r, i), Clocked(r, i))
  {
    if ArAccepted(r, i) {
      var started := g.bursts + [Burst(i.ar, 0, [])];
      StartOne(g.bursts, i.ar);
      IssueOne(started);
      assert Beat(i.ar.addr, i.ar.kind, i.ar.len, 1) ==
        NextAddr(Beat(i.ar.addr, i.ar.kind, i.ar.len, 0), i.ar.kind, i.ar.len);
    }
  }

  /** The bursts after a cycle within a burst. */
  function BusyBursts(g: Log, r: Regs, i: Input): seq<Burst> {
    var answered := if RGiven(i) then Collect(g.bursts, i.answer) else g.bursts;
    if LiteAr(r, i) then Issue(answered) else answered
  }

  /** In a burst a lite read is at the address of its beat, and an answer goes out with its id and last mark. */
  lemma BusyPorts(g: Log, r: Regs, i: Input)
    requires Tracks(g, r) && !Idle(g) && SlaveLegal(g, i)
    ensures !ArAccepted(r, i) && (LiteAr(r, i) <==> i.arready && ReadDue(g, i))
    ensures var b := Last(g.bursts);
      && (LiteAr(r, i) ==> OutArAddr(r, i) == Beat(b.ar.addr, b.ar.kind, b.ar.len, b.issued))
      && (RGiven(i) ==> r.arid == b.ar.id && (RLast(r) <==> |b.answers| == b.ar.len))
  {
  }

  lemma BusyLog(g: Log, r: Regs, i: Input)
    requires Good(g, r) && !Idle(g) && SlaveLegal(g, i)
    ensures var g' := Logged(g, r, i);
      g'.bursts == BusyBursts(g, r, i) && g'.lite == AllAddresses(g'.bursts) && g'.replies == AllReplies(g'.bursts)
  {
    var answered := if RGiven(i) then Collect(g.bursts, i.answer) else g.bursts;
    BusyPorts(g, r, i);
    if RGiven(i) { CollectOne(g.bursts, i.answer); }
    if LiteAr(r, i) { IssueOne(answered); }
  }

  /** The burst in progress, moved on. */
  lemma BusyLast(g: Log, r: Regs, i: Input, bursts: seq<Burst>)
    requires g.bursts != [] && bursts == BusyBursts(g, r, i)
    ensures |bursts| == |g.bursts| && bursts[..|bursts| - 1] == g.bursts[..|bursts| - 1]
    ensures var b := Last(g.bursts);
      Last(bursts) == b.(issued := if LiteAr(r, i) then b.issued + 1 else b.issued,
                         answers := if RGiven(i) then b.answers + [i.answer] else b.answers)
  {
  }

  lemma BusyTracks(g: Log, r: Regs, i: Input, g': Log)
    requires Good(g, r) && !Idle(g) && SlaveLegal(g, i) && g'.bursts != []
    requires g'.busy == (LiteAr(r, i) || (g.busy && !RGiven(i)))
    requires var b := Last(g.bursts);
      Last(g'.bursts) == b.(issued := if LiteAr(r, i) then b.issued + 1 else b.issued,
                            answers := if RGiven(i) then b.answers + [i.answer] else b.answers)
    ensures Tracks(g', Clocked(r, i))
    ensures var b := Last(g'.bursts); b.issued <= b.ar.len + 1 && |b.answers| <= b.issued <= |b.answers| + 1
  {
  }

  lemma BusyCycle(g: Log, r: Regs, i: Input)
    requires Good(g, r) && !Idle(g) && SlaveLegal(g, i)
    ensures Good(Logged(g, r, i), Clocked(r, i))
  {
    var g' := Logged(g, r, i);
    BusyLog(g, r, i);
    BusyLast(g, r, i, g'.bursts);
    BusyTracks(g, r, i, g');
    forall k | 0 <= k < |g'.bursts| - 1 ensures Finished(g'.bursts[k]) {
      assert g'.bursts[..|g'.bursts| - 1][k] == g.bursts[..|g'.bursts| - 1][k];
    }
  }

  // ---------------------------------------------------------------------------------------------
  // The same without registers

  /** The traffic after a cycle, from the traffic before it and the inputs alone. */
  function Expected(g: Log, i: Input): Log {
    if Idle(g) then
      if i.arvalid && i.arready then Log(g.bursts + [Burst(i.ar, 1, [])], g.lite + [i.ar.addr], g.replies, true) else g
    else
      var b := Last(g.bursts);
      var due, taken := i.arready && b.issued <= b.ar.len, i.rvalid && i.rready;
      Log(
        WithLast(g.bursts, b.(issued := if due then b.issued + 1 else b.issued,
                              answers := if taken then b.answers + [i.answer] else b.answers)),
        if due then g.lite + [Beat(b.ar.addr, b.ar.kind, b.ar.len, b.issued)] else g.lite,
        if taken then g.replies + [Reply(i.answer, b.ar.id, |b.answers| == b.ar.len)] else g.replies,
        due || (g.busy && !taken))
  }

  lemma IdleExpected(g: Log, r: Regs, i: Input)
    requires Good(g, r) && Idle(g) && SlaveLegal(g, i)
    ensures Logged(g, r, i) == Expected(g, i)
  {
    var started := g.bursts + [Burst(i.ar, 0, [])];
    assert started[..|started| - 1] == g.bursts;
  }

  lemma BusyExpected(g: Log, r: Regs, i: Input)
    requires Good(g, r) && !Idle(g) && SlaveLegal(g, i)
    ensures Logged(g, r, i) == Expected(g, i)
  {
    var bursts := BusyBursts(g, r, i);
    BusyPorts(g, r, i);
    BusyLast(g, r, i, bursts);
    assert bursts == WithLast(bursts, Last(bursts));
  }

  lemma OneCycle(g: Log, r: Regs, i: Input)
    requires Good(g, r) && SlaveLegal(g, i)
    ensures Logged(g, r, i) == Expected(g, i) && Good(Expected(g, i), Clocked(r, i))
  {
    if Idle(g) {
      IdleExpected(g, r, i);
      IdleCycle(g, r, i);
    } else {
      BusyExpected(g, r, i);
      BusyCycle(g, r, i);
    }
  }

  // ---------------------------------------------------------------------------------------------
  // All runs

  datatype System = System(log: Log, regs: Regs)

  function Start(): System { System(Log([], [], [], false), ResetRegs()) }
  function Next(s: System, i: Input): System { System(Logged(s.log, s.regs, i), Clocked(s.regs, i)) }

  function RunFrom(s: System, inputs: seq<Input>): System
    decreases |inputs|
  {
    if inputs == [] then s else RunFrom(Next(s, inputs[0]), inputs[1..])
  }

  /** The runs in which the slave keeps its rules. The converter's registers do not matter for that. */
  predicate LegalRun(g: Log, inputs: seq<Input>)
    decreases |inputs|
  {
    inputs == [] || (SlaveLegal(g, inputs[0]) && LegalRun(Expected(g, inputs[0]), inputs[1..]))
  }

  /** The traffic of a run, cycle by cycle as expected. */
  function ExpectedRun(g: Log, inputs: seq<Input>): Log
    decreases |inputs|
  {
    if inputs == [] then g else ExpectedRun(Expected(g, inputs[0]), inputs[1..])
  }

  lemma {:induction false} GoodRun(s: System, inputs: seq<Input>)
    requires Good(s.log, s.regs) && LegalRun(s.log, inputs)
    ensures var t := RunFrom(s, inputs); Good(t.log, t.regs) && t.log == ExpectedRun(s.log, inputs)
    decreases |inputs|
  {
    if inputs != [] {
      OneCycle(s.log, s.regs, inputs[0]);
      GoodRun(Next(s, inputs[0]), inputs[1..]);
    }
  }

  /**
   * Over every run the converter does in each cycle exactly what is expected of it: between bursts an
   * offered command is taken when the slave is ready, and in a burst the next read is made when the slave is
   * ready until there are len + 1, and each answer goes to the master.
   */
  lemma ReadCycles(inputs: seq<Input>)
    requires LegalRun(Start().log, inputs)
    ensures RunFrom(Start(), inputs).log == ExpectedRun(Start().log, inputs)
  {
    GoodRun(Start(), inputs);
  }

  /**
   * Over every run, whatever the master does: each accepted command causes exactly len + 1 lite reads at
   * the addresses of its beats, all of them before the next command is accepted; the answers come back in
   * order with the id of the command, and the last-beat mark is on the answer to beat len and on no other.
   */
  lemma ReadBursts(inputs: seq<Input>)
    requires LegalRun(Start().log, inputs)
    ensures InOrder(RunFrom(Start(), inputs).log)
  {
    GoodRun(Start(), inputs);
  }

  /** No command is accepted while a burst is in progress. */
  lemma OneBurstAtATime(inputs: seq<Input>, i: Input)
    requires LegalRun(Start().log, inputs) && ArAccepted(RunFrom(Start(), inputs).regs, i)
    ensures var g := RunFrom(Start(), inputs).log; g.bursts == [] || Finished(Last(g.bursts))
  {
    GoodRun(Start(), inputs);
  }

  // ---------------------------------------------------------------------------------------------
  // Bursts end

  /** The cycles in which the slave is ready for a read, and those in which the master takes an answer. */
  function Readies(inputs: seq<Input>): nat {
    if inputs == [] then 0 else (if inputs[0].arready then 1 else 0) + Readies(inputs[1..])
  }
  function Takes(inputs: seq<Input>): nat {
    if inputs == [] then 0 else (if inputs[0].rvalid && inputs[0].rready then 1 else 0) + Takes(inputs[1..])
  }

  /** Burst k of g has at least this many reads and answers, or all of them. */
  ghost predicate Reached(g: Log, k: nat, ar: Command, issued: int, answered: int) {
    && k < |g.bursts| && g.bursts[k].ar == ar
    && (g.bursts[k].issued > ar.len || g.bursts[k].issued >= issued)
    && (|g.bursts[k].answers| > ar.len || |g.bursts[k].answers| >= answered)
  }

  /** A burst that has ended stays as it is. */
  lemma EndedStays(g: Log, i: Input, k: nat)
    requires k < |g.bursts| && (Idle(g) || k < |g.bursts| - 1)
    ensures |Expected(g, i).bursts| >= |g.bursts| && Expected(g, i).bursts[k] == g.bursts[k]
  {
  }

  lemma LastMoves(g: Log, i: Input)
    requires !Idle(g)
    ensures var b := Last(g.bursts);
      |Expected(g, i).bursts| == |g.bursts|
      && Last(Expected(g, i).bursts) ==
        b.(issued := if i.arready && b.issued <= b.ar.len then b.issued + 1 else b.issued,
           answers := if i.rvalid && i.rready then b.answers + [i.answer] else b.answers)
  {
  }

  lemma ReachedCycle(g: Log, r: Regs, i: Input, k: nat, ar: Command, issued: int, answered: int)
    requires Good(g, r) && SlaveLegal(g, i) && Reached(g, k, ar, issued, answered)
    ensures Reached(Expected(g, i), k, ar, issued + (if i.arready then 1 else 0),
                    answered + (if i.rvalid && i.rready then 1 else 0))
  {
    if Idle(g) || k < |g.bursts| - 1 {
      EndedStays(g, i, k);
      assert Finished(g.bursts[k]);
    } else {
      LastMoves(g, i);
    }
  }

  lemma {:induction false} ReachedRun(s: System, inputs: seq<Input>, k: nat, ar: Command, issued: int, answered: int)
    requires Good(s.log, s.regs) && LegalRun(s.log, inputs) && Reached(s.log, k, ar, issued, answered)
    ensures Reached(RunFrom(s, inputs).log, k, ar, issued + Readies(inputs), answered + Takes(inputs))
    decreases |inputs|
  {
    if inputs != [] {
      var i := inputs[0];
      OneCycle(s.log, s.regs, i);
      ReachedCycle(s.log, s.regs, i, k, ar, issued, answered);
      ReachedRun(Next(s, i), inputs[1..], k, ar, issued + (if i.arready then 1 else 0),
                 answered + (if i.rvalid && i.rready then 1 else 0));
    }
  }

  /**
   * A burst comes to its end: after any run to an accepted command, every legal run in which the slave is
   * ready as often as reads are missing, and the master takes as many answers as are missing, finishes it: it has
   * len + 1 reads and len + 1 replies.
   */
  lemma BurstEnds(before: seq<Input>, after: seq<Input>, k: nat)
    requires LegalRun(Start().log, before) && LegalRun(RunFrom(Start(), before).log, after)
    requires var g := RunFrom(Start(), before).log;
      k < |g.bursts|
      && g.bursts[k].issued + Readies(after) > g.bursts[k].ar.len
      && |g.bursts[k].answers| + Takes(after) > g.bursts[k].ar.len
    ensures var s := RunFrom(Start(), before); var t := RunFrom(s, after);
      && k < |t.log.bursts| && t.log.bursts[k].ar == s.log.bursts[k].ar && Finished(t.log.bursts[k])
      && InOrder(t.log)
  {
    GoodRun(Start(), before);
    EndsFrom(RunFrom(Start(), before), after, k);
  }

  lemma EndsFrom(s: System, after: seq<Input>, k: nat)
    requires Good(s.log, s.regs) && LegalRun(s.log, after) && k < |s.log.bursts|
    requires var b := s.log.bursts[k]; b.issued + Readies(after) > b.ar.len && |b.answers| + Takes(after) > b.ar.len
    ensures var t := RunFrom(s, after);
      && k < |t.log.bursts| && t.log.bursts[k].ar == s.log.bursts[k].ar && Finished(t.log.bursts[k])
      && InOrder(t.log)
  {
    var b := s.log.bursts[k];
    GoodRun(s, after);
    ReachedRun(s, after, k, b.ar, b.issued, |b.answers|);
    NotTooMuch(RunFrom(s, after).log, RunFrom(s, after).regs, k);
  }

  lemma NotTooMuch(g: Log, r: Regs, k: nat)
    requires Good(g, r) && k < |g.bursts|
    ensures g.bursts[k].issued <= g.bursts[k].ar.len + 1 && |g.bursts[k].answers| <= g.bursts[k].ar.len + 1
  {
    if k < |g.bursts| - 1 { assert Finished(g.bursts[k]); }
  }
}
