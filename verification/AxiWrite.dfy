// Write bursts through the AXI4 to AXI4-Lite converter.
module AxiWrite {
  import opened Words
  import opened AxiBurst

  // ---------------------------------------------------------------------------------------------
  // Signals

  /** A write command; ids, strobes and responses are passed through, so their width does not matter. */
  datatype Command = Command(addr: Word, id: nat, len: Len, kind: Kind)
  datatype Data = Data(data: Word, strb: nat)

  /** The inputs of one clock cycle: from the master, and from the lite slave. */
  datatype Input = Input(
    awvalid: bool, aw: Command, wvalid: bool, w: Data, wlast: bool, bready: bool,
    awready: bool, wready: bool, bvalid: bool, bresp: nat)

  /** One accepted lite write. */
  datatype LiteWrite = LiteWrite(addr: Word, data: Data)

  // ---------------------------------------------------------------------------------------------
  // The converter

  datatype Regs = Regs(
    awmask: bool, wmask: bool, awvalid: bool, awaddr: Word, awcnt: nat, awid: nat, awlen: Len, awkind: Kind,
    blast: bool)

  function ResetRegs(): Regs { Regs(false, false, false, Zero(), 0, 0, 0, 0, false) }

  // Outputs.

  predicate OutAwValid(r: Regs, i: Input) { (i.awvalid && i.wvalid && !r.awmask) || (r.awvalid && i.wvalid) }
  function OutAwAddr(r: Regs, i: Input): Word { if r.awvalid then r.awaddr else i.aw.addr }
  predicate OutBReady(r: Regs, i: Input) { !r.blast || i.bready }
  predicate InBValid(r: Regs, i: Input) { i.bvalid && r.blast }
  predicate InAwReady(r: Regs, i: Input) { i.awready && !r.awmask }
  predicate InWReady(r: Regs, i: Input) { i.wready }

  // Handshakes.

  predicate AwAccepted(r: Regs, i: Input) { i.awvalid && InAwReady(r, i) }
  predicate WAccepted(r: Regs, i: Input) { i.wvalid && InWReady(r, i) }
  predicate BGiven(r: Regs, i: Input) { InBValid(r, i) && i.bready }
  predicate LiteAw(r: Regs, i: Input) { OutAwValid(r, i) && i.awready }
  predicate LiteW(r: Regs, i: Input) { i.wvalid && i.wready }
  predicate LiteB(r: Regs, i: Input) { i.bvalid && OutBReady(r, i) }

  /** An eight-bit counter. */
  function Dec(n: nat): nat { if n == 0 then 255 else n - 1 }
  function Inc(n: nat): nat { if n >= 255 then 0 else n + 1 }

  /** The registers after the clock edge. */
  function Clocked(r: Regs, i: Input): Regs {
    var masked := r.(
      awmask := AwAccepted(r, i) || (r.awmask && !BGiven(r, i)),
      wmask := WAccepted(r, i) || (r.wmask && !BGiven(r, i)));
    if r.awvalid && LiteAw(r, i) then
      masked.(awaddr := NextAddr(r.awaddr, r.awkind, r.awlen), awvalid := r.awcnt != 1,
              blast := r.blast || r.awcnt == 1, awcnt := Dec(r.awcnt))
    else if AwAccepted(r, i) then
      if WAccepted(r, i) then
        masked.(awid := i.aw.id, awvalid := !i.wlast, awcnt := i.aw.len,
                awaddr := NextAddr(i.aw.addr, i.aw.kind, i.aw.len), awlen := i.aw.len, awkind := i.aw.kind,
                blast := i.wlast)
      else
        masked.(awid := i.aw.id, awvalid := true, awcnt := Inc(i.aw.len), awaddr := i.aw.addr,
                awlen := i.aw.len, awkind := i.aw.kind, blast := false)
    else if BGiven(r, i) then masked.(blast := false)
    else masked
  }

  /** The clocked object. */
  class Converter {
    var awvalid_mask: bool
    var wvalid_mask: bool
    var awvalid: bool
    var awaddr: Word
    var awcnt: nat
    var awid: nat
    var awlen: Len
    var awburst: Kind
    var blast: bool

    function State(): Regs
      reads this
    {
      Regs(awvalid_mask, wvalid_mask, awvalid, awaddr, awcnt, awid, awlen, awburst, blast)
    }

    constructor ()
      ensures State() == ResetRegs()
    {
      awvalid_mask, wvalid_mask, awvalid, awaddr := false, false, false, Zero();
      awcnt, awid, awlen, awburst, blast := 0, 0, 0, 0, false;
    }

    method ClockBurst(i: Input, r: Regs)
      requires r == State()
      modifies this`awvalid, this`awaddr, this`awcnt, this`awid, this`awlen, this`awburst, this`blast
      ensures State() == Clocked(r, i).(awmask := r.awmask, wmask := r.wmask)
    {
      if r.awvalid && LiteAw(r, i) {
        awaddr := NextAddr(r.awaddr, r.awkind, r.awlen);
        if r.awcnt == 1 {
          awvalid := false;
          blast := true;
        }
        awcnt := Dec(r.awcnt);
      } else if AwAccepted(r, i) {
        awid := i.aw.id;
        awlen := i.aw.len;
        awburst := i.aw.kind;
        if WAccepted(r, i) {
          awvalid := !i.wlast;
          awcnt := i.aw.len;
          awaddr := NextAddr(i.aw.addr, i.aw.kind, i.aw.len);
          blast := i.wlast;
        } else {
          awvalid := true;
          awcnt := Inc(i.aw.len);
          awaddr := i.aw.addr;
          blast := false;
        }
      } else if BGiven(r, i) {
        blast := false;
      }
    }

    method Clock(i: Input)
      modifies this
      ensures State() == Clocked(old(State()), i)
    {
      var r := State();
      ClockBurst(i, r);
      awvalid_mask := r.awmask;
      wvalid_mask := r.wmask;
      if BGiven(r, i) {
        awvalid_mask := false;
        wvalid_mask := false;
      }
      if AwAccepted(r, i) {
        awvalid_mask := true;
      }
      if WAccepted(r, i) {
        wvalid_mask := true;
      }
    }
  }

  // ---------------------------------------------------------------------------------------------
  // What master and slave have seen

  /** A burst as the master's port shows it: the command, and the data beats accepted so far. */
  datatype Burst = Burst(aw: Command, beats: seq<Data>)
  datatype Response = Response(id: nat, resp: nat)

  /** The traffic so far: bursts and responses at the master, writes and open responses at the slave. */
  datatype Log = Log(bursts: seq<Burst>, responses: seq<Response>, lite: seq<LiteWrite>, busy: bool)

  function WithBeat(bursts: seq<Burst>, d: Data): seq<Burst> {
    if bursts == [] then [] else
      var last := bursts[|bursts| - 1];
      bursts[|bursts| - 1 := last.(beats := last.beats + [d])]
  }

  /** The log after a cycle; only handshakes count. */
  function Logged(g: Log, r: Regs, i: Input): Log {
    var bursts := if AwAccepted(r, i) then g.bursts + [Burst(i.aw, [])] else g.bursts;
    Log(
      if WAccepted(r, i) then WithBeat(bursts, i.w) else bursts,
      if BGiven(r, i) then g.responses + [Response(r.awid, i.bresp)] else g.responses,
      if LiteAw(r, i) then g.lite + [LiteWrite(OutAwAddr(r, i), i.w)] else g.lite,
      LiteAw(r, i) || (g.busy && !LiteB(r, i)))
  }

  predicate Idle(g: Log) { |g.bursts| == |g.responses| }
  predicate Done(b: Burst) { |b.beats| == b.aw.len + 1 }
  function Last(g: Log): Burst
    requires g.bursts != []
  {
    g.bursts[|g.bursts| - 1]
  }

  /** The master offers data only for a command already accepted, or with it, and marks the last beat. */
  predicate MasterLegal(g: Log, i: Input) {
    i.wvalid ==>
      if Idle(g) then i.awvalid && (i.wlast <==> i.aw.len == 0)
      else g.bursts != [] && !Done(Last(g)) && (i.wlast <==> |Last(g).beats| == Last(g).aw.len)
  }

  /** A beat is offered that should be written: with a command between bursts, or in a burst. */
  predicate WriteDue(g: Log, i: Input) { i.wvalid && if Idle(g) then i.awvalid else g.bursts != [] && !Done(Last(g)) }

  /** An answer of the slave is taken: at once, or, after the last beat of a burst, by the master. */
  predicate AnswerTaken(g: Log, i: Input) {
    i.bvalid && (!Idle(g) && g.bursts != [] && Done(Last(g)) ==> i.bready)
  }

  /**
   * The slave takes address and data together, answers only what it has taken, and takes a write only
   * when the previous answer is out or goes out in the same cycle.
   */
  predicate SlaveLegal(g: Log, i: Input) {
    && (i.wvalid ==> i.awready == i.wready)
    && (i.bvalid ==> g.busy)
    && (WriteDue(g, i) && i.awready ==> !g.busy || AnswerTaken(g, i))
  }

  // ---------------------------------------------------------------------------------------------
  // What should happen

  /** The lite writes of the first n beats of a burst. */
  function Unroll(b: Burst, n: nat): seq<LiteWrite>
    requires n <= |b.beats|
  {
    if n == 0 then [] else Unroll(b, n - 1) + [LiteWrite(Beat(b.aw.addr, b.aw.kind, b.aw.len, n - 1), b.beats[n - 1])]
  }

  function UnrollAll(bursts: seq<Burst>): seq<LiteWrite>
    decreases |bursts|
  {
    if bursts == [] then []
    else
      var b := bursts[|bursts| - 1];
      UnrollAll(bursts[..|bursts| - 1]) + Unroll(b, |b.beats|)
  }

  /** Every burst but an unfinished last one is complete and answered in order with its own id. */
  ghost predicate InOrder(g: Log) {
    && |g.responses| <= |g.bursts| <= |g.responses| + 1
    && (forall k :: 0 <= k < |g.responses| ==> Done(g.bursts[k]) && g.responses[k].id == g.bursts[k].aw.id)
    && g.lite == UnrollAll(g.bursts)
  }

  /** How the registers stand for the burst in progress. */
  predicate Tracks(g: Log, r: Regs) {
    if Idle(g) then !r.awmask && !r.awvalid && !r.blast && !g.busy
    else
      g.bursts != [] &&
      var b := Last(g);
      var n := |b.beats|;
      && r.awmask && n <= b.aw.len + 1 && r.awid == b.aw.id && r.awlen == b.aw.len && r.awkind == b.aw.kind
      && r.awvalid == (n <= b.aw.len) && r.blast == (n == b.aw.len + 1)
      && r.awaddr == Beat(b.aw.addr, b.aw.kind, b.aw.len, n)
      && r.awcnt == (if n == 0 then Inc(b.aw.len) else b.aw.len + 1 - n)
      && (n == b.aw.len + 1 ==> g.busy)
  }

  // ---------------------------------------------------------------------------------------------
  // One cycle

  ghost predicate Good(g: Log, r: Regs) { InOrder(g) && Tracks(g, r) }

  lemma UnrollBeat(b: Burst, d: Data, n: nat)
    requires n <= |b.beats|
    ensures Unroll(b.(beats := b.beats + [d]), n) == Unroll(b, n)
  {
    if n > 0 { UnrollBeat(b, d, n - 1); }
  }

  /** One more beat of the last burst is one more lite write, at that beat's address. */
  lemma UnrollAllBeat(bursts: seq<Burst>, d: Data)
    requires bursts != []
    ensures var b := bursts[|bursts| - 1];
      UnrollAll(WithBeat(bursts, d)) ==
        UnrollAll(bursts) + [LiteWrite(Beat(b.aw.addr, b.aw.kind, b.aw.len, |b.beats|), d)]
  {
    var b := bursts[|bursts| - 1];
    var b' := b.(beats := b.beats + [d]);
    UnrollBeat(b, d, |b.beats|);
    assert WithBeat(bursts, d)[..|bursts| - 1] == bursts[..|bursts| - 1];
    assert Unroll(b', |b'.beats|) ==
      Unroll(b, |b.beats|) + [LiteWrite(Beat(b.aw.addr, b.aw.kind, b.aw.len, |b.beats|), d)];
  }

  lemma UnrollAllNew(bursts: seq<Burst>, aw: Command)
    ensures UnrollAll(bursts + [Burst(aw, [])]) == UnrollAll(bursts)
  {
    assert (bursts + [Burst(aw, [])])[..|bursts|] == bursts;
  }

  /** No burst in progress: a command may come, with its first beat or without. */
  lemma IdleCycle(g: Log, r: Regs, i: Input)
    requires Good(g, r) && Idle(g) && MasterLegal(g, i) && SlaveLegal(g, i)
    ensures Good(Logged(g, r, i), Clocked(r, i))
  {
    if AwAccepted(r, i) {
      UnrollAllNew(g.bursts, i.aw);
      if WAccepted(r, i) { UnrollAllBeat(g.bursts + [Burst(i.aw, [])], i.w); }
      assert Beat(i.aw.addr, i.aw.kind, i.aw.len, 1) ==
        NextAddr(Beat(i.aw.addr, i.aw.kind, i.aw.len, 0), i.aw.kind, i.aw.len);
    }
  }

  /** Beats to come: no beat comes, and lite answers are swallowed. */
  lemma QuietCycle(g: Log, r: Regs, i: Input)
    requires Good(g, r) && !Idle(g) && !Done(Last(g)) && SlaveLegal(g, i) && !WAccepted(r, i)
    ensures Good(Logged(g, r, i), Clocked(r, i))
  {
    QuietLog(g, r, i, Logged(g, r, i));
    QuietTracks(g, r, i, Logged(g, r, i));
  }

  lemma QuietLog(g: Log, r: Regs, i: Input, g': Log)
    requires Tracks(g, r) && !Idle(g) && !Done(Last(g)) && SlaveLegal(g, i) && !WAccepted(r, i)
      && g' == Logged(g, r, i)
    ensures g'.bursts == g.bursts && g'.responses == g.responses && g'.lite == g.lite
  {
  }

  lemma QuietTracks(g: Log, r: Regs, i: Input, g': Log)
    requires Tracks(g, r) && !Idle(g) && !Done(Last(g)) && SlaveLegal(g, i) && !WAccepted(r, i)
    requires g'.bursts == g.bursts && g'.responses == g.responses
    ensures Tracks(g', Clocked(r, i))
  {
  }

  /** A beat comes, and goes out with its address. */
  lemma BeatOrder(g: Log, r: Regs, i: Input, g': Log)
    requires Good(g, r) && !Idle(g) && !Done(Last(g)) && SlaveLegal(g, i) && WAccepted(r, i)
    requires g' == Logged(g, r, i)
    ensures InOrder(g') && g'.bursts == WithBeat(g.bursts, i.w) && g'.responses == g.responses && g'.busy
  {
    UnrollAllBeat(g.bursts, i.w);
  }

  lemma BeatTracks(g: Log, r: Regs, i: Input, g': Log)
    requires Tracks(g, r) && !Idle(g) && !Done(Last(g)) && SlaveLegal(g, i) && WAccepted(r, i)
    requires g'.bursts == WithBeat(g.bursts, i.w) && g'.responses == g.responses && g'.busy
    ensures Tracks(g', Clocked(r, i))
  {
    assert Last(g') == Last(g).(beats := Last(g).beats + [i.w]);
  }

  lemma SendingCycle(g: Log, r: Regs, i: Input)
    requires Good(g, r) && !Idle(g) && !Done(Last(g)) && MasterLegal(g, i) && SlaveLegal(g, i)
    ensures Good(Logged(g, r, i), Clocked(r, i))
  {
    if WAccepted(r, i) {
      var g' := Logged(g, r, i);
      BeatOrder(g, r, i, g');
      BeatTracks(g, r, i, g');
    } else {
      QuietCycle(g, r, i);
    }
  }

  /** All beats sent: only the answer can come. */
  lemma WaitingCycle(g: Log, r: Regs, i: Input)
    requires Good(g, r) && !Idle(g) && Done(Last(g)) && MasterLegal(g, i) && SlaveLegal(g, i)
    ensures Good(Logged(g, r, i), Clocked(r, i))
  {
    if BGiven(r, i) { AnsweredCycle(g, r, i, Logged(g, r, i)); } else { StillCycle(g, r, i, Logged(g, r, i)); }
  }

  lemma AnsweredCycle(g: Log, r: Regs, i: Input, g': Log)
    requires Good(g, r) && !Idle(g) && Done(Last(g)) && MasterLegal(g, i) && SlaveLegal(g, i) && BGiven(r, i)
    requires g' == Logged(g, r, i)
    ensures Good(g', Clocked(r, i))
  {
    assert g'.responses == g.responses + [Response(r.awid, i.bresp)] && g'.bursts == g.bursts && g'.lite == g.lite;
  }

  lemma StillCycle(g: Log, r: Regs, i: Input, g': Log)
    requires Good(g, r) && !Idle(g) && Done(Last(g)) && MasterLegal(g, i) && SlaveLegal(g, i) && !BGiven(r, i)
    requires g' == Logged(g, r, i)
    ensures Good(g', Clocked(r, i))
  {
    assert g'.responses == g.responses && g'.bursts == g.bursts && g'.lite == g.lite;
  }

  // ---------------------------------------------------------------------------------------------
  // The same without registers

  /** The traffic after a cycle, from the traffic before it and the inputs alone. */
  function Expected(g: Log, i: Input): Log {
    if Idle(g) then
      // a command, with its first beat or without
      if !(i.awvalid && i.awready) then g
      else if i.wvalid then
        Log(g.bursts + [Burst(i.aw, [i.w])], g.responses, g.lite + [LiteWrite(i.aw.addr, i.w)], true)
      else g.(bursts := g.bursts + [Burst(i.aw, [])])
    else if g.bursts == [] then g
    else
      var b := Last(g);
      if Done(b) then
        // the answer
        if i.bvalid && i.bready then g.(responses := g.responses + [Response(b.aw.id, i.bresp)], busy := false) else g
      else if i.wvalid && i.wready then
        // a beat
        Log(g.bursts[|g.bursts| - 1 := b.(beats := b.beats + [i.w])], g.responses,
            g.lite + [LiteWrite(Beat(b.aw.addr, b.aw.kind, b.aw.len, |b.beats|), i.w)], true)
      else g.(busy := g.busy && !i.bvalid)
  }

  predicate Legal(g: Log, i: Input) { MasterLegal(g, i) && SlaveLegal(g, i) }

  lemma IdleExpected(g: Log, r: Regs, i: Input)
    requires Good(g, r) && Idle(g) && Legal(g, i)
    ensures Logged(g, r, i) == Expected(g, i)
  {
    var started := g.bursts + [Burst(i.aw, [])];
    assert [] + [i.w] == [i.w];
    assert started[|started| - 1 := Burst(i.aw, [i.w])] == g.bursts + [Burst(i.aw, [i.w])];
  }

  lemma SendingExpected(g: Log, r: Regs, i: Input)
    requires Good(g, r) && !Idle(g) && !Done(Last(g)) && Legal(g, i)
    ensures Logged(g, r, i) == Expected(g, i)
  {
  }

  lemma WaitingExpected(g: Log, r: Regs, i: Input)
    requires Good(g, r) && !Idle(g) && Done(Last(g)) && Legal(g, i)
    ensures Logged(g, r, i) == Expected(g, i)
  {
  }

  lemma OneCycle(g: Log, r: Regs, i: Input)
    requires Good(g, r) && Legal(g, i)
    ensures Logged(g, r, i) == Expected(g, i) && Good(Expected(g, i), Clocked(r, i))
  {
    if Idle(g) {
      IdleExpected(g, r, i);
      IdleCycle(g, r, i);
    } else if Done(Last(g)) {
      WaitingExpected(g, r, i);
      WaitingCycle(g, r, i);
    } else {
      SendingExpected(g, r, i);
      SendingCycle(g, r, i);
    }
  }

  // ---------------------------------------------------------------------------------------------
  // All runs

  datatype System = System(log: Log, regs: Regs)

  function Start(): System { System(Log([], [], [], false), ResetRegs()) }
  function Next(s: System, i: Input): System { System(Logged(s.log, s.regs, i), Clocked(s.regs, i)) }

  function RunFrom(s: System, inputs: seq<Input>): System
    decreases |inputs|
  {
    if inputs == [] then s else RunFrom(Next(s, inputs[0]), inputs[1..])
  }

  /** The runs in which master and slave keep their rules. The converter's registers do not matter for that. */
  predicate LegalRun(g: Log, inputs: seq<Input>)
    decreases |inputs|
  {
    inputs == [] || (Legal(g, inputs[0]) && LegalRun(Expected(g, inputs[0]), inputs[1..]))
  }

  /** The traffic of a run, cycle by cycle as expected. */
  function ExpectedRun(g: Log, inputs: seq<Input>): Log
    decreases |inputs|
  {
    if inputs == [] then g else ExpectedRun(Expected(g, inputs[0]), inputs[1..])
  }

  lemma {:induction false} GoodRun(s: System, inputs: seq<Input>)
    requires Good(s.log, s.regs) && LegalRun(s.log, inputs)
    ensures var t := RunFrom(s, inputs); Good(t.log, t.regs) && t.log == ExpectedRun(s.log, inputs)
    decreases |inputs|
  {
    if inputs != [] {
      OneCycle(s.log, s.regs, inputs[0]);
      GoodRun(Next(s, inputs[0]), inputs[1..]);
    }
  }

  /**
   * Over every run the converter does in each cycle exactly what is expected of it: between bursts an
   * offered command is taken when the slave is ready, its first beat with it or later; in a burst an offered
   * beat is written when the slave is ready; after the last beat the answer goes to the master who is ready.
   */
  lemma WriteCycles(inputs: seq<Input>)
    requires LegalRun(Start().log, inputs)
    ensures RunFrom(Start(), inputs).log == ExpectedRun(Start().log, inputs)
  {
    GoodRun(Start(), inputs);
  }

  /**
   * Over every run the lite writes are the beats of the accepted bursts, in order, with the address the
   * burst type gives each beat; every burst but an unfinished last one is complete, and has exactly one
   * response, with its id, given after its last beat.
   */
  lemma WriteBursts(inputs: seq<Input>)
    requires LegalRun(Start().log, inputs)
    ensures InOrder(RunFrom(Start(), inputs).log)
  {
    GoodRun(Start(), inputs);
  }

  /** The address and the data side of the lite port always move together. */
  lemma SidesTogether(inputs: seq<Input>, i: Input)
    requires LegalRun(Start().log, inputs) && Legal(RunFrom(Start(), inputs).log, i)
    ensures var r := RunFrom(Start(), inputs).regs; LiteAw(r, i) == LiteW(r, i)
  {
    GoodRun(Start(), inputs);
  }

  // ---------------------------------------------------------------------------------------------
  // Bursts end

  /** The cycles in which a beat is offered to a ready slave. */
  function Offers(inputs: seq<Input>): nat {
    if inputs == [] then 0 else (if inputs[0].wvalid && inputs[0].wready then 1 else 0) + Offers(inputs[1..])
  }

  /** Burst k of g has at least this many beats, or all of them. */
  ghost predicate Reached(g: Log, k: nat, aw: Command, beats: int) {
    k < |g.bursts| && g.bursts[k].aw == aw && (Done(g.bursts[k]) || |g.bursts[k].beats| >= beats)
  }

  lemma ReachedCycle(g: Log, r: Regs, i: Input, k: nat, aw: Command, beats: int)
    requires Good(g, r) && Legal(g, i) && Reached(g, k, aw, beats)
    ensures Reached(Expected(g, i), k, aw, beats + (if i.wvalid && i.wready then 1 else 0))
  {
    if k < |g.responses| { assert Done(g.bursts[k]); }
  }

  lemma {:induction false} ReachedRun(s: System, inputs: seq<Input>, k: nat, aw: Command, beats: int)
    requires Good(s.log, s.regs) && LegalRun(s.log, inputs) && Reached(s.log, k, aw, beats)
    ensures Reached(RunFrom(s, inputs).log, k, aw, beats + Offers(inputs))
    decreases |inputs|
  {
    if inputs != [] {
      var i := inputs[0];
      OneCycle(s.log, s.regs, i);
      ReachedCycle(s.log, s.regs, i, k, aw, beats);
      ReachedRun(Next(s, i), inputs[1..], k, aw, beats + (if i.wvalid && i.wready then 1 else 0));
    }
  }

  lemma {:induction false} AnsweredRun(s: System, inputs: seq<Input>, k: nat, j: nat)
    requires Good(s.log, s.regs) && LegalRun(s.log, inputs) && k < |s.log.bursts| && Done(s.log.bursts[k])
    requires j < |inputs| && inputs[j].bvalid && inputs[j].bready
    ensures k < |RunFrom(s, inputs).log.responses|
    decreases |inputs|
  {
    var i := inputs[0];
    OneCycle(s.log, s.regs, i);
    if k < |Next(s, i).log.responses| {
      ResponsesStay(Next(s, i), inputs[1..]);
    } else {
      AnsweredRun(Next(s, i), inputs[1..], k, j - 1);
    }
  }

  lemma {:induction false} ResponsesStay(s: System, inputs: seq<Input>)
    ensures |s.log.responses| <= |RunFrom(s, inputs).log.responses|
    decreases |inputs|
  {
    if inputs != [] { ResponsesStay(Next(s, inputs[0]), inputs[1..]); }
  }

  /**
   * A burst comes to its end: after any run to an accepted command, a legal run in which its missing beats are
   * offered to a ready slave writes them all, and then a cycle in which the slave answers and the master takes
   * it gives it its response.
   */
  lemma BurstEnds(before: seq<Input>, beats: seq<Input>, answer: seq<Input>, k: nat, j: nat)
    requires LegalRun(Start().log, before) && k < |RunFrom(Start(), before).log.bursts|
    requires var s := RunFrom(Start(), before);
      && LegalRun(s.log, beats) && LegalRun(RunFrom(s, beats).log, answer)
      && |s.log.bursts[k].beats| + Offers(beats) > s.log.bursts[k].aw.len
    requires j < |answer| && answer[j].bvalid && answer[j].bready
    ensures var s := RunFrom(Start(), before); var t := RunFrom(RunFrom(s, beats), answer);
      && k < |t.log.responses| && k < |t.log.bursts| && InOrder(t.log)
      && t.log.bursts[k].aw == s.log.bursts[k].aw && t.log.responses[k].id == s.log.bursts[k].aw.id
  {
    var s := RunFrom(Start(), before);
    var b := s.log.bursts[k];
    GoodRun(Start(), before);
    GoodRun(s, beats);
    ReachedRun(s, beats, k, b.aw, |b.beats|);
    BeatsDone(RunFrom(s, beats), k);
    GoodRun(RunFrom(s, beats), answer);
    AnsweredRun(RunFrom(s, beats), answer, k, j);
    ReachedRun(RunFrom(s, beats), answer, k, b.aw, 0);
  }

  lemma BeatsDone(s: System, k: nat)
    requires Good(s.log, s.regs) && k < |s.log.bursts|
    ensures |s.log.bursts[k].beats| <= s.log.bursts[k].aw.len + 1
  {
  }
}
