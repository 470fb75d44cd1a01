/** Concrete runs that show what the exact conditions of the RSSI theorems are about. */
module RssiWitness {
  import opened Wrappers
  import opened CircularIndex
  import opened RssiSegments
  import opened RssiEndpoint
  import opened RssiInvariant
  import opened RssiLink
  import opened RssiSystem
  import opened RssiTheorems
  import opened RssiStray
  import opened RssiResets

  ghost predicate Leads(s: System, acts: seq<Action>, t: System) {
    CanRun(s, acts) && Run(s, acts) == t
  }

  ghost predicate Reaches(s: System, t: System) {
    exists acts :: Leads(s, acts, t)
  }

  lemma Begin(s: System)
    ensures Reaches(s, s)
  {
    assert Leads(s, [], s);
  }

  lemma {:induction false} Longer(s: System, acts: seq<Action>, t: System, act: Action, t': System)
    requires Leads(s, acts, t) && Enabled(t, act) && Next(t, act) == t'
    ensures Leads(s, acts + [act], t')
    decreases |acts|
  {
    hide Enabled, Next;
    var more := acts + [act];
    if acts == [] {
      assert more[0] == act && more[1..] == [];
      assert CanRun(t', []) && Run(t', []) == t';
    } else {
      assert more[0] == acts[0];
      assert more[1..] == acts[1..] + [act];
      Longer(Next(s, acts[0]), acts[1..], t, act, t');
    }
  }

  /** One more action at the end of a run. */
  lemma Further(s: System, t: System, act: Action, t': System)
    requires Reaches(s, t) && Enabled(t, act) && Next(t, act) == t'
    ensures Reaches(s, t')
  {
    hide Leads, Enabled, Next;
    var acts :| Leads(s, acts, t);
    Longer(s, acts, t, act, t');
  }

  /** The client handles an event. */
  lemma ClientDoes(s: System, t: System, ev: Event, e: Endpoint, out: seq<Flight>, t': System)
    requires Reaches(s, t) && EventEnabled(t.c.e, ev, t.sc) && !Throws(t.c.e.st, ev)
    requires Perform(t.c.e, ev, t.sc) == e && AnnotateAll(e) == out
    requires t' == System(Side(e.(wire := []), t.c.user), t.s, t.cs + out, Remaining(ev, t.sc))
    ensures Reaches(s, t')
  {
    hide Reaches, Perform, EventEnabled, Throws;
    Further(s, t, Does(true, ev), t');
  }

  lemma ServerDoes(s: System, t: System, ev: Event, e: Endpoint, out: seq<Flight>, t': System)
    requires Reaches(s, t) && EventEnabled(t.s.e, ev, t.cs) && !Throws(t.s.e.st, ev)
    requires Perform(t.s.e, ev, t.cs) == e && AnnotateAll(e) == out
    requires t' == System(t.c, Side(e.(wire := []), t.s.user), Remaining(ev, t.cs), t.sc + out)
    ensures Reaches(s, t')
  {
    hide Reaches, Perform, EventEnabled, Throws;
    Further(s, t, Does(false, ev), t');
  }

  /** The first segment that the client has under way is lost. */
  lemma ClientLoses(s: System, t: System, t': System)
    requires Reaches(s, t) && t.cs != [] && t' == t.(cs := t.cs[1..])
    ensures Reaches(s, t')
  {
    hide Reaches;
    assert t.cs[..0] + t.cs[1..] == t.cs[1..];
    Further(s, t, Loses(true, 0), t');
  }

  lemma ClientWrites(s: System, t: System, p: Payload, t': System)
    requires Reaches(s, t) && SideEnabled(t.c, Writes(true, p), t.sc) && t.c.e.wire == []
    requires t' == t.(c := Side(t.c.e.(inpQ := t.c.e.inpQ + [p]), t.c.user.(written := t.c.user.written + [p])))
    ensures Reaches(s, t')
  {
    hide Reaches;
    NothingSent(t.c.e.(inpQ := t.c.e.inpQ + [p]));
    Further(s, t, Writes(true, p), t');
  }

  lemma ServerWrites(s: System, t: System, p: Payload, t': System)
    requires Reaches(s, t) && SideEnabled(t.s, Writes(false, p), t.cs) && t.s.e.wire == []
    requires t' == t.(s := Side(t.s.e.(inpQ := t.s.e.inpQ + [p]), t.s.user.(written := t.s.user.written + [p])))
    ensures Reaches(s, t')
  {
    hide Reaches;
    NothingSent(t.s.e.(inpQ := t.s.e.inpQ + [p]));
    Further(s, t, Writes(false, p), t');
  }

  lemma ClientReads(s: System, t: System, t': System)
    requires Reaches(s, t) && SideEnabled(t.c, Reads(true), t.sc) && t.c.e.wire == []
    requires t' == t.(c := Side(t.c.e.(outQ := t.c.e.outQ[1..]), t.c.user.(read := t.c.user.read + [t.c.e.outQ[0]])))
    ensures Reaches(s, t')
  {
    hide Reaches;
    NothingSent(t.c.e.(outQ := t.c.e.outQ[1..]));
    Further(s, t, Reads(true), t');
  }

  lemma NothingSent(e: Endpoint)
    requires e.wire == []
    ensures AnnotateAll(e) == []
  {
  }

  lemma OneSent(e: Endpoint, f: Flight)
    requires e.wire == [f.seg] && f == Annotate(e, f.seg)
    ensures AnnotateAll(e) == [f]
  {
  }

  lemma TwoSent(e: Endpoint, f: Flight, g: Flight)
    requires e.wire == [f.seg, g.seg] && f == Annotate(e, f.seg) && g == Annotate(e, g.seg)
    ensures AnnotateAll(e) == [f, g]
  {
  }

  // ----- a client gives up without having heard anything

  const NOBODY := User([], [])

  const CLIENT := Config(false, 0, 1, 1, 1, 0)
  const SERVER := Config(true, 0, 1, 1, 1, 0)
  const OFFER := SynParams(1, 1, 0)
  const CALL := Segment(true, false, false, false, false, 1, 7, [], OFFER)
  const ANSWER := Segment(true, true, false, false, false, 7, 1, [], OFFER)
  const GOODBYE := Segment(false, true, true, false, false, 2, 7, [], NO_PARAMS)

  /** The number to acknowledge is whatever was in memory. */
  function Client0(): Endpoint {
    Endpoint(CLIENT, CLOSED, false, false, Params(0, 0, 0), Control(0, 0, false, false, false, false, false, false),
             Tx(Ring(0, [], 1), 0, 0, [], []), Rx(7, 0, [None], [], []), [], [], [])
  }

  /** Its SYN is out. */
  function Client1(): Endpoint {
    Client0().(st := CLNT_WAIT_SYN_ACK, started := true, par := Params(1, 0, 1),
               ctl := Control(0, 0, false, true, false, true, false, false),
               tx := Tx(Ring(1, [CALL], 1), 1, 1, [Syn(false, OFFER)], []))
  }

  /** It has repeated its SYN. */
  function Client2(): Endpoint {
    Client1().(ctl := Control(1, 0, false, true, false, true, false, false))
  }

  function Client3(): Endpoint {
    Client1().(st := CLOSED, rstSent := true, ctl := Control(2, 0, false, false, false, true, false, false),
               tx := Client1().tx.(lastSeqSent := 2))
  }

  function Server0(): Endpoint {
    Endpoint(SERVER, CLOSED, false, false, Params(0, 0, 0), Control(0, 0, false, false, false, false, false, false),
             Tx(Ring(0, [], 1), 0, 0, [], []), Rx(0, 0, [None], [], []), [], [], [])
  }

  function Server1(): Endpoint {
    Server0().(st := LISTEN, started := true, par := Params(1, 0, 1))
  }

  /** It has answered the SYN. */
  function Server2(): Endpoint {
    Server1().(st := SERV_WAIT_SYN_ACK, ctl := Control(0, 0, false, true, false, true, false, false),
               tx := Tx(Ring(7, [ANSWER], 1), 7, 7, [Syn(true, OFFER)], []),
               rx := Rx(1, 2, [None], [Syn(false, OFFER)], []))
  }

  /** The RST has acknowledged that answer, which its sender never saw. */
  function Server3(): Endpoint {
    Server2().(st := PREP_OPEN, ctl := Control(0, 0, false, false, false, true, false, false),
               tx := Server2().tx.(ring := Ring(8, [], 1)))
  }

  lemma ClientCalls()
    ensures Start(Client0(), 1) == Client1().(wire := [CALL])
  {
    assert seq(1, _ => Option<Segment>.None) == [None];
  }

  lemma ClientRepeats()
    ensures RexTimeout(Client1()) == Client2().(wire := [CALL])
  {
    var e := CountRex(Client1().(ctl := Client1().ctl.(rexT := false)));
    assert RetransmitFrom(e, 0) == RetransmitFrom(ResendAt(e, 0), 1) == ResendAt(e, 0);
    assert ResendAt(e, 0).tx.ring.segs == [CALL];
  }

  lemma ClientQuits()
    ensures RexTimeout(Client2()) == Client3().(wire := [GOODBYE])
  {
  }

  lemma ServerListens()
    ensures Start(Server0(), 0) == Server1()
  {
    assert seq(1, _ => Option<Segment>.None) == [None];
  }

  lemma ServerAnswers()
    ensures HandleRx(Server1(), CALL, 7) == Server2().(wire := [ANSWER])
  {
  }

  lemma ServerDiscards()
    ensures ProcessAckNumber(Server2().(st := CLOSED), GOODBYE)
            == Server3().(st := CLOSED)
  {
  }

  lemma ServerMisled()
    ensures HandleRx(Server2(), GOODBYE, 0) == Server3().(wire := [AckSegment(8).(ackNo := 1)])
  {
    hide ProcessAckNumber, Reply, Server3;
    ServerDiscards();
    ServerReplies();
  }

  lemma ServerReplies()
    ensures Reply(SERV_WAIT_SYN_ACK, Server3().(st := CLOSED), GOODBYE) == Server3().(st := CLOSED, wire := [AckSegment(8).(ackNo := 1)])
    ensures AfterRx(SERV_WAIT_SYN_ACK, Server3().(st := CLOSED, wire := [AckSegment(8).(ackNo := 1)]))
            == Server3().(wire := [AckSegment(8).(ackNo := 1)])
  {
  }

  function Stage(c: Endpoint, s: Endpoint, cs: seq<Flight>, sc: seq<Flight>): System {
    System(Side(c, NOBODY), Side(s, NOBODY), cs, sc)
  }

  const CALLING := Flight(CALL, 0, 1, 0)
  const ANSWERING := Flight(ANSWER, 0, 1, 1)
  const PARTING := Flight(GOODBYE, 1, 1, 0)

  /** Before the RST arrives. */
  function BeforeStray(): System {
    Stage(Client3(), Server2(), [PARTING], [ANSWERING])
  }

  /** The run, stage by stage. */
  function Quitting(k: nat): System
    requires k <= 6
  {
    match k
    case 0 => Stage(Client0(), Server0(), [], [])
    case 1 => Stage(Client1(), Server0(), [CALLING], [])
    case 2 => Stage(Client1(), Server1(), [CALLING], [])
    case 3 => Stage(Client1(), Server2(), [], [ANSWERING])
    case 4 => Stage(Client2(), Server2(), [CALLING], [ANSWERING])
    case 5 => Stage(Client3(), Server2(), [CALLING, PARTING], [ANSWERING])
    case _ => BeforeStray()
  }

  ghost predicate Quits(k: nat)
    requires k <= 6
  {
    Reaches(Quitting(0), Quitting(k))
  }

  lemma Quit1()
    ensures Quits(1)
  {
    hide Reaches, Start;
    Begin(Quitting(0));
    ClientCalls();
    OneSent(Client1().(wire := [CALL]), CALLING);
    ClientDoes(Quitting(0), Quitting(0), Starts(1), Client1().(wire := [CALL]), [CALLING], Quitting(1));
  }

  lemma Quit2()
    ensures Quits(2)
  {
    hide Reaches, Start;
    Quit1();
    ServerListens();
    NothingSent(Server1());
    ServerDoes(Quitting(0), Quitting(1), Starts(0), Server1(), [], Quitting(2));
  }

  lemma Quit3()
    ensures Quits(3)
  {
    hide Reaches, HandleRx;
    Quit2();
    ServerAnswers();
    OneSent(Server2().(wire := [ANSWER]), ANSWERING);
    ServerDoes(Quitting(0), Quitting(2), Arrives(7), Server2().(wire := [ANSWER]), [ANSWERING], Quitting(3));
  }

  lemma Quit4()
    ensures Quits(4)
  {
    hide Reaches, RexTimeout;
    Quit3();
    ClientRepeats();
    OneSent(Client2().(wire := [CALL]), CALLING);
    ClientDoes(Quitting(0), Quitting(3), RexExpires, Client2().(wire := [CALL]), [CALLING], Quitting(4));
  }

  lemma RexEnabled()
    ensures EventEnabled(Client2(), RexExpires, [ANSWERING]) && !Throws(Client2().st, RexExpires)
  {
    hide CALL, ANSWERING, ANSWER;
  }

  lemma NothingKept()
    ensures Client3().(wire := [GOODBYE]).(wire := []) == Client3()
  {
    hide CALL, GOODBYE;
  }

  lemma PartingSent()
    ensures AnnotateAll(Client3().(wire := [GOODBYE])) == [PARTING]
  {
    hide AnnotateAll, Annotate, CALL, PARTING, GOODBYE, Client3;
    PartingAnnotated();
    OneSent(Client3().(wire := [GOODBYE]), PARTING);
  }

  lemma PartingAnnotated()
    ensures PARTING == Annotate(Client3().(wire := [GOODBYE]), GOODBYE) && PARTING.seg == GOODBYE
  {
    hide CALL;
  }

  lemma Both(f: Flight, g: Flight)
    ensures [f] + [g] == [f, g]
  {
  }

  lemma Quit5()
    ensures Quits(5)
  {
    hide Reaches, RexTimeout, Client2, Client3, Server2, CALL, CALLING, GOODBYE, PARTING, ANSWERING, EventEnabled, Throws, AnnotateAll;
    Quit4();
    ClientQuits();
    RexEnabled();
    NothingKept();
    PartingSent();
    Both(CALLING, PARTING);
    ClientDoes(Quitting(0), Quitting(4), RexExpires, Client3().(wire := [GOODBYE]), [PARTING], Quitting(5));
  }

  lemma Quit6()
    ensures Quits(6)
  {
    hide Reaches;
    Quit5();
    ClientLoses(Quitting(0), Quitting(5), Quitting(6));
  }

  lemma QuitStart()
    ensures Init(Quitting(0))
  {
  }

  lemma Misleading()
    ensures StrayAck(Server2(), Client3(), Arrives(0), [PARTING])
    ensures EventEnabled(Server2(), Arrives(0), [PARTING]) && !Throws(Server2().st, Arrives(0))
  {
  }

  lemma LawfulBefore()
    ensures Lawful(Quitting(6))
  {
    var x, y := Client3(), Server2();
    assert Base(x.tx) == Base(y.tx) == 0 && x.tx.sent[..0] == y.tx.sent[..0] == [];
    assert Dats([]) == [];
  }

  lemma UnlawfulAfter()
    ensures !NoEarlyAck(Server3(), Client3()) && Server3().tx.ring.segs == [] && Client3().rx.got == []
  {
    assert Server3().tx.sent[..1] == [Syn(true, OFFER)];
  }

  /** The server discards its SYN although nobody has taken it in: a reachable state, one action,
      and the rule is broken. */
  lemma StrayHappens()
    ensures var t, act := Quitting(6), Does(false, Arrives(0));
            && Reachable(t) && Enabled(t, act) && Lawful(t) && Stray(t, act)
            && Next(t, act).s.e == Server3() && Next(t, act).c.e == Client3() && !NoEarlyAck(Server3(), Client3())
  {
    hide HandleRx, Reachable, Lawful, NoEarlyAck, StrayAck, EventEnabled, Client3, Server2, Server3;
    QuitReachable();
    LawfulBefore();
    Misleading();
    ServerMisled();
    UnlawfulAfter();
    assert Server3().(wire := [AckSegment(8).(ackNo := 1)]).(wire := []) == Server3() by { Quiet(); }
  }

  lemma Quiet()
    ensures Server3().wire == []
  {
  }

  lemma QuitReachable()
    ensures Reachable(Quitting(6))
  {
    hide Init, Quitting;
    QuitStart();
    Quit6();
    var acts :| Leads(Quitting(0), acts, Quitting(6));
  }

  /** The same RST does not close the server. */
  lemma ResetSurvived()
    ensures Reachable(Quitting(6)) && Incoming(Quitting(6), false)[0].seg == GOODBYE && IsRst(GOODBYE)
    ensures SurvivesReset(Quitting(6).s.e, GOODBYE) && HandleRx(Quitting(6).s.e, GOODBYE, 0).st.PREP_OPEN?
  {
    hide HandleRx, Reachable;
    QuitReachable();
    ServerMisled();
  }

  /** A client whose SYN is not answered before its NUL timer expires meets the handler that throws. */
  lemma TimerTooEarly()
    ensures Reachable(Quitting(1)) && Fails(Quitting(1).c.e, NulExpires, Quitting(1).sc)
  {
    hide Reachable, Fails;
    CallReachable();
    CallerFails();
  }

  lemma CallReachable()
    ensures Reachable(Quitting(1))
  {
    hide Init, Quitting;
    QuitStart();
    Quit1();
    var acts :| Leads(Quitting(0), acts, Quitting(1));
  }

  lemma CallerFails()
    ensures Fails(Client1(), NulExpires, [])
  {
  }
}
