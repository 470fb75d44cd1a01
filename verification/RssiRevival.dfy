/** A run in which a server with a retransmission limit of zero sends an RST and is open again. */
module RssiRevival {
  import opened Wrappers
  import opened CircularIndex
  import opened RssiSegments
  import opened RssiEndpoint
  import opened RssiInvariant
  import opened RssiLink
  import opened RssiSystem
  import opened RssiTheorems
  import opened RssiResets
  import W = RssiWitness

  const CLIENT := Config(false, 1, 1, 0, 1, 0)
  /** assertValid does not object to a limit of zero. */
  const SERVER := Config(true, 1, 1, 0, 0, 0)
  const P: Payload := [1]
  const Q: Payload := [2]
  const R: Payload := [3]
  const X: Payload := [4]

  const CALL := Segment(true, false, false, false, false, 1, 0, [], SynParams(2, 1, 0))
  const ANSWER := Segment(true, true, false, false, false, 7, 1, [], SynParams(2, 0, 0))

  function Ack(seqNo: Byte, ackNo: Byte, bsy: bool): Segment {
    AckSegment(seqNo).(ackNo := ackNo, bsy := bsy)
  }

  function Data(seqNo: Byte, ackNo: Byte, p: Payload): Segment {
    DatSegment(seqNo, p).(ackNo := ackNo)
  }

  function Quiet(rexT: bool, nulT: bool, usrI: bool): Control {
    Control(0, 0, false, rexT, false, nulT, usrI, false)
  }

  // ----- the client

  function Client0(): Endpoint {
    Endpoint(CLIENT, CLOSED, false, false, Params(0, 0, 0), Quiet(false, false, false),
             Tx(Ring(0, [], 2), 0, 0, [], []), Rx(0, 0, [None, None], [], []), [], [], [])
  }

  /** Its SYN is out. */
  function Client1(): Endpoint {
    Client0().(st := CLNT_WAIT_SYN_ACK, started := true, par := Params(1, 0, 2), ctl := Quiet(true, true, false),
               tx := Tx(Ring(1, [CALL], 2), 1, 1, [Syn(false, SynParams(2, 1, 0))], []))
  }

  /** The SYN has been answered. */
  function Client2(): Endpoint {
    Client1().(st := PREP_OPEN, par := Params(0, 0, 2), ctl := Quiet(false, true, false),
               tx := Client1().tx.(ring := Ring(2, [], 2)), rx := Rx(7, 8, [None, None], [Syn(true, SynParams(2, 0, 0))], []))
  }

  function Client3(): Endpoint {
    Client2().(st := OPEN, ctl := Quiet(false, true, true))
  }

  /** P has arrived. */
  function Client4(): Endpoint {
    Client3().(rx := Rx(8, 9, [None, None], [Syn(true, SynParams(2, 0, 0)), Dat(P)], [P]), outQ := [P])
  }

  function Client5(): Endpoint {
    Client4().(outQ := [])
  }

  /** Q has arrived. */
  function Client6(): Endpoint {
    Client5().(rx := Rx(9, 10, [None, None], [Syn(true, SynParams(2, 0, 0)), Dat(P), Dat(Q)], [P, Q]), outQ := [Q])
  }

  function Client7(): Endpoint {
    Client6().(outQ := [])
  }

  function Client8(): Endpoint {
    Client7().(inpQ := [X])
  }

  /** X has been sent. */
  function Client9(): Endpoint {
    Client7().(ctl := Quiet(true, true, true),
               tx := Tx(Ring(2, [Data(2, 9, X)], 2), 2, 1, [Syn(false, SynParams(2, 1, 0)), Dat(X)], [X]))
  }

  // ----- the server

  function Server0(): Endpoint {
    Endpoint(SERVER, CLOSED, false, false, Params(0, 0, 0), Quiet(false, false, false),
             Tx(Ring(0, [], 2), 0, 0, [], []), Rx(0, 0, [None, None], [], []), [], [], [])
  }

  function Server1(): Endpoint {
    Server0().(st := LISTEN, started := true, par := Params(0, 0, 2))
  }

  function Server2(): Endpoint {
    Server1().(st := SERV_WAIT_SYN_ACK, ctl := Quiet(true, true, false),
               tx := Tx(Ring(7, [ANSWER], 2), 7, 7, [Syn(true, SynParams(2, 0, 0))], []),
               rx := Rx(1, 2, [None, None], [Syn(false, SynParams(2, 1, 0))], []))
  }

  function Server3(): Endpoint {
    Server2().(st := PREP_OPEN, ctl := Quiet(false, true, false), tx := Server2().tx.(ring := Ring(8, [], 2)))
  }

  /** The user has written q. */
  function Server4(q: seq<Payload>): Endpoint {
    Server3().(st := OPEN, ctl := Quiet(false, true, true), inpQ := q)
  }

  /** P and Q fill the window. */
  function Server5(): Endpoint {
    Server4([R]).(st := OPEN_OUTWIN_FULL, ctl := Quiet(true, true, false),
                  tx := Tx(Ring(8, [Data(8, 1, P), Data(9, 1, Q)], 2), 9, 7, [Syn(true, SynParams(2, 0, 0)), Dat(P), Dat(Q)], [P, Q]))
  }

  /** P has been acknowledged by a client that is busy. */
  function Server6(): Endpoint {
    Server5().(st := OPEN, ctl := Quiet(false, true, true).(peerBSY := true),
               tx := Server5().tx.(ring := Ring(9, [Data(9, 1, Q)], 2)))
  }

  /** Q and R fill the window. */
  function Server7(): Endpoint {
    Server6().(st := OPEN_OUTWIN_FULL, ctl := Quiet(false, true, false).(peerBSY := true), inpQ := [],
               tx := Tx(Ring(9, [Data(9, 1, Q), Data(10, 1, R)], 2), 10, 7,
                        [Syn(true, SynParams(2, 0, 0)), Dat(P), Dat(Q), Dat(R)], [P, Q, R]))
  }

  // ----- what each event does

  lemma ClientCalls()
    ensures Start(Client0(), 1) == Client1().(wire := [CALL])
  {
    assert seq(2, _ => Option<Segment>.None) == [None, None];
  }

  lemma ServerListens()
    ensures Start(Server0(), 0) == Server1()
  {
    assert seq(2, _ => Option<Segment>.None) == [None, None];
  }

  lemma ServerAnswers()
    ensures HandleRx(Server1(), CALL, 7) == Server2().(wire := [ANSWER])
  {
  }

  /** A SYN for a client that waits for it. */
  lemma TakesSyn(e: Endpoint, seg: Segment, e1: Endpoint, e2: Endpoint)
    requires e.st.CLNT_WAIT_SYN_ACK? && seg.syn
    requires HandleSyn(e, seg, 0) == (e1, true) && RxAccepted(CLNT_WAIT_SYN_ACK, e1, seg) == e2
    ensures HandleRx(e, seg, 0) == e2
  {
    hide HandleSyn, RxAccepted;
  }

  /** The answer names the client's SYN. */
  function Greeted(): Endpoint {
    Client2().(ctl := Quiet(true, true, false), tx := Client1().tx)
  }

  lemma ClientGreeted()
    ensures HandleSyn(Client1(), ANSWER, 0) == (Greeted(), true)
  {
  }

  lemma ClientAnswers()
    ensures RxAccepted(CLNT_WAIT_SYN_ACK, Greeted(), ANSWER) == Client2().(wire := [Ack(2, 7, false)])
  {
  }

  lemma ClientConnects()
    ensures HandleRx(Client1(), ANSWER, 0) == Client2().(wire := [Ack(2, 7, false)])
  {
    hide HandleSyn, RxAccepted, HandleRx;
    ClientGreeted();
    ClientAnswers();
    TakesSyn(Client1(), ANSWER, Greeted(), Client2().(wire := [Ack(2, 7, false)]));
  }

  /** A bare acknowledgement: discard, reply, and what the state adds. */
  lemma TakesAck(e: Endpoint, seg: Segment, e1: Endpoint, e2: Endpoint)
    requires (e.st.SERV_WAIT_SYN_ACK? || e.st.OPEN_OUTWIN_FULL?) && IsAckOnly(seg)
    requires ProcessAckNumber(e.(ctl := e.ctl.(numCak := e.ctl.numCak - 1)), seg) == e1 && Reply(e.st, e1, seg) == e2
    ensures HandleRx(e, seg, 0) == AfterRx(e.st, e2)
  {
    hide ProcessAckNumber, Reply, AfterRx;
  }

  lemma ServerDiscardsSyn()
    ensures ProcessAckNumber(Server2().(ctl := Server2().ctl.(numCak := -1)), Ack(2, 7, false))
            == Server3().(st := SERV_WAIT_SYN_ACK, ctl := Quiet(false, true, false).(numCak := -1))
  {
  }

  lemma ServerConnects()
    ensures HandleRx(Server2(), Ack(2, 7, false), 0) == Server3()
  {
    hide HandleRx, ProcessAckNumber;
    ServerDiscardsSyn();
    var e1 := Server3().(st := SERV_WAIT_SYN_ACK, ctl := Quiet(false, true, false).(numCak := -1));
    TakesAck(Server2(), Ack(2, 7, false), e1, e1.(ctl := Quiet(false, true, false)));
  }

  /** P alone has been sent. */
  function Halfway(): Endpoint {
    Server4([Q, R]).(ctl := Quiet(true, true, true), wire := [Data(8, 1, P)],
                     tx := Tx(Ring(8, [Data(8, 1, P)], 2), 8, 7, [Syn(true, SynParams(2, 0, 0)), Dat(P)], [P]))
  }

  lemma ServerSendsP()
    ensures TakeInput(Server4([P, Q, R])) == Halfway()
  {
    assert [P, Q, R][1..] == [Q, R];
  }

  lemma ServerSendsQ()
    ensures TakeInput(Halfway()) == Server5().(st := OPEN, ctl := Quiet(true, true, true), wire := [Data(8, 1, P), Data(9, 1, Q)])
  {
    assert [Q, R][1..] == [R];
  }

  lemma ServerSendsTwo()
    ensures HandleUsrInput(Server4([P, Q, R])) == Server5().(wire := [Data(8, 1, P), Data(9, 1, Q)])
  {
    hide TakeInput;
    ServerSendsP();
    ServerSendsQ();
    var e2 := TakeInput(Halfway());
    assert InputLoop(Server4([P, Q, R])) == InputLoop(Halfway()) == InputLoop(e2) == e2;
  }

  /** Data for an open endpoint: acknowledge, store and hand on, reply. */
  lemma TakesData(e: Endpoint, seg: Segment, e1: Endpoint, e2: Endpoint, e3: Endpoint)
    requires e.st.OPEN? && IsPureAck(seg) && seg.payload != []
    requires ProcessAckNumber(e, seg) == e1 && RxData(OPEN, e1, seg) == e2 && Reply(OPEN, e2, seg) == e3
    ensures HandleRx(e, seg, 0) == e3
  {
    hide ProcessAckNumber, RxData, Reply;
  }

  lemma ClientHandsOnP()
    ensures RxData(OPEN, Client3(), Data(8, 1, P)) == Client4()
  {
    var r := Store(Client3().rx, Data(8, 1, P));
    var r1 := PopFront(r).(delivered := [P]);
    assert r1.window == [None, None];
    assert DrainLoop(r, [], 1) == DrainLoop(r1, [P], 1) == Drained(r1, [P], false);
  }

  lemma ClientTakesP()
    ensures HandleRx(Client3(), Data(8, 1, P), 0) == Client4().(wire := [Ack(2, 8, true)])
  {
    hide HandleRx, RxData;
    ClientHandsOnP();
    TakesData(Client3(), Data(8, 1, P), Client3(), Client4(), Client4().(wire := [Ack(2, 8, true)]));
  }

  lemma ServerDiscardsP()
    ensures ProcessAckNumber(Server5().(ctl := Server5().ctl.(numCak := -1)), Ack(2, 8, true))
            == Server6().(st := OPEN_OUTWIN_FULL, ctl := Quiet(true, true, false).(numCak := -1))
  {
  }

  lemma ServerNotesBusy()
    ensures HandleRx(Server5(), Ack(2, 8, true), 0) == Server6()
  {
    hide HandleRx, ProcessAckNumber;
    ServerDiscardsP();
    var e1 := Server6().(st := OPEN_OUTWIN_FULL, ctl := Quiet(true, true, false).(numCak := -1));
    TakesAck(Server5(), Ack(2, 8, true), e1, e1.(ctl := Quiet(false, true, false).(peerBSY := true)));
  }

  lemma ServerSendsOne()
    ensures HandleUsrInput(Server6()) == Server7().(wire := [Data(10, 1, R)])
  {
    var e1 := TakeInput(Server6());
    assert InputLoop(Server6()) == InputLoop(e1) == e1;
  }

  lemma ClientHandsOnQ()
    ensures RxData(OPEN, Client5(), Data(9, 1, Q)) == Client6()
  {
    var r := Store(Client5().rx, Data(9, 1, Q));
    var r1 := PopFront(r).(delivered := [P, Q]);
    assert r1.window == [None, None];
    assert DrainLoop(r, [], 1) == DrainLoop(r1, [Q], 1) == Drained(r1, [Q], false);
  }

  lemma ClientTakesQ()
    ensures HandleRx(Client5(), Data(9, 1, Q), 0) == Client6().(wire := [Ack(2, 9, true)])
  {
    hide HandleRx, RxData;
    ClientHandsOnQ();
    TakesData(Client5(), Data(9, 1, Q), Client5(), Client6(), Client6().(wire := [Ack(2, 9, true)]));
  }

  lemma ClientSendsX()
    ensures HandleUsrInput(Client8()) == Client9().(wire := [Data(2, 9, X)])
  {
    var e1 := TakeInput(Client8());
    assert InputLoop(Client8()) == InputLoop(e1) == e1;
  }

  // ----- the run, stage by stage

  const CALLING := Flight(CALL, 0, 1, 0)
  const ANSWERING := Flight(ANSWER, 0, 1, 1)
  const ACK7 := Flight(Ack(2, 7, false), 1, 1, 1)
  const FLYING_P := Flight(Data(8, 1, P), 1, 3, 1)
  const FLYING_Q := Flight(Data(9, 1, Q), 2, 3, 1)
  const ACK8 := Flight(Ack(2, 8, true), 1, 1, 2)
  const FLYING_R := Flight(Data(10, 1, R), 3, 4, 1)
  const ACK9 := Flight(Ack(2, 9, true), 1, 1, 3)
  const FLYING_X := Flight(Data(2, 9, X), 1, 2, 3)

  function Stage(c: Endpoint, cWritten: seq<Payload>, cRead: seq<Payload>, s: Endpoint, sWritten: seq<Payload>,
                 cs: seq<Flight>, sc: seq<Flight>): System
  {
    System(Side(c, User(cWritten, cRead)), Side(s, User(sWritten, [])), cs, sc)
  }

  function At0(): System {
    Stage(Client0(), [], [], Server0(), [], [], [])
  }

  function At1(): System {
    Stage(Client1(), [], [], Server0(), [], [CALLING], [])
  }

  function At2(): System {
    Stage(Client1(), [], [], Server1(), [], [CALLING], [])
  }

  function At3(): System {
    Stage(Client1(), [], [], Server2(), [], [], [ANSWERING])
  }

  function At4(): System {
    Stage(Client2(), [], [], Server2(), [], [ACK7], [])
  }

  function At5(): System {
    Stage(Client3(), [], [], Server2(), [], [ACK7], [])
  }

  function At6(): System {
    Stage(Client3(), [], [], Server3(), [], [], [])
  }

  function At7(): System {
    Stage(Client3(), [], [], Server4([]), [], [], [])
  }

  function At8(): System {
    Stage(Client3(), [], [], Server4([P]), [P], [], [])
  }

  function At9(): System {
    Stage(Client3(), [], [], Server4([P, Q]), [P, Q], [], [])
  }

  function At10(): System {
    Stage(Client3(), [], [], Server4([P, Q, R]), [P, Q, R], [], [])
  }

  function At11(): System {
    Stage(Client3(), [], [], Server5(), [P, Q, R], [], [FLYING_P, FLYING_Q])
  }

  function At12(): System {
    Stage(Client4(), [], [], Server5(), [P, Q, R], [ACK8], [FLYING_Q])
  }

  function At13(): System {
    Stage(Client4(), [], [], Server6(), [P, Q, R], [], [FLYING_Q])
  }

  function At14(): System {
    Stage(Client4(), [], [], Server7(), [P, Q, R], [], [FLYING_Q, FLYING_R])
  }

  function At15(): System {
    Stage(Client5(), [], [P], Server7(), [P, Q, R], [], [FLYING_Q, FLYING_R])
  }

  function At16(): System {
    Stage(Client6(), [], [P], Server7(), [P, Q, R], [ACK9], [FLYING_R])
  }

  function At17(): System {
    Stage(Client6(), [], [P], Server7(), [P, Q, R], [], [FLYING_R])
  }

  function At18(): System {
    Stage(Client7(), [], [P, Q], Server7(), [P, Q, R], [], [FLYING_R])
  }

  function At19(): System {
    Stage(Client8(), [X], [P, Q], Server7(), [P, Q, R], [], [FLYING_R])
  }

  function At20(): System {
    Stage(Client9(), [X], [P, Q], Server7(), [P, Q, R], [FLYING_X], [FLYING_R])
  }

  lemma Sends1()
    ensures AnnotateAll(Client1().(wire := [CALL])) == [CALLING]
  {
    W.OneSent(Client1().(wire := [CALL]), CALLING);
  }

  lemma Go1()
    ensures W.Reaches(At0(), At1())
  {
    hide W.Reaches, Start, AnnotateAll, Server0;
    W.Begin(At0());
    ClientCalls();
    Sends1();
    W.ClientDoes(At0(), At0(), Starts(1), Client1().(wire := [CALL]), [CALLING], At1());
  }

  lemma Go2()
    ensures W.Reaches(At0(), At2())
  {
    hide W.Reaches, Start, AnnotateAll, At0, Client1;
    Go1();
    ServerListens();
    W.NothingSent(Server1());
    W.ServerDoes(At0(), At1(), Starts(0), Server1(), [], At2());
  }

  lemma Sends3()
    ensures AnnotateAll(Server2().(wire := [ANSWER])) == [ANSWERING]
  {
    W.OneSent(Server2().(wire := [ANSWER]), ANSWERING);
  }

  lemma Go3()
    ensures W.Reaches(At0(), At3())
  {
    hide W.Reaches, HandleRx, AnnotateAll, At0, Client1;
    Go2();
    ServerAnswers();
    Sends3();
    W.ServerDoes(At0(), At2(), Arrives(7), Server2().(wire := [ANSWER]), [ANSWERING], At3());
  }

  lemma Sends4()
    ensures AnnotateAll(Client2().(wire := [Ack(2, 7, false)])) == [ACK7]
  {
    W.OneSent(Client2().(wire := [Ack(2, 7, false)]), ACK7);
  }

  lemma Go4()
    ensures W.Reaches(At0(), At4())
  {
    hide W.Reaches, HandleRx, AnnotateAll, At0, Server2;
    Go3();
    ClientConnects();
    Sends4();
    W.ClientDoes(At0(), At3(), Arrives(0), Client2().(wire := [Ack(2, 7, false)]), [ACK7], At4());
  }

  lemma Go5()
    ensures W.Reaches(At0(), At5())
  {
    hide W.Reaches, AnnotateAll, At0, Server2;
    Go4();
    W.NothingSent(Client3());
    W.ClientDoes(At0(), At4(), Opens, Client3(), [], At5());
  }

  lemma Go6()
    ensures W.Reaches(At0(), At6())
  {
    hide W.Reaches, HandleRx, AnnotateAll, At0, Client3;
    Go5();
    ServerConnects();
    W.NothingSent(Server3());
    W.ServerDoes(At0(), At5(), Arrives(0), Server3(), [], At6());
  }

  lemma Go7()
    ensures W.Reaches(At0(), At7())
  {
    hide W.Reaches, AnnotateAll, At0, Client3;
    Go6();
    W.NothingSent(Server4([]));
    W.ServerDoes(At0(), At6(), Opens, Server4([]), [], At7());
  }

  lemma Go8()
    ensures W.Reaches(At0(), At8())
  {
    hide W.Reaches, At0, Client3;
    Go7();
    W.ServerWrites(At0(), At7(), P, At8());
  }

  lemma Go9()
    ensures W.Reaches(At0(), At9())
  {
    hide W.Reaches, At0, Client3;
    Go8();
    W.ServerWrites(At0(), At8(), Q, At9());
  }

  lemma Go10()
    ensures W.Reaches(At0(), At10())
  {
    hide W.Reaches, At0, Client3;
    Go9();
    W.ServerWrites(At0(), At9(), R, At10());
  }

  lemma Sends11()
    ensures AnnotateAll(Server5().(wire := [Data(8, 1, P), Data(9, 1, Q)])) == [FLYING_P, FLYING_Q]
  {
    W.TwoSent(Server5().(wire := [Data(8, 1, P), Data(9, 1, Q)]), FLYING_P, FLYING_Q);
  }

  lemma Go11()
    ensures W.Reaches(At0(), At11())
  {
    hide W.Reaches, HandleUsrInput, AnnotateAll, At0, Client3;
    Go10();
    ServerSendsTwo();
    Sends11();
    W.ServerDoes(At0(), At10(), Input, Server5().(wire := [Data(8, 1, P), Data(9, 1, Q)]), [FLYING_P, FLYING_Q], At11());
  }

  lemma Sends12()
    ensures AnnotateAll(Client4().(wire := [Ack(2, 8, true)])) == [ACK8]
  {
    W.OneSent(Client4().(wire := [Ack(2, 8, true)]), ACK8);
  }

  lemma Go12()
    ensures W.Reaches(At0(), At12())
  {
    hide W.Reaches, HandleRx, AnnotateAll, At0, Server5;
    Go11();
    ClientTakesP();
    Sends12();
    W.ClientDoes(At0(), At11(), Arrives(0), Client4().(wire := [Ack(2, 8, true)]), [ACK8], At12());
  }

  lemma Go13()
    ensures W.Reaches(At0(), At13())
  {
    hide W.Reaches, HandleRx, AnnotateAll, At0, Client4;
    Go12();
    ServerNotesBusy();
    W.NothingSent(Server6());
    W.ServerDoes(At0(), At12(), Arrives(0), Server6(), [], At13());
  }

  lemma Sends14()
    ensures AnnotateAll(Server7().(wire := [Data(10, 1, R)])) == [FLYING_R]
  {
    W.OneSent(Server7().(wire := [Data(10, 1, R)]), FLYING_R);
  }

  lemma Go14()
    ensures W.Reaches(At0(), At14())
  {
    hide W.Reaches, HandleUsrInput, AnnotateAll, At0, Client4;
    Go13();
    ServerSendsOne();
    Sends14();
    W.ServerDoes(At0(), At13(), Input, Server7().(wire := [Data(10, 1, R)]), [FLYING_R], At14());
  }

  lemma Go15()
    ensures W.Reaches(At0(), At15())
  {
    hide W.Reaches, At0, Server7;
    Go14();
    W.ClientReads(At0(), At14(), At15());
  }

  lemma Sends16()
    ensures AnnotateAll(Client6().(wire := [Ack(2, 9, true)])) == [ACK9]
  {
    W.OneSent(Client6().(wire := [Ack(2, 9, true)]), ACK9);
  }

  lemma Go16()
    ensures W.Reaches(At0(), At16())
  {
    hide W.Reaches, HandleRx, AnnotateAll, At0, Server7;
    Go15();
    ClientTakesQ();
    Sends16();
    W.ClientDoes(At0(), At15(), Arrives(0), Client6().(wire := [Ack(2, 9, true)]), [ACK9], At16());
  }

  lemma Go17()
    ensures W.Reaches(At0(), At17())
  {
    hide W.Reaches, At0, Server7;
    Go16();
    W.ClientLoses(At0(), At16(), At17());
  }

  lemma Go18()
    ensures W.Reaches(At0(), At18())
  {
    hide W.Reaches, At0, Server7;
    Go17();
    W.ClientReads(At0(), At17(), At18());
  }

  lemma Go19()
    ensures W.Reaches(At0(), At19())
  {
    hide W.Reaches, At0, Server7;
    Go18();
    W.ClientWrites(At0(), At18(), X, At19());
  }

  lemma Sends20()
    ensures AnnotateAll(Client9().(wire := [Data(2, 9, X)])) == [FLYING_X]
  {
    W.OneSent(Client9().(wire := [Data(2, 9, X)]), FLYING_X);
  }

  lemma Go20()
    ensures W.Reaches(At0(), At20())
  {
    hide W.Reaches, HandleUsrInput, AnnotateAll, At0, Server7;
    Go19();
    ClientSendsX();
    Sends20();
    W.ClientDoes(At0(), At19(), Input, Client9().(wire := [Data(2, 9, X)]), [FLYING_X], At20());
  }

  /** Apart from the limit this is a proper start. */
  lemma ProperStart()
    ensures Init(At0().(s := Side(Server0().(cfg := SERVER.(rexMax := 1)), User([], []))))
  {
  }

  lemma AboutToRevive()
    ensures EventEnabled(Server7(), Arrives(0), [FLYING_X]) && Revives(Server7(), Arrives(0), [FLYING_X])
    ensures !Server7().rstSent && RingSize(Server7()) == Server7().par.peerOssMX
  {
  }

  /** A run leads to a state in which the server, on the next arrival, sends an RST and is OPEN. */
  lemma RevivalHappens()
    ensures W.Reaches(At0(), Stage(Client9(), [X], [P, Q], Server7(), [P, Q, R], [FLYING_X], [FLYING_R]))
    ensures var e := HandleRx(Server7(), Data(2, 9, X), 0); e.rstSent && !e.st.CLOSED?
  {
    hide W.Reaches, Revives, HandleRx, EventEnabled, Server7, Client9;
    Go20();
    AboutToRevive();
    RevivesExactly(Server7(), Arrives(0), [FLYING_X]);
  }
}
