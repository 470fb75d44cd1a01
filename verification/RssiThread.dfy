/** CRssi's event loop: what the object does with each event is a step of the runs that the
    theorems are about. */
module RssiThread {
  import opened Wrappers
  import opened CircularIndex
  import opened RssiSegments
  import opened RssiEndpoint
  import opened RssiBuffers
  import opened RssiContext
  import opened RssiInvariant
  import opened RssiLink
  import opened RssiSystem
  import opened RssiTheorems

  /** The head of the incoming channel. */
  function Head(inc: seq<Flight>): Option<Segment> {
    if inc == [] then None else Some(inc[0].seg)
  }

  /** Whatever arrives announces a window of 8 bits, and a listener keeps nothing. */
  lemma Deliverable(me: Endpoint, peer: Endpoint, out: seq<Flight>, inc: seq<Flight>)
    requires Pair(me, peer, out, inc) && ControlOk(me) && Waiting(me.st) && inc != []
    ensures (inc[0].seg.syn ==> inc[0].seg.params.ossMX < 256) && (me.st.LISTEN? ==> RingSize(me) == 0)
  {
    ArrivedSegOk(me, peer, out, inc);
    if me.st.LISTEN? {
      RingWithinSent(me);
    }
  }

  /** The footprint changes only in buffers that the object allocates. */
  twostate predicate SameFootprint(c: CRssi)
    reads c, c.unAckedSegs
  {
    c.unAckedSegs.buf == old(c.unAckedSegs.buf) || fresh(c.unAckedSegs.buf)
  }

  /** STATE::advance and the handlers and timers it calls. */
  method Dispatch(c: CRssi, ev: Event, arrived: Option<Segment>, ghost peer: Endpoint, ghost out: seq<Flight>, ghost inc: seq<Flight>)
    requires c.Valid() && Pair(c.View(), peer, out, inc) && ControlOk(c.View()) && arrived == Head(inc)
    requires EventEnabled(c.View(), ev, inc) && !Throws(c.View().st, ev)
    modifies c.Repr()
    ensures c.Valid() && c.View() == Perform(old(c.View()), ev, inc) && SameFootprint(c)
  {
    hide RingBuf.Valid, RingBuf.View, ReassembleBuf.Valid, ReassembleBuf.Window, ControlOk;
    hide HandleRx, HandleUsrInput, HandleUsrOutput, RexTimeout, AckTimeout, NulTimeout, Start, EnterOpen, Pair;
    match ev {
      case Starts(isn) => c.AdvanceClosed(isn);
      case Opens => c.AdvancePrepOpen();
      case Arrives(isn) =>
        Deliverable(c.View(), peer, out, inc);
        c.HandleRxEvent(arrived.value, isn);
      case Input => c.HandleUsrInputEvent();
      case Output => c.HandleUsrOutputEvent();
      case RexExpires => c.ProcessRexTimeout();
      case AckExpires => c.ProcessAckTimeout();
      case NulExpires => c.ProcessNulTimeout();
    }
  }

  // ----- two objects, their users and the network between them

  /** What the network carries of the annotated segments. */
  function Segs(ch: seq<Flight>): (r: seq<Segment>)
    ensures |r| == |ch|
  {
    seq(|ch|, k requires 0 <= k < |ch| => ch[k].seg)
  }

  lemma SegsSent(e: Endpoint)
    ensures Segs(AnnotateAll(e)) == e.wire
  {
  }

  lemma SegsJoin(a: seq<Flight>, b: seq<Flight>)
    ensures Segs(a + b) == Segs(a) + Segs(b)
  {
  }

  lemma SegsRest(act: Action, inc: seq<Flight>)
    ensures Segs(Rest(act, inc)) == if act.Does? && act.ev.Arrives? && inc != [] then Segs(inc)[1..] else Segs(inc)
  {
  }

  lemma SegsHead(inc: seq<Flight>)
    ensures Head(inc) == if Segs(inc) == [] then None else Some(Segs(inc)[0])
  {
  }

  /** One action of one side; returns what its user has done so far and what it sent. */
  method Act(me: CRssi, user: User, act: Action, arrived: Option<Segment>, ghost peer: Endpoint, ghost out: seq<Flight>, ghost inc: seq<Flight>)
    returns (user': User, sent: seq<Segment>)
    requires me.Valid() && Pair(me.View(), peer, out, inc) && ControlOk(me.View()) && arrived == Head(inc)
    requires !act.Loses? && SideEnabled(Side(me.View(), user), act, inc)
    modifies me.Repr()
    ensures me.Valid() && SameFootprint(me)
    ensures var n := SideNext(Side(old(me.View()), user), act, inc);
            Side(me.View(), user') == Flush(n) && sent == n.e.wire
  {
    hide RingBuf.Valid, RingBuf.View, ReassembleBuf.Valid, ReassembleBuf.Window, Pair, ControlOk, Perform, EventEnabled;
    user' := user;
    match act {
      case Does(_, ev) => Dispatch(me, ev, arrived, peer, out, inc);
      case Writes(_, p) =>
        me.inpQ := me.inpQ + [p];
        user' := User(user.written + [p], user.read);
      case Reads(_) =>
        user' := User(user.written, user.read + [me.outQ[0]]);
        me.outQ := me.outQ[1..];
    }
    sent := me.wire;
    me.wire := [];
  }

  ghost function Seen(c: CRssi, s: CRssi, cUser: User, sUser: User, cs: seq<Flight>, sc: seq<Flight>): System
    requires c.Valid() && s.Valid()
    reads c, c.unAckedSegs, c.unAckedSegs.buf, c.unOrderedSegs, c.unOrderedSegs.buf
    reads s, s.unAckedSegs, s.unAckedSegs.buf, s.unOrderedSegs, s.unOrderedSegs.buf
  {
    System(Side(c.View(), cUser), Side(s.View(), sUser), cs, sc)
  }

  /** One action of the client object. */
  method ClientActs(c: CRssi, cUser: User, act: Action, cs: seq<Segment>, sc: seq<Segment>, ghost t: System)
    returns (cUser': User, cs': seq<Segment>, sc': seq<Segment>)
    requires c.Valid() && Inv(t) && Enabled(t, act) && !act.Loses? && ByClient(act)
    requires t.c == Side(c.View(), cUser) && Segs(t.cs) == cs && Segs(t.sc) == sc
    modifies c.Repr()
    ensures c.Valid() && SameFootprint(c)
    ensures var t' := Next(t, act); t'.c == Side(c.View(), cUser') && t'.s == t.s && Segs(t'.cs) == cs' && Segs(t'.sc) == sc'
  {
    hide RingBuf.Valid, RingBuf.View, ReassembleBuf.Valid, ReassembleBuf.Window, SideNext, SideEnabled, Local, Link, ControlOk;
    SegsHead(t.sc);
    var sent;
    cUser', sent := Act(c, cUser, act, if sc == [] then None else Some(sc[0]), t.s.e, t.cs, t.sc);
    ghost var n := SideNext(t.c, act, t.sc);
    SegsSent(n.e);
    SegsJoin(t.cs, AnnotateAll(n.e));
    SegsRest(act, t.sc);
    cs' := cs + sent;
    sc' := if act.Does? && act.ev.Arrives? && sc != [] then sc[1..] else sc;
  }

  /** One action of the server object. */
  method ServerActs(s: CRssi, sUser: User, act: Action, cs: seq<Segment>, sc: seq<Segment>, ghost t: System)
    returns (sUser': User, cs': seq<Segment>, sc': seq<Segment>)
    requires s.Valid() && Inv(t) && Enabled(t, act) && !act.Loses? && !ByClient(act)
    requires t.s == Side(s.View(), sUser) && Segs(t.cs) == cs && Segs(t.sc) == sc
    modifies s.Repr()
    ensures s.Valid() && SameFootprint(s)
    ensures var t' := Next(t, act); t'.s == Side(s.View(), sUser') && t'.c == t.c && Segs(t'.cs) == cs' && Segs(t'.sc) == sc'
  {
    hide RingBuf.Valid, RingBuf.View, ReassembleBuf.Valid, ReassembleBuf.Window, SideNext, SideEnabled, Local, Link, ControlOk;
    SegsHead(t.cs);
    var sent;
    sUser', sent := Act(s, sUser, act, if cs == [] then None else Some(cs[0]), t.c.e, t.sc, t.cs);
    ghost var n := SideNext(t.s, act, t.cs);
    SegsSent(n.e);
    SegsJoin(t.sc, AnnotateAll(n.e));
    SegsRest(act, t.cs);
    sc' := sc + sent;
    cs' := if act.Does? && act.ev.Arrives? && cs != [] then cs[1..] else cs;
  }

  lemma SegsLose(ch: seq<Flight>, i: nat)
    requires i < |ch|
    ensures Segs(ch[..i] + ch[i + 1..]) == Segs(ch)[..i] + Segs(ch)[i + 1..]
  {
  }

  /** Any run, on the objects themselves: they stay in step with the system of the theorems, so
      what a user has read is a prefix of what the other has written. */
  method Play(c: CRssi, s: CRssi, acts: seq<Action>) returns (cUser: User, sUser: User)
    requires c.Valid() && s.Valid() && c.Repr() !! s.Repr()
    requires Init(Seen(c, s, User([], []), User([], []), [], []))
    requires CanRun(Seen(c, s, User([], []), User([], []), [], []), acts)
    modifies c.Repr(), s.Repr()
    ensures c.Valid() && s.Valid()
    ensures var t := Run(old(Seen(c, s, User([], []), User([], []), [], [])), acts);
            t.c == Side(c.View(), cUser) && t.s == Side(s.View(), sUser)
    ensures sUser.read <= cUser.written && cUser.read <= sUser.written
  {
    hide RingBuf.Valid, RingBuf.View, ReassembleBuf.Valid, ReassembleBuf.Window, CRssi.Valid, CRssi.View;
    hide Inv, Init, Enabled, Next;
    cUser, sUser := User([], []), User([], []);
    var cs: seq<Segment>, sc: seq<Segment> := [], [];
    ghost var t0 := Seen(c, s, cUser, sUser, [], []);
    ghost var t := t0;
    var todo := acts;
    InitInv(t0);
    while todo != []
      invariant c.Valid() && s.Valid() && c.Repr() !! s.Repr()
      invariant forall o <- c.Repr() :: o in old(c.Repr()) || fresh(o)
      invariant forall o <- s.Repr() :: o in old(s.Repr()) || fresh(o)
      invariant Inv(t) && CanRun(t, todo) && Run(t, todo) == Run(t0, acts)
      invariant t.c == Side(c.View(), cUser) && t.s == Side(s.View(), sUser) && Segs(t.cs) == cs && Segs(t.sc) == sc
      decreases |todo|
    {
      var act := todo[0];
      NextInv(t, act);
      if act.Loses? {
        Lossy(t, act);
        if act.fromClient {
          cs := cs[..act.i] + cs[act.i + 1..];
        } else {
          sc := sc[..act.i] + sc[act.i + 1..];
        }
      } else if ByClient(act) {
        cUser, cs, sc := ClientActs(c, cUser, act, cs, sc, t);
      } else {
        sUser, cs, sc := ServerActs(s, sUser, act, cs, sc, t);
      }
      t := Next(t, act);
      todo := todo[1..];
    }
    EndToEnd(t0, acts);
  }

  lemma Lossy(t: System, act: Action)
    requires Enabled(t, act) && act.Loses?
    ensures act.i < if act.fromClient then |t.cs| else |t.sc|
    ensures var t' := Next(t, act);
            && t'.c == t.c && t'.s == t.s
            && Segs(t'.cs) == (if act.fromClient then Segs(t.cs)[..act.i] + Segs(t.cs)[act.i + 1..] else Segs(t.cs))
            && Segs(t'.sc) == (if act.fromClient then Segs(t.sc) else Segs(t.sc)[..act.i] + Segs(t.sc)[act.i + 1..])
  {
    if act.fromClient {
      SegsLose(t.cs, act.i);
    } else {
      SegsLose(t.sc, act.i);
    }
  }
}
