/** The sending side of a connection: partial kernel writes, write interest, coalescing and closing. */
module TcpOutput {
  import opened Bytes
  import opened NetBuffer

  const HIGH_WATER: nat := 8 * 1024 * 1024

  datatype Phase = Connected | Disconnecting | Disconnected

  /** What a write call of the kernel comes back with. */
  datatype Written = Took(n: nat) | TryAgain | OtherError | BrokenPipe

  /** Any outcome the kernel may choose for a write of len bytes; after a shutdown there is only one. */
  method KernelWrite(len: nat, shut: bool) returns (w: Written)
    ensures w.Took? ==> w.n <= len
    ensures shut ==> w.BrokenPipe?
  {
    if shut { return BrokenPipe; }
    var n: nat :| n <= len;
    var again: bool, other: bool, broken: bool := *, *, *;
    w := if again then TryAgain else if other then OtherError else if broken then BrokenPipe else Took(n);
  }

  /** The part of the offered bytes that a write has taken, if there was a write. */
  function TakenOf(asked: Option<Written>, offered: Str): Str {
    if asked.Some? && asked.value.Took? && asked.value.n <= |offered| then offered[..asked.value.n] else []
  }

  predicate Broken(asked: Option<Written>) { asked == Some(BrokenPipe) }

  class Connection {
    const output: Buffer
    var phase: Phase
    /** Whether the loop watches for writability. */
    var writing: bool
    var coalescing: bool
    /** Whether the write side of the socket was shut down. */
    var shut: bool
    /** All bytes the kernel has taken. */
    ghost var sent: Str
    /** All messages taken on, in order. */
    ghost var accepted: Str

    constructor ()
      ensures Valid() && fresh(output) && fresh(output.data)
      ensures phase == Connected && accepted == [] && !shut && !coalescing
    {
      output := new Buffer(1024);
      phase, writing, coalescing, shut := Connected, false, false, false;
      sent, accepted := [], [];
    }

    /** Nothing lost, repeated or out of order: taken by the kernel, then buffered, is all that was accepted. */
    ghost predicate Conserved()
      requires output.Valid()
      reads this, output, output.data
    {
      sent + output.Contents() == accepted
    }

    ghost predicate Valid()
      reads this, output, output.data
    {
      && output.Valid() && Conserved()
      && (phase != Disconnected ==> (writing <==> output.Contents() != []) && |output.Contents()| <= HIGH_WATER)
      && (phase == Disconnected ==> !writing)
      && (shut ==> phase != Connected)
    }

    /** A connection that is not closed stays as it is unless more is buffered than 8 MiB. */
    ghost function PhaseUnder(before: Phase): Phase
      requires output.Valid()
      reads this, output, output.data
    {
      if |output.Contents()| <= 8_388_608 then before else Disconnected
    }

    method HandleClose()
      requires output.Valid() && Conserved()
      modifies this
      ensures Valid() && phase == Disconnected && accepted == old(accepted) && sent == old(sent) && shut == old(shut)
    {
      phase, writing := Disconnected, false;
    }

    /** Asks for the connection to be closed; the loop does so later. */
    method ForceClose()
      requires Valid()
      modifies this`phase
      ensures Valid() && phase == if old(phase) == Disconnected then Disconnected else Disconnecting
    {
      if phase == Connected || phase == Disconnecting { phase := Disconnecting; }
    }

    method ForceCloseInLoop()
      requires output.Valid() && Conserved() && (phase == Disconnected ==> !writing)
      modifies this
      ensures Valid() && phase == Disconnected && accepted == old(accepted) && sent == old(sent) && shut == old(shut)
    {
      if phase == Connected || phase == Disconnecting { HandleClose(); }
    }

    /** Closes a connection whose reader does not keep up. */
    method EnforceBackpressure()
      requires output.Valid() && Conserved() && phase != Disconnected && (writing <==> output.Contents() != [])
      requires shut ==> phase != Connected
      modifies this
      ensures Valid() && accepted == old(accepted) && sent == old(sent) && shut == old(shut)
      ensures phase == PhaseUnder(old(phase))
    {
      var pending := output.ReadableBytes();
      if pending <= HIGH_WATER { return; }
      ForceCloseInLoop();
    }

    method ShutdownInLoop()
      requires Valid() && phase == Disconnecting
      modifies this
      ensures Valid() && accepted == old(accepted) && sent == old(sent) && phase == old(phase)
      ensures shut == (old(shut) || output.Contents() == []) && (shut && !old(shut) ==> sent == accepted)
    {
      if !writing {
        Unit(sent);
        shut := true;
      }
    }

    /** The rest of message goes to the buffer behind what is there already. */
    method Enqueue(rest: Str)
      requires output.Valid() && phase != Disconnected && (shut ==> phase != Connected) && rest != []
      requires writing ==> output.Contents() != []
      requires sent + (output.Contents() + rest) == accepted
      modifies this, output, output.data
      ensures Valid() && accepted == old(accepted) && sent == old(sent) && shut == old(shut)
      ensures output.data == old(output.data) || fresh(output.data)
      ensures output.Contents() == old(output.Contents()) + rest && phase == PhaseUnder(old(phase))
    {
      output.Append(rest);
      if !writing { writing := true; }
      EnforceBackpressure();
    }

    /** The kernel took the first n bytes of the buffered bytes followed by message: the rest stays. */
    method KeepRest(message: Str, n: nat)
      requires output.Valid() && output.Contents() != [] && message != [] && n <= |output.Contents()| + |message|
      modifies output, output.data
      ensures output.Valid() && output.Contents() == (old(output.Contents()) + message)[n..]
      ensures output.data == old(output.data) || fresh(output.data)
    {
      var buffered := output.ReadableBytes();
      RestOf(output.Contents(), message, n);
      if n <= buffered {
        output.Retrieve(n);
        output.Append(message);
      } else {
        output.Retrieve(buffered);
        Unit(message[n - buffered..]);
        if n - buffered < |message| { output.Append(message[n - buffered..]); }
      }
    }

    /** Write interest, a pending shutdown and the high-water mark after a joint write. */
    method Settle()
      requires output.Valid() && Conserved() && phase != Disconnected && !shut
      modifies this
      ensures Valid() && accepted == old(accepted) && sent == old(sent) && (shut ==> sent == accepted)
      ensures phase == PhaseUnder(old(phase))
    {
      var pending := output.ReadableBytes();
      if pending == 0 {
        writing := false;
        if phase == Disconnecting { ShutdownInLoop(); }
      } else if !writing {
        writing := true;
      }
      EnforceBackpressure();
    }

    /**
      One message, from the loop itself or handed over by another thread. Its bytes join the stream
      behind all earlier ones, whatever part of them the kernel takes at once. The kernel is asked unless
      replies are being coalesced; only a closed connection or a broken pipe drops the message, and then
      the whole of it. Once the write side is shut nothing more goes out.
    */
    method SendInLoop(message: Str) returns (dropped: bool, ghost asked: Option<Written>)
      requires Valid()
      modifies this, output, output.data
      ensures Valid()
      ensures output.data == old(output.data) || fresh(output.data)
      ensures dropped <==> old(phase) == Disconnected || Broken(asked)
      ensures asked.Some? <==> old(phase) != Disconnected && message != [] && !old(coalescing)
      ensures accepted == if dropped then old(accepted) else old(accepted) + message
      ensures sent == old(sent) + TakenOf(asked, old(output.Contents()) + message)
      ensures phase == if old(phase) == Disconnected then Disconnected else PhaseUnder(old(phase))
      ensures (old(shut) ==> shut && sent == old(sent)) && (shut && !old(shut) ==> sent == accepted)
    {
      asked := None;
      Unit(sent);
      dropped := phase == Disconnected;
      if dropped { return; }
      var pending := output.ReadableBytes();
      if message == [] {
        Unit(accepted);
      } else if coalescing {
        Queue(message);
      } else if pending > 0 {
        dropped, asked := SendBehindBuffer(message);
      } else {
        dropped, asked := SendDirectly(message);
        Unit(message);
      }
    }

    /** Buffers the whole message. */
    method Queue(message: Str)
      requires Valid() && phase != Disconnected && message != []
      modifies this, output, output.data
      ensures Valid() && accepted == old(accepted) + message && sent == old(sent) && shut == old(shut)
      ensures output.data == old(output.data) || fresh(output.data)
      ensures output.Contents() == old(output.Contents()) + message && phase == PhaseUnder(old(phase))
    {
      Assoc(sent, output.Contents(), message);
      accepted := accepted + message;
      Enqueue(message);
    }

    /** Buffered bytes and the message in one write. */
    method SendBehindBuffer(message: Str) returns (dropped: bool, ghost asked: Option<Written>)
      requires Valid() && phase != Disconnected && message != [] && output.Contents() != []
      modifies this, output, output.data
      ensures Valid() && accepted == if dropped then old(accepted) else old(accepted) + message
      ensures asked.Some? && (dropped <==> Broken(asked))
      ensures sent == old(sent) + TakenOf(asked, old(output.Contents()) + message)
      ensures output.data == old(output.data) || fresh(output.data)
      ensures phase == PhaseUnder(old(phase))
      ensures (old(shut) ==> shut && sent == old(sent)) && (shut && !old(shut) ==> sent == accepted)
    {
      var buffered := output.ReadableBytes();
      var w := KernelWrite(buffered + |message|, shut);
      dropped, asked := w.BrokenPipe?, Some(w);
      Unit(sent);
      if dropped { return; }
      if !w.Took? || w.n == 0 {
        assert TakenOf(asked, output.Contents() + message) == [];
        Queue(message);
      } else {
        ghost var all := output.Contents() + message;
        TakeFront(sent, output.Contents(), message, w.n);
        sent, accepted := sent + all[..w.n], accepted + message;
        KeepRest(message, w.n);
        Settle();
      }
    }

    /** Nothing buffered: the message goes straight to the kernel, and what it does not take is buffered. */
    method SendDirectly(message: Str) returns (dropped: bool, ghost asked: Option<Written>)
      requires Valid() && phase != Disconnected && message != [] && output.Contents() == []
      modifies this, output, output.data
      ensures Valid() && accepted == if dropped then old(accepted) else old(accepted) + message
      ensures asked.Some? && (dropped <==> Broken(asked)) && sent == old(sent) + TakenOf(asked, message)
      ensures output.data == old(output.data) || fresh(output.data)
      ensures phase == PhaseUnder(old(phase)) && shut == old(shut) && (shut ==> sent == old(sent))
    {
      var w := KernelWrite(|message|, shut);
      dropped, asked := w.BrokenPipe?, Some(w);
      Unit(sent);
      if dropped { return; }
      var n := if w.Took? then w.n else 0;
      TakeFront(sent, [], message, n);
      Unit(message);
      assert message[..0] == [];
      sent, accepted := sent + message[..n], accepted + message;
      if n < |message| {
        Unit(message[n..]);
        Enqueue(message[n..]);
      } else {
        assert message[n..] == [];
      }
    }

    method Send(message: Str) returns (dropped: bool, ghost asked: Option<Written>)
      requires Valid()
      modifies this, output, output.data
      ensures Valid()
      ensures output.data == old(output.data) || fresh(output.data)
      ensures dropped <==> old(phase) != Connected || Broken(asked)
      ensures asked.Some? <==> old(phase) == Connected && message != [] && !old(coalescing)
      ensures accepted == if dropped then old(accepted) else old(accepted) + message
      ensures sent == old(sent) + TakenOf(asked, old(output.Contents()) + message)
      ensures old(phase) != Connected ==> shut == old(shut)
      ensures phase == if old(phase) != Connected then old(phase) else PhaseUnder(Connected)
      ensures shut && !old(shut) ==> sent == accepted
    {
      asked := None;
      Unit(sent);
      if phase == Connected { dropped, asked := SendInLoop(message); } else { dropped := true; }
    }

    /** The socket is writable: the kernel takes some of the buffered bytes. */
    method HandleWrite() returns (ghost asked: Option<Written>)
      requires Valid()
      modifies this, output
      ensures Valid() && output.data == old(output.data) && accepted == old(accepted)
      ensures (asked.Some? <==> old(writing)) && sent == old(sent) + TakenOf(asked, old(output.Contents()))
      ensures phase == old(phase) && (!old(writing) || old(shut) ==> sent == old(sent))
      ensures shut == (old(shut) || (old(writing) && phase == Disconnecting && output.Contents() == []))
      ensures shut && !old(shut) ==> sent == accepted
    {
      asked := None;
      Unit(sent);
      if !writing { return; }
      var pending := output.ReadableBytes();
      var w := KernelWrite(pending, shut);
      asked := Some(w);
      assert output.Contents()[..0] == [];
      if w.Took? && w.n > 0 {
        TakeFront(sent, output.Contents(), [], w.n);
        Unit(output.Contents());
        sent := sent + output.Contents()[..w.n];
        output.Retrieve(w.n);
        pending := output.ReadableBytes();
        if pending == 0 {
          writing := false;
          if phase == Disconnecting { ShutdownInLoop(); }
        }
      }
    }

    method BeginWriteCoalescing()
      modifies this`coalescing
      ensures coalescing
    {
      coalescing := true;
    }

    /** When a batch of replies ends, interest is on if anything is buffered. */
    method EndWriteCoalescing()
      requires output.Valid()
      modifies this`coalescing, this`writing
      ensures !coalescing && (old(Valid()) ==> Valid())
      ensures writing == (old(writing) || (phase == Connected && output.Contents() != []))
    {
      coalescing := false;
      if phase != Connected { return; }
      var pending := output.ReadableBytes();
      if pending > 0 && !writing { writing := true; }
    }

    /**
      The write side is shut once everything accepted has been taken by the kernel, not before. Outside
      the loop's own thread the rest is handed over to the loop.
    */
    method Shutdown(inLoop: bool)
      requires Valid()
      modifies this
      ensures Valid() && accepted == old(accepted) && sent == old(sent)
      ensures phase == if old(phase) == Connected then Disconnecting else old(phase)
      ensures old(shut) ==> shut
      ensures shut && !old(shut) ==> sent == accepted
    {
      if phase == Connected {
        phase := Disconnecting;
        if inLoop { ShutdownInLoop(); }
      }
    }
  }

  lemma RestOf(a: Str, b: Str, n: nat)
    requires n <= |a| + |b|
    ensures (a + b)[n..] == if n <= |a| then a[n..] + b else b[n - |a|..]
    ensures a[|a|..] == [] && b[|b|..] == []
  {
  }

  lemma TakeFront(sent: Str, buffered: Str, message: Str, n: nat)
    requires n <= |buffered| + |message|
    ensures var all := buffered + message;
            sent + all[..n] + all[n..] == sent + buffered + message
  {
    var all := buffered + message;
    assert all == all[..n] + all[n..];
    Assoc(sent, all[..n], all[n..]);
    Assoc(sent, buffered, message);
  }

  // ----- Any sequence of events -----

  datatype Event =
    | Message(bytes: Str)
    | HandedOver(bytes: Str)  // sent by another thread; runs in the loop whatever has happened since
    | Writable
    | CoalescingBegins
    | CoalescingEnds
    | ShutdownRequested(inLoop: bool)
    | ShutdownDue             // requested by another thread; after a close there is nothing left to shut
    | CloseRequested
    | CloseForced
    | PeerClosed

  predicate HasBytes(e: Event) { e.Message? || e.HandedOver? }

  /** The messages that were not dropped, in order. */
  function Kept(events: seq<Event>, dropped: seq<bool>): seq<Str>
    requires |events| == |dropped|
  {
    if events == [] then []
    else
      var n := |events| - 1;
      Kept(events[..n], dropped[..n]) + if HasBytes(events[n]) && !dropped[n] then [events[n].bytes] else []
  }

  /** What an event makes of the phase; over says that more is buffered afterwards than 8 MiB. */
  function NextPhase(p: Phase, e: Event, over: bool): Phase {
    match e
    case Message(_) => if p == Connected && over then Disconnected else p
    case HandedOver(_) => if over then Disconnected else p
    case ShutdownRequested(_) => if p == Connected then Disconnecting else p
    case CloseRequested => if p == Disconnected then p else Disconnecting
    case CloseForced => Disconnected
    case PeerClosed => Disconnected
    case _ => p
  }

  /** Exactly when a message is dropped: no connection to send it on, or the pipe is broken. */
  predicate Drops(p: Phase, e: Event, asked: Option<Written>) {
    Broken(asked) || (e.Message? && p != Connected) || (e.HandedOver? && p == Disconnected)
  }

  method Handle(c: Connection, e: Event) returns (dropped: bool, ghost asked: Option<Written>)
    requires c.Valid()
    modifies c, c.output, c.output.data
    ensures c.Valid()
    ensures c.output.data == old(c.output.data) || fresh(c.output.data)
    ensures HasBytes(e) ==> (dropped <==> Drops(old(c.phase), e, asked))
    ensures c.accepted == old(c.accepted) + if HasBytes(e) && !dropped then e.bytes else []
    ensures c.phase == NextPhase(old(c.phase), e, |c.output.Contents()| > 8_388_608)
    ensures old(c.sent) <= c.sent
    ensures (old(c.shut) ==> c.shut && c.sent == old(c.sent)) && (c.shut && !old(c.shut) ==> c.sent == c.accepted)
  {
    dropped, asked := true, None;
    Unit(c.accepted);
    match e {
      case Message(bytes) => dropped, asked := c.Send(bytes);
      case HandedOver(bytes) => dropped, asked := c.SendInLoop(bytes);
      case Writable => asked := c.HandleWrite();
      case CoalescingBegins => c.BeginWriteCoalescing();
      case CoalescingEnds => c.EndWriteCoalescing();
      case ShutdownRequested(inLoop) => c.Shutdown(inLoop);
      case ShutdownDue => if c.phase == Disconnecting { c.ShutdownInLoop(); }
      case CloseRequested => c.ForceClose();
      case CloseForced => c.ForceCloseInLoop();
      case PeerClosed => c.HandleClose();
    }
  }

  /** The phase after the events; over says after which of them too much was buffered. */
  function PhaseAfter(first: Phase, events: seq<Event>, over: seq<bool>): Phase
    requires |events| == |over|
  {
    if events == [] then first
    else
      var n := |events| - 1;
      NextPhase(PhaseAfter(first, events[..n], over[..n]), events[n], over[n])
  }

  /** Every drop has its reason in the phase or in a broken pipe, and too much was buffered only if so much was kept. */
  ghost predicate Explained(first: Phase, events: seq<Event>, dropped: seq<bool>, asked: seq<Option<Written>>,
                            over: seq<bool>)
    requires |events| == |dropped| == |asked| == |over|
  {
    events != [] ==>
      var n := |events| - 1;
      && Explained(first, events[..n], dropped[..n], asked[..n], over[..n])
      && (HasBytes(events[n]) ==>
            (dropped[n] <==> Drops(PhaseAfter(first, events[..n], over[..n]), events[n], asked[n])))
      && (over[n] ==> |Concat(Kept(events, dropped))| > 8_388_608)
  }

  lemma ExplainedNext(first: Phase, events: seq<Event>, i: nat, dropped: seq<bool>, asked: seq<Option<Written>>,
                      over: seq<bool>, d: bool, w: Option<Written>, o: bool)
    requires i < |events| && |dropped| == |asked| == |over| == i
    requires Explained(first, events[..i], dropped, asked, over)
    requires HasBytes(events[i]) ==> (d <==> Drops(PhaseAfter(first, events[..i], over), events[i], w))
    requires o ==> |Concat(Kept(events[..i + 1], dropped + [d]))| > 8_388_608
    ensures Explained(first, events[..i + 1], dropped + [d], asked + [w], over + [o])
    ensures PhaseAfter(first, events[..i + 1], over + [o])
            == NextPhase(PhaseAfter(first, events[..i], over), events[i], o)
  {
    assert events[..i + 1][..i] == events[..i] && (dropped + [d])[..i] == dropped;
    assert (asked + [w])[..i] == asked && (over + [o])[..i] == over;
  }

  /** Sent is what was kept of the first n events. */
  ghost predicate ShutAt(sent: Str, events: seq<Event>, dropped: seq<bool>, n: nat) {
    n <= |dropped| <= |events| && sent == Concat(Kept(events[..n], dropped[..n]))
  }

  lemma ShutStays(sent: Str, events: seq<Event>, dropped: seq<bool>, d: bool, n: nat)
    requires |dropped| < |events| && n <= |dropped| + 1
    requires if n == |dropped| + 1 then sent == Concat(Kept(events[..n], dropped + [d]))
             else ShutAt(sent, events, dropped, n)
    ensures ShutAt(sent, events, dropped + [d], n)
  {
    FrontOfSnoc(dropped, d, n);
  }

  lemma FrontOfSnoc<T>(s: seq<T>, x: T, n: nat)
    requires n <= |s| + 1
    ensures (s + [x])[..n] == if n <= |s| then s[..n] else s + [x]
  {
  }

  /** One event of many, with the account of drops carried on. */
  method DriveOne(c: Connection, events: seq<Event>, i: nat, ghost first: Phase, ghost dropped: seq<bool>,
                  ghost asked: seq<Option<Written>>, ghost over: seq<bool>)
    returns (d: bool, ghost w: Option<Written>, ghost o: bool)
    requires c.Valid() && i < |events| && |dropped| == |asked| == |over| == i
    requires c.accepted == Concat(Kept(events[..i], dropped)) && c.phase == PhaseAfter(first, events[..i], over)
    requires Explained(first, events[..i], dropped, asked, over)
    modifies c, c.output, c.output.data
    ensures c.Valid() && (c.output.data == old(c.output.data) || fresh(c.output.data))
    ensures c.accepted == Concat(Kept(events[..i + 1], dropped + [d]))
    ensures Explained(first, events[..i + 1], dropped + [d], asked + [w], over + [o])
    ensures c.phase == PhaseAfter(first, events[..i + 1], over + [o])
    ensures (old(c.shut) ==> c.shut && c.sent == old(c.sent)) && (c.shut && !old(c.shut) ==> c.sent == c.accepted)
  {
    d, w := Handle(c, events[i]);
    o := |c.output.Contents()| > 8_388_608;
    KeptNext(events, dropped, i, d);
    assert |c.sent + c.output.Contents()| == |c.accepted|;
    ExplainedNext(first, events, i, dropped, asked, over, d, w, o);
  }

  /**
    Whatever happens, the kernel's bytes followed by the buffer are the kept messages in order, and every
    message that is not kept has its reason. The write side is shut only at a moment when all kept
    messages have been taken, and no byte follows.
  */
  method Drive(c: Connection, events: seq<Event>)
    returns (dropped: seq<bool>, ghost asked: seq<Option<Written>>, ghost over: seq<bool>, ghost shutAt: nat)
    requires c.Valid() && c.accepted == [] && !c.shut
    modifies c, c.output, c.output.data
    ensures |dropped| == |asked| == |over| == |events| && c.Valid()
    ensures c.sent + c.output.Contents() == Concat(Kept(events, dropped))
    ensures c.shut ==> shutAt <= |events| && c.sent == Concat(Kept(events[..shutAt], dropped[..shutAt]))
    ensures Explained(old(c.phase), events, dropped, asked, over) && c.phase == PhaseAfter(old(c.phase), events, over)
  {
    dropped, asked, over, shutAt := [], [], [], 0;
    for i := 0 to |events|
      invariant |dropped| == |asked| == |over| == i && c.Valid() && c.accepted == Concat(Kept(events[..i], dropped))
      invariant c.output.data == old(c.output.data) || fresh(c.output.data)
      invariant c.shut ==> ShutAt(c.sent, events, dropped, shutAt)
      invariant Explained(old(c.phase), events[..i], dropped, asked, over)
      invariant c.phase == PhaseAfter(old(c.phase), events[..i], over)
    {
      ghost var wasShut := c.shut;
      var d;
      ghost var w, o;
      d, w, o := DriveOne(c, events, i, old(c.phase), dropped, asked, over);
      if c.shut && !wasShut { shutAt := i + 1; }
      if c.shut { ShutStays(c.sent, events, dropped, d, shutAt); }
      dropped, asked, over := dropped + [d], asked + [w], over + [o];
    }
    assert events[..|events|] == events;
  }

  // ----- When nothing is dropped -----

  /** All messages, in order. */
  function Messages(events: seq<Event>): seq<Str> {
    if events == [] then []
    else
      var n := |events| - 1;
      Messages(events[..n]) + if HasBytes(events[n]) then [events[n].bytes] else []
  }

  predicate Ends(e: Event) { e.ShutdownRequested? || e.CloseRequested? || e.CloseForced? || e.PeerClosed? }

  lemma {:induction false} KeptSize(events: seq<Event>, dropped: seq<bool>)
    requires |events| == |dropped|
    ensures |Concat(Kept(events, dropped))| <= |Concat(Messages(events))|
  {
    if events != [] {
      var n := |events| - 1;
      KeptSize(events[..n], dropped[..n]);
      if HasBytes(events[n]) {
        ConcatSnoc(Messages(events[..n]), events[n].bytes);
        ConcatSnoc(Kept(events[..n], dropped[..n]), events[n].bytes);
      } else {
        assert Messages(events[..n]) + [] == Messages(events[..n]);
      }
      assert Kept(events[..n], dropped[..n]) + [] == Kept(events[..n], dropped[..n]);
    }
  }

  lemma MessagesGrow(events: seq<Event>, n: nat)
    requires |events| == n + 1
    ensures |Concat(Messages(events[..n]))| <= |Concat(Messages(events))|
  {
    ConcatAppend(Messages(events[..n]), if HasBytes(events[n]) then [events[n].bytes] else []);
  }

  /**
    As long as nobody shuts down or closes, no pipe is broken and all messages together are at most
    8 MiB, no message is dropped and the connection stays up.
  */
  lemma {:induction false} NothingIsDropped(events: seq<Event>, dropped: seq<bool>, asked: seq<Option<Written>>,
                                            over: seq<bool>)
    requires |events| == |dropped| == |asked| == |over| && Explained(Connected, events, dropped, asked, over)
    requires forall i :: 0 <= i < |events| ==> !Ends(events[i]) && !Broken(asked[i])
    requires |Concat(Messages(events))| <= 8_388_608
    ensures Kept(events, dropped) == Messages(events) && PhaseAfter(Connected, events, over) == Connected
    ensures forall i :: 0 <= i < |events| && HasBytes(events[i]) ==> !dropped[i]
  {
    if events != [] {
      var n := |events| - 1;
      MessagesGrow(events, n);
      NothingIsDropped(events[..n], dropped[..n], asked[..n], over[..n]);
      KeptSize(events, dropped);
    }
  }

  lemma KeptNext(events: seq<Event>, dropped: seq<bool>, i: nat, d: bool)
    requires i < |events| && |dropped| == i
    ensures Concat(Kept(events[..i + 1], dropped + [d])) ==
            Concat(Kept(events[..i], dropped)) + if HasBytes(events[i]) && !d then events[i].bytes else []
  {
    assert events[..i + 1][..i] == events[..i] && (dropped + [d])[..i] == dropped;
    if HasBytes(events[i]) && !d {
      ConcatSnoc(Kept(events[..i], dropped), events[i].bytes);
    } else {
      assert Kept(events[..i], dropped) + [] == Kept(events[..i], dropped);
      Unit(Concat(Kept(events[..i], dropped)));
    }
  }
}
