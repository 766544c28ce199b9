/**
  Publish and subscribe: each connection's own set of channels and the index from channel to
  subscribers, each behind its own lock. A command updates one and then the other, and commands of
  different connections interleave between the two.
*/
module PubSub {
  import opened Bytes
  import opened Sums
  import opened Schedules

  type Conn = nat
  type Channel = Str

  /** What a connection's command has still to do to the index. */
  datatype Phase = Idle | Adding(ch: Channel) | Removing(chs: set<Channel>)

  datatype Tables = Tables(
    sessions: map<Conn, set<Channel>>,
    subscribers: map<Channel, set<Conn>>,
    phases: map<Conn, Phase>)

  predicate Subscribed(t: Tables, c: Conn, ch: Channel) { c in t.sessions && ch in t.sessions[c] }

  predicate Indexed(t: Tables, c: Conn, ch: Channel) { ch in t.subscribers && c in t.subscribers[ch] }

  function PhaseOf(t: Tables, c: Conn): Phase { if c in t.phases then t.phases[c] else Idle }

  /** The two tables agree on c and ch, up to what c's command has still to do. */
  predicate AgreesOn(t: Tables, c: Conn, ch: Channel) {
    match PhaseOf(t, c)
    case Idle => Subscribed(t, c, ch) <==> Indexed(t, c, ch)
    case Adding(a) => if ch == a then Subscribed(t, c, ch) else Subscribed(t, c, ch) <==> Indexed(t, c, ch)
    case Removing(chs) => if ch in chs then !Subscribed(t, c, ch) else Subscribed(t, c, ch) <==> Indexed(t, c, ch)
  }

  ghost predicate Consistent(t: Tables) {
    && (forall c, ch :: AgreesOn(t, c, ch))
    && (forall ch :: ch in t.subscribers ==> t.subscribers[ch] != {})
  }

  // ----- The locked sections -----

  function AddSession(t: Tables, c: Conn, ch: Channel): Tables
    requires c in t.sessions
  {
    t.(sessions := t.sessions[c := t.sessions[c] + {ch}], phases := t.phases[c := Adding(ch)])
  }

  function AddIndex(t: Tables, c: Conn, ch: Channel): Tables {
    var now := if ch in t.subscribers then t.subscribers[ch] else {};
    t.(subscribers := t.subscribers[ch := now + {c}], phases := t.phases[c := Idle])
  }

  function DropSession(t: Tables, c: Conn, chs: set<Channel>): Tables {
    var left := if c in t.sessions then t.sessions[c := t.sessions[c] - chs] else t.sessions;
    t.(sessions := left, phases := t.phases[c := Removing(chs)])
  }

  function CloseSession(t: Tables, c: Conn): Tables
    requires c in t.sessions
  {
    t.(sessions := t.sessions - {c}, phases := t.phases[c := Removing(t.sessions[c])])
  }

  /** The index without c's entries for chs; a channel nobody is left on goes too. */
  function Without(m: map<Channel, set<Conn>>, c: Conn, chs: set<Channel>): map<Channel, set<Conn>> {
    map ch | ch in m && (ch in chs ==> m[ch] != {c} && m[ch] != {}) :: if ch in chs then m[ch] - {c} else m[ch]
  }

  function DropIndex(t: Tables, c: Conn, chs: set<Channel>): Tables {
    t.(subscribers := Without(t.subscribers, c, chs), phases := t.phases[c := Idle])
  }

  lemma AddSessionKeeps(t: Tables, c: Conn, ch: Channel)
    requires Consistent(t) && PhaseOf(t, c).Idle? && c in t.sessions
    ensures Consistent(AddSession(t, c, ch))
  {
    forall d, x ensures AgreesOn(AddSession(t, c, ch), d, x) { assert AgreesOn(t, d, x); }
  }

  lemma AddIndexKeeps(t: Tables, c: Conn, ch: Channel)
    requires Consistent(t) && PhaseOf(t, c) == Adding(ch)
    ensures Consistent(AddIndex(t, c, ch))
  {
    forall d, x ensures AgreesOn(AddIndex(t, c, ch), d, x) { assert AgreesOn(t, d, x); }
  }

  lemma DropSessionKeeps(t: Tables, c: Conn, chs: set<Channel>)
    requires Consistent(t) && PhaseOf(t, c).Idle?
    ensures Consistent(DropSession(t, c, chs))
  {
    forall d, x ensures AgreesOn(DropSession(t, c, chs), d, x) { assert AgreesOn(t, d, x); }
  }

  lemma CloseSessionKeeps(t: Tables, c: Conn)
    requires Consistent(t) && PhaseOf(t, c).Idle? && c in t.sessions
    ensures Consistent(CloseSession(t, c))
  {
    forall d, x ensures AgreesOn(CloseSession(t, c), d, x) { assert AgreesOn(t, d, x); }
  }

  lemma WithoutHas(m: map<Channel, set<Conn>>, c: Conn, chs: set<Channel>, d: Conn, ch: Channel)
    requires forall x :: x in m ==> m[x] != {}
    ensures ch in Without(m, c, chs) && d in Without(m, c, chs)[ch]
            <==> ch in m && d in m[ch] && !(d == c && ch in chs)
    ensures ch in Without(m, c, chs) ==> Without(m, c, chs)[ch] != {}
  {
    if ch in m && ch in chs {
      if m[ch] != {c} {
        var e :| e in m[ch] && e != c;
        assert e in m[ch] - {c};
      }
    }
  }

  lemma DropIndexKeeps(t: Tables, c: Conn, chs: set<Channel>)
    requires Consistent(t) && PhaseOf(t, c) == Removing(chs)
    ensures Consistent(DropIndex(t, c, chs))
  {
    forall d, x ensures AgreesOn(DropIndex(t, c, chs), d, x) {
      assert AgreesOn(t, d, x);
      WithoutHas(t.subscribers, c, chs, d, x);
    }
    forall x | x in Without(t.subscribers, c, chs) ensures Without(t.subscribers, c, chs)[x] != {} {
      WithoutHas(t.subscribers, c, chs, c, x);
    }
  }

  // ----- Every interleaving of the locked sections -----

  datatype Step =
    | OpenStep(c: Conn)
    | SubscribeStep(c: Conn, ch: Channel)
    | UnsubscribeStep(c: Conn, ch: Channel)
    | UnsubscribeAllStep(c: Conn)
    | ClearStep(c: Conn)
    | IndexStep(c: Conn)  // the second half of whatever c's command is

  /** A connection's own commands follow one another; a step that is not its turn does not happen. */
  function Next(t: Tables, s: Step): Tables {
    var c := s.c;
    match PhaseOf(t, c)
    case Adding(ch) => if s.IndexStep? then AddIndex(t, c, ch) else t
    case Removing(chs) => if s.IndexStep? then DropIndex(t, c, chs) else t
    case Idle =>
      match s
      case OpenStep(_) => if c in t.sessions then t else t.(sessions := t.sessions[c := {}])
      case SubscribeStep(_, ch) => if c in t.sessions then AddSession(t, c, ch) else t
      case UnsubscribeStep(_, ch) => DropSession(t, c, {ch})
      case UnsubscribeAllStep(_) => DropSession(t, c, if c in t.sessions then t.sessions[c] else {})
      case ClearStep(_) => if c in t.sessions then CloseSession(t, c) else t
      case IndexStep(_) => t
  }

  function After(ss: seq<Step>): Tables { Run(Next, Tables(map[], map[], map[]), ss) }

  lemma OpenKeeps(t: Tables, c: Conn)
    requires Consistent(t) && PhaseOf(t, c).Idle? && c !in t.sessions
    ensures Consistent(t.(sessions := t.sessions[c := {}]))
  {
    var t' := t.(sessions := t.sessions[c := {}]);
    forall d, x ensures AgreesOn(t', d, x) { assert AgreesOn(t, d, x); }
  }

  lemma StepKeeps(t: Tables, s: Step)
    requires Consistent(t)
    ensures Consistent(Next(t, s))
  {
    var c, p := s.c, PhaseOf(t, s.c);
    if p.Adding? {
      AddIndexKeeps(t, c, p.ch);
    } else if p.Removing? {
      DropIndexKeeps(t, c, p.chs);
    } else {
      match s {
        case OpenStep(_) => if c !in t.sessions { OpenKeeps(t, c); }
        case SubscribeStep(_, ch) => if c in t.sessions { AddSessionKeeps(t, c, ch); }
        case UnsubscribeStep(_, ch) => DropSessionKeeps(t, c, {ch});
        case UnsubscribeAllStep(_) => DropSessionKeeps(t, c, if c in t.sessions then t.sessions[c] else {});
        case ClearStep(_) => if c in t.sessions { CloseSessionKeeps(t, c); }
        case IndexStep(_) =>
      }
    }
  }

  /** After every interleaving: the tables agree on every connection between commands, and no channel is empty. */
  lemma AllInterleavings(ss: seq<Step>)
    ensures Consistent(After(ss))
    ensures forall c, ch :: PhaseOf(After(ss), c).Idle? ==>
              (Subscribed(After(ss), c, ch) <==> Indexed(After(ss), c, ch))
  {
    forall t: Tables, s: Step | Consistent(t) ensures Consistent(Next(t, s)) { StepKeeps(t, s); }
    RunKeeps(Next, (t: Tables) => Consistent(t), Tables(map[], map[], map[]), ss);
    forall c, ch | PhaseOf(After(ss), c).Idle?
      ensures Subscribed(After(ss), c, ch) <==> Indexed(After(ss), c, ch)
    {
      assert AgreesOn(After(ss), c, ch);
    }
  }

  /** A cleared connection, once its command is through, is in no channel. */
  lemma ClearedIsGone(ss: seq<Step>, c: Conn, ch: Channel)
    requires PhaseOf(After(ss), c).Idle? && c !in After(ss).sessions
    ensures !Indexed(After(ss), c, ch)
  {
    AllInterleavings(ss);
  }

  /** When no command is under way, the index is exactly the sessions turned round. */
  lemma QuietIndexIsInverse(ss: seq<Step>, ch: Channel)
    requires forall c :: PhaseOf(After(ss), c).Idle?
    ensures var t := After(ss);
            (if ch in t.subscribers then t.subscribers[ch] else {}) == set c | c in t.sessions && ch in t.sessions[c]
    ensures ch in After(ss).subscribers <==> exists c :: Subscribed(After(ss), c, ch)
  {
    AllInterleavings(ss);
    var t := After(ss);
    if ch in t.subscribers {
      var c :| c in t.subscribers[ch];
      assert Indexed(t, c, ch);
    }
    if c :| Subscribed(t, c, ch) { assert Indexed(t, c, ch); }
    var indexed := if ch in t.subscribers then t.subscribers[ch] else {};
    var subscribed := set c | c in t.sessions && ch in t.sessions[c];
    forall c ensures c in indexed <==> c in subscribed {
      assert Indexed(t, c, ch) <==> Subscribed(t, c, ch);
    }
  }

  /** No other connection's step touches what concerns c. */
  lemma OthersDoNotInterfere(t: Tables, s: Step, c: Conn, ch: Channel)
    requires Consistent(t) && s.c != c
    ensures var t' := Next(t, s);
            && PhaseOf(t', c) == PhaseOf(t, c)
            && (Subscribed(t', c, ch) <==> Subscribed(t, c, ch)) && (Indexed(t', c, ch) <==> Indexed(t, c, ch))
  {
    var p := PhaseOf(t, s.c);
    if p.Removing? { WithoutHas(t.subscribers, s.c, p.chs, c, ch); }
  }

  // ----- What a command does to its own connection -----

  /** Whether c is to be on channel x once its command s is through. */
  predicate Wanted(t: Tables, s: Step, x: Channel) {
    match s
    case OpenStep(c) => Subscribed(t, c, x)
    case SubscribeStep(c, ch) => Subscribed(t, c, x) || (x == ch && c in t.sessions)
    case UnsubscribeStep(c, ch) => Subscribed(t, c, x) && x != ch
    case UnsubscribeAllStep(_) => false
    case ClearStep(_) => false
    case IndexStep(c) => Subscribed(t, c, x)
  }

  /** The first half decides the connection's own set, channel by channel; only SUBSCRIBE needs a session. */
  lemma FirstHalfDecides(t: Tables, s: Step, x: Channel)
    requires PhaseOf(t, s.c).Idle?
    ensures Subscribed(Next(t, s), s.c, x) <==> Wanted(t, s, x)
    ensures s.c in Next(t, s).sessions <==> if s.OpenStep? then true else s.c in t.sessions && !s.ClearStep?
  {
  }

  /** The second half brings the index to the connection's own set, which stays as it is. */
  lemma SecondHalfFollows(t: Tables, c: Conn, x: Channel)
    requires Consistent(t)
    ensures var t' := Next(t, IndexStep(c));
            && PhaseOf(t', c).Idle? && (Subscribed(t', c, x) <==> Subscribed(t, c, x))
            && (Indexed(t', c, x) <==> Subscribed(t, c, x))
  {
    StepKeeps(t, IndexStep(c));
    assert AgreesOn(Next(t, IndexStep(c)), c, x);
  }

  lemma {:induction false} OthersInBetween(t: Tables, others: seq<Step>, c: Conn, x: Channel)
    requires Consistent(t) && forall i :: 0 <= i < |others| ==> others[i].c != c
    ensures var t' := Run(Next, t, others);
            Consistent(t') && PhaseOf(t', c) == PhaseOf(t, c) && (Subscribed(t', c, x) <==> Subscribed(t, c, x))
  {
    if others != [] {
      var n := |others| - 1;
      OthersInBetween(t, others[..n], c, x);
      OthersDoNotInterfere(Run(Next, t, others[..n]), others[n], c, x);
      StepKeeps(Run(Next, t, others[..n]), others[n]);
    }
  }

  /**
    A whole command, whatever other connections do between its two halves: afterwards the connection is
    on exactly the channels it should be on, in both tables.
  */
  lemma CommandTakesEffect(t: Tables, s: Step, others: seq<Step>, x: Channel)
    requires Consistent(t) && PhaseOf(t, s.c).Idle? && forall i :: 0 <= i < |others| ==> others[i].c != s.c
    ensures var t' := Next(Run(Next, Next(t, s), others), IndexStep(s.c));
            && PhaseOf(t', s.c).Idle?
            && (Subscribed(t', s.c, x) <==> Wanted(t, s, x)) && (Indexed(t', s.c, x) <==> Wanted(t, s, x))
  {
    StepKeeps(t, s);
    FirstHalfDecides(t, s, x);
    OthersInBetween(Next(t, s), others, s.c, x);
    SecondHalfFollows(Run(Next, Next(t, s), others), s.c, x);
  }

  // ----- The server's tables -----

  ghost function Subscriptions(m: map<Channel, set<Conn>>): nat {
    MapSum(m, (ch: Channel, conns: set<Conn>) => |conns|)
  }

  class Hub {
    var sessions: map<Conn, set<Channel>>
    var subscribers: map<Channel, set<Conn>>
    var channelCount: nat
    var subscriptionCount: nat
    ghost var phases: map<Conn, Phase>

    ghost function State(): Tables
      reads this
    {
      Tables(sessions, subscribers, phases)
    }

    /** The tables agree, no channel is empty, and the published counts are those of the index. */
    ghost predicate Valid()
      reads this
    {
      && Consistent(State())
      && channelCount == |subscribers| && subscriptionCount == Subscriptions(subscribers)
    }

    constructor ()
      ensures Valid() && State() == Tables(map[], map[], map[])
    {
      sessions, subscribers, phases := map[], map[], map[];
      channelCount, subscriptionCount := 0, 0;
    }

    /** Recomputes the published counts; the index lock is held. */
    method RefreshStats()
      modifies this`channelCount, this`subscriptionCount
      ensures channelCount == |subscribers| && subscriptionCount == Subscriptions(subscribers)
    {
      channelCount := |subscribers|;
      subscriptionCount := CountAll(subscribers);
    }

    /** A connection's input state is created with its first bytes. */
    method Open(c: Conn)
      requires Valid() && PhaseOf(State(), c).Idle?
      modifies this`sessions
      ensures Valid() && sessions == if c in old(sessions) then old(sessions) else old(sessions)[c := {}]
    {
      if c !in sessions {
        ghost var t := State();
        sessions := sessions[c := {}];
        forall d, x ensures AgreesOn(State(), d, x) { assert AgreesOn(t, d, x); }
      }
    }

    /** First half of SUBSCRIBE; without input state the command ends here. */
    method SubscribeSession(c: Conn, ch: Channel) returns (go: bool, count: nat)
      requires Valid() && PhaseOf(State(), c).Idle?
      modifies this`sessions, this`phases
      ensures Valid() && go == (c in old(sessions))
      ensures State() == Next(old(State()), SubscribeStep(c, ch))
      ensures State() == if go then AddSession(old(State()), c, ch) else old(State())
      ensures go ==> sessions == old(sessions)[c := old(sessions)[c] + {ch}]
      ensures count == if go then |sessions[c]| else 0
    {
      go, count := c in sessions, 0;
      if go {
        AddSessionKeeps(State(), c, ch);
        sessions := sessions[c := sessions[c] + {ch}];
        phases := phases[c := Adding(ch)];
        count := |sessions[c]|;
      }
    }

    /** Second half of SUBSCRIBE. */
    method SubscribeIndex(c: Conn, ch: Channel)
      requires Valid() && PhaseOf(State(), c) == Adding(ch)
      modifies this`subscribers, this`phases, this`channelCount, this`subscriptionCount
      ensures Valid() && State() == Next(old(State()), IndexStep(c)) == AddIndex(old(State()), c, ch)
    {
      AddIndexKeeps(State(), c, ch);
      var now := if ch in subscribers then subscribers[ch] else {};
      subscribers := subscribers[ch := now + {c}];
      phases := phases[c := Idle];
      RefreshStats();
    }

    /** First half of UNSUBSCRIBE of one channel. */
    method UnsubscribeSession(c: Conn, ch: Channel) returns (count: nat)
      requires Valid() && PhaseOf(State(), c).Idle?
      modifies this`sessions, this`phases
      ensures Valid() && State() == Next(old(State()), UnsubscribeStep(c, ch)) == DropSession(old(State()), c, {ch})
      ensures sessions == if c in old(sessions) then old(sessions)[c := old(sessions)[c] - {ch}] else old(sessions)
      ensures count == if c in sessions then |sessions[c]| else 0
    {
      DropSessionKeeps(State(), c, {ch});
      count := 0;
      if c in sessions {
        sessions := sessions[c := sessions[c] - {ch}];
        count := |sessions[c]|;
      }
      phases := phases[c := Removing({ch})];
    }

    /** First half of UNSUBSCRIBE without arguments. */
    method UnsubscribeAllSession(c: Conn) returns (channels: set<Channel>)
      requires Valid() && PhaseOf(State(), c).Idle?
      modifies this`sessions, this`phases
      ensures Valid() && channels == if c in old(sessions) then old(sessions)[c] else {}
      ensures State() == Next(old(State()), UnsubscribeAllStep(c)) == DropSession(old(State()), c, channels)
      ensures sessions == if c in old(sessions) then old(sessions)[c := {}] else old(sessions)
    {
      channels := if c in sessions then sessions[c] else {};
      DropSessionKeeps(State(), c, channels);
      if c in sessions {
        assert sessions[c] - channels == {};
        sessions := sessions[c := {}];
      }
      phases := phases[c := Removing(channels)];
    }

    /** First half of clearing a closed connection; without input state there is nothing to clear. */
    method ClearSession(c: Conn) returns (go: bool, channels: set<Channel>)
      requires Valid() && PhaseOf(State(), c).Idle?
      modifies this`sessions, this`phases
      ensures Valid() && go == (c in old(sessions)) && c !in sessions
      ensures State() == Next(old(State()), ClearStep(c)) == if go then CloseSession(old(State()), c) else old(State())
      ensures sessions == old(sessions) - {c}
      ensures go ==> channels == old(sessions)[c]
    {
      go, channels := c in sessions, {};
      if go {
        CloseSessionKeeps(State(), c);
        channels := sessions[c];
        sessions := sessions - {c};
        phases := phases[c := Removing(channels)];
      }
    }

    /** Second half of all three: channel by channel, dropping channels nobody is left on. */
    method RemoveFromIndex(c: Conn, channels: set<Channel>)
      requires Valid() && PhaseOf(State(), c) == Removing(channels)
      modifies this`subscribers, this`phases, this`channelCount, this`subscriptionCount
      ensures Valid() && State() == Next(old(State()), IndexStep(c)) == DropIndex(old(State()), c, channels)
    {
      DropIndexKeeps(State(), c, channels);
      subscribers := EraseFrom(subscribers, c, channels);
      phases := phases[c := Idle];
      RefreshStats();
    }

    /** Every connected subscriber gets the message; a connection between commands exactly if it is subscribed. */
    method Publish(ch: Channel, connected: set<Conn>) returns (targets: set<Conn>)
      requires Valid()
      ensures targets == if ch in subscribers then subscribers[ch] * connected else {}
      ensures forall c :: PhaseOf(State(), c).Idle? ==> (c in targets <==> c in connected && Subscribed(State(), c, ch))
    {
      targets := if ch in subscribers then subscribers[ch] * connected else {};
      forall c | PhaseOf(State(), c).Idle? ensures c in targets <==> c in connected && Subscribed(State(), c, ch) {
        assert AgreesOn(State(), c, ch);
      }
    }
  }

  method CountAll(m: map<Channel, set<Conn>>) returns (n: nat)
    ensures n == Subscriptions(m)
  {
    n := 0;
    var left := m;
    while left != map[]
      invariant n + Subscriptions(left) == Subscriptions(m)
      decreases |left|
    {
      var ch :| ch in left;
      MapSumRemove(left, (ch: Channel, conns: set<Conn>) => |conns|, ch);
      ShrinkSize(left, ch);
      n := n + |left[ch]|;
      left := left - {ch};
    }
  }

  function EraseOne(m: map<Channel, set<Conn>>, c: Conn, ch: Channel): map<Channel, set<Conn>> {
    if ch !in m then m
    else if m[ch] - {c} == {} then m - {ch}
    else m[ch := m[ch] - {c}]
  }

  lemma EraseStep(m: map<Channel, set<Conn>>, c: Conn, done: set<Channel>, ch: Channel)
    requires ch !in done && forall x :: x in m ==> m[x] != {}
    ensures EraseOne(Without(m, c, done), c, ch) == Without(m, c, done + {ch})
  {
    if ch in m && m[ch] - {c} == {} {
      var d :| d in m[ch];
      assert m[ch] == {c} by { assert forall e :: e in m[ch] ==> e == c || e in m[ch] - {c}; }
    }
  }

  method EraseFrom(m: map<Channel, set<Conn>>, c: Conn, channels: set<Channel>) returns (r: map<Channel, set<Conn>>)
    requires forall x :: x in m ==> m[x] != {}
    ensures r == Without(m, c, channels)
  {
    r := m;
    var todo := channels;
    assert Without(m, c, {}) == m;
    while todo != {}
      invariant todo <= channels && r == Without(m, c, channels - todo)
      decreases |todo|
    {
      var ch :| ch in todo;
      EraseStep(m, c, channels - todo, ch);
      assert channels - (todo - {ch}) == channels - todo + {ch};
      r := EraseOne(r, c, ch);
      todo := todo - {ch};
    }
    assert channels - {} == channels;
  }
}
