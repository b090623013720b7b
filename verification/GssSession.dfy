/** The two programs of the GSS sample, one communication step at a time.  The security mechanism is ideal:
    wrapping, message integrity codes and context tokens are symbolic terms. */
module GssPrograms {
  import opened Common

  const NOOP: bv8 := 1
  const CONTEXT: bv8 := 2
  const DATA: bv8 := 4
  const MIC: bv8 := 8
  const CONTEXT_NEXT: bv8 := 16
  const WRAPPED: bv8 := 32
  const ENCRYPTED: bv8 := 64
  const SEND_MIC: bv8 := 128

  datatype Body =
    | Empty
    | Plain(text: string)
    | ContextToken(n: nat)
    | Wrapped(inner: Body, confidential: bool)
    | Mic(of: Body)

  datatype Packet = Packet(flags: bv8, body: Body)

  // ---------- command line ----------

  datatype Services = Services(auth: bool, wrap: bool, encrypt: bool, mic: bool)
  datatype Arg = NoAuth | NoWrap | NoEncrypt | NoMic | OtherArg

  function ParseArgs(args: seq<Arg>): Services {
    if args == [] then Services(true, true, true, true)
    else
      var s := ParseArgs(args[..|args| - 1]);
      match args[|args| - 1]
      case NoAuth => Services(false, false, false, false)
      case NoWrap => s.(wrap := false)
      case NoEncrypt => s.(encrypt := false)
      case NoMic => s.(mic := false)
      case OtherArg => s
  }

  /** Services a client may ask for: none without authentication. */
  predicate Allowed(s: Services) {
    s.auth || !(s.wrap || s.encrypt || s.mic)
  }

  /** No order of options asks for an authenticated service on an unauthenticated session; a service is asked for exactly
      when no option turns it off. */
  lemma {:induction false} ParsedAllowed(args: seq<Arg>)
    ensures Allowed(ParseArgs(args))
    ensures ParseArgs(args).auth <==> NoAuth !in args
    ensures ParseArgs(args).wrap <==> NoAuth !in args && NoWrap !in args
    ensures ParseArgs(args).encrypt <==> NoAuth !in args && NoEncrypt !in args
    ensures ParseArgs(args).mic <==> NoAuth !in args && NoMic !in args
  {
    if args != [] {
      ParsedAllowed(args[..|args| - 1]);
      assert args == args[..|args| - 1] + [args[|args| - 1]];
    }
  }

  // ---------- the session ----------

  /** One call of the client.  The mechanism exchanges `rounds` context tokens in all, the client's first: a side
      holds a non-empty token exactly when its turn is within `rounds`, and has to go on exactly when the turn
      after that is. */
  datatype Config = Config(services: Services, rounds: nat, mcount: nat, msg: string)

  predicate ValidConfig(cfg: Config) {
    cfg.rounds >= 1 && Allowed(cfg.services)
  }

  datatype ClientPC =
    | Opening
    | SendContext(j: nat)
    | AwaitContext(j: nat)
    | SendMessage(i: nat)
    | AwaitReply(i: nat)
    | ClientDone
    | ClientFailed

  datatype Client = Client(pc: ClientPC, accepted: seq<Packet>)

  datatype ServerPC =
    | AwaitOpening
    | AwaitToken(j: nat)
    | SendToken(j: nat)
    | Serving
    | Replying(reply: Packet)
    | ServerDone
    | ServerFailed

  /** `heard` are the messages the server has logged, unwrapped. */
  datatype Server = Server(pc: ServerPC, hasContext: bool, replies: seq<Packet>, heard: seq<Body>)

  /** What somebody without the context can read of a body. */
  function Readable(b: Body): Option<string> {
    match b
    case Plain(text) => Some(text)
    case Wrapped(inner, confidential) => if confidential then None else Readable(inner)
    case _ => None
  }

  /** What the owner of the context reads. */
  function Opened(b: Body): Body {
    if b.Wrapped? then b.inner else b
  }

  /** What the client sends for one message. */
  function DataPacket(cfg: Config): Packet {
    var s := cfg.services;
    Packet(DATA | (if s.wrap then WRAPPED else 0) | (if s.encrypt then ENCRYPTED else 0) | (if s.mic then SEND_MIC else 0),
           if s.wrap then Wrapped(Plain(cfg.msg), s.encrypt) else Plain(cfg.msg))
  }

  /** The call of gss_init_sec_context number `j`: is there a token to send? */
  function AfterInit(cfg: Config, j: nat): ClientPC {
    if 2 * j - 1 <= cfg.rounds then SendContext(j) else SendMessage(0)
  }

  function ClientOutput(cfg: Config, c: Client): Option<Packet> {
    match c.pc
    case Opening => Some(Packet(if cfg.services.auth then NOOP | CONTEXT_NEXT else NOOP, Empty))
    case SendContext(j) => Some(Packet(CONTEXT, ContextToken(if j == 0 then 0 else 2 * j - 1)))
    case SendMessage(i) => Some(if i < cfg.mcount then DataPacket(cfg) else Packet(NOOP, Empty))
    case _ => None
  }

  function ClientSent(cfg: Config, c: Client): Client {
    match c.pc
    case Opening => c.(pc := if cfg.services.auth then AfterInit(cfg, 1) else SendMessage(0))
    case SendContext(j) => c.(pc := if 2 * j <= cfg.rounds then AwaitContext(j) else SendMessage(0))
    case SendMessage(i) => c.(pc := if i < cfg.mcount then AwaitReply(i) else ClientDone)
    case _ => c
  }

  predicate ClientWaits(c: Client) {
    c.pc.AwaitContext? || c.pc.AwaitReply?
  }

  function ClientReceived(cfg: Config, c: Client, p: Packet): Client {
    match c.pc
    case AwaitContext(j) =>
      if p.body == ContextToken(2 * j) then c.(pc := AfterInit(cfg, j + 1)) else c.(pc := ClientFailed)
    case AwaitReply(i) =>
      if cfg.services.mic && p.body != Mic(Plain(cfg.msg)) then c.(pc := ClientFailed)
      else Client(SendMessage(i + 1), c.accepted + [p])
    case _ => c
  }

  function ServerOutput(s: Server): Option<Packet> {
    match s.pc
    case SendToken(j) => Some(Packet(CONTEXT, ContextToken(2 * j)))
    case Replying(reply) => Some(reply)
    case _ => None
  }

  function ServerSent(cfg: Config, s: Server): Server {
    match s.pc
    case SendToken(j) =>
      if 2 * j + 1 <= cfg.rounds then s.(pc := AwaitToken(j + 1)) else s.(pc := Serving, hasContext := true)
    case Replying(reply) => s.(pc := Serving, replies := s.replies + [reply])
    case _ => s
  }

  predicate ServerWaits(s: Server) {
    s.pc.AwaitOpening? || s.pc.AwaitToken? || s.pc.Serving?
  }

  function ServerReceived(cfg: Config, s: Server, p: Packet): Server {
    match s.pc
    case AwaitOpening =>
      if p.flags & NOOP == 0 then s.(pc := ServerFailed)
      else if p.flags & CONTEXT_NEXT != 0 then s.(pc := AwaitToken(1))
      else s.(pc := Serving, hasContext := false)
    case AwaitToken(j) =>
      if j == 0 || p.body != ContextToken(2 * j - 1) then s.(pc := ServerFailed)
      else if 2 * j <= cfg.rounds then s.(pc := SendToken(j))
      else s.(pc := Serving, hasContext := true)
    case Serving =>
      if p.flags & NOOP != 0 then s.(pc := ServerDone)
      else if !s.hasContext && p.flags & (WRAPPED | ENCRYPTED | SEND_MIC) != 0 then s.(pc := ServerFailed)
      else if p.flags & WRAPPED != 0 && !p.body.Wrapped? then s.(pc := ServerFailed)
      else
        var msg := if p.flags & WRAPPED != 0 then p.body.inner else p.body;
        s.(pc := Replying(if p.flags & SEND_MIC != 0 then Packet(MIC, Mic(msg)) else Packet(NOOP, Empty)),
           heard := s.heard + [msg])
    case _ => s
  }

  /** A server without a context turns a client away exactly when it asks for an authenticated service. */
  lemma UnauthenticatedRejected(cfg: Config, s: Server)
    requires s.pc.Serving? && !s.hasContext
    ensures ServerReceived(cfg, s, DataPacket(cfg)).pc.ServerFailed?
            <==> cfg.services.wrap || cfg.services.encrypt || cfg.services.mic
  {
    var v := cfg.services;
    if v.wrap { } else if v.encrypt { } else if v.mic { }
  }
}

/** Both programs over two channels, under every interleaving. */
module GssSession {
  import opened Common
  import opened GssPrograms

  datatype State = State(client: Client, server: Server, c2s: seq<Packet>, s2c: seq<Packet>)

  const INITIAL := State(Client(Opening, []), Server(AwaitOpening, false, [], []), [], [])

  function ClientStep(cfg: Config, st: State): Option<State> {
    match ClientOutput(cfg, st.client)
    case Some(p) => Some(st.(client := ClientSent(cfg, st.client), c2s := st.c2s + [p]))
    case None =>
      if ClientWaits(st.client) && st.s2c != []
      then Some(st.(client := ClientReceived(cfg, st.client, st.s2c[0]), s2c := st.s2c[1..]))
      else None
  }

  function ServerStep(cfg: Config, st: State): Option<State> {
    match ServerOutput(st.server)
    case Some(p) => Some(st.(server := ServerSent(cfg, st.server), s2c := st.s2c + [p]))
    case None =>
      if ServerWaits(st.server) && st.c2s != []
      then Some(st.(server := ServerReceived(cfg, st.server, st.c2s[0]), c2s := st.c2s[1..]))
      else None
  }

  datatype Party = TheClient | TheServer

  function Next(cfg: Config, st: State, who: Party): Option<State> {
    if who.TheClient? then ClientStep(cfg, st) else ServerStep(cfg, st)
  }

  function Step(cfg: Config, st: State, who: Party): State {
    match Next(cfg, st, who)
    case Some(next) => next
    case None => st
  }

  /** The state after a schedule; a blocked party's turn changes nothing. */
  function Run(cfg: Config, schedule: seq<Party>): State {
    if schedule == [] then INITIAL
    else Step(cfg, Run(cfg, schedule[..|schedule| - 1]), schedule[|schedule| - 1])
  }

  // ---------- the conversation both sides follow ----------

  function HandshakeLength(cfg: Config): nat {
    if cfg.services.auth then cfg.rounds else 0
  }

  function Length(cfg: Config): nat {
    2 + HandshakeLength(cfg) + 2 * cfg.mcount
  }

  predicate FromClient(cfg: Config, k: nat) {
    var h := HandshakeLength(cfg);
    k == 0 || if k <= h then k % 2 == 1 else (k - 1 - h) % 2 == 0
  }

  /** The reply a message deserves: its integrity code when asked for, an empty NOOP otherwise. */
  function Reply(cfg: Config): Packet {
    if cfg.services.mic then Packet(MIC, Mic(Plain(cfg.msg))) else Packet(NOOP, Empty)
  }

  /** Packet number `k` of the whole conversation. */
  function Line(cfg: Config, k: nat): Packet {
    var h := HandshakeLength(cfg);
    if k == 0 then Packet(if cfg.services.auth then NOOP | CONTEXT_NEXT else NOOP, Empty)
    else if k <= h then Packet(CONTEXT, ContextToken(k))
    else if k - 1 - h == 2 * cfg.mcount then Packet(NOOP, Empty)
    else if (k - 1 - h) % 2 == 0 then DataPacket(cfg)
    else Reply(cfg)
  }

  function Replies(cfg: Config, n: nat): seq<Packet> {
    seq(n, _ => Reply(cfg))
  }

  function Messages(cfg: Config, n: nat): seq<Body> {
    seq(n, _ => Plain(cfg.msg))
  }

  /** The client after its first `a` lines, sent or heard. */
  function ClientAt(cfg: Config, a: nat): Client
    requires a <= Length(cfg)
  {
    var h := HandshakeLength(cfg);
    if a == 0 then Client(Opening, [])
    else if a <= h then Client(if a % 2 == 1 then SendContext((a + 1) / 2) else AwaitContext(a / 2), [])
    else
      var d := a - 1 - h;
      Client(if d == 2 * cfg.mcount + 1 then ClientDone
             else if d % 2 == 0 then SendMessage(d / 2) else AwaitReply(d / 2),
             Replies(cfg, if d == 2 * cfg.mcount + 1 then cfg.mcount else d / 2))
  }

  function ServerAt(cfg: Config, b: nat): Server
    requires b <= Length(cfg)
  {
    var h := HandshakeLength(cfg);
    if b == 0 then Server(AwaitOpening, false, [], [])
    else if b <= h then Server(if b % 2 == 1 then AwaitToken((b + 1) / 2) else SendToken(b / 2), false, [], [])
    else
      var d := b - 1 - h;
      Server(if d == 2 * cfg.mcount + 1 then ServerDone
             else if d % 2 == 0 then Serving else Replying(Reply(cfg)),
             cfg.services.auth,
             Replies(cfg, if d == 2 * cfg.mcount + 1 then cfg.mcount else d / 2),
             Messages(cfg, if d == 2 * cfg.mcount + 1 then cfg.mcount else (d + 1) / 2))
  }

  lemma RepliesGrow(cfg: Config, n: nat)
    ensures Replies(cfg, n) + [Reply(cfg)] == Replies(cfg, n + 1)
    ensures Messages(cfg, n) + [Plain(cfg.msg)] == Messages(cfg, n + 1)
  {
  }

  /** The client program speaks exactly its lines and accepts exactly the server's. */
  lemma ClientFollows(cfg: Config, a: nat)
    requires ValidConfig(cfg) && a < Length(cfg)
    ensures if FromClient(cfg, a)
            then ClientOutput(cfg, ClientAt(cfg, a)) == Some(Line(cfg, a))
                 && ClientSent(cfg, ClientAt(cfg, a)) == ClientAt(cfg, a + 1)
            else ClientOutput(cfg, ClientAt(cfg, a)) == None && ClientWaits(ClientAt(cfg, a))
                 && ClientReceived(cfg, ClientAt(cfg, a), Line(cfg, a)) == ClientAt(cfg, a + 1)
  {
    var h := HandshakeLength(cfg);
    if a > h && !FromClient(cfg, a) {
      RepliesGrow(cfg, (a - 1 - h) / 2);
    }
  }

  lemma DataFlags(cfg: Config)
    ensures var f, s := DataPacket(cfg).flags, cfg.services;
            && f & NOOP == 0
            && (f & WRAPPED != 0 <==> s.wrap)
            && (f & SEND_MIC != 0 <==> s.mic)
            && (f & (WRAPPED | ENCRYPTED | SEND_MIC) != 0 <==> s.wrap || s.encrypt || s.mic)
  {
    var s := cfg.services;
    if s.wrap { if s.encrypt { } else { } } else { if s.encrypt { } else { } }
  }

  /** A server hears the message itself, however it was sent, and replies as it deserves. */
  lemma ServerHears(cfg: Config, s: Server)
    requires ValidConfig(cfg) && s.pc.Serving? && s.hasContext == cfg.services.auth
    ensures ServerReceived(cfg, s, DataPacket(cfg)) ==
            s.(pc := Replying(Reply(cfg)), heard := s.heard + [Plain(cfg.msg)])
  {
    DataFlags(cfg);
  }

  lemma ServerFollows(cfg: Config, b: nat)
    requires ValidConfig(cfg) && b < Length(cfg)
    ensures if FromClient(cfg, b)
            then ServerOutput(ServerAt(cfg, b)) == None && ServerWaits(ServerAt(cfg, b))
                 && ServerReceived(cfg, ServerAt(cfg, b), Line(cfg, b)) == ServerAt(cfg, b + 1)
            else ServerOutput(ServerAt(cfg, b)) == Some(Line(cfg, b))
                 && ServerSent(cfg, ServerAt(cfg, b)) == ServerAt(cfg, b + 1)
  {
    var h := HandshakeLength(cfg);
    if b > h {
      RepliesGrow(cfg, (b - 1 - h) / 2);
      if FromClient(cfg, b) && b - 1 - h < 2 * cfg.mcount { ServerHears(cfg, ServerAt(cfg, b)); }
    }
  }

  // ---------- every reachable state ----------

  function Lines(cfg: Config, lo: nat, hi: nat): seq<Packet>
    requires lo <= hi
  {
    seq(hi - lo, i requires 0 <= i => Line(cfg, lo + i))
  }

  /** The client has gone through `a` lines and the server through `b`; the lines between are in the channel
      of the side that is ahead, and all of them are its own. */
  ghost predicate At(cfg: Config, st: State, a: nat, b: nat) {
    && a <= Length(cfg) && b <= Length(cfg)
    && st.client == ClientAt(cfg, a)
    && st.server == ServerAt(cfg, b)
    && st.c2s == (if b <= a then Lines(cfg, b, a) else [])
    && st.s2c == (if a <= b then Lines(cfg, a, b) else [])
    && (forall k | b <= k < a :: FromClient(cfg, k))
    && (forall k | a <= k < b :: !FromClient(cfg, k))
  }

  lemma ClientAdvances(cfg: Config, st: State, a: nat, b: nat)
    requires ValidConfig(cfg) && At(cfg, st, a, b)
    ensures ClientStep(cfg, st).Some? <==> a < Length(cfg) && (FromClient(cfg, a) || a < b)
    ensures ClientStep(cfg, st).Some? ==> At(cfg, ClientStep(cfg, st).value, a + 1, b)
  {
    if a < Length(cfg) {
      ClientFollows(cfg, a);
      if FromClient(cfg, a) {
        assert b <= a && Lines(cfg, b, a + 1) == Lines(cfg, b, a) + [Line(cfg, a)];
      } else if a < b {
        assert Lines(cfg, a, b) == [Line(cfg, a)] + Lines(cfg, a + 1, b);
      }
    }
  }

  lemma ServerAdvances(cfg: Config, st: State, a: nat, b: nat)
    requires ValidConfig(cfg) && At(cfg, st, a, b)
    ensures ServerStep(cfg, st).Some? <==> b < Length(cfg) && (!FromClient(cfg, b) || b < a)
    ensures ServerStep(cfg, st).Some? ==> At(cfg, ServerStep(cfg, st).value, a, b + 1)
  {
    if b < Length(cfg) {
      ServerFollows(cfg, b);
      if !FromClient(cfg, b) {
        assert a <= b && Lines(cfg, a, b + 1) == Lines(cfg, a, b) + [Line(cfg, b)];
      } else if b < a {
        assert Lines(cfg, b, a) == [Line(cfg, b)] + Lines(cfg, b + 1, a);
      }
    }
  }

  lemma StepFollows(cfg: Config, st: State, who: Party, a: nat, b: nat) returns (a': nat, b': nat)
    requires ValidConfig(cfg) && At(cfg, st, a, b)
    ensures At(cfg, Step(cfg, st, who), a', b')
    ensures a' + b' == a + b + (if Next(cfg, st, who).Some? then 1 else 0)
    ensures a <= a' <= a + 1
  {
    a', b' := a, b;
    if who.TheClient? {
      ClientAdvances(cfg, st, a, b);
      if ClientStep(cfg, st).Some? { a' := a + 1; }
    } else {
      ServerAdvances(cfg, st, a, b);
      if ServerStep(cfg, st).Some? { b' := b + 1; }
    }
  }

  /** Every schedule keeps both programs on the one conversation. */
  lemma {:induction false} RunFollowsConversation(cfg: Config, schedule: seq<Party>) returns (a: nat, b: nat)
    requires ValidConfig(cfg)
    ensures At(cfg, Run(cfg, schedule), a, b)
  {
    if schedule == [] {
      a, b := 0, 0;
    } else {
      var before := schedule[..|schedule| - 1];
      a, b := RunFollowsConversation(cfg, before);
      a, b := StepFollows(cfg, Run(cfg, before), schedule[|schedule| - 1], a, b);
    }
  }

  ghost predicate Completed(cfg: Config, st: State) {
    && st.client == Client(ClientDone, Replies(cfg, cfg.mcount))
    && st.server == Server(ServerDone, cfg.services.auth, Replies(cfg, cfg.mcount), Messages(cfg, cfg.mcount))
    && st.c2s == [] && st.s2c == []
  }

  lemma CompletedIffEnd(cfg: Config, st: State, a: nat, b: nat)
    requires ValidConfig(cfg) && At(cfg, st, a, b)
    ensures Completed(cfg, st) <==> a == Length(cfg) && b == Length(cfg)
  {
  }

  lemma NobodyFailed(cfg: Config, st: State, a: nat, b: nat)
    requires At(cfg, st, a, b)
    ensures !st.client.pc.ClientFailed? && !st.server.pc.ServerFailed?
  {
  }

  lemma BlockedIffEnd(cfg: Config, st: State, a: nat, b: nat)
    requires ValidConfig(cfg) && At(cfg, st, a, b)
    ensures ClientStep(cfg, st).None? && ServerStep(cfg, st).None? <==> a == Length(cfg) && b == Length(cfg)
  {
    ClientAdvances(cfg, st, a, b);
    ServerAdvances(cfg, st, a, b);
  }

  /** Safety and deadlock freedom: in no reachable state has a program failed, and if neither can move the session
      is complete: the server has heard every message, and the client has one reply to each, the one it deserves. */
  lemma NeverStuck(cfg: Config, schedule: seq<Party>)
    requires ValidConfig(cfg)
    ensures var st := Run(cfg, schedule);
            && !st.client.pc.ClientFailed? && !st.server.pc.ServerFailed?
            && (ClientStep(cfg, st).None? && ServerStep(cfg, st).None? <==> Completed(cfg, st))
  {
    var a, b := RunFollowsConversation(cfg, schedule);
    NobodyFailed(cfg, Run(cfg, schedule), a, b);
    BlockedIffEnd(cfg, Run(cfg, schedule), a, b);
    CompletedIffEnd(cfg, Run(cfg, schedule), a, b);
  }

  /** No client that the command line can produce is ever turned away, whatever its options. */
  lemma ParsedClientNeverRejected(args: seq<Arg>, rounds: nat, mcount: nat, msg: string, schedule: seq<Party>)
    requires rounds >= 1
    ensures var st := Run(Config(ParseArgs(args), rounds, mcount, msg), schedule);
            !st.server.pc.ServerFailed? && !st.client.pc.ClientFailed?
  {
    ParsedAllowed(args);
    NeverStuck(Config(ParseArgs(args), rounds, mcount, msg), schedule);
  }

  // ---------- who can read the messages ----------

  /** A data packet in the form the services ask for, whatever the flags. */
  predicate WellGuarded(s: Services, msg: string, p: Packet) {
    && Opened(p.body) == Plain(msg)
    && (p.body.Wrapped? <==> s.wrap)
    && (p.body.Wrapped? ==> (p.body.confidential <==> s.encrypt))
    && (p.flags & WRAPPED != 0 <==> s.wrap)
    && (p.flags & ENCRYPTED != 0 <==> s.encrypt)
    && (p.flags & SEND_MIC != 0 <==> s.mic)
  }

  lemma DataGuarded(cfg: Config)
    ensures WellGuarded(cfg.services, cfg.msg, DataPacket(cfg)) && DataPacket(cfg).flags & DATA != 0
  {
    var s := cfg.services;
    if s.wrap { if s.encrypt { if s.mic { } } else if s.mic { } } else { if s.encrypt { if s.mic { } } else if s.mic { } }
  }

  /** Line `k` is a data packet. */
  predicate IsData(cfg: Config, k: nat) {
    var h := HandshakeLength(cfg);
    h < k && k - 1 - h < 2 * cfg.mcount && FromClient(cfg, k)
  }

  lemma LineReadable(cfg: Config, k: nat)
    requires k < Length(cfg)
    ensures Line(cfg, k).flags & DATA != 0 <==> IsData(cfg, k)
    ensures IsData(cfg, k) ==> WellGuarded(cfg.services, cfg.msg, Line(cfg, k))
    ensures !IsData(cfg, k) ==> Readable(Line(cfg, k).body) == None
  {
    DataGuarded(cfg);
  }

  lemma LineAmong(cfg: Config, lo: nat, hi: nat, p: Packet) returns (k: nat)
    requires lo <= hi && p in Lines(cfg, lo, hi)
    ensures lo <= k < hi && p == Line(cfg, k)
  {
    var i :| 0 <= i < hi - lo && Lines(cfg, lo, hi)[i] == p;
    k := lo + i;
  }

  /** Whatever is under way is a line of the conversation. */
  lemma UnderWay(cfg: Config, schedule: seq<Party>, p: Packet) returns (k: nat)
    requires ValidConfig(cfg) && (p in Run(cfg, schedule).c2s || p in Run(cfg, schedule).s2c)
    ensures k < Length(cfg) && p == Line(cfg, k)
  {
    var a, b := RunFollowsConversation(cfg, schedule);
    if a <= b { k := LineAmong(cfg, a, b, p); } else { k := LineAmong(cfg, b, a, p); }
  }

  /** For every schedule: whatever is under way, a data packet carries the message wrapped, confidential, and flagged just
      as the services ask, and nothing else can be read. */
  lemma PacketsGuarded(cfg: Config, schedule: seq<Party>, p: Packet)
    requires ValidConfig(cfg) && (p in Run(cfg, schedule).c2s || p in Run(cfg, schedule).s2c)
    ensures p.flags & DATA != 0 ==> WellGuarded(cfg.services, cfg.msg, p)
    ensures p.flags & DATA == 0 ==> Readable(p.body) == None
  {
    var k := UnderWay(cfg, schedule, p);
    LineReadable(cfg, k);
  }

  lemma RunOn(cfg: Config, schedule: seq<Party>, who: Party)
    ensures Run(cfg, schedule + [who]) == Step(cfg, Run(cfg, schedule), who)
  {
    assert (schedule + [who])[..|schedule|] == schedule;
  }

  lemma NextLineSent(cfg: Config, st: State, a: nat, b: nat)
    requires ValidConfig(cfg) && At(cfg, st, a, b) && a < Length(cfg) && FromClient(cfg, a)
    ensures Line(cfg, a) in Step(cfg, st, TheClient).c2s
  {
    ClientFollows(cfg, a);
  }

  /** Every line of the client gets under way in some run. */
  lemma {:induction false} LineSent(cfg: Config, k: nat, schedule: seq<Party>, a: nat, b: nat) returns (all: seq<Party>)
    requires ValidConfig(cfg) && k < Length(cfg) && FromClient(cfg, k)
    requires At(cfg, Run(cfg, schedule), a, b) && a <= k
    ensures Line(cfg, k) in Run(cfg, all).c2s
    decreases 2 * Length(cfg) - a - b
  {
    var st := Run(cfg, schedule);
    if a == k {
      NextLineSent(cfg, st, a, b);
      RunOn(cfg, schedule, TheClient);
      all := schedule + [TheClient];
    } else {
      BlockedIffEnd(cfg, st, a, b);
      var who := if ClientStep(cfg, st).Some? then TheClient else TheServer;
      var a', b' := StepFollows(cfg, st, who, a, b);
      RunOn(cfg, schedule, who);
      all := LineSent(cfg, k, schedule + [who], a', b');
    }
  }

  /** Some run puts a packet under way in which the message can be read. */
  ghost predicate MessageReadable(cfg: Config) {
    exists schedule, p :: p in Run(cfg, schedule).c2s && Readable(p.body) == Some(cfg.msg)
  }

  /** The message can be read on its way exactly when there is one and it is not both wrapped and encrypted: encryption
      asked for without wrapping is only a flag. */
  lemma MessageReadableIff(cfg: Config)
    requires ValidConfig(cfg)
    ensures MessageReadable(cfg) <==> cfg.mcount > 0 && !(cfg.services.wrap && cfg.services.encrypt)
  {
    var k := 1 + HandshakeLength(cfg);
    if cfg.mcount > 0 && !(cfg.services.wrap && cfg.services.encrypt) {
      var all := LineSent(cfg, k, [], 0, 0);
      LineReadable(cfg, k);
      assert Readable(Line(cfg, k).body) == Some(cfg.msg);
    }
    if schedule, p :| p in Run(cfg, schedule).c2s && Readable(p.body) == Some(cfg.msg) {
      PacketsGuarded(cfg, schedule, p);
      NoDataWithoutMessages(cfg, schedule, p);
    }
  }

  lemma NoDataWithoutMessages(cfg: Config, schedule: seq<Party>, p: Packet)
    requires ValidConfig(cfg) && p in Run(cfg, schedule).c2s && p.flags & DATA != 0
    ensures cfg.mcount > 0
  {
    var k := UnderWay(cfg, schedule, p);
    LineReadable(cfg, k);
  }

  /** For the options of the command line: with a message to send it stays secret exactly when authentication, wrapping and
      encryption are all left on. */
  lemma ParsedMessageReadableIff(args: seq<Arg>, rounds: nat, mcount: nat, msg: string)
    requires rounds >= 1 && mcount > 0
    ensures MessageReadable(Config(ParseArgs(args), rounds, mcount, msg))
            <==> NoAuth in args || NoWrap in args || NoEncrypt in args
  {
    ParsedAllowed(args);
    MessageReadableIff(Config(ParseArgs(args), rounds, mcount, msg));
  }

  // ---------- how many packets are in flight ----------

  /** The most packets ever under way at once.  The opening NOOP is not answered, so one is never enough. */
  function InFlightBound(cfg: Config): nat {
    if cfg.services.auth && cfg.rounds == 1 then 3 else 2
  }

  /** Three lines of the client in a row occur only at the opening of a one-token handshake, four never. */
  lemma ClientLinesInARow(cfg: Config, k: nat)
    requires ValidConfig(cfg) && k + 2 < Length(cfg)
    ensures FromClient(cfg, k) && FromClient(cfg, k + 1) && FromClient(cfg, k + 2) ==> k == 0 && InFlightBound(cfg) == 3
    ensures k == 0 && k + 3 < Length(cfg) && InFlightBound(cfg) == 3 ==> !FromClient(cfg, k + 3)
  {
    var h := HandshakeLength(cfg);
    if k > h { assert (k - h) % 2 != (k - 1 - h) % 2; }
  }

  lemma ServerLinesAlternate(cfg: Config, k: nat)
    ensures FromClient(cfg, k) || FromClient(cfg, k + 1)
  {
    var h := HandshakeLength(cfg);
    if k > h { assert (k - h) % 2 != (k - 1 - h) % 2; }
  }

  /** The client's packets are under way alone or the server's single one is; never more than the bound. */
  lemma InFlightBounded(cfg: Config, schedule: seq<Party>)
    requires ValidConfig(cfg)
    ensures var st := Run(cfg, schedule);
            && |st.c2s| <= InFlightBound(cfg) && |st.s2c| <= 1
            && (st.c2s == [] || st.s2c == [])
  {
    var a, b := RunFollowsConversation(cfg, schedule);
    if b + 2 < a {
      assert FromClient(cfg, b) && FromClient(cfg, b + 1) && FromClient(cfg, b + 2);
      ClientLinesInARow(cfg, b);
    }
    if a + 1 < b {
      ServerLinesAlternate(cfg, a);
    }
  }

  /** The bound is reached in every configuration, so "at most one packet in flight" holds in none. */
  lemma InFlightBoundReached(cfg: Config)
    requires ValidConfig(cfg)
    ensures exists schedule :: |Run(cfg, schedule).c2s| == InFlightBound(cfg)
  {
    var s1, s2, s3 := [TheClient], [TheClient, TheClient], [TheClient, TheClient, TheClient];
    assert s1[..0] == [] && s2[..1] == s1 && s3[..2] == s2;
    var r0, r1, r2 := Run(cfg, []), Run(cfg, s1), Run(cfg, s2);
    assert At(cfg, r0, 0, 0);
    ClientAdvances(cfg, r0, 0, 0);
    ClientAdvances(cfg, r1, 1, 0);
    assert |r2.c2s| == 2;
    if InFlightBound(cfg) == 3 {
      ClientAdvances(cfg, r2, 2, 0);
      assert |Run(cfg, s3).c2s| == 3;
    }
  }

  // ---------- running to the end ----------

  /** One connection, its two programs updated in place by an arbitrary scheduler. */
  class Connection {
    const cfg: Config
    var state: State
    ghost var a: nat
    ghost var b: nat

    ghost predicate Valid()
      reads this
    {
      ValidConfig(cfg) && At(cfg, state, a, b)
    }

    constructor (cfg: Config)
      requires ValidConfig(cfg)
      ensures Valid() && this.cfg == cfg && state == INITIAL
    {
      this.cfg, state, a, b := cfg, INITIAL, 0, 0;
    }

    method Move(who: Party) returns (moved: bool)
      requires Valid()
      modifies this
      ensures Valid() && state == Step(cfg, old(state), who)
      ensures moved <==> Next(cfg, old(state), who).Some?
      ensures a + b == old(a + b) + (if moved then 1 else 0)
    {
      a, b := StepFollows(cfg, state, who, a, b);
      var next := Next(cfg, state, who);
      moved := next.Some?;
      if moved { state := next.value; }
    }

    /** Whoever is scheduled, the session ends complete after exactly one send and one receive per line. */
    method Complete() returns (steps: nat)
      requires Valid() && state == INITIAL && a == b == 0
      modifies this
      ensures Completed(cfg, state) && steps == 2 * Length(cfg)
    {
      steps := 0;
      while true
        invariant Valid() && steps == a + b
        decreases 2 * Length(cfg) - a - b
      {
        var first: Party := *;
        var moved := Move(first);
        if !moved {
          var second := if first.TheClient? then TheServer else TheClient;
          moved := Move(second);
        }
        if !moved {
          ClientAdvances(cfg, state, a, b);
          ServerAdvances(cfg, state, a, b);
          return;
        }
        steps := steps + 1;
      }
    }
  }
}
