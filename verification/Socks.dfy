/** The SOCKS5 client and the proxy shipped beside it, run against each other over two byte streams. */
module Socks {
  import opened Bitwise
  import opened Bytes

  // ---------------------------------------------------------------------- messages

  /** Where to connect to; the empty name means that the address is used. */
  datatype Target = Target(name: seq<uint8>, ip: uint32, port: uint16)

  datatype Config = Config(target: Target, username: seq<uint8>, secret: seq<uint8>) {
    predicate Offers() {
      username != []
    }

    /** The client cuts both texts to 255 bytes, and refuses a name longer than 248. */
    function User(): seq<uint8> {
      Cut(username)
    }

    function Secret(): seq<uint8> {
      Cut(secret)
    }

    predicate TooLong() {
      |target.name| > 248
    }
  }

  function Cut(s: seq<uint8>): (t: seq<uint8>)
    ensures |t| <= 255 && t <= s
  {
    if |s| > 255 then s[..255] else s
  }

  function Greeting(c: Config): (g: seq<uint8>)
    ensures |g| >= 3
  {
    if c.Offers() then [5, 2, 0, 2] else [5, 1, 0]
  }

  function Auth(c: Config): seq<uint8> {
    [1, |c.User()|] + c.User() + [|c.Secret()|] + c.Secret()
  }

  function Request(t: Target): seq<uint8> {
    [5, 1, 0] + (if t.name != [] then [3, |t.name| % 0x100] + t.name else [1] + BigEndian(t.ip, 4)) + BigEndian(t.port, 2)
  }

  /** The proxy always reports an IPv4 address. */
  function Reply(rep: uint8, ip: uint32, port: uint16): seq<uint8> {
    [5, rep, 0, 1] + BigEndian(ip, 4) + BigEndian(port, 2)
  }

  /** The messages as RFC 1928 and RFC 1929 lay them out, octet by octet. */
  lemma GreetingLayout(c: Config)
    ensures var g := Greeting(c);
            g[0] == 5 && g[1] == |g| - 2 && 0 in g[2..] && (2 in g[2..] <==> c.username != [])
            && forall m <- g[2..] :: m == 0 || m == 2
  {
  }

  lemma AuthLayout(c: Config)
    ensures var a, u, s := Auth(c), |c.User()|, |c.Secret()|;
            && |a| == 3 + u + s && a[0] == 1 && a[1] == u && a[2..2 + u] == c.User()
            && a[2 + u] == s && a[3 + u..] == c.Secret()
            && u == (if |c.username| > 255 then 255 else |c.username|) && c.User() <= c.username
            && s == (if |c.secret| > 255 then 255 else |c.secret|) && c.Secret() <= c.secret
  {
  }

  lemma RequestLayout(t: Target)
    requires |t.name| <= 248
    ensures var r, n := Request(t), |Request(t)| - 2;
            && n >= 8 - 4 && r[..3] == [5, 1, 0] && Number(r[n..]) == t.port
            && (if t.name == [] then n == 8 && r[3] == 1 && Number(r[4..n]) == t.ip
                else n == 5 + |t.name| && r[3] == 3 && r[4] == |t.name| && r[5..n] == t.name)
  {
    hide Number, BigEndian;
    Pow2Known();
    Pow2Add(16, 16);
    NumberOfBigEndian(t.port, 2);
    NumberOfBigEndian(t.ip, 4);
    var r, n := Request(t), |Request(t)| - 2;
    assert r[n..] == BigEndian(t.port, 2);
    if t.name == [] {
      assert r[4..n] == BigEndian(t.ip, 4);
    }
  }

  lemma ReplyLayout(rep: uint8, ip: uint32, port: uint16)
    ensures var r := Reply(rep, ip, port);
            |r| == 10 && r[..4] == [5, rep, 0, 1] && Number(r[4..8]) == ip && Number(r[8..]) == port
  {
    hide Number, BigEndian;
    Pow2Known();
    Pow2Add(16, 16);
    NumberOfBigEndian(port, 2);
    NumberOfBigEndian(ip, 4);
    var r := Reply(rep, ip, port);
    assert r[4..8] == BigEndian(ip, 4) && r[8..] == BigEndian(port, 2);
  }

  // ------------------------------------------------------------------------ parsing

  /** What a reader makes of the bytes that are there: it waits for more, gives up, or has it all. */
  datatype Parse<T> = More | Bad | Got(value: T, len: nat)

  function ParseGreeting(v: seq<uint8>): Parse<seq<uint8>> {
    if |v| < 2 then More
    else if v[0] != 5 then Bad
    else
      var n := v[1] as nat;
      if |v| < 2 + n then More else Got(v[2..2 + n], 2 + n)
  }

  datatype Login = Login(version: uint8, user: seq<uint8>, password: seq<uint8>)

  function ParseAuth(v: seq<uint8>): Parse<Login> {
    if |v| < 2 || |v| < 3 + v[1] as nat then More
    else
      var u := v[1] as nat;
      var p := v[2 + u] as nat;
      if |v| < 3 + u + p then More else Got(Login(v[0], v[2..2 + u], v[3 + u..3 + u + p]), 3 + u + p)
  }

  /** What the proxy was asked: a command for a host, given by name or by an address of 4 or 16 bytes. */
  datatype Asked = Asked(cmd: uint8, byName: bool, host: seq<uint8>, port: nat)

  function ParseRequest(v: seq<uint8>): Parse<Asked> {
    if |v| < 4 then More
    else if v[0] != 5 then Bad
    else if v[3] == 1 then HostAt(v, false, 4, 4)
    else if v[3] == 3 then (if |v| < 5 then More else HostAt(v, true, 5, v[4]))
    else if v[3] == 4 then HostAt(v, false, 4, 16)
    else Bad
  }

  /** What a proxy should make of the request for a target. */
  function Wanted(t: Target): Asked {
    Asked(1, t.name != [], if t.name != [] then t.name else BigEndian(t.ip, 4), t.port)
  }

  /** A connection to the target's port, by its name if there is one and else by its address. */
  lemma WantedIsTarget(t: Target)
    ensures var a := Wanted(t);
            a.cmd == 1 && a.port == t.port && (if t.name == [] then !a.byName && |a.host| == 4 && Number(a.host) == t.ip
                                               else a.byName && a.host == t.name)
  {
    hide Number, BigEndian;
    Pow2Known();
    Pow2Add(16, 16);
    NumberOfBigEndian(t.ip, 4);
  }

  function HostAt(v: seq<uint8>, byName: bool, at: nat, n: nat): Parse<Asked>
    requires |v| >= 2
  {
    if |v| < at + n + 2 then More
    else Got(Asked(v[1], byName, v[at..at + n], Number(v[at + n..at + n + 2])), at + n + 2)
  }

  /** The client's reading of the reply: the code, once the bound address is complete. */
  function ParseReply(u: seq<uint8>): Parse<uint8> {
    if |u| < 4 then More
    else if u[3] == 1 then (if |u| < 10 then More else Got(u[1], 10))
    else if u[3] == 4 then (if |u| < 22 then More else Got(u[1], 22))
    else if u[3] == 3 then
      if |u| < 5 || |u| < 7 + u[4] as nat then More else Got(u[1], 7 + u[4] as nat)
    else Bad
  }

  // ------------------------------------------------- what a reader sees of a message

  /** However much of a message (and of what follows it) has arrived, a reader waits for it or has
      exactly it. */
  lemma GreetingArrives(c: Config, v: seq<uint8>, rest: seq<uint8>)
    requires v <= Greeting(c) + rest
    ensures ParseGreeting(v) == if |v| < |Greeting(c)| then More else Got(Greeting(c)[2..], |Greeting(c)|)
  {
    var g := Greeting(c);
    if |v| >= |g| {
      assert v[2..|g|] == g[2..];
    }
  }

  lemma AuthArrives(c: Config, v: seq<uint8>, rest: seq<uint8>)
    requires v <= Auth(c) + rest
    ensures ParseAuth(v) == if |v| < |Auth(c)| then More else Got(Login(1, c.User(), c.Secret()), |Auth(c)|)
  {
    var u, s := c.User(), c.Secret();
    var m, k := Auth(c) + rest, |u|;
    assert m[2..2 + k] == u && m[2 + k] == |s|;
    assert m[3 + k..3 + k + |s|] == s;
    if |v| >= |Auth(c)| {
      assert v[2..2 + k] == u && v[3 + k..3 + k + |s|] == s;
    }
  }

  lemma RequestArrives(t: Target, v: seq<uint8>, rest: seq<uint8>)
    requires |t.name| <= 248 && v <= Request(t) + rest
    ensures ParseRequest(v) == if |v| < |Request(t)| then More else Got(Wanted(t), |Request(t)|)
  {
    hide Number, BigEndian, HostAt;
    var host := if t.name != [] then t.name else BigEndian(t.ip, 4);
    var head := if t.name != [] then [5, 1, 0, 3, |t.name|] else [5, 1, 0, 1];
    assert Request(t) == head + host + BigEndian(t.port, 2);
    if |v| >= |head| {
      assert v[..|head|] == head;
      assert forall i :: 0 <= i < |head| ==> v[i] == v[..|head|][i];
      HostArrives(head, t.name != [], host, t.port, v, rest);
    }
  }

  lemma HostArrives(head: seq<uint8>, byName: bool, host: seq<uint8>, port: uint16, v: seq<uint8>, rest: seq<uint8>)
    requires |head| >= 4 && |v| >= |head| && head[1] == 1
    requires v <= head + host + BigEndian(port, 2) + rest
    ensures HostAt(v, byName, |head|, |host|) ==
      if |v| < |head| + |host| + 2 then More else Got(Asked(1, byName, host, port), |head| + |host| + 2)
  {
    hide Number, BigEndian;
    var at, n := |head|, |host|;
    var m := head + host + BigEndian(port, 2) + rest;
    Pow2Known();
    NumberOfBigEndian(port, 2);
    assert v[1] == m[1] == head[1];
    if |v| >= at + n + 2 {
      assert v[at..at + n] == m[at..at + n] == host;
      assert v[at + n..at + n + 2] == m[at + n..at + n + 2] == BigEndian(port, 2);
    }
  }

  lemma ReplyArrives(rep: uint8, ip: uint32, port: uint16, u: seq<uint8>, rest: seq<uint8>)
    requires u <= Reply(rep, ip, port) + rest
    ensures ParseReply(u) == if |u| < 10 then More else Got(rep, 10)
  {
    hide BigEndian;
  }

  // ------------------------------------------------------------------- the two ends

  /** Failed carries the phase the client reports. */
  datatype Client = Hello | AwaitMethod | AwaitAuth | AwaitReply | Tunnel | Failed(phase: nat)

  /** Texts the proxy compares are decoded first, which need not be one to one. */
  datatype Policy = Open | Password(user: string, password: string)

  datatype Proxy = ReadGreeting | ReadAuth | ReadRequest | Connecting(asked: Asked) | Serving(asked: Asked) | Closed

  /** Both ends and both streams: all bytes sent, how many have arrived, how many were consumed. tunnel
      is what the proxy has relayed from the target. */
  datatype World = World(client: Client, up: seq<uint8>, upArrived: nat, upRead: nat,
                         proxy: Proxy, down: seq<uint8>, downArrived: nat, downRead: nat, tunnel: seq<uint8>)
  {
    predicate Shaped() {
      upRead <= upArrived <= |up| && downRead <= downArrived <= |down|
    }

    function AtProxy(): seq<uint8>
      requires Shaped()
    {
      up[upRead..upArrived]
    }

    function AtClient(): seq<uint8>
      requires Shaped()
    {
      down[downRead..downArrived]
    }
  }

  /** Bytes arrive in any portions; either end takes a step when it can; the client may time out; the
      connection to the target succeeds (rep 0) or not; a target that is connected may send. */
  datatype Event = ArriveUp(n: nat) | ArriveDown(n: nat) | ClientStep | GiveUp | ProxyStep
                 | Connect(rep: uint8, ip: uint32, port: uint16) | Relay(data: seq<uint8>)

  function Fail(w: World, phase: nat): World {
    w.(client := Failed(phase))
  }

  /** `socks5Connect`, from one wait to the next. */
  function StepClient(c: Config, w: World): (t: World)
    requires w.Shaped()
    ensures t.Shaped()
  {
    var u := w.AtClient();
    match w.client
    case Hello => if c.TooLong() then Fail(w, 1) else w.(client := AwaitMethod, up := w.up + Greeting(c))
    case AwaitMethod =>
      if |u| < 2 then w
      else
        var v := w.(downRead := w.downRead + 2);
        if u[0] != 5 then Fail(v, 2)
        else if u[1] == 2 then
          (if c.Offers() then v.(client := AwaitAuth, up := w.up + Auth(c)) else Fail(v, 4))
        else if u[1] == 0 then v.(client := AwaitReply, up := w.up + Request(c.target))
        else Fail(v, 3)
    case AwaitAuth =>
      if |u| < 2 then w
      else
        var v := w.(downRead := w.downRead + 2);
        if u[1] != 0 then Fail(v, 6) else v.(client := AwaitReply, up := w.up + Request(c.target))
    case AwaitReply =>
      (match ParseReply(u)
       case More => w
       case Bad => Fail(w, 8)
       case Got(rep, n) =>
         var v := w.(downRead := w.downRead + n);
         if rep != 0 then Fail(v, 9) else v.(client := Tunnel))
    case _ => w
  }

  function GiveUpPhase(p: Client): nat {
    match p
    case AwaitMethod => 2
    case AwaitAuth => 5
    case _ => 8
  }

  /** The proxy's side of the handshake, from one reply to the next. */
  function StepProxy(decode: seq<uint8> -> string, p: Policy, w: World): (t: World)
    requires w.Shaped()
    ensures t.Shaped()
  {
    var v := w.AtProxy();
    match w.proxy
    case ReadGreeting =>
      (match ParseGreeting(v)
       case More => w
       case Bad => w.(proxy := Closed)
       case Got(methods, n) =>
         var want := if p.Open? then 0 else 2;
         var x := w.(upRead := w.upRead + n);
         if want !in methods then x.(proxy := Closed, down := w.down + [5, 0xff])
         else x.(proxy := if p.Open? then ReadRequest else ReadAuth, down := w.down + [5, want]))
    case ReadAuth =>
      (match ParseAuth(v)
       case Got(l, n) =>
         var x := w.(upRead := w.upRead + n);
         if LoginOk(decode, p, l) then x.(proxy := ReadRequest, down := w.down + [1, 0])
         else x.(proxy := Closed, down := w.down + [1, 1])
       case _ => w)
    case ReadRequest =>
      (match ParseRequest(v)
       case More => w
       case Bad => w.(proxy := Closed, down := w.down + if v[0] == 5 then Reply(8, 0, 0) else [])
       case Got(a, n) =>
         var x := w.(upRead := w.upRead + n);
         if a.cmd == 1 then x.(proxy := Connecting(a)) else x.(proxy := Closed, down := w.down + Reply(7, 0, 0)))
    case _ => w
  }

  predicate LoginOk(decode: seq<uint8> -> string, p: Policy, l: Login) {
    p.Password? && l.version == 1 && decode(l.user) == p.user && decode(l.password) == p.password
  }

  function Next(decode: seq<uint8> -> string, p: Policy, c: Config, w: World, e: Event): (t: World)
    requires w.Shaped()
    ensures t.Shaped()
  {
    match e
    case ArriveUp(n) => if w.upArrived + n <= |w.up| then w.(upArrived := w.upArrived + n) else w
    case ArriveDown(n) => if w.downArrived + n <= |w.down| then w.(downArrived := w.downArrived + n) else w
    case ClientStep => StepClient(c, w)
    case GiveUp => if w.client.AwaitMethod? || w.client.AwaitAuth? || w.client.AwaitReply? then Fail(w, GiveUpPhase(w.client)) else w
    case ProxyStep => StepProxy(decode, p, w)
    case Connect(rep, ip, port) =>
      if w.proxy.Connecting? then
        w.(down := w.down + Reply(rep, ip, port), proxy := if rep == 0 then Serving(w.proxy.asked) else Closed)
      else w
    case Relay(data) =>
      if w.proxy.Serving? then w.(down := w.down + data, tunnel := w.tunnel + data) else w
  }

  // --------------------------------------------------------------------- invariant

  /** Is the client let in? */
  predicate LetIn(decode: seq<uint8> -> string, p: Policy, c: Config) {
    p.Open? || (c.Offers() && LoginOk(decode, p, Login(1, c.User(), c.Secret())))
  }

  /** Exactly to an open proxy, or with a name and a secret that read, cut to 255 bytes, as the proxy's own. */
  lemma LetInExactly(decode: seq<uint8> -> string, p: Policy, c: Config)
    ensures LetIn(decode, p, c) <==>
      p.Open? || (c.username != [] && decode(Cut(c.username)) == p.user && decode(Cut(c.secret)) == p.password)
    ensures |c.username| <= 255 ==> Cut(c.username) == c.username
  {
  }

  /** All the client will send: the login only to a proxy that asks for it. */
  function Script(p: Policy, c: Config): seq<uint8>
  {
    Greeting(c) + (if p.Open? then [] else Auth(c)) + Request(c.target)
  }

  function BeforeRequest(p: Policy, c: Config): nat
  {
    |Greeting(c)| + if p.Open? then 0 else |Auth(c)|
  }

  /** What a proxy that lets the client in has answered by the time it reads the request. */
  function Welcome(p: Policy): seq<uint8> {
    if p.Open? then [5, 0] else [5, 2, 1, 0]
  }

  ghost predicate ClientInv(decode: seq<uint8> -> string, p: Policy, c: Config, w: World)
  {
    && w.up <= Script(p, c)
    && match w.client
       case Hello => w.up == [] && w.downRead == 0
       case AwaitMethod => w.up == Greeting(c) && w.downRead == 0
       case AwaitAuth => p.Password? && c.Offers() && |w.up| == BeforeRequest(p, c) && w.downRead == 2
       case AwaitReply => LetIn(decode, p, c) && w.up == Script(p, c) && w.downRead == |Welcome(p)|
       case Tunnel => w.downRead == |Welcome(p)| + 10
       case Failed(phase) => Reason(decode, p, c, w, phase)
  }

  /** Why the client stopped: it waited in vain, or the proxy turned it away in just this way. */
  ghost predicate Reason(decode: seq<uint8> -> string, p: Policy, c: Config, w: World, phase: nat) {
    || phase in {2, 5, 8}
    || (phase == 1 && c.TooLong())
    || (phase == 3 && p.Password? && !c.Offers())
    || (phase == 6 && p.Password? && c.Offers() && !LetIn(decode, p, c))
    || (phase == 9 && LetIn(decode, p, c) && w.proxy.Closed?)
  }

  ghost predicate ProxyInv(decode: seq<uint8> -> string, p: Policy, c: Config, w: World)
    requires w.Shaped()
  {
    match w.proxy
    case ReadGreeting => w.upRead == 0 && w.down == [] && w.tunnel == []
    case ReadAuth =>
      p.Password? && c.Offers() && w.upRead == |Greeting(c)| && w.down == [5, 2] && w.tunnel == []
    case ReadRequest =>
      LetIn(decode, p, c) && w.upRead == BeforeRequest(p, c) && w.down == Welcome(p) && w.tunnel == []
    case Connecting(a) =>
      LetIn(decode, p, c) && a == Wanted(c.target) && w.up == Script(p, c) && w.down == Welcome(p) && w.tunnel == []
    case Serving(a) =>
      && LetIn(decode, p, c) && a == Wanted(c.target) && w.up == Script(p, c)
      && |w.down| >= |Welcome(p)| + 10 && w.down[..|Welcome(p)|] == Welcome(p)
      && IsReply(w.down[|Welcome(p)|..|Welcome(p)| + 10], 0)
      && w.tunnel == w.down[|Welcome(p)| + 10..]
    case Closed => w.tunnel == [] && Refusal(decode, p, c, w.down)
  }

  ghost predicate IsReply(b: seq<uint8>, rep: uint8) {
    exists ip: uint32, port: uint16 :: b == Reply(rep, ip, port)
  }

  /** The ways the proxy turns the client away. */
  ghost predicate Refusal(decode: seq<uint8> -> string, p: Policy, c: Config, down: seq<uint8>) {
    || (p.Password? && !c.Offers() && down == [5, 0xff])
    || (p.Password? && c.Offers() && !LetIn(decode, p, c) && down == [5, 2, 1, 1])
    || (LetIn(decode, p, c) && exists rep: uint8 :: rep != 0 && Refused(p, down, rep))
  }

  ghost predicate Refused(p: Policy, down: seq<uint8>, rep: uint8) {
    |down| == |Welcome(p)| + 10 && down[..|Welcome(p)|] == Welcome(p) && IsReply(down[|Welcome(p)|..], rep)
  }

  ghost predicate Inv(decode: seq<uint8> -> string, p: Policy, c: Config, w: World) {
    && w.Shaped() && ClientInv(decode, p, c, w) && ProxyInv(decode, p, c, w)
    && (w.client.Tunnel? ==> w.proxy.Serving?)
    && (c.TooLong() ==> w.up == [])
  }

  // ----------------------------------------------------------------- what ends see

  /** The method the proxy selects, as the client sees it. */
  lemma MethodSeen(decode: seq<uint8> -> string, p: Policy, c: Config, w: World)
    requires Inv(decode, p, c, w) && w.client.AwaitMethod? && |w.AtClient()| >= 2
    ensures w.AtClient()[0] == 5
    ensures w.AtClient()[1] == if p.Open? then 0 else if c.Offers() then 2 else 0xff
  {
    hide Script, Greeting, Auth, Request, Reply, Wanted, LoginOk;
    assert w.AtClient()[..2] == w.down[..2];
    if w.proxy.Serving? || (w.proxy.Closed? && LetIn(decode, p, c)) {
      assert w.down[..|Welcome(p)|] == Welcome(p);
      assert w.down[..2] == Welcome(p)[..2];
    }
  }

  lemma LoginAnswerSeen(decode: seq<uint8> -> string, p: Policy, c: Config, w: World)
    requires Inv(decode, p, c, w) && w.client.AwaitAuth? && |w.AtClient()| >= 2
    ensures c.Offers() && w.AtClient()[1] == if LetIn(decode, p, c) then 0 else 1
  {
    hide Script, Greeting, Auth, Request, Reply, Wanted, LoginOk;
    assert w.AtClient()[1] == w.down[3];
    if w.proxy.Serving? || (w.proxy.Closed? && LetIn(decode, p, c)) {
      assert w.down[3] == w.down[..|Welcome(p)|][3];
    }
  }

  /** The reply, when it is complete, is ten bytes long and says whether the target is connected. */
  lemma ReplySeen(decode: seq<uint8> -> string, p: Policy, c: Config, w: World)
    requires Inv(decode, p, c, w) && w.client.AwaitReply?
    ensures match ParseReply(w.AtClient())
            case More => |w.AtClient()| < 10
            case Bad => false
            case Got(rep, n) => LetIn(decode, p, c) && n == 10 && (if rep == 0 then w.proxy.Serving? else w.proxy.Closed?)
  {
    hide Script, Greeting, Auth, Request, Reply, Wanted, LoginOk, ParseReply, Refusal;
    var n := |Welcome(p)|;
    if w.proxy.Serving? {
      var ip: uint32, port: uint16 :| w.down[n..n + 10] == Reply(0, ip, port);
      SliceStarts(w.down, n, w.downArrived, n + 10);
      ReplyArrives(0, ip, port, w.AtClient(), w.down[n + 10..]);
    } else if w.proxy.Closed? {
      RefusalSeen(decode, p, c, w);
    } else {
      assert w.AtClient() == [];
      NothingYet();
    }
  }

  lemma SliceStarts(s: seq<uint8>, i: nat, j: nat, m: nat)
    requires i <= j <= |s| && i <= m <= |s|
    ensures s[i..j] <= s[i..m] + s[m..]
  {
    assert s[i..m] + s[m..] == s[i..];
  }

  lemma NothingYet()
    ensures ParseReply([]) == More
  {
  }

  lemma RefusalSeen(decode: seq<uint8> -> string, p: Policy, c: Config, w: World)
    requires Inv(decode, p, c, w) && w.client.AwaitReply? && w.proxy.Closed?
    ensures match ParseReply(w.AtClient())
            case More => |w.AtClient()| < 10
            case Bad => false
            case Got(rep, n) => LetIn(decode, p, c) && n == 10 && rep != 0
  {
    hide Script, Greeting, Auth, Request, Reply, Wanted, LoginOk, ParseReply;
    var n := |Welcome(p)|;
    NothingYet();
    var rep: uint8 :| rep != 0 && Refused(p, w.down, rep);
    var ip: uint32, port: uint16 :| w.down[n..] == Reply(rep, ip, port);
    assert w.AtClient() <= Reply(rep, ip, port) + [];
    ReplyArrives(rep, ip, port, w.AtClient(), []);
  }

  /** What the client does with the method, the login's answer and the reply. */
  lemma MethodTaken(decode: seq<uint8> -> string, p: Policy, c: Config, w: World)
    requires Inv(decode, p, c, w) && w.client.AwaitMethod?
    ensures var t := StepClient(c, w);
            if |w.AtClient()| < 2 then t == w
            else if p.Open? then t == w.(downRead := 2, client := AwaitReply, up := Greeting(c) + Request(c.target))
            else if c.Offers() then t == w.(downRead := 2, client := AwaitAuth, up := Greeting(c) + Auth(c))
            else t == w.(downRead := 2, client := Failed(3))
  {
    hide Script, Greeting, Auth, Request, Reply, Wanted, LoginOk, Refusal, ProxyInv;
    if |w.AtClient()| >= 2 { MethodSeen(decode, p, c, w); }
  }

  lemma LoginAnswerTaken(decode: seq<uint8> -> string, p: Policy, c: Config, w: World)
    requires Inv(decode, p, c, w) && w.client.AwaitAuth?
    ensures var t := StepClient(c, w);
            if |w.AtClient()| < 2 then t == w
            else if LetIn(decode, p, c) then t == w.(downRead := 4, client := AwaitReply, up := w.up + Request(c.target))
            else t == w.(downRead := 4, client := Failed(6))
  {
    hide Script, Greeting, Auth, Request, Reply, Wanted, LoginOk, Refusal, ProxyInv;
    if |w.AtClient()| >= 2 { LoginAnswerSeen(decode, p, c, w); }
  }

  lemma ReplyTaken(decode: seq<uint8> -> string, p: Policy, c: Config, w: World)
    requires Inv(decode, p, c, w) && w.client.AwaitReply?
    ensures var t := StepClient(c, w);
            || t == w
            || (w.proxy.Serving? && t == w.(downRead := w.downRead + 10, client := Tunnel))
            || (w.proxy.Closed? && t == w.(downRead := w.downRead + 10, client := Failed(9)))
  {
    hide Script, Greeting, Auth, Request, Reply, Wanted, LoginOk, Refusal, ProxyInv, ParseReply;
    ReplySeen(decode, p, c, w);
  }

  lemma ClientKeeps(decode: seq<uint8> -> string, p: Policy, c: Config, w: World)
    requires Inv(decode, p, c, w)
    ensures Inv(decode, p, c, StepClient(c, w))
  {
    hide Greeting, Auth, Request, Wanted, LoginOk, StepClient, Refusal, IsReply;
    match w.client
    case Hello => Greeted(c, w);
    case AwaitMethod => MethodTaken(decode, p, c, w);
    case AwaitAuth => LoginAnswerTaken(decode, p, c, w);
    case AwaitReply => ReplyTaken(decode, p, c, w);
    case _ => Rests(c, w);
  }

  lemma Greeted(c: Config, w: World)
    requires w.Shaped() && w.client.Hello?
    ensures StepClient(c, w) == if c.TooLong() then Fail(w, 1) else w.(client := AwaitMethod, up := w.up + Greeting(c))
  {
  }

  lemma Rests(c: Config, w: World)
    requires w.Shaped() && (w.client.Tunnel? || w.client.Failed?)
    ensures StepClient(c, w) == w
  {
  }

  // ---------------------------------------------------------------------- the proxy

  /** The bytes at the proxy are the start of what is left of the script. */
  lemma AtProxyIsScript(p: Policy, c: Config, w: World)
    requires w.Shaped() && w.up <= Script(p, c)
    ensures w.AtProxy() <= Script(p, c)[w.upRead..]
    ensures |w.AtProxy()| >= |Script(p, c)| - w.upRead ==> w.up == Script(p, c)
  {
    hide Script;
  }

  lemma ScriptParts(p: Policy, c: Config)
    ensures Script(p, c) == Greeting(c) + Script(p, c)[|Greeting(c)|..]
    ensures p.Password? ==> Script(p, c)[|Greeting(c)|..] == Auth(c) + Request(c.target)
    ensures Script(p, c)[BeforeRequest(p, c)..] == Request(c.target) + []
    ensures |Script(p, c)| == BeforeRequest(p, c) + |Request(c.target)|
  {
    hide Greeting, Auth, Request;
  }

  /** What the proxy does with a greeting, a login and a request of this client. */
  lemma GreetingRead(decode: seq<uint8> -> string, p: Policy, c: Config, w: World)
    requires Inv(decode, p, c, w) && w.proxy.ReadGreeting?
    ensures var t := StepProxy(decode, p, w);
            if |w.AtProxy()| < |Greeting(c)| then t == w
            else t == w.(upRead := |Greeting(c)|,
              proxy := if p.Open? then ReadRequest else if c.Offers() then ReadAuth else Closed,
              down := [5, if p.Open? then 0 else if c.Offers() then 2 else 0xff])
  {
    hide ParseGreeting, ParseAuth, ParseRequest, Script, Refusal, Auth, Request, LetIn;
    AtProxyIsScript(p, c, w);
    ScriptParts(p, c);
    GreetingArrives(c, w.AtProxy(), Script(p, c)[|Greeting(c)|..]);
  }

  lemma AuthRead(decode: seq<uint8> -> string, p: Policy, c: Config, w: World)
    requires Inv(decode, p, c, w) && w.proxy.ReadAuth?
    ensures var t := StepProxy(decode, p, w);
            if |w.AtProxy()| < |Auth(c)| then t == w
            else t == w.(upRead := BeforeRequest(p, c), proxy := if LetIn(decode, p, c) then ReadRequest else Closed,
              down := [5, 2, 1, if LetIn(decode, p, c) then 0 else 1])
  {
    hide ParseGreeting, ParseAuth, ParseRequest, Script, Refusal, Auth, Request, Greeting, LoginOk;
    AtProxyIsScript(p, c, w);
    ScriptParts(p, c);
    AuthArrives(c, w.AtProxy(), Request(c.target));
  }

  lemma RequestRead(decode: seq<uint8> -> string, p: Policy, c: Config, w: World)
    requires Inv(decode, p, c, w) && w.proxy.ReadRequest?
    ensures var t := StepProxy(decode, p, w);
            if |w.AtProxy()| < |Request(c.target)| then t == w
            else w.up == Script(p, c) && t == w.(upRead := |Script(p, c)|, proxy := Connecting(Wanted(c.target)))
  {
    hide ParseGreeting, ParseAuth, ParseRequest, Script, Refusal, Auth, Request, Greeting, LoginOk;
    AtProxyIsScript(p, c, w);
    ScriptParts(p, c);
    RequestArrives(c.target, w.AtProxy(), []);
  }

  lemma ProxyKeeps(decode: seq<uint8> -> string, p: Policy, c: Config, w: World)
    requires Inv(decode, p, c, w)
    ensures Inv(decode, p, c, StepProxy(decode, p, w))
  {
    hide Auth, Request, Greeting, LoginOk, IsReply, Script, Refused, Wanted;
    match w.proxy
    case ReadGreeting => GreetingRead(decode, p, c, w);
    case ReadAuth => AuthRead(decode, p, c, w);
    case ReadRequest => RequestRead(decode, p, c, w);
    case _ =>
  }

  lemma ConnectKeeps(decode: seq<uint8> -> string, p: Policy, c: Config, w: World, rep: uint8, ip: uint32, port: uint16)
    requires Inv(decode, p, c, w) && w.proxy.Connecting?
    ensures Inv(decode, p, c, Next(decode, p, c, w, Connect(rep, ip, port)))
  {
    hide Script, Greeting, Auth, Request, LoginOk;
    var t := Next(decode, p, c, w, Connect(rep, ip, port));
    var r := Reply(rep, ip, port);
    assert t.down[|Welcome(p)|..] == r && t.down[..|Welcome(p)|] == Welcome(p);
    assert t.down[|Welcome(p)|..|Welcome(p)| + 10] == r;
    assert IsReply(r, rep);
    if rep != 0 {
      assert Refused(p, t.down, rep);
    }
  }

  lemma RelayKeeps(decode: seq<uint8> -> string, p: Policy, c: Config, w: World, data: seq<uint8>)
    requires Inv(decode, p, c, w)
    ensures Inv(decode, p, c, Next(decode, p, c, w, Relay(data)))
  {
    hide Script, Greeting, Auth, Request, LoginOk, Reply, IsReply, LetIn, Wanted, Refusal, ClientInv;
    SameClient(decode, p, c, w, Next(decode, p, c, w, Relay(data)));
    if w.proxy.Serving? {
      var t, n := Next(decode, p, c, w, Relay(data)), |Welcome(p)|;
      SameSlice(w.down, data, 0, n);
      SameSlice(w.down, data, n, n + 10);
      assert t.down[n + 10..] == w.down[n + 10..] + data;
    }
  }

  lemma SameClient(decode: seq<uint8> -> string, p: Policy, c: Config, w: World, t: World)
    requires w.client == t.client && w.up == t.up && w.downRead == t.downRead && w.proxy.Closed? == t.proxy.Closed?
    ensures ClientInv(decode, p, c, w) ==> ClientInv(decode, p, c, t)
  {
  }

  lemma SameSlice(a: seq<uint8>, b: seq<uint8>, i: nat, j: nat)
    requires i <= j <= |a|
    ensures (a + b)[i..j] == a[i..j]
  {
  }

  lemma NextKeeps(decode: seq<uint8> -> string, p: Policy, c: Config, w: World, e: Event)
    requires Inv(decode, p, c, w)
    ensures Inv(decode, p, c, Next(decode, p, c, w, e))
  {
    hide Script, Greeting, Auth, Request, LoginOk, Reply, IsReply, Refusal, StepClient, StepProxy;
    match e
    case ClientStep => ClientKeeps(decode, p, c, w);
    case ProxyStep => ProxyKeeps(decode, p, c, w);
    case Connect(rep, ip, port) => if w.proxy.Connecting? { ConnectKeeps(decode, p, c, w, rep, ip, port); }
    case Relay(data) => RelayKeeps(decode, p, c, w, data);
    case _ =>
  }

  // ------------------------------------------------------------------------- runs

  function Run(decode: seq<uint8> -> string, p: Policy, c: Config, w: World, es: seq<Event>): (t: World)
    requires w.Shaped()
    ensures t.Shaped()
    decreases |es|
  {
    if es == [] then w else Run(decode, p, c, Next(decode, p, c, w, es[0]), es[1..])
  }

  lemma {:induction false} RunKeeps(decode: seq<uint8> -> string, p: Policy, c: Config, w: World, es: seq<Event>)
    requires Inv(decode, p, c, w)
    ensures Inv(decode, p, c, Run(decode, p, c, w, es))
    decreases |es|
  {
    hide ClientInv, ProxyInv, Next;
    if es != [] {
      NextKeeps(decode, p, c, w, es[0]);
      RunKeeps(decode, p, c, Next(decode, p, c, w, es[0]), es[1..]);
    }
  }

  const START := World(Hello, [], 0, 0, ReadGreeting, [], 0, 0, [])

  /** Over every run, however the bytes arrive: the proxy connects to exactly the client's target, and only
      for a client it lets in; the client reports success only when the proxy is connected to that target,
      and has then consumed exactly the handshake, so that all it has yet to read is the tunnel's data. */
  lemma HandshakeIsExact(decode: seq<uint8> -> string, p: Policy, c: Config, es: seq<Event>)
    ensures var w := Run(decode, p, c, START, es);
            && (w.proxy.Connecting? || w.proxy.Serving? ==> w.proxy.asked == Wanted(c.target) && LetIn(decode, p, c))
            && (w.client.Tunnel? ==> w.proxy.Serving? && w.down[w.downRead..] == w.tunnel)
            && (w.client.Failed? ==> Reason(decode, p, c, w, w.client.phase))
  {
    hide Greeting, Auth, Request, LoginOk, Reply, IsReply, Refusal, Next;
    RunKeeps(decode, p, c, START, es);
  }

  /** And it cannot get stuck: once everything sent has arrived, one of the ends can move. */
  lemma NoDeadlock(decode: seq<uint8> -> string, p: Policy, c: Config, w: World)
    requires Inv(decode, p, c, w) && w.upArrived == |w.up| && w.downArrived == |w.down|
    requires !w.client.Tunnel? && !w.client.Failed?
    ensures w.proxy.Connecting? || StepClient(c, w).client != w.client || StepProxy(decode, p, w).proxy != w.proxy
  {
    hide Auth, Request, Greeting, LoginOk, Script, Reply, StepProxy, ParseReply, IsReply;
    ScriptParts(p, c);
    match w.proxy
    case ReadGreeting => GreetingRead(decode, p, c, w);
    case ReadAuth => AuthRead(decode, p, c, w);
    case ReadRequest => RequestRead(decode, p, c, w);
    case _ => if w.client.AwaitReply? { ReplySeen(decode, p, c, w); }
  }
}
