/** The SOCKS5 client of gateway.c, for plain SOCKS5. The messages are those of
    sections 3, 4 and 6 of RFC 1928 and section 2 of RFC 1929. Bytes are
    characters, as in the source, where `char` is taken to be signed. */
module Socks5 {
  import opened Text

  /** The size of `cbuf` and of `sbuf`. */
  const BUFFER_SIZE: nat := 300

  const REPLY_IPV4: nat := 10
  const REPLY_IPV6: nat := 22

  function Byte(n: nat): (c: char)
    ensures c as int == n % 256
  {
    (n % 256) as char
  }

  datatype Credentials = Credentials(username: string, password: string)

  /** The forwarder's credentials, if it has both. */
  function Auth(username: Option<string>, password: Option<string>): Option<Credentials> {
    if username.Some? && password.Some? then Some(Credentials(username.value, password.value)) else None
  }

  // ----- Addresses ----------------------------------------------------------------

  predicate IsDigit(c: char) {
    '0' <= c <= '9'
  }

  function DigitValue(c: char): (v: nat)
    requires IsDigit(c)
    ensures v < 10
  {
    c as int - '0' as int
  }

  function DecimalValue(digits: string): nat
    requires forall i | 0 <= i < |digits| :: IsDigit(digits[i])
  {
    if digits == [] then 0
    else 10 * DecimalValue(digits[..|digits| - 1]) + DigitValue(digits[|digits| - 1])
  }

  const WORD: nat := 0x1_0000_0000

  /** `sscanf(s, "%u", &value)`; None unless it returns 1. */
  function ScanUnsigned(s: string): Option<nat> {
    var text := TrimLeft(s);
    var signed := text != [] && (text[0] == '-' || text[0] == '+');
    var number := if signed then text[1..] else text;
    var n := RunLength(number, IsDigit);
    if n == 0 then None
    else
      var value := DecimalValue(number[..n]);
      Some(if value >= WORD * WORD then WORD - 1
           else (if signed && text[0] == '-' then -(value as int) else value) % WORD)
  }

  /** `strstr(s, ".")`; the length of s if there is none. */
  function DotPosition(s: string): (n: nat)
    ensures n <= |s| && (n < |s| ==> s[n] == '.') && forall i | 0 <= i < n :: s[i] != '.'
  {
    if s == [] || s[0] == '.' then 0 else 1 + DotPosition(s[1..])
  }

  /** The bytes of the first octets of a dotted address. */
  function Octets(s: string, count: nat): (bytes: Option<string>)
    requires count > 0
    ensures bytes.Some? ==> |bytes.value| == count
  {
    var value := ScanUnsigned(s);
    if value.None? || value.value > 255 then None
    else if count == 1 then Some([Byte(value.value)])
    else
      var dot := DotPosition(s);
      if dot == |s| then None
      else
        match Octets(s[dot + 1..], count - 1)
        case None => None
        case Some(more) => Some([Byte(value.value)] + more)
  }

  /** `Octets`, seen one octet at a time. */
  lemma OctetsStep(s: string, count: nat)
    requires count > 0
    ensures var value, dot := ScanUnsigned(s), DotPosition(s);
            Octets(s, count)
            == if value.None? || value.value > 255 || (count > 1 && dot == |s|) then None
               else if count == 1 then Some([Byte(value.value)])
               else if Octets(s[dot + 1..], count - 1).None? then None
               else Some([Byte(value.value)] + Octets(s[dot + 1..], count - 1).value)
  {
    hide ScanUnsigned;
  }

  /** What is converted so far, and what is still to be converted. */
  ghost predicate Converting(address: string, done: string, rest: Option<string>) {
    Octets(address, 4) == if rest.None? then None else Some(done + rest.value)
  }

  lemma NothingConverted(address: string)
    ensures Converting(address, [], Octets(address, 4))
  {
    hide Octets;
    if Octets(address, 4).Some? {
      assert [] + Octets(address, 4).value == Octets(address, 4).value;
    }
  }

  lemma ConvertingMore(address: string, done: string, c: char, more: Option<string>)
    requires Converting(address, done, if more.None? then None else Some([c] + more.value))
    ensures Converting(address, done + [c], more)
  {
    hide Octets;
    if more.Some? {
      assert done + ([c] + more.value) == done + [c] + more.value;
    }
  }

  /** `convert_ipv4_address_to_bytes`: writes to a place in the client's buffer. */
  method ConvertIpv4AddressToBytes(address: string, buf: array<char>, at: nat) returns (ok: bool)
    requires at + 4 <= buf.Length
    modifies buf
    ensures ok <==> Octets(address, 4).Some?
    ensures ok ==> buf[at..at + 4] == Octets(address, 4).value
    ensures buf[..at] == old(buf[..at])
  {
    hide ScanUnsigned, Octets;
    var p, i := address, 0;
    ghost var done, rest := [], Octets(address, 4);
    NothingConverted(address);
    while i < 4
      invariant i <= 4 && buf[..at] == old(buf[..at]) && done == buf[at..at + i]
      invariant rest == if i < 4 then Octets(p, 4 - i) else Some([])
      invariant Converting(address, done, rest)
    {
      OctetsStep(p, 4 - i);
      var value := ScanUnsigned(p);
      if value.None? || value.value > 255 {
        return false;
      }
      buf[at + i] := Byte(value.value);
      if i < 3 {
        var dot := DotPosition(p);
        if dot == |p| {
          return false;
        }
        p := p[dot + 1..];
      }
      i := i + 1;
      rest := if i < 4 then Octets(p, 4 - i) else Some([]);
      assert [Byte(value.value)] + [] == [Byte(value.value)];
      ConvertingMore(address, done, Byte(value.value), rest);
      done := done + [Byte(value.value)];
    }
    ok := true;
  }

  // ----- Messages from the client ------------------------------------------------------

  function Greeting(auth: Option<Credentials>): string {
    if auth.Some? then [Byte(5), Byte(2), Byte(2), Byte(0)] else [Byte(5), Byte(1), Byte(0)]
  }

  function AuthMessage(auth: Credentials): string {
    [Byte(1), Byte(|auth.username|)] + auth.username + [Byte(|auth.password|)] + auth.password
  }

  /** The two bytes of a port, the higher one first. */
  function PortBytes(port: int): string {
    [Byte((port / 256) % 256), Byte(port % 256)]
  }

  /** A host that goes out as an IPv4 address; other hosts go out as names. */
  predicate AsAddress(host: string, isAddress: string -> bool) {
    isAddress(host) && ':' !in host
  }

  function Request(host: string, port: int, isAddress: string -> bool): Option<string> {
    if AsAddress(host, isAddress) then
      match Octets(host, 4)
      case None => None
      case Some(bytes) => Some([Byte(5), Byte(1), Byte(0), Byte(1)] + bytes + PortBytes(port))
    else Some([Byte(5), Byte(1), Byte(0), Byte(3), Byte(|host|)] + host + PortBytes(port))
  }

  // ----- The dialogue ----------------------------------------------------------------------

  /** A connection: the messages sent so far, what later reads can find, and how many more
      writes succeed. A read finds no more than one arrival; an empty one stands for a failed read. */
  datatype Dialogue = Broken | Going(sent: seq<string>, arrivals: seq<string>, writes: nat) {
    function Say(message: string): Dialogue {
      if Broken? || writes == 0 then Broken else Going(sent + [message], arrivals, writes - 1)
    }

    /** What a read of at most length bytes finds. */
    function Heard(length: nat): (data: string)
      ensures |data| <= length
    {
      if Broken? || arrivals == [] then [] else if |arrivals[0]| <= length then arrivals[0] else arrivals[0][..length]
    }

    function Hear(length: nat): Dialogue {
      if Broken? || arrivals == [] then this
      else if |arrivals[0]| <= length then this.(arrivals := arrivals[1..])
      else this.(arrivals := [arrivals[0][length..]] + arrivals[1..])
    }
  }

  /** Section 2 of RFC 1929, after the server has chosen it. */
  function Authenticated(d: Dialogue, auth: Option<Credentials>): Dialogue {
    if auth.None? || |auth.value.username| + |auth.value.password| + 3 > BUFFER_SIZE then Broken
    else
      var said := d.Say(AuthMessage(auth.value));
      var reply := said.Heard(BUFFER_SIZE);
      if |reply| != 2 || reply[1] != Byte(0) then Broken else said.Hear(BUFFER_SIZE)
  }

  /** Section 3 of RFC 1928. */
  function Negotiated(d: Dialogue, auth: Option<Credentials>): Dialogue {
    var said := d.Say(Greeting(auth));
    var reply := said.Heard(BUFFER_SIZE);
    if |reply| != 2 || reply[0] != Byte(5) then Broken
    else if reply[1] == Byte(2) then Authenticated(said.Hear(BUFFER_SIZE), auth)
    else if reply[1] != Byte(0) then Broken
    else said.Hear(BUFFER_SIZE)
  }

  /** Section 4 of RFC 1928. */
  function Requested(d: Dialogue, host: string, port: int, isAddress: string -> bool): (r: Dialogue)
    ensures d.Broken? ==> r.Broken?
  {
    match Request(host, port, isAddress)
    case None => Broken
    case Some(message) => d.Say(message)
  }

  /** The number of bytes after the first ten of a reply; None if the client gives up. */
  function BytesLeft(reply: string): Option<nat>
    requires |reply| == REPLY_IPV4
  {
    var domainLength := if reply[4] as int < 128 then reply[4] as int else reply[4] as int - 256;
    if reply[3] == Byte(4) then Some(REPLY_IPV6 - REPLY_IPV4)
    else if reply[3] == Byte(3) then
      var left := 5 + domainLength + 2 - REPLY_IPV4;
      if left <= 0 || BUFFER_SIZE < left then None else Some(left)
    else if reply[3] == Byte(1) then Some(0)
    else None
  }

  /** Section 6 of RFC 1928. */
  function Answered(d: Dialogue): (r: Dialogue)
    ensures d.Broken? ==> r.Broken?
  {
    var reply := d.Heard(REPLY_IPV4);
    if |reply| != REPLY_IPV4 || reply[0] != Byte(5) || reply[2] != Byte(0) || reply[1] != Byte(0) then Broken
    else
      var now := d.Hear(REPLY_IPV4);
      match BytesLeft(reply)
      case None => Broken
      case Some(left) =>
        if left == 0 then now
        else if |now.Heard(left)| != left then Broken
        else now.Hear(left)
  }

  /** `socks5_connect`, once the gateway has been reached. */
  function Connected(d: Dialogue, auth: Option<Credentials>, host: string, port: int,
                     isAddress: string -> bool): Dialogue {
    if |host| > 255 then Broken
    else Answered(Requested(Negotiated(d, auth), host, port, isAddress))
  }

  // ----- When the client gets through -----------------------------------------------------------

  /** The reply is there and grants the request: ten bytes are found at once, and the rest of a longer
      address at the next read. */
  ghost predicate Granted(arrivals: seq<string>) {
    && arrivals != [] && |arrivals[0]| >= 10
    && arrivals[0][0] as int == 5 && arrivals[0][1] as int == 0 && arrivals[0][2] as int == 0
    && var kind, length := arrivals[0][3] as int, arrivals[0][4] as int;
       || kind == 1
       || (kind == 4 && MoreArrives(arrivals, 12))
       || (kind == 3 && 4 <= length <= 127 && MoreArrives(arrivals, length - 3))
  }

  /** The read after the first ten bytes finds n more. */
  ghost predicate MoreArrives(arrivals: seq<string>, n: nat)
    requires arrivals != [] && |arrivals[0]| >= 10
  {
    if |arrivals[0]| > 10 then |arrivals[0]| >= 10 + n else |arrivals| > 1 && |arrivals[1]| >= n
  }

  lemma AnsweredWhenGranted(d: Dialogue)
    requires d.Going? && forall i | 0 <= i < |d.arrivals| :: AreBytes(d.arrivals[i])
    ensures Answered(d).Going? <==> Granted(d.arrivals)
  {
    if d.arrivals != [] && |d.arrivals[0]| >= 10 {
      var head := d.Heard(REPLY_IPV4);
      assert forall i | 0 <= i < 10 :: head[i] == d.arrivals[0][i];
    }
  }

  /** The server chooses no authentication, or takes the credentials. */
  ghost predicate LetsIn(arrivals: seq<string>, auth: Option<Credentials>) {
    && arrivals != [] && |arrivals[0]| == 2 && arrivals[0][0] as int == 5
    && (arrivals[0][1] as int == 0
        || (&& arrivals[0][1] as int == 2 && auth.Some?
            && |auth.value.username| + |auth.value.password| <= 297
            && |arrivals| > 1 && |arrivals[1]| == 2 && arrivals[1][1] as int == 0))
  }

  /** The client gets through exactly if the server lets it in, the host is not too long and can be sent,
      every message is written, and the reply that follows grants the request. */
  lemma WhenConnected(d: Dialogue, auth: Option<Credentials>, host: string, port: int, isAddress: string -> bool)
    requires d.Going? && forall i | 0 <= i < |d.arrivals| :: AreBytes(d.arrivals[i])
    ensures Connected(d, auth, host, port, isAddress).Going?
       <==> && |host| <= 255 && (isAddress(host) && ':' !in host ==> Octets(host, 4).Some?)
            && LetsIn(d.arrivals, auth)
            && var asked := if d.arrivals[0][1] as int == 2 then 2 else 1;
               d.writes > asked && Granted(d.arrivals[asked..])
  {
    hide Octets, Greeting, AuthMessage, Answered, Granted;
    NegotiatedWhenLetIn(d, auth);
    var asked := Requested(Negotiated(d, auth), host, port, isAddress);
    if asked.Going? {
      AnsweredWhenGranted(asked);
    }
  }

  lemma NegotiatedWhenLetIn(d: Dialogue, auth: Option<Credentials>)
    requires d.Going?
    ensures var asked := if d.arrivals != [] && |d.arrivals[0]| == 2 && d.arrivals[0][1] as int == 2 then 2 else 1;
            && (Negotiated(d, auth).Going? <==> LetsIn(d.arrivals, auth) && d.writes >= asked)
            && (Negotiated(d, auth).Going? ==>
                 Negotiated(d, auth).writes == d.writes - asked && Negotiated(d, auth).arrivals == d.arrivals[asked..])
  {
    hide Greeting, AuthMessage;
  }

  // ----- What the server makes of the messages ------------------------------------------------

  /** The methods of a version identifier message: section 3 of RFC 1928. */
  function ReadGreeting(m: string): Option<string> {
    if |m| < 2 || m[0] != Byte(5) || |m| != 2 + m[1] as int then None else Some(m[2..])
  }

  /** Section 2 of RFC 1929. */
  function ReadAuth(m: string): Option<Credentials> {
    if |m| < 2 || m[0] != Byte(1) || |m| < 2 + m[1] as int + 1 then None
    else
      var n := 2 + m[1] as int;
      if |m| != n + 1 + m[n] as int then None else Some(Credentials(m[2..n], m[n + 1..]))
  }

  datatype Address = Ipv4(octets: string) | Domain(name: string) | Ipv6(octets: string)

  /** An address after its type, and what follows it: section 5 of RFC 1928. */
  function ReadAddress(s: string): (r: Option<(Address, string)>)
    ensures r.Some? ==> |r.value.1| < |s|
  {
    if |s| < 2 then None
    else if s[0] == Byte(1) then if |s| < 5 then None else Some((Ipv4(s[1..5]), s[5..]))
    else if s[0] == Byte(3) then
      var n := 2 + s[1] as int;
      if |s| < n then None else Some((Domain(s[2..n]), s[n..]))
    else if s[0] == Byte(4) then if |s| < 17 then None else Some((Ipv6(s[1..17]), s[17..]))
    else None
  }

  datatype Target = Target(address: Address, port: nat)

  /** A CONNECT request: section 4 of RFC 1928. */
  function ReadRequest(m: string): Option<Target> {
    if |m| < 4 || m[0] != Byte(5) || m[1] != Byte(1) || m[2] != Byte(0) then None
    else
      match ReadAddress(m[3..])
      case Some((address, port)) =>
        if |port| != 2 then None else Some(Target(address, port[0] as int * 256 + port[1] as int))
      case None => None
  }

  /** The length of the reply at the front of what the server sends: section 6 of RFC 1928. */
  function ReplyLength(s: string): (n: Option<nat>)
    ensures n.Some? ==> n.value <= |s|
  {
    if |s| < 4 || s[0] != Byte(5) || s[2] != Byte(0) then None
    else
      match ReadAddress(s[3..])
      case Some((_, rest)) => if |rest| < 2 then None else Some(|s| - |rest| + 2)
      case None => None
  }

  lemma GreetingIsRead(auth: Option<Credentials>)
    ensures ReadGreeting(Greeting(auth)) == Some(if auth.Some? then [Byte(2), Byte(0)] else [Byte(0)])
  {}

  /** Credentials reach the server as they are exactly if both are at most 255 bytes long. */
  lemma AuthIsRead(auth: Credentials)
    ensures ReadAuth(AuthMessage(auth)) == Some(auth) <==> |auth.username| <= 255 && |auth.password| <= 255
  {
    var m, u, p := AuthMessage(auth), auth.username, auth.password;
    assert |m| == 3 + |u| + |p|;
    if |u| <= 255 {
      assert m[2..2 + |u|] == u && m[2 + |u|] == Byte(|p|);
      assert m[3 + |u|..] == p;
    }
  }

  lemma PortIsRead(port: nat)
    requires port < 0x1_0000
    ensures PortBytes(port)[0] as int == port / 256 && PortBytes(port)[1] as int == port % 256
  {}

  lemma AddressIsRead(bytes: string, rest: string)
    requires |bytes| == 4
    ensures ReadAddress([Byte(1)] + bytes + rest) == Some((Ipv4(bytes), rest))
  {
    var s := [Byte(1)] + bytes + rest;
    assert s[1..5] == bytes && s[5..] == rest;
  }

  lemma NameIsRead(name: string, rest: string)
    requires |name| <= 255
    ensures ReadAddress([Byte(3), Byte(|name|)] + name + rest) == Some((Domain(name), rest))
  {
    var s := [Byte(3), Byte(|name|)] + name + rest;
    assert s[2..2 + |name|] == name && s[2 + |name|..] == rest;
  }

  /** The target as a server should understand it. */
  ghost function TargetOf(host: string, port: nat, isAddress: string -> bool): Target
    requires AsAddress(host, isAddress) ==> Octets(host, 4).Some?
  {
    Target(if AsAddress(host, isAddress) then Ipv4(Octets(host, 4).value) else Domain(host), port)
  }

  /** A request reaches the server with its host and port, within the client's buffer. */
  lemma RequestIsRead(host: string, port: nat, isAddress: string -> bool)
    requires |host| <= 255 && port < 0x1_0000 && Request(host, port, isAddress).Some?
    ensures AsAddress(host, isAddress) ==> Octets(host, 4).Some?
    ensures ReadRequest(Request(host, port, isAddress).value) == Some(TargetOf(host, port, isAddress))
    ensures |Request(host, port, isAddress).value| <= BUFFER_SIZE
  {
    hide Octets, ReadAddress;
    var m := Request(host, port, isAddress).value;
    PortIsRead(port);
    if AsAddress(host, isAddress) {
      AddressIsRead(Octets(host, 4).value, PortBytes(port));
      assert m[3..] == [Byte(1)] + Octets(host, 4).value + PortBytes(port);
    } else {
      NameIsRead(host, PortBytes(port));
      assert m[3..] == [Byte(3), Byte(|host|)] + host + PortBytes(port);
    }
  }

  /** The messages of a dialogue that ended well: greeting, credentials if the server asked for them, request. */
  lemma SentMessages(d: Dialogue, auth: Option<Credentials>, host: string, port: int, isAddress: string -> bool)
    requires d.Going? && Connected(d, auth, host, port, isAddress).Going?
    ensures Request(host, port, isAddress).Some?
    ensures var sent, request := Connected(d, auth, host, port, isAddress).sent, Request(host, port, isAddress).value;
            || sent == d.sent + [Greeting(auth), request]
            || (auth.Some? && sent == d.sent + [Greeting(auth), AuthMessage(auth.value), request])
  {
    hide Request, Greeting, AuthMessage, BytesLeft;
  }

  // ----- What is read from the server ---------------------------------------------------------

  /** All the bytes that are still to come. */
  function Stream(arrivals: seq<string>): string {
    if arrivals == [] then [] else arrivals[0] + Stream(arrivals[1..])
  }

  lemma HearTakes(d: Dialogue, length: nat)
    requires d.Going?
    ensures d.Hear(length).Going? && d.Hear(length).sent == d.sent && d.Hear(length).writes == d.writes
    ensures Stream(d.arrivals) == d.Heard(length) + Stream(d.Hear(length).arrivals)
  {
    if d.arrivals != [] && |d.arrivals[0]| > length {
      assert d.arrivals[0] == d.arrivals[0][..length] + d.arrivals[0][length..];
      assert ([d.arrivals[0][length..]] + d.arrivals[1..])[1..] == d.arrivals[1..];
    }
  }

  ghost predicate AreBytes(s: string) {
    forall i | 0 <= i < |s| :: s[i] as int < 256
  }

  lemma LengthOfReply(s: string)
    requires |s| >= REPLY_IPV4 && s[0] == Byte(5) && s[2] == Byte(0)
    ensures s[3] == Byte(1) ==> ReplyLength(s) == Some(REPLY_IPV4)
    ensures s[3] == Byte(4) && |s| >= REPLY_IPV6 ==> ReplyLength(s) == Some(REPLY_IPV6)
    ensures s[3] == Byte(3) && |s| >= 7 + s[4] as int ==> ReplyLength(s) == Some(7 + s[4] as int)
  {}

  /** The bytes that are read after the request are one whole reply, whatever its address type. */
  lemma OneWholeReply(d: Dialogue)
    requires d.Going? && Answered(d).Going? && AreBytes(Stream(d.arrivals))
    ensures var s := Stream(d.arrivals);
            && ReplyLength(s).Some? && s[1] == Byte(0)
            && Stream(Answered(d).arrivals) == s[ReplyLength(s).value..]
  {
    hide Stream, ReplyLength;
    var s, head := Stream(d.arrivals), d.Heard(REPLY_IPV4);
    HearTakes(d, REPLY_IPV4);
    assert forall i | 0 <= i < REPLY_IPV4 :: s[i] == head[i];
    var now, left := d.Hear(REPLY_IPV4), BytesLeft(head).value;
    if left > 0 {
      HearTakes(now, left);
      assert s == head + now.Heard(left) + Stream(now.Hear(left).arrivals);
    }
    LengthOfReply(s);
  }

  /** A granting reply is understood exactly if the first read finds ten bytes, a domain name in it has
      4 to 127 bytes, and one more read finds all the rest. */
  lemma WhichRepliesAreUnderstood(d: Dialogue)
    requires d.Going? && ReplyLength(Stream(d.arrivals)).Some? && AreBytes(Stream(d.arrivals))
    requires Stream(d.arrivals)[1] == Byte(0)
    ensures var s, left := Stream(d.arrivals), ReplyLength(Stream(d.arrivals)).value - REPLY_IPV4;
            Answered(d).Going?
            <==> && |d.Heard(REPLY_IPV4)| == REPLY_IPV4
                 && (s[3] == Byte(3) ==> 4 <= s[4] as int <= 127)
                 && (left > 0 ==> |d.Hear(REPLY_IPV4).Heard(left)| == left)
  {
    hide Stream, ReplyLength;
    var s, head := Stream(d.arrivals), d.Heard(REPLY_IPV4);
    ReplyIsLong(s);
    HearTakes(d, REPLY_IPV4);
    assert forall i | 0 <= i < |head| :: s[i] == head[i];
  }

  lemma ReplyIsLong(s: string)
    requires ReplyLength(s).Some?
    ensures |s| >= 5 && s[0] == Byte(5) && s[2] == Byte(0)
    ensures || (s[3] == Byte(1) && ReplyLength(s) == Some(REPLY_IPV4))
            || (s[3] == Byte(3) && ReplyLength(s) == Some(7 + s[4] as nat))
            || (s[3] == Byte(4) && ReplyLength(s) == Some(REPLY_IPV6))
  {}

  /** Before that, exactly the server's choice of a method and its answer to the credentials are read. */
  lemma ReadsNoMore(d: Dialogue, auth: Option<Credentials>, host: string, port: int, isAddress: string -> bool)
    requires d.Going? && d.sent == [] && Connected(d, auth, host, port, isAddress).Going?
    requires AreBytes(Stream(d.arrivals))
    ensures var s, end := Stream(d.arrivals), Connected(d, auth, host, port, isAddress);
            var before := 2 * (|end.sent| - 1);
            && 2 <= before <= |s| && ReplyLength(s[before..]).Some?
            && Stream(end.arrivals) == s[before..][ReplyLength(s[before..]).value..]
  {
    hide Stream, ReplyLength, Greeting, AuthMessage, Answered, Negotiated, Request;
    var asked := Negotiated(d, auth);
    NegotiationReads(d, auth);
    OneWholeReply(Requested(asked, host, port, isAddress));
    AnsweredSendsNothing(Requested(asked, host, port, isAddress));
  }

  lemma AnsweredSendsNothing(d: Dialogue)
    requires Answered(d).Going?
    ensures d.Going? && Answered(d).sent == d.sent
  {}

  lemma NegotiationReads(d: Dialogue, auth: Option<Credentials>)
    requires d.Going? && d.sent == [] && Negotiated(d, auth).Going?
    ensures var s, end := Stream(d.arrivals), Negotiated(d, auth);
            && 1 <= |end.sent| <= 2 && 2 * |end.sent| <= |s| && Stream(end.arrivals) == s[2 * |end.sent|..]
            && (|end.sent| == 2 <==> s[1] == Byte(2))
  {
    hide Stream, Greeting, AuthMessage;
    var said := d.Say(Greeting(auth));
    HearTakes(said, BUFFER_SIZE);
    assert Stream(d.arrivals)[1] == said.Heard(BUFFER_SIZE)[1];
    if said.Heard(BUFFER_SIZE)[1] == Byte(2) {
      HearTakes(said.Hear(BUFFER_SIZE).Say(AuthMessage(auth.value)), BUFFER_SIZE);
    }
  }

  /** When the client has connected, a server that reads its messages finds the method list, the
      configured credentials exactly if it has chosen that method, and the target. */
  lemma ServerUnderstands(d: Dialogue, auth: Option<Credentials>, host: string, port: nat, isAddress: string -> bool)
    requires d.Going? && d.sent == [] && Connected(d, auth, host, port, isAddress).Going? && port < 0x1_0000
    requires auth.Some? ==> |auth.value.username| <= 255 && |auth.value.password| <= 255
    ensures AsAddress(host, isAddress) ==> Octets(host, 4).Some?
    ensures var sent := Connected(d, auth, host, port, isAddress).sent;
            && 2 <= |sent| <= 3 && (|sent| == 3 ==> auth.Some? && ReadAuth(sent[1]) == auth)
            && |Stream(d.arrivals)| >= 2 && (|sent| == 3 <==> Stream(d.arrivals)[1] == Byte(2))
            && ReadGreeting(sent[0]) == Some(if auth.Some? then [Byte(2), Byte(0)] else [Byte(0)])
            && ReadRequest(sent[|sent| - 1]) == Some(TargetOf(host, port, isAddress))
  {
    hide Request, Greeting, AuthMessage, ReadAuth, ReadGreeting, ReadRequest, Negotiated, Requested, Answered, Octets;
    SentMessages(d, auth, host, port, isAddress);
    ChoiceIsFollowed(d, auth, host, port, isAddress);
    GreetingIsRead(auth);
    RequestIsRead(host, port, isAddress);
    if auth.Some? {
      AuthIsRead(auth.value);
    }
  }

  lemma ChoiceIsFollowed(d: Dialogue, auth: Option<Credentials>, host: string, port: int, isAddress: string -> bool)
    requires d.Going? && d.sent == [] && Connected(d, auth, host, port, isAddress).Going?
    ensures var sent := Connected(d, auth, host, port, isAddress).sent;
            |Stream(d.arrivals)| >= 2 && (|sent| == 3 <==> Stream(d.arrivals)[1] == Byte(2))
  {
    hide Stream, Greeting, AuthMessage, Answered, Negotiated, Request;
    NegotiationReads(d, auth);
    AnsweredSendsNothing(Requested(Negotiated(d, auth), host, port, isAddress));
  }

  // ----- Addresses as text ---------------------------------------------------------------------------

  function Decimal(n: nat): (s: string)
    ensures s != [] && forall i | 0 <= i < |s| :: IsDigit(s[i])
  {
    var last := [('0' as int + n % 10) as char];
    if n < 10 then last else Decimal(n / 10) + last
  }

  lemma {:induction false} DecimalIsRead(n: nat)
    ensures DecimalValue(Decimal(n)) == n
  {
    if n >= 10 {
      DecimalIsRead(n / 10);
      assert Decimal(n)[..|Decimal(n)| - 1] == Decimal(n / 10);
    } else {
      assert Decimal(n)[..0] == [];
    }
  }

  lemma ScanDecimal(n: nat, rest: string)
    requires n < WORD && (rest == [] || rest[0] == '.')
    ensures ScanUnsigned(Decimal(n) + rest) == Some(n)
  {
    hide DecimalValue, Decimal, RunLength;
    var s := Decimal(n) + rest;
    RunLengthOf(Decimal(n), rest, IsDigit);
    DecimalIsRead(n);
    assert s[..|Decimal(n)|] == Decimal(n);
  }

  /** Numbers in dotted form, as in an address. */
  function Dotted(numbers: seq<nat>): string {
    if numbers == [] then []
    else if |numbers| == 1 then Decimal(numbers[0])
    else Decimal(numbers[0]) + ['.'] + Dotted(numbers[1..])
  }

  function BytesOf(numbers: seq<nat>): string {
    if numbers == [] then [] else [Byte(numbers[0])] + BytesOf(numbers[1..])
  }

  lemma {:induction false} DotAfter(digits: string, rest: string)
    requires forall i | 0 <= i < |digits| :: IsDigit(digits[i])
    ensures DotPosition(digits + ['.'] + rest) == |digits|
  {
    if digits != [] {
      assert (digits + ['.'] + rest)[1..] == digits[1..] + ['.'] + rest;
      DotAfter(digits[1..], rest);
    }
  }

  lemma LastOctet(s: string, n: nat)
    requires ScanUnsigned(s) == Some(n)
    ensures Octets(s, 1) == if n < 256 then Some([Byte(n)]) else None
  {
    hide ScanUnsigned;
  }

  lemma OneMoreOctet(s: string, count: nat, n: nat)
    requires count > 1 && ScanUnsigned(s) == Some(n) && DotPosition(s) < |s|
    ensures var more := Octets(s[DotPosition(s) + 1..], count - 1);
            Octets(s, count) == if n < 256 && more.Some? then Some([Byte(n)] + more.value) else None
  {
    hide ScanUnsigned, DotPosition;
  }

  /** Numbers in dotted form are converted to their bytes, or refused if one of them is no byte. */
  lemma {:induction false} DottedIsConverted(numbers: seq<nat>)
    requires numbers != [] && forall i | 0 <= i < |numbers| :: numbers[i] < WORD
    ensures Octets(Dotted(numbers), |numbers|)
         == if forall i | 0 <= i < |numbers| :: numbers[i] < 256 then Some(BytesOf(numbers)) else None
    decreases |numbers|
  {
    hide ScanUnsigned, Decimal, DotPosition, Octets;
    var n, rest := numbers[0], numbers[1..];
    if rest == [] {
      ScanDecimal(n, []);
      assert Decimal(n) + [] == Decimal(n);
      LastOctet(Decimal(n), n);
      assert |numbers| == 1 && BytesOf(numbers) == [Byte(n)];
    } else {
      var text := Decimal(n) + ['.'] + Dotted(rest);
      ScanDecimal(n, ['.'] + Dotted(rest));
      assert text == Decimal(n) + (['.'] + Dotted(rest));
      DotAfter(Decimal(n), Dotted(rest));
      assert text[|Decimal(n)| + 1..] == Dotted(rest);
      DottedIsConverted(rest);
      OneMoreOctet(text, |numbers|, n);
      assert (forall i | 0 <= i < |numbers| :: numbers[i] < 256)
          <==> n < 256 && forall i | 0 <= i < |rest| :: rest[i] < 256 by {
        assert forall i | 0 < i < |numbers| :: numbers[i] == rest[i - 1];
        assert forall i | 0 <= i < |rest| :: rest[i] == numbers[i + 1];
      }
    }
  }

  // ----- The client ----------------------------------------------------------------------------------

  /** The socket and the two buffers of `socks5_connect`. */
  class Client {
    var sent: seq<string>
    var arrivals: seq<string>
    var writes: nat
    const cbuf: array<char>
    const sbuf: array<char>

    constructor (arrivals: seq<string>, writes: nat)
      ensures Valid() && fresh(cbuf) && fresh(sbuf) && Now() == Going([], arrivals, writes)
    {
      cbuf, sbuf := new char[BUFFER_SIZE](_ => NUL), new char[BUFFER_SIZE](_ => NUL);
      sent, this.arrivals, this.writes := [], arrivals, writes;
    }

    ghost predicate Valid() {
      cbuf.Length == sbuf.Length == BUFFER_SIZE && cbuf != sbuf
    }

    ghost function Now(): Dialogue
      reads this
    {
      Going(sent, arrivals, writes)
    }

    /** `write_socket` with what is in the client's buffer */
    method WriteSocket(count: nat) returns (failed: bool)
      requires Valid() && count <= BUFFER_SIZE
      modifies this
      ensures failed <==> old(Now()).Say(cbuf[..count]).Broken?
      ensures !failed ==> Now() == old(Now()).Say(cbuf[..count])
    {
      if writes == 0 {
        return true;
      }
      sent, writes := sent + [cbuf[..count]], writes - 1;
      failed := false;
    }

    /** `read_socks_reply` */
    method ReadSocksReply(length: nat) returns (count: nat)
      requires Valid() && length <= BUFFER_SIZE
      modifies this, sbuf
      ensures count <= length && sbuf[..count] == old(Now()).Heard(length)
      ensures Now() == old(Now()).Hear(length)
    {
      if arrivals == [] {
        return 0;
      }
      var data := arrivals[0];
      count := if |data| <= length then |data| else length;
      forall i | 0 <= i < count {
        sbuf[i] := data[i];
      }
      arrivals := if |data| <= length then arrivals[1..] else [data[length..]] + arrivals[1..];
    }

    /** `memcpy` into the client's buffer */
    method Put(text: string, at: nat) returns (clientPos: nat)
      requires Valid() && at + |text| <= BUFFER_SIZE
      modifies cbuf
      ensures clientPos == at + |text| && cbuf[..clientPos] == old(cbuf[..at]) + text
    {
      forall i | 0 <= i < |text| {
        cbuf[at + i] := text[i];
      }
      clientPos := at + |text|;
    }

    method PutByte(n: nat, at: nat) returns (clientPos: nat)
      requires Valid() && at < BUFFER_SIZE
      modifies cbuf
      ensures clientPos == at + 1 && cbuf[..clientPos] == old(cbuf[..at]) + [Byte(n)]
    {
      cbuf[at] := Byte(n);
      clientPos := at + 1;
    }

    method Authenticate(username: Option<string>, password: Option<string>) returns (failed: bool)
      requires Valid()
      modifies this, cbuf, sbuf
      ensures failed <==> Authenticated(old(Now()), Auth(username, password)).Broken?
      ensures !failed ==> Now() == Authenticated(old(Now()), Auth(username, password))
    {
      if username.None? || password.None? {
        return true;
      }
      var user, pass := username.value, password.value;
      if |user| + |pass| + 3 > BUFFER_SIZE {
        return true;
      }
      var clientPos := PutByte(1, 0);
      clientPos := PutByte(|user|, clientPos);
      clientPos := Put(user, clientPos);
      clientPos := PutByte(|pass|, clientPos);
      clientPos := Put(pass, clientPos);
      assert cbuf[..clientPos] == AuthMessage(Credentials(user, pass));
      failed := WriteSocket(clientPos);
      if failed {
        return;
      }
      var count := ReadSocksReply(BUFFER_SIZE);
      failed := count != 2 || sbuf[1] != Byte(0);
    }

    method Negotiate(username: Option<string>, password: Option<string>) returns (failed: bool)
      requires Valid()
      modifies this, cbuf, sbuf
      ensures failed <==> Negotiated(old(Now()), Auth(username, password)).Broken?
      ensures !failed ==> Now() == Negotiated(old(Now()), Auth(username, password))
    {
      hide Authenticated;
      var clientPos := PutByte(5, 0);
      if username.Some? && password.Some? {
        clientPos := PutByte(2, clientPos);
        clientPos := PutByte(2, clientPos);
      } else {
        clientPos := PutByte(1, clientPos);
      }
      clientPos := PutByte(0, clientPos);
      assert cbuf[..clientPos] == Greeting(Auth(username, password));
      failed := WriteSocket(clientPos);
      if failed {
        return;
      }
      var count := ReadSocksReply(BUFFER_SIZE);
      if count != 2 || sbuf[0] != Byte(5) || sbuf[1] == Byte(0xff) {
        return true;
      }
      if sbuf[1] == Byte(2) {
        failed := Authenticate(username, password);
      } else {
        failed := sbuf[1] != Byte(0);
      }
    }

    /** The type of the address and the address. */
    method PutAddress(host: string, at: nat, isAddress: string -> bool) returns (ok: bool, clientPos: nat)
      requires Valid() && |host| <= 255 && at <= 4
      modifies cbuf
      ensures ok <==> AsAddress(host, isAddress) ==> Octets(host, 4).Some?
      ensures ok ==> at <= clientPos <= at + 2 + 255
      ensures ok ==> cbuf[..clientPos]
                     == old(cbuf[..at]) + if AsAddress(host, isAddress) then [Byte(1)] + Octets(host, 4).value
                                          else [Byte(3), Byte(|host|)] + host
    {
      hide Octets;
      ghost var before := cbuf[..at];
      if isAddress(host) && ':' !in host {
        clientPos := PutByte(1, at);
        ghost var head := cbuf[..clientPos];
        ok := ConvertIpv4AddressToBytes(host, cbuf, clientPos);
        if ok {
          clientPos := clientPos + 4;
          assert cbuf[..clientPos] == head + Octets(host, 4).value;
        }
      } else {
        clientPos := PutByte(3, at);
        clientPos := PutByte(|host|, clientPos);
        clientPos := Put(host, clientPos);
        assert cbuf[..clientPos] == before + ([Byte(3), Byte(|host|)] + host);
        ok := true;
      }
    }

    lemma RequestEndsWithPort(host: string, port: int, isAddress: string -> bool, head: string, message: string)
      requires AsAddress(host, isAddress) ==> Octets(host, 4).Some?
      requires head == [Byte(5), Byte(1), Byte(0)]
                       + if AsAddress(host, isAddress) then [Byte(1)] + Octets(host, 4).value
                         else [Byte(3), Byte(|host|)] + host
      requires message == head + [Byte((port / 256) % 256)] + [Byte(port % 256)]
      ensures Request(host, port, isAddress) == Some(message)
    {
      hide Octets;
      var first, addressed := [Byte(5), Byte(1), Byte(0)], AsAddress(host, isAddress);
      var kind := if addressed then [Byte(1)] else [Byte(3), Byte(|host|)];
      var address := if addressed then Octets(host, 4).value else host;
      JoinedParts(first, kind, address, Byte((port / 256) % 256), Byte(port % 256));
      assert first + kind == if addressed then [Byte(5), Byte(1), Byte(0), Byte(1)]
                             else [Byte(5), Byte(1), Byte(0), Byte(3), Byte(|host|)];
    }

    lemma JoinedParts(first: string, kind: string, address: string, high: char, low: char)
      ensures first + (kind + address) + [high] + [low] == first + kind + address + [high, low]
    {}

    method SendRequest(host: string, port: int, isAddress: string -> bool) returns (failed: bool)
      requires Valid() && |host| <= 255
      modifies this, cbuf
      ensures failed <==> Requested(old(Now()), host, port, isAddress).Broken?
      ensures !failed ==> Now() == Requested(old(Now()), host, port, isAddress)
    {
      hide Octets;
      var clientPos := PutByte(5, 0);
      clientPos := PutByte(1, clientPos);
      clientPos := PutByte(0, clientPos);
      assert cbuf[..clientPos] == [Byte(5), Byte(1), Byte(0)];
      var ok;
      ok, clientPos := PutAddress(host, clientPos, isAddress);
      if !ok {
        return true;
      }
      ghost var head := cbuf[..clientPos];
      clientPos := PutByte((port / 256) % 256, clientPos);
      clientPos := PutByte(port % 256, clientPos);
      RequestEndsWithPort(host, port, isAddress, head, cbuf[..clientPos]);
      failed := WriteSocket(clientPos);
    }

    method ReadReply() returns (failed: bool)
      requires Valid()
      modifies this, sbuf
      ensures failed <==> Answered(old(Now())).Broken?
      ensures !failed ==> Now() == Answered(old(Now()))
    {
      var serverSize := ReadSocksReply(REPLY_IPV4);
      if serverSize != REPLY_IPV4 || sbuf[0] != Byte(5) || sbuf[2] != Byte(0) || sbuf[1] != Byte(0) {
        return true;
      }
      if sbuf[3] == Byte(4) {
        serverSize := ReadSocksReply(REPLY_IPV6 - REPLY_IPV4);
        failed := serverSize != REPLY_IPV6 - REPLY_IPV4;
      } else if sbuf[3] == Byte(3) {
        var domainLength := if sbuf[4] as int < 128 then sbuf[4] as int else sbuf[4] as int - 256;
        var left := 5 + domainLength + 2 - REPLY_IPV4;
        if left <= 0 || BUFFER_SIZE < left {
          return true;
        }
        serverSize := ReadSocksReply(left);
        failed := serverSize != left;
      } else {
        failed := sbuf[3] != Byte(1);
      }
    }

    /** `socks5_connect` from the first message on; it never writes past the end of its buffer. */
    method Socks5Connect(username: Option<string>, password: Option<string>, host: string, port: int,
                         isAddress: string -> bool)
      returns (ok: bool)
      requires Valid()
      modifies this, cbuf, sbuf
      ensures ok <==> Connected(old(Now()), Auth(username, password), host, port, isAddress).Going?
      ensures ok ==> Now() == Connected(old(Now()), Auth(username, password), host, port, isAddress)
    {
      hide Negotiated, Requested, Answered;
      if |host| > 255 {
        return false;
      }
      var failed := Negotiate(username, password);
      if !failed {
        failed := SendRequest(host, port, isAddress);
      }
      if !failed {
        failed := ReadReply();
      }
      ok := !failed;
    }
  }
}
