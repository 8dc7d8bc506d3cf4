/** What the XDP program does to a frame, told in the fields of its headers.  Every frame that is long enough
    to be looked at is the serialisation of such fields. */
module Frames {
  import opened Basics
  import opened Checksum
  import opened KernelPath
  import opened KernelProperties

  type Bytes8 = b: seq<Byte> | |b| == 8 witness [0, 0, 0, 0, 0, 0, 0, 0]

  /** Ethernet, IPv4 and UDP header and the first twenty bytes of the datagram.  `ipHead` are the bytes of the
      IPv4 header before the TTL. */
  datatype Fields = Fields(
    dst: Mac, src: Mac, etherType: U16,
    ipHead: Bytes8, ttl: Byte, protocol: Byte, check: U16, saddr: U32, daddr: U32,
    sport: U16, dport: U16, length: U16, udpCheck: U16,
    prefix: U32, session: Uuid, payload: seq<Byte>)

  /** Most significant byte first. */
  function Net16(w: U16): (b: seq<Byte>)
    ensures |b| == 2
  {
    [w / 256, w % 256]
  }

  /** Least significant byte first. */
  function Host32(w: U32): (b: seq<Byte>)
    ensures |b| == 4
  {
    [w % 256, w / 256 % 256, w / 65536 % 256, w / 16777216]
  }

  function Ethernet(x: Fields): (b: seq<Byte>)
    ensures |b| == 14
  {
    x.dst + x.src + Net16(x.etherType)
  }

  function Ip(x: Fields): (b: seq<Byte>)
    ensures |b| == 20
  {
    x.ipHead + [x.ttl, x.protocol] + Net16(x.check) + Host32(x.saddr) + Host32(x.daddr)
  }

  function Udp(x: Fields): (b: seq<Byte>)
    ensures |b| == 8
  {
    Net16(x.sport) + Net16(x.dport) + Net16(x.length) + Net16(x.udpCheck)
  }

  function SessionBytes(s: Uuid): (b: seq<Byte>)
    ensures |b| == 16
  {
    Host32(s[0]) + Host32(s[1]) + Host32(s[2]) + Host32(s[3])
  }

  /** The frame on the wire. */
  function Wire(x: Fields): (f: seq<Byte>)
    ensures |f| == 62 + |x.payload|
  {
    Ethernet(x) + Ip(x) + Udp(x) + Host32(x.prefix) + SessionBytes(x.session) + x.payload
  }

  // --- reading it back ------------------------------------------------------------------------

  lemma Host32Read(w: U32, f: seq<Byte>, at: nat)
    requires at + 4 <= |f| && f[at..at + 4] == Host32(w)
    ensures Word32At(f, at) == w
  {
    assert f[at] == Host32(w)[0] && f[at + 1] == Host32(w)[1] && f[at + 2] == Host32(w)[2] && f[at + 3] == Host32(w)[3];
    Split(w);
  }

  lemma Split(w: U32)
    ensures w == w % 256 + 256 * (w / 256 % 256) + 65536 * (w / 65536 % 256) + 16777216 * (w / 16777216)
  {
    var a := w / 256;
    var b := a / 256;
    assert b == w / 65536 && b / 256 == w / 16777216;
  }

  /** Where the fields stand. */
  lemma WireParts(x: Fields)
    ensures var f := Wire(x);
            && f[..6] == x.dst && f[6..12] == x.src && f[12..14] == Net16(x.etherType)
            && f[14..34] == Ip(x) && f[34..42] == Udp(x)
            && f[42..46] == Host32(x.prefix) && f[46..62] == SessionBytes(x.session) && f[62..] == x.payload
  {
  }

  lemma IpParts(x: Fields)
    ensures var f := Wire(x);
            && f[14..22] == x.ipHead && f[22] == x.ttl && f[23] == x.protocol && f[24..26] == Net16(x.check)
            && f[26..30] == Host32(x.saddr) && f[30..34] == Host32(x.daddr)
  {
    WireParts(x);
    var f := Wire(x);
    assert f[14..34][..8] == f[14..22] && f[14..34][8] == f[22] && f[14..34][9] == f[23];
    assert f[14..34][10..12] == f[24..26] && f[14..34][12..16] == f[26..30] && f[14..34][16..20] == f[30..34];
  }

  lemma UdpParts(x: Fields)
    ensures var f := Wire(x);
            && f[34..36] == Net16(x.sport) && f[36..38] == Net16(x.dport)
            && f[38..40] == Net16(x.length) && f[40..42] == Net16(x.udpCheck)
  {
    WireParts(x);
    var f := Wire(x);
    assert f[34..42][..2] == f[34..36] && f[34..42][2..4] == f[36..38];
    assert f[34..42][4..6] == f[38..40] && f[34..42][6..8] == f[40..42];
  }

  lemma SessionRead(x: Fields)
    ensures SessionId(Wire(x)) == x.session
  {
    WireParts(x);
    var f, b := Wire(x), SessionBytes(x.session);
    assert b[..4] == Host32(x.session[0]) && b[4..8] == Host32(x.session[1]);
    assert b[8..12] == Host32(x.session[2]) && b[12..16] == Host32(x.session[3]);
    assert f[46..50] == f[46..62][..4] && f[50..54] == f[46..62][4..8];
    assert f[54..58] == f[46..62][8..12] && f[58..62] == f[46..62][12..16];
    Host32Read(x.session[0], f, 46);
    Host32Read(x.session[1], f, 50);
    Host32Read(x.session[2], f, 54);
    Host32Read(x.session[3], f, 58);
  }

  lemma Net16Read(w: U16, a: Byte, b: Byte)
    ensures [a, b] == Net16(w) <==> w == 256 * a as int + b as int
  {
    if [a, b] == Net16(w) {
      assert a == Net16(w)[0] && b == Net16(w)[1];
    }
  }

  // --- every frame ----------------------------------------------------------------------------

  function Read16(f: seq<Byte>, at: nat): U16
    requires at + 1 < |f|
  {
    256 * f[at] as int + f[at + 1] as int
  }

  function Parse(f: seq<Byte>): Fields
    requires |f| >= 62
  {
    Fields(f[..6], f[6..12], Read16(f, 12), f[14..22], f[22], f[23], Read16(f, 24), Word32At(f, 26), Word32At(f, 30),
           Read16(f, 34), Read16(f, 36), Read16(f, 38), Read16(f, 40), Word32At(f, 42), SessionId(f), f[62..])
  }

  lemma Net16Write(f: seq<Byte>, at: nat)
    requires at + 1 < |f|
    ensures Net16(Read16(f, at)) == f[at..at + 2]
  {
    Net16Read(Read16(f, at), f[at], f[at + 1]);
    assert f[at..at + 2] == [f[at], f[at + 1]];
  }

  lemma Host32Write(f: seq<Byte>, at: nat)
    requires at + 3 < |f|
    ensures Host32(Word32At(f, at)) == f[at..at + 4]
  {
    var g, b := f[at..at + 4], Host32(Word32At(f, at));
    assert Word32At(g, 0) == Word32At(f, at);
    assert b[0..4] == b;
    Host32Read(Word32At(f, at), b, 0);
    WordDeterminesBytes(g, b, 0);
  }

  lemma EthernetWrite(f: seq<Byte>)
    requires |f| >= 62
    ensures Ethernet(Parse(f)) == f[0..14]
  {
    Net16Write(f, 12);
  }

  lemma IpWrite(f: seq<Byte>)
    requires |f| >= 62
    ensures Ip(Parse(f)) == f[14..34]
  {
    Net16Write(f, 24);
    Host32Write(f, 26);
    Host32Write(f, 30);
  }

  lemma UdpWrite(f: seq<Byte>)
    requires |f| >= 62
    ensures Udp(Parse(f)) == f[34..42]
  {
    Net16Write(f, 34);
    Net16Write(f, 36);
    Net16Write(f, 38);
    Net16Write(f, 40);
  }

  lemma Join(f: seq<Byte>, a: nat, b: nat, c: nat)
    requires a <= b <= c <= |f|
    ensures f[a..b] + f[b..c] == f[a..c]
  {
  }

  lemma SessionWrite(f: seq<Byte>)
    requires |f| >= 62
    ensures SessionBytes(SessionId(f)) == f[46..62]
  {
    Host32Write(f, 46);
    Host32Write(f, 50);
    Host32Write(f, 54);
    Host32Write(f, 58);
    Join(f, 46, 50, 54);
    Join(f, 46, 54, 58);
    Join(f, 46, 58, 62);
  }

  /** Every frame of at least 62 bytes is the serialisation of its fields. */
  lemma EveryFrame(f: seq<Byte>)
    requires |f| >= 62
    ensures Wire(Parse(f)) == f
  {
    var n := |f|;
    EthernetWrite(f);
    IpWrite(f);
    UdpWrite(f);
    Host32Write(f, 42);
    SessionWrite(f);
    Join(f, 0, 14, 34);
    Join(f, 0, 34, 42);
    Join(f, 0, 42, 46);
    Join(f, 0, 46, 62);
    Join(f, 0, 62, n);
    assert f[62..] == f[62..n] && f[0..n] == f;
  }

  // --- what becomes of it ---------------------------------------------------------------------

  /** A UDP datagram over IPv4, to the address and the port of the balancer, with the packet prefix. */
  predicate ForBalancer(x: Fields, cfg: Config) {
    && x.etherType == 0x0800 && x.protocol == 17 && x.daddr == cfg.ip && x.dport == cfg.port
    && x.prefix == 0x55554944
  }

  /** It was sent by this node, or has no hop left. */
  predicate Looping(x: Fields, cfg: Config) {
    x.src == cfg.mac || x.ttl <= 1
  }

  /** The frame sent to a backend, with header checksum `check`. */
  function Sent(x: Fields, cfg: Config, spec: Spec, check: U16): Fields
    requires x.ttl > 0
  {
    x.(dst := spec.mac, src := cfg.mac, ttl := x.ttl - 1, check := check, daddr := spec.ip, dport := spec.port,
       udpCheck := 0)
  }

  lemma GuardIs(x: Fields, cfg: Config)
    ensures MustLoadbalance(Wire(x), cfg.ip, cfg.port) <==> ForBalancer(x, cfg)
  {
    WireParts(x);
    IpParts(x);
    UdpParts(x);
    var f := Wire(x);
    Host32Read(x.daddr, f, 30);
    Host32Read(x.prefix, f, 42);
    assert f[12] == f[12..14][0] && f[13] == f[12..14][1];
    assert f[36] == f[36..38][0] && f[37] == f[36..38][1];
    assert x.etherType == 256 * (x.etherType / 256) + x.etherType % 256;
    assert x.dport == 256 * (x.dport / 256) + x.dport % 256;
    assert cfg.port == 256 * (cfg.port / 256) + cfg.port % 256;
  }

  lemma GuardsAre(x: Fields, cfg: Config)
    ensures var f := Wire(x); (f[6..12] == cfg.mac || f[22] <= 1) <==> Looping(x, cfg)
  {
    WireParts(x);
    IpParts(x);
  }

  /** `g` is the frame sent to this backend: it differs from the original in these fields only, and its IPv4
      header verifies. */
  ghost predicate IsSent(g: seq<Byte>, x: Fields, cfg: Config, spec: Spec) {
    x.ttl > 0 && exists check :: g == Wire(Sent(x, cfg, spec, check)) && Verifies(Ip(Sent(x, cfg, spec, check)), true)
  }

  lemma ForwardedIsSent(f: seq<Byte>, x: Fields, cfg: Config, spec: Spec)
    requires f == Wire(x) && f[22] >= 1
    ensures IsSent(Forwarded(f, cfg, spec), x, cfg, spec)
  {
    var g := Forwarded(f, cfg, spec);
    IpParts(x);
    EveryFrame(g);
    ForwardedChecksum(f, cfg, spec);
    IpWrite(g);
    ForwardedFields(f, cfg, spec);
    ParseWire(x);
    SentFields(f, g, cfg, spec);
  }

  ghost predicate Rewritten(f: seq<Byte>, g: seq<Byte>, cfg: Config, spec: Spec) {
    && |g| == |f| >= 62 && f[22] >= 1
    && g[..6] == spec.mac && g[6..12] == cfg.mac && g[22] == f[22] - 1
    && Word32At(g, 30) == spec.ip && g[36] == spec.port / 256 && g[37] == spec.port % 256
    && g[40] == g[41] == 0
    && g[12..22] == f[12..22] && g[23] == f[23] && g[26..30] == f[26..30]
    && g[34..36] == f[34..36] && g[38..40] == f[38..40] && g[42..] == f[42..]
  }

  lemma SameWord(f: seq<Byte>, g: seq<Byte>, lo: nat, hi: nat, at: nat)
    requires lo <= at <= at + 4 <= hi <= |f| == |g| && f[lo..hi] == g[lo..hi]
    ensures Word32At(f, at) == Word32At(g, at)
  {
    assert forall i :: lo <= i < hi ==> f[i] == f[lo..hi][i - lo] && g[i] == g[lo..hi][i - lo];
  }

  lemma SameRead16(f: seq<Byte>, g: seq<Byte>, lo: nat, hi: nat, at: nat)
    requires lo <= at <= at + 2 <= hi <= |f| == |g| && f[lo..hi] == g[lo..hi]
    ensures Read16(f, at) == Read16(g, at)
  {
    assert forall i :: lo <= i < hi ==> f[i] == f[lo..hi][i - lo] && g[i] == g[lo..hi][i - lo];
  }

  lemma SameData(f: seq<Byte>, g: seq<Byte>)
    requires |f| == |g| >= 62 && f[42..] == g[42..]
    ensures Word32At(f, 42) == Word32At(g, 42) && SessionId(f) == SessionId(g) && f[62..] == g[62..]
  {
    var n := |f|;
    assert f[42..n] == f[42..] && g[42..n] == g[42..];
    SameWord(f, g, 42, n, 42);
    SameWord(f, g, 42, n, 46);
    SameWord(f, g, 42, n, 50);
    SameWord(f, g, 42, n, 54);
    SameWord(f, g, 42, n, 58);
    assert f[62..] == f[42..][20..] && g[62..] == g[42..][20..];
  }

  lemma SentFields(f: seq<Byte>, g: seq<Byte>, cfg: Config, spec: Spec)
    requires Rewritten(f, g, cfg, spec)
    ensures Parse(g) == Sent(Parse(f), cfg, spec, Parse(g).check)
  {
    SameRead16(f, g, 12, 22, 12);
    assert g[14..22] == g[12..22][2..] && f[14..22] == f[12..22][2..];
    SameWord(f, g, 26, 30, 26);
    SameRead16(f, g, 34, 36, 34);
    SameRead16(f, g, 38, 40, 38);
    SameData(f, g);
  }

  /** Reading back what was serialised. */
  lemma ParseWire(x: Fields)
    ensures Parse(Wire(x)) == x
  {
    var f := Wire(x);
    WireParts(x);
    IpParts(x);
    UdpParts(x);
    SessionRead(x);
    Host32Read(x.saddr, f, 26);
    Host32Read(x.daddr, f, 30);
    Host32Read(x.prefix, f, 42);
    Read16Is(x.etherType, f, 12);
    Read16Is(x.check, f, 24);
    Read16Is(x.sport, f, 34);
    Read16Is(x.dport, f, 36);
    Read16Is(x.length, f, 38);
    Read16Is(x.udpCheck, f, 40);
  }

  lemma Read16Is(w: U16, f: seq<Byte>, at: nat)
    requires at + 2 <= |f| && f[at..at + 2] == Net16(w)
    ensures Read16(f, at) == w
  {
    assert f[at..at + 2] == [f[at], f[at + 1]];
    Net16Read(w, f[at], f[at + 1]);
  }

  /** Frames too short to carry the headers and a session are passed on untouched. */
  lemma ShortFramesPass(f: seq<Byte>, cfg: Config, maps: Maps, reserve: bool, update: bool)
    requires |f| < 62 && cfg.size > 0
    ensures Process(f, cfg, maps, reserve, update) == Outcome(Pass, f, maps.sessions, None)
  {
  }

  /** A frame is passed on with nothing changed if and only if it is not for the balancer; one that is for
      it is dropped, with nothing changed, if and only if it loops. */
  lemma VerdictIff(x: Fields, cfg: Config, maps: Maps, reserve: bool, update: bool)
    requires cfg.size > 0
    ensures var r := Process(Wire(x), cfg, maps, reserve, update);
            && (r == Outcome(Pass, Wire(x), maps.sessions, None) <==> !ForBalancer(x, cfg))
            && (r == Outcome(Drop, Wire(x), maps.sessions, None) <==> ForBalancer(x, cfg) && Looping(x, cfg))
            && (r.verdict.Drop? ==> ForBalancer(x, cfg) && Looping(x, cfg))
  {
    GuardIs(x, cfg);
    GuardsAre(x, cfg);
    var f := Wire(x);
    if f[22] >= 1 {
      assert f[22 := f[22] - 1][22] != f[22];
    }
  }

  /** A frame for the balancer that does not loop is sent to the backend its session is mapped to, or else to
      the one in the table at its hash.  A new session, and no other, is reported and remembered as far as
      there is room. */
  lemma SentToBackend(x: Fields, cfg: Config, maps: Maps, reserve: bool, update: bool, idx: U32)
    requires cfg.size > 0 && ForBalancer(x, cfg) && !Looping(x, cfg)
    requires Picks(maps, cfg, x.session, SessionBytes(x.session), idx) && idx < |maps.backends|
    ensures var r, spec := Process(Wire(x), cfg, maps, reserve, update), maps.backends[idx];
            r.verdict == Tx && IsSent(r.frame, x, cfg, spec) && Recorded(r, x, maps, reserve, update, idx)
  {
    GuardIs(x, cfg);
    GuardsAre(x, cfg);
    WireParts(x);
    IpParts(x);
    SessionRead(x);
    IndexPicks(maps, cfg, Wire(x), idx);
    ForwardedIsSent(Wire(x), x, cfg, maps.backends[idx]);
  }

  predicate Recorded(r: Outcome, x: Fields, maps: Maps, reserve: bool, update: bool, idx: U32)
    requires idx < |maps.backends|
  {
    var isNew := x.session !in maps.sessions;
    && r.sessions == (if isNew && update then maps.sessions[x.session := idx] else maps.sessions)
    && r.note == (if isNew && reserve then Some((x.session, maps.backends[idx].id)) else None)
  }

  /** It is passed on with its TTL already lowered if there is no such backend. */
  lemma NoBackend(x: Fields, cfg: Config, maps: Maps, reserve: bool, update: bool)
    requires cfg.size > 0 && ForBalancer(x, cfg) && !Looping(x, cfg)
    requires forall idx: U32 :: Picks(maps, cfg, x.session, SessionBytes(x.session), idx) ==> idx >= |maps.backends|
    ensures Process(Wire(x), cfg, maps, reserve, update)
         == Outcome(Pass, Wire(x.(ttl := x.ttl - 1)), maps.sessions, None)
  {
    GuardIs(x, cfg);
    GuardsAre(x, cfg);
    WireParts(x);
    IpParts(x);
    SessionRead(x);
    var found := IndexFor(maps, cfg, Wire(x));
    if found.Some? {
      IndexPicks(maps, cfg, Wire(x), found.value);
    }
    assert Process(Wire(x), cfg, maps, reserve, update)
        == Outcome(Pass, Wire(x)[22 := x.ttl - 1], maps.sessions, None);
    Lowered(x);
  }

  lemma Lowered(x: Fields)
    requires x.ttl > 0
    ensures Wire(x)[22 := x.ttl - 1] == Wire(x.(ttl := x.ttl - 1))
  {
  }
}
