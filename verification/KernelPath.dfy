/** The XDP program (internal/adapter/bpf/udplb_kern.c and udplb_kern_helpers.c) on frames of bytes.
    Multi-byte fields are read as a little-endian host reads them. */
module KernelPath {
  import opened Basics
  import opened Checksum
  import RT = ReverseTable

  type Uuid = RT.Coordinates
  type U16 = x: int | 0 <= x < W16
  type Mac = m: seq<Byte> | |m| == 6 witness [0, 0, 0, 0, 0, 0]

  const MAX_BACKENDS := 64
  const MAX_SLOTS := 65536
  const PREFIX := 0x55554944

  /** The constant configuration; the controller picks a positive table size. */
  datatype Config = Config(ip: U32, port: U16, size: U32, mac: Mac)

  datatype Spec = Spec(id: Uuid, ip: U32, port: U16, mac: Mac)

  /** One copy of the three maps: two arrays of fixed size and a hash map. */
  datatype Maps = Maps(backends: seq<Spec>, table: seq<U32>, sessions: map<Uuid, U32>)

  ghost predicate Sized(maps: Maps) {
    |maps.backends| == MAX_BACKENDS && |maps.table| == MAX_SLOTS
  }

  datatype Verdict = Pass | Drop | Tx

  datatype Outcome = Outcome(verdict: Verdict, frame: seq<Byte>, sessions: map<Uuid, U32>, note: Option<(Uuid, Uuid)>)

  // --- reading a frame ------------------------------------------------------------------------

  function Word32At(f: seq<Byte>, at: nat): (w: U32)
    requires at + 3 < |f|
  {
    var a: int, b: int, c: int, d: int := f[at], f[at + 1], f[at + 2], f[at + 3];
    a + 0x100 * b + 0x1_0000 * c + 0x100_0000 * d
  }

  /** Byte `i` of a 32-bit value in memory. */
  function ByteOf(w: U32, i: nat): Byte
    requires i < 4
  {
    (if i == 0 then w else if i == 1 then w / 0x100 else if i == 2 then w / 0x1_0000 else w / 0x100_0000) % 256
  }

  /** must_loadbalance: an IPv4 frame, long enough, for the balancer's address and port, with the
      packet prefix. */
  predicate MustLoadbalance(f: seq<Byte>, ip: U32, port: U16) {
    && |f| >= 14 && f[12] == 8 && f[13] == 0
    && |f| >= 34 && Word32At(f, 30) == ip && f[23] == 17
    && |f| >= 42 && f[36] == port / 256 && f[37] == port % 256
    && |f| >= 62 && Word32At(f, 42) == PREFIX
  }

  /** On the wire the prefix is the bytes 44 49 55 55. */
  lemma PrefixBytes(f: seq<Byte>, ip: U32, port: U16)
    requires MustLoadbalance(f, ip, port)
    ensures f[42..46] == [0x44, 0x49, 0x55, 0x55]
  {
    var a: nat, b: nat, c: nat, d: nat := f[42], f[43], f[44], f[45];
    assert a + 256 * (b + 256 * (c + 256 * d)) == 0x44 + 256 * (0x49 + 256 * (0x55 + 256 * 0x55));
    assert a == 0x44;
    assert b == 0x49;
    assert c == 0x55 && d == 0x55;
  }

  function SessionId(f: seq<Byte>): Uuid
    requires |f| >= 62
  {
    [Word32At(f, 46), Word32At(f, 50), Word32At(f, 54), Word32At(f, 58)]
  }

  /** A C char is signed on this target. */
  function Signed(b: Byte): (r: int)
    ensures -128 <= r < 128 && (b - r) % 256 == 0
  {
    if b < 128 then b as int else b as int - 256
  }

  /** fast_hash over the first `k` bytes, in 32-bit arithmetic. */
  function FastHash(str: seq<Byte>, k: nat): (h: U32)
    requires k <= |str|
  {
    if k == 0 then 0
    else
      var h: int := FastHash(str, k - 1);
      (Signed(str[k - 1]) + 64 * h + 0x1_0000 * h - h) % WIDTH
  }

  function Power(n: nat): nat {
    if n == 0 then 1 else 65599 * Power(n - 1)
  }

  /** The first `i` of `k` bytes, each weighted with the power of 65599 that belongs to its place. */
  function Weighted(str: seq<Byte>, i: nat, k: nat): int
    requires i <= k <= |str|
  {
    if i == 0 then 0 else Weighted(str, i - 1, k) + Signed(str[i - 1]) * Power(k - i)
  }

  lemma {:induction false} WeightedShift(str: seq<Byte>, i: nat, k: nat)
    requires i <= k < |str|
    ensures Weighted(str, i, k + 1) == 65599 * Weighted(str, i, k)
  {
    if i > 0 {
      WeightedShift(str, i - 1, k);
      var s, p := Signed(str[i - 1]), Power(k - i);
      assert Power(k + 1 - i) == 65599 * p;
      assert s * (65599 * p) == 65599 * (s * p);
    }
  }

  lemma HashStep(h: U32, w: int, s: int)
    requires h == w % WIDTH
    ensures (s + 64 * h + 0x1_0000 * h - h) % WIDTH == (65599 * w + s) % WIDTH
  {
    var q := w / WIDTH;
    assert 65599 * w + s == 65599 * h + s + WIDTH * (65599 * q);
    ModWidth(65599 * h + s, 65599 * q);
  }

  lemma ModWidth(x: int, q: int)
    ensures (x + WIDTH * q) % WIDTH == x % WIDTH
  {
  }

  /** The hash in closed form: a polynomial in 65599 over the signed bytes, modulo 2^32. */
  lemma {:induction false} HashIsPolynomial(str: seq<Byte>, k: nat)
    requires k <= |str|
    ensures FastHash(str, k) == Weighted(str, k, k) % WIDTH
  {
    if k > 0 {
      HashIsPolynomial(str, k - 1);
      WeightedShift(str, k - 1, k - 1);
      HashStep(FastHash(str, k - 1), Weighted(str, k - 1, k - 1), Signed(str[k - 1]));
      assert Weighted(str, k, k) == Weighted(str, k - 1, k) + Signed(str[k - 1]) * Power(0);
    }
  }

  /** The slot of the lookup table a frame's session hashes to. */
  function LupKey(f: seq<Byte>, size: U32): (k: U32)
    requires |f| >= 62 && size > 0
    ensures k < size
  {
    FastHash(f[46..62], 16) % size
  }

  // --- rewriting a frame ----------------------------------------------------------------------

  /** Byte `i` of the frame with every field rewritten and the header checksum still zero. */
  function NewByte(f: seq<Byte>, cfg: Config, spec: Spec, i: nat): Byte
    requires |f| >= 62 && f[22] >= 1 && i < |f|
  {
    if i < 6 then spec.mac[i]
    else if i < 12 then cfg.mac[i - 6]
    else if i == 22 then f[22] - 1
    else if i == 24 || i == 25 then 0
    else if 30 <= i < 34 then ByteOf(spec.ip, i - 30)
    else if i == 36 then spec.port / 256
    else if i == 37 then spec.port % 256
    else if i == 40 || i == 41 then 0
    else f[i]
  }

  function Readdressed(f: seq<Byte>, cfg: Config, spec: Spec): (g: seq<Byte>)
    requires |f| >= 62 && f[22] >= 1
    ensures |g| == |f| && forall i :: 0 <= i < |f| ==> g[i] == NewByte(f, cfg, spec, i)
  {
    seq(|f|, i requires 0 <= i < |f| => NewByte(f, cfg, spec, i))
  }

  function Forwarded(f: seq<Byte>, cfg: Config, spec: Spec): (g: seq<Byte>)
    requires |f| >= 62 && f[22] >= 1
    ensures |g| == |f|
    ensures forall i :: 0 <= i < |f| && i != 24 && i != 25 ==> g[i] == NewByte(f, cfg, spec, i)
  {
    var r := Readdressed(f, cfg, spec);
    var c := IphdrCsum(r[14..34]);
    r[24 := c % 256][25 := c / 256]
  }

  lemma Recompose(w: U32)
    ensures ByteOf(w, 0) as int + 0x100 * ByteOf(w, 1) as int + 0x1_0000 * ByteOf(w, 2) as int
            + 0x100_0000 * ByteOf(w, 3) as int == w
  {
  }

  /** What a forwarded frame looks like, field by field. */
  lemma ForwardedFields(f: seq<Byte>, cfg: Config, spec: Spec)
    requires |f| >= 62 && f[22] >= 1
    ensures var g := Forwarded(f, cfg, spec);
            && g[..6] == spec.mac && g[6..12] == cfg.mac && g[22] == f[22] - 1
            && Word32At(g, 30) == spec.ip && g[36] == spec.port / 256 && g[37] == spec.port % 256
            && g[40] == g[41] == 0
            && g[12..22] == f[12..22] && g[23] == f[23] && g[26..30] == f[26..30]
            && g[34..36] == f[34..36] && g[38..40] == f[38..40] && g[42..] == f[42..]
  {
    var g := Forwarded(f, cfg, spec);
    Recompose(spec.ip);
    assert g[30] == ByteOf(spec.ip, 0) && g[31] == ByteOf(spec.ip, 1);
    assert g[32] == ByteOf(spec.ip, 2) && g[33] == ByteOf(spec.ip, 3);
  }

  /** The header of a forwarded frame verifies, in host and in network order. */
  lemma ForwardedChecksum(f: seq<Byte>, cfg: Config, spec: Spec)
    requires |f| >= 62 && f[22] >= 1
    ensures var h := Forwarded(f, cfg, spec)[14..34]; Verifies(h, false) && Verifies(h, true)
  {
    var h := Readdressed(f, cfg, spec)[14..34];
    StoredChecksumVerifies(h);
    assert Forwarded(f, cfg, spec)[14..34] == SetWord(h, 5, IphdrCsum(h));
  }

  // --- the program ----------------------------------------------------------------------------

  /** The backend index found for a session, if the table has an entry. */
  function Index(maps: Maps, sid: Uuid, key: U32): Option<U32> {
    if sid in maps.sessions then Some(maps.sessions[sid])
    else if key < |maps.table| then Some(maps.table[key]) else None
  }

  /** The frame is neither ours to leave alone nor to drop. */
  predicate Balanced(f: seq<Byte>, cfg: Config) {
    MustLoadbalance(f, cfg.ip, cfg.port) && f[6..12] != cfg.mac && f[22] > 1
  }

  /** The part of the program after the guards, on a frame with TTL above 1.  `reserve` and `update` say
      whether the ring buffer has room for a notification and whether the session map takes the new
      entry. */
  function Balance(f: seq<Byte>, cfg: Config, maps: Maps, reserve: bool, update: bool): (r: Outcome)
    requires cfg.size > 0 && |f| >= 62 && f[22] > 1
  {
    var sid := SessionId(f);
    var newSession := sid !in maps.sessions;
    var idx := Index(maps, sid, LupKey(f, cfg.size));
    if idx.None? || idx.value >= |maps.backends| then Outcome(Pass, f[22 := f[22] - 1], maps.sessions, None)
    else
      var spec := maps.backends[idx.value];
      Outcome(Tx, Forwarded(f, cfg, spec),
              if newSession && update then maps.sessions[sid := idx.value] else maps.sessions,
              if newSession && reserve then Some((sid, spec.id)) else None)
  }

  /** One run of the program. */
  function Process(f: seq<Byte>, cfg: Config, maps: Maps, reserve: bool, update: bool): (r: Outcome)
    requires cfg.size > 0
  {
    if !MustLoadbalance(f, cfg.ip, cfg.port) then Outcome(Pass, f, maps.sessions, None)
    else if f[6..12] == cfg.mac || f[22] <= 1 then Outcome(Drop, f, maps.sessions, None)
    else Balance(f, cfg, maps, reserve, update)
  }

  // --- the program, in place ------------------------------------------------------------------

  /** fast_hash as the loop the program runs. */
  method ComputeHash(str: seq<Byte>) returns (hash: U32)
    ensures hash == FastHash(str, |str|)
  {
    hash := 0;
    for i := 0 to |str|
      invariant hash == FastHash(str, i)
    {
      hash := (Signed(str[i]) + 64 * hash as int + 0x1_0000 * hash as int - hash as int) % WIDTH;
    }
  }

  /** The header rewrite and the checksum, on a frame whose TTL is already lowered. */
  method Rewrite(frame: array<Byte>, cfg: Config, spec: Spec, ghost f: seq<Byte>)
    requires |f| >= 62 && f[22] >= 1 && frame[..] == f[22 := f[22] - 1]
    modifies frame
    ensures frame[..] == Forwarded(f, cfg, spec)
  {
    for i := 0 to 6
      invariant forall k :: 0 <= k < i ==> frame[6 + k] == cfg.mac[k]
      invariant forall k :: 0 <= k < |f| && !(6 <= k < 6 + i) ==> frame[k] == f[22 := f[22] - 1][k]
    {
      frame[6 + i] := cfg.mac[i];
    }
    for i := 0 to 6
      invariant forall k :: 0 <= k < i ==> frame[k] == spec.mac[k]
      invariant forall k :: 6 <= k < 12 ==> frame[k] == cfg.mac[k - 6]
      invariant forall k :: 12 <= k < |f| ==> frame[k] == f[22 := f[22] - 1][k]
    {
      frame[i] := spec.mac[i];
    }
    for i := 0 to 4
      invariant forall k :: 0 <= k < i ==> frame[30 + k] == ByteOf(spec.ip, k)
      invariant forall k :: 0 <= k < 6 ==> frame[k] == spec.mac[k]
      invariant forall k :: 6 <= k < 12 ==> frame[k] == cfg.mac[k - 6]
      invariant forall k :: 12 <= k < |f| && !(30 <= k < 30 + i) ==> frame[k] == f[22 := f[22] - 1][k]
    {
      frame[30 + i] := ByteOf(spec.ip, i);
    }
    frame[36], frame[37] := spec.port / 256, spec.port % 256;
    FinishRewrite(frame, cfg, spec, f);
  }

  /** iph->check = iphdr_csum(iph), and the UDP checksum set to zero. */
  method FinishRewrite(frame: array<Byte>, cfg: Config, spec: Spec, ghost f: seq<Byte>)
    requires |f| >= 62 && f[22] >= 1 && frame.Length == |f|
    requires forall i :: 0 <= i < |f| && i !in {24, 25, 40, 41} ==> frame[i] == NewByte(f, cfg, spec, i)
    modifies frame
    ensures frame[..] == Forwarded(f, cfg, spec)
  {
    frame[40], frame[41] := 0, 0;
    frame[24], frame[25] := 0, 0;
    assert frame[..] == Readdressed(f, cfg, spec);
    var h := frame[14..34];
    assert SetWord(h, 5, 0) == h;
    var c := ComputeCsum(h);
    frame[24], frame[25] := c % 256, c / 256;
  }

  method ReadSession(frame: array<Byte>, size: U32) returns (sid: Uuid, key: U32)
    requires frame.Length >= 62 && size > 0
    ensures sid == SessionId(frame[..]) && key == LupKey(frame[..], size)
  {
    sid := SessionId(frame[..]);
    assert frame[46..62] == frame[..][46..62];
    var hash := ComputeHash(frame[46..62]);
    key := hash % size;
  }

  lemma TtlIrrelevant(f: seq<Byte>, size: U32)
    requires |f| >= 62 && f[22] >= 1 && size > 0
    ensures SessionId(f[22 := f[22] - 1]) == SessionId(f) && LupKey(f[22 := f[22] - 1], size) == LupKey(f, size)
  {
    assert f[22 := f[22] - 1][46..62] == f[46..62];
  }

  /** The maps with their two copies and the pointer that selects one. */
  class Kernel {
    var a: Maps
    var b: Maps
    var activePointer: int

    function Active(): Maps
      reads this
    {
      if activePointer == 0 then a else b
    }

    function Passive(): Maps
      reads this
    {
      if activePointer == 0 then b else a
    }

    /** A new session is reported and remembered, as far as there is room. */
    method Record(sid: Uuid, idx: U32, id: Uuid, reserve: bool, update: bool) returns (note: Option<(Uuid, Uuid)>)
      modifies this
      ensures note == if reserve then Some((sid, id)) else None
      ensures Active() == if update then old(Active()).(sessions := old(Active()).sessions[sid := idx]) else old(Active())
      ensures Passive() == old(Passive()) && activePointer == old(activePointer)
    {
      note := if reserve then Some((sid, id)) else None;
      if update {
        if activePointer == 0 {
          a := a.(sessions := a.sessions[sid := idx]);
        } else {
          b := b.(sessions := b.sessions[sid := idx]);
        }
      }
    }

    /** The part after the guards. */
    method Balanced(frame: array<Byte>, cfg: Config, reserve: bool, update: bool)
      returns (verdict: Verdict, note: Option<(Uuid, Uuid)>)
      requires cfg.size > 0 && frame.Length >= 62 && frame[22] > 1
      modifies this, frame
      ensures var r := Balance(old(frame[..]), cfg, old(Active()), reserve, update);
              && verdict == r.verdict && note == r.note && frame[..] == r.frame
              && Active() == old(Active()).(sessions := r.sessions)
      ensures Passive() == old(Passive()) && activePointer == old(activePointer)
    {
      note := None;
      ghost var f := frame[..];
      frame[22] := frame[22] - 1;
      TtlIrrelevant(f, cfg.size);
      assert frame[..] == f[22 := f[22] - 1];
      var sid, key := ReadSession(frame, cfg.size);
      var maps := Active();
      var idx := Index(maps, sid, key);
      if idx.None? || idx.value >= |maps.backends| {
        return Pass, note;
      }
      var spec := maps.backends[idx.value];
      if sid !in maps.sessions {
        note := Record(sid, idx.value, spec.id, reserve, update);
      }
      Rewrite(frame, cfg, spec, f);
      verdict := Tx;
    }

    method Udplb(frame: array<Byte>, cfg: Config, reserve: bool, update: bool)
      returns (verdict: Verdict, note: Option<(Uuid, Uuid)>)
      requires cfg.size > 0
      modifies this, frame
      ensures var r := Process(old(frame[..]), cfg, old(Active()), reserve, update);
              && verdict == r.verdict && note == r.note && frame[..] == r.frame
              && Active() == old(Active()).(sessions := r.sessions)
      ensures Passive() == old(Passive()) && activePointer == old(activePointer)
    {
      if !MustLoadbalance(frame[..], cfg.ip, cfg.port) {
        return Pass, None;
      }
      if frame[6..12] == cfg.mac {
        return Drop, None;
      }
      if frame[22] <= 1 {
        return Drop, None;
      }
      verdict, note := Balanced(frame, cfg, reserve, update);
    }
  }
}
