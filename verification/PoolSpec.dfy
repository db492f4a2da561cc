/**
 * The fuzz pool of fuzz_common.c on values: how the framing loop and the TCP and UDP callbacks
 * consume one shared cursor.
 */
module PoolSpec {
  import opened Bytes

  datatype Kind = Single | Multi | MultiTime

  /** A call of tcp_app_fuzz_input or udp_app_fuzz_input from inside netif->input. */
  datatype Callback = Tcp | Udp

  /**
   * A run of pool bytes and what it was used for: the delay and length words of the framing loop,
   * a frame handed to netif->input, the length word of a callback, and the bytes a callback sent
   * (no bytes: TCP closes the connection, UDP sends nothing).
   */
  datatype Chunk =
    | Header(bytes: seq<byte>)
    | Frame(bytes: seq<byte>)
    | LengthWord(bytes: seq<byte>)
    | Sent(bytes: seq<byte>, via: Callback)

  /** `rest` is what remfuzz_ptr and remfuzz_len delimit, `now` is sys_now_offset. */
  datatype Pool = Pool(rest: seq<byte>, log: seq<Chunk>, now: nat) {
    /** Logs a chunk and drops that many bytes from the front of the rest. */
    function Use(c: Chunk): Pool
      requires |c.bytes| <= |rest|
    {
      Pool(rest[|c.bytes|..], log + [c], now)
    }
  }

  const MAX_FRAME: nat := 1514
  const U32: nat := 0x1_0000_0000

  /** Addition on u32_t. */
  function Add32(a: nat, b: nat): nat {
    (a + b) % U32
  }

  /** The most bytes one callback sends: 65535 less the IP and TCP or UDP headers. */
  function MaxData(cb: Callback): nat {
    if cb.Tcp? then 65495 else 65507
  }

  function U32At(s: seq<byte>): nat
    requires |s| >= 4
  {
    U16At(s) * 0x1_0000 + U16At(s[2..])
  }

  function Consume(p: Pool, cb: Callback): (r: Pool)
    ensures |r.rest| <= |p.rest|
  {
    if |p.rest| <= 2 then p
    else
      var n := Min(Min(U16At(p.rest), MaxData(cb)), |p.rest| - 2);
      var q := p.Use(LengthWord(p.rest[..2]));
      q.Use(Sent(q.rest[..n], cb))
  }

  function ConsumeAll(p: Pool, cbs: seq<Callback>): (r: Pool)
    ensures |r.rest| <= |p.rest|
  {
    if cbs == [] then p else Consume(ConsumeAll(p, cbs[..|cbs| - 1]), cbs[|cbs| - 1])
  }

  lemma ConsumeOneMore(p: Pool, cbs: seq<Callback>, i: nat)
    requires i < |cbs|
    ensures ConsumeAll(p, cbs[..i + 1]) == Consume(ConsumeAll(p, cbs[..i]), cbs[i])
  {
    assert cbs[..i + 1][..i] == cbs[..i];
  }

  /** input_pkt on the next n bytes: they are handed over, then the callbacks run. */
  function InputFrame(p: Pool, n: nat, cbs: seq<Callback>): (r: Pool)
    requires n <= |p.rest|
    ensures |r.rest| <= |p.rest|
  {
    ConsumeAll(p.Use(Frame(p.rest[..n])), cbs)
  }

  /** minlen: the bytes in front of a frame. */
  function HeaderSize(kind: Kind): nat {
    if kind.MultiTime? then 6 else 2
  }

  /** The frame length a header announces, clamped to 1514 and to what is left. */
  function FrameLength(kind: Kind, rest: seq<byte>): (n: nat)
    requires |rest| > HeaderSize(kind)
    ensures n <= MAX_FRAME && HeaderSize(kind) + n <= |rest|
  {
    var h := HeaderSize(kind);
    Min(Min(U16At(rest[h - 2..]) % 0x800, MAX_FRAME), |rest| - h)
  }

  function Delay(kind: Kind, rest: seq<byte>): nat
    requires |rest| > HeaderSize(kind)
  {
    if kind.MultiTime? then U32At(rest) else 0
  }

  /** One turn of the framing loop; the delay counts only when there is a frame. */
  function Turn(kind: Kind, p: Pool, cbs: seq<Callback>): (r: Pool)
    requires |p.rest| > HeaderSize(kind)
    ensures |r.rest| < |p.rest|
  {
    var n := FrameLength(kind, p.rest);
    var q := p.Use(Header(p.rest[..HeaderSize(kind)]));
    if n == 0 then q
    else InputFrame(q.(now := Add32(p.now, Delay(kind, p.rest))), n, cbs)
  }

  /** The framing loop from its i-th turn; `env(i)` is what the stack calls back during turn i. */
  function Loop(kind: Kind, p: Pool, env: nat -> seq<Callback>, i: nat): Pool
    decreases |p.rest|
  {
    if |p.rest| <= HeaderSize(kind) then p
    else Loop(kind, Turn(kind, p, env(i)), env, i + 1)
  }

  /** input_pkts: a single packet of more than 0xFFFF bytes is refused and nothing is consumed. */
  function InputPkts(kind: Kind, data: seq<byte>, now: nat, env: nat -> seq<Callback>): Pool {
    var p := Pool(data, [], now);
    if kind.Single? then
      if |data| > 0xFFFF then p else InputFrame(p, |data|, env(0))
    else
      Loop(kind, p, env, 0)
  }
}
