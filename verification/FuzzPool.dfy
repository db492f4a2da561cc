/** The shared cursor of fuzz_common.c, with the loops and pbuf chains that move it. */
module FuzzPool {
  import opened Bits
  import opened Bytes
  import opened PoolSpec
  import PoolRuns

  /** A pbuf chain: the payload array of each segment, in order. */
  type Chain = seq<array<byte>>

  ghost predicate Distinct(c: Chain) {
    forall i, j :: 0 <= i < j < |c| ==> c[i] != c[j]
  }

  function TotalLength(c: Chain): nat {
    if c == [] then 0 else TotalLength(c[..|c| - 1]) + c[|c| - 1].Length
  }

  ghost function ChainBytes(c: Chain): (s: seq<byte>)
    reads c
    ensures |s| == TotalLength(c)
  {
    if c == [] then [] else ChainBytes(c[..|c| - 1]) + c[|c| - 1][..]
  }

  /**
   * pbuf_alloc: callers may rely only on the contract, which allows every chain of fresh segments
   * whose lengths sum to the request.
   */
  method PbufAlloc(n: nat) returns (c: Chain)
    ensures Distinct(c) && TotalLength(c) == n
    ensures forall i :: 0 <= i < |c| ==> fresh(c[i])
  {
    var segment := new byte[n];
    c := [segment];
    assert c[..0] == [];
  }

  lemma {:induction false} TotalPrefix(c: Chain, i: nat)
    requires i <= |c|
    ensures TotalLength(c[..i]) <= TotalLength(c)
  {
    if i < |c| {
      TotalPrefix(c[..|c| - 1], i);
      assert c[..|c| - 1][..i] == c[..i];
    } else {
      assert c[..i] == c;
    }
  }

  method Memcpy(to: array<byte>, bytes: seq<byte>)
    requires to.Length == |bytes|
    modifies to
    ensures to[..] == bytes
  {
    forall k | 0 <= k < to.Length {
      to[k] := bytes[k];
    }
  }

  /** The copy loop over a chain; returns the source offset after the last segment. */
  method FillChain(c: Chain, src: seq<byte>, from: nat) returns (next: nat)
    requires Distinct(c) && from + TotalLength(c) <= |src|
    modifies c
    ensures next == from + TotalLength(c)
    ensures ChainBytes(c) == src[from..next]
  {
    next := from;
    var i := 0;
    while i < |c|
      invariant 0 <= i <= |c|
      invariant next == from + TotalLength(c[..i]) <= |src|
      invariant ChainBytes(c[..i]) == src[from..next]
    {
      TotalPrefix(c, i + 1);
      assert c[..i + 1][..i] == c[..i];
      assert c[i] !in c[..i];
      var end := next + c[i].Length;
      Memcpy(c[i], src[next..end]);
      SliceJoin(src, from, next, end);
      next := end;
      i := i + 1;
    }
    assert c[..|c|] == c;
  }

  class Cursor {
    var data: seq<byte>
    /** remfuzz_ptr, as an offset into data, and remfuzz_len. */
    var ptr: nat
    var len: nat
    var sysNowOffset: nat
    ghost var log: seq<Chunk>

    ghost predicate Valid()
      reads this
    {
      ptr + len == |data| && sysNowOffset < U32
    }

    ghost function View(): Pool
      requires ptr <= |data|
      reads this
    {
      Pool(data[ptr..], log, sysNowOffset)
    }

    constructor (sysNowOffset: nat)
      requires sysNowOffset < U32
      ensures Valid() && View() == Pool([], [], sysNowOffset)
    {
      data, ptr, len, log := [], 0, 0, [];
      this.sysNowOffset := sysNowOffset;
    }

    /** Reads a 16-bit length word and steps over it. */
    method TakeLengthWord() returns (n: u16)
      requires Valid() && len > 2
      modifies this`ptr, this`len
      ensures Valid() && ptr == old(ptr) + 2
      ensures n == U16At(data[old(ptr)..])
      ensures data[ptr..] == data[old(ptr)..][2..]
    {
      n := U16At(data[ptr..ptr + 2]);
      ptr := ptr + 2;
      len := len - 2;
    }

    /** tcp_app_fuzz_input; `written` is what altcp_write gets, [] when the pcb is closed instead. */
    method TcpAppFuzzInput() returns (written: seq<byte>)
      requires Valid()
      modifies this`ptr, this`len, this`log
      ensures Valid() && View() == Consume(old(View()), Tcp)
      ensures old(len) > 2 ==> log == old(log) + [LengthWord(data[old(ptr)..][..2]), Sent(written, Tcp)]
      ensures old(len) <= 2 ==> written == [] && log == old(log)
    {
      written := [];
      if len > 2 {
        ghost var p := View();
        var n: nat := TakeLengthWord();
        n := if n < 65495 then n else 65495;
        if n > len {
          n := len;
        }
        ghost var q := p.Use(LengthWord(p.rest[..2]));
        assert q.rest == data[ptr..];
        assert n == Min(Min(U16At(p.rest), MaxData(Tcp)), |p.rest| - 2);
        if n != 0 {
          written := data[ptr..][..n];
        }
        assert written == q.rest[..n];
        ptr := ptr + n;
        len := len - n;
        log := q.log + [Sent(written, Tcp)];
        assert data[ptr..] == q.rest[n..];
        assert View() == q.Use(Sent(written, Tcp));
      }
    }

    /** Copies the next n bytes into a pbuf chain and steps over them. */
    method IntoChain(n: nat) returns (c: Chain)
      requires Valid() && n <= len
      modifies this`ptr, this`len
      ensures Valid() && ptr == old(ptr) + n
      ensures ChainBytes(c) == old(data[ptr..])[..n] && TotalLength(c) == n
    {
      c := PbufAlloc(n);
      ptr := FillChain(c, data, ptr);
      len := len - n;
    }

    /** udp_app_fuzz_input: the bytes travel through a pbuf chain. */
    method UdpAppFuzzInput()
      requires Valid()
      modifies this`ptr, this`len, this`log
      ensures Valid() && View() == Consume(old(View()), Udp)
    {
      if len > 2 {
        ghost var p := View();
        var n: nat := TakeLengthWord();
        n := if n < 65507 then n else 65507;
        if n > len {
          n := len;
        }
        ghost var q := p.Use(LengthWord(p.rest[..2]));
        assert q.rest == data[ptr..];
        if n != 0 {
          var c := IntoChain(n);
          log := q.log + [Sent(ChainBytes(c), Udp)];
        } else {
          log := q.log + [Sent(q.rest[..0], Udp)];
        }
        assert data[ptr..] == q.rest[n..];
      }
    }

    method RunCallback(cb: Callback)
      requires Valid()
      modifies this`ptr, this`len, this`log
      ensures Valid() && View() == Consume(old(View()), cb)
    {
      if cb.Tcp? {
        var _ := TcpAppFuzzInput();
      } else {
        UdpAppFuzzInput();
      }
    }

    /** netif->input, seen from the pool: any finite sequence of callbacks. */
    method NetifInput(cbs: seq<Callback>)
      requires Valid()
      modifies this`ptr, this`len, this`log
      ensures Valid() && View() == ConsumeAll(old(View()), cbs)
    {
      ghost var p := View();
      var i := 0;
      while i < |cbs|
        invariant 0 <= i <= |cbs| && Valid()
        invariant View() == ConsumeAll(p, cbs[..i])
      {
        ConsumeOneMore(p, cbs, i);
        RunCallback(cbs[i]);
        i := i + 1;
      }
      assert cbs[..|cbs|] == cbs;
    }

    /** input_pkt on n bytes starting at the cursor. */
    method InputPkt(n: nat, cbs: seq<Callback>)
      requires Valid() && n <= len
      modifies this`ptr, this`len, this`log
      ensures Valid()
      ensures View() == if n > 0xFFFF then old(View()) else InputFrame(old(View()), n, cbs)
    {
      if n > 0xFFFF {
        return;
      }
      ghost var p := View();
      var c := IntoChain(n);
      log := log + [Frame(ChainBytes(c))];
      assert data[ptr..] == p.rest[n..];
      assert View() == p.Use(Frame(p.rest[..n]));
      NetifInput(cbs);
    }

    /** The start of a loop turn: delay word if there is one, length word, and the two clamps. */
    method TakeHeader(kind: Kind) returns (externalDelay: nat, frameLen: nat)
      requires Valid() && len > HeaderSize(kind)
      modifies this`ptr, this`len, this`log
      ensures Valid() && View() == old(View()).Use(Header(old(View()).rest[..HeaderSize(kind)]))
      ensures externalDelay == Delay(kind, old(View()).rest)
      ensures frameLen == FrameLength(kind, old(View()).rest) <= len
    {
      ghost var rest := data[ptr..];
      externalDelay := 0;
      if kind == MultiTime {
        externalDelay := U32At(data[ptr..ptr + 4]);
        assert U32At(data[ptr..ptr + 4]) == U32At(rest) by {
          assert data[ptr..ptr + 4][2..] == data[ptr + 2..ptr + 4];
        }
        ptr := ptr + 4;
        len := len - 4;
      }
      assert data[ptr..] == rest[HeaderSize(kind) - 2..];
      frameLen := TakeLengthWord();
      LowMasks(frameLen);
      frameLen := And(frameLen, 0x7FF);
      frameLen := if frameLen < 1514 then frameLen else 1514;
      if frameLen > len {
        frameLen := len;
      }
      log := log + [Header(rest[..HeaderSize(kind)])];
    }

    /** One turn of the while loop of input_pkts. */
    method LoopTurn(kind: Kind, cbs: seq<Callback>)
      requires Valid() && len > HeaderSize(kind)
      modifies this`ptr, this`len, this`log, this`sysNowOffset
      ensures Valid() && View() == Turn(kind, old(View()), cbs)
    {
      ghost var p := View();
      var externalDelay, frameLen := TakeHeader(kind);
      ghost var q := View();
      if frameLen != 0 {
        if kind == MultiTime {
          sysNowOffset := Add32(sysNowOffset, externalDelay);
        }
        assert View() == q.(now := Add32(p.now, Delay(kind, p.rest)));
        InputPkt(frameLen, cbs);
      }
    }

    /** input_pkts. */
    method Run(kind: Kind, input: seq<byte>, env: nat -> seq<Callback>)
      requires Valid()
      modifies this
      ensures Valid() && data == input
      ensures View() == InputPkts(kind, input, old(sysNowOffset), env)
      ensures PoolRuns.LogBytes(log) == input[..ptr]
    {
      PoolRuns.PoolPartition(kind, input, sysNowOffset, env);
      data, ptr, len, log := input, 0, |input|, [];
      assert input[0..] == input;
      if kind == Single {
        InputPkt(len, env(0));
      } else {
        ghost var start := View();
        var packetNr := 0;
        while len > HeaderSize(kind)
          invariant Valid() && data == input
          invariant Loop(kind, View(), env, packetNr) == Loop(kind, start, env, 0)
          decreases len
        {
          LoopTurn(kind, env(packetNr));
          packetNr := packetNr + 1;
        }
      }
      PrefixOf(input, ptr, PoolRuns.LogBytes(log));
    }
  }

  lemma PrefixOf(s: seq<byte>, n: nat, x: seq<byte>)
    requires n <= |s| && x + s[n..] == s
    ensures x == s[..n]
  {
    assert |x| == n && (x + s[n..])[..n] == x;
  }
}
