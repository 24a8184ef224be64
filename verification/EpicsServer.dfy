/**
 The command server's callback over its static buffers (software/src/epics.c).
 */
module EpicsServer {
  import opened Common
  import opened Epics

  /** Swaps the first `n` words of a buffer in place. */
  method BSwap32(b: array<bv32>, n: nat)
    requires n <= b.Length
    modifies b
    ensures b[..] == SwapAll(old(b[..n])) + old(b[n..])
  {
    var i := 0;
    while i < n
      invariant 0 <= i <= n
      invariant forall k :: 0 <= k < i ==> b[k] == Swap(old(b[k]))
      invariant forall k :: i <= k < b.Length ==> b[k] == old(b[k])
    {
      b[i] := Swap(b[i]);
      i := i + 1;
    }
  }

  /** Copies words to the start of a buffer. */
  method CopyWords(b: array<bv32>, at: nat, words: seq<bv32>)
    requires at + |words| <= b.Length
    modifies b
    ensures b[..] == old(b[..at]) + words + old(b[at + |words|..])
  {
    for i := 0 to |words|
      invariant forall k :: 0 <= k < i ==> b[at + k] == words[k]
      invariant forall k :: 0 <= k < b.Length && !(at <= k < at + i) ==> b[k] == old(b[k])
    {
      b[at + i] := words[i];
    }
  }

  /** Words put at the start of a buffer, and more words behind them. */
  lemma IntoBehind(buffer: seq<bv32>, first: seq<bv32>, second: seq<bv32>)
    requires |first| + |second| <= |buffer|
    ensures var middle := Into(buffer, first);
            middle[..|first|] + second + middle[|first| + |second|..] == Into(buffer, first + second)
  {
  }

  class CommandServer<D(!new)> {
    const h: Handlers<D>
    const command: array<bv32>
    const reply: array<bv32>
    var dev: D
    var replySize: nat                 // in words
    var lastNonce: bv32

    ghost predicate Ready()
      reads this, reply
    {
      && Proper(h) && command != reply
      && command.Length == reply.Length == PACKET_WORDS
      && replySize <= PACKET_WORDS
    }

    ghost function View(): Server<D>
      reads this, reply
    {
      Server(dev, lastNonce, reply[..], replySize)
    }

    constructor (handlers: Handlers<D>, device: D)
      requires Proper(handlers)
      ensures Ready() && fresh(command) && fresh(reply) && h == handlers
      ensures dev == device && lastNonce == 0 && replySize == 0
    {
      h, dev, replySize, lastNonce := handlers, device, 0, 0;
      command := new bv32[PACKET_WORDS](_ => 0);
      reply := new bv32[PACKET_WORDS](_ => 0);
    }

    /** Runs the command in the buffer and leaves the reply, in the server's byte order. */
    method Dispatch(n: nat) returns (replyArgCount: int)
      requires Ready() && HEADER <= n <= PACKET_WORDS
      modifies `dev, reply
      ensures Ready()
      ensures var done := Execute(h, old(dev), command[..n]);
              && dev == done.dev && replyArgCount == done.count
              && (done.count < 0 ==> reply[..] == Into(old(reply[..]), command[..HEADER]))
              && (0 <= done.count ==>
                    && |done.args| == done.count <= ARG_CAPACITY
                    && reply[..] == Into(old(reply[..]), command[..HEADER] + done.args))
    {
      ghost var was, header := reply[..], command[..HEADER];
      CopyWords(reply, 0, command[..HEADER]);
      assert reply[..] == Into(was, header);
      var done := h.application(dev, command[..n]);
      dev := done.dev;
      if done.count < 0 {
        done := h.common(dev, command[..n]);
        dev := done.dev;
        if done.count < 0 {
          return done.count;
        }
      }
      ghost var middle, k := reply[..], HEADER + |done.args|;
      assert reply[..HEADER] == middle[..HEADER] && reply[k..] == middle[k..];
      CopyWords(reply, HEADER, done.args);
      IntoBehind(was, header, done.args);
      replyArgCount := done.count;
    }

    /** Executes the command in the buffer and caches the reply, swapped back if need be. */
    method Answer(n: nat, mustSwap: bool) returns (sent: Option<seq<bv32>>)
      requires Ready() && HEADER <= n <= PACKET_WORDS
      modifies this, reply
      ensures Ready()
      ensures var done := Execute(h, old(dev), command[..n]);
              var answer := command[..HEADER] + done.args;
              var out := if mustSwap then SwapAll(answer) else answer;
              if done.count < 0 then
                sent == None
                && View() == old(View()).(dev := done.dev, reply := Into(old(reply[..]), command[..HEADER]))
              else
                |out| <= PACKET_WORDS
                && sent == Some(out)
                && View() == Server(done.dev, command[1], Into(old(reply[..]), out), |out|)
    {
      var replyArgCount := Dispatch(n);
      if replyArgCount < 0 {
        return None;
      }
      lastNonce := command[1];
      replySize := HEADER + replyArgCount;
      if mustSwap {
        BSwap32(reply, replySize);
      }
      sent := Some(reply[..replySize]);
    }

    /** Copies the packet into the command buffer, in the server's byte order. */
    method Load(p: Datagram) returns (mustSwap: bool)
      requires Ready() && Sized(p)
      modifies command
      ensures command[..|p.words|] == Native(p.words)
      ensures mustSwap <==> p.words[0] == MAGIC_SWAPPED
    {
      CopyWords(command, 0, p.words);
      assert command[..|p.words|] == p.words;
      mustSwap := command[0] == MAGIC_SWAPPED;
      if mustSwap {
        BSwap32(command, |p.words|);
      }
    }

    method Callback(p: Datagram) returns (sent: Option<seq<bv32>>)
      requires Ready() && |p.words| == p.len / 4
      modifies this, command, reply
      ensures Ready()
      ensures (View(), sent) == Receive(h, old(View()), p)
    {
      if p.len < 4 * HEADER || p.len > 4 * PACKET_WORDS || p.len % 4 != 0 {
        return None;
      }
      var n := p.len / 4;
      var mustSwap := Load(p);
      ghost var words := command[..n];
      assert command[0] == words[0] && command[1] == words[1] && command[..HEADER] == words[..HEADER];
      if command[0] != MAGIC {
        return None;
      }
      if command[1] != lastNonce {
        ghost var was := reply[..];
        sent := Answer(n, mustSwap);
        if sent.Some? {
          IntoTwice(was, command[..HEADER], sent.value);
        }
        return;
      }
      sent := Some(reply[..replySize]);
    }
  }

  lemma IntoTwice(b: seq<bv32>, short: seq<bv32>, long: seq<bv32>)
    requires |short| <= |long| <= |b|
    ensures Into(Into(b, short), long) == Into(b, long)
  {
  }
}
