/**
 Client and server together, over two channels that lose and duplicate packets but keep their
 order (software/src/tftp.c; RFC 1350, sections 2 and 6).
 */
module TftpRuns {
  import opened Common
  import opened Tftp
  import opened TftpJobs

  /** The client has had replies to messages 0 to `c - 1` and keeps sending message `c`; `got`
      is what it has of a download. The server has taken messages 0 to `k`. */
  datatype System = System(c: nat, got: Bytes, k: int, server: Server, toServer: seq<Bytes>, toClient: seq<Reply>)

  datatype Event =
    | ClientSends
    | ServerReceives(again: bool)      // `again`: the channel will deliver the same packet once more
    | ClientReceives(again: bool)
    | LostToServer
    | LostToClient

  /** Does the client accept the reply as the one it is waiting for? It looks only at the number. */
  predicate Accepts(job: Job, c: nat, reply: Reply) {
    if job.upload then c <= job.Blocks() && reply.AckReply? && reply.block == Wire(c)
    else c < job.Blocks() && reply.DataReply? && reply.block == Wire(c + 1)
  }

  /** Is the packet the message after the `k`-th? */
  ghost predicate TakesNew(job: Job, k: int, packet: Bytes) {
    -1 <= k < job.Blocks() && packet == job.Message(k + 1)
  }

  function Rest<T>(q: seq<T>, again: bool): seq<T>
    requires q != []
  {
    if again then q else q[1..]
  }

  /** Messages taken after the next packet. */
  ghost function Taken(job: Job, k: int, packet: Bytes): int {
    if TakesNew(job, k, packet) then k + 1 else k
  }

  ghost function AfterServer(y: System, k: int, outcome: Outcome, again: bool): System
    requires y.toServer != []
  {
    y.(k := k, server := outcome.0, toServer := Rest(y.toServer, again), toClient := y.toClient + outcome.1)
  }

  ghost function AfterClient(job: Job, y: System, again: bool): System
    requires y.toClient != []
  {
    var reply := y.toClient[0];
    var read := y.(toClient := Rest(y.toClient, again));
    if !Accepts(job, y.c, reply) then read
    else read.(c := y.c + 1, got := if reply.DataReply? then y.got + reply.payload else y.got)
  }

  ghost function Step(env: Env, job: Job, y: System, e: Event): System {
    match e
    case ClientSends =>
      if y.c <= job.Blocks() then y.(toServer := y.toServer + [job.Message(y.c)]) else y
    case ServerReceives(again) =>
      if y.toServer == [] then y
      else AfterServer(y, Taken(job, y.k, y.toServer[0]), Receive(env, y.server, y.toServer[0]), again)
    case ClientReceives(again) =>
      if y.toClient == [] then y else AfterClient(job, y, again)
    case LostToServer => if y.toServer == [] then y else y.(toServer := y.toServer[1..])
    case LostToClient => if y.toClient == [] then y else y.(toClient := y.toClient[1..])
  }

  ghost function Run(env: Env, job: Job, y: System, events: seq<Event>): System {
    if events == [] then y
    else Step(env, job, Run(env, job, y, events[..|events| - 1]), events[|events| - 1])
  }

  /** A queue of `older` entries followed by `newer` ones. */
  ghost predicate TwoPhase<T(!new)>(q: seq<T>, older: T, newer: T) {
    && (forall i :: 0 <= i < |q| ==> q[i] == older || q[i] == newer)
    && (forall i, j :: 0 <= i < j < |q| && q[i] == newer ==> q[j] == newer)
  }

  ghost predicate All<T(!new)>(q: seq<T>, x: T) {
    forall i :: 0 <= i < |q| ==> q[i] == x
  }

  function Before(c: nat): nat {
    if c == 0 then 0 else c - 1
  }

  /** What the channels hold: on each, leftovers of the step before and then the current step. */
  ghost predicate Queues(job: Job, c: nat, k: int, toServer: seq<Bytes>, toClient: seq<Reply>) {
    var m := job.Blocks();
    && c <= (if job.upload then m + 1 else m)
    && k <= m
    && (k == c - 1 || k == c)
    && (k == c - 1 ==>
          && TwoPhase(toServer, job.Message(Before(c)), job.Message(Min(c, m)))
          && (toClient != [] ==> 0 < c && All(toClient, job.Answer(c - 1))))
    && (k == c ==>
          && All(toServer, job.Message(c))
          && TwoPhase(toClient, job.Answer(Before(c)), job.Answer(Min(c, job.LastAnswered()))))
  }

  ghost predicate InStep(env: Env, job: Job, s0: Server, y: System) {
    && -1 <= y.k
    && ServerAt(env, job, s0, y.k, y.server)
    && Queues(job, y.c, y.k, y.toServer, y.toClient)
    && y.got == (if job.upload then [] else Prefix(job.data, y.c))
  }

  lemma MessagesDiffer(env: Env, job: Job, files: Files, c: nat)
    requires Proper(env, job, files)
    ensures job.Message(c + 1) != job.Message(c)
  {
    WireAdvances(c);
    MessageFields(job, c + 1);
    if c != 0 {
      MessageFields(job, c);
    }
  }

  /** A reply is accepted exactly when it answers the message the client is sending. */
  lemma AnswersDiffer(job: Job, c: nat)
    ensures job.Answer(c + 1) != job.Answer(c)
    ensures !Accepts(job, c + 1, job.Answer(c))
    ensures c <= job.LastAnswered() ==> Accepts(job, c, job.Answer(c))
  {
    WireAdvances(c);
    WireAdvances(c + 1);
  }

  lemma ServerTakesNew(job: Job, c: nat, toServer: seq<Bytes>, toClient: seq<Reply>, again: bool)
    requires Queues(job, c, c - 1, toServer, toClient) && toServer != []
    requires c <= job.Blocks() && toServer[0] == job.Message(c)
    ensures Queues(job, c, c, Rest(toServer, again),
                   toClient + if c <= job.LastAnswered() then [job.Answer(c)] else [])
  {
  }

  lemma ServerTakesOld(job: Job, c: nat, k: nat, toServer: seq<Bytes>, toClient: seq<Reply>, again: bool,
                       replies: seq<Reply>)
    requires Queues(job, c, k, toServer, toClient) && toServer != []
    requires replies == [] || (k <= job.LastAnswered() && replies == [job.Answer(k)])
    ensures Queues(job, c, k, Rest(toServer, again), toClient + replies)
  {
  }

  lemma HeadOfServerQueue(job: Job, y: System)
    requires Queues(job, y.c, y.k, y.toServer, y.toClient) && y.toServer != [] && -1 <= y.k
    requires job.Message(y.c) != job.Message(y.c + 1)
    ensures TakesNew(job, y.k, y.toServer[0]) ==> y.k + 1 == y.c
    ensures !TakesNew(job, y.k, y.toServer[0]) ==> 0 <= y.k && y.toServer[0] == job.Message(y.k)
  {
    hide Job.Message, Job.Answer, Last;
    var head := y.toServer[0];
    if y.k == y.c {
      assert head == job.Message(y.k);
    } else {
      assert head == job.Message(Before(y.c)) || head == job.Message(Min(y.c, job.Blocks()));
    }
  }

  /** What the server does with the next message, or with one it has had. */
  lemma ServerOutcome(env: Env, job: Job, s0: Server, k: int, s: Server, head: Bytes)
    requires Proper(env, job, s0.files) && ServerAt(env, job, s0, k, s) && -1 <= k <= job.Blocks()
    requires TakesNew(job, k, head) || (0 <= k && head == job.Message(k))
    ensures var replies := Receive(env, s, head).1;
            var k' := Taken(job, k, head);
            && ServerAt(env, job, s0, k', Receive(env, s, head).0)
            && (k' == k ==> replies == [] || (k <= job.LastAnswered() && replies == [job.Answer(k)]))
            && (k' != k ==> replies == if k' <= job.LastAnswered() then [job.Answer(k')] else [])
  {
    if TakesNew(job, k, head) {
      TakesNext(env, job, s0, k, s);
    } else {
      TakesAgain(env, job, s0, k, s);
    }
  }

  lemma AfterServerQueues(job: Job, y: System, k: nat, outcome: Outcome, again: bool)
    requires Queues(job, y.c, y.k, y.toServer, y.toClient) && y.toServer != [] && y.toServer[0] == job.Message(k)
    requires k == y.k ==> outcome.1 == [] || (k <= job.LastAnswered() && outcome.1 == [job.Answer(k)])
    requires k != y.k ==> k == y.c == y.k + 1 <= job.Blocks()
    requires k != y.k ==> outcome.1 == if k <= job.LastAnswered() then [job.Answer(k)] else []
    ensures var y' := AfterServer(y, k, outcome, again);
            Queues(job, y'.c, y'.k, y'.toServer, y'.toClient)
  {
    if k == y.k {
      ServerTakesOld(job, y.c, k, y.toServer, y.toClient, again, outcome.1);
    } else {
      ServerTakesNew(job, y.c, y.toServer, y.toClient, again);
    }
  }

  lemma ServerReceivesInStep(env: Env, job: Job, s0: Server, y: System, again: bool)
    requires Proper(env, job, s0.files) && InStep(env, job, s0, y)
    ensures InStep(env, job, s0, Step(env, job, y, ServerReceives(again)))
  {
    hide Proper, ServerAt, Receive, Job.Message, Job.Answer, Last, Prefix, Slice;
    if y.toServer != [] {
      MessagesDiffer(env, job, s0.files, y.c);
      HeadOfServerQueue(job, y);
      ServerOutcome(env, job, s0, y.k, y.server, y.toServer[0]);
      AfterServerQueues(job, y, Taken(job, y.k, y.toServer[0]), Receive(env, y.server, y.toServer[0]), again);
    }
  }

  lemma HeadOfClientQueue(job: Job, y: System)
    requires Queues(job, y.c, y.k, y.toServer, y.toClient) && y.toClient != []
    ensures Accepts(job, y.c, y.toClient[0]) ==> y.k == y.c && y.toClient[0] == job.Answer(y.c)
  {
    AnswersDiffer(job, y.c);
    if 0 < y.c {
      AnswersDiffer(job, y.c - 1);
    }
  }

  lemma AfterClientQueues(job: Job, y: System, again: bool)
    requires Queues(job, y.c, y.k, y.toServer, y.toClient) && y.toClient != []
    ensures var y' := AfterClient(job, y, again);
            Queues(job, y'.c, y'.k, y'.toServer, y'.toClient)
  {
    HeadOfClientQueue(job, y);
  }

  lemma AfterClientGot(job: Job, y: System, again: bool)
    requires Queues(job, y.c, y.k, y.toServer, y.toClient) && y.toClient != []
    requires y.got == (if job.upload then [] else Prefix(job.data, y.c))
    ensures var y' := AfterClient(job, y, again);
            y'.got == (if job.upload then [] else Prefix(job.data, y'.c))
  {
    HeadOfClientQueue(job, y);
    if Accepts(job, y.c, y.toClient[0]) && !job.upload {
      SliceFacts(job.data, y.c + 1);
    }
  }

  lemma ClientReceivesInStep(env: Env, job: Job, s0: Server, y: System, again: bool)
    requires InStep(env, job, s0, y)
    ensures InStep(env, job, s0, Step(env, job, y, ClientReceives(again)))
  {
    if y.toClient != [] {
      AfterClientQueues(job, y, again);
      AfterClientGot(job, y, again);
    }
  }

  lemma SendAndLoseQueues(job: Job, c: nat, k: int, toServer: seq<Bytes>, toClient: seq<Reply>)
    requires Queues(job, c, k, toServer, toClient)
    ensures c <= job.Blocks() ==> Queues(job, c, k, toServer + [job.Message(c)], toClient)
    ensures toServer != [] ==> Queues(job, c, k, toServer[1..], toClient)
    ensures toClient != [] ==> Queues(job, c, k, toServer, toClient[1..])
  {
  }

  /** Losing, duplicating and retransmitting never gets client and server out of step. */
  lemma StepStaysInStep(env: Env, job: Job, s0: Server, y: System, e: Event)
    requires Proper(env, job, s0.files) && InStep(env, job, s0, y)
    ensures InStep(env, job, s0, Step(env, job, y, e))
  {
    match e
    case ServerReceives(again) => ServerReceivesInStep(env, job, s0, y, again);
    case ClientReceives(again) => ClientReceivesInStep(env, job, s0, y, again);
    case _ => SendAndLoseQueues(job, y.c, y.k, y.toServer, y.toClient);
  }

  /** Nothing sent yet, and a server in any state. */
  function Start(s0: Server): System {
    System(0, [], -1, s0, [], [])
  }

  lemma {:induction false} RunStaysInStep(env: Env, job: Job, s0: Server, events: seq<Event>)
    requires Proper(env, job, s0.files)
    ensures InStep(env, job, s0, Run(env, job, Start(s0), events))
  {
    if events == [] {
      assert Prefix(job.data, 0) == [];
    } else {
      RunStaysInStep(env, job, s0, events[..|events| - 1]);
      StepStaysInStep(env, job, s0, Run(env, job, Start(s0), events[..|events| - 1]), events[|events| - 1]);
    }
  }

  /** Upload: at every moment the open file holds exactly the first `k` blocks and the block
      counter is `k` modulo 65536; when the last block is in, and not before, the digesting
      hook has run, once, and it saw the whole file. A client that has its last
      acknowledgement knows that this has happened. */
  lemma UploadDelivers(env: Env, job: Job, s0: Server, events: seq<Event>)
    requires Proper(env, job, s0.files) && job.upload
    ensures var y := Run(env, job, Start(s0), events);
            var s := y.server;
            && -1 <= y.k <= job.Blocks()
            && (0 <= y.k < job.Blocks() ==>
                  s.files == s0.files[job.name := Prefix(job.data, y.k)] && s.lastBlock == y.k % 0x1_0000
                  && s.posted == s0.posted && s.committed == s0.committed)
            && (y.k == job.Blocks() ==>
                  && s.files == s0.files[job.name := job.data]
                  && s.posted == s0.posted + [(job.index, s.files)]
                  && s.committed == s0.committed
                                    + if 0 < env.postReceive(job.index, s.files) then [job.index] else [])
            && (y.c == job.Blocks() + 1 ==> y.k == job.Blocks())
  {
    RunStaysInStep(env, job, s0, events);
  }

  /** Download: at every moment the client holds exactly a prefix of the file, and after
      floor(length / 512) + 1 blocks it holds the whole file. */
  lemma DownloadDelivers(env: Env, job: Job, s0: Server, events: seq<Event>)
    requires Proper(env, job, s0.files) && !job.upload
    ensures var y := Run(env, job, Start(s0), events);
            && y.c <= job.Blocks() == |job.data| / 512 + 1
            && y.got == Prefix(job.data, y.c)
            && (y.c == job.Blocks() ==> y.got == job.data)
  {
    RunStaysInStep(env, job, s0, events);
    SliceFacts(job.data, job.Blocks());
  }

  /** The replies to a sequence of packets, in order. */
  ghost function Replies(env: Env, s: Server, packets: seq<Bytes>): seq<Reply>
    decreases |packets|
  {
    if packets == [] then []
    else Receive(env, s, packets[0]).1 + Replies(env, Receive(env, s, packets[0]).0, packets[1..])
  }

  /** A data packet with the right bytes for its number. */
  ghost predicate IsBlockOf(data: Bytes, r: Reply) {
    exists j :: 1 <= j <= Last(data) && r == DataReply(j % 0x1_0000, Slice(data, j))
  }

  /** Every data packet of a download, first sent or sent again, holds the block its number
      says, for whatever acknowledgements arrive, in any order and with any numbers. */
  lemma {:induction false} EveryBlockSentIsRight(env: Env, job: Job, s0: Server, k: nat, s: Server, packets: seq<Bytes>)
    requires Proper(env, job, s0.files) && !job.upload && k <= job.Blocks() && ServerAt(env, job, s0, k, s)
    requires forall p :: p in packets ==> 4 <= |p| && Number(p[0], p[1]) == OPCODE_ACK
    ensures forall r :: r in Replies(env, s, packets) ==> IsBlockOf(job.data, r)
    decreases |packets|
  {
    if packets != [] {
      var p, s', replies := packets[0], Receive(env, s, packets[0]).0, Receive(env, s, packets[0]).1;
      if k < job.Blocks() {
        DownloadOnAnyAck(env, job, s0, k, s, p);
        var k' := if Number(p[2], p[3]) == Wire(k + 1) then k + 1 else k;
        EveryBlockSentIsRight(env, job, s0, k', s', packets[1..]);
        assert forall r :: r in replies ==> r == job.Answer(k') && IsBlockOf(job.data, r);
      } else {
        EveryBlockSentIsRight(env, job, s0, k, s', packets[1..]);
      }
    }
  }
}
