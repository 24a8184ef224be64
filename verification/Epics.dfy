/**
 The command server (software/src/epics.c): requests carry a nonce, a request with the nonce of
 the last executed one is answered from the cached reply, and clients of either byte order are
 served. What a command does to the device is left open.
 */
module Epics {
  import opened Common

  const MAGIC: bv32 := 0xD06F9D91
  const MAGIC_SWAPPED: bv32 := 0x919D6FD0
  const HEADER := 3                    // magic, nonce, command
  const ARG_CAPACITY := 350
  const PACKET_WORDS := HEADER + ARG_CAPACITY

  /** Outcome of a command handler: a negative count means the command was not recognised. */
  datatype Handled<+D> = Handled(dev: D, count: int, args: seq<bv32>)

  /** The two handlers, tried in turn on the device and the words of the command. */
  datatype Handlers<!D> = Handlers(application: (D, seq<bv32>) -> Handled<D>, common: (D, seq<bv32>) -> Handled<D>)

  ghost predicate Proper<D(!new)>(h: Handlers<D>) {
    && (forall d, w :: h.application(d, w).count <= ARG_CAPACITY
                       && (0 <= h.application(d, w).count ==> |h.application(d, w).args| == h.application(d, w).count))
    && (forall d, w :: h.common(d, w).count <= ARG_CAPACITY
                       && (0 <= h.common(d, w).count ==> |h.common(d, w).args| == h.common(d, w).count))
  }

  function Execute<D>(h: Handlers<D>, dev: D, command: seq<bv32>): Handled<D> {
    var first := h.application(dev, command);
    if 0 <= first.count then first else h.common(first.dev, command)
  }

  /** A datagram: its length in bytes and the whole words in it. */
  datatype Datagram = Datagram(len: nat, words: seq<bv32>)

  /** `reply` is the static reply buffer; its first `replySize` words answer `lastNonce`. */
  datatype Server<+D> = Server(dev: D, lastNonce: bv32, reply: seq<bv32>, replySize: nat)

  function Swap(w: bv32): bv32 {
    (w << 24) | ((w & 0xFF00) << 8) | ((w >> 8) & 0xFF00) | (w >> 24)
  }

  function SwapAll(ws: seq<bv32>): (r: seq<bv32>)
    ensures |r| == |ws|
  {
    seq(|ws|, i requires 0 <= i < |ws| => Swap(ws[i]))
  }

  lemma SwapTwice(w: bv32)
    ensures Swap(Swap(w)) == w
  {
  }

  /** It puts the four bytes in the opposite order. */
  lemma SwapReversesBytes(w: bv32)
    ensures Swap(w) & 0xFF == w >> 24 && (Swap(w) >> 8) & 0xFF == (w >> 16) & 0xFF
    ensures (Swap(w) >> 16) & 0xFF == (w >> 8) & 0xFF && Swap(w) >> 24 == w & 0xFF
  {
  }

  lemma SwapAllTwice(ws: seq<bv32>)
    ensures SwapAll(SwapAll(ws)) == ws
  {
    forall i | 0 <= i < |ws|
      ensures SwapAll(SwapAll(ws))[i] == ws[i]
    {
      SwapTwice(ws[i]);
    }
  }

  lemma MagicsAreSwapped()
    ensures Swap(MAGIC) == MAGIC_SWAPPED && Swap(MAGIC_SWAPPED) == MAGIC && MAGIC != MAGIC_SWAPPED
  {
  }

  /** Between 3 and 353 whole words. */
  predicate Sized(p: Datagram) {
    4 * HEADER <= p.len <= 4 * PACKET_WORDS && p.len % 4 == 0 && |p.words| == p.len / 4
  }

  /** The command in the server's own byte order. */
  function Native(words: seq<bv32>): (r: seq<bv32>)
    requires words != []
    ensures |r| == |words|
  {
    if words[0] == MAGIC_SWAPPED then SwapAll(words) else words
  }

  /** Puts words at the start of a buffer. */
  function Into(buffer: seq<bv32>, words: seq<bv32>): (r: seq<bv32>)
    requires |words| <= |buffer|
    ensures |r| == |buffer| && r[..|words|] == words
  {
    words + buffer[|words|..]
  }

  ghost predicate Valid<D>(s: Server<D>) {
    |s.reply| == PACKET_WORDS && s.replySize <= PACKET_WORDS
  }

  ghost function Receive<D(!new)>(h: Handlers<D>, s: Server<D>, p: Datagram): (r: (Server<D>, Option<seq<bv32>>))
    requires Proper(h) && Valid(s)
    ensures Valid(r.0)
  {
    if !Sized(p) then (s, None)
    else
      var swapped := p.words[0] == MAGIC_SWAPPED;
      var command := Native(p.words);
      if command[0] != MAGIC then (s, None)
      else if command[1] == s.lastNonce then (s, Some(s.reply[..s.replySize]))
      else
        var done := Execute(h, s.dev, command);
        var header := Into(s.reply, command[..HEADER]);
        if done.count < 0 then (s.(dev := done.dev, reply := header), None)
        else
          var answer := command[..HEADER] + done.args;
          var sent := if swapped then SwapAll(answer) else answer;
          (Server(done.dev, command[1], Into(header, sent), |sent|), Some(sent))
  }

  /** If the command fails, it leaves the device alone. */
  ghost predicate FailsPurely<D(!new)>(h: Handlers<D>, dev: D, p: Datagram) {
    Sized(p) && Execute(h, dev, Native(p.words)).count < 0 ==> Execute(h, dev, Native(p.words)).dev == dev
  }

  /** A request that arrives again at once changes nothing and gets the very same reply. */
  lemma RepeatIsFree<D(!new)>(h: Handlers<D>, s: Server<D>, p: Datagram)
    requires Proper(h) && Valid(s) && FailsPurely(h, s.dev, p)
    ensures Receive(h, Receive(h, s, p).0, p) == Receive(h, s, p)
  {
    if Sized(p) {
      var command := Native(p.words);
      var s' := Receive(h, s, p).0;
      if command[0] == MAGIC && command[1] != s.lastNonce && Execute(h, s.dev, command).count < 0 {
        assert Into(s'.reply, command[..HEADER]) == s'.reply;
      }
    }
  }

  datatype Repeated = Repeated(request: Datagram, times: nat)

  function Copies<T>(x: T, n: nat): (r: seq<T>)
    ensures |r| == n && forall i :: 0 <= i < n ==> r[i] == x
  {
    seq(n, i => x)
  }

  function Expand(rs: seq<Repeated>): seq<Datagram> {
    if rs == [] then [] else Expand(rs[..|rs| - 1]) + Copies(rs[|rs| - 1].request, rs[|rs| - 1].times)
  }

  function Singles(rs: seq<Repeated>): (r: seq<Datagram>)
    ensures |r| == |rs|
  {
    seq(|rs|, i requires 0 <= i < |rs| => rs[i].request)
  }

  ghost function Run<D(!new)>(h: Handlers<D>, s: Server<D>, ps: seq<Datagram>): (r: (Server<D>, seq<Option<seq<bv32>>>))
    requires Proper(h) && Valid(s)
    ensures Valid(r.0) && |r.1| == |ps|
  {
    if ps == [] then (s, [])
    else
      var before := Run(h, s, ps[..|ps| - 1]);
      var last := Receive(h, before.0, ps[|ps| - 1]);
      (last.0, before.1 + [last.1])
  }

  lemma {:induction false} RunConcat<D(!new)>(h: Handlers<D>, s: Server<D>, a: seq<Datagram>, b: seq<Datagram>)
    requires Proper(h) && Valid(s)
    ensures Run(h, s, a + b) == (Run(h, Run(h, s, a).0, b).0, Run(h, s, a).1 + Run(h, Run(h, s, a).0, b).1)
  {
    if b == [] {
      assert a + b == a;
      assert Run(h, s, a).1 + [] == Run(h, s, a).1;
    } else {
      var front := b[..|b| - 1];
      RunConcat(h, s, a, front);
      assert (a + b)[..|a + b| - 1] == a + front;
      var middle := Run(h, s, a);
      var before := Run(h, middle.0, front);
      var last := Receive(h, before.0, b[|b| - 1]);
      assert (middle.1 + before.1) + [last.1] == middle.1 + (before.1 + [last.1]);
    }
  }

  /** A request sent any number of times in a row acts as if it had been sent once. */
  lemma {:induction false} CopiesActOnce<D(!new)>(h: Handlers<D>, s: Server<D>, p: Datagram, n: nat)
    requires Proper(h) && Valid(s) && FailsPurely(h, s.dev, p) && 1 <= n
    ensures Run(h, s, Copies(p, n)) == (Receive(h, s, p).0, Copies(Receive(h, s, p).1, n))
  {
    var front := Copies(p, n - 1);
    var first := Receive(h, s, p);
    assert Copies(p, n)[..n - 1] == front && Copies(p, n)[n - 1] == p;
    assert Run(h, s, Copies(p, n)) ==
           (Receive(h, Run(h, s, front).0, p).0, Run(h, s, front).1 + [Receive(h, Run(h, s, front).0, p).1]);
    if n == 1 {
      assert Run(h, s, front) == (s, []);
      assert Run(h, s, front).1 + [first.1] == Copies(first.1, 1);
    } else {
      CopiesActOnce(h, s, p, n - 1);
      RepeatIsFree(h, s, p);
      assert Run(h, s, front).1 + [first.1] == Copies(first.1, n);
    }
  }

  ghost function RepeatAnswers(rs: seq<Repeated>, answers: seq<Option<seq<bv32>>>): seq<Option<seq<bv32>>>
    requires |rs| == |answers|
  {
    if rs == [] then []
    else
      var n := |rs| - 1;
      RepeatAnswers(rs[..n], answers[..n]) + Copies(answers[n], rs[n].times)
  }

  /** Commands that fail leave the device alone where they first arrive. */
  ghost predicate AllFailPurely<D(!new)>(h: Handlers<D>, s: Server<D>, rs: seq<Repeated>)
    requires Proper(h) && Valid(s)
  {
    rs != [] ==>
      var n := |rs| - 1;
      && AllFailPurely(h, s, rs[..n])
      && FailsPurely(h, Run(h, s, Singles(rs[..n])).0.dev, rs[n].request)
  }

  /** At most once: a stream in which every request is repeated any number of times before the
      next leaves server and device as the stream without repeats does, and every repeat gets
      the reply of the original. */
  lemma {:induction false} RepeatedStreamActsOnce<D(!new)>(h: Handlers<D>, s: Server<D>, rs: seq<Repeated>)
    requires Proper(h) && Valid(s)
    requires forall r :: r in rs ==> 1 <= r.times
    requires AllFailPurely(h, s, rs)
    ensures var once := Run(h, s, Singles(rs));
            Run(h, s, Expand(rs)) == (once.0, RepeatAnswers(rs, once.1))
  {
    if rs != [] {
      var n := |rs| - 1;
      RepeatedStreamActsOnce(h, s, rs[..n]);
      assert Singles(rs)[..n] == Singles(rs[..n]);
      var before := Run(h, s, Singles(rs[..n]));
      CopiesActOnce(h, before.0, rs[n].request, rs[n].times);
      RunConcat(h, s, Expand(rs[..n]), Copies(rs[n].request, rs[n].times));
      assert Run(h, s, Singles(rs)).1[..n] == before.1;
    }
  }

  /** A well-formed request whose nonce is not the last executed one. */
  predicate Fresh<D>(s: Server<D>, p: Datagram) {
    Sized(p) && Native(p.words)[0] == MAGIC && Native(p.words)[1] != s.lastNonce
  }

  lemma FreshIsExecuted<D(!new)>(h: Handlers<D>, s: Server<D>, p: Datagram)
    requires Proper(h) && Valid(s) && Fresh(s, p)
    ensures Receive(h, s, p).0.dev == Execute(h, s.dev, Native(p.words)).dev
  {
  }

  /** Everything but a request is ignored: what has less than 3 or more than 353 words, or a broken
      one, or begins with neither form of the magic number. */
  lemma StrayIsIgnored<D(!new)>(h: Handlers<D>, s: Server<D>, p: Datagram)
    requires Proper(h) && Valid(s) && |p.words| == p.len / 4
    requires p.len < 12 || 1412 < p.len || p.len % 4 != 0 || p.words[0] !in {0xD06F9D91, 0x919D6FD0}
    ensures Receive(h, s, p) == (s, None)
  {
    MagicsAreSwapped();
  }

  /** Everything else is a request. */
  lemma RequestIsWellFormed(p: Datagram)
    requires 12 <= p.len <= 1412 && p.len % 4 == 0 && |p.words| == p.len / 4
    requires p.words[0] in {0xD06F9D91, 0x919D6FD0}
    ensures WellFormed(p)
  {
    MagicsAreSwapped();
  }

  /** Words in the byte order of the client that is being answered. */
  function InOrderOf(p: Datagram, words: seq<bv32>): seq<bv32>
    requires p.words != []
  {
    if p.words[0] == MAGIC_SWAPPED then SwapAll(words) else words
  }

  /** What happens to a fresh request, in terms of the two handlers. One that the application
      recognises is answered by it, and the common handler does nothing. One that it declines goes to
      the common handler, on the device as the application left it. There is no reply if and only if
      both decline. */
  lemma FreshIsAnswered<D(!new)>(h: Handlers<D>, s: Server<D>, p: Datagram)
    requires Proper(h) && Valid(s) && Fresh(s, p)
    ensures var command := Native(p.words);
            var first := h.application(s.dev, command);
            var second := h.common(first.dev, command);
            var (s', reply) := Receive(h, s, p);
            && (0 <= first.count ==>
                  s'.dev == first.dev && reply == Some(InOrderOf(p, command[..HEADER] + first.args)))
            && (first.count < 0 <= second.count ==>
                  s'.dev == second.dev && reply == Some(InOrderOf(p, command[..HEADER] + second.args)))
            && (first.count < 0 && second.count < 0 ==> s'.dev == second.dev)
            && (reply == None <==> first.count < 0 && second.count < 0)
            && s'.lastNonce == if reply == None then s.lastNonce else command[1]
  {
  }

  /** A request as a client of either byte order sends it. */
  predicate WellFormed(p: Datagram) {
    Sized(p) && Native(p.words)[0] == MAGIC
  }

  function Nonce(p: Datagram): bv32
    requires Sized(p)
  {
    Native(p.words)[1]
  }

  ghost predicate AllWellFormed(ps: seq<Datagram>) {
    forall i :: 0 <= i < |ps| ==> WellFormed(ps[i])
  }

  /** The requests of a run that are executed, in order. */
  ghost function Executed<D(!new)>(h: Handlers<D>, s: Server<D>, ps: seq<Datagram>): (r: seq<Datagram>)
    requires Proper(h) && Valid(s)
    ensures |r| <= |ps| && forall p :: p in r ==> Sized(p)
  {
    if ps == [] then []
    else
      var front, last := ps[..|ps| - 1], ps[|ps| - 1];
      Executed(h, s, front) + if Fresh(Run(h, s, front).0, last) then [last] else []
  }

  /** The device after executing each command once, in order. */
  ghost function Effects<D(!new)>(h: Handlers<D>, dev: D, ps: seq<Datagram>): D
    requires forall p :: p in ps ==> Sized(p)
  {
    if ps == [] then dev
    else
      assert Sized(ps[|ps| - 1]);
      Execute(h, Effects(h, dev, ps[..|ps| - 1]), Native(ps[|ps| - 1].words)).dev
  }

  /** Whatever arrives, the device sees the executed requests, each once and in order, and
      nothing else. */
  lemma {:induction false} DeviceSeesExecuted<D(!new)>(h: Handlers<D>, s: Server<D>, ps: seq<Datagram>)
    requires Proper(h) && Valid(s)
    ensures Run(h, s, ps).0.dev == Effects(h, s.dev, Executed(h, s, ps))
  {
    if ps != [] {
      var front, last := ps[..|ps| - 1], ps[|ps| - 1];
      DeviceSeesExecuted(h, s, front);
      var done := Executed(h, s, front);
      if Fresh(Run(h, s, front).0, last) {
        FreshIsExecuted(h, Run(h, s, front).0, last);
        assert (done + [last])[..|done|] == done;
      } else {
        StaleIsNotExecuted(h, Run(h, s, front).0, last);
        assert done + [] == done;
      }
    }
  }

  lemma StaleIsNotExecuted<D(!new)>(h: Handlers<D>, s: Server<D>, p: Datagram)
    requires Proper(h) && Valid(s) && !Fresh(s, p)
    ensures Receive(h, s, p).0 == s
  {
  }

  /** The nonce of the last request that was answered, as its client knows it. */
  ghost function LastAnswered(start: bv32, ps: seq<Datagram>, answers: seq<Option<seq<bv32>>>): bv32
    requires |ps| == |answers| && AllWellFormed(ps)
  {
    if ps == [] then start
    else
      var n := |ps| - 1;
      if answers[n].Some? then Nonce(ps[n]) else LastAnswered(start, ps[..n], answers[..n])
  }

  /** Every request has another nonce than the last one that was answered before it. */
  ghost predicate NoncesDiffer(start: bv32, ps: seq<Datagram>, answers: seq<Option<seq<bv32>>>)
    requires |ps| == |answers| && AllWellFormed(ps)
  {
    ps != [] ==>
      var n := |ps| - 1;
      && NoncesDiffer(start, ps[..n], answers[..n])
      && Nonce(ps[n]) != LastAnswered(start, ps[..n], answers[..n])
  }

  lemma {:induction false} LastNonceIsLastAnswered<D(!new)>(h: Handlers<D>, s: Server<D>, ps: seq<Datagram>)
    requires Proper(h) && Valid(s) && AllWellFormed(ps)
    ensures Run(h, s, ps).0.lastNonce == LastAnswered(s.lastNonce, ps, Run(h, s, ps).1)
  {
    if ps != [] {
      var n := |ps| - 1;
      LastNonceIsLastAnswered(h, s, ps[..n]);
      AnswerSetsNonce(h, Run(h, s, ps[..n]).0, ps[n]);
      assert Run(h, s, ps).1[..n] == Run(h, s, ps[..n]).1;
    }
  }

  lemma AnswerSetsNonce<D(!new)>(h: Handlers<D>, s: Server<D>, p: Datagram)
    requires Proper(h) && Valid(s) && WellFormed(p)
    ensures var (s', answer) := Receive(h, s, p);
            s'.lastNonce == if answer.Some? then Nonce(p) else s.lastNonce
  {
  }

  /** Exactly once: every request of a run is executed if and only if each has another nonce than
      the last one that was answered before it, or than 0 just after start-up. */
  lemma {:induction false} AllExecutedIff<D(!new)>(h: Handlers<D>, s: Server<D>, ps: seq<Datagram>)
    requires Proper(h) && Valid(s) && AllWellFormed(ps)
    ensures Executed(h, s, ps) == ps <==> NoncesDiffer(s.lastNonce, ps, Run(h, s, ps).1)
  {
    hide Run, NoncesDiffer, LastAnswered, Executed, Valid, Native, Sized;
    if ps == [] {
      NothingAnswered(h, s);
    } else {
      var n := |ps| - 1;
      var front, last := ps[..n], ps[n];
      AllExecutedIff(h, s, front);
      LastNonceIsLastAnswered(h, s, front);
      OneMoreAnswered(h, s, ps);
      assert ps == front + [last];
      EqualIfLastIs(Executed(h, s, front), front, last, Fresh(Run(h, s, front).0, last));
    }
  }

  lemma NothingAnswered<D(!new)>(h: Handlers<D>, s: Server<D>)
    requires Proper(h) && Valid(s)
    ensures Executed(h, s, []) == [] && NoncesDiffer(s.lastNonce, [], Run(h, s, []).1)
  {
  }

  lemma OneMoreAnswered<D(!new)>(h: Handlers<D>, s: Server<D>, ps: seq<Datagram>)
    requires Proper(h) && Valid(s) && AllWellFormed(ps) && ps != []
    ensures var front, last := ps[..|ps| - 1], ps[|ps| - 1];
            && Executed(h, s, ps)
               == Executed(h, s, front) + (if Fresh(Run(h, s, front).0, last) then [last] else [])
            && (NoncesDiffer(s.lastNonce, ps, Run(h, s, ps).1)
                <==> && NoncesDiffer(s.lastNonce, front, Run(h, s, front).1)
                     && Nonce(last) != LastAnswered(s.lastNonce, front, Run(h, s, front).1))
  {
    hide Receive, Nonce, Fresh, LastAnswered;
    assert Run(h, s, ps).1[..|ps| - 1] == Run(h, s, ps[..|ps| - 1]).1;
  }

  lemma EqualIfLastIs<T>(some: seq<T>, all: seq<T>, last: T, included: bool)
    requires |some| <= |all|
    ensures some + (if included then [last] else []) == all + [last] <==> some == all && included
  {
    if included {
      assert (some + [last])[..|some|] == some && (all + [last])[..|all|] == all;
    }
  }

  /** Request `i` has another nonce than the one before it, or than `start` if it is the first. */
  ghost predicate DiffersAt(start: bv32, ps: seq<Datagram>, i: nat)
    requires AllWellFormed(ps) && i < |ps|
  {
    Nonce(ps[i]) != if i == 0 then start else Nonce(ps[i - 1])
  }

  /** Where every request is answered it is enough to compare neighbours. */
  lemma {:induction false} NeighboursDiffer(start: bv32, ps: seq<Datagram>, answers: seq<Option<seq<bv32>>>)
    requires |ps| == |answers| && AllWellFormed(ps) && forall a :: a in answers ==> a.Some?
    ensures NoncesDiffer(start, ps, answers) <==> forall i :: 0 <= i < |ps| ==> DiffersAt(start, ps, i)
  {
    hide Nonce, WellFormed;
    if ps != [] {
      var n := |ps| - 1;
      NeighboursDiffer(start, ps[..n], answers[..n]);
      if n != 0 {
        assert answers[n - 1].Some?;
      }
      assert NoncesDiffer(start, ps, answers)
             <==> NoncesDiffer(start, ps[..n], answers[..n]) && DiffersAt(start, ps, n);
      assert forall i :: 0 <= i < n ==> (DiffersAt(start, ps, i) <==> DiffersAt(start, ps[..n], i));
    }
  }

  /** On a device that counts its commands the same condition decides whether it has had all. */
  lemma DeviceShowsIff<D(!new)>(h: Handlers<D>, s: Server<D>, ps: seq<Datagram>, count: D -> int)
    requires Proper(h) && Valid(s) && AllWellFormed(ps)
    requires forall d, w :: count(Execute(h, d, w).dev) == count(d) + 1
    ensures Run(h, s, ps).0.dev == Effects(h, s.dev, ps) <==> NoncesDiffer(s.lastNonce, ps, Run(h, s, ps).1)
  {
    DeviceSeesExecuted(h, s, ps);
    AllExecutedIff(h, s, ps);
    EffectsAreCounted(h, s.dev, ps, count);
    EffectsAreCounted(h, s.dev, Executed(h, s, ps), count);
    ShorterIsNotAll(h, s, ps);
  }

  lemma {:induction false} EffectsAreCounted<D(!new)>(h: Handlers<D>, dev: D, ps: seq<Datagram>, count: D -> int)
    requires forall p :: p in ps ==> Sized(p)
    requires forall d, w :: count(Execute(h, d, w).dev) == count(d) + 1
    ensures count(Effects(h, dev, ps)) == count(dev) + |ps|
  {
    if ps != [] {
      EffectsAreCounted(h, dev, ps[..|ps| - 1], count);
    }
  }

  lemma {:induction false} ShorterIsNotAll<D(!new)>(h: Handlers<D>, s: Server<D>, ps: seq<Datagram>)
    requires Proper(h) && Valid(s)
    ensures Executed(h, s, ps) == ps <==> |Executed(h, s, ps)| == |ps|
  {
    if ps != [] {
      ShorterIsNotAll(h, s, ps[..|ps| - 1]);
      assert ps == ps[..|ps| - 1] + [ps[|ps| - 1]];
    }
  }

  /** With such nonces the device sees every request once, in order. */
  lemma FreshStreamExecutesAll<D(!new)>(h: Handlers<D>, s: Server<D>, ps: seq<Datagram>)
    requires Proper(h) && Valid(s) && AllWellFormed(ps)
    requires NoncesDiffer(s.lastNonce, ps, Run(h, s, ps).1)
    ensures Run(h, s, ps).0.dev == Effects(h, s.dev, ps)
  {
    DeviceSeesExecuted(h, s, ps);
    AllExecutedIff(h, s, ps);
  }

  /** A client that repeats each request any number of times before the next: the device sees
      each request that is not taken for an answered one exactly once, and so every request if the
      nonces differ as above. */
  lemma RepeatedStreamExecutesOnce<D(!new)>(h: Handlers<D>, s: Server<D>, rs: seq<Repeated>)
    requires Proper(h) && Valid(s) && AllWellFormed(Singles(rs))
    requires forall r :: r in rs ==> 1 <= r.times
    requires AllFailPurely(h, s, rs)
    ensures Run(h, s, Expand(rs)).0.dev == Effects(h, s.dev, Executed(h, s, Singles(rs)))
    ensures NoncesDiffer(s.lastNonce, Singles(rs), Run(h, s, Singles(rs)).1) ==>
              Run(h, s, Expand(rs)).0.dev == Effects(h, s.dev, Singles(rs))
  {
    RepeatedStreamActsOnce(h, s, rs);
    DeviceSeesExecuted(h, s, Singles(rs));
    AllExecutedIff(h, s, Singles(rs));
  }

  /** On a device that counts its commands it has had every request exactly once if and only if they
      do. */
  lemma RepeatedStreamShowsIff<D(!new)>(h: Handlers<D>, s: Server<D>, rs: seq<Repeated>, count: D -> int)
    requires Proper(h) && Valid(s) && AllWellFormed(Singles(rs))
    requires forall r :: r in rs ==> 1 <= r.times
    requires AllFailPurely(h, s, rs)
    requires forall d, w :: count(Execute(h, d, w).dev) == count(d) + 1
    ensures Run(h, s, Expand(rs)).0.dev == Effects(h, s.dev, Singles(rs))
            <==> NoncesDiffer(s.lastNonce, Singles(rs), Run(h, s, Singles(rs)).1)
  {
    RepeatedStreamActsOnce(h, s, rs);
    DeviceShowsIff(h, s, Singles(rs), count);
  }

  /** A device with two commands, 1 and 2, that add to a number, and a common command 4 that reads a
      build date; others are not recognised. */
  function Adder(): (h: Handlers<int>)
    ensures Proper(h)
  {
    Handlers((d: int, w: seq<bv32>) =>
               if |w| == 3 && w[2] == 1 then Handled(d + 1, 0, [])
               else if |w| == 3 && w[2] == 2 then Handled(d + 10, 0, [])
               else Handled(d, -1, []),
             (d: int, w: seq<bv32>) =>
               if |w| == 3 && w[2] == 4 then Handled(d, 1, [BUILD_DATE]) else Handled(d, -1, []))
  }

  const BUILD_DATE: bv32 := 0x2A

  /** Concretely: the application declines command 4 and the common handler answers it. */
  lemma CommonCommandIsAnswered(buffer: seq<bv32>)
    requires |buffer| == PACKET_WORDS
    ensures var s := Server(0, 0, buffer, 0);
            && Receive(Adder(), s, Request(1, 4)).1 == Some([MAGIC, 1, 4, BUILD_DATE])
            && Receive(Adder(), s, Request(1, 1)).0.dev == 1
            && Receive(Adder(), s, Request(1, 3)).1 == None
  {
    var s := Server(0, 0, buffer, 0);
    MagicsAreSwapped();
    assert [MAGIC, 1, 4][..HEADER] + [BUILD_DATE] == [MAGIC, 1, 4, BUILD_DATE];
    assert Native([MAGIC, 1, 4]) == [MAGIC, 1, 4] && Native([MAGIC, 1, 1]) == [MAGIC, 1, 1];
    assert Native([MAGIC, 1, 3]) == [MAGIC, 1, 3];
  }

  function Request(nonce: bv32, command: bv32): (p: Datagram)
    ensures WellFormed(p)
  {
    Datagram(12, [MAGIC, nonce, command])
  }

  /** Nonces that differ from one request to the next are not enough when a command is not
      recognised: 1, then an unknown command with nonce 2, then another command with nonce 1, which
      is taken for a repeat of the first and never executed. */
  lemma UnknownCommandHidesNext(buffer: seq<bv32>)
    requires |buffer| == PACKET_WORDS
    ensures var ps := [Request(1, 1), Request(2, 3), Request(1, 2)];
            && Run(Adder(), Server(0, 0, buffer, 0), ps).0.dev == 1
            && Effects(Adder(), 0, ps) == 11
  {
    var h, s := Adder(), Server(0, 0, buffer, 0);
    var ps := [Request(1, 1), Request(2, 3), Request(1, 2)];
    assert ps[..2] == [Request(1, 1), Request(2, 3)] && ps[..2][..1] == [Request(1, 1)] && ps[..2][..1][..0] == [];
    assert Effects(h, 0, ps[..2][..1]) == 1;
    assert Effects(h, 0, ps[..2]) == 1;
    assert Run(h, s, ps[..2][..1]).0 == Receive(h, s, Request(1, 1)).0;
    assert Run(h, s, ps[..2]).0 == Receive(h, Receive(h, s, Request(1, 1)).0, Request(2, 3)).0;
  }

  function Swapped(p: Datagram): Datagram {
    p.(words := SwapAll(p.words))
  }

  /** A fresh request in the other byte order has the same effect and gets the same reply in
      the other byte order. */
  lemma SwappedRequestSwapsReply<D(!new)>(h: Handlers<D>, s: Server<D>, p: Datagram)
    requires Proper(h) && Valid(s) && Fresh(s, p)
    ensures var (s1, r1) := Receive(h, s, p);
            var (s2, r2) := Receive(h, s, Swapped(p));
            && s2.dev == s1.dev && s2.lastNonce == s1.lastNonce
            && r2.Some? == r1.Some?
            && (r1.Some? ==> r2.value == SwapAll(r1.value))
  {
    MagicsAreSwapped();
    SwapAllTwice(p.words);
    SwapTwice(p.words[0]);
    assert Native(Swapped(p).words) == Native(p.words);
    var answer := Native(p.words)[..HEADER] + Execute(h, s.dev, Native(p.words)).args;
    SwapAllTwice(answer);
  }

  /** The two replies say the same in the two byte orders. */
  predicate Transparent(one: Option<seq<bv32>>, other: Option<seq<bv32>>) {
    match one
    case None => other == None
    case Some(reply) => other == Some(SwapAll(reply))
  }

  /** Byte order is transparent exactly for requests that are executed, and for repeats whose
      cached reply reads the same both ways: a repeat is answered from the cache as it is. */
  lemma TransparentIff<D(!new)>(h: Handlers<D>, s: Server<D>, p: Datagram)
    requires Proper(h) && Valid(s) && WellFormed(p)
    ensures Transparent(Receive(h, s, p).1, Receive(h, s, Swapped(p)).1)
            <==> Fresh(s, p) || SwapAll(s.reply[..s.replySize]) == s.reply[..s.replySize]
  {
    if Fresh(s, p) {
      SwappedRequestSwapsReply(h, s, p);
    } else {
      MagicsAreSwapped();
      SwapAllTwice(p.words);
      SwapTwice(p.words[0]);
      assert Native(Swapped(p).words) == Native(p.words);
    }
  }

  /** A reply that was sent begins with a magic number in one of the byte orders. */
  ghost predicate ReplyHasMagic<D>(s: Server<D>)
    requires Valid(s)
  {
    0 < s.replySize ==> s.reply[0] == MAGIC || s.reply[0] == MAGIC_SWAPPED
  }

  lemma {:induction false} RunKeepsMagic<D(!new)>(h: Handlers<D>, s: Server<D>, ps: seq<Datagram>)
    requires Proper(h) && Valid(s) && ReplyHasMagic(s)
    ensures ReplyHasMagic(Run(h, s, ps).0)
  {
    if ps != [] {
      RunKeepsMagic(h, s, ps[..|ps| - 1]);
      ReceiveKeepsMagic(h, Run(h, s, ps[..|ps| - 1]).0, ps[|ps| - 1]);
    }
  }

  lemma ReceiveKeepsMagic<D(!new)>(h: Handlers<D>, s: Server<D>, p: Datagram)
    requires Proper(h) && Valid(s) && ReplyHasMagic(s)
    ensures ReplyHasMagic(Receive(h, s, p).0)
  {
    MagicsAreSwapped();
  }

  /** So after any run from start-up only two requests of a kind are transparent: those that are
      executed, and repeats of nonce 0 before anything has been answered. */
  lemma TransparentAfterRunIff<D(!new)>(h: Handlers<D>, dev: D, buffer: seq<bv32>, ps: seq<Datagram>, p: Datagram)
    requires Proper(h) && |buffer| == PACKET_WORDS && WellFormed(p)
    ensures var s := Run(h, Server(dev, 0, buffer, 0), ps).0;
            Transparent(Receive(h, s, p).1, Receive(h, s, Swapped(p)).1) <==> Fresh(s, p) || s.replySize == 0
  {
    RunKeepsMagic(h, Server(dev, 0, buffer, 0), ps);
    var s := Run(h, Server(dev, 0, buffer, 0), ps).0;
    TransparentIff(h, s, p);
    MagicsAreSwapped();
    var cached := s.reply[..s.replySize];
    if 0 < s.replySize {
      assert SwapAll(cached)[0] == Swap(cached[0]) != cached[0];
    }
  }

  /** Concretely: a request and its repeat in the other byte order get the same words. */
  lemma SwappedRepeatIsNotSwapped(buffer: seq<bv32>)
    requires |buffer| == PACKET_WORDS
    ensures var p := Request(1, 1);
            var (s, first) := Receive(Adder(), Server(0, 0, buffer, 0), p);
            && first == Some([MAGIC, 1, 1])
            && Receive(Adder(), s, Swapped(p)).1 == first
            && first.value != SwapAll(first.value)
  {
    var h, p := Adder(), Request(1, 1);
    var s := Receive(h, Server(0, 0, buffer, 0), p).0;
    MagicsAreSwapped();
    SwapAllTwice(p.words);
    assert SwapAll(p.words)[0] == MAGIC_SWAPPED;
    assert Native(Swapped(p).words) == p.words && Native(p.words) == p.words;
    assert p.words[..HEADER] + [] == p.words;
    assert s.reply[..s.replySize] == p.words;
  }

  /** The first nonce after start-up must not be zero: the server starts as if nonce zero had
      been executed, with an empty reply. */
  lemma NonceZeroIsNeverExecutedFirst<D(!new)>(h: Handlers<D>, dev: D, buffer: seq<bv32>, p: Datagram)
    requires Proper(h) && |buffer| == PACKET_WORDS && Sized(p) && Native(p.words)[0] == MAGIC
    ensures var s := Server(dev, 0, buffer, 0);
            Receive(h, s, p) == (s, Some([])) <==> Native(p.words)[1] == 0
  {
  }
}
