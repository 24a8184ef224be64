/**
 One transfer with the file server: what the client sends, what the server answers, and where
 the server stands after any number of blocks (software/src/tftp.c).
 */
module TftpJobs {
  import opened Common
  import opened Tftp

  /** Block numbers on the wire have 16 bits. */
  function Wire(k: nat): (w: nat)
    ensures w < 0x1_0000
  {
    k % 0x1_0000
  }

  lemma WireAdvances(k: nat)
    ensures Wire(k + 1) == (Wire(k) + 1) % 0x1_0000
    ensures Wire(k + 1) != Wire(k)
  {
  }

  function Low(w: nat): byte { (w % 256) as byte }

  function High(w: nat): byte
    requires w < 0x1_0000
  {
    (w / 256) as byte
  }

  lemma NumberOfWire(w: nat)
    requires w < 0x1_0000
    ensures Number(High(w), Low(w)) == w
  {
  }

  /** The first `k` blocks of the data. */
  function Prefix(data: Bytes, k: nat): Bytes {
    data[..Min(BLOCK * k, |data|)]
  }

  /** Block `k`, counting from 1; the block after the last full one is short, perhaps empty. */
  function Slice(data: Bytes, k: nat): Bytes
    requires 1 <= k
  {
    if BLOCK * (k - 1) <= |data| then data[BLOCK * (k - 1)..Min(BLOCK * k, |data|)] else []
  }

  /** Number of blocks; the last one is the short one. */
  function Last(data: Bytes): (m: nat)
    ensures 1 <= m && BLOCK * (m - 1) <= |data| < BLOCK * m
  {
    |data| / BLOCK + 1
  }

  lemma SliceFacts(data: Bytes, k: nat)
    requires 1 <= k <= Last(data)
    ensures Prefix(data, k - 1) + Slice(data, k) == Prefix(data, k)
    ensures k < Last(data) ==> |Slice(data, k)| == BLOCK && |Prefix(data, k)| == BLOCK * k
    ensures k == Last(data) ==> |Slice(data, k)| < BLOCK && Prefix(data, k) == data
    ensures |Prefix(data, k - 1)| == BLOCK * (k - 1)
  {
  }

  /** Every block but the last is full. */
  lemma SliceSize(data: Bytes, k: nat)
    requires 1 <= k <= Last(data)
    ensures |Slice(data, k)| == BLOCK <==> k < Last(data)
  {
    SliceFacts(data, k);
  }

  /** An upload or a download of `data` in the directory entry `name`, asked for by the packet `request`. */
  datatype Job = Job(upload: bool, request: Bytes, name: Bytes, index: nat, data: Bytes)
  {
    function Blocks(): nat { Last(data) }

    /** What the client sends when it has got `i` replies. */
    function Message(i: nat): Bytes {
      if i == 0 then request
      else if upload then [0, 3, High(Wire(i)), Low(Wire(i))] + Slice(data, i)
      else [0, 4, High(Wire(i)), Low(Wire(i))]
    }

    /** What the server answers once it has taken message `k`. */
    function Answer(k: nat): Reply {
      if upload then AckReply(Wire(k)) else DataReply(Wire(k + 1), Slice(data, k + 1))
    }

    /** The last message that is answered: the last acknowledgement of a download is not. */
    function LastAnswered(): nat {
      if upload then Blocks() else Blocks() - 1
    }
  }

  /** A request as a client writes it. */
  function MakeRequest(opcode: byte, name: Bytes, mode: Bytes): Bytes {
    [0, opcode] + name + [0] + mode + [0]
  }

  /** The server finds the name and the mode of every request that holds no other zero bytes. */
  lemma RequestRoundTrip(opcode: byte, name: Bytes, mode: Bytes)
    requires 0 !in name && 0 !in mode
    ensures ParseRequest(MakeRequest(opcode, name, mode)) == Some(Request(name, mode))
  {
    var p := MakeRequest(opcode, name, mode);
    var z1, z2 := 2 + |name|, 3 + |name| + |mode|;
    assert p[z1] == 0 && p[z2] == 0 && |p| == z2 + 1;
    assert forall i :: 2 <= i < z1 ==> p[i] == name[i - 2];
    assert forall i :: z1 < i < z2 ==> p[i] == mode[i - z1 - 1];
    assert p[2..z1] == name && p[z1 + 1..z2] == mode;
  }

  /** The request asks for a file of the table in binary mode, the file can be opened, and the hooks do
      their part. */
  ghost predicate Proper(env: Env, job: Job, files: Files) {
    && 4 <= |job.request|
    && Number(job.request[0], job.request[1]) == (if job.upload then OPCODE_WRQ else OPCODE_RRQ)
    && ParseRequest(job.request).Some?
    && env.entry(ParseRequest(job.request).value.name) == job.name
    && SameIgnoringCase(ParseRequest(job.request).value.mode, OCTET)
    && Lookup(env.table, ParseRequest(job.request).value.name, 0) == job.index
    && (job.upload ==> forall fs :: 0 <= env.postReceive(job.index, fs) && env.creates(job.name, fs))
    && (!job.upload ==>
          var (bytes, fetched) := env.preTransmit(job.index, files);
          var (bytes', fetched') := env.preTransmit(job.index, fetched);
          && 0 <= bytes && 0 <= bytes'
          && job.name in fetched && fetched[job.name] == job.data
          && fetched' == fetched)
  }

  /** The files while a download runs: what the hook left of the files before. */
  ghost function Served(env: Env, job: Job, files: Files): Files {
    env.preTransmit(job.index, files).1
  }

  /** A file is put into use only if digesting it gave anything. */
  ghost function Commits(env: Env, job: Job, files: Files): seq<nat> {
    if 0 < env.postReceive(job.index, files) then [job.index] else []
  }

  /** Where the server stands when it has taken messages 0 to `k` and started from `s0`;
      -1 means it has not seen the request yet. */
  ghost predicate ServerAt(env: Env, job: Job, s0: Server, k: int, s: Server) {
    if k < 0 then s == s0
    else if job.upload then
      if k < job.Blocks() then
        && s.fp == Some(Handle(job.name, Write, BLOCK * k))
        && s.fileIndex == job.index && s.lastBlock == Wire(k)
        && s.files == s0.files[job.name := Prefix(job.data, k)]
        && s.posted == s0.posted && s.committed == s0.committed
      else
        && s.fp == None && s.fileIndex == -1
        && s.files == s0.files[job.name := job.data]
        && s.posted == s0.posted + [(job.index, s.files)]
        && s.committed == s0.committed + Commits(env, job, s.files)
    else
      && s.files == Served(env, job, s0.files)
      && s.posted == s0.posted && s.committed == s0.committed
      && if k < job.Blocks() then
           && s.fp == Some(Handle(job.name, Read, Min(BLOCK * (k + 1), |job.data|)))
           && s.fileIndex == job.index && s.lastBlock == Wire(k + 1)
           && s.cached == Slice(job.data, k + 1) && s.lastSend == |s.cached|
         else
           s.fp == None && s.fileIndex == -1
  }

  /** Reading where block `k` starts gives block `k`, empty at the very end of the file. */
  lemma ReadsSlice(files: Files, name: Bytes, data: Bytes, k: nat)
    requires 1 <= k <= Last(data) && name in files && files[name] == data
    ensures ReadBlock(files, Handle(name, Read, BLOCK * (k - 1))) == Some(Slice(data, k))
    ensures BLOCK * (k - 1) + |Slice(data, k)| == Min(BLOCK * k, |data|)
  {
    SliceFacts(data, k);
    var pos := BLOCK * (k - 1);
    if |data| <= pos {
      assert Slice(data, k) == [];
    } else if |data| <= pos + BLOCK {
      assert data[pos..] == data[pos..|data|];
    }
  }

  /** Writing at the end of a file appends. */
  lemma WriteAppends(files: Files, name: Bytes, data: Bytes)
    requires name in files
    ensures WriteAt(files, Handle(name, Write, |files[name]|), data) == Some(files[name := files[name] + data])
  {
    var was := files[name];
    var rest := if |was| + |data| <= |was| then was[|was| + |data|..] else [];
    assert rest == [];
    assert was[..|was|] + data + rest == was + data;
  }

  lemma RequestIsFirst(job: Job)
    ensures job.Message(0) == job.request
  {
  }

  lemma MessageFields(job: Job, k: nat)
    requires 1 <= k
    ensures var p := job.Message(k);
            && 4 <= |p|
            && Number(p[0], p[1]) == (if job.upload then OPCODE_DATA else OPCODE_ACK)
            && Number(p[2], p[3]) == Wire(k)
            && (job.upload ==> p[4..] == Slice(job.data, k))
  {
    NumberOfWire(Wire(k));
  }

  /** The request puts the server at 0, also when it comes again. */
  lemma UploadRequestStarts(env: Env, job: Job, s0: Server, k: int, s: Server)
    requires Proper(env, job, s0.files) && -1 <= k <= 0 && ServerAt(env, job, s0, k, s) && job.upload
    ensures ServerAt(env, job, s0, 0, Receive(env, s, job.request).0)
    ensures Receive(env, s, job.request).1 == [job.Answer(0)]
  {
    assert Prefix(job.data, 0) == [];
    assert s.files[job.name := []] == s0.files[job.name := []];
  }

  lemma DownloadRequestStarts(env: Env, job: Job, s0: Server, k: int, s: Server)
    requires Proper(env, job, s0.files) && -1 <= k <= 0 && ServerAt(env, job, s0, k, s) && !job.upload
    ensures ServerAt(env, job, s0, 0, Receive(env, s, job.request).0)
    ensures Receive(env, s, job.request).1 == [job.Answer(0)]
  {
    var files := Served(env, job, s0.files);
    ReadsSlice(files, job.name, job.data, 1);
    assert env.preTransmit(job.index, s.files).1 == files;
  }

  /** Extending the stored prefix by a block, seen from the files at the start. */
  lemma StoredPrefix(files: Files, name: Bytes, data: Bytes, k: nat)
    requires k < Last(data)
    ensures var stored := files[name := Prefix(data, k)];
            stored[name := stored[name] + Slice(data, k + 1)] == files[name := Prefix(data, k + 1)]
  {
    SliceFacts(data, k + 1);
  }

  lemma FullBlockIsAppended(env: Env, s: Server, name: Bytes, p: Bytes)
    requires |p| == 4 + BLOCK && 0 <= s.fileIndex && Number(p[2], p[3]) == Next16(s.lastBlock) != s.lastBlock
    requires name in s.files && s.fp == Some(Handle(name, Write, |s.files[name]|))
    ensures var longer := s.files[name] + p[4..];
            HandleData(env, s, p)
            == (s.(lastBlock := Next16(s.lastBlock), files := s.files[name := longer],
                   fp := Some(Handle(name, Write, |longer|))),
                [AckReply(Next16(s.lastBlock))])
  {
    hide WriteAt;
    WriteAppends(s.files, name, p[4..]);
    assert HandleData(env, s, p).1 == [AckReply(Next16(s.lastBlock))];
  }

  lemma UploadTakesFullBlock(env: Env, job: Job, s0: Server, k: nat, s: Server, p: Bytes)
    requires Proper(env, job, s0.files) && job.upload && k + 1 < job.Blocks() && ServerAt(env, job, s0, k, s)
    requires 4 <= |p| && Number(p[2], p[3]) == Wire(k + 1) && p[4..] == Slice(job.data, k + 1)
    ensures ServerAt(env, job, s0, k + 1, HandleData(env, s, p).0)
    ensures HandleData(env, s, p).1 == [job.Answer(k + 1)]
  {
    hide Proper, Slice, HandleData, Prefix, Last, Served, ReadBlock;
    WireAdvances(k);
    SliceFacts(job.data, k + 1);
    StoredPrefix(s0.files, job.name, job.data, k);
    FullBlockIsAppended(env, s, job.name, p);
  }

  lemma UploadTakesShortBlock(env: Env, job: Job, s0: Server, k: nat, s: Server, p: Bytes)
    requires Proper(env, job, s0.files) && job.upload && k + 1 == job.Blocks() && ServerAt(env, job, s0, k, s)
    requires 4 <= |p| && Number(p[2], p[3]) == Wire(k + 1) && p[4..] == Slice(job.data, k + 1)
    ensures ServerAt(env, job, s0, k + 1, HandleData(env, s, p).0)
    ensures HandleData(env, s, p).1 == [job.Answer(k + 1)]
  {
    WireAdvances(k);
    SliceFacts(job.data, k + 1);
    StoredPrefix(s0.files, job.name, job.data, k);
    if p[4..] == [] {
      assert Prefix(job.data, k) == job.data;
    } else {
      WriteAppends(s.files, job.name, p[4..]);
    }
  }

  lemma UploadRepeats(env: Env, job: Job, s0: Server, k: nat, s: Server)
    requires Proper(env, job, s0.files) && job.upload && 1 <= k <= job.Blocks() && ServerAt(env, job, s0, k, s)
    ensures Receive(env, s, job.Message(k)) == (s, if k < job.Blocks() then [job.Answer(k)] else [])
  {
    MessageFields(job, k);
  }

  /** Sending block `k` from where it starts. */
  lemma SendsSlice(job: Job, s: Server, k: nat)
    requires 1 <= k <= job.Blocks() && job.name in s.files && s.files[job.name] == job.data
    requires s.fp == Some(Handle(job.name, Read, BLOCK * (k - 1))) && s.lastBlock == Wire(k)
    ensures var data := Slice(job.data, k);
            SendBlock(s, s.fp) ==
            (s.(cached := data, lastSend := |data|, fp := Some(Handle(job.name, Read, Min(BLOCK * k, |job.data|)))),
             [DataReply(Wire(k), data)])
  {
    ReadsSlice(s.files, job.name, job.data, k);
  }

  lemma DownloadMovesOn(env: Env, job: Job, s0: Server, k: nat, s: Server, p: Bytes)
    requires Proper(env, job, s0.files) && !job.upload && k < job.Blocks() && ServerAt(env, job, s0, k, s)
    requires 4 <= |p| && Number(p[2], p[3]) == Wire(k + 1)
    ensures ServerAt(env, job, s0, k + 1, HandleAck(s, p).0)
    ensures HandleAck(s, p).1 == if k + 1 < job.Blocks() then [job.Answer(k + 1)] else []
  {
    SliceSize(job.data, k + 1);
    WireAdvances(k + 1);
    if k + 1 < job.Blocks() {
      SendsSlice(job, s.(lastBlock := Wire(k + 2)), k + 2);
    }
  }

  /** In a download any acknowledgement, whatever its number, either moves the server to the
      next block or makes it send the current block again. */
  lemma DownloadOnAnyAck(env: Env, job: Job, s0: Server, k: nat, s: Server, p: Bytes)
    requires Proper(env, job, s0.files) && !job.upload && k < job.Blocks() && ServerAt(env, job, s0, k, s)
    requires 4 <= |p| && Number(p[0], p[1]) == OPCODE_ACK
    ensures var k' := if Number(p[2], p[3]) == Wire(k + 1) then k + 1 else k;
            && ServerAt(env, job, s0, k', Receive(env, s, p).0)
            && Receive(env, s, p).1 == if k' < job.Blocks() then [job.Answer(k')] else []
  {
    assert Receive(env, s, p) == HandleAck(s, p);
    if Number(p[2], p[3]) == Wire(k + 1) {
      DownloadMovesOn(env, job, s0, k, s, p);
    }
  }

  /** Taking the next message. */
  lemma TakesNext(env: Env, job: Job, s0: Server, k: int, s: Server)
    requires Proper(env, job, s0.files) && -1 <= k < job.Blocks() && ServerAt(env, job, s0, k, s)
    ensures ServerAt(env, job, s0, k + 1, Receive(env, s, job.Message(k + 1)).0)
    ensures Receive(env, s, job.Message(k + 1)).1 == if k + 1 <= job.LastAnswered() then [job.Answer(k + 1)] else []
  {
    hide Proper, HandleData, HandleAck, HandleRequest, Slice, Prefix, Last, Job.Message, Job.Answer, Number;
    RequestIsFirst(job);
    if k == -1 && job.upload {
      UploadRequestStarts(env, job, s0, k, s);
    } else if k == -1 {
      DownloadRequestStarts(env, job, s0, k, s);
    } else if job.upload {
      MessageFields(job, k + 1);
      if k + 1 < job.Blocks() {
        UploadTakesFullBlock(env, job, s0, k, s, job.Message(k + 1));
      } else {
        UploadTakesShortBlock(env, job, s0, k, s, job.Message(k + 1));
      }
    } else {
      MessageFields(job, k + 1);
      DownloadOnAnyAck(env, job, s0, k, s, job.Message(k + 1));
    }
  }

  /** Taking the same message again leaves the server where it was. */
  lemma TakesAgain(env: Env, job: Job, s0: Server, k: nat, s: Server)
    requires Proper(env, job, s0.files) && k <= job.Blocks() && ServerAt(env, job, s0, k, s)
    ensures ServerAt(env, job, s0, k, Receive(env, s, job.Message(k)).0)
    ensures var replies := Receive(env, s, job.Message(k)).1;
            replies == [] || (k <= job.LastAnswered() && replies == [job.Answer(k)])
  {
    if k == 0 && job.upload {
      UploadRequestStarts(env, job, s0, k, s);
    } else if k == 0 {
      DownloadRequestStarts(env, job, s0, k, s);
    } else if job.upload {
      UploadRepeats(env, job, s0, k, s);
    } else if k < job.Blocks() {
      MessageFields(job, k);
      WireAdvances(k);
      DownloadOnAnyAck(env, job, s0, k, s, job.Message(k));
    }
  }
}
