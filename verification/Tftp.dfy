/**
 The file server (software/src/tftp.c): a lock-step protocol in the manner of RFC 1350 whose
 16-bit block numbers may wrap, so files of any length can be sent.
 */
module Tftp {
  import opened Common

  type Bytes = seq<byte>
  type Files = map<Bytes, Bytes>

  const OPCODE_RRQ := 1
  const OPCODE_WRQ := 2
  const OPCODE_DATA := 3
  const OPCODE_ACK := 4

  /* Bytes in a full block; RFC 1350, section 2. */
  const BLOCK := 512

  datatype Reply = AckReply(block: nat) | DataReply(block: nat, payload: Bytes) | ErrorReply

  datatype Access = Read | Write

  /** An open file: its name, how it was opened and the position in it. */
  datatype Handle = Handle(name: Bytes, access: Access, pos: nat)

  /** The table of served files and its hooks. Before a download the firmware writes the file
      afresh; after an upload it digests it, and commits the result if that gave any bytes.
      `entry` is the directory entry a name stands for, as the file system folds names, and
      `creates` says whether a file can be opened for writing. */
  datatype Env = Env(table: seq<Bytes>, preTransmit: (nat, Files) -> (int, Files), postReceive: (nat, Files) -> int,
                     entry: Bytes -> Bytes, creates: (Bytes, Files) -> bool)

  /** `cached` is the block last read for sending; `posted` and `committed` record hook calls. */
  datatype Server = Server(files: Files, fp: Option<Handle>, lastBlock: nat, lastSend: int, fileIndex: int,
                           cached: Bytes, posted: seq<(nat, Files)>, committed: seq<nat>)

  type Outcome = (Server, seq<Reply>)

  /** The next value of a 16-bit counter. */
  function Next16(b: nat): nat {
    (b + 1) % 0x1_0000
  }

  function Number(hi: byte, lo: byte): nat {
    hi as int * 256 + lo as int
  }

  /** Position of the first zero byte at or after `from`, or the end. */
  function FirstNul(p: Bytes, from: nat): (i: nat)
    requires from <= |p|
    ensures from <= i <= |p|
    ensures i < |p| ==> p[i] == 0
    ensures forall j :: from <= j < i ==> p[j] != 0
    decreases |p| - from
  {
    if from == |p| || p[from] == 0 then from else FirstNul(p, from + 1)
  }

  function Lower(b: byte): byte {
    if 65 <= b <= 90 then b + 32 else b
  }

  predicate SameIgnoringCase(a: Bytes, b: Bytes) {
    |a| == |b| && forall i :: 0 <= i < |a| ==> Lower(a[i]) == Lower(b[i])
  }

  /** The last dot of a name, if it has one. */
  function LastDot(name: Bytes): (r: Option<nat>)
    ensures r.Some? ==> r.value < |name|
  {
    if name == [] then None
    else if name[|name| - 1] == 46 then Some(|name| - 1)
    else LastDot(name[..|name| - 1])
  }

  /** Same stem up to the table's extension, and same extension; letters of any case. */
  predicate Matches(name: Bytes, entry: Bytes) {
    var nameDot, entryDot := LastDot(name), LastDot(entry);
    && nameDot.Some? && entryDot.Some?
    && entryDot.value <= |name|
    && SameIgnoringCase(name[..entryDot.value], entry[..entryDot.value])
    && SameIgnoringCase(name[nameDot.value..], entry[entryDot.value..])
  }

  /** Index of the first matching entry, or -1. */
  function Lookup(table: seq<Bytes>, name: Bytes, from: nat): (i: int)
    requires from <= |table|
    ensures i == -1 || from <= i < |table|
    decreases |table| - from
  {
    if from == |table| then -1 else if Matches(name, table[from]) then from else Lookup(table, name, from + 1)
  }

  const OCTET: Bytes := [111, 99, 116, 101, 116]

  datatype Request = Request(name: Bytes, mode: Bytes)

  /** Name and mode, each ended by a zero byte. */
  function ParseRequest(p: Bytes): Option<Request>
    requires 2 <= |p|
  {
    var z1 := FirstNul(p, 2);
    if z1 == |p| then None
    else
      var z2 := FirstNul(p, z1 + 1);
      if z2 == |p| then None else Some(Request(p[2..z1], p[z1 + 1..z2]))
  }

  /** f_read: up to a block from the position; a handle opened for writing cannot be read. */
  function ReadBlock(files: Files, h: Handle): Option<Bytes> {
    if h.access != Read || h.name !in files then None
    else if |files[h.name]| <= h.pos then Some([])
    else if |files[h.name]| <= h.pos + BLOCK then Some(files[h.name][h.pos..])
    else Some(files[h.name][h.pos..h.pos + BLOCK])
  }

  /** f_write at the position; the new contents, or None when the handle cannot be written. */
  function WriteAt(files: Files, h: Handle, data: Bytes): Option<Files> {
    if h.access != Write || h.name !in files || |files[h.name]| < h.pos then None
    else
      var was := files[h.name];
      var rest := if h.pos + |data| <= |was| then was[h.pos + |data|..] else [];
      Some(files[h.name := was[..h.pos] + data + rest])
  }

  /** Sends a block: the next one of the file, or without a file the cached one again. */
  function SendBlock(s: Server, fp: Option<Handle>): Outcome {
    match fp
    case None => (s.(lastSend := |s.cached|), [DataReply(s.lastBlock, s.cached)])
    case Some(h) =>
      match ReadBlock(s.files, h)
      case None => (s.(lastSend := 0), [ErrorReply])
      case Some(data) =>
        (s.(cached := data, lastSend := |data|, fp := Some(h.(pos := h.pos + |data|))),
         [DataReply(s.lastBlock, data)])
  }

  function OpenFile(env: Env, s: Server, opcode: int, name: Bytes): Outcome {
    var entry := env.entry(name);
    if opcode == OPCODE_RRQ then
      if entry !in s.files then (s.(fp := None), [ErrorReply])
      else SendBlock(s.(fp := Some(Handle(entry, Read, 0)), lastBlock := 1), Some(Handle(entry, Read, 0)))
    else if !env.creates(entry, s.files) then (s.(fp := None), [ErrorReply])
    else (s.(files := s.files[entry := []], fp := Some(Handle(entry, Write, 0))), [AckReply(0)])
  }

  function HandleRequest(env: Env, s0: Server, opcode: int, p: Bytes): Outcome
    requires 2 <= |p|
  {
    var s := s0.(lastBlock := 0, fileIndex := -1);
    match ParseRequest(p)
    case None => (s, [])
    case Some(request) =>
      if !SameIgnoringCase(request.mode, OCTET) then (s, [ErrorReply])
      else
        var f := Lookup(env.table, request.name, 0);
        if f < 0 then (s, [ErrorReply])
        else
          var chosen := s.(fileIndex := f);
          if opcode == OPCODE_RRQ then
            var (bytes, files) := env.preTransmit(f, s.files);
            if bytes < 0 then (chosen.(files := files), [ErrorReply])
            else OpenFile(env, chosen.(files := files), opcode, request.name)
          else OpenFile(env, chosen, opcode, request.name)
  }

  /** A short block ends the upload: the file is closed and the hooks of its entry run. */
  function FinishUpload(env: Env, s: Server): Outcome
    requires 0 <= s.fileIndex
  {
    var bytes := env.postReceive(s.fileIndex, s.files);
    (s.(fp := None, fileIndex := -1, posted := s.posted + [(s.fileIndex, s.files)],
        committed := if bytes > 0 then s.committed + [s.fileIndex] else s.committed),
     if bytes < 0 then [ErrorReply] else [])
  }

  function HandleData(env: Env, s: Server, p: Bytes): Outcome
    requires 4 <= |p| && 0 <= s.fileIndex
  {
    var block := Number(p[2], p[3]);
    if block == s.lastBlock then (s, [AckReply(block)])
    else if block != Next16(s.lastBlock) then (s, [])
    else
      var data := p[4..];
      var numbered := s.(lastBlock := block);
      var written := if s.fp.Some? then WriteAt(s.files, s.fp.value, data) else None;
      var failed := 0 < |data| && written.None?;
      var stored :=
        if 0 < |data| && written.Some? then
          numbered.(files := written.value, fp := Some(s.fp.value.(pos := s.fp.value.pos + |data|)))
        else numbered;
      var errors := if failed then [ErrorReply] else [];
      var (last, more) := if s.fp.Some? && |data| < BLOCK then FinishUpload(env, stored) else (stored, []);
      (last, if failed then errors + more else errors + more + [AckReply(block)])
  }

  function HandleAck(s: Server, p: Bytes): Outcome
    requires 4 <= |p|
  {
    if Number(p[2], p[3]) != s.lastBlock then SendBlock(s, None)
    else
      var next := s.(lastBlock := Next16(s.lastBlock));
      if s.lastSend == BLOCK then SendBlock(next, s.fp)
      else (next.(fp := None, fileIndex := -1), [])
  }

  /** Everything the server does with one packet. */
  function Receive(env: Env, s: Server, p: Bytes): Outcome {
    if |p| < 4 then (s, [])
    else
      var opcode := Number(p[0], p[1]);
      if opcode == OPCODE_RRQ || opcode == OPCODE_WRQ then HandleRequest(env, s, opcode, p)
      else if opcode == OPCODE_DATA && 0 <= s.fileIndex then HandleData(env, s, p)
      else if opcode == OPCODE_ACK && 0 <= s.fileIndex then HandleAck(s, p)
      else (s, [])
  }
}
