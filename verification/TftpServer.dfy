/**
 The server's callback as the firmware runs it, over the fields it keeps between packets
 (software/src/tftp.c).
 */
module TftpServer {
  import opened Common
  import opened Tftp

  class FileServer {
    const env: Env
    var files: Files                   // the file system
    var fp: Option<Handle>             // the file being transferred
    var lastBlock: nat                 // a 16-bit counter
    var lastSend: int
    var fileIndex: int
    var cached: Bytes                  // what the block buffer holds
    ghost var posted: seq<(nat, Files)>
    ghost var committed: seq<nat>

    ghost function View(): Server
      reads this
    {
      Server(files, fp, lastBlock, lastSend, fileIndex, cached, posted, committed)
    }

    constructor (e: Env, fs: Files)
      ensures env == e && View() == Server(fs, None, 0, 0, -1, [], [], [])
    {
      env, files, fp, lastBlock, lastSend, fileIndex, cached := e, fs, None, 0, 0, -1, [];
      posted, committed := [], [];
    }

    method SendBlock(file: Option<Handle>) returns (replies: seq<Reply>)
      requires file.Some? ==> file == fp
      modifies `fp, `cached, `lastSend
      ensures (View(), replies) == Tftp.SendBlock(old(View()), file)
    {
      if file.Some? {
        var r := ReadBlock(files, file.value);
        if r.None? {
          lastSend := 0;
          return [ErrorReply];
        }
        cached := r.value;
        fp := Some(file.value.(pos := file.value.pos + |cached|));
      }
      lastSend := |cached|;
      replies := [DataReply(lastBlock, cached)];
    }

    method OpenFile(opcode: int, name: Bytes) returns (replies: seq<Reply>)
      modifies `files, `fp, `cached, `lastSend, `lastBlock
      ensures (View(), replies) == Tftp.OpenFile(env, old(View()), opcode, name)
    {
      var entry := env.entry(name);
      if opcode == OPCODE_RRQ {
        if entry !in files {
          fp := None;
          return [ErrorReply];
        }
        fp := Some(Handle(entry, Read, 0));
        lastBlock := 1;
        replies := SendBlock(fp);
      } else if !env.creates(entry, files) {
        fp := None;
        replies := [ErrorReply];
      } else {
        files := files[entry := []];
        fp := Some(Handle(entry, Write, 0));
        replies := [AckReply(0)];
      }
    }

    /** Finds the name and the mode by counting zero bytes. */
    method ScanRequest(p: Bytes) returns (request: Option<Request>)
      requires 2 <= |p|
      ensures request == ParseRequest(p)
    {
      var i, nullCount, mode := 2, 0, 2;
      while i < |p| && nullCount < 2
        invariant 2 <= i <= |p| && 0 <= nullCount <= 2
        invariant nullCount == 0 ==> FirstNul(p, 2) == FirstNul(p, i)
        invariant nullCount == 1 ==>
                    3 <= mode <= i && mode - 1 == FirstNul(p, 2) < |p| && FirstNul(p, mode) == FirstNul(p, i)
        invariant nullCount == 2 ==>
                    3 <= mode < i && mode - 1 == FirstNul(p, 2) < |p| && i - 1 == FirstNul(p, mode) < |p|
      {
        if p[i] == 0 {
          nullCount := nullCount + 1;
          if nullCount == 1 {
            mode := i + 1;
          }
        }
        i := i + 1;
      }
      if nullCount == 2 {
        return Some(Request(p[2..mode - 1], p[mode..i - 1]));
      }
      return None;
    }

    method FindEntry(name: Bytes) returns (f: int)
      ensures f == Lookup(env.table, name, 0)
    {
      var i := 0;
      while i < |env.table|
        invariant 0 <= i <= |env.table|
        invariant Lookup(env.table, name, 0) == Lookup(env.table, name, i)
      {
        if Matches(name, env.table[i]) {
          return i;
        }
        i := i + 1;
      }
      return -1;
    }

    method HandleRequest(opcode: int, p: Bytes) returns (replies: seq<Reply>)
      requires 2 <= |p|
      modifies this
      ensures (View(), replies) == Tftp.HandleRequest(env, old(View()), opcode, p)
    {
      lastBlock := 0;
      fileIndex := -1;
      var request := ScanRequest(p);
      if request.None? {
        return [];
      }
      if !SameIgnoringCase(request.value.mode, OCTET) {
        return [ErrorReply];
      }
      fileIndex := FindEntry(request.value.name);
      if fileIndex < 0 {
        return [ErrorReply];
      }
      if opcode == OPCODE_RRQ {
        var (bytes, fs) := env.preTransmit(fileIndex, files);
        files := fs;
        if bytes < 0 {
          return [ErrorReply];
        }
      }
      replies := OpenFile(opcode, request.value.name);
    }

    method FinishUpload() returns (replies: seq<Reply>)
      requires 0 <= fileIndex
      modifies `fp, `fileIndex, `posted, `committed
      ensures (View(), replies) == Tftp.FinishUpload(env, old(View()))
    {
      fp := None;
      var bytes := env.postReceive(fileIndex, files);
      posted := posted + [(fileIndex, files)];
      if bytes > 0 {
        committed := committed + [fileIndex];
      }
      fileIndex := -1;
      replies := if bytes < 0 then [ErrorReply] else [];
    }

    method HandleData(p: Bytes) returns (replies: seq<Reply>)
      requires 4 <= |p| && 0 <= fileIndex
      modifies this
      ensures (View(), replies) == Tftp.HandleData(env, old(View()), p)
    {
      var block := Number(p[2], p[3]);
      if block == lastBlock {
        return [AckReply(block)];
      }
      if block != Next16(lastBlock) {
        return [];
      }
      var data := p[4..];
      lastBlock := block;
      var acknowledge := true;
      replies := [];
      if |data| > 0 {
        var written := if fp.Some? then WriteAt(files, fp.value, data) else None;
        if written.None? {
          acknowledge := false;
          replies := [ErrorReply];
        } else {
          files := written.value;
          fp := Some(fp.value.(pos := fp.value.pos + |data|));
        }
      }
      var more := [];
      if fp.Some? && |data| < BLOCK {
        more := FinishUpload();
      }
      replies := replies + more;
      if acknowledge {
        replies := replies + [AckReply(block)];
      }
    }

    method HandleAck(p: Bytes) returns (replies: seq<Reply>)
      requires 4 <= |p|
      modifies `fp, `cached, `lastSend, `lastBlock, `fileIndex
      ensures (View(), replies) == Tftp.HandleAck(old(View()), p)
    {
      if Number(p[2], p[3]) != lastBlock {
        replies := SendBlock(None);
        return;
      }
      lastBlock := Next16(lastBlock);
      if lastSend == BLOCK {
        replies := SendBlock(fp);
      } else {
        fp := None;
        fileIndex := -1;
        replies := [];
      }
    }

    method ReceiveCallback(p: Bytes) returns (replies: seq<Reply>)
      modifies this
      ensures (View(), replies) == Receive(env, old(View()), p)
    {
      replies := [];
      if |p| >= 4 {
        var opcode := Number(p[0], p[1]);
        if opcode == OPCODE_RRQ || opcode == OPCODE_WRQ {
          replies := HandleRequest(opcode, p);
        } else if opcode == OPCODE_DATA && fileIndex >= 0 {
          replies := HandleData(p);
        } else if opcode == OPCODE_ACK && fileIndex >= 0 {
          replies := HandleAck(p);
        }
      }
    }
  }
}
