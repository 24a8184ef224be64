/**
 Single packets to the file server, well-formed or not: what is refused, what is ignored, and which
 names are served (software/src/tftp.c).
 */
module TftpReplies {
  import opened Common
  import opened Tftp
  import opened TftpJobs

  const DOT: byte := 46

  lemma {:induction false} LastDotIs(name: Bytes)
    ensures match LastDot(name)
            case None => DOT !in name
            case Some(d) => name[d] == DOT && DOT !in name[d + 1..]
  {
    if name != [] && name[|name| - 1] != DOT {
      LastDotIs(name[..|name| - 1]);
    }
  }

  lemma LastDotIsUnique(name: Bytes, d: nat)
    requires d < |name| && name[d] == DOT && DOT !in name[d + 1..]
    ensures LastDot(name) == Some(d)
  {
    LastDotIs(name);
    assert forall i :: d < i < |name| ==> name[i] == name[d + 1..][i - d - 1];
    if LastDot(name).Some? {
      var e := LastDot(name).value;
      assert forall i :: e < i < |name| ==> name[i] == name[e + 1..][i - e - 1];
    }
  }

  /** Two bytes count as the same if they are, or are a capital and a small letter of the same kind. */
  lemma SameLetterIff(a: byte, b: byte)
    ensures SameIgnoringCase([a], [b])
            <==> a == b || (65 <= a <= 90 && b == a + 32) || (65 <= b <= 90 && a == b + 32)
  {
    if Lower(a) == Lower(b) {
      assert [a][0] == a && [b][0] == b;
    } else {
      assert Lower([a][0]) != Lower([b][0]);
    }
  }

  lemma DotsAgree(a: Bytes, b: Bytes)
    requires SameIgnoringCase(a, b)
    ensures forall i :: 0 <= i < |a| ==> (a[i] == DOT <==> b[i] == DOT)
  {
    assert forall x: byte :: Lower(x) == DOT <==> x == DOT;
  }

  /** A name that the table entry serves: its stem, anything, and its extension, in letters of any
      case. */
  ghost predicate Dressed(name: Bytes, first: Bytes, middle: Bytes, last: Bytes, stem: Bytes, ext: Bytes) {
    && name == first + middle + last
    && SameIgnoringCase(first, stem) && SameIgnoringCase(last, ext)
  }

  /** A name matches an entry exactly when it can be read that way. */
  lemma MatchesIff(name: Bytes, stem: Bytes, ext: Bytes)
    requires DOT !in stem && ext != [] && ext[0] == DOT && DOT !in ext[1..]
    ensures Matches(name, stem + ext) <==> exists first, middle, last :: Dressed(name, first, middle, last, stem, ext)
  {
    hide Matches, Dressed;
    EntryEndsInExtension(stem, ext);
    if Matches(name, stem + ext) {
      var first, middle, last := MatchIsDressed(name, stem, ext);
    }
    if first, middle, last :| Dressed(name, first, middle, last, stem, ext) {
      DressedMatches(name, first, middle, last, stem, ext);
    }
  }

  lemma EntryEndsInExtension(stem: Bytes, ext: Bytes)
    requires ext != [] && ext[0] == DOT && DOT !in ext[1..]
    ensures LastDot(stem + ext) == Some(|stem|)
    ensures (stem + ext)[..|stem|] == stem && (stem + ext)[|stem|..] == ext
  {
    assert (stem + ext)[|stem| + 1..] == ext[1..];
    LastDotIsUnique(stem + ext, |stem|);
  }

  lemma MatchIsDressed(name: Bytes, stem: Bytes, ext: Bytes) returns (first: Bytes, middle: Bytes, last: Bytes)
    requires DOT !in stem && Matches(name, stem + ext) && LastDot(stem + ext) == Some(|stem|)
    ensures Dressed(name, first, middle, last, stem, ext)
  {
    LastDotIs(name);
    var d := LastDot(name).value;
    assert (stem + ext)[..|stem|] == stem && (stem + ext)[|stem|..] == ext;
    DotsAgree(name[..|stem|], stem);
    assert forall i :: 0 <= i < |stem| ==> name[..|stem|][i] == name[i] != DOT;
    first, middle, last := name[..|stem|], name[|stem|..d], name[d..];
  }

  lemma DressedMatches(name: Bytes, first: Bytes, middle: Bytes, last: Bytes, stem: Bytes, ext: Bytes)
    requires ext != [] && ext[0] == DOT && DOT !in ext[1..] && LastDot(stem + ext) == Some(|stem|)
    requires Dressed(name, first, middle, last, stem, ext)
    ensures Matches(name, stem + ext)
  {
    var d := |first + middle|;
    DotsAgree(last, ext);
    assert name[d + 1..] == last[1..] && name[d..] == last && name[..|stem|] == first;
    forall i | 0 <= i < |last[1..]|
      ensures last[1..][i] != DOT
    {
      assert ext[1..][i] == ext[i + 1];
    }
    LastDotIsUnique(name, d);
    assert (stem + ext)[..|stem|] == stem && (stem + ext)[|stem|..] == ext;
  }

  /** A data packet as a client writes it. */
  function MakeData(block: nat, data: Bytes): (p: Bytes)
    requires block < 0x1_0000
    ensures |p| == 4 + |data| && p[4..] == data
  {
    [0, 3, High(block), Low(block)] + data
  }

  lemma DataFields(block: nat, data: Bytes)
    requires block < 0x1_0000
    ensures var p := MakeData(block, data);
            Number(p[0], p[1]) == OPCODE_DATA && Number(p[2], p[3]) == block
  {
    NumberOfWire(block);
  }

  /** Whether a request is refused, given what the pre-transmit hook says and leaves. */
  ghost predicate Refused(env: Env, files: Files, opcode: int, name: Bytes, mode: Bytes) {
    || !SameIgnoringCase(mode, OCTET)
    || Lookup(env.table, name, 0) < 0
    || if opcode == OPCODE_RRQ then
         var (bytes, fetched) := env.preTransmit(Lookup(env.table, name, 0), files);
         bytes < 0 || env.entry(name) !in fetched
       else !env.creates(env.entry(name), files)
  }

  /** Every well-formed request gets one answer: an error if it is refused; else the first block of
      the file as the hook left it, or the acknowledgement of number 0 and an empty file. */
  lemma RequestIsAnswered(env: Env, s: Server, opcode: byte, name: Bytes, mode: Bytes)
    requires (opcode == 1 || opcode == 2) && 0 !in name && 0 !in mode
    ensures var (s', replies) := Receive(env, s, MakeRequest(opcode, name, mode));
            var entry := env.entry(name);
            if Refused(env, s.files, opcode as int, name, mode) then replies == [ErrorReply]
            else if opcode == 1 then
              var files := env.preTransmit(Lookup(env.table, name, 0), s.files).1;
              s'.files == files && replies == [DataReply(1, Slice(files[entry], 1))]
            else s'.files == s.files[entry := []] && replies == [AckReply(0)]
  {
    RequestRoundTrip(opcode, name, mode);
    var p := MakeRequest(opcode, name, mode);
    assert Number(p[0], p[1]) == opcode as int;
    if !Refused(env, s.files, opcode as int, name, mode) && opcode == 1 {
      var files := env.preTransmit(Lookup(env.table, name, 0), s.files).1;
      ReadsSlice(files, env.entry(name), files[env.entry(name)], 1);
    }
  }

  /** A short block ends an upload: it is stored, digested and acknowledged even if the digest is
      refused; then there is an error before the acknowledgement, and nothing is put into use. */
  lemma LastBlockIsDigested(env: Env, s: Server, name: Bytes, data: Bytes)
    requires |data| < 512 && 0 <= s.fileIndex && s.lastBlock < 0x1_0000
    requires name in s.files && s.fp == Some(Handle(name, Write, |s.files[name]|))
    ensures var block := Next16(s.lastBlock);
            var whole := s.files[name := s.files[name] + data];
            var bytes := env.postReceive(s.fileIndex, whole);
            Receive(env, s, MakeData(block, data))
            == (s.(files := whole, fp := None, lastBlock := block, fileIndex := -1,
                   posted := s.posted + [(s.fileIndex, whole)],
                   committed := s.committed + if 0 < bytes then [s.fileIndex] else []),
                (if bytes < 0 then [ErrorReply] else []) + [AckReply(block)])
  {
    var block := Next16(s.lastBlock);
    DataFields(block, data);
    if data == [] {
      assert s.files[name] + data == s.files[name];
      assert s.files[name := s.files[name]] == s.files;
    } else {
      WriteAppends(s.files, name, data);
    }
    assert s.committed + [] == s.committed;
    var bytes := env.postReceive(s.fileIndex, s.files[name := s.files[name] + data]);
    assert Receive(env, s, MakeData(block, data)).1 == (if bytes < 0 then [ErrorReply] else []) + [AckReply(block)];
  }

  /** Data without an open file is answered with an error, and stored nowhere. */
  lemma DataNeedsAFile(env: Env, s: Server, data: Bytes)
    requires data != [] && 0 <= s.fileIndex && s.lastBlock < 0x1_0000 && s.fp == None
    ensures var block := Next16(s.lastBlock);
            Receive(env, s, MakeData(block, data)) == (s.(lastBlock := block), [ErrorReply])
  {
    var block := Next16(s.lastBlock);
    DataFields(block, data);
    assert Receive(env, s, MakeData(block, data)).1 == [ErrorReply];
  }

  /** An acknowledgement as a client writes it. */
  function MakeAck(block: nat): (p: Bytes)
    requires block < 0x1_0000
  {
    [0, 4, High(block), Low(block)]
  }

  /** Acknowledging the last block of an upload back to the server ends it, without digesting it; or, if
      the block before was sent in full, draws an error. */
  lemma AckInUpload(env: Env, s: Server, h: Handle)
    requires 0 <= s.fileIndex && s.lastBlock < 0x1_0000 && s.fp == Some(h) && h.access == Write
    ensures var (s', replies) := Receive(env, s, MakeAck(s.lastBlock));
            && s'.files == s.files && s'.posted == s.posted && s'.committed == s.committed
            && (if s.lastSend == 512 then replies == [ErrorReply] && s'.fp == s.fp
                else replies == [] && s'.fp == None && s'.fileIndex == -1)
  {
    NumberOfWire(s.lastBlock);
  }

  /** Data that is neither the last block again nor the next one is ignored; so are data and
      acknowledgements when no transfer is under way, other packets, and packets that are too short. */
  lemma StrayIsIgnored(env: Env, s: Server, p: Bytes)
    requires
      || |p| < 4
      || (Number(p[0], p[1]) == OPCODE_DATA && Number(p[2], p[3]) != s.lastBlock
          && Number(p[2], p[3]) != Next16(s.lastBlock))
      || (Number(p[0], p[1]) in {OPCODE_DATA, OPCODE_ACK} && s.fileIndex < 0)
      || Number(p[0], p[1]) !in {OPCODE_RRQ, OPCODE_WRQ, OPCODE_DATA, OPCODE_ACK}
    ensures Receive(env, s, p) == (s, [])
  {
  }
}
