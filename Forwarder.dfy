/** The inner forwarding loop (lines 181-217) with its session start (line 177) and end
    (lines 234-240), abstracted from sockets: each read is an event, and what the proxy
    writes to the two sockets is recorded in two output sequences. */
module Forwarder {
  import opened PyStr
  import opened Irc
  import opened Sanitizer
  import opened Framer

  newtype byte = x: int | 0 <= x < 256

  /** One `recv` that `select` reported ready: bytes from Comic Chat, or text from the
      server, already decoded. An empty read is the peer closing its end. */
  datatype Event = FromClient(data: seq<byte>) | FromServer(chunk: string)

  /** `Idle`: no session, both sockets closed. `Forwarding`: inside the inner loop.
      `Crashed`: `sanitizeMscc` raised `IndexError`, which nothing catches. */
  datatype Phase = Idle | Forwarding | Crashed

  class Proxy {
    const username: string
    /** The module-level `str_ircBuf` (line 66): text from the server not yet sent on. */
    var ircBuf: string
    /** `str_ircBufCutOff` (line 205): the partial line kept back while a block is sanitized. */
    var ircBufCutOff: string
    var phase: Phase
    /** Everything written to the server socket, one entry per `sendall` of line 189. */
    var toServer: seq<seq<byte>>
    /** Everything written to Comic Chat, one entry per `sendall` of line 212. */
    var toClient: seq<string>
    /** Every character ever appended to the buffer: sentinels and chunks, in order. */
    ghost var received: string
    /** The blocks cut off and sanitized so far, before sanitizing. */
    ghost var blocks: seq<string>

    /** The proxy's fields satisfy `Inv`. */
    ghost predicate Valid()
      reads this
    {
      Inv(blocks, ircBuf, ircBufCutOff, received, toClient, username, phase)
    }

    /** Start-up: the buffer is initialised once, to the empty string (line 66). */
    constructor (user: string)
      ensures Valid() && username == user && phase == Idle
      ensures ircBuf == [] && ircBufCutOff == [] && toServer == [] && toClient == []
      ensures received == [] && blocks == []
    {
      username := user;
      ircBuf := [];
      ircBufCutOff := [];
      phase := Idle;
      toServer := [];
      toClient := [];
      received := [];
      blocks := [];
    }

    /** A new session (line 177): CR LF goes after whatever the last session left in the
        buffer, which is never cleared. */
    method StartSession()
      requires Valid() && phase == Idle
      modifies this
      ensures Valid() && phase == Forwarding
      ensures ircBuf == old(ircBuf) + Crlf && ircBufCutOff == old(ircBufCutOff)
      ensures toServer == old(toServer) && toClient == old(toClient)
      ensures received == old(received) + Crlf && blocks == old(blocks)
    {
      InvStart(blocks, ircBuf, received, toClient, username);
      ircBuf := ircBuf + Crlf;
      received := received + Crlf;
      phase := Forwarding;
    }

    /** One read of the inner loop: the client branch (lines 185-190) or the server branch
        (lines 194-217), as `select` reported the socket ready. An empty read on either
        side closes both sockets and ends the session (lines 188, 197, 234-240); the buffer
        is kept. */
    method Step(ev: Event)
      requires Valid() && phase == Forwarding
      modifies this
      ensures Valid()
      ensures ev.FromClient? && ev.data != [] ==>
        && phase == Forwarding && toServer == old(toServer) + [ev.data]
        && ircBuf == old(ircBuf) && toClient == old(toClient)
      ensures (ev.FromClient? && ev.data == []) || (ev.FromServer? && ev.chunk == []) ==>
        && phase == Idle && toServer == old(toServer)
        && ircBuf == old(ircBuf) && toClient == old(toClient)
      ensures ev.FromClient? || ev.chunk == [] ==>
        received == old(received) && blocks == old(blocks)
      ensures ev.FromServer? ==> toServer == old(toServer)
      ensures ev.FromServer? && ev.chunk != [] ==> ServerReadDone(ev.chunk)
    {
      match ev
      case FromClient(data) =>
        ClientRead(data);
      case FromServer(chunk) =>
        ServerRead(chunk);
    }

    /** A non-empty server read did what `ServerReadSpec` says, against the buffer before
        it. */
    twostate predicate ServerReadDone(chunk: string)
      reads this
    {
      && received == old(received) + chunk
      && match ServerReadSpec(old(ircBuf), chunk, username)
         case Pending(buf) =>
           && phase == Forwarding && ircBuf == buf && toClient == old(toClient)
           && blocks == old(blocks)
         case Sent(block, out, rest) =>
           && phase == Forwarding && ircBuf == rest && toClient == old(toClient) + [out]
           && blocks == old(blocks) + [block]
         case Raised(block, rest) =>
           && phase == Crashed && ircBuf == block && ircBufCutOff == rest
           && toClient == old(toClient) && blocks == old(blocks)
    }

    /** Lines 186-189: bytes from Comic Chat go to the server unchanged. */
    method ClientRead(data: seq<byte>)
      requires Valid() && phase == Forwarding
      modifies this
      ensures Valid() && ircBuf == old(ircBuf) && toClient == old(toClient)
      ensures received == old(received) && blocks == old(blocks)
      ensures data != [] ==> phase == Forwarding && toServer == old(toServer) + [data]
      ensures data == [] ==> phase == Idle && toServer == old(toServer)
    {
      if |data| == 0 {
        InvClose(blocks, ircBuf, received, toClient, username);
        phase := Idle;
        return;
      }
      toServer := toServer + [data];
    }

    /** Lines 195-217: server text is added to the buffer, and if the buffer now holds a
        CR LF, the block through the last one is sanitized and sent to the client. */
    method ServerRead(chunk: string)
      requires Valid() && phase == Forwarding
      modifies this`ircBuf, this`ircBufCutOff, this`phase, this`toClient, this`received, this`blocks
      ensures Valid() && toServer == old(toServer)
      ensures chunk == [] ==> phase == Idle && ircBuf == old(ircBuf) && toClient == old(toClient)
      ensures chunk == [] ==> received == old(received) && blocks == old(blocks)
      ensures chunk != [] ==> ServerReadDone(chunk)
    {
      if |chunk| == 0 {
        InvClose(blocks, ircBuf, received, toClient, username);
        phase := Idle;
        return;
      }
      var buf := ircBuf + chunk;
      if !Contains(buf, Crlf) {
        InvNoBlock(blocks, ircBuf, chunk, received, toClient, username);
        ircBuf, received := buf, received + chunk;
        return;
      }
      CutAndSend(chunk);
    }

    /** Lines 201-217, once the buffer with the chunk holds a CR LF: cut it at the last one,
        sanitize the block and send it. */
    method CutAndSend(chunk: string)
      requires Valid() && phase == Forwarding && Contains(ircBuf + chunk, Crlf)
      modifies this`ircBuf, this`ircBufCutOff, this`phase, this`toClient, this`received, this`blocks
      ensures Valid() && ServerReadDone(chunk)
    {
      var buf := ircBuf + chunk;
      var li := RSplit1(buf, Crlf);
      var block, rest := li[0] + Crlf, li[1];
      FrameCut(buf, li);
      var out := SanitizeMscc(block, username);
      match out
      case IndexError =>
        InvCrash(blocks, ircBuf, chunk, received, toClient, username, block, rest);
        SpecRaised(ircBuf, chunk, username, block, rest);
        Crash(chunk, block, rest);
      case Done(san) =>
        InvSend(blocks, ircBuf, chunk, received, toClient, username, block, rest, san);
        SpecSent(ircBuf, chunk, username, block, rest, san);
        Deliver(chunk, block, rest, san);
    }

    /** Line 210 raised: the sanitized block never replaces the buffer, and the loop ends. */
    method Crash(chunk: string, block: string, rest: string)
      requires Inv(blocks, block, rest, received + chunk, toClient, username, Crashed)
      requires ServerReadSpec(ircBuf, chunk, username) == Raised(block, rest)
      modifies this`ircBuf, this`ircBufCutOff, this`phase, this`received
      ensures Valid() && ServerReadDone(chunk)
    {
      ircBuf, ircBufCutOff, received, phase := block, rest, received + chunk, Crashed;
    }

    /** Lines 210-217: the sanitized block goes to the client and the rest is kept. */
    method Deliver(chunk: string, block: string, rest: string, out: string)
      requires phase == Forwarding && ircBufCutOff == []
      requires Inv(blocks + [block], rest, [], received + chunk, toClient + [out], username,
                   Forwarding)
      requires ServerReadSpec(ircBuf, chunk, username) == Sent(block, out, rest)
      modifies this`ircBuf, this`received, this`toClient, this`blocks
      ensures Valid() && ServerReadDone(chunk)
    {
      ircBuf, received := rest, received + chunk;
      toClient, blocks := toClient + [out], blocks + [block];
    }
  }

  /** What one non-empty server read leads to: the text waits for a CR LF, a block is sent
      and the rest kept, or sanitizing the block raises. */
  datatype ReadOutcome = Pending(buf: string) | Sent(block: string, out: string, rest: string)
                       | Raised(block: string, rest: string)

  /** Lines 198-217 on values: append the chunk, cut at the last CR LF, sanitize the block. */
  function ServerReadSpec(buf: string, chunk: string, user: string): (r: ReadOutcome)
    ensures r.Pending? <==> !Contains(buf + chunk, Crlf)
    ensures r.Pending? ==> r.buf == buf + chunk
    ensures r.Sent? ==>
      && EndsCrlf(r.block) && r.block + r.rest == buf + chunk
      && !Contains(r.rest, Crlf) && Sanitize(r.block, user) == Done(r.out)
    ensures r.Raised? ==>
      && EndsCrlf(r.block) && r.block + r.rest == buf + chunk
      && !Contains(r.rest, Crlf) && Sanitize(r.block, user) == IndexError
  {
    match Frame(buf + chunk)
    case None => Pending(buf + chunk)
    case Some(f) =>
      match Sanitize(f.block, user)
      case Done(out) => Sent(f.block, out, f.rest)
      case IndexError => Raised(f.block, f.rest)
  }

  /** A server read cuts the buffer exactly as the framer's `Feed` does: the text that waits
      is `Feed`'s buffer, and the block sanitized (sent or raising) is `Feed`'s one block. */
  lemma ServerReadFeeds(buf: string, chunk: string, user: string)
    requires chunk != []
    ensures match ServerReadSpec(buf, chunk, user)
            case Pending(b) => Feed(buf, chunk) == Fed([], b)
            case Sent(block, _, rest) => Feed(buf, chunk) == Fed([block], rest)
            case Raised(block, rest) => Feed(buf, chunk) == Fed([block], rest)
  {
  }

  /** What `Proxy.Valid` demands of the proxy's state. Text is neither lost nor reordered:
      the blocks sent on, then the buffer and the cut-off part, are exactly what was
      received. Each block is whole lines, and what went to the client for it is its
      sanitized form. Outside a crash nothing is cut off; a crash leaves the failing block
      in the buffer and the partial line after it in the cut-off part. */
  ghost predicate Inv(blocks: seq<string>, buf: string, cut: string, received: string,
                      toClient: seq<string>, user: string, phase: Phase)
  {
    && Flatten(blocks) + buf + cut == received
    && |toClient| == |blocks|
    && (forall i :: 0 <= i < |blocks| ==>
          EndsCrlf(blocks[i]) && Sanitize(blocks[i], user) == Done(toClient[i]))
    && (phase != Crashed ==> cut == [])
    && (phase == Crashed ==>
          EndsCrlf(buf) && Sanitize(buf, user) == IndexError && !Contains(cut, Crlf))
  }

  /** Line 177 keeps `Inv`. */
  lemma InvStart(blocks: seq<string>, buf: string, received: string, toClient: seq<string>,
                 user: string)
    requires Inv(blocks, buf, [], received, toClient, user, Idle)
    ensures Inv(blocks, buf + Crlf, [], received + Crlf, toClient, user, Forwarding)
  {
    AppendConserves(Flatten(blocks), buf, Crlf, received);
  }

  /** Ending a session keeps `Inv`. */
  lemma InvClose(blocks: seq<string>, buf: string, received: string, toClient: seq<string>,
                 user: string)
    requires Inv(blocks, buf, [], received, toClient, user, Forwarding)
    ensures Inv(blocks, buf, [], received, toClient, user, Idle)
  {
  }

  /** A read that leaves no CR LF in the buffer keeps `Inv`. */
  lemma InvNoBlock(blocks: seq<string>, buf: string, chunk: string, received: string,
                   toClient: seq<string>, user: string)
    requires Inv(blocks, buf, [], received, toClient, user, Forwarding)
    requires !Contains(buf + chunk, Crlf)
    ensures Inv(blocks, buf + chunk, [], received + chunk, toClient, user, Forwarding)
    ensures ServerReadSpec(buf, chunk, user) == Pending(buf + chunk)
  {
    AppendConserves(Flatten(blocks), buf, chunk, received);
  }

  /** A read that completes a block which sanitizes keeps `Inv` once the block is sent. */
  lemma InvSend(blocks: seq<string>, buf: string, chunk: string, received: string,
                toClient: seq<string>, user: string, block: string, rest: string, out: string)
    requires Inv(blocks, buf, [], received, toClient, user, Forwarding)
    requires Frame(buf + chunk) == Some(Framed(block, rest))
    requires Sanitize(block, user) == Done(out)
    ensures Inv(blocks + [block], rest, [], received + chunk, toClient + [out], user, Forwarding)
  {
    SendConserves(blocks, buf, chunk, received, block, rest);
    var bs, ts := blocks + [block], toClient + [out];
    assert forall i :: 0 <= i < |bs| ==> EndsCrlf(bs[i]) && Sanitize(bs[i], user) == Done(ts[i])
    by {
      forall i | 0 <= i < |bs|
        ensures EndsCrlf(bs[i]) && Sanitize(bs[i], user) == Done(ts[i])
      {
        if i < |blocks| {
          assert bs[i] == blocks[i] && ts[i] == toClient[i];
        }
      }
    }
  }

  /** The `Sent` outcome, once the block is known. */
  lemma SpecSent(buf: string, chunk: string, user: string, block: string, rest: string,
                 out: string)
    requires Frame(buf + chunk) == Some(Framed(block, rest))
    requires Sanitize(block, user) == Done(out)
    ensures ServerReadSpec(buf, chunk, user) == Sent(block, out, rest)
  {
  }

  /** A read that completes a block on which sanitizing raises leaves `Inv` with the
      process dead. */
  lemma InvCrash(blocks: seq<string>, buf: string, chunk: string, received: string,
                 toClient: seq<string>, user: string, block: string, rest: string)
    requires Inv(blocks, buf, [], received, toClient, user, Forwarding)
    requires Frame(buf + chunk) == Some(Framed(block, rest))
    requires Sanitize(block, user) == IndexError
    ensures Inv(blocks, block, rest, received + chunk, toClient, user, Crashed)
  {
    CrashConserves(Flatten(blocks), buf, chunk, received, block, rest);
  }

  /** The `Raised` outcome, once the block is known. */
  lemma SpecRaised(buf: string, chunk: string, user: string, block: string, rest: string)
    requires Frame(buf + chunk) == Some(Framed(block, rest))
    requires Sanitize(block, user) == IndexError
    ensures ServerReadSpec(buf, chunk, user) == Raised(block, rest)
  {
  }

  /** Keeping a failed block and the rest after it keeps the text in step. */
  lemma CrashConserves(sent: string, buf: string, chunk: string, received: string,
                       block: string, rest: string)
    requires sent + buf + [] == received && block + rest == buf + chunk
    ensures sent + block + rest == received + chunk
  {
    AppendConserves(sent, buf, chunk, received);
    assert sent + (block + rest) == sent + block + rest;
  }

  /** Appending a chunk to the buffer and to what was received keeps them in step. */
  lemma AppendConserves(sent: string, buf: string, chunk: string, received: string)
    requires sent + buf + [] == received
    ensures sent + (buf + chunk) + [] == received + chunk
  {
    assert sent + buf + [] == sent + buf;
    assert sent + (buf + chunk) + [] == (sent + buf) + chunk;
  }

  /** Moving a sent block from the buffer to the blocks keeps the text in step. */
  lemma SendConserves(blocks: seq<string>, buf: string, chunk: string, received: string,
                      block: string, rest: string)
    requires Flatten(blocks) + buf + [] == received && block + rest == buf + chunk
    ensures Flatten(blocks + [block]) + rest + [] == received + chunk
  {
    var s := Flatten(blocks);
    FlattenAppend(blocks, [block]);
    assert Flatten([block]) == block + Flatten([]);
    calc {
      Flatten(blocks + [block]) + rest + [];
      s + block + rest;
      s + (block + rest);
      s + (buf + chunk);
      (s + buf + []) + chunk;
      received + chunk;
    }
  }
}
