/** The framer of the forwarding loop (lines 198-217): decoded text from the server piles up
    in a pending buffer, and whenever the buffer holds a CR LF everything through the last
    one is cut off as a block of whole lines; the rest waits for the next read. */
module Framer {
  import opened PyStr
  import opened Irc

  datatype Option<T> = None | Some(value: T)

  /** A buffer cut at its last CR LF: `block` ends with it, `rest` follows it. */
  datatype Framed = Framed(block: string, rest: string)

  /** Lines 201-205: `rsplit('\r\n', 1)` of the buffer, with the CR LF put back on the block;
      `None` is the `continue` of line 208, taken when the buffer holds no CR LF. */
  function Frame(buf: string): (r: Option<Framed>)
    ensures r.None? <==> !Contains(buf, Crlf)
    ensures r.Some? ==> r.value.block + r.value.rest == buf
    ensures r.Some? ==> EndsCrlf(r.value.block) && !Contains(r.value.rest, Crlf)
  {
    if !Contains(buf, Crlf) then None
    else
      var li := RSplit1(buf, Crlf);
      Some(Framed(li[0] + Crlf, li[1]))
  }

  /** `Frame` as lines 201-205 compute it. */
  lemma FrameIsRSplit(t: string)
    ensures !Contains(t, Crlf) ==> Frame(t) == None
    ensures Contains(t, Crlf) ==>
      Frame(t) == Some(Framed(RSplit1(t, Crlf)[0] + Crlf, RSplit1(t, Crlf)[1]))
  {
  }

  /** The cut of lines 202-205 on a buffer holding a CR LF is the frame. */
  lemma FrameCut(t: string, li: seq<string>)
    requires Contains(t, Crlf) && li == RSplit1(t, Crlf)
    ensures |li| == 2 && Frame(t) == Some(Framed(li[0] + Crlf, li[1]))
    ensures Terminated(li[0] + Crlf)
  {
    FrameIsRSplit(t);
  }

  /** The text of a sequence of chunks, one after the other. */
  function Flatten(ss: seq<string>): string {
    if ss == [] then [] else ss[0] + Flatten(ss[1..])
  }

  lemma {:induction false} FlattenAppend(a: seq<string>, b: seq<string>)
    ensures Flatten(a + b) == Flatten(a) + Flatten(b)
    decreases |a|
  {
    if a == [] {
      assert a + b == b;
    } else {
      assert (a + b)[1..] == a[1..] + b;
      FlattenAppend(a[1..], b);
    }
  }

  /** What is left of `t` after its last CR LF (all of `t` when it holds none): a reference
      definition of the pending buffer, independent of how the text arrived. */
  function Remainder(t: string): (r: string)
    ensures |r| <= |t| && t[|t| - |r|..] == r && !Contains(r, Crlf)
    ensures |r| < |t| ==> EndsCrlf(t[..|t| - |r|])
  {
    if !Contains(t, Crlf) then t
    else
      var li := RSplit1(t, Crlf);
      assert t[..|t| - |li[1]|] == li[0] + Crlf;
      li[1]
  }

  /** Past a cut that follows a CR LF, into a suffix that holds none, no CR LF starts at or
      after the cut's last character. */
  lemma NoCrlfFrom(t: string, n: nat)
    requires n <= |t| && !Contains(t[n..], Crlf) && (n == 0 || EndsCrlf(t[..n]))
    ensures forall k :: n - 1 <= k ==> !OccursAt(t, Crlf, k)
  {
    assert t == t[..n] + t[n..];
    forall k | n - 1 <= k
      ensures !OccursAt(t, Crlf, k)
    {
      if k >= n {
        OccursInSuffix(t[..n], t[n..], Crlf, k);
      } else if k >= 0 {
        EndsCrlfChars(t[..n]);
        assert t[k] == t[..n][n - 1];
        MismatchAt(t, Crlf, k, 0);
      }
    }
  }

  /** The remainder is the only suffix that holds no CR LF and follows a CR LF (or is all
      of `t`). */
  lemma RemainderUnique(t: string, n: nat)
    requires n <= |t| && !Contains(t[n..], Crlf) && (n == 0 || EndsCrlf(t[..n]))
    ensures Remainder(t) == t[n..]
  {
    var r := Remainder(t);
    var m := |t| - |r|;
    assert t[m..] == r;
    NoCrlfFrom(t, n);
    NoCrlfFrom(t, m);
    if m > 0 {
      assert OccursAt(t, Crlf, m - 2) by {
        assert t[m - 2..m] == t[..m][m - 2..];
      }
    }
    if n > 0 {
      assert OccursAt(t, Crlf, n - 2) by {
        assert t[n - 2..n] == t[..n][n - 2..];
      }
    }
    assert m == n;
  }

  /** Taking the remainder before more text arrives loses nothing: a CR LF that the new text
      completes or brings is found either way. */
  lemma RemainderAppend(x: string, y: string)
    ensures Remainder(Remainder(x) + y) == Remainder(x + y)
  {
    var n := RemainderAppendCut(x, y);
    if n > 0 {
      EndsCrlfChars((x + y)[..n]);
    }
    RemainderUnique(x + y, n);
  }

  /** Where `Remainder(t)` starts, with the CR LF just before it spelled out. */
  lemma RemainderAt(t: string) returns (m: nat)
    ensures m <= |t| && Remainder(t) == t[m..]
    ensures m == 0 || (m >= 2 && t[m - 2] == '\r' && t[m - 1] == '\n')
  {
    m := |t| - |Remainder(t)|;
    if m > 0 {
      EndsCrlfChars(t[..m]);
    }
  }

  /** Where `Remainder(Remainder(x) + y)` starts inside `x + y`. */
  lemma RemainderAppendCut(x: string, y: string) returns (n: nat)
    ensures n <= |x + y| && Remainder(Remainder(x) + y) == (x + y)[n..]
    ensures n == 0 || (n >= 2 && (x + y)[n - 2] == '\r' && (x + y)[n - 1] == '\n')
  {
    var np := RemainderAt(x);
    var nq := RemainderAt(Remainder(x) + y);
    SuffixAppend(x, y, np);
    n := ShiftCut(x + y, Remainder(x) + y, np, nq);
  }

  /** A suffix of `x` followed by `y` is a suffix of `x + y`. */
  lemma SuffixAppend(x: string, y: string, np: nat)
    requires np <= |x|
    ensures (x + y)[np..] == x[np..] + y
  {
  }

  /** A cut after a CR LF inside a suffix of `t` is a cut after a CR LF in `t`. */
  lemma ShiftCut(t: string, u: string, np: nat, nq: nat) returns (n: nat)
    requires np <= |t| && t[np..] == u && nq <= |u|
    requires np == 0 || (np >= 2 && t[np - 2] == '\r' && t[np - 1] == '\n')
    requires nq == 0 || (nq >= 2 && u[nq - 2] == '\r' && u[nq - 1] == '\n')
    ensures n == np + nq && n <= |t| && t[n..] == u[nq..]
    ensures n == 0 || (n >= 2 && t[n - 2] == '\r' && t[n - 1] == '\n')
  {
    n := np + nq;
    if nq > 0 {
      assert t[n - 2] == u[nq - 2] && t[n - 1] == u[nq - 1];
    }
  }

  /** The framer's state after reads: the blocks cut off so far and the pending buffer. */
  datatype Fed = Fed(blocks: seq<string>, buffer: string)

  /** Every read returned text: an empty read ends the session at line 197, before the
      buffer is touched. */
  predicate Reads(chunks: seq<string>) {
    forall i :: 0 <= i < |chunks| ==> chunks[i] != []
  }

  /** One read, lines 198-208 and 216-217: append the chunk, then cut off a block if the
      buffer holds a CR LF. */
  function Feed(buf: string, chunk: string): (r: Fed)
    requires chunk != []
    ensures |r.blocks| <= 1 && Flatten(r.blocks) + r.buffer == buf + chunk
    ensures r.buffer == Remainder(buf + chunk)
    ensures r.blocks == [] <==> !Contains(buf + chunk, Crlf)
    ensures forall i :: 0 <= i < |r.blocks| ==> EndsCrlf(r.blocks[i])
  {
    var t := buf + chunk;
    match Frame(t)
    case None => Fed([], t)
    case Some(f) =>
      assert Flatten([f.block]) == f.block + Flatten([]);
      Fed([f.block], f.rest)
  }

  /** A run of reads, one `Feed` after another. */
  function FeedAll(buf: string, chunks: seq<string>): (r: Fed)
    requires Reads(chunks)
    ensures Flatten(r.blocks) + r.buffer == buf + Flatten(chunks)
    ensures forall i :: 0 <= i < |r.blocks| ==> EndsCrlf(r.blocks[i])
    decreases |chunks|
  {
    if chunks == [] then Fed([], buf)
    else
      var f := Feed(buf, chunks[0]);
      var g := FeedAll(f.buffer, chunks[1..]);
      FlattenAppend(f.blocks, g.blocks);
      Conserve(Flatten(f.blocks), f.buffer, Flatten(g.blocks), g.buffer, buf, chunks[0],
        Flatten(chunks[1..]));
      Fed(f.blocks + g.blocks, g.buffer)
  }

  /** Two reads in a row conserve text when each does. */
  lemma Conserve(b1: string, m: string, b2: string, e: string, buf: string, c: string,
                 cs: string)
    requires b1 + m == buf + c && b2 + e == m + cs
    ensures b1 + b2 + e == buf + (c + cs)
  {
    calc {
      b1 + b2 + e;
      b1 + (b2 + e);
      b1 + (m + cs);
      (b1 + m) + cs;
      (buf + c) + cs;
      buf + (c + cs);
    }
  }

  /** After at least one read the pending buffer is the remainder of everything read. */
  lemma {:induction false} FeedAllBuffer(buf: string, chunks: seq<string>)
    requires chunks != [] && Reads(chunks)
    ensures FeedAll(buf, chunks).buffer == Remainder(buf + Flatten(chunks))
    decreases |chunks|
  {
    var c, cs := chunks[0], chunks[1..];
    var m := Feed(buf, c).buffer;
    FeedAllFirst(buf, chunks);
    FlattenFirst(buf, chunks);
    if cs != [] {
      FeedAllBuffer(m, cs);
      RemainderAppend(buf + c, Flatten(cs));
    } else {
      assert (buf + c) + Flatten(cs) == buf + c;
    }
  }

  /** `FeedAll` takes the first read first. */
  lemma FeedAllFirst(buf: string, chunks: seq<string>)
    requires chunks != [] && Reads(chunks)
    ensures FeedAll(buf, chunks).buffer == FeedAll(Feed(buf, chunks[0]).buffer, chunks[1..]).buffer
  {
  }

  lemma FlattenFirst(buf: string, chunks: seq<string>)
    requires chunks != []
    ensures buf + Flatten(chunks) == (buf + chunks[0]) + Flatten(chunks[1..])
  {
    assert Flatten(chunks) == chunks[0] + Flatten(chunks[1..]);
  }

  /** How the text was cut into reads does not matter: the same text read in other chunks
      leaves the same buffer and the same text in blocks. */
  lemma FeedAllSplitIndependent(buf: string, c1: seq<string>, c2: seq<string>)
    requires c1 != [] && c2 != [] && Reads(c1) && Reads(c2) && Flatten(c1) == Flatten(c2)
    ensures FeedAll(buf, c1).buffer == FeedAll(buf, c2).buffer
    ensures Flatten(FeedAll(buf, c1).blocks) == Flatten(FeedAll(buf, c2).blocks)
  {
    FeedAllBuffer(buf, c1);
    FeedAllBuffer(buf, c2);
    var b1 := Flatten(FeedAll(buf, c1).blocks);
    var b2 := Flatten(FeedAll(buf, c2).blocks);
    var rest := FeedAll(buf, c1).buffer;
    assert b1 == (b1 + rest)[..|b1|];
    assert b2 == (b2 + rest)[..|b2|];
  }

  /** Line 177 puts a CR LF after whatever the previous session left in the buffer, so the
      first read of a new session always cuts off a block, and that block starts with the
      stale text. */
  lemma SentinelFlushesLeftover(leftover: string, chunk: string)
    ensures Frame(leftover + Crlf + chunk).Some?
    ensures var b := Frame(leftover + Crlf + chunk).value.block;
      |leftover| + 2 <= |b| && b[..|leftover| + 2] == leftover + Crlf
  {
    var t := leftover + Crlf + chunk;
    assert OccursAt(t, Crlf, |leftover|) by {
      assert t[|leftover|..|leftover| + 2] == Crlf;
    }
    var f := Frame(t).value;
    var n := |f.block|;
    assert f.block == t[..n] && f.rest == t[n..];
    NoCrlfFrom(t, n);
    assert t[..|leftover| + 2] == leftover + Crlf;
    assert f.block == t[..|f.block|];
  }
}
