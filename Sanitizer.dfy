/** `sanitizeMscc` (mscchelper-0.02Z.py:79-116): the three ordered rewrites applied to each
    block of complete upstream lines before it is handed to Microsoft Comic Chat.
    Each pass has a specification function here; `SanitizeMscc` is the imperative original,
    with its two `while` loops, proved equal to `Sanitize`. */
module Sanitizer {
  import opened PyStr
  import opened Irc

  /** What `sanitizeMscc` produces: the rewritten block, or the `IndexError` that line 101
      raises when the names reply has nothing after its channel name. */
  datatype Outcome<T> = Done(value: T) | IndexError

  const JoinBare: string := "JOIN #"
  const JoinColon: string := "JOIN :#"
  const AtHash: string := " @ #"
  const IsircxKey: string := "ISIRCX :No such channel"

  /** The search key of the RPL_NAMREPLY (353) rewrite: the numeric, the user name and the
      secret-channel marker, with no space between the numeric and the name. */
  function NamesKey(usr: string): string {
    "353" + usr + AtHash
  }

  /** The number of `@` characters: it falls with every names rewrite. */
  function AtSigns(s: string): nat {
    if s == [] then 0 else (if s[0] == '@' then 1 else 0) + AtSigns(s[1..])
  }

  lemma {:induction false} AtSignsConcat(a: string, b: string)
    ensures AtSigns(a + b) == AtSigns(a) + AtSigns(b)
    decreases |a|
  {
    if a == [] {
      assert a + b == b;
    } else {
      assert (a + b)[1..] == a[1..] + b;
      AtSignsConcat(a[1..], b);
    }
  }

  /** Neither occurs at all, nor anywhere but at index 0 first: the exit condition
      `find(p) <= 0` of the loops at lines 97 and 106. */
  ghost predicate SettledAtZero(s: string, p: string) {
    (forall k :: 0 < k ==> !OccursAt(s, p, k)) || OccursAt(s, p, 0)
  }

  // ---------------------------------------------------------------------------------------
  // Pass 1, line 81: `str_in.replace('JOIN #', 'JOIN :#')` (JOIN, section 3.2.1 of RFC 2812).

  function JoinPass(s: string): (r: string)
  {
    Replace(s, JoinBare, JoinColon)
  }

  /** A replaced text can begin with a piece of `JOIN #` that lacks the `J` only if the
      original text began with that piece. */
  lemma {:induction false} ReplacePreservesJoinlessPrefix(t: string, w: string)
    requires 'J' !in w
    ensures |w| <= |JoinPass(t)| && JoinPass(t)[..|w|] == w ==> |w| <= |t| && t[..|w|] == w
    decreases |t|
  {
    var r := JoinPass(t);
    if w != [] && |t| >= |JoinBare| && |w| <= |r| && r[..|w|] == w {
      assert r[0] == w[0] && w[0] != 'J';
      assert t[..|JoinBare|] != JoinBare;
      assert r == [t[0]] + JoinPass(t[1..]);
      assert 'J' !in w[1..] by {
        forall c | c in w[1..] ensures c in w { }
      }
      assert JoinPass(t[1..])[..|w| - 1] == w[1..];
      ReplacePreservesJoinlessPrefix(t[1..], w[1..]);
      assert t[..|w|] == [t[0]] + t[1..][..|w| - 1];
    }
  }

  /** After the JOIN pass no `JOIN #` is left anywhere in the block. */
  lemma {:induction false} JoinPassLeavesNoBareJoin(s: string)
    ensures forall k :: !OccursAt(JoinPass(s), JoinBare, k)
    decreases |s|
  {
    var r := JoinPass(s);
    if |s| < |JoinBare| {
      assert r == s;
    } else if s[..|JoinBare|] == JoinBare {
      var rest := JoinPass(s[|JoinBare|..]);
      assert r == JoinColon + rest;
      JoinPassLeavesNoBareJoin(s[|JoinBare|..]);
      forall k ensures !OccursAt(r, JoinBare, k) {
        if k >= |JoinColon| {
          OccursInSuffix(JoinColon, rest, JoinBare, k);
        } else if k == 0 {
          assert r[5] == ':';
        } else if k > 0 {
          assert r[k] == JoinColon[k] != 'J';
        }
      }
    } else {
      var rest := JoinPass(s[1..]);
      assert r == [s[0]] + rest;
      JoinPassLeavesNoBareJoin(s[1..]);
      ReplacePreservesJoinlessPrefix(s[1..], JoinBare[1..]);
      forall k ensures !OccursAt(r, JoinBare, k) {
        if k >= 1 {
          OccursInSuffix([s[0]], rest, JoinBare, k);
        } else if k == 0 && |rest| >= 5 && rest[..5] == JoinBare[1..] {
          assert s[..|JoinBare|] == [s[0]] + s[1..][..5];
          assert r[0] == s[0] != 'J';
        } else if k == 0 && |rest| >= 5 {
          assert r[1..6] == rest[..5];
        }
      }
    }
  }

  /** The JOIN pass changes a block exactly when the block holds a `JOIN #`. */
  lemma JoinPassIdentityIff(s: string)
    ensures JoinPass(s) == s <==> !Contains(s, JoinBare)
  {
    JoinPassLeavesNoBareJoin(s);
  }

  /** A text without a `J` holds no `JOIN #`. */
  lemma NoJoinWithoutJ(s: string)
    requires 'J' !in s
    ensures forall k :: !OccursAt(s, JoinBare, k)
  {
    forall k
      ensures !OccursAt(s, JoinBare, k)
    {
      if 0 <= k < |s| {
        assert s[k] in s;
        MismatchAt(s, JoinBare, k, 0);
      }
    }
  }

  /** A block that starts with `JOIN #` and holds no other `J` gains exactly one colon. */
  lemma JoinPassHead(rest: string)
    requires 'J' !in rest
    ensures JoinPass(JoinBare + rest) == JoinColon + rest
  {
    var s := JoinBare + rest;
    assert s[..|JoinBare|] == JoinBare;
    assert s[|JoinBare|..] == rest;
    FindHere(s, JoinBare, 0);
    var k := ReplaceFirst(s, JoinBare, JoinColon);
    NoJoinWithoutJ(rest);
  }

  /** A JOIN reply from the server gains its colon: `JOIN #general` becomes
      `JOIN :#general`, and the rest of the line is copied. */
  lemma JoinPassExample()
    ensures JoinPass("JOIN #general\r\n") == "JOIN :#general\r\n"
  {
    var rest := "general\r\n";
    assert 'J' !in rest;
    JoinPassHead(rest);
    assert JoinBare + rest == "JOIN #general\r\n";
    assert JoinColon + rest == "JOIN :#general\r\n";
  }

  /** The JOIN pass keeps a block's final line terminator. */
  lemma {:induction false} JoinPassKeepsTerminator(s: string)
    requires Terminated(s)
    ensures Terminated(JoinPass(s))
    decreases |s|
  {
    if |s| < |JoinBare| {
    } else if s[..|JoinBare|] == JoinBare {
      var t := s[|JoinBare|..];
      assert s[4] == ' ' && s[5] == '#';
      assert s[|s| - 2] == '\r' && s[|s| - 1] == '\n';
      assert |s| >= 8;
      assert t[|t| - 2..] == s[|s| - 2..];
      JoinPassKeepsTerminator(t);
      TerminatedAfterColon(s, t);
    } else {
      var t := s[1..];
      assert t[|t| - 2..] == s[|s| - 2..];
      JoinPassKeepsTerminator(t);
      TerminatedAfterCopy(s, t);
    }
  }

  /** The step of `JoinPassKeepsTerminator` where an occurrence starts the text. */
  lemma TerminatedAfterColon(s: string, t: string)
    requires |JoinBare| <= |s| && s[..|JoinBare|] == JoinBare && t == s[|JoinBare|..]
    requires t != [] && Terminated(JoinPass(t))
    ensures Terminated(JoinPass(s))
  {
    var r := JoinPass(t);
    assert JoinPass(s) == JoinColon + r;
    assert (JoinColon + r)[|JoinColon + r| - 2..] == r[|r| - 2..];
  }

  /** The step of `JoinPassKeepsTerminator` where the first character is copied. */
  lemma TerminatedAfterCopy(s: string, t: string)
    requires |JoinBare| <= |s| && s[..|JoinBare|] != JoinBare && t == s[1..]
    requires t != [] && Terminated(JoinPass(t))
    ensures Terminated(JoinPass(s))
  {
    var r := JoinPass(t);
    assert JoinPass(s) == [s[0]] + r;
    assert ([s[0]] + r)[|r| + 1 - 2..] == r[|r| - 2..];
  }

  // ---------------------------------------------------------------------------------------
  // Pass 2, lines 96-102: the RPL_NAMREPLY (353) rewrite (section 5.1 of RFC 2812).

  /** The full key at `idx` contains the marker ` @ #` after the numeric and the name. */
  lemma MarkerInsideKey(s: string, usr: string, idx: nat)
    requires OccursAt(s, NamesKey(usr), idx)
    ensures OccursAt(s, AtHash, idx + 3 + |usr|)
  {
    var n := idx + 3 + |usr|;
    assert s[n..n + 4] == s[idx..idx + |NamesKey(usr)|][3 + |usr|..];
  }

  /** The rebuilt text of line 101 has one `@` fewer than the block it came from. */
  lemma RebuildDropsAtSign(pre: string, lead: string, word: string, gap: string, rest: string)
    ensures AtSigns(pre + " = #" + word + " :" + rest)
      < AtSigns(pre + " @" + lead + word + gap + rest)
  {
    AtSignsConcat(pre, " = #");
    AtSignsConcat(pre + " = #", word);
    AtSignsConcat(pre + " = #" + word, " :");
    AtSignsConcat(pre + " = #" + word + " :", rest);
    AtSignsConcat(pre, " @");
    AtSignsConcat(pre + " @", lead);
    AtSignsConcat(pre + " @" + lead, word);
    AtSignsConcat(pre + " @" + lead + word, gap);
    AtSignsConcat(pre + " @" + lead + word + gap, rest);
    assert AtSigns(" = #") == 0 && AtSigns(" :") == 0 && AtSigns(" @") == 1 by {
      assert " = #"[1..] == "= #" && "= #"[1..] == " #" && " #"[1..] == "#" && "#"[1..] == [];
      assert " :"[1..] == ":" && ":"[1..] == [];
      assert " @"[1..] == "@" && "@"[1..] == [];
    }
  }

  /** A non-empty suffix of a terminated block that starts with a non-space is terminated. */
  lemma WordSuffixKeepsTerminator(s: string, rest: string)
    requires EndsCrlf(s) && rest != [] && !IsSpace(rest[0])
    requires |rest| <= |s| && s[|s| - |rest|..] == rest
    ensures EndsCrlf(rest)
  {
    assert s[|s| - 1] == '\n';
    assert |rest| >= 2;
    assert rest[|rest| - 2..] == s[|s| - 2..];
  }

  /** Cutting a text into consecutive slices and gluing them back gives the text. */
  lemma Reassemble(s: string, i: nat, u: string, j: nat, m: nat)
    requires i + 2 <= |s| && u == s[i + 2..] && 1 <= j <= m <= |u|
    ensures s == s[..i] + (s[i..i + 2] + u[..1]) + u[1..j] + u[j..m] + u[m..]
  {
    assert s == s[..i] + s[i..i + 2] + u;
    assert u == u[..1] + u[1..j] + u[j..m] + u[m..];
  }

  /** The block around a ` @ #` at `i`, cut where line 101 cuts it. */
  lemma RebuildParts(s: string, i: nat, li: seq<string>) returns (gap: string)
    requires OccursAt(s, AtHash, i)
    requires li == Split1(s[i + 2..]) && |li| == 2
    ensures s == s[..i] + " @ " + li[0] + gap + li[1]
    ensures li[1] != [] && !IsSpace(li[1][0])
  {
    var u := s[i + 2..];
    assert s[i..i + 4] == AtHash;
    assert s[i..i + 2] == s[i..i + 4][..2] == " @";
    assert u[0] == s[i + 2] == ' ' && u[1] == s[i + 3] == '#';
    assert s[i..i + 2] + u[..1] == " @ ";
    var j, m := SplitAfterMarker(u);
    Reassemble(s, i, u, j, m);
    gap := u[j..m];
  }

  /** The rebuilt text of line 101 has fewer `@` than `s` and keeps its terminator. */
  lemma RebuildFacts(s: string, i: nat, li: seq<string>)
    requires OccursAt(s, AtHash, i)
    requires li == Split1(s[i + 2..]) && |li| == 2
    ensures var t := s[..i] + " = #" + li[0] + " :" + li[1];
      AtSigns(t) < AtSigns(s) && (Terminated(s) ==> Terminated(t))
  {
    var gap := RebuildParts(s, i, li);
    RebuildFewerAts(s[..i], li[0], gap, li[1]);
    if Terminated(s) {
      RebuildTerminated(s, i, li, gap);
    }
  }

  /** Line 101 trades the `@` of the marker for `=`. */
  lemma RebuildFewerAts(pre: string, word: string, gap: string, rest: string)
    ensures AtSigns(pre + " = #" + word + " :" + rest) < AtSigns(pre + " @ " + word + gap + rest)
  {
    assert pre + " @ " + word + gap + rest == pre + " @" + " " + word + gap + rest;
    RebuildDropsAtSign(pre, " ", word, gap, rest);
  }

  /** Line 101 keeps the block's terminator: the rest it copies ends the block. */
  lemma RebuildTerminated(s: string, i: nat, li: seq<string>, gap: string)
    requires |li| == 2 && i <= |s| && s == s[..i] + " @ " + li[0] + gap + li[1]
    requires li[1] != [] && !IsSpace(li[1][0]) && Terminated(s)
    ensures Terminated(s[..i] + " = #" + li[0] + " :" + li[1])
  {
    assert s[|s| - |li[1]|..] == li[1];
    WordSuffixKeepsTerminator(s, li[1]);
    EndsCrlfAppend(s[..i] + " = #" + li[0] + " :", li[1]);
  }

  /** Line 101 for the marker ` @ #` at `i`: the channel word and the rest of the block
      after it, as `split(None, 1)` cuts them; `li[1]` raises `IndexError` when there is
      no rest. */
  function NamesRebuild(s: string, i: nat): (r: Outcome<string>)
    requires OccursAt(s, AtHash, i)
  {
    var li := Split1(s[i + 2..]);
    if |li| < 2 then IndexError
    else Done(s[..i] + " = #" + li[0] + " :" + li[1])
  }

  /** Lines 98-101: one names rewrite, for a match of `NamesKey(usr)` at `idx`. */
  function NamesStep(s: string, usr: string, idx: nat): (r: Outcome<string>)
    requires OccursAt(s, NamesKey(usr), idx)
    ensures r.Done? ==> AtSigns(r.value) < AtSigns(s)
    ensures r.Done? && Terminated(s) ==> Terminated(r.value)
  {
    MarkerInsideKey(s, usr, idx);
    var i := Find(s, AtHash, idx);
    NamesRebuildFacts(s, i);
    NamesRebuild(s, i)
  }

  /** A rebuilt block has fewer `@` than the block it came from and keeps its terminator. */
  lemma NamesRebuildFacts(s: string, i: nat)
    requires OccursAt(s, AtHash, i)
    ensures NamesRebuild(s, i).Done? ==> AtSigns(NamesRebuild(s, i).value) < AtSigns(s)
    ensures NamesRebuild(s, i).Done? && Terminated(s) ==> Terminated(NamesRebuild(s, i).value)
  {
    var li := Split1(s[i + 2..]);
    if |li| == 2 {
      RebuildFacts(s, i, li);
    }
  }

  /** `NamesStep` rebuilds the block around the first marker at or after the match. */
  lemma NamesStepIsRebuild(s: string, usr: string, idx: nat)
    requires OccursAt(s, NamesKey(usr), idx)
    ensures 0 <= Find(s, AtHash, idx) && OccursAt(s, AtHash, Find(s, AtHash, idx))
    ensures NamesStep(s, usr, idx) == NamesRebuild(s, Find(s, AtHash, idx))
  {
    MarkerInsideKey(s, usr, idx);
  }

  /** `NamesRebuild` spelled out the way the loop of lines 96-102 computes it. */
  lemma NamesRebuildUnfold(s: string, i: nat, li: seq<string>)
    requires OccursAt(s, AtHash, i) && li == Split1(s[i + 2..])
    ensures NamesRebuild(s, i)
      == if |li| < 2 then IndexError else Done(s[..i] + " = #" + li[0] + " :" + li[1])
  {
  }

  /** `split(None, 1)` of a text that starts with ` #` and has nothing after its first
      word but whitespace. */
  lemma SplitAfterMarkerOnePart(u: string) returns (j: nat)
    requires |u| >= 2 && u[0] == ' ' && u[1] == '#' && |Split1(u)| == 1
    ensures 2 <= j <= |u| && Split1(u)[0] == u[1..j]
    ensures IsWord(u[1..j]) && (j < |u| ==> IsSpace(u[j])) && AllSpace(u[j..])
  {
    var li := Split1(u);
    Split1Parts(u);
    var lead, trail :| u == lead + li[0] + trail && AllSpace(lead) && IsWord(li[0])
      && AllSpace(trail);
    assert |lead| == 1;
    j := 1 + |li[0]|;
    assert u[1..j] == li[0];
    assert u[j..] == trail;
  }

  /** `split(None, 1)` of a text that starts with ` #` and goes on after the whitespace that
      follows its first word. */
  lemma SplitAfterMarkerTwoParts(u: string) returns (j: nat, m: nat)
    requires |u| >= 2 && u[0] == ' ' && u[1] == '#' && |Split1(u)| == 2
    ensures 2 <= j < m < |u| && Split1(u)[0] == u[1..j] && Split1(u)[1] == u[m..]
    ensures IsWord(u[1..j]) && AllSpace(u[j..m]) && IsSpace(u[j]) && !IsSpace(u[m])
  {
    var li := Split1(u);
    Split1Parts(u);
    var lead, gap :| u == lead + li[0] + gap + li[1] && AllSpace(lead) && IsWord(li[0])
      && gap != [] && AllSpace(gap) && li[1] != [] && !IsSpace(li[1][0]);
    assert |lead| == 1;
    j := 1 + |li[0]|;
    m := j + |gap|;
    assert u[1..j] == li[0];
    assert u[j..m] == gap;
    assert u[m..] == li[1];
  }

  /** `split(None, 1)` of a text that starts with ` #`, stated on positions: the first part
      is the word `u[1..j]`, the second (when there is one) is `u[m..]`. */
  lemma SplitAfterMarker(u: string) returns (j: nat, m: nat)
    requires |u| >= 2 && u[0] == ' ' && u[1] == '#'
    ensures 2 <= j <= m <= |u|
    ensures IsWord(u[1..j]) && (j < |u| ==> IsSpace(u[j]))
    ensures AllSpace(u[j..m]) && (m < |u| ==> !IsSpace(u[m]))
    ensures |Split1(u)| >= 1 && Split1(u)[0] == u[1..j]
    ensures |Split1(u)| == 2 <==> m < |u|
    ensures |Split1(u)| == 2 ==> Split1(u)[1] == u[m..]
  {
    var li := Split1(u);
    assert |li| != 0;
    if |li| == 1 {
      j := SplitAfterMarkerOnePart(u);
      m := |u|;
    } else {
      j, m := SplitAfterMarkerTwoParts(u);
    }
  }

  /** What one names rewrite does, stated on positions of the original block: `i` is the
      first ` @ #` at or after the match, `s[i + 3..j]` the channel word (which starts with
      the `#` of the marker, so the rebuilt text reads ` = ##`), and `s[m..]` everything
      after the whitespace that follows it. The text before `i` is kept; an `IndexError`
      is raised exactly when nothing but whitespace follows the channel word. */
  lemma NamesStepRewrites(s: string, usr: string, idx: nat) returns (i: nat, j: nat, m: nat)
    requires OccursAt(s, NamesKey(usr), idx)
    ensures idx <= i <= idx + 3 + |usr| && OccursAt(s, AtHash, i)
    ensures forall k :: idx <= k < i ==> !OccursAt(s, AtHash, k)
    ensures i + 4 <= j <= m <= |s| && s[i + 3] == '#'
    ensures IsWord(s[i + 3..j]) && (j < |s| ==> IsSpace(s[j]))
    ensures AllSpace(s[j..m]) && (m < |s| ==> !IsSpace(s[m]))
    ensures |Split1(s[i + 2..])| == 2 <==> m < |s|
    ensures m < |s| ==> Split1(s[i + 2..]) == [s[i + 3..j], s[m..]]
    ensures NamesStep(s, usr, idx)
      == if m < |s| then Done(s[..i] + " = #" + s[i + 3..j] + " :" + s[m..]) else IndexError
    ensures NamesStep(s, usr, idx).Done? ==> NamesStep(s, usr, idx).value[i..i + 5] == " = ##"
  {
    MarkerInsideKey(s, usr, idx);
    i := Find(s, AtHash, idx);
    j, m := MarkerSplitPositions(s, i);
    assert NamesStep(s, usr, idx) == NamesRebuild(s, i);
    NamesRebuildAt(s, i, j, m);
  }

  /** `NamesRebuild` stated on the positions `MarkerSplitPositions` gives. */
  lemma NamesRebuildAt(s: string, i: nat, j: nat, m: nat)
    requires OccursAt(s, AtHash, i) && i + 4 <= j <= m <= |s| && s[i + 3] == '#'
    requires |Split1(s[i + 2..])| >= 1 && Split1(s[i + 2..])[0] == s[i + 3..j]
    requires |Split1(s[i + 2..])| == 2 <==> m < |s|
    requires |Split1(s[i + 2..])| == 2 ==> Split1(s[i + 2..])[1] == s[m..]
    ensures NamesRebuild(s, i)
      == if m < |s| then Done(s[..i] + " = #" + s[i + 3..j] + " :" + s[m..]) else IndexError
    ensures NamesRebuild(s, i).Done? ==> NamesRebuild(s, i).value[i..i + 5] == " = ##"
  {
    if m < |s| {
      assert s[i + 3..j][0] == '#';
      DoubleHash(s[..i], s[i + 3..j], s[m..]);
    }
  }

  /** The positions of `SplitAfterMarker`, translated from the text after ` @` at `i` back
      to the block itself. */
  lemma MarkerSplitPositions(s: string, i: nat) returns (j: nat, m: nat)
    requires OccursAt(s, AtHash, i)
    ensures i + 4 <= j <= m <= |s| && s[i + 3] == '#'
    ensures IsWord(s[i + 3..j]) && (j < |s| ==> IsSpace(s[j]))
    ensures AllSpace(s[j..m]) && (m < |s| ==> !IsSpace(s[m]))
    ensures |Split1(s[i + 2..])| >= 1 && Split1(s[i + 2..])[0] == s[i + 3..j]
    ensures |Split1(s[i + 2..])| == 2 <==> m < |s|
    ensures |Split1(s[i + 2..])| == 2 ==> Split1(s[i + 2..])[1] == s[m..]
  {
    var u := s[i + 2..];
    assert s[i..i + 4] == AtHash;
    assert s[i + 2] == s[i..i + 4][2] && s[i + 3] == s[i..i + 4][3];
    var ju, mu := SplitAfterMarker(u);
    j, m := i + 2 + ju, i + 2 + mu;
    assert s[i + 3..j] == u[1..ju];
    assert s[j..m] == u[ju..mu];
    assert s[m..] == u[mu..];
  }

  /** The rebuilt text puts the channel word, which starts with `#`, right after ` = #`. */
  lemma DoubleHash(pre: string, word: string, rest: string)
    requires word != [] && word[0] == '#'
    ensures |pre| + 5 <= |pre + " = #" + word + " :" + rest|
    ensures (pre + " = #" + word + " :" + rest)[|pre|..|pre| + 5] == " = ##"
  {
    var r := pre + " = #" + word + " :" + rest;
    assert r[|pre| + 4] == word[0];
    assert r[|pre|..|pre| + 4] == " = #";
  }

  /** Lines 96-102 as a function: rewrite names replies until the key is gone or first
      found at index 0 (the loop runs only `while idx > 0`). */
  function NamesPass(s: string, usr: string): (r: Outcome<string>)
    ensures r.Done? ==> SettledAtZero(r.value, NamesKey(usr))
    ensures r.Done? && Terminated(s) ==> Terminated(r.value)
    decreases AtSigns(s)
  {
    var idx := Find(s, NamesKey(usr), 0);
    if idx <= 0 then Done(s)
    else
      match NamesStep(s, usr, idx)
      case IndexError => IndexError
      case Done(t) => NamesPass(t, usr)
  }

  /** One turn of the loop of lines 96-102 leaves the outcome of the whole pass as it was. */
  lemma NamesPassTurn(s: string, usr: string, t: Outcome<string>)
    requires Find(s, NamesKey(usr), 0) > 0
    requires t == NamesStep(s, usr, Find(s, NamesKey(usr), 0))
    ensures t.IndexError? ==> NamesPass(s, usr) == IndexError
    ensures t.Done? ==> NamesPass(s, usr) == NamesPass(t.value, usr)
  {
  }

  /** A key at index 0 stops the names pass at once, so a later names reply in the same
      block is delivered unrewritten. */
  lemma NamesPassStopsAtIndexZero(s: string, usr: string, k: nat)
    requires OccursAt(s, NamesKey(usr), 0) && OccursAt(s, NamesKey(usr), k)
    ensures NamesPass(s, usr) == Done(s) && OccursAt(NamesPass(s, usr).value, NamesKey(usr), k)
  {
  }

  /** A names reply whose channel word ends the block leaves `li` with one part, so line
      101 raises `IndexError`. */
  lemma NamesReplyEndingBlockRaises()
    ensures NamesPass("x353u @ #c\r\n", "u") == IndexError
  {
    var s := "x353u @ #c\r\n";
    EndingBlockKey();
    MarkerAtFive(s);
    SplitChannelAlone();
    assert s[7..] == " #c\r\n";
    NamesStepIsRebuild(s, "u", 1);
    NamesRebuildUnfold(s, 5, Split1(" #c\r\n"));
    NamesPassTurn(s, "u", NamesStep(s, "u", 1));
  }

  /** Line 96 finds the key of the previous example at 1. */
  lemma EndingBlockKey()
    ensures Find("x353u @ #c\r\n", NamesKey("u"), 0) == 1
  {
    var s := "x353u @ #c\r\n";
    MismatchAt(s, NamesKey("u"), 0, 0);
    FindSkip(s, NamesKey("u"), 0);
    assert OccursAt(s, NamesKey("u"), 1) by { KeyOfU(); assert s[1..9] == "353u @ #"; }
    FindHere(s, NamesKey("u"), 1);
  }

  /** `split(None, 1)` of the text after ` @` in the previous example: one part. */
  lemma SplitChannelAlone()
    ensures |Split1(" #c\r\n")| == 1
  {
    var u := " #c\r\n";
    assert SkipSpace(u, 0) == 1 by { assert IsSpace(u[0]) && !IsSpace(u[1]); }
    assert SkipWord(u, 1) == 3 by { assert !IsSpace(u[1]) && !IsSpace(u[2]) && IsSpace(u[3]); }
    assert SkipSpace(u, 3) == 5 by { assert IsSpace(u[3]) && IsSpace(u[4]); }
  }

  /** `split(None, 1)` of the text after ` @` in the next example. */
  lemma SplitChannelAndNames()
    ensures Split1(" #c :u\r\n") == ["#c", ":u\r\n"]
  {
    var u := " #c :u\r\n";
    assert SkipSpace(u, 0) == 1 by { assert IsSpace(u[0]) && !IsSpace(u[1]); }
    assert SkipWord(u, 1) == 3 by { assert !IsSpace(u[1]) && !IsSpace(u[2]) && IsSpace(u[3]); }
    assert SkipSpace(u, 3) == 4 by { assert IsSpace(u[3]) && !IsSpace(u[4]); }
    assert u[1..3] == "#c" && u[4..] == ":u\r\n";
  }

  /** A names reply followed by names is rewritten to ` = ##` and ` ::`. */
  lemma NamesReplyRewritten()
    ensures NamesStep("x353u @ #c :u\r\n", "u", 1) == Done("x353u = ##c ::u\r\n")
  {
    var s := "x353u @ #c :u\r\n";
    ExampleText();
    ExampleMarker();
    SplitChannelAndNames();
    NamesStepIsRebuild(s, "u", 1);
    NamesRebuildUnfold(s, 5, ["#c", ":u\r\n"]);
  }

  /** The pieces of the example that line 101 glues together. */
  lemma ExampleText()
    ensures var s := "x353u @ #c :u\r\n";
      && s[..5] + " = #" + "#c" + " :" + ":u\r\n" == "x353u = ##c ::u\r\n"
      && s[7..] == " #c :u\r\n"
  {
  }

  /** The names key for the user `u`. */
  lemma KeyOfU()
    ensures NamesKey("u") == "353u @ #"
  {
  }

  /** In both examples the marker search of line 98, started at the key, stops at 5. */
  lemma MarkerAtFive(s: string)
    requires |s| >= 9 && s[1] == '3' && s[2] == '5' && s[3] == '3' && s[4] == 'u'
    requires s[5..9] == " @ #"
    ensures Find(s, AtHash, 1) == 5
  {
    assert AtHash[0] == ' ';
    MismatchAt(s, AtHash, 1, 0);
    FindSkip(s, AtHash, 1);
    MismatchAt(s, AtHash, 2, 0);
    FindSkip(s, AtHash, 2);
    MismatchAt(s, AtHash, 3, 0);
    FindSkip(s, AtHash, 3);
    MismatchAt(s, AtHash, 4, 0);
    FindSkip(s, AtHash, 4);
    assert OccursAt(s, AtHash, 5);
    FindHere(s, AtHash, 5);
  }

  /** Where lines 96 and 98 find the key and the marker in the example. */
  lemma ExampleMarker()
    ensures var s := "x353u @ #c :u\r\n";
      OccursAt(s, NamesKey("u"), 1) && Find(s, AtHash, 1) == 5
  {
    var s := "x353u @ #c :u\r\n";
    assert OccursAt(s, NamesKey("u"), 1) by { KeyOfU(); assert s[1..9] == "353u @ #"; }
    MarkerAtFive(s);
  }

  /** The key has no space after `353`, so a reply written `353 u @ #c` is left alone. */
  lemma SpacedNamesReplyKept()
    ensures NamesPass("x353 u @ #c :u\r\n", "u") == Done("x353 u @ #c :u\r\n")
  {
    var s := "x353 u @ #c :u\r\n";
    var key := NamesKey("u");
    assert key == "353u @ #";
    forall k | 0 <= k
      ensures !OccursAt(s, key, k)
    {
      if k + 3 < |s| {
        if s[k] == '3' {
          MismatchAt(s, key, k, 3);
        } else {
          MismatchAt(s, key, k, 0);
        }
      }
    }
    assert Find(s, key, 0) == -1;
  }

  // ---------------------------------------------------------------------------------------
  // Pass 3, lines 105-114: drop the ERR_NOSUCHCHANNEL answer to the client's ISIRCX probe
  // (section 5.2 of RFC 2812).

  /** The CR LFs around a match: the first at or after it, which the terminator
      guarantees, and the last one lying wholly before it, if any. */
  lemma LineBounds(s: string, idx: nat, en: int, st: int)
    requires Terminated(s) && OccursAt(s, IsircxKey, idx)
    requires en == Find(s, Crlf, idx) && st == RFind(s, Crlf, 0, idx)
    ensures idx <= en && en + 2 <= |s| && OccursAt(s, Crlf, en)
    ensures st == -1 || st + 2 <= idx
  {
    assert OccursAt(s, Crlf, |s| - 2);
  }

  /** Lines 108-113: cut the line holding the match at `idx` out of the block. */
  function IsircxStep(s: string, idx: nat): (r: string)
    requires Terminated(s) && OccursAt(s, IsircxKey, idx)
    ensures |r| < |s| && Terminated(r)
  {
    var en := Find(s, Crlf, idx);
    var st := RFind(s, Crlf, 0, idx);
    LineBounds(s, idx, en, st);
    CutKeepsTerminator(s, st, en);
    LineCut(s, st, en)
  }

  /** The text of lines 110-113: everything after the CR LF at `en`, after what precedes
      the CR LF at `st` when there is one. */
  function LineCut(s: string, st: int, en: nat): string
    requires en + 2 <= |s| && (st < 0 || st + 2 <= en)
  {
    if st < 0 then s[en + 2..] else s[..st + 2] + s[en + 2..]
  }

  /** Cutting out the span after one CR LF through another keeps a block terminated. */
  lemma CutKeepsTerminator(s: string, st: int, en: nat)
    requires Terminated(s) && en + 2 <= |s| && OccursAt(s, Crlf, en)
    requires st == -1 || (0 <= st && st + 2 <= en && OccursAt(s, Crlf, st))
    ensures st < 0 ==> Terminated(s[en + 2..])
    ensures st >= 0 ==> Terminated(s[..st + 2] + s[en + 2..])
    ensures Terminated(LineCut(s, st, en))
  {
    var tail := s[en + 2..];
    EndsCrlfChars(s);
    assert s[en + 1] == s[en..en + 2][1] == '\n';
    if tail != [] {
      assert en + 1 != |s| - 2 by {
        assert s[en + 1] != s[|s| - 2];
      }
      EndsCrlfChars(tail);
      assert tail[|tail| - 2] == s[|s| - 2] && tail[|tail| - 1] == s[|s| - 1];
    }
    if st >= 0 {
      var head := s[..st + 2];
      assert EndsCrlf(head) by {
        assert head[st..] == s[st..st + 2];
      }
      if tail == [] {
        assert head + tail == head;
      } else {
        EndsCrlfAppend(head, tail);
      }
    }
  }


  /** `IsircxStep` spelled out the way the loop of lines 105-114 computes it. */
  lemma IsircxStepUnfold(s: string, idx: nat, en: int, st: int)
    requires Terminated(s) && OccursAt(s, IsircxKey, idx)
    requires en == Find(s, Crlf, idx) && st == RFind(s, Crlf, 0, idx)
    ensures idx <= en && en + 2 <= |s| && (st < 0 || st + 2 <= idx)
    ensures IsircxStep(s, idx) == LineCut(s, st, en)
  {
    LineBounds(s, idx, en, st);
  }

  /** One turn of the loop of lines 105-114 leaves the outcome of the whole pass as it was. */
  lemma IsircxPassTurn(s: string, idx: nat)
    requires Terminated(s) && idx == Find(s, IsircxKey, 0) && idx > 0
    ensures IsircxPass(s) == IsircxPass(IsircxStep(s, idx))
  {
  }

  /** One removal cuts out exactly one line: it runs from just after `st`, the last CR LF
      lying wholly before `idx` (or from 0 if there is none), through `en`, the first CR LF
      at or after `idx`; everything outside it is kept. */
  lemma IsircxStepRemovesLine(s: string, idx: nat) returns (st: int, en: nat)
    requires Terminated(s) && OccursAt(s, IsircxKey, idx)
    ensures st == -1 || (st + 2 <= idx && OccursAt(s, Crlf, st))
    ensures forall k :: st < k && k + 2 <= idx ==> !OccursAt(s, Crlf, k)
    ensures idx <= en && en + 2 <= |s| && OccursAt(s, Crlf, en)
    ensures forall k :: idx <= k < en ==> !OccursAt(s, Crlf, k)
    ensures IsircxStep(s, idx) == s[..if st < 0 then 0 else st + 2] + s[en + 2..]
  {
    var e := Find(s, Crlf, idx);
    st := RFind(s, Crlf, 0, idx);
    LineBounds(s, idx, e, st);
    en := e;
    IsircxStepUnfold(s, idx, en, st);
    LineCutSpan(s, st, en);
  }

  /** `LineCut` keeps what lies before the cut and what lies after it. */
  lemma LineCutSpan(s: string, st: int, en: nat)
    requires en + 2 <= |s| && (st < 0 || st + 2 <= en)
    ensures LineCut(s, st, en) == s[..if st < 0 then 0 else st + 2] + s[en + 2..]
  {
    if st < 0 {
      assert s[..0] == [];
    }
  }

  /** Lines 105-114 as a function: remove ISIRCX error lines until none is left, or the
      first one sits at index 0. */
  function IsircxPass(s: string): (r: string)
    requires Terminated(s)
    ensures Terminated(r)
    ensures SettledAtZero(r, IsircxKey)
    decreases |s|
  {
    var idx := Find(s, IsircxKey, 0);
    if idx <= 0 then s else IsircxPass(IsircxStep(s, idx))
  }

  // ---------------------------------------------------------------------------------------
  // The whole of `sanitizeMscc`.

  /** The three passes in their order; the result is again a terminated block. */
  function Sanitize(s: string, usr: string): (r: Outcome<string>)
    requires Terminated(s)
    ensures r.Done? ==> Terminated(r.value) && SettledAtZero(r.value, IsircxKey)
  {
    JoinPassKeepsTerminator(s);
    match NamesPass(JoinPass(s), usr)
    case IndexError => IndexError
    case Done(t) => Done(IsircxPass(t))
  }

  /** `sanitizeMscc(str_in, str_usr)` as the source runs it: the replacement of line 81,
      then the two loops, each reassigning `strSan` and `idx`. The caller always hands it
      a terminated block (line 76). */
  method SanitizeMscc(strIn: string, strUsr: string) returns (r: Outcome<string>)
    requires Terminated(strIn)
    ensures r == Sanitize(strIn, strUsr)
  {
    JoinPassKeepsTerminator(strIn);
    var strSan := Replace(strIn, JoinBare, JoinColon);
    r := NamesLoop(strSan, strUsr);
    if r.Done? {
      strSan := IsircxLoop(r.value);
      r := Done(strSan);
    }
  }

  /** The loop of lines 96-102. */
  method NamesLoop(strIn: string, strUsr: string) returns (r: Outcome<string>)
    ensures r == NamesPass(strIn, strUsr)
  {
    var strSan := strIn;
    var idx := Find(strSan, NamesKey(strUsr), 0);
    while idx > 0
      invariant idx == Find(strSan, NamesKey(strUsr), 0)
      invariant NamesPass(strSan, strUsr) == NamesPass(strIn, strUsr)
      decreases AtSigns(strSan)
    {
      ghost var at := idx;
      NamesStepIsRebuild(strSan, strUsr, idx);
      idx := Find(strSan, AtHash, idx);
      var strEnd := strSan[idx + 2..];
      var li := Split1(strEnd);
      NamesTurn(strSan, strUsr, at, idx, li);
      if |li| < 2 {
        return IndexError;
      }
      strSan := strSan[..idx] + " = #" + li[0] + " :" + li[1];
      idx := Find(strSan, NamesKey(strUsr), 0);
    }
    r := Done(strSan);
  }

  /** One turn of the loop of lines 96-102 in the loop's own terms: `i` is the marker
      found after the match at `at`, and `li` the split of what follows it. */
  lemma NamesTurn(s: string, usr: string, at: nat, i: nat, li: seq<string>)
    requires at == Find(s, NamesKey(usr), 0) && at > 0
    requires i == Find(s, AtHash, at) && OccursAt(s, AtHash, i)
    requires li == Split1(s[i + 2..])
    ensures |li| < 2 ==> NamesPass(s, usr) == IndexError
    ensures |li| >= 2 ==>
      && AtSigns(s[..i] + " = #" + li[0] + " :" + li[1]) < AtSigns(s)
      && NamesPass(s, usr) == NamesPass(s[..i] + " = #" + li[0] + " :" + li[1], usr)
  {
    NamesStepIsRebuild(s, usr, at);
    NamesRebuildUnfold(s, i, li);
    NamesPassTurn(s, usr, NamesStep(s, usr, at));
  }

  /** The loop of lines 105-114. */
  method IsircxLoop(strIn: string) returns (r: string)
    requires Terminated(strIn)
    ensures r == IsircxPass(strIn)
  {
    var strSan := strIn;
    var idx := Find(strSan, IsircxKey, 0);
    while idx > 0
      invariant Terminated(strSan)
      invariant idx == Find(strSan, IsircxKey, 0)
      invariant IsircxPass(strSan) == IsircxPass(strIn)
      decreases |strSan|
    {
      var en := Find(strSan, Crlf, idx);
      var st := RFind(strSan, Crlf, 0, idx);
      IsircxTurn(strSan, idx, en, st);
      if st < 0 {
        strSan := strSan[en + 2..];
      } else {
        strSan := strSan[..st + 2] + strSan[en + 2..];
      }
      idx := Find(strSan, IsircxKey, 0);
    }
    r := strSan;
  }

  /** One turn of the loop of lines 105-114 in the loop's own terms. */
  lemma IsircxTurn(s: string, idx: nat, en: int, st: int)
    requires Terminated(s) && idx == Find(s, IsircxKey, 0) && idx > 0
    requires en == Find(s, Crlf, idx) && st == RFind(s, Crlf, 0, idx)
    ensures 0 <= en && en + 2 <= |s| && st + 2 <= idx
    ensures IsircxStep(s, idx) == if st < 0 then s[en + 2..] else s[..st + 2] + s[en + 2..]
    ensures IsircxPass(IsircxStep(s, idx)) == IsircxPass(s)
  {
    IsircxStepUnfold(s, idx, en, st);
    IsircxPassTurn(s, idx);
    assert LineCut(s, st, en) == if st < 0 then s[en + 2..] else s[..st + 2] + s[en + 2..];
  }
}
