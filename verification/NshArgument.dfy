/** nsh_argument: the words of a command, cut out of the line buffer in place. */
module NshArgument {
  import opened CStrings
  import opened NshText

  lemma {:induction false} SkipStep(s: string)
    requires s != ""
    ensures SkipSeparators(s) == if Separator(s[0]) then SkipSeparators(s[1..]) else s
  {
  }

  lemma {:induction false} WordEndStep(s: string, quoted: bool, backquoted: bool)
    requires s != ""
    ensures WordEnd(s, quoted, backquoted) ==
      if s[0] == '`' then 1 + WordEnd(s[1..], quoted, !backquoted)
      else if !backquoted && Terminator(quoted, s[0]) then 0
      else 1 + WordEnd(s[1..], quoted, backquoted)
  {
  }

  /** Finds the beginning of the next word. */
  method FindBegin(buf: array<char>, saveptr: nat, ghost s: string) returns (pbegin: nat)
    requires IsStr(buf[..], saveptr, s)
    ensures pbegin == saveptr + |s| - |SkipSeparators(s)|
  {
    pbegin := saveptr;
    ghost var n := 0;
    assert s[0..] == s;
    hide SkipSeparators;
    while buf[pbegin] != NUL && Separator(buf[pbegin])
      invariant 0 <= n <= |s| && pbegin == saveptr + n
      invariant SkipSeparators(s) == SkipSeparators(s[n..])
      decreases |s| - n
    {
      SkipStep(s[n..]);
      assert s[n..][1..] == s[n + 1..];
      n, pbegin := n + 1, pbegin + 1;
    }
    SkipEnd(s[n..]);
  }

  lemma {:induction false} SkipIsTail(s: string)
    ensures SkipSeparators(s) == s[|s| - |SkipSeparators(s)|..]
  {
    if s != "" && Separator(s[0]) { SkipIsTail(s[1..]); }
  }

  lemma SkipEnd(s: string)
    requires s == "" || !Separator(s[0])
    ensures SkipSeparators(s) == s
  {
  }

  /** Finds the end of the word that starts at `pbegin`. */
  method FindEnd(buf: array<char>, pbegin: nat, quoted: bool, ghost s: string) returns (pend: nat)
    requires IsStr(buf[..], pbegin, s)
    ensures pend == pbegin + WordEnd(s, quoted, false)
  {
    var backquote := false;
    pend := pbegin;
    ghost var n := 0;
    assert s[0..] == s;
    hide WordEnd;
    while buf[pend] != NUL
      invariant 0 <= n <= |s| && pend == pbegin + n
      invariant WordEnd(s, quoted, false) == n + WordEnd(s[n..], quoted, backquote)
      decreases |s| - n
    {
      WordEndStep(s[n..], quoted, backquote);
      assert s[n..][1..] == s[n + 1..];
      if buf[pend] == '`' {
        backquote := !backquote;
      } else if !backquote && Terminator(quoted, buf[pend]) {
        return;
      }
      n, pend := n + 1, pend + 1;
    }
  }

  /** The word that starts at `pbegin`, with a NUL written over its terminator. */
  method CutWord(buf: array<char>, pbegin: nat, quoted: bool, ghost s: string)
    returns (word: string, next: nat, ghost rest: string)
    requires IsStr(buf[..], pbegin, s)
    modifies buf
    ensures word == Word(s, quoted).word && rest == Word(s, quoted).rest
    ensures IsStr(buf[..], pbegin, word)
    ensures IsStr(buf[..], next, rest) && pbegin <= next && next + |rest| == pbegin + |s|
    ensures forall i :: 0 <= i < buf.Length && !(pbegin <= i < pbegin + |s|) ==> buf[i] == old(buf[i])
  {
    hide WordEnd;
    var pend := FindEnd(buf, pbegin, quoted, s);
    ghost var n := pend - pbegin;
    word := buf[pbegin..pend];
    assert word == s[..n];
    assert n < |s| ==> buf[pend] == s[n];
    if buf[pend] != NUL {
      StrCut(buf[..], pbegin, s, n);
      buf[pend] := NUL;
      next, rest := pend + 1, s[n + 1..];
    } else {
      next, rest := pend, "";
      assert s[..n] == s;
    }
  }

  /** The next word, which the buffer then holds as a string of its own, and the
      position to go on from.  Nothing outside the string is touched. */
  method Argument(buf: array<char>, saveptr: nat, ghost s: string)
    returns (word: Option<string>, next: nat, ghost rest: string)
    requires IsStr(buf[..], saveptr, s)
    modifies buf
    ensures IsStr(buf[..], next, rest) && saveptr <= next && next + |rest| == saveptr + |s|
    ensures match NextToken(s)
      case NoToken => word == None && NextToken(rest) == NoToken
      case Token(w, r) => word == Some(w) && rest == r
    ensures forall i :: 0 <= i < buf.Length && !(saveptr <= i < saveptr + |s|) ==> buf[i] == old(buf[i])
  {
    var pbegin := FindBegin(buf, saveptr, s);
    ghost var s1 := SkipSeparators(s);
    SkipIsTail(s);
    StrTail(buf[..], saveptr, s, |s| - |s1|);
    SkipEnd(s1);
    hide SkipSeparators, Word;
    if buf[pbegin] == NUL {
      return None, saveptr, s;
    }
    StrTail(buf[..], pbegin, s1, 1);
    if buf[pbegin] == '>' {
      if buf[pbegin + 1] == '>' {
        StrTail(buf[..], pbegin, s1, 2);
        return Some(">>"), pbegin + 2, s1[2..];
      } else {
        return Some(">"), pbegin + 1, s1[1..];
      }
    } else if buf[pbegin] == '#' {
      return None, pbegin, s1;
    } else {
      var w;
      if buf[pbegin] == '"' {
        w, next, rest := CutWord(buf, pbegin + 1, true, s1[1..]);
      } else {
        w, next, rest := CutWord(buf, pbegin, false, s1);
      }
      word := Some(w);
    }
  }
}
