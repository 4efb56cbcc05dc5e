/** Matching a host name against a certificate name that may hold a wildcard, and choosing a certificate by it. */
module HostMatch {
  import opened Bytes

  /** strcasecmp's view of a character, in the C locale. */
  function Lower(c: char): char {
    if 'A' <= c <= 'Z' then (c as int + 32) as char else c
  }

  /** Equal but for the case of letters. */
  predicate EqualIgnoringCase(a: string, b: string) {
    |a| == |b| && forall i | 0 <= i < |a| :: Lower(a[i]) == Lower(b[i])
  }

  /** strchr: where c first occurs in s. */
  function Find(s: string, c: char): (r: Option<nat>)
    ensures r.Some? ==> r.value < |s| && s[r.value] == c && c !in s[..r.value]
    ensures r.None? ==> c !in s
  {
    if s == [] then None
    else if s[0] == c then Some(0)
    else
      match Find(s[1..], c)
      case None => None
      case Some(i) => assert s[..i + 1] == [s[0]] + s[1..][..i]; Some(i + 1)
  }

  /** The outcome of a match; Overrun marks the calls that make the source search past the end of the name. */
  datatype Outcome = Matches | Differs | Overrun

  /** Does the certificate name cover the subject? */
  function MatchName(subject: string, cert: string): Outcome {
    if EqualIgnoringCase(subject, cert) then Matches
    else
      var star := Find(cert, '*');
      if star.None? || '.' in cert[..star.value] then Differs
      else
        var prefixLen := star.value;
        var suffix := cert[prefixLen + 1..];
        if prefixLen > 0 && !(prefixLen <= |subject| && EqualIgnoringCase(subject[..prefixLen], cert[..prefixLen])) then
          Differs
        else if |suffix| <= |subject| then
          if !EqualIgnoringCase(suffix, subject[|subject| - |suffix|..]) then Differs
          else if |subject| < |suffix| + prefixLen then
            // the length of the search wraps around: it stops at a dot behind the prefix, or not inside the subject
            if '.' in subject[prefixLen..] then Differs else Overrun
          else if '.' in subject[prefixLen..|subject| - |suffix|] then Differs
          else Matches
        else Differs
  }

  /** A certificate name with a wildcard in its first label: the text before and after its first '*'. */
  ghost predicate IsWildcard(cert: string, prefix: string, suffix: string) {
    cert == prefix + "*" + suffix && '*' !in prefix && '.' !in prefix
  }

  /** The wildcard of a name is its first '*'. */
  lemma {:induction false} WildcardIsFirst(cert: string, prefix: string, suffix: string)
    requires cert == prefix + "*" + suffix && '*' !in prefix
    ensures Find(cert, '*') == Some(|prefix|)
    ensures cert[..|prefix|] == prefix && cert[|prefix| + 1..] == suffix
  {
    if prefix != [] {
      assert cert[1..] == prefix[1..] + "*" + suffix;
      WildcardIsFirst(cert[1..], prefix[1..], suffix);
    }
  }

  /** The subject is what the wildcard name becomes when '*' stands for w. */
  ghost predicate Covers(subject: string, prefix: string, w: string, suffix: string) {
    '.' !in w && EqualIgnoringCase(subject, prefix + w + suffix)
  }

  /**
   * Exactly which subjects a wildcard name matches, and exactly when the source overruns: when the subject
   * both starts and ends as the name does, is too short to hold both parts, and holds no dot.
   */
  lemma WildcardMatch(subject: string, cert: string, prefix: string, suffix: string)
    requires IsWildcard(cert, prefix, suffix)
    ensures MatchName(subject, cert) == Matches <==>
            EqualIgnoringCase(subject, cert) || exists w :: Covers(subject, prefix, w, suffix)
    ensures MatchName(subject, cert) == Overrun <==>
            && !EqualIgnoringCase(subject, cert)
            && |prefix| <= |subject| && EqualIgnoringCase(subject[..|prefix|], prefix)
            && |suffix| <= |subject| && EqualIgnoringCase(suffix, subject[|subject| - |suffix|..])
            && |subject| < |prefix| + |suffix| && '.' !in subject
  {
    hide MatchName, EqualIgnoringCase, Covers;
    WildcardCases(subject, cert, prefix, suffix);
    var p, n := |prefix|, |subject| - |suffix|;
    if MatchName(subject, cert) == Matches && !EqualIgnoringCase(subject, cert) {
      MatchedCovers(subject, prefix, suffix);
    }
    if w :| Covers(subject, prefix, w, suffix) {
      CoveredMatches(subject, prefix, w, suffix);
    }
    if p <= |subject| && EqualIgnoringCase(subject[..p], prefix) {
      DotsBehindPrefix(subject, prefix);
    }
  }

  /** A subject that starts with the text in front of a wildcard has its dots behind that text. */
  lemma DotsBehindPrefix(subject: string, prefix: string)
    requires |prefix| <= |subject| && EqualIgnoringCase(subject[..|prefix|], prefix) && '.' !in prefix
    ensures '.' in subject[|prefix|..] <==> '.' in subject
  {
    forall i | 0 <= i < |prefix|
      ensures subject[i] != '.'
    {
      assert Lower(subject[..|prefix|][i]) == Lower(prefix[i]);
    }
    assert subject == subject[..|prefix|] + subject[|prefix|..];
  }

  /** A subject of more than one label never makes the search run past its end. */
  lemma DottedNeverOverruns(subject: string, cert: string)
    requires '.' in subject
    ensures MatchName(subject, cert) != Overrun
  {
    if prefix, suffix :| IsWildcard(cert, prefix, suffix) {
      hide MatchName;
      WildcardMatch(subject, cert, prefix, suffix);
    } else {
      hide MatchName;
      PlainMatch(subject, cert);
    }
  }

  /** The matcher on a wildcard name, in terms of its two parts. */
  lemma WildcardCases(subject: string, cert: string, prefix: string, suffix: string)
    requires IsWildcard(cert, prefix, suffix)
    ensures var p, n := |prefix|, |subject| - |suffix|;
            MatchName(subject, cert) ==
            if EqualIgnoringCase(subject, cert) then Matches
            else if p > |subject| || !EqualIgnoringCase(subject[..p], prefix) then Differs
            else if n < 0 || !EqualIgnoringCase(suffix, subject[n..]) then Differs
            else if n < p then if '.' in subject[p..] then Differs else Overrun
            else if '.' in subject[p..n] then Differs
            else Matches
  {
    hide Find;
    WildcardIsFirst(cert, prefix, suffix);
  }

  /** Between the two parts of the name stands what the wildcard stands for. */
  lemma MatchedCovers(subject: string, prefix: string, suffix: string)
    requires var p, n := |prefix|, |subject| - |suffix|;
             && p <= n && EqualIgnoringCase(subject[..p], prefix)
             && EqualIgnoringCase(suffix, subject[n..]) && '.' !in subject[p..n]
    ensures Covers(subject, prefix, subject[|prefix|..|subject| - |suffix|], suffix)
  {
    hide Lower;
    var p, n := |prefix|, |subject| - |suffix|;
    var w := subject[p..n];
    forall i | 0 <= i < |subject|
      ensures Lower(subject[i]) == Lower((prefix + w + suffix)[i])
    {
      if i < p {
        assert Lower(subject[..p][i]) == Lower(prefix[i]);
      } else if i >= n {
        assert Lower(suffix[i - n]) == Lower(subject[n..][i - n]);
      }
    }
  }

  lemma CoveredMatches(subject: string, prefix: string, w: string, suffix: string)
    requires Covers(subject, prefix, w, suffix)
    ensures var p, n := |prefix|, |subject| - |suffix|;
            && 0 <= p <= n && EqualIgnoringCase(subject[..p], prefix)
            && EqualIgnoringCase(suffix, subject[n..]) && '.' !in subject[p..n]
  {
    var all, p, n := prefix + w + suffix, |prefix|, |subject| - |suffix|;
    forall i | 0 <= i < |suffix|
      ensures Lower(suffix[i]) == Lower(subject[n..][i])
    {
      assert Lower(subject[n + i]) == Lower(all[n + i]);
    }
    forall i | p <= i < n
      ensures subject[i] != '.'
    {
      assert Lower(subject[i]) == Lower(all[i]) && all[i] == w[i - p];
    }
  }

  /** A name without a wildcard in its first label matches only itself. */
  lemma PlainMatch(subject: string, cert: string)
    requires !exists prefix, suffix :: IsWildcard(cert, prefix, suffix)
    ensures MatchName(subject, cert) == if EqualIgnoringCase(subject, cert) then Matches else Differs
  {
    var star := Find(cert, '*');
    if star.Some? && '.' !in cert[..star.value] {
      var i := star.value;
      assert cert == cert[..i] + "*" + cert[i + 1..];
      assert IsWildcard(cert, cert[..i], cert[i + 1..]);
    }
  }

  /** The dots of a name, one fewer than its labels. */
  function Dots(s: string): nat {
    if s == [] then 0 else Dots(s[..|s| - 1]) + if s[|s| - 1] == '.' then 1 else 0
  }

  lemma {:induction false} DotsIgnoreCase(a: string, b: string)
    requires EqualIgnoringCase(a, b)
    ensures Dots(a) == Dots(b)
  {
    if a != [] {
      DotsIgnoreCase(a[..|a| - 1], b[..|b| - 1]);
    }
  }

  lemma {:induction false} DotsAppend(a: string, b: string)
    ensures Dots(a + b) == Dots(a) + Dots(b)
  {
    if b == [] {
      assert a + b == a;
    } else {
      assert (a + b)[..|a + b| - 1] == a + b[..|b| - 1];
      DotsAppend(a, b[..|b| - 1]);
    }
  }

  lemma {:induction false} NoDots(s: string)
    requires '.' !in s
    ensures Dots(s) == 0
  {
    if s != [] {
      NoDots(s[..|s| - 1]);
    }
  }

  /** A wildcard never stands for more than one label: both names have the same number of labels. */
  lemma SameLabels(subject: string, cert: string)
    requires MatchName(subject, cert) == Matches
    ensures Dots(subject) == Dots(cert)
  {
    if EqualIgnoringCase(subject, cert) {
      DotsIgnoreCase(subject, cert);
    } else {
      var i := Find(cert, '*').value;
      var prefix, suffix := cert[..i], cert[i + 1..];
      assert cert == prefix + "*" + suffix;
      WildcardMatch(subject, cert, prefix, suffix);
      var w :| Covers(subject, prefix, w, suffix);
      DotsIgnoreCase(subject, prefix + w + suffix);
      DotsAppend(prefix + w, suffix);
      DotsAppend(prefix, w);
      NoDots(w);
      NoDots("*");
      DotsAppend(prefix + "*", suffix);
      DotsAppend(prefix, "*");
    }
  }

  /** In so short a subject the two parts of the name overlap, and there is no dot to stop at. */
  lemma OverrunExample()
    ensures MatchName("aba", "ab*ba") == Overrun
  {
    var cert := "ab*ba";
    assert cert == "ab" + "*" + "ba";
    assert Lower('a') == 'a' && Lower('b') == 'b';
    WildcardMatch("aba", cert, "ab", "ba");
    assert "aba"[..2] == "ab" && "aba"[1..] == "ba";
  }

  /** The two parts overlap here as well, but the search stops at the dot; so the next certificate can be chosen. */
  lemma OverlapExample()
    ensures MatchName("ab.com", "ab*b.com") == Differs && MatchName("ab.com", "ab.com") == Matches
  {
    var subject, cert := "ab.com", "ab*b.com";
    assert cert == "ab" + "*" + "b.com" && subject[2] == '.';
    WildcardCases(subject, cert, "ab", "b.com");
    assert |cert| != |subject| && subject[2..] == ".com";
  }

  /** What the server's SNI callback decides. */
  datatype Choice = NoAck | Chosen(index: nat) | Undefined

  /** Picks the first configured certificate whose name covers the server name that the client sent. */
  method ChooseCertificate(serverName: Option<string>, names: seq<string>) returns (c: Choice)
    ensures c == NoAck <==>
            serverName.None? || forall i | 0 <= i < |names| :: MatchName(serverName.value, names[i]) == Differs
    ensures c.Chosen? ==>
              && serverName.Some? && c.index < |names| && MatchName(serverName.value, names[c.index]) == Matches
              && Dots(serverName.value) == Dots(names[c.index])
              && forall i | 0 <= i < c.index :: MatchName(serverName.value, names[i]) == Differs
    ensures c == Undefined <==>
              && serverName.Some?
              && exists i | 0 <= i < |names| ::
                   && MatchName(serverName.value, names[i]) == Overrun
                   && forall k | 0 <= k < i :: MatchName(serverName.value, names[k]) == Differs
    ensures serverName.Some? && '.' in serverName.value ==>
              && c != Undefined
              && (c == NoAck <==> forall i | 0 <= i < |names| :: MatchName(serverName.value, names[i]) != Matches)
  {
    if serverName.None? {
      return NoAck;
    }
    for i := 0 to |names|
      invariant forall k | 0 <= k < i :: MatchName(serverName.value, names[k]) == Differs
    {
      match MatchName(serverName.value, names[i]) {
        case Matches =>
          SameLabels(serverName.value, names[i]);
          return Chosen(i);
        case Overrun =>
          if '.' in serverName.value {
            DottedNeverOverruns(serverName.value, names[i]);
          }
          return Undefined;
        case Differs =>
      }
    }
    return NoAck;
  }
}
