/**
 * The parts of Python's `str` that the scraper, the Torznab layer and the
 * download-client layer rely on, over Dafny strings (sequences of Unicode
 * scalar values): whitespace, `strip`, `split`, `join`, ASCII case mapping,
 * `title` and `str(int)`.
 */
module PyStr {
  import opened Wrappers

  // ---------------------------------------------------------------------------
  // Whitespace, strip
  // ---------------------------------------------------------------------------

  /** The characters for which Python's `str.isspace()` holds; `strip()` and `split()` remove exactly these. */
  const SpaceChars: set<char> := {
    ' ', '\t', '\n', '\U{0B}', '\U{0C}', '\r', '\U{1C}', '\U{1D}', '\U{1E}', '\U{1F}',
    '\U{85}', '\U{A0}', '\U{1680}', '\U{2000}', '\U{2001}', '\U{2002}', '\U{2003}', '\U{2004}',
    '\U{2005}', '\U{2006}', '\U{2007}', '\U{2008}', '\U{2009}', '\U{200A}', '\U{2028}', '\U{2029}',
    '\U{202F}', '\U{205F}', '\U{3000}'
  }

  predicate IsSpace(c: char) {
    c in SpaceChars
  }

  predicate NoSpace(s: string) {
    forall i :: 0 <= i < |s| ==> !IsSpace(s[i])
  }

  predicate AllSpace(s: string) {
    forall i :: 0 <= i < |s| ==> IsSpace(s[i])
  }

  /** `s.strip()`: drops the leading and the trailing whitespace. */
  function Strip(s: string): (r: string)
    ensures |r| <= |s|
    ensures r == [] || (!IsSpace(r[0]) && !IsSpace(r[|r| - 1]))
    decreases |s|
  {
    if s == [] then s
    else if IsSpace(s[0]) then Strip(s[1..])
    else if IsSpace(s[|s| - 1]) then Strip(s[..|s| - 1])
    else s
  }

  /**
   * `strip()` leaves a string alone exactly when it neither starts nor ends
   * with whitespace, so it is idempotent; it only removes characters.
   */
  lemma StripFacts(s: string)
    ensures Strip(s) == s <==> s == [] || (!IsSpace(s[0]) && !IsSpace(s[|s| - 1]))
    ensures Strip(Strip(s)) == Strip(s)
    ensures forall c :: c in Strip(s) ==> c in s
    ensures NoSpace(s) ==> Strip(s) == s
  {
    var r := Strip(s);
    assert r == [] || (!IsSpace(r[0]) && !IsSpace(r[|r| - 1]));
    if s != [] && NoSpace(s) {
      assert !IsSpace(s[0]) && !IsSpace(s[|s| - 1]);
    }
    StripOnlyRemoves(s);
  }

  /** A string that does not start with whitespace keeps its start: `strip()` only cuts its end. */
  lemma {:induction false} StripUnpaddedStart(s: string)
    requires s == [] || !IsSpace(s[0])
    ensures Strip(s) == s[..|Strip(s)|]
    decreases |s|
  {
    if s != [] && IsSpace(s[|s| - 1]) {
      var t := s[..|s| - 1];
      if t != [] {
        assert t[0] == s[0];
      }
      StripUnpaddedStart(t);
    }
  }

  /** `r` sits in `s` at offset `k`, with nothing but whitespace before and after it. */
  predicate PaddedAt(s: string, k: nat, r: string) {
    && k + |r| <= |s| && s[k..k + |r|] == r
    && AllSpace(s[..k]) && AllSpace(s[k + |r|..])
  }

  /**
   * `strip()` keeps a contiguous stretch of `s`, starting at offset `k`, and
   * everything it cuts before and after that stretch is whitespace.
   */
  lemma {:induction false} StripOffset(s: string) returns (k: nat)
    ensures PaddedAt(s, k, Strip(s))
    decreases |s|
  {
    var r := Strip(s);
    if s == [] {
      k := 0;
    } else if IsSpace(s[0]) {
      assert r == Strip(s[1..]);
      var j := StripOffset(s[1..]);
      PaddedAfterSpace(s, j, r);
      k := j + 1;
    } else if IsSpace(s[|s| - 1]) {
      assert r == Strip(s[..|s| - 1]);
      k := StripOffset(s[..|s| - 1]);
      PaddedBeforeSpace(s, k, r);
    } else {
      k := 0;
      assert s[0..|s|] == s;
    }
  }

  lemma PaddedAfterSpace(s: string, j: nat, r: string)
    requires s != [] && IsSpace(s[0]) && PaddedAt(s[1..], j, r)
    ensures PaddedAt(s, j + 1, r)
  {
    var t := s[1..];
    assert s[j + 1..j + 1 + |r|] == t[j..j + |r|];
    forall i | 0 <= i < j + 1 ensures IsSpace(s[i]) {
      if i > 0 {
        assert s[i] == t[..j][i - 1];
      }
    }
    assert s[j + 1 + |r|..] == t[j + |r|..];
  }

  lemma PaddedBeforeSpace(s: string, k: nat, r: string)
    requires s != [] && IsSpace(s[|s| - 1]) && PaddedAt(s[..|s| - 1], k, r)
    ensures PaddedAt(s, k, r)
  {
    var t := s[..|s| - 1];
    assert s[k..k + |r|] == t[k..k + |r|];
    assert s[..k] == t[..k];
    forall i | k + |r| <= i < |s| ensures IsSpace(s[i]) {
      if i < |s| - 1 {
        assert s[i] == t[k + |r|..][i - k - |r|];
      }
    }
  }

  lemma StripOnlyRemoves(s: string)
    ensures forall c :: c in Strip(s) ==> c in s
  {
    var r := Strip(s);
    var k := StripOffset(s);
    forall c | c in r ensures c in s {
      var i :| 0 <= i < |r| && r[i] == c;
      assert s[k..k + |r|][i] == s[k + i];
    }
  }

  // ---------------------------------------------------------------------------
  // split() and join
  // ---------------------------------------------------------------------------

  /** Length of the run of non-whitespace characters at the start of `s`. */
  function WordLen(s: string): (n: nat)
    ensures n <= |s|
    ensures NoSpace(s[..n])
    ensures n < |s| ==> IsSpace(s[n])
    ensures s != [] && !IsSpace(s[0]) ==> n > 0
  {
    if s == [] || IsSpace(s[0]) then 0 else 1 + WordLen(s[1..])
  }

  /** `s.split()` with no separator: the maximal runs of non-whitespace, in order. */
  function Words(s: string): (ws: seq<string>)
    ensures forall w :: w in ws ==> w != [] && NoSpace(w)
    ensures forall w, c :: w in ws && c in w ==> c in s
    decreases |s|
  {
    if s == [] then []
    else if IsSpace(s[0]) then Words(s[1..])
    else
      var n := WordLen(s);
      [s[..n]] + Words(s[n..])
  }

  /** `sep.join(parts)`. */
  function Join(sep: string, parts: seq<string>): (r: string)
    ensures forall c :: c in r ==> c in sep || exists p :: p in parts && c in p
  {
    if parts == [] then []
    else if |parts| == 1 then parts[0]
    else parts[0] + sep + Join(sep, parts[1..])
  }

  /** `s.split(sep)` for a one-character separator: the pieces between separators, never an empty list. */
  function SplitOn(s: string, sep: char): (parts: seq<string>)
    ensures |parts| >= 1
    decreases |s|
  {
    if s == [] then [[]]
    else
      var rest := SplitOn(s[1..], sep);
      if s[0] == sep then [[]] + rest
      else [[s[0]] + rest[0]] + rest[1..]
  }

  /** No piece of `s.split(sep)` holds `sep`, and there is more than one piece exactly when `sep` occurs. */
  lemma {:induction false} SplitOnPieces(s: string, sep: char)
    ensures forall p :: p in SplitOn(s, sep) ==> sep !in p
    ensures |SplitOn(s, sep)| == 1 <==> sep !in s
    decreases |s|
  {
    if s != [] {
      SplitOnPieces(s[1..], sep);
      var rest := SplitOn(s[1..], sep);
      assert s == [s[0]] + s[1..];
      if s[0] != sep {
        var parts := [[s[0]] + rest[0]] + rest[1..];
        assert SplitOn(s, sep) == parts;
        assert rest[0] in rest;
        forall p | p in parts ensures sep !in p {
          if p != parts[0] {
            assert p in rest;
          }
        }
      }
    }
  }

  /** Joining a piece in front of a non-empty list puts one separator between them. */
  lemma JoinCons(sep: string, p: string, ps: seq<string>)
    requires ps != []
    ensures Join(sep, [p] + ps) == p + sep + Join(sep, ps)
  {
    assert ([p] + ps)[0] == p;
    assert ([p] + ps)[1..] == ps;
  }

  /** Two pieces joined in front of a non-empty list. */
  lemma JoinFront(sep: string, x: string, y: string, ps: seq<string>)
    requires ps != []
    ensures x + sep + y + sep + Join(sep, ps) == Join(sep, [x, y] + ps)
  {
    JoinCons(sep, y, ps);
    assert [x, y] + ps == [x] + ([y] + ps);
    JoinCons(sep, x, [y] + ps);
    assert x + sep + (y + sep + Join(sep, ps)) == x + sep + y + sep + Join(sep, ps);
  }

  /** Joining the pieces of `s.split(sep)` with `sep` gives `s` back. */
  lemma {:induction false} JoinSplitOn(s: string, sep: char)
    ensures Join([sep], SplitOn(s, sep)) == s
    decreases |s|
  {
    if s != [] {
      JoinSplitOn(s[1..], sep);
      var rest := SplitOn(s[1..], sep);
      if s[0] == sep {
        assert SplitOn(s, sep) == [[]] + rest;
        assert s == [sep] + s[1..];
      } else {
        var parts := [[s[0]] + rest[0]] + rest[1..];
        assert SplitOn(s, sep) == parts;
        assert parts[1..] == rest[1..];
        assert s == [s[0]] + s[1..];
        if |rest| > 1 {
          assert Join([sep], rest) == rest[0] + [sep] + Join([sep], rest[1..]);
        }
      }
    }
  }

  /** Splitting what `Join` glued back together gives the same pieces, when no piece holds the separator. */
  lemma {:induction false} SplitOnJoin(parts: seq<string>, sep: char)
    requires |parts| >= 1
    requires forall p :: p in parts ==> sep !in p
    ensures SplitOn(Join([sep], parts), sep) == parts
  {
    assert parts[0] in parts;
    if |parts| == 1 {
      SplitOnSeparatorFree(parts[0], [], sep);
      assert parts[0] + [] == parts[0];
      assert SplitOn([], sep) == [[]];
    } else {
      forall p | p in parts[1..] ensures sep !in p {
        assert p in parts;
      }
      var tail := Join([sep], parts[1..]);
      SplitOnJoin(parts[1..], sep);
      SplitOnSeparatorFree(parts[0], [sep] + tail, sep);
      SplitOnSeparatorHead(tail, sep);
      assert Join([sep], parts) == parts[0] + ([sep] + tail);
      assert parts[0] + [] == parts[0];
      assert [parts[0]] + parts[1..] == parts;
    }
  }

  /** A leading separator starts with an empty piece. */
  lemma SplitOnSeparatorHead(u: string, sep: char)
    ensures SplitOn([sep] + u, sep) == [[]] + SplitOn(u, sep)
  {
    assert ([sep] + u)[0] == sep;
    assert ([sep] + u)[1..] == u;
  }

  /** A separator-free prefix becomes the start of the first piece. */
  lemma {:induction false} SplitOnSeparatorFree(w: string, t: string, sep: char)
    requires sep !in w
    ensures var st := SplitOn(t, sep); SplitOn(w + t, sep) == [w + st[0]] + st[1..]
    decreases |w|
  {
    var st := SplitOn(t, sep);
    if w == [] {
      assert w + t == t;
      assert w + st[0] == st[0];
      assert [w + st[0]] + st[1..] == st;
    } else {
      assert w[0] in w;
      SplitOnSeparatorFree(w[1..], t, sep);
      assert w + t == [w[0]] + (w[1..] + t);
      SplitOnNonSeparatorHead(w[0], w[1..] + t, sep);
      assert [w[0]] + (w[1..] + st[0]) == w + st[0];
    }
  }

  /** A leading character other than the separator joins the first piece. */
  lemma SplitOnNonSeparatorHead(c: char, u: string, sep: char)
    requires c != sep
    ensures var su := SplitOn(u, sep); SplitOn([c] + u, sep) == [[c] + su[0]] + su[1..]
  {
    assert ([c] + u)[0] == c;
    assert ([c] + u)[1..] == u;
  }

  /** Appending a separator appends one empty piece. */
  lemma {:induction false} SplitOnTrailingSeparator(s: string, sep: char)
    ensures SplitOn(s + [sep], sep) == SplitOn(s, sep) + [[]]
    decreases |s|
  {
    if s == [] {
      assert s + [sep] == [sep];
      assert [sep][1..] == [];
      assert SplitOn([sep], sep) == [[]] + SplitOn([], sep);
    } else {
      SplitOnTrailingSeparator(s[1..], sep);
      assert (s + [sep])[1..] == s[1..] + [sep];
      assert (s + [sep])[0] == s[0];
      var rest := SplitOn(s[1..], sep);
      var rest' := SplitOn(s[1..] + [sep], sep);
      assert rest' == rest + [[]];
      if s[0] != sep {
        assert rest'[0] == rest[0];
        assert rest'[1..] == rest[1..] + [[]];
      }
    }
  }

  /** `s.split(sep)[-1]`: the text after the last separator (all of `s` when there is none). */
  function LastPart(s: string, sep: char): (r: string)
    ensures sep !in r
    ensures |r| <= |s| && s[|s| - |r|..] == r
    ensures |r| == |s| || s[|s| - |r| - 1] == sep
  {
    var parts := SplitOn(s, sep);
    LastPieceIsSuffix(s, sep);
    SplitOnPieces(s, sep);
    assert parts[|parts| - 1] in parts;
    parts[|parts| - 1]
  }

  /** The last piece of `s.split(sep)` is the last piece for `s[1..]`, extended by `s[0]` when that was the only piece. */
  lemma LastPieceStep(s: string, sep: char)
    requires s != []
    ensures var parts, rest := SplitOn(s, sep), SplitOn(s[1..], sep);
      parts[|parts| - 1] == if s[0] == sep || |rest| > 1 then rest[|rest| - 1] else [s[0]] + rest[0]
  {
  }

  /** The last piece holds no separator, and it is the only piece exactly when there is no separator. */
  lemma LastPieceFacts(t: string, sep: char)
    ensures var rest := SplitOn(t, sep);
      && sep !in rest[|rest| - 1]
      && (|rest| == 1 <==> sep !in t)
  {
    SplitOnPieces(t, sep);
    var rest := SplitOn(t, sep);
    assert rest[|rest| - 1] in rest;
  }

  /** A suffix of `s[1..]` that follows a separator (or is all of it) is a suffix of `s` with the same property. */
  lemma SuffixOfTail(s: string, r: string, sep: char)
    requires s != [] && |r| <= |s| - 1 && s[1..][|s| - 1 - |r|..] == r
    requires |r| == |s| - 1 || s[1..][|s| - 2 - |r|] == sep
    ensures s[|s| - |r|..] == r
    ensures |r| < |s| - 1 ==> s[|s| - |r| - 1] == sep
    ensures |r| == |s| - 1 ==> r == s[1..] && [s[0]] + r == s
  {
    assert s[1..][|s| - 1 - |r|..] == s[|s| - |r|..];
  }

  lemma {:induction false} LastPieceIsSuffix(s: string, sep: char)
    ensures var parts := SplitOn(s, sep); var r := parts[|parts| - 1];
      |r| <= |s| && s[|s| - |r|..] == r && (|r| == |s| || s[|s| - |r| - 1] == sep)
    decreases |s|
  {
    if s != [] {
      var t := s[1..];
      LastPieceIsSuffix(t, sep);
      LastPieceStep(s, sep);
      LastPieceFacts(t, sep);
      var rest := SplitOn(t, sep);
      var r := rest[|rest| - 1];
      SuffixOfTail(s, r, sep);
    }
  }

  // ---------------------------------------------------------------------------
  // Whitespace collapsing: ' '.join(s.split())
  // ---------------------------------------------------------------------------

  /** Single spaces between non-blank runs, no other whitespace and none at the ends. */
  predicate IsCollapsed(s: string) {
    && (s == [] || (!IsSpace(s[0]) && !IsSpace(s[|s| - 1])))
    && (forall i :: 0 <= i < |s| && IsSpace(s[i]) ==> s[i] == ' ')
    && (forall i, j :: 0 <= i < |s| && 0 <= j < |s| && j == i + 1 ==> !IsSpace(s[i]) || !IsSpace(s[j]))
  }

  /** `' '.join(s.split())`. */
  function Collapse(s: string): (r: string)
    ensures IsCollapsed(r)
    ensures forall c :: c in r ==> c == ' ' || c in s
  {
    var ws := Words(s);
    JoinedWordsCollapsed(ws);
    Join(" ", ws)
  }

  lemma {:induction false} JoinedWordsCollapsed(ws: seq<string>)
    requires forall w :: w in ws ==> w != [] && NoSpace(w)
    ensures IsCollapsed(Join(" ", ws))
    ensures ws != [] ==> Join(" ", ws) != [] && !IsSpace(Join(" ", ws)[0])
  {
    if |ws| > 1 {
      forall w | w in ws[1..] ensures w != [] && NoSpace(w) {
        assert w in ws;
      }
      JoinedWordsCollapsed(ws[1..]);
      var w, t := ws[0], Join(" ", ws[1..]);
      var j := w + " " + t;
      assert w in ws;
      forall i | 0 <= i < |j| && IsSpace(j[i])
        ensures j[i] == ' ' && 0 < i < |j| - 1 && !IsSpace(j[i - 1]) && !IsSpace(j[i + 1])
      {
        if i == |w| {
          assert j[i + 1] == t[0];
          assert j[i - 1] == w[|w| - 1];
        } else if i > |w| {
          assert j[i] == t[i - |w| - 1];
          assert j[i - 1] == if i - 1 == |w| then ' ' else t[i - |w| - 2];
          assert i < |j| - 1 && j[i + 1] == t[i - |w|];
        }
      }
    } else if |ws| == 1 {
      assert ws[0] in ws;
    }
  }

  /** After the first word of collapsed text comes one space and collapsed text starting with a word. */
  lemma CollapsedTail(s: string)
    requires IsCollapsed(s) && s != [] && WordLen(s) < |s|
    ensures var n := WordLen(s);
      && s[n] == ' ' && n + 1 < |s| && !IsSpace(s[n + 1])
      && IsCollapsed(s[n + 1..])
  {
    var n := WordLen(s);
    var t := s[n + 1..];
    forall i | 0 <= i < |t| && IsSpace(t[i])
      ensures t[i] == ' ' && 0 < i < |t| - 1 && !IsSpace(t[i - 1]) && !IsSpace(t[i + 1])
    {
      assert t[i] == s[n + 1 + i];
    }
  }

  /** `split()` of text starting with a word: that word, then the split of the rest. */
  lemma WordsOfWordStart(s: string)
    requires s != [] && !IsSpace(s[0])
    ensures Words(s) == [s[..WordLen(s)]] + Words(s[WordLen(s)..])
  {
  }

  /** In collapsed text, the words are the first word and then the words after the space that follows it. */
  lemma WordsAfterFirstWord(s: string)
    requires IsCollapsed(s) && s != [] && WordLen(s) < |s|
    ensures Words(s) == [s[..WordLen(s)]] + Words(s[WordLen(s) + 1..])
  {
    var n := WordLen(s);
    WordsOfWordStart(s);
    CollapsedTail(s);
    assert s[n..][1..] == s[n + 1..];
  }

  /** A text that is one word splits into just that word. */
  lemma WordsOfSingleWord(s: string)
    requires s != [] && !IsSpace(s[0]) && WordLen(s) == |s|
    ensures Words(s) == [s]
  {
    WordsOfWordStart(s);
    assert s[|s|..] == [] && s[..|s|] == s;
  }

  /** Text with a space at `n` is what comes before it, the space, and what comes after. */
  lemma SplitAround(s: string, n: int)
    requires 0 <= n < |s| && s[n] == ' '
    ensures s == s[..n] + " " + s[n + 1..]
  {
    assert s == s[..n] + [s[n]] + s[n + 1..];
  }

  /** Joining a word in front of the words of text that starts with a word puts one space between them. */
  lemma JoinAfterWord(w: string, t: string)
    requires t != [] && !IsSpace(t[0])
    ensures Join(" ", [w] + Words(t)) == w + " " + Join(" ", Words(t))
  {
    WordsOfWordStart(t);
    JoinCons(" ", w, Words(t));
  }

  /** Joining the words of collapsed text with single spaces gives the text back. */
  lemma {:induction false} JoinWordsOfCollapsed(s: string)
    requires IsCollapsed(s)
    ensures Join(" ", Words(s)) == s
    decreases |s|
  {
    if s != [] {
      var n := WordLen(s);
      if n < |s| {
        var t := s[n + 1..];
        CollapsedTail(s);
        WordsAfterFirstWord(s);
        JoinWordsOfCollapsed(t);
        JoinAfterWord(s[..n], t);
        SplitAround(s, n);
      } else {
        WordsOfSingleWord(s);
      }
    }
  }

  /** Collapsing text that is already collapsed changes nothing. */
  lemma CollapseFixesCollapsed(s: string)
    requires IsCollapsed(s)
    ensures Collapse(s) == s
  {
    JoinWordsOfCollapsed(s);
  }

  /** `' '.join(s.split())` ignores trailing whitespace. */
  lemma {:induction false} WordsIgnoreTrailingSpace(s: string, sp: string)
    requires AllSpace(sp)
    ensures Words(s + sp) == Words(s)
    decreases |s| + |sp|
  {
    if s == [] {
      assert s + sp == sp;
      if sp != [] {
        WordsIgnoreTrailingSpace([], sp[1..]);
        assert [] + sp[1..] == sp[1..];
      }
    } else if IsSpace(s[0]) {
      assert (s + sp)[1..] == s[1..] + sp;
      WordsIgnoreTrailingSpace(s[1..], sp);
    } else {
      var n := WordLen(s);
      WordLenIgnoresTrailingSpace(s, sp);
      assert (s + sp)[..n] == s[..n];
      assert (s + sp)[n..] == s[n..] + sp;
      WordsIgnoreTrailingSpace(s[n..], sp);
    }
  }

  lemma {:induction false} WordLenIgnoresTrailingSpace(s: string, sp: string)
    requires AllSpace(sp)
    ensures WordLen(s + sp) == WordLen(s)
    decreases |s|
  {
    if s == [] {
      assert s + sp == sp;
    } else if !IsSpace(s[0]) {
      assert (s + sp)[1..] == s[1..] + sp;
      WordLenIgnoresTrailingSpace(s[1..], sp);
    }
  }

  /** `' '.join(s.split())` is unchanged by stripping `s` first. */
  lemma {:induction false} CollapseIgnoresStrip(s: string)
    ensures Collapse(Strip(s)) == Collapse(s)
    decreases |s|
  {
    if s != [] && IsSpace(s[0]) {
      CollapseIgnoresStrip(s[1..]);
    } else if s != [] && IsSpace(s[|s| - 1]) {
      var t := s[..|s| - 1];
      CollapseIgnoresStrip(t);
      assert s == t + [s[|s| - 1]];
      WordsIgnoreTrailingSpace(t, [s[|s| - 1]]);
    }
  }


  // ---------------------------------------------------------------------------
  // ASCII case mapping and title()
  // ---------------------------------------------------------------------------

  predicate IsAsciiUpper(c: char) { 'A' <= c <= 'Z' }
  predicate IsAsciiLower(c: char) { 'a' <= c <= 'z' }
  predicate IsAsciiLetter(c: char) { IsAsciiUpper(c) || IsAsciiLower(c) }

  function ToLower(c: char): char {
    if IsAsciiUpper(c) then (c as int + 32) as char else c
  }

  function ToUpper(c: char): char {
    if IsAsciiLower(c) then (c as int - 32) as char else c
  }

  /** `s.lower()` on ASCII letters. */
  function Lower(s: string): (r: string)
    ensures |r| == |s|
    ensures forall i :: 0 <= i < |s| ==> r[i] == ToLower(s[i])
    ensures forall i :: 0 <= i < |r| ==> !IsAsciiUpper(r[i])
  {
    seq(|s|, i requires 0 <= i < |s| => ToLower(s[i]))
  }

  /** Lower-casing twice is lower-casing once, and lower-case text is left as it is. */
  lemma LowerIdempotent(s: string)
    ensures Lower(Lower(s)) == Lower(s)
    ensures (forall i :: 0 <= i < |s| ==> !IsAsciiUpper(s[i])) ==> Lower(s) == s
  {
  }

  /**
   * `str.title()` restricted to ASCII, continuing after a character that was
   * (`prevCased`) or was not a letter: every letter that follows a letter is
   * lower-cased, every other letter upper-cased; other characters are kept.
   */
  function TitleFrom(s: string, prevCased: bool): (r: string)
    ensures |r| == |s|
    ensures |s| > 0 ==> r[0] == if prevCased then ToLower(s[0]) else ToUpper(s[0])
    ensures forall i :: 0 < i < |s| ==> r[i] == if IsAsciiLetter(s[i - 1]) then ToLower(s[i]) else ToUpper(s[i])
    decreases |s|
  {
    if s == [] then []
    else [if prevCased then ToLower(s[0]) else ToUpper(s[0])] + TitleFrom(s[1..], IsAsciiLetter(s[0]))
  }

  /** `s.title()`. */
  function Title(s: string): string {
    TitleFrom(s, false)
  }

  lemma CaseMappingFacts(c: char)
    ensures IsAsciiLetter(ToLower(c)) == IsAsciiLetter(c) && IsAsciiLetter(ToUpper(c)) == IsAsciiLetter(c)
    ensures ToLower(ToLower(c)) == ToLower(c) && ToUpper(ToUpper(c)) == ToUpper(c)
  {
  }

  /** Title-casing twice is title-casing once. */
  lemma {:induction false} TitleIdempotent(s: string)
    ensures Title(Title(s)) == Title(s)
  {
    var t := TitleFrom(s, false);
    var tt := TitleFrom(t, false);
    forall i | 0 <= i < |s|
      ensures tt[i] == t[i]
    {
      CaseMappingFacts(s[i]);
      if i > 0 {
        CaseMappingFacts(s[i - 1]);
        var k := i - 1;
        if k > 0 {
          assert t[k] == if IsAsciiLetter(s[k - 1]) then ToLower(s[k]) else ToUpper(s[k]);
        }
        assert IsAsciiLetter(t[k]) == IsAsciiLetter(s[k]);
      }
    }
  }

  // ---------------------------------------------------------------------------
  // str(int) and its inverse
  // ---------------------------------------------------------------------------

  function DigitChar(d: int): (c: char)
    requires 0 <= d < 10
    ensures '0' <= c <= '9'
  {
    ('0' as int + d) as char
  }

  /** Only the decimal digits `0` to `9`. */
  predicate IsDigits(s: string) {
    forall i :: 0 <= i < |s| ==> '0' <= s[i] <= '9'
  }

  /** Decimal digits of `n`, most significant first, no leading zero. */
  function NatToString(n: nat): (r: string)
    ensures r != [] && IsDigits(r)
    ensures r[0] == '0' ==> r == "0"
    decreases n
  {
    if n < 10 then [DigitChar(n)] else NatToString(n / 10) + [DigitChar(n % 10)]
  }

  /** `str(i)` for an `int`. */
  function IntToString(i: int): (r: string)
    ensures r != []
  {
    if i < 0 then "-" + NatToString(-i) else NatToString(i)
  }

  /** The value of a string of decimal digits. */
  function DigitsValue(s: string): nat
    requires IsDigits(s)
  {
    if s == [] then 0 else DigitsValue(s[..|s| - 1]) * 10 + (s[|s| - 1] as int - '0' as int)
  }

  /** Reads an optionally signed decimal number back; the partner of `IntToString`. */
  function DecimalValue(s: string): Option<int> {
    if |s| > 1 && s[0] == '-' && IsDigits(s[1..]) then
      var v: int := DigitsValue(s[1..]);
      Some(-v)
    else if |s| > 1 && s[0] == '+' && IsDigits(s[1..]) then
      Some(DigitsValue(s[1..]))
    else if s != [] && IsDigits(s) then
      Some(DigitsValue(s))
    else None
  }

  lemma {:induction false} NatToStringValue(n: nat)
    ensures DigitsValue(NatToString(n)) == n
    decreases n
  {
    if n >= 10 {
      NatToStringValue(n / 10);
      var r := NatToString(n);
      assert r[..|r| - 1] == NatToString(n / 10);
    }
  }

  /** `str(i)` can be read back: decimal rendering of ports and page numbers loses nothing. */
  lemma IntToStringRoundTrip(i: int)
    ensures DecimalValue(IntToString(i)) == Some(i)
  {
    var r := IntToString(i);
    if i < 0 {
      var d := NatToString(-i);
      NatToStringValue(-i);
      assert r[1..] == d;
    } else {
      NatToStringValue(i);
      assert r[0] != '-';
    }
  }

  // ---------------------------------------------------------------------------
  // Prefixes, substrings, character removal and replacement
  // ---------------------------------------------------------------------------

  /** `s.startswith(p)`. */
  predicate StartsWith(s: string, p: string) {
    |p| <= |s| && s[..|p|] == p
  }

  /** `p` occurs in `s` starting at index `i`. */
  predicate OccursAt(s: string, p: string, i: int) {
    0 <= i <= |s| - |p| && s[i..i + |p|] == p
  }

  /** `p in s` for strings. */
  predicate Contains(s: string, p: string) {
    exists i :: 0 <= i <= |s| - |p| && OccursAt(s, p, i)
  }

  predicate EqualIgnoringCase(a: string, b: string) {
    |a| == |b| && forall i :: 0 <= i < |a| ==> ToLower(a[i]) == ToLower(b[i])
  }

  /** `re.search(p, s, re.IGNORECASE)` for a pattern `p` without metacharacters. */
  predicate ContainsIgnoringCase(s: string, p: string)
    decreases |s|
  {
    |p| <= |s| && (EqualIgnoringCase(s[..|p|], p) || ContainsIgnoringCase(s[1..], p))
  }

  /** `re.sub('[...]', '', s)`: `s` without the characters of the class `bad`. */
  function RemoveChars(s: string, bad: set<char>): (r: string)
    ensures |r| <= |s|
    ensures forall c :: c in r ==> c !in bad && c in s
    ensures r == s <==> forall i :: 0 <= i < |s| ==> s[i] !in bad
  {
    if s == [] then []
    else if s[0] in bad then RemoveChars(s[1..], bad)
    else
      assert s == [s[0]] + s[1..];
      [s[0]] + RemoveChars(s[1..], bad)
  }

  /** `re.sub` with a character class works character by character, so it distributes over concatenation. */
  lemma {:induction false} RemoveCharsAppend(a: string, b: string, bad: set<char>)
    ensures RemoveChars(a + b, bad) == RemoveChars(a, bad) + RemoveChars(b, bad)
    decreases |a|
  {
    if a == [] {
      assert a + b == b;
    } else {
      assert (a + b)[0] == a[0] && (a + b)[1..] == a[1..] + b;
      RemoveCharsAppend(a[1..], b, bad);
    }
  }

  // ---------------------------------------------------------------------------
  // What split() and whitespace collapsing keep
  // ---------------------------------------------------------------------------

  /** `''.join(ws)`. */
  function Concat(ws: seq<string>): string {
    if ws == [] then [] else ws[0] + Concat(ws[1..])
  }

  /** A run of non-whitespace is one word, and whitespace holds none. */
  lemma WordsOfRun(w: string)
    requires NoSpace(w)
    ensures Words(w) == if w == [] then [] else [w]
  {
    if w != [] {
      assert WordLen(w) == |w|;
      WordsOfSingleWord(w);
    }
  }

  /** A word ends at the first whitespace character. */
  lemma {:induction false} WordLenBeforeSpace(a: string, c: char, b: string)
    requires IsSpace(c)
    ensures WordLen(a + [c] + b) == WordLen(a)
    decreases |a|
  {
    if a == [] {
      assert a + [c] + b == [c] + b;
    } else if !IsSpace(a[0]) {
      assert (a + [c] + b)[1..] == a[1..] + [c] + b;
      WordLenBeforeSpace(a[1..], c, b);
    }
  }

  /** `split()` cuts at every whitespace character: the words on either side of one stay apart. */
  lemma {:induction false} WordsSplitAtSpace(a: string, c: char, b: string)
    requires IsSpace(c)
    ensures Words(a + [c] + b) == Words(a) + Words(b)
    decreases |a|
  {
    var s := a + [c] + b;
    if a == [] {
      assert s == [c] + b && s[1..] == b;
    } else if IsSpace(a[0]) {
      assert s[1..] == a[1..] + [c] + b;
      WordsSplitAtSpace(a[1..], c, b);
    } else {
      var n := WordLen(a);
      WordLenBeforeSpace(a, c, b);
      assert s[..n] == a[..n];
      assert s[n..] == a[n..] + [c] + b;
      WordsSplitAtSpace(a[n..], c, b);
    }
  }

  /** `split()` keeps every non-whitespace character, in order: the words put together are the text without its whitespace. */
  lemma {:induction false} WordsKeepText(s: string)
    ensures Concat(Words(s)) == RemoveChars(s, SpaceChars)
    decreases |s|
  {
    if s != [] && IsSpace(s[0]) {
      WordsKeepText(s[1..]);
    } else if s != [] {
      var n := WordLen(s);
      WordsKeepText(s[n..]);
      assert s == s[..n] + s[n..];
      RemoveCharsAppend(s[..n], s[n..], SpaceChars);
      assert RemoveChars(s[..n], SpaceChars) == s[..n];
      assert Concat(Words(s)) == s[..n] + Concat(Words(s[n..]));
    }
  }

  /** Joining words with single spaces and splitting again gives the words back. */
  lemma {:induction false} WordsOfJoin(ws: seq<string>)
    requires forall w :: w in ws ==> w != [] && NoSpace(w)
    ensures Words(Join(" ", ws)) == ws
  {
    if ws != [] {
      assert ws[0] in ws;
      WordsOfRun(ws[0]);
      if |ws| > 1 {
        forall w | w in ws[1..] ensures w != [] && NoSpace(w) {
          assert w in ws;
        }
        WordsOfJoin(ws[1..]);
        assert Join(" ", ws) == ws[0] + [' '] + Join(" ", ws[1..]);
        WordsSplitAtSpace(ws[0], ' ', Join(" ", ws[1..]));
        assert ws == [ws[0]] + ws[1..];
      }
    }
  }

  /** The whitespace-free text of words joined with spaces is the words put together. */
  lemma {:induction false} JoinedWordsText(ws: seq<string>)
    requires forall w :: w in ws ==> NoSpace(w)
    ensures RemoveChars(Join(" ", ws), SpaceChars) == Concat(ws)
  {
    if ws != [] {
      assert ws[0] in ws;
      assert RemoveChars(ws[0], SpaceChars) == ws[0];
      if |ws| == 1 {
        assert Concat(ws) == ws[0] + Concat([]);
      } else {
        forall w | w in ws[1..] ensures NoSpace(w) {
          assert w in ws;
        }
        JoinedWordsText(ws[1..]);
        SpacedWordText(ws[0], Join(" ", ws[1..]));
      }
    }
  }

  lemma SpacedWordText(w: string, rest: string)
    requires NoSpace(w)
    ensures RemoveChars(w + " " + rest, SpaceChars) == w + RemoveChars(rest, SpaceChars)
  {
    RemoveCharsAppend(w + " ", rest, SpaceChars);
    RemoveCharsAppend(w, " ", SpaceChars);
    RemoveCharsSplice(w, ' ', SpaceChars);
  }

  lemma RemoveCharsSplice(w: string, c: char, bad: set<char>)
    requires c in bad && forall i :: 0 <= i < |w| ==> w[i] !in bad
    ensures RemoveChars(w, bad) + RemoveChars([c], bad) == w
  {
    assert RemoveChars([c], bad) == RemoveChars([], bad);
  }

  /** Collapsing whitespace keeps every other character, in order. */
  lemma CollapseKeepsText(s: string)
    ensures RemoveChars(Collapse(s), SpaceChars) == RemoveChars(s, SpaceChars)
  {
    JoinedWordsText(Words(s));
    WordsKeepText(s);
  }

  /** `s.replace(a, b)` for single characters. */
  function ReplaceChar(s: string, a: char, b: char): (r: string)
    ensures |r| == |s|
    ensures forall i :: 0 <= i < |s| ==> r[i] == if s[i] == a then b else s[i]
    ensures a != b ==> a !in r
    ensures forall c :: c in r ==> c == b || (c in s && c != a)
  {
    seq(|s|, i requires 0 <= i < |s| => if s[i] == a then b else s[i])
  }
}
