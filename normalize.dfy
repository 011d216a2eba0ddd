/*
 * The text normaliser of the stylesheet bundler: a fixed chain of five
 * rewrites (comments, imports, whitespace runs, space around punctuation,
 * trimming). Each regular-expression substitution is written as a scanner
 * that, like `re.sub`, tries to match at the current position, replaces the
 * match and resumes after it, or else keeps one character and moves on.
 */
module CssText {

  datatype Option<T> = None | Some(value: T)

  // ---------------------------------------------------------------------
  // Character classes and runs
  // ---------------------------------------------------------------------

  /** Whitespace as Python's `\s` (on str patterns) and `str.strip()` see it. */
  predicate IsWs(c: char) {
    var n := c as int;
    (0x09 <= n <= 0x0D) || (0x1C <= n <= 0x20) || n == 0x85 || n == 0xA0
    || n == 0x1680 || (0x2000 <= n <= 0x200A) || n == 0x2028 || n == 0x2029
    || n == 0x202F || n == 0x205F || n == 0x3000
  }

  /** The structural punctuation `{ } : ; ,` around which spaces are dropped. */
  predicate IsPunct(c: char) {
    c == '{' || c == '}' || c == ':' || c == ';' || c == ','
  }

  /** The whitespace class holds the ASCII blanks (space, tab, line feed,
      vertical tab, form feed, carriage return) and no punctuation. */
  lemma WhitespaceClass(c: char)
    ensures c == ' ' || c == '\t' || c == '\n' || c == '\r' || c as int == 0x0B || c as int == 0x0C ==> IsWs(c)
    ensures IsWs(c) ==> !IsPunct(c)
  {
  }

  predicate AllWs(s: string) {
    forall i :: 0 <= i < |s| ==> IsWs(s[i])
  }

  /** `s` holds no line break. */
  predicate NoNewline(s: string) {
    forall i :: 0 <= i < |s| ==> s[i] != '\n'
  }

  /** `w` occurs in `s` at position `k`. */
  predicate HasAt(s: string, k: nat, w: string) {
    k + |w| <= |s| && forall i :: 0 <= i < |w| ==> s[k + i] == w[i]
  }

  /** The text with every whitespace character taken out. */
  function NonWs(s: string): (r: string)
    ensures |r| <= |s|
  {
    if s == [] then [] else (if IsWs(s[0]) then [] else [s[0]]) + NonWs(s[1..])
  }

  /** Length of the whitespace run that starts at `k` (greedy `\s*`). */
  function WsRun(s: string, k: nat): (n: nat)
    requires k <= |s|
    ensures k + n <= |s|
    ensures forall i :: k <= i < k + n ==> IsWs(s[i])
    ensures k + n == |s| || !IsWs(s[k + n])
    decreases |s| - k
  {
    if k < |s| && IsWs(s[k]) then 1 + WsRun(s, k + 1) else 0
  }

  /** Start of the whitespace run that ends `s`, searching down to `lo`. */
  function WsTail(s: string, lo: nat, j: nat): (t: nat)
    requires lo <= j <= |s|
    requires forall i :: j <= i < |s| ==> IsWs(s[i])
    ensures lo <= t <= j
    ensures forall i :: t <= i < |s| ==> IsWs(s[i])
    ensures t == lo || !IsWs(s[t - 1])
    decreases j
  {
    if j > lo && IsWs(s[j - 1]) then WsTail(s, lo, j - 1) else j
  }

  // ---------------------------------------------------------------------
  // Step 1: `/\*.*?\*/` with DOTALL, replaced by nothing
  // ---------------------------------------------------------------------

  predicate OpenAt(s: string, k: int) {
    0 <= k && k + 1 < |s| && s[k] == '/' && s[k + 1] == '*'
  }

  predicate CloseAt(s: string, k: int) {
    0 <= k && k + 1 < |s| && s[k] == '*' && s[k + 1] == '/'
  }

  // The first closing marker that starts at or after `from` (the lazy `.*?`).
  function FindClose(s: string, from: nat): (r: Option<nat>)
    decreases |s| - from
    ensures r.Some? ==> from <= r.value && CloseAt(s, r.value)
    ensures r.Some? ==> forall k :: from <= k < r.value ==> !CloseAt(s, k)
    ensures r.None? ==> forall k :: from <= k ==> !CloseAt(s, k)
  {
    if from + 1 >= |s| then None
    else if CloseAt(s, from) then Some(from)
    else FindClose(s, from + 1)
  }

  // `strip_comments`: at each position the scan reaches, an opening marker
  // is removed together with everything up to and including its first
  // closing marker at least two characters later; the scan then resumes
  // after that closing marker, so an opener inside a removed comment is
  // never tried.
  function StripComments(s: string): (r: string)
    ensures |r| <= |s|
  {
    if s == [] then []
    else if OpenAt(s, 0) then
      match FindClose(s, 2)
      case Some(j) => StripComments(s[j + 2..])
      case None => [s[0]] + StripComments(s[1..])
    else [s[0]] + StripComments(s[1..])
  }

  // A complete comment: it opens with the opening marker, ends with the
  // closing marker, and holds no earlier closing marker after the opener.
  predicate IsComment(c: string) {
    |c| >= 4 && OpenAt(c, 0) && CloseAt(c, |c| - 2)
    && forall k :: 2 <= k < |c| - 2 ==> !CloseAt(c, k)
  }

  // ---------------------------------------------------------------------
  // Step 2: `@import\s+url\([^)]+\);\s*`, replaced by nothing
  // ---------------------------------------------------------------------

  /** Length of the run of characters other than `)` that starts at `k`. */
  function ArgRun(s: string, k: nat): (n: nat)
    requires k <= |s|
    ensures k + n <= |s|
    ensures forall i :: k <= i < k + n ==> s[i] != ')'
    ensures k + n == |s| || s[k + n] == ')'
    decreases |s| - k
  {
    if k < |s| && s[k] != ')' then 1 + ArgRun(s, k + 1) else 0
  }

  /** The lengths of the three variable parts of an import statement: the
      gap after `@import`, the `url(...)` argument and the trailing space. */
  datatype ImportMatch = ImportMatch(gap: nat, arg: nat, trail: nat) {
    function Len(): nat { 13 + gap + arg + trail }
  }

  /** `s` starts with `@import`, a non-empty whitespace gap, `url(`, a
      non-empty argument without `)`, `);` and a maximal whitespace run,
      and `m` gives the lengths of those parts. */
  predicate ImportShape(s: string, m: ImportMatch) {
    m.Len() <= |s|
    && HasAt(s, 0, "@import")
    && m.gap > 0 && (forall i :: 7 <= i < 7 + m.gap ==> IsWs(s[i]))
    && HasAt(s, 7 + m.gap, "url(")
    && m.arg > 0 && (forall i :: 11 + m.gap <= i < 11 + m.gap + m.arg ==> s[i] != ')')
    && HasAt(s, 11 + m.gap + m.arg, ");")
    && (forall i :: 13 + m.gap + m.arg <= i < m.Len() ==> IsWs(s[i]))
    && (m.Len() == |s| || !IsWs(s[m.Len()]))
  }
  function MatchImport(s: string): (m: Option<ImportMatch>)
    ensures m.Some? ==> m.value.Len() <= |s|
  {
    if !HasAt(s, 0, "@import") then None
    else
      var gap := WsRun(s, 7);
      if gap == 0 || !HasAt(s, 7 + gap, "url(") then None
      else
        var arg := ArgRun(s, 11 + gap);
        if arg == 0 || !HasAt(s, 11 + gap + arg, ");") then None
        else Some(ImportMatch(gap, arg, WsRun(s, 13 + gap + arg)))
  }

  function StripImports(s: string): (r: string)
    ensures |r| <= |s|
  {
    if s == [] then []
    else match MatchImport(s)
      case Some(m) => StripImports(s[m.Len()..])
      case None => [s[0]] + StripImports(s[1..])
  }

  // ---------------------------------------------------------------------
  // Step 3: `\s+` replaced by one space
  // ---------------------------------------------------------------------

  /** Every whitespace character is a plain space and none is followed by
      another whitespace character. */
  predicate SingleSpaced(s: string) {
    forall i :: 0 <= i < |s| && IsWs(s[i]) ==> s[i] == ' ' && (i + 1 == |s| || !IsWs(s[i + 1]))
  }

  function CollapseWs(s: string): (r: string)
    ensures |r| <= |s|
    ensures SingleSpaced(r)
    ensures s != [] ==> r != [] && r[0] == (if IsWs(s[0]) then ' ' else s[0])
  {
    if s == [] then []
    else if IsWs(s[0]) then [' '] + CollapseWs(s[WsRun(s, 0)..])
    else [s[0]] + CollapseWs(s[1..])
  }

  // ---------------------------------------------------------------------
  // Step 4: `\s*([{}:;,])\s*` replaced by the punctuation character
  // ---------------------------------------------------------------------

  /** No whitespace character sits right before or right after a
      punctuation character. */
  predicate Tight(s: string) {
    forall i :: 0 <= i < |s| - 1 ==>
      !(IsWs(s[i]) && IsPunct(s[i + 1])) && !(IsPunct(s[i]) && IsWs(s[i + 1]))
  }

  /** A match of the punctuation pattern: the punctuation character sits
      at `at` and the match is `len` characters long. */
  datatype PunctMatch = PunctMatch(at: nat, len: nat)

  /** The punctuation pattern tried at the start of `s`: a whitespace run,
      one punctuation character, and the whitespace run after it. */
  function MatchPunct(s: string): (m: Option<PunctMatch>)
    ensures m.Some? ==> m.value.at < m.value.len <= |s| && IsPunct(s[m.value.at])
    ensures m.Some? ==> forall i :: 0 <= i < m.value.len && i != m.value.at ==> IsWs(s[i])
    ensures m.Some? ==> m.value.len == |s| || !IsWs(s[m.value.len])
    ensures m.None? ==> WsRun(s, 0) == |s| || !IsPunct(s[WsRun(s, 0)])
  {
    var k := WsRun(s, 0);
    if k < |s| && IsPunct(s[k]) then Some(PunctMatch(k, k + 1 + WsRun(s, k + 1)))
    else None
  }

  function PunctStep(s: string): (r: string)
    ensures |r| <= |s|
  {
    if s == [] then []
    else match MatchPunct(s)
      case Some(m) => [s[m.at]] + PunctStep(s[m.len..])
      case None => [s[0]] + PunctStep(s[1..])
  }

  /** Tightening starts with whitespace only where no match starts, and
      with punctuation only where one does. */
  lemma PunctStepFirst(s: string)
    ensures PunctStep(s) != [] && IsWs(PunctStep(s)[0]) ==> s[0] == PunctStep(s)[0] && MatchPunct(s).None?
    ensures PunctStep(s) != [] && IsPunct(PunctStep(s)[0]) ==> MatchPunct(s).Some?
  {
  }

  // ---------------------------------------------------------------------
  // Step 5: `str.strip()`
  // ---------------------------------------------------------------------

  /** `str.strip()`: the text between the leading and the trailing
      whitespace runs. */
  function Trim(s: string): (r: string)
    ensures r == [] || (!IsWs(r[0]) && !IsWs(r[|r| - 1]))
    ensures WsRun(s, 0) + |r| <= |s|
    ensures r == s[WsRun(s, 0)..WsRun(s, 0) + |r|]
    ensures forall i :: WsRun(s, 0) + |r| <= i < |s| ==> IsWs(s[i])
  {
    var a := WsRun(s, 0);
    s[a..WsTail(s, a, |s|)]
  }

  // ---------------------------------------------------------------------
  // The pipeline
  // ---------------------------------------------------------------------

  /** `normalize`: the five steps in their fixed order. The result has no
      whitespace at either end, no whitespace other than single spaces (so
      no line break), and no space beside punctuation. */
  function Normalize(css: string): (r: string)
    ensures r == [] || (!IsWs(r[0]) && !IsWs(r[|r| - 1]))
    ensures SingleSpaced(r) && Tight(r)
    ensures NoNewline(r)
    ensures |r| <= |css|
  {
    var spaced := CollapseWs(StripImports(StripComments(css)));
    var tight := PunctStep(spaced);
    PunctStepTight(spaced);
    PunctStepKeepsSingleSpaced(spaced);
    TrimKeepsLayout(tight);
    Trim(tight)
  }

  /** Trimming a single-spaced, tight text leaves it single-spaced and
      tight, and so without line breaks. */
  lemma TrimKeepsLayout(s: string)
    requires SingleSpaced(s) && Tight(s)
    ensures SingleSpaced(Trim(s)) && Tight(Trim(s))
    ensures NoNewline(Trim(s))
  {
    SliceKeepsLayout(s, WsRun(s, 0), WsRun(s, 0) + |Trim(s)|);
  }

  /** Cutting a piece out of a text keeps its spacing properties. */
  lemma SliceKeepsLayout(s: string, a: nat, b: nat)
    requires a <= b <= |s|
    ensures SingleSpaced(s) ==> SingleSpaced(s[a..b])
    ensures Tight(s) ==> Tight(s[a..b])
  {
    assert forall i :: 0 <= i < b - a ==> s[a..b][i] == s[a + i];
  }

  /** After tightening no whitespace sits beside punctuation. */
  lemma {:induction false} PunctStepTight(s: string)
    ensures Tight(PunctStep(s))
    decreases |s|
  {
    if s != [] {
      var h, t := PunctStepSafeHead(s);
      PunctStepTight(t);
      TightCons(h, PunctStep(t));
    }
  }

  /** Tightening emits `h` and goes on with `t`, and what it emits next
      never puts whitespace beside punctuation together with `h`. */
  lemma PunctStepSafeHead(s: string) returns (h: char, t: string)
    requires s != []
    ensures |t| < |s|
    ensures PunctStep(s) == [h] + PunctStep(t)
    ensures PunctStep(t) != [] ==>
      !(IsWs(h) && IsPunct(PunctStep(t)[0])) && !(IsPunct(h) && IsWs(PunctStep(t)[0]))
  {
    match MatchPunct(s)
    case Some(m) =>
      h, t := s[m.at], s[m.len..];
      SafeAfterMatch(s, m);
    case None =>
      h, t := s[0], s[1..];
      SafeAfterPlain(s);
  }

  lemma SafeAfterMatch(s: string, m: PunctMatch)
    requires MatchPunct(s) == Some(m)
    ensures IsPunct(s[m.at]) && !IsWs(s[m.at])
    ensures PunctStep(s[m.len..]) != [] ==> !IsWs(PunctStep(s[m.len..])[0])
  {
    var t := s[m.len..];
    assert t != [] ==> t[0] == s[m.len];
    PunctStepFirst(t);
  }

  lemma SafeAfterPlain(s: string)
    requires s != [] && MatchPunct(s).None?
    ensures !IsPunct(s[0])
    ensures PunctStep(s[1..]) != [] && IsWs(s[0]) ==> !IsPunct(PunctStep(s[1..])[0])
  {
    if IsWs(s[0]) {
      WsRunShift(s, 1, 0);
    }
    PunctStepFirst(s[1..]);
  }

  lemma TightCons(c: char, t: string)
    requires Tight(t)
    requires t != [] ==> !(IsWs(c) && IsPunct(t[0])) && !(IsPunct(c) && IsWs(t[0]))
    ensures Tight([c] + t)
  {
    assert forall i :: 1 <= i < |t| + 1 ==> ([c] + t)[i] == t[i - 1];
  }

  /** Tightening keeps single spacing: it only deletes whitespace, and never
      brings two whitespace characters together. */
  lemma {:induction false} PunctStepKeepsSingleSpaced(s: string)
    requires SingleSpaced(s)
    ensures SingleSpaced(PunctStep(s))
  {
    if s != [] {
      match MatchPunct(s)
      case Some(m) =>
        var t := s[m.len..];
        assert SingleSpaced(t) by {
          assert forall i :: 0 <= i < |t| ==> t[i] == s[m.len + i];
        }
        PunctStepKeepsSingleSpaced(t);
        SingleSpacedCons(s[m.at], PunctStep(t));
      case None =>
        var t := s[1..];
        assert SingleSpaced(t) by {
          assert forall i :: 0 <= i < |t| ==> t[i] == s[1 + i];
        }
        PunctStepKeepsSingleSpaced(t);
        assert IsWs(s[0]) ==> PunctStep(t) == [] || !IsWs(PunctStep(t)[0]) by {
          assert |s| > 1 ==> t[0] == s[1];
        }
        SingleSpacedCons(s[0], PunctStep(t));
    }
  }

  lemma SingleSpacedCons(c: char, t: string)
    requires SingleSpaced(t)
    requires IsWs(c) ==> c == ' ' && (t == [] || !IsWs(t[0]))
    ensures SingleSpaced([c] + t)
  {
    assert forall i :: 1 <= i < |t| + 1 ==> ([c] + t)[i] == t[i - 1];
  }

  // ---------------------------------------------------------------------
  // Helper facts
  // ---------------------------------------------------------------------

  /** Runs measured in a suffix are the runs of the whole text. */
  lemma {:induction false} WsRunShift(s: string, d: nat, k: nat)
    requires d + k <= |s|
    ensures WsRun(s[d..], k) == WsRun(s, d + k)
    decreases |s| - d - k
  {
    if d + k < |s| && IsWs(s[d + k]) {
      WsRunShift(s, d, k + 1);
    }
  }

  lemma {:induction false} NonWsConcat(a: string, b: string)
    ensures NonWs(a + b) == NonWs(a) + NonWs(b)
  {
    if a == [] {
      assert a + b == b;
    } else {
      var h := if IsWs(a[0]) then [] else [a[0]];
      calc {
        NonWs(a + b);
        { assert (a + b)[0] == a[0]; assert (a + b)[1..] == a[1..] + b; }
        h + NonWs(a[1..] + b);
        { NonWsConcat(a[1..], b); }
        h + (NonWs(a[1..]) + NonWs(b));
        NonWs(a) + NonWs(b);
      }
    }
  }

  lemma {:induction false} AllWsNonWs(s: string)
    ensures AllWs(s) <==> NonWs(s) == []
  {
    if s != [] {
      AllWsNonWs(s[1..]);
      if NonWs(s) == [] {
        assert IsWs(s[0]);
        assert forall i :: 1 <= i < |s| ==> s[i] == s[1..][i - 1];
      }
    }
  }

  // ---------------------------------------------------------------------
  // Comment stripping
  // ---------------------------------------------------------------------

  /** A text in which no opening marker has a closing marker at least two
      characters later (in particular a text without any opening marker)
      comes out of comment stripping unchanged. */
  lemma {:induction false} StripCommentsKeepsUnclosed(s: string)
    requires forall i, k :: OpenAt(s, i) && i + 2 <= k ==> !CloseAt(s, k)
    ensures StripComments(s) == s
  {
    if s != [] {
      if OpenAt(s, 0) {
        assert FindClose(s, 2).None? by {
          assert forall k :: 2 <= k ==> !CloseAt(s, k);
        }
      }
      forall i, k | OpenAt(s[1..], i) && i + 2 <= k
        ensures !CloseAt(s[1..], k)
      {
        assert OpenAt(s, i + 1);
        assert CloseAt(s[1..], k) ==> CloseAt(s, k + 1);
      }
      StripCommentsKeepsUnclosed(s[1..]);
    }
  }

  /** An opening marker with no closing marker after it is kept, together
      with everything that follows it. */
  lemma StripCommentsKeepsUnterminated(s: string)
    requires OpenAt(s, 0)
    requires forall k :: 2 <= k ==> !CloseAt(s, k)
    ensures StripComments(s) == s
  {
    StripCommentsKeepsUnclosed(s);
  }

  /** A complete comment after a prefix without opening markers is removed
      up to its first closing marker, whatever characters (line breaks
      included) it spans; nothing else around it changes. */
  lemma {:induction false} StripCommentsRemovesComment(pre: string, c: string, rest: string)
    requires forall i :: !OpenAt(pre, i)
    requires IsComment(c)
    ensures StripComments(pre + c + rest) == pre + StripComments(rest)
  {
    var t := c + rest;
    AppendAssoc(pre, c, rest);
    if pre == [] {
      assert pre + t == t;
      CommentAtStart(c, rest);
    } else {
      OpenerFreeHead(pre, t);
      AppendAssoc(pre[1..], c, rest);
      StripCommentsRemovesComment(pre[1..], c, rest);
      HeadTail(pre, StripComments(rest));
    }
  }

  lemma AppendAssoc(a: string, b: string, c: string)
    ensures a + b + c == a + (b + c)
  {
  }

  lemma HeadTail(s: string, t: string)
    requires s != []
    ensures [s[0]] + (s[1..] + t) == s + t
  {
    assert [s[0]] + s[1..] == s;
  }


  /** A text that starts with a complete comment has its first closing
      marker where the comment ends. */
  lemma CommentAtStart(c: string, rest: string)
    requires IsComment(c)
    ensures OpenAt(c + rest, 0)
    ensures FindClose(c + rest, 2) == Some(|c| - 2)
    ensures (c + rest)[|c|..] == rest
  {
    var s := c + rest;
    assert CloseAt(s, |c| - 2);
    forall k | 2 <= k < |c| - 2
      ensures !CloseAt(s, k)
    {
      assert !CloseAt(c, k);
      assert s[k] == c[k] && s[k + 1] == c[k + 1];
    }
  }

  /** Before an opener-free prefix is used up, no comment starts at the
      front, and what follows the first character is opener-free too. */
  lemma OpenerFreeHead(pre: string, t: string)
    requires pre != [] && forall i :: !OpenAt(pre, i)
    requires t != [] ==> t[0] != '*' || |pre| >= 2 || pre[0] != '/'
    ensures !OpenAt(pre + t, 0)
    ensures (pre + t)[1..] == pre[1..] + t
    ensures forall i :: !OpenAt(pre[1..], i)
  {
    if |pre| >= 2 {
      assert !OpenAt(pre, 0);
    }
    forall i
      ensures !OpenAt(pre[1..], i)
    {
      assert !OpenAt(pre, i + 1);
    }
  }


  /** Text made only of whitespace and complete comments. */
  ghost predicate Blank(s: string)
    decreases |s|
  {
    s == []
    || (IsWs(s[0]) && Blank(s[1..]))
    || (exists k :: 4 <= k <= |s| && IsComment(s[..k]) && Blank(s[k..]))
  }

  lemma {:induction false} StripCommentsOfBlank(s: string)
    requires Blank(s)
    ensures AllWs(StripComments(s))
    decreases |s|
  {
    if s == [] {
    } else if IsWs(s[0]) && Blank(s[1..]) {
      StripCommentsOfBlank(s[1..]);
    } else {
      var k :| 4 <= k <= |s| && IsComment(s[..k]) && Blank(s[k..]);
      assert s == [] + s[..k] + s[k..];
      StripCommentsRemovesComment([], s[..k], s[k..]);
      StripCommentsOfBlank(s[k..]);
    }
  }

  // ---------------------------------------------------------------------
  // Import stripping
  // ---------------------------------------------------------------------

  lemma {:induction false} WsRunExact(s: string, k: nat, n: nat)
    requires k + n <= |s|
    requires forall i :: k <= i < k + n ==> IsWs(s[i])
    requires k + n == |s| || !IsWs(s[k + n])
    ensures WsRun(s, k) == n
    decreases n
  {
    if n > 0 {
      WsRunExact(s, k + 1, n - 1);
    }
  }

  lemma {:induction false} ArgRunExact(s: string, k: nat, n: nat)
    requires k + n <= |s|
    requires forall i :: k <= i < k + n ==> s[i] != ')'
    requires k + n == |s| || s[k + n] == ')'
    ensures ArgRun(s, k) == n
    decreases n
  {
    if n > 0 {
      ArgRunExact(s, k + 1, n - 1);
    }
  }

  /** Whatever the matcher accepts has the shape of an import statement. */
  lemma MatchImportSound(s: string)
    requires MatchImport(s).Some?
    ensures ImportShape(s, MatchImport(s).value)
  {
    var gap := WsRun(s, 7);
    var arg := ArgRun(s, 11 + gap);
    var trail := WsRun(s, 13 + gap + arg);
    assert MatchImport(s) == Some(ImportMatch(gap, arg, trail));
  }

  /** Every import statement of the required shape is recognised: together
      with the contract of `MatchImport`, a match at the start of `s` with
      part lengths `m` exists exactly when `ImportShape(s, m)` holds. */
  lemma MatchImportComplete(s: string, m: ImportMatch)
    requires ImportShape(s, m)
    ensures MatchImport(s) == Some(m)
  {
    ImportShapeRuns(s, m);
  }

  /** The lengths recorded in an import shape are those of the maximal runs
      the matcher measures. */
  lemma ImportShapeRuns(s: string, m: ImportMatch)
    requires ImportShape(s, m)
    ensures WsRun(s, 7) == m.gap
    ensures ArgRun(s, 11 + m.gap) == m.arg
    ensures WsRun(s, 13 + m.gap + m.arg) == m.trail
  {
    assert s[7 + m.gap + 0] == "url("[0];
    WsRunExact(s, 7, m.gap);
    assert s[11 + m.gap + m.arg + 0] == ");"[0];
    ArgRunExact(s, 11 + m.gap, m.arg);
    WsRunExact(s, 13 + m.gap + m.arg, m.trail);
  }



  /** An import statement is removed together with the whitespace after it,
      and scanning resumes right after it. */
  lemma StripImportsRemovesStatement(s: string, m: ImportMatch)
    requires ImportShape(s, m)
    ensures StripImports(s) == StripImports(s[m.Len()..])
  {
    MatchImportComplete(s, m);
  }

  /** A character at which no import statement starts is kept. */
  lemma StripImportsSkips(c: char, t: string)
    requires MatchImport([c] + t).None?
    ensures StripImports([c] + t) == [c] + StripImports(t)
  {
    assert ([c] + t)[1..] == t;
  }

  lemma ConsAppend(c: char, a: string, b: string)
    ensures [c] + (a + b) == [c] + a + b
  {
  }

  /** A character other than `@` is kept. */
  lemma StripImportsKeepsChar(c: char, t: string)
    requires c != '@'
    ensures StripImports([c] + t) == [c] + StripImports(t)
  {
    assert !HasAt([c] + t, 0, "@import") by {
      assert ([c] + t)[0 + 0] == c != "@import"[0];
    }
    StripImportsSkips(c, t);
  }

  /** Text without an `@` passes import stripping unchanged. */
  lemma {:induction false} StripImportsKeepsPlainText(pre: string, t: string)
    requires forall i :: 0 <= i < |pre| ==> pre[i] != '@'
    ensures StripImports(pre + t) == pre + StripImports(t)
  {
    if pre == [] {
      assert pre + t == t;
    } else {
      var rest := pre[1..] + t;
      assert StripImports(pre + t) == [pre[0]] + StripImports(rest) by {
        assert [pre[0]] + pre[1..] == pre;
        ConsAppend(pre[0], pre[1..], t);
        StripImportsKeepsChar(pre[0], rest);
      }
      assert StripImports(rest) == pre[1..] + StripImports(t) by {
        StripImportsKeepsPlainText(pre[1..], t);
      }
      assert [pre[0]] + (pre[1..] + StripImports(t)) == pre + StripImports(t) by {
        ConsAppend(pre[0], pre[1..], StripImports(t));
        assert [pre[0]] + pre[1..] == pre;
      }
    }
  }

  /** A text whose first character starts no import statement and whose
      other characters are not `@` passes import stripping unchanged. */
  lemma StripImportsKeepsRejected(c: char, mid: string, t: string)
    requires MatchImport([c] + (mid + t)).None?
    requires forall i :: 0 <= i < |mid| ==> mid[i] != '@'
    ensures StripImports([c] + (mid + t)) == [c] + (mid + StripImports(t))
  {
    StripImportsSkips(c, mid + t);
    StripImportsKeepsPlainText(mid, t);
  }

  /** `@import url();`: a statement whose argument is empty is not
      matched, whatever whitespace separates `@import` from `url(`. */
  lemma MatchImportRejectsEmptyArgument(s: string, gap: nat)
    requires HasAt(s, 7 + gap, "url()")
    requires forall i :: 7 <= i < 7 + gap ==> IsWs(s[i])
    ensures MatchImport(s).None?
  {
    assert s[7 + gap + 0] == "url()"[0];
    assert s[7 + gap + 4] == "url()"[4];
    WsRunExact(s, 7, gap);
    ArgRunExact(s, 11 + gap, 0);
  }

  /** `@importurl(x);`: a statement without whitespace after `@import` is
      not matched. */
  lemma MatchImportRejectsMissingGap(s: string)
    requires 7 < |s| && !IsWs(s[7])
    ensures MatchImport(s).None?
  {
    WsRunExact(s, 7, 0);
  }

  // ---------------------------------------------------------------------
  // Whitespace collapsing and punctuation tightening
  // ---------------------------------------------------------------------

  /** Collapsing only rewrites whitespace: the other characters survive, in
      order. */
  lemma {:induction false} CollapseWsKeepsText(s: string)
    ensures NonWs(CollapseWs(s)) == NonWs(s)
    decreases |s|
  {
    if s != [] {
      if IsWs(s[0]) {
        var w := WsRun(s, 0);
        assert s == s[..w] + s[w..];
        NonWsConcat(s[..w], s[w..]);
        AllWsNonWs(s[..w]);
        NonWsConcat([' '], CollapseWs(s[w..]));
        CollapseWsKeepsText(s[w..]);
      } else {
        assert [s[0]] + CollapseWs(s[1..]) == CollapseWs(s);
        NonWsConcat([s[0]], CollapseWs(s[1..]));
        CollapseWsKeepsText(s[1..]);
      }
    }
  }

  /** Collapsing leaves already single-spaced text alone. */
  lemma {:induction false} CollapseWsFixesSingleSpaced(s: string)
    requires SingleSpaced(s)
    ensures CollapseWs(s) == s
  {
    if s != [] {
      SingleSpacedFront(s);
      CollapseWsFixesSingleSpaced(s[1..]);
      assert [s[0]] + s[1..] == s;
    }
  }

  /** Single-spaced text collapses one character at a time. */
  lemma SingleSpacedFront(s: string)
    requires s != [] && SingleSpaced(s)
    ensures SingleSpaced(s[1..])
    ensures CollapseWs(s) == [s[0]] + CollapseWs(s[1..])
  {
    assert forall i :: 0 <= i < |s| - 1 ==> s[1..][i] == s[1 + i];
    if IsWs(s[0]) {
      WsRunExact(s, 0, 1);
    }
  }

  /** A whitespace run that starts inside a text ending in a
      non-whitespace character ends inside it, whatever follows. */
  lemma {:induction false} WsRunInPrefix(a: string, t: string, k: nat)
    requires k < |a| && !IsWs(a[|a| - 1])
    ensures k + WsRun(a, k) < |a|
    ensures WsRun(a + t, k) == WsRun(a, k)
  {
    var n := WsRun(a, k);
    assert k + n < |a|;
    assert forall i :: k <= i <= k + n ==> (a + t)[i] == a[i];
    WsRunExact(a + t, k, n);
  }

  /** No whitespace run crosses a boundary that follows a non-whitespace
      character, so collapsing works on each side separately. */
  lemma {:induction false} CollapseWsConcat(a: string, t: string)
    requires a == [] || !IsWs(a[|a| - 1])
    ensures CollapseWs(a + t) == CollapseWs(a) + CollapseWs(t)
    decreases |a|
  {
    if a == [] {
      assert a + t == t;
    } else {
      assert (a + t)[0] == a[0];
      var k := if IsWs(a[0]) then WsRun(a, 0) else 1;
      if IsWs(a[0]) {
        WsRunInPrefix(a, t, 0);
      }
      assert (a + t)[k..] == a[k..] + t;
      CollapseWsConcat(a[k..], t);
      var h := if IsWs(a[0]) then ' ' else a[0];
      ConsAppend(h, CollapseWs(a[k..]), CollapseWs(t));
    }
  }

  /** A whitespace run at the front becomes one space. */
  lemma CollapseWsGap(w: string, b: string)
    requires w != [] && AllWs(w)
    requires b == [] || !IsWs(b[0])
    ensures CollapseWs(w + b) == [' '] + CollapseWs(b)
  {
    assert forall i :: 0 <= i < |w| ==> (w + b)[i] == w[i];
    WsRunExact(w + b, 0, |w|);
    assert (w + b)[|w|..] == b;
  }

  /** Each whitespace run between two other characters, or at either end,
      becomes exactly one space in its place; the text on both sides is
      collapsed on its own. */
  lemma CollapseWsSplit(a: string, w: string, b: string)
    requires a == [] || !IsWs(a[|a| - 1])
    requires w != [] && AllWs(w)
    requires b == [] || !IsWs(b[0])
    ensures CollapseWs(a + w + b) == CollapseWs(a) + " " + CollapseWs(b)
  {
    AppendAssoc(a, w, b);
    CollapseWsConcat(a, w + b);
    CollapseWsGap(w, b);
    AppendAssoc(CollapseWs(a), " ", CollapseWs(b));
  }

  /** Collapsing keeps a final non-whitespace character at the end. */
  lemma {:induction false} CollapseWsLast(a: string)
    requires a != [] && !IsWs(a[|a| - 1])
    ensures CollapseWs(a) != [] && CollapseWs(a)[|CollapseWs(a)| - 1] == a[|a| - 1]
    decreases |a|
  {
    if IsWs(a[0]) {
      var k := WsRun(a, 0);
      assert k < |a|;
      CollapseWsLast(a[k..]);
      LastOfCons(' ', CollapseWs(a[k..]));
    } else if |a| > 1 {
      CollapseWsLast(a[1..]);
      LastOfCons(a[0], CollapseWs(a[1..]));
    }
  }

  lemma LastOfCons(c: char, t: string)
    requires t != []
    ensures ([c] + t)[|t|] == t[|t| - 1]
  {
  }


  /** The text a punctuation match covers carries only its punctuation
      character. */
  lemma MatchPunctText(s: string)
    requires MatchPunct(s).Some?
    ensures NonWs(s[..MatchPunct(s).value.len]) == [s[MatchPunct(s).value.at]]
  {
    var m := MatchPunct(s).value;
    var head := s[..m.len];
    assert head == head[..m.at] + ([s[m.at]] + head[m.at + 1..]);
    NonWsConcat(head[..m.at], [s[m.at]] + head[m.at + 1..]);
    NonWsConcat([s[m.at]], head[m.at + 1..]);
    AllWsNonWs(head[..m.at]);
    AllWsNonWs(head[m.at + 1..]);
    assert NonWs([s[m.at]]) == [s[m.at]] by {
      assert [s[m.at]][1..] == [];
    }
  }

  /** Tightening only deletes whitespace. */
  lemma {:induction false} PunctStepKeepsText(s: string)
    ensures NonWs(PunctStep(s)) == NonWs(s)
    decreases |s|
  {
    if s != [] {
      match MatchPunct(s)
      case Some(m) =>
        var t := s[m.len..];
        assert NonWs(s) == [s[m.at]] + NonWs(t) by {
          assert s == s[..m.len] + t;
          NonWsConcat(s[..m.len], t);
          MatchPunctText(s);
        }
        assert NonWs(PunctStep(s)) == [s[m.at]] + NonWs(PunctStep(t)) by {
          assert PunctStep(s) == [s[m.at]] + PunctStep(t);
          NonWsConcat([s[m.at]], PunctStep(t));
          assert [s[m.at]][1..] == [];
        }
        PunctStepKeepsText(t);
      case None =>
        var t := s[1..];
        assert NonWs(s) == NonWs([s[0]]) + NonWs(t) by {
          assert s == [s[0]] + t;
          NonWsConcat([s[0]], t);
        }
        assert NonWs(PunctStep(s)) == NonWs([s[0]]) + NonWs(PunctStep(t)) by {
          assert PunctStep(s) == [s[0]] + PunctStep(t);
          NonWsConcat([s[0]], PunctStep(t));
        }
        PunctStepKeepsText(t);
    }
  }

  lemma TightTail(s: string)
    requires s != [] && Tight(s)
    ensures Tight(s[1..])
  {
    assert forall i :: 0 <= i < |s| - 1 ==> s[1..][i] == s[1 + i];
  }

  /** In tight text no character is dropped at the front. */
  lemma PunctStepKeepsHead(s: string)
    requires s != [] && Tight(s)
    ensures PunctStep(s) == [s[0]] + PunctStep(s[1..])
  {
    var k := WsRun(s, 0);
    if IsPunct(s[0]) {
      WsRunExact(s, 0, 0);
      WsRunExact(s, 1, 0);
      assert MatchPunct(s) == Some(PunctMatch(0, 1));
    } else {
      assert k == |s| || !IsPunct(s[k]) by {
        if 0 < k < |s| {
          assert IsWs(s[k - 1]);
        }
      }
    }
  }

  /** Tightening leaves text alone that has no whitespace beside
      punctuation. */
  lemma {:induction false} PunctStepFixesTight(s: string)
    requires Tight(s)
    ensures PunctStep(s) == s
  {
    if s != [] {
      PunctStepKeepsHead(s);
      TightTail(s);
      PunctStepFixesTight(s[1..]);
      assert [s[0]] + s[1..] == s;
    }
  }

  /** A text that ends in a character that is neither whitespace nor
      punctuation ends every punctuation match that starts in it, whatever
      follows. */
  lemma {:induction false} MatchPunctInPrefix(a: string, t: string)
    requires a != [] && !IsWs(a[|a| - 1]) && !IsPunct(a[|a| - 1])
    ensures MatchPunct(a + t) == MatchPunct(a)
    ensures MatchPunct(a).Some? ==> MatchPunct(a).value.len < |a|
  {
    var k := WsRun(a, 0);
    WsRunInPrefix(a, t, 0);
    if IsPunct(a[k]) {
      PunctInPrefix(a, t, k);
    } else {
      assert (a + t)[k] == a[k];
      MatchPunctNone(a + t, k);
      MatchPunctNone(a, k);
    }
  }

  lemma {:induction false} PunctInPrefix(a: string, t: string, k: nat)
    requires k < |a| && !IsPunct(a[|a| - 1]) && !IsWs(a[|a| - 1])
    requires WsRun(a, 0) == k && WsRun(a + t, 0) == k && IsPunct(a[k])
    ensures MatchPunct(a + t) == MatchPunct(a)
    ensures MatchPunct(a).Some? && MatchPunct(a).value.len < |a|
  {
    var n := WsRun(a, k + 1);
    WsRunInPrefix(a, t, k + 1);
    MatchPunctAt(a, k, n);
    assert (a + t)[k] == a[k];
    MatchPunctAt(a + t, k, n);
  }

  lemma MatchPunctAt(s: string, k: nat, n: nat)
    requires k < |s| && WsRun(s, 0) == k && IsPunct(s[k]) && WsRun(s, k + 1) == n
    ensures MatchPunct(s) == Some(PunctMatch(k, k + 1 + n))
  {
  }

  lemma MatchPunctNone(s: string, k: nat)
    requires k <= |s| && WsRun(s, 0) == k && (k == |s| || !IsPunct(s[k]))
    ensures MatchPunct(s).None?
  {
  }

  /** No punctuation match crosses a boundary that follows a character that
      is neither whitespace nor punctuation, so tightening works on each
      side separately. */
  lemma {:induction false} PunctStepConcat(a: string, t: string)
    requires a == [] || (!IsWs(a[|a| - 1]) && !IsPunct(a[|a| - 1]))
    ensures PunctStep(a + t) == PunctStep(a) + PunctStep(t)
    decreases |a|
  {
    if a == [] {
      NilAppend(a, t);
    } else {
      var h, u := PunctStepFront(a, t);
      PunctStepConcat(u, t);
      ConsStep(h, PunctStep(u), PunctStep(t), PunctStep(u + t), PunctStep(a), PunctStep(a + t));
    }
  }

  /** The first step of tightening `a + t` is the first step of tightening
      `a`: both emit `h`, and go on with `u`, the rest of `a`, and with
      `u + t`. */
  lemma PunctStepFront(a: string, t: string) returns (h: char, u: string)
    requires a != [] && !IsWs(a[|a| - 1]) && !IsPunct(a[|a| - 1])
    ensures |u| < |a|
    ensures u == [] || (!IsWs(u[|u| - 1]) && !IsPunct(u[|u| - 1]))
    ensures PunctStep(a) == [h] + PunctStep(u)
    ensures PunctStep(a + t) == [h] + PunctStep(u + t)
  {
    MatchPunctInPrefix(a, t);
    match MatchPunct(a)
    case Some(m) =>
      h, u := a[m.at], a[m.len..];
      assert (a + t)[m.at] == a[m.at];
      assert (a + t)[m.len..] == u + t;
      assert u != [] ==> u[|u| - 1] == a[|a| - 1];
    case None =>
      h, u := a[0], a[1..];
      assert (a + t)[0] == a[0];
      assert (a + t)[1..] == u + t;
      assert u != [] ==> u[|u| - 1] == a[|a| - 1];
  }

  lemma NilAppend(a: string, t: string)
    requires a == []
    ensures a + t == t && PunctStep(a) == []
  {
  }

  lemma ConsStep(h: char, x: string, y: string, xy: string, hx: string, hxy: string)
    requires xy == x + y && hx == [h] + x && hxy == [h] + xy
    ensures hxy == hx + y
  {
    ConsAppend(h, x, y);
  }

  /** A space followed by a character that is neither whitespace nor
      punctuation is no match, and is kept. */
  lemma PunctStepGap(b: string)
    requires b == [] || (!IsWs(b[0]) && !IsPunct(b[0]))
    ensures PunctStep([' '] + b) == [' '] + PunctStep(b)
  {
    var s := [' '] + b;
    WsRunExact(s, 0, 1);
    assert s[1..] == b;
  }

  /** A space between two characters that are neither whitespace nor
      punctuation survives tightening, in its place. */
  lemma PunctStepKeepsSpace(a: string, b: string)
    requires a == [] || (!IsWs(a[|a| - 1]) && !IsPunct(a[|a| - 1]))
    requires b == [] || (!IsWs(b[0]) && !IsPunct(b[0]))
    ensures PunctStep(a + " " + b) == PunctStep(a) + " " + PunctStep(b)
  {
    AppendAssoc(a, " ", b);
    PunctStepConcat(a, " " + b);
    PunctStepGap(b);
    AppendAssoc(PunctStep(a), " ", PunctStep(b));
  }

  /** Between two words (ends that are neither whitespace nor punctuation)
      a whitespace run comes out of collapsing and tightening as exactly one
      space: a descendant selector such as `.a  .b` keeps its space. */
  lemma CollapseAndTightenKeepWordGap(a: string, w: string, b: string)
    requires a != [] && !IsWs(a[|a| - 1]) && !IsPunct(a[|a| - 1])
    requires w != [] && AllWs(w)
    requires b != [] && !IsWs(b[0]) && !IsPunct(b[0])
    ensures PunctStep(CollapseWs(a + w + b)) == PunctStep(CollapseWs(a)) + " " + PunctStep(CollapseWs(b))
  {
    CollapseWsSplit(a, w, b);
    CollapseWsLast(a);
    PunctStepKeepsSpace(CollapseWs(a), CollapseWs(b));
  }

  // ---------------------------------------------------------------------
  // The whole pipeline
  // ---------------------------------------------------------------------

  lemma SliceJoin(s: string, a: nat, b: nat)
    requires a <= b <= |s|
    ensures s[..a] + s[a..b] + s[b..] == s
  {
    assert s[..a] + s[a..b] == s[..b];
  }

  lemma NonWsSplit(s: string, a: nat, b: nat)
    requires a <= b <= |s|
    ensures NonWs(s) == NonWs(s[..a]) + NonWs(s[a..b]) + NonWs(s[b..])
  {
    SliceJoin(s, a, b);
    NonWsConcat(s[..a] + s[a..b], s[b..]);
    NonWsConcat(s[..a], s[a..b]);
  }

  lemma WsEnds(s: string, a: nat, b: nat)
    requires a <= b <= |s|
    requires forall i :: 0 <= i < a ==> IsWs(s[i])
    requires forall i :: b <= i < |s| ==> IsWs(s[i])
    ensures AllWs(s[..a]) && AllWs(s[b..])
  {
    assert forall i :: 0 <= i < a ==> s[..a][i] == s[i];
    assert forall i :: 0 <= i < |s| - b ==> s[b..][i] == s[b + i];
  }

  /** Whitespace around a piece of text carries no other character. */
  lemma NonWsOfPadded(s: string, a: nat, b: nat)
    requires a <= b <= |s|
    requires forall i :: 0 <= i < a ==> IsWs(s[i])
    requires forall i :: b <= i < |s| ==> IsWs(s[i])
    ensures NonWs(s) == NonWs(s[a..b])
  {
    NonWsSplit(s, a, b);
    WsEnds(s, a, b);
    AllWsNonWs(s[..a]);
    AllWsNonWs(s[b..]);
  }

  /** Trimming only removes whitespace. */
  lemma TrimKeepsText(s: string)
    ensures NonWs(Trim(s)) == NonWs(s)
  {
    NonWsOfPadded(s, WsRun(s, 0), WsRun(s, 0) + |Trim(s)|);
  }

  /** Once comments and import statements are gone, normalising changes
      only whitespace: every other character is kept, in order. */
  lemma NormalizeKeepsText(css: string)
    ensures NonWs(Normalize(css)) == NonWs(StripImports(StripComments(css)))
  {
    var u := StripImports(StripComments(css));
    CollapseWsKeepsText(u);
    PunctStepKeepsText(CollapseWs(u));
    TrimKeepsText(PunctStep(CollapseWs(u)));
  }

  /** Text made only of whitespace and complete comments normalises to the
      empty text. */
  lemma NormalizeOfBlank(css: string)
    requires Blank(css)
    ensures Normalize(css) == []
  {
    var u := StripComments(css);
    StripCommentsOfBlank(css);
    assert StripImports(u) == u by {
      assert u + [] == u;
      StripImportsKeepsPlainText(u, []);
    }
    AllWsNonWs(u);
    CollapseWsKeepsText(u);
    var v := CollapseWs(u);
    PunctStepKeepsText(v);
    var p := PunctStep(v);
    AllWsNonWs(p);
  }

  /** Removing one comment can bring two markers together into a new
      opening marker: here the first pass leaves a complete comment. */
  lemma StripCommentsSplices()
    ensures StripComments("//*x*/*y*/") == "/*y*/"
  {
    assert "//*x*/*y*/" == "/" + "/*x*/" + "*y*/";
    assert IsComment("/*x*/");
    StripCommentsRemovesComment("/", "/*x*/", "*y*/");
    StripCommentsKeepsUnclosed("*y*/");
    assert "/" + "*y*/" == "/*y*/";
  }

  /** Comment stripping is not idempotent: a second pass removes the
      comment that the first pass spliced together. */
  lemma StripCommentsNotIdempotent()
    ensures StripComments("//*x*/*y*/") != StripComments(StripComments("//*x*/*y*/"))
  {
    StripCommentsSplices();
    SplicedComment();
    StripCommentsOfComment("/*y*/");
  }

  lemma SplicedComment()
    ensures IsComment("/*y*/")
  {
    assert !CloseAt("/*y*/", 2);
  }

  /** A text that is one complete comment strips to nothing. */
  lemma StripCommentsOfComment(c: string)
    requires IsComment(c)
    ensures StripComments(c) == []
  {
    StripCommentsRemovesComment([], c, []);
    assert [] + c + [] == c;
  }
}
